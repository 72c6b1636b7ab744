/**
 What a client may put in front of `#id`. build() takes any target text, and a
 target is harmless when it is no request by itself and does not make the echo
 of the line look like a reply. Both conditions are exact.
 */
module Targets {
  import opened Text
  import opened Wire
  import opened Framing
  import opened Tokens
  import opened Correlator
  import Outbound

  predicate IsSender(name: string) {
    ':' !in name && NoNul(name)
  }

  /** A request line of the client: the target, the id, a space and the rest. */
  function ClientLine(target: string, id: nat, rest: string): string {
    target + ("#" + (Decimal(id) + (" " + rest)))
  }

  /** What a node reads of a line of the chat: C sees it up to its first NUL. */
  function NodeReads(name: string, line: string): Parsed {
    Parse(Cpp, StripSender(CStr(Framed(name, line))))
  }

  /** No target that passes is a request by itself, or makes the echo look like a reply. */
  predicate SafeTarget(target: string) {
    Parse(Cpp, CStr(target)).result != Ok && RequestId(Split(target + "#0")).None?
  }

  // ----- text before a '#' ----------------------------------------------------------

  lemma TokenBeforeHash(s: string, z: string)
    requires z != "" && z[0] == '#'
    ensures ReadToken(Ident, s + z) == match ReadToken(Ident, s)
                                       case NoToken => NoToken
                                       case Token(w, rest) => Token(w, rest + z)
  {
    hide Run;
    var p := Skip(Blank, s);
    RunFront(Blank, s, z);
    RunFront(Ident, p, z);
    assert (p + z)[Run(Ident, p)..] == p[Run(Ident, p)..] + z;
  }

  lemma GroupBeforeHash(p: string, z: string)
    requires z != "" && z[0] == '#'
    ensures GroupAhead(Cpp, p + z) <==> GroupAhead(Cpp, p)
    ensures GroupAhead(Cpp, p) ==> (p + z)[6..] == p[6..] + z
  {
    if |p| >= 6 {
      assert (p + z)[..6] == p[..6];
    } else if |p + z| >= 6 {
      assert (p + z)[..6][|p|] == '#';
      assert "group:"[|p|] != '#' && "GROUP:"[|p|] != '#';
    }
  }

  lemma TargetBeforeHash(p: string, z: string)
    requires z != "" && z[0] == '#' && p != ""
    ensures ReadTarget(Cpp, p + z) == match ReadTarget(Cpp, p)
                                      case NoTarget(k) => NoTarget(k)
                                      case Target(k, t, rest) => Target(k, t, rest + z)
  {
    hide Run, Kept, NameKind, ReadToken, GroupAhead;
    GroupBeforeHash(p, z);
    if p[0] == '@' {
      var h := p[1..];
      assert (p + z)[1..] == h + z;
      RunFront(Hex, h, z);
      assert (h + z)[Run(Hex, h)..] == h[Run(Hex, h)..] + z;
    } else if GroupAhead(Cpp, p) {
      GroupIsSix(Cpp, p);
      TokenBeforeHash(p[6..], z);
    } else {
      TokenBeforeHash(p, z);
    }
  }

  /** Two parses that agree on the outcome and, when there is one, on the id. */
  predicate SameId(a: Parsed, b: Parsed) {
    a.result == b.result && a.request.hasId == b.request.hasId && a.request.id == b.request.id
  }

  lemma CommandBeforeHash(r: Request, s: string, z: string)
    requires z != "" && z[0] == '#'
    ensures SameId(ReadCommand(Cpp, r, s + z), ReadCommand(Cpp, r, s))
  {
    hide ReadToken, ReadArgs, CommandOf;
    TokenBeforeHash(s, z);
  }

  /** The id a node reads of a numeral: its first fifteen digits, cut to 32 bits. */
  function IdAsRead(id: nat): nat {
    IdValue(Cpp, Cut(Decimal(id), MAX_ID_DIGITS))
  }

  lemma NumeralIsRead(r: Request, id: nat, more: string)
    requires more != "" ==> !Is(Digit, more[0])
    ensures var q := ReadId(Cpp, r, "#" + (Decimal(id) + more));
            q.IdRead? && q.request == r.(hasId := true, id := IdAsRead(id))
  {
    hide Run, ReadId, Decimal, IdValue;
    var ds := Decimal(id);
    ReadIdAhead(Cpp, r, ds, more);
    assert ds[..|ds|] == ds;
  }

  /** It is the id itself exactly below 2^32, and the id modulo 2^32 up to fifteen digits. */
  lemma IdAsReadExactly(id: nat)
    ensures IdAsRead(id) == id <==> id < UINT32_SIZE
    ensures id < Pow10(MAX_ID_DIGITS) ==> IdAsRead(id) == id % UINT32_SIZE
  {
    hide Decimal, Value, Pow10;
    if id < Pow10(MAX_ID_DIGITS) {
      DecimalLength(id, MAX_ID_DIGITS);
      ValueOfDecimal(id);
      Value15(Decimal(id));
    }
    Pow10At15();
  }

  lemma Pow10At15()
    ensures Pow10(15) == 1_000_000_000_000_000
  {
    assert Pow10(3) == 1000 && Pow10(6) == 1_000_000 && Pow10(9) == 1_000_000_000 && Pow10(12) == 1_000_000_000_000;
  }

  predicate CarriesId(p: Parsed, id: nat) {
    p.result == Ok ==> p.request.hasId && p.request.id == id
  }

  /** After the target, the line's own id is read if there is nothing before it. */
  lemma AfterTargetBeforeTag(r: Request, rest: string, id: nat, more: string)
    requires IsTargetText(r.kind, r.target)
    ensures var own, all := AfterTarget(Cpp, r, rest), AfterTarget(Cpp, r, ClientLine(rest, id, more));
            if own.result == Ok then SameId(all, own) else CarriesId(all, IdAsRead(id))
  {
    hide Run, Skip, Decimal, ReadId, ReadCommand, SplitGlued, IdAsRead;
    var z := "#" + (Decimal(id) + (" " + more));
    var q := Skip(Blank, rest);
    NoGluedId(Cpp, r);
    RunFront(Blank, rest, z);
    if q == "" {
      assert q + z == z;
      NumeralIsRead(r, id, " " + more);
      IdIsKept(Cpp, r.(hasId := true, id := IdAsRead(id)), ReadId(Cpp, r, z).rest);
      NothingAfter(r);
    } else {
      IdFront(Cpp, r, q, z);
      match ReadId(Cpp, r, q)
      case BadId =>
      case IdRead(r', rest') => CommandBeforeHash(r', rest', z);
    }
  }

  lemma NothingAfter(r: Request)
    ensures ReadId(Cpp, r, "") == IdRead(r, "") && ReadCommand(Cpp, r, "").result != Ok
  {
    Outbound.NoTokenIn(Ident);
  }

  lemma IdIsKept(d: Dialect, r: Request, s: string)
    ensures ReadCommand(d, r, s).request.hasId == r.hasId && ReadCommand(d, r, s).request.id == r.id
  {
  }

  lemma ParseFromStart(d: Dialect, s: string)
    ensures Start(s) != "" ==> Parse(d, s) == ParseTarget(d, Start(s))
    ensures Start(s) == "" ==> Parse(d, s).result != Ok
  {
    hide Run, Skip, ParseTarget;
    SkipNothing(Blank);
  }

  lemma StartBeforeHash(t: string, z: string)
    requires z != "" && z[0] == '#'
    ensures Start(t + z) == Start(t) + z
  {
    hide Run, Skip;
    var a := Skip(Blank, t);
    var b := Skip(LineEnd, a);
    RunFront(Blank, t, z);
    RunFront(LineEnd, a, z);
    RunFront(Blank, b, z);
  }

  /**
   A NUL-free target in front of the tag: if it is a request by itself, the whole
   line is that request as far as the id goes; if not, the line carries its own id.
   */
  lemma OwnRequestWins(t: string, id: nat, more: string)
    ensures var own, all := Parse(Cpp, t), Parse(Cpp, ClientLine(t, id, more));
            if own.result == Ok then SameId(all, own) else CarriesId(all, IdAsRead(id))
  {
    hide Run, Skip, Decimal, Parse, AfterTarget, ReadTarget, Start, IdAsRead;
    var z := "#" + (Decimal(id) + (" " + more));
    var p := Start(t);
    StartBeforeHash(t, z);
    ParseFromStart(Cpp, t);
    ParseFromStart(Cpp, t + z);
    if p == "" {
      assert p + z == z;
      HashLineIsMalformed(Cpp, z);
      StartOfHash(z);
      ParseFromStart(Cpp, z);
    } else {
      TargetBeforeHash(p, z);
      match ReadTarget(Cpp, p)
      case NoTarget(_) =>
      case Target(kind, text, rest) =>
        TargetText(Cpp, p);
        AfterTargetBeforeTag(NO_REQUEST.(kind := kind, target := text), rest, id, more);
    }
  }

  lemma StartOfHash(z: string)
    requires z != "" && z[0] == '#'
    ensures Start(z) == z
  {
    hide Run, Skip;
    SkipNothing(Blank);
    SkipNothing(LineEnd);
    StartBeforeHash("", z);
    assert "" + z == z;
  }

  // ----- what the nodes read --------------------------------------------------------

  lemma CStrStops(a: string, b: string)
    requires !NoNul(a)
    ensures CStr(a + b) == CStr(a)
  {
    var n := IndexOf(a, NUL);
    assert n < |a|;
    IndexIs(a + b, NUL, n);
  }

  lemma CStrOfWhole(a: string)
    requires NoNul(a)
    ensures CStr(a) == a
  {
    IndexIs(a, NUL, |a|);
  }

  lemma ClientLineAsCStr(target: string, id: nat, rest: string)
    ensures CStr(ClientLine(target, id, rest))
         == if NoNul(target) then ClientLine(target, id, CStr(rest)) else CStr(target)
  {
    hide CStr, Decimal;
    var tag := "#" + Decimal(id) + " ";
    assert ClientLine(target, id, rest) == target + (tag + rest);
    if NoNul(target) {
      CStrOver(target, tag + rest);
      CStrOver(tag, rest);
      assert target + (tag + CStr(rest)) == ClientLine(target, id, CStr(rest));
    } else {
      CStrStops(target, tag + rest);
    }
  }

  /** The sender prefix and the framing never matter to a node. */
  lemma NodeReadsLine(name: string, line: string)
    requires IsSender(name)
    ensures NodeReads(name, line) == Parse(Cpp, CStr(line))
  {
    hide CStr, Parse, StripSender;
    var head := name + ": ";
    assert Framed(name, line) == head + line;
    CStrOver(head, line);
    assert head + CStr(line) == Framed(name, CStr(line));
    SenderIsTransparent(Cpp, name, CStr(line));
  }

  /** What a node reads is the target's own request if it is one, else a request under the line's id. */
  lemma ReadOfClientLine(name: string, target: string, id: nat, rest: string)
    requires IsSender(name)
    ensures var own, all := Parse(Cpp, CStr(target)), NodeReads(name, ClientLine(target, id, rest));
            if own.result == Ok then SameId(all, own) else CarriesId(all, IdAsRead(id))
  {
    hide CStr, Parse, NodeReads, ClientLine, IdAsRead;
    NodeReadsLine(name, ClientLine(target, id, rest));
    ClientLineAsCStr(target, id, rest);
    if NoNul(target) {
      CStrOfWhole(target);
      OwnRequestWins(target, id, CStr(rest));
    }
  }

  /** Whatever follows, a request a node reads from such a line has the line's id. */
  ghost predicate IdsAreKept(target: string) {
    forall name, id: nat, rest :: IsSender(name) && id < UINT32_SIZE ==>
      CarriesId(NodeReads(name, ClientLine(target, id, rest)), id)
  }

  /** Nodes answer under the id they were asked with exactly for targets that are no request by themselves. */
  lemma IdsAreKeptExactly(target: string)
    ensures IdsAreKept(target) <==> Parse(Cpp, CStr(target)).result != Ok
  {
    hide CStr, Parse, NodeReads, ClientLine, IdAsRead, Pow10;
    var own := Parse(Cpp, CStr(target));
    if own.result == Ok {
      ReadOfClientLine("", target, 0, "");
      ReadOfClientLine("", target, 1, "");
      var p, q := NodeReads("", ClientLine(target, 0, "")), NodeReads("", ClientLine(target, 1, ""));
      assert CarriesId(p, 0) ==> !CarriesId(q, 1);
    } else {
      forall name, id: nat, rest | IsSender(name) && id < UINT32_SIZE
        ensures CarriesId(NodeReads(name, ClientLine(target, id, rest)), id)
      {
        ReadOfClientLine(name, target, id, rest);
        IdAsReadExactly(id);
      }
    }
  }

  /** Past 32 bits the id a node answers under is another one. */
  lemma IdSurvivesExactly(name: string, target: string, id: nat, rest: string)
    requires IsSender(name) && Parse(Cpp, CStr(target)).result != Ok
    requires NodeReads(name, ClientLine(target, id, rest)).result == Ok
    ensures var r := NodeReads(name, ClientLine(target, id, rest)).request;
            r.hasId && (r.id == id <==> id < UINT32_SIZE)
  {
    hide CStr, Parse, NodeReads, ClientLine, IdAsRead, Pow10;
    ReadOfClientLine(name, target, id, rest);
    IdAsReadExactly(id);
  }

  // ----- what the client makes of its own echo --------------------------------------

  lemma FirstToken(s: string)
    ensures Split(s) != [] ==> Split(s)[0] != "" && Skip(Space, s) != "" && Split(s)[0][0] == Skip(Space, s)[0]
  {
    hide Run;
  }

  lemma BlanksAreSpace(s: string)
    ensures Split(Skip(Blank, s)) == Split(s)
  {
    hide Run, Split;
    var n := Run(Blank, s);
    assert s == s[..n] + s[n..];
    forall i | 0 <= i < n ensures Is(Space, s[..n][i]) { assert Is(Blank, s[i]); }
    SplitAfterSpace(s[..n], s[n..]);
  }

  /** t is s without some whitespace in front of it. */
  predicate DropsSpace(s: string, t: string) {
    |t| <= |s| && t == s[|s| - |t|..] && forall i :: 0 <= i < |s| - |t| ==> Is(Space, s[i])
  }

  lemma SkipDropsSpace(k: CharClass, s: string)
    requires k == Blank || k == LineEnd
    ensures DropsSpace(s, Skip(k, s))
    ensures Skip(k, s) != "" ==> !Is(k, Skip(k, s)[0])
  {
    hide Run;
    forall i | 0 <= i < Run(k, s) ensures Is(Space, s[i]) { assert Is(k, s[i]); }
  }

  lemma DropsSpaceTwice(s: string, t: string, u: string)
    requires DropsSpace(s, t) && DropsSpace(t, u)
    ensures DropsSpace(s, u)
  {
    hide Is;
    assert s[|s| - |t|..][|t| - |u|..] == s[|s| - |u|..];
    forall i | 0 <= i < |s| - |u| ensures Is(Space, s[i]) {
      if i >= |s| - |t| {
        assert s[i] == t[i - (|s| - |t|)];
      }
    }
  }

  /** Only whitespace is skipped in front of a target. */
  lemma StartDropsSpace(s: string)
    ensures DropsSpace(s, Start(s)) && (Start(s) != "" ==> !Is(Blank, Start(s)[0]))
  {
    hide Skip, DropsSpace;
    var a := Skip(Blank, s);
    var b := Skip(LineEnd, a);
    SkipDropsSpace(Blank, s);
    SkipDropsSpace(LineEnd, a);
    SkipDropsSpace(Blank, b);
    DropsSpaceTwice(s, a, b);
    DropsSpaceTwice(s, b, Skip(Blank, b));
  }

  /** A line whose first word starts with '#' is no request, whatever whitespace is in front. */
  lemma HashWordIsNoRequest(d: Dialect, s: string)
    requires Skip(Space, s) != "" && Skip(Space, s)[0] == '#'
    ensures Parse(d, s).result != Ok
  {
    hide Run, Parse, ParseTarget, Start;
    ParseFromStart(d, s);
    StartDropsSpace(s);
    var n, j := Run(Space, s), |s| - |Start(s)|;
    assert s[n] == '#' && j <= n;
    if Start(s) != "" {
      assert j < n ==> Is(Space, s[j]);
      NoTargetHere(d, Start(s));
    }
  }

  /** Any line at all, heard under a sender name: a response exactly to the id its first word gives. */
  lemma ClassifyFramed(s: State, name: string, line: string, consume: bool)
    requires IsSender(name)
    ensures var c, id := Classify(s, Framed(name, line), consume), RequestId(Split(line));
            if id.Some? then c.inbound == Response(id, Peek(s, id))
            else c.state == s && (c.inbound.Response? ==> c.inbound == Response(None, None))
  {
    hide StripSender, Framed, Split, Skip, Parse;
    StripFramed(name, line);
    BlanksAreSpace(line);
    var body := Skip(Blank, line);
    FirstToken(body);
    if HasRequestId(Split(body)) {
      assert Lower(Split(body)[0])[0] == '#';
      HashWordIsNoRequest(Python, body);
    }
  }

  /** Who takes which line, for every line under every sender name. */
  lemma ClassifiesExactly(s: State, name: string, line: string, consume: bool)
    requires IsSender(name)
    ensures var c, words, p := Classify(s, Framed(name, line), consume), Split(line), Parse(Python, line);
            var event := words != [] && Lower(words[0]) == "event";
            var request := p.result == Ok && p.request.command in {
              "ping", "status", "call", "discovery", "gps", "battery", "voltage", "charging", "help", "caps",
              "button", "button_state", "reboot", "set", "get"};
            && (c.inbound == EventLine <==> event)
            && (c.inbound == OtherLine <==> !event && request)
            && (!event && !request ==> c.inbound == Response(RequestId(words), Peek(s, RequestId(words))))
  {
    hide StripSender, Framed, Split, Skip, Parse, Lower, RequestId;
    StripFramed(name, line);
    var body := Skip(Blank, line);
    BlanksAreSpace(line);
    BlanksDoNotMatter(line);
    if Parse(Python, line).result == Ok {
      CommandIsListed(line);
    }
  }

  lemma BlanksDoNotMatter(line: string)
    ensures Parse(Python, Skip(Blank, line)) == Parse(Python, line)
  {
    hide Run, Parse;
    var b := line[..Run(Blank, line)];
    assert line == b + Skip(Blank, line);
    LeadingBlanks(Python, b, Skip(Blank, line));
  }

  /** Parsed commands are in lower case and never `discover`. */
  lemma CommandIsListed(line: string)
    requires Parse(Python, line).result == Ok
    ensures var c := Parse(Python, line).request.command; Lower(c) == c && c != "discover"
  {
    hide Parse, Lower;
    Outbound.AcceptedIsWellFormed(Python, line);
  }

  /** And what that does to the table: only the entry handed out goes, and only if asked and not broadcast. */
  lemma TakesExactly(s: State, name: string, line: string, consume: bool, k: nat)
    requires IsSender(name)
    ensures var c := Classify(s, Framed(name, line), consume);
            && c.state.nextId == s.nextId
            && (k in c.state.pending <==>
                  && k in s.pending
                  && !(consume && c.inbound == Response(Some(k), Some(s.pending[k])) && !s.pending[k].broadcast))
            && (k in c.state.pending ==> c.state.pending[k] == s.pending[k])
  {
    hide StripSender, Framed, IsEvent, LooksLikeRequest, Split, RequestId;
  }

  /**
   A printed request under a sender name is a request to the host, and never touches
   the table, exactly when its command is one of the listed ones; but for one to the
   name `event` without an id, which is an event.
   */
  lemma RequestsAreOther(s: State, name: string, r: Request, consume: bool)
    requires IsSender(name) && Outbound.WellFormed(Python, r)
    ensures var c := Classify(s, Framed(name, Outbound.Line(r)), consume);
            var event := r.kind == Named && Lower(r.target) == "event" && !r.hasId;
            && c.state == s
            && c.inbound ==
               if event then EventLine
               else if r.command in {
                 "ping", "status", "call", "discovery", "gps", "battery", "voltage", "charging", "help", "caps",
                 "button", "button_state", "reboot", "set", "get"} then OtherLine
               else Response(None, None)
  {
    hide Classify, Split, Parse, Lower, RequestId, Framed, Outbound.WellFormed, Outbound.Line;
    var line := Outbound.Line(r);
    Outbound.ParseOfLine(Python, r);
    Outbound.WellFormedFacts(Python, r);
    FirstWordOfLine(r);
    ClassifyFramed(s, name, line, consume);
    ClassifiesExactly(s, name, line, consume);
  }

  lemma FirstWordOfLine(r: Request)
    requires Outbound.WellFormed(Python, r)
    ensures var words := Split(Outbound.Line(r));
            && words != [] && RequestId(words) == None
            && (Lower(words[0]) == "event" <==> r.kind == Named && Lower(r.target) == "event" && !r.hasId)
  {
    hide Split, Decimal, IsTarget, NameKind, Lower, Outbound.ArgsTail;
    var t := WireTarget(r.kind, r.target);
    var w, more := t + Outbound.IdText(r.hasId, r.id), " " + (r.command + Outbound.ArgsTail(r.args));
    WireTargetStart(r.kind, r.target);
    assert Outbound.Line(r) == w + more;
    WordIsVisible(r);
    SplitToken(w, more);
    EventWord(r);
    assert w[0] == t[0];
  }

  lemma WordIsVisible(r: Request)
    requires IsTarget(r.kind, r.target)
    ensures AllIn(Visible, WireTarget(r.kind, r.target) + Outbound.IdText(r.hasId, r.id))
  {
    hide NameKind, Decimal;
    DigitsAreVisible(Decimal(r.id));
    var k := if r.kind == Id then Hex else Ident;
    forall i | 0 <= i < |r.target| ensures Is(Visible, r.target[i]) { assert Is(k, r.target[i]); }
  }

  lemma EventWord(r: Request)
    requires IsTarget(r.kind, r.target)
    ensures Lower(WireTarget(r.kind, r.target) + Outbound.IdText(r.hasId, r.id)) == "event"
       <==> r.kind == Named && Lower(r.target) == "event" && !r.hasId
  {
    hide Decimal;
    var t, i := WireTarget(r.kind, r.target), Outbound.IdText(r.hasId, r.id);
    var low := Lower(t + i);
    if r.hasId {
      assert low[|t|] == '#' && forall j :: 0 <= j < 5 ==> "event"[j] != '#';
    } else {
      assert t + i == t;
      match r.kind
      case Group => assert low[0] == 'g';
      case Id => assert low[0] == '@';
      case Everyone => assert |Lower(r.target)| == 3;
      case Self => assert |Lower(r.target)| == 4;
      case Named =>
    }
  }

  predicate EchoFinds(s: State, name: string, target: string, id: nat, rest: string, consume: bool) {
    var c := Classify(s, Framed(name, ClientLine(target, id, rest)), consume).inbound;
    c.Response? && c.pending.Some?
  }

  /** In no state of the table does a client's own line, heard back, find an entry. */
  ghost predicate EchoesAreQuiet(target: string) {
    forall s, name, id: nat, rest, consume :: IsSender(name) ==> !EchoFinds(s, name, target, id, rest, consume)
  }

  lemma SkipDivides(s: string)
    ensures var b := s[..Run(Space, s)]; AllIn(Space, b) && s == b + Skip(Space, s)
    ensures Skip(Space, s) != "" ==> !Is(Space, Skip(Space, s)[0])
  {
    hide Run;
  }

  /** Only the first word counts. */
  lemma FirstWordOnly(w: string, more: seq<string>)
    ensures HasRequestId([w] + more) <==> HasRequestId([w])
  {
  }

  /** A '#' past the first character spoils a tag. */
  lemma NoTagWithin(w: string, i: nat, more: seq<string>)
    requires 0 < i < |w| && w[i] == '#'
    ensures !HasRequestId([w] + more)
  {
    assert w[1..][i - 1] == '#';
  }

  /** With no target the line's own tag is the first word. */
  lemma BareTags(id: nat, rest: string)
    ensures HasRequestId(Split("#" + (Decimal(id) + (" " + rest)))) && HasRequestId(Split("#0"))
  {
    hide Run, Split, Decimal, HasRequestId;
    SplitTagged(id, rest);
    assert "#" + Decimal(id) + " " + rest == "#" + (Decimal(id) + (" " + rest));
    DecimalTag(id, Split(rest));
    ZeroTag();
    DecimalTag(0, []);
    assert ["#" + Decimal(0)] + [] == ["#" + Decimal(0)];
  }

  lemma ZeroTag()
    ensures Split("#0") == ["#" + Decimal(0)]
  {
    hide Run, Split;
    assert Decimal(0) == "0" && "#" + "0" == "#0" && AllIn(Visible, "#0");
    SplitToken("#0", "");
    SplitNothing();
    assert "#0" + "" == "#0";
  }

  lemma FirstWordDecides(p: string, id: nat, rest: string)
    requires p != "" && !Is(Space, p[0])
    ensures HasRequestId(Split(p + ("#" + (Decimal(id) + (" " + rest))))) <==> HasRequestId(Split(p + "#0"))
  {
    hide Run, Split, Decimal, HasRequestId;
    var w, after := p[..Run(Visible, p)], p[Run(Visible, p)..];
    var tail := "#" + (Decimal(id) + (" " + rest));
    assert w != "" && AllIn(Visible, w) && p == w + after;
    if after != "" {
      assert p + tail == w + (after + tail) && p + "#0" == w + (after + "#0");
      SplitToken(w, after + tail);
      SplitToken(w, after + "#0");
      FirstWordOnly(w, Split(after + tail));
      FirstWordOnly(w, Split(after + "#0"));
    } else {
      var tag := "#" + Decimal(id);
      TagIsVisible(p, id);
      assert p + tail == (p + tag) + (" " + rest);
      assert p + "#0" + "" == p + "#0";
      SplitToken(p + tag, " " + rest);
      SplitToken(p + "#0", "");
      NoTagWithin(p + tag, |p|, Split(" " + rest));
      NoTagWithin(p + "#0", |p|, Split(""));
    }
  }

  lemma TagIsVisible(p: string, id: nat)
    requires AllIn(Visible, p)
    ensures AllIn(Visible, p + ("#" + Decimal(id))) && AllIn(Visible, p + "#0")
  {
    DigitsAreVisible(Decimal(id));
  }

  /** The first word of `target#digits ` gives an id or not, whatever the digits and the rest. */
  lemma EchoId(target: string, id: nat, rest: string)
    ensures HasRequestId(Split(ClientLine(target, id, rest))) <==> HasRequestId(Split(target + "#0"))
  {
    hide Run, Split, Decimal, Skip, HasRequestId;
    var b, p := target[..Run(Space, target)], Skip(Space, target);
    var tail := "#" + (Decimal(id) + (" " + rest));
    SkipDivides(target);
    assert target + tail == b + (p + tail) && target + "#0" == b + (p + "#0");
    SplitAfterSpace(b, p + tail);
    SplitAfterSpace(b, p + "#0");
    if p == "" {
      assert p + tail == tail && p + "#0" == "#0";
      BareTags(id, rest);
    } else {
      FirstWordDecides(p, id, rest);
    }
  }

  lemma EchoTag(target: string, id: nat, rest: string)
    ensures RequestId(Split(ClientLine(target, id, rest))).None? <==> RequestId(Split(target + "#0")).None?
  {
    hide Split, ClientLine, HasRequestId;
    EchoId(target, id, rest);
  }

  /** A client's own line stays quiet exactly when `target#0` does not start with a `#digits` word. */
  lemma EchoesAreQuietExactly(target: string)
    ensures EchoesAreQuiet(target) <==> RequestId(Split(target + "#0")).None?
  {
    hide Classify, Framed, ClientLine, RequestId, Split;
    if RequestId(Split(target + "#0")).None? {
      forall s, name, id: nat, rest, consume | IsSender(name)
        ensures !EchoFinds(s, name, target, id, rest, consume)
      {
        EchoTag(target, id, rest);
        ClassifyFramed(s, name, ClientLine(target, id, rest), consume);
      }
    } else {
      EchoTag(target, 0, "");
      var k := RequestId(Split(ClientLine(target, 0, ""))).value;
      var s := State(0, 0, map[k := Pending(k, "", "", [], 0, 0, "", false)], [k]);
      ClassifyFramed(s, "", ClientLine(target, 0, ""), false);
      assert EchoFinds(s, "", target, 0, "", false);
    }
  }

  // ----- which targets pass ----------------------------------------------------------

  /** Every target of the grammar passes, and so does `all`. */
  lemma GrammarTargetsAreSafe(kind: AddressKind, t: string)
    requires IsTarget(kind, t)
    ensures SafeTarget(WireTarget(kind, t))
  {
    hide Run, CStr, Parse, AfterTarget, Split, NameKind;
    var s := WireTarget(kind, t);
    WireTargetStart(kind, t);
    CStrOfWhole(s);
    assert s + "" == s;
    ParseWireTarget(Cpp, kind, t, "");
    KeptIsTargetText(kind, t);
    NoRequestAlone(NO_REQUEST.(kind := kind, target := Kept(Cpp, t)));
    FirstTokenStarts(s + "#0");
  }

  lemma WireTargetStart(kind: AddressKind, t: string)
    requires IsTarget(kind, t)
    ensures var s := WireTarget(kind, t); s != "" && s[0] != '#' && Is(Visible, s[0]) && NoNul(s)
  {
    hide NameKind;
    var k := if kind == Id then Hex else Ident;
    assert Is(k, t[0]);
    forall i | 0 <= i < |t| ensures t[i] != NUL { assert Is(k, t[i]); }
  }

  lemma KeptIsTargetText(kind: AddressKind, t: string)
    requires IsTarget(kind, t)
    ensures IsTargetText(kind, Kept(Cpp, t))
  {
    hide NameKind;
  }

  lemma NoRequestAlone(r: Request)
    requires IsTargetText(r.kind, r.target)
    ensures AfterTarget(Cpp, r, "").result != Ok
  {
    hide Run, ReadId, ReadCommand, SplitGlued;
    NoGluedId(Cpp, r);
    SkipNothing(Blank);
    NothingAfter(r);
  }

  lemma FirstTokenStarts(s: string)
    requires s != "" && Is(Visible, s[0])
    ensures Split(s) != [] && Split(s)[0] != "" && Split(s)[0][0] == s[0]
  {
    RunIs(Space, s, 0);
  }

  /** The echo of a request to `#7 x` is taken for a reply to request 7. */
  lemma EchoOfHashTarget(s: State, name: string, id: nat, rest: string, consume: bool)
    requires IsSender(name)
    ensures Classify(s, Framed(name, ClientLine("#7 x", id, rest)), consume).inbound
         == Response(Some(7), Peek(s, Some(7)))
  {
    hide Classify, Framed, Split, Decimal, RequestId;
    var line, body := ClientLine("#7 x", id, rest), "x" + ("#" + (Decimal(id) + (" " + rest)));
    assert Decimal(7) == "7" by { SevenIsDecimal(); }
    assert line == "#" + Decimal(7) + " " + body;
    SplitTagged(7, body);
    DecimalTag(7, Split(body));
    ClassifyFramed(s, name, line, consume);
  }

  lemma SevenIsDecimal()
    ensures Decimal(7) == "7"
  {
  }

  /** The echo of a request to a blank target is taken for its own reply. */
  lemma EchoOfBlankTarget(s: State, name: string, id: nat, rest: string, consume: bool)
    requires IsSender(name)
    ensures Classify(s, Framed(name, ClientLine(" ", id, rest)), consume).inbound
         == Response(Some(id), Peek(s, Some(id)))
  {
    hide Classify, Framed, Split, Decimal, RequestId;
    var line, tagged := ClientLine(" ", id, rest), "#" + Decimal(id) + " " + rest;
    assert line == " " + tagged;
    SplitAfterSpace(" ", tagged);
    SplitTagged(id, rest);
    DecimalTag(id, Split(rest));
    ClassifyFramed(s, name, line, consume);
  }

  /** A target that is a request without an id makes nodes answer under no id at all. */
  lemma IdlessTargetLosesTheId(name: string, id: nat, rest: string)
    requires IsSender(name)
    ensures var p := NodeReads(name, ClientLine("all ping", id, rest)); p.result == Ok && !p.request.hasId
  {
    hide *;
    PingToAll();
    ReadOfClientLine(name, "all ping", id, rest);
    IdlessSame(NodeReads(name, ClientLine("all ping", id, rest)));
  }

  const PING_ALL := Request(Everyone, "all", false, 0, "ping", [])

  lemma IdlessSame(p: Parsed)
    requires SameId(p, Parsed(Ok, PING_ALL))
    ensures p.result == Ok && !p.request.hasId
  {
  }

  lemma PingToAll()
    ensures Parse(Cpp, CStr("all ping")) == Parsed(Ok, PING_ALL)
  {
    hide Parse, CStr;
    assert Lower("all") == "all" && Lower("ping") == "ping";
    PingIsWellFormed();
    Outbound.ParseOfLine(Cpp, PING_ALL);
    assert Outbound.Line(PING_ALL) == "all ping";
    CStrOfWhole("all ping");
  }

  lemma PingIsWellFormed()
    ensures Outbound.WellFormed(Cpp, PING_ALL)
  {
    assert Lower("all") == "all" && Lower("ping") == "ping";
  }

  /** The target `a#7x` makes node a answer under id 7 whatever the client's id. */
  lemma LooseTargetAnswersElsewhere(name: string, id: nat, rest: string)
    requires IsSender(name)
    ensures var p := NodeReads(name, ClientLine("a#7x", id, rest));
            p.result == Ok && p.request.hasId && p.request.id == 7
  {
    hide *;
    SevenToA();
    ReadOfClientLine(name, "a#7x", id, rest);
    SameAsSeven(Parse(Cpp, CStr("a#7x")), NodeReads(name, ClientLine("a#7x", id, rest)));
  }

  lemma SameAsSeven(own: Parsed, p: Parsed)
    requires own.result == Ok && own.request.hasId && own.request.id == 7 && SameId(p, own)
    ensures p.result == Ok && p.request.hasId && p.request.id == 7
  {
  }

  lemma SevenToA()
    ensures var p := Parse(Cpp, CStr("a#7x")); p.result == Ok && p.request.hasId && p.request.id == 7
  {
    hide Run, CStr, Parse, AfterTarget, Decimal;
    CStrOfWhole("a#7x");
    assert "a#7x" == "a" + ("#" + ("7" + "x"));
    assert Decimal(7) == "7" by { SevenIsDecimal(); }
    assert IsTarget(Named, "a") by { assert Lower("a") == "a"; }
    ParseWireTarget(Cpp, Named, "a", "#" + ("7" + "x"));
    SevenRead(NO_REQUEST.(kind := Named, target := "a"));
  }

  lemma SevenRead(r: Request)
    requires IsTargetText(r.kind, r.target)
    ensures var p := AfterTarget(Cpp, r, "#" + (Decimal(7) + "x"));
            p.result == Ok && p.request.hasId && p.request.id == 7
  {
    hide Run, Skip, ReadId, ReadCommand, SplitGlued, Decimal;
    NoGluedId(Cpp, r);
    Outbound.NoSkip("#" + (Decimal(7) + "x"));
    Outbound.IdBack(Cpp, r, 7, "x");
    CommandX(r.(hasId := true, id := 7));
  }

  lemma CommandX(r: Request)
    ensures ReadCommand(Cpp, r, "x").result == Ok && ReadCommand(Cpp, r, "x").request.hasId == r.hasId
    ensures ReadCommand(Cpp, r, "x").request.id == r.id
  {
    hide Run, ReadToken, ReadArgs, CommandOf;
    assert "x" + "" == "x";
    TokenAhead(Ident, "x", "");
  }
}
