/**
 The request grammar as a function of the line. Both parsers follow one shape;
 `Dialect` marks the places where the bounded C++ parser (src/Parser.cpp) and
 the unbounded Python parser (python/mcrpc/parser.py) part ways. The two
 imperative parsers are proved against this function in CppParser and PyParser.
 */
module Wire {
  import opened Text

  const MAX_ARGS := 8
  const TOKEN_CHARS := 71  // MCRPC_MAX_TOKEN less the terminator
  const MAX_ID_DIGITS := 15  // idbuf[16] less the terminator
  const UINT32_SIZE := 0x1_0000_0000
  const ULONG_MAX := 0xFFFF_FFFF_FFFF_FFFF  // unsigned long of an LP64 target

  datatype Dialect = Cpp | Python

  datatype ParseResult = Ok | Empty | MissingTarget | MissingCommand | Malformed

  datatype AddressKind = Named | Everyone | Self | Group | Id

  datatype Request = Request(
    kind: AddressKind, target: string, hasId: bool, id: nat, command: string, args: seq<string>)

  /** What a parser returns: its result code and the request as far as it was filled in. */
  datatype Parsed = Parsed(result: ParseResult, request: Request)

  const NO_REQUEST := Request(Named, "", false, 0, "", [])

  datatype Token = NoToken | Token(text: string, rest: string)

  /** One token of class k after optional blanks. */
  function ReadToken(k: CharClass, s: string): (t: Token)
    ensures t.Token? ==> |t.rest| < |s|
  {
    var p := Skip(Blank, s);
    var n := Run(k, p);
    if n == 0 then NoToken else Token(p[..n], p[n..])
  }

  /** What a parser stores of a token it has read. */
  function Kept(d: Dialect, token: string): string {
    if d.Cpp? then Cut(token, TOKEN_CHARS) else token
  }

  predicate GroupAhead(d: Dialect, p: string) {
    |p| >= 6 &&
    match d
    case Cpp => p[..6] == "group:" || p[..6] == "GROUP:"
    case Python => Lower(p[..6]) == "group:"
  }

  function NameKind(name: string): AddressKind {
    if Lower(name) == "all" then Everyone else if Lower(name) == "self" then Self else Named
  }

  datatype TargetStage = NoTarget(kind: AddressKind) | Target(kind: AddressKind, text: string, rest: string)

  function ReadTarget(d: Dialect, p: string): TargetStage {
    if p != "" && p[0] == '@' then
      var n := Run(Hex, p[1..]);
      if n == 0 then NoTarget(Named) else Target(Id, Kept(d, p[1..][..n]), p[1..][n..])
    else if GroupAhead(d, p) then
      match ReadToken(Ident, p[6..])
      case NoToken => NoTarget(Group)
      case Token(t, rest) => Target(Group, Kept(d, t), rest)
    else
      match ReadToken(Ident, p)
      case NoToken => NoTarget(Named)
      case Token(t, rest) => Target(NameKind(Kept(d, t)), Kept(d, t), rest)
  }

  /** strtoul followed by the cast to uint32_t, or Python's int(). */
  function IdValue(d: Dialect, digits: string): nat
    requires AllIn(Digit, digits)
  {
    var v := Value(digits);
    match d
    case Cpp => (if v <= ULONG_MAX then v else ULONG_MAX) % UINT32_SIZE
    case Python => v
  }

  /** The step that looks for `#digits` inside the stored target. */
  function SplitGlued(d: Dialect, r: Request): Request {
    var h := IndexOf(r.target, '#');
    if h + 1 < |r.target| && AllIn(Digit, r.target[h + 1..]) then
      r.(target := r.target[..h], hasId := true, id := IdValue(d, r.target[h + 1..]))
    else r
  }

  datatype IdStage = BadId | IdRead(request: Request, rest: string)

  function IdDigits(d: Dialect, s: string): (n: nat)
    ensures n <= |s| && AllIn(Digit, s[..n])
  {
    var n := Run(Digit, s);
    if d.Cpp? && n > MAX_ID_DIGITS then MAX_ID_DIGITS else n
  }

  function ReadId(d: Dialect, r: Request, q: string): IdStage {
    if q != "" && q[0] == '#' then
      var n := IdDigits(d, q[1..]);
      if n == 0 then BadId
      else IdRead(r.(hasId := true, id := IdValue(d, q[1..][..n])), q[1..][n..])
    else IdRead(r, q)
  }

  function Canonical(command: string): string {
    if command == "discover" then "discovery" else command
  }

  /** The argument words: a line end stops them as the end of the text does. */
  function Words(s: string): seq<string>
    decreases |s|
  {
    match ReadToken(Word, s)
    case NoToken => []
    case Token(t, rest) => [t] + Words(rest)
  }

  function KeptAll(d: Dialect, words: seq<string>): (r: seq<string>)
    ensures |r| == |words|
    ensures forall i :: 0 <= i < |words| ==> r[i] == Kept(d, words[i])
  {
    seq(|words|, i requires 0 <= i < |words| => Kept(d, words[i]))
  }

  function FirstArgs(words: seq<string>): seq<string> {
    if |words| <= MAX_ARGS then words else words[..MAX_ARGS]
  }

  function ReadArgs(d: Dialect, s: string): seq<string> {
    KeptAll(d, if d.Cpp? then FirstArgs(Words(s)) else Words(s))
  }

  function CommandOf(d: Dialect, token: string): string {
    Canonical(Lower(Kept(d, token)))
  }

  function ReadCommand(d: Dialect, r: Request, s: string): Parsed {
    match ReadToken(Ident, s)
    case NoToken => Parsed(MissingCommand, r)
    case Token(t, rest) =>
      Parsed(Ok, r.(command := CommandOf(d, t), args := ReadArgs(d, rest)))
  }

  function AfterTarget(d: Dialect, r: Request, rest: string): Parsed {
    match ReadId(d, SplitGlued(d, r), Skip(Blank, rest))
    case BadId => Parsed(Malformed, SplitGlued(d, r))
    case IdRead(r', rest') => ReadCommand(d, r', rest')
  }

  function ParseTarget(d: Dialect, p: string): Parsed {
    match ReadTarget(d, p)
    case NoTarget(kind) => Parsed(Malformed, NO_REQUEST.(kind := kind))
    case Target(kind, t, rest) => AfterTarget(d, NO_REQUEST.(kind := kind, target := t), rest)
  }

  function Parse(d: Dialect, s: string): Parsed {
    var p := Skip(LineEnd, Skip(Blank, s));
    if p == "" then Parsed(Empty, NO_REQUEST)
    else if Skip(Blank, p) == "" then Parsed(MissingTarget, NO_REQUEST)
    else ParseTarget(d, Skip(Blank, p))
  }

  /** Where the target starts, or "" when there is none. */
  function Start(s: string): string {
    Skip(Blank, Skip(LineEnd, Skip(Blank, s)))
  }

  /** Chat text is `<sender>: <payload>`; both strippers compute this. */
  function StripSender(text: string): string {
    var i := IndexOf(text, ':');
    if i + 1 >= |text| || !Is(Blank, text[i + 1]) then text else Skip(Blank, text[i + 1..])
  }

  // ----- properties of the stages ------------------------------------------

  lemma TokenText(k: CharClass, s: string)
    ensures ReadToken(k, s).Token? ==> ReadToken(k, s).text != "" && AllIn(k, ReadToken(k, s).text)
  {
  }

  /** A line with a token splits into blanks, the token, and a rest outside its class. */
  lemma DivideToken(k: CharClass, s: string) returns (b: string, w: string, rest: string)
    requires ReadToken(k, s).Token?
    ensures ReadToken(k, s) == Token(w, rest) && s == b + (w + rest)
    ensures AllIn(Blank, b) && w != "" && AllIn(k, w)
    ensures rest != "" ==> !Is(k, rest[0])
    ensures b == "" ==> w[0] == s[0]
  {
    b, w, rest := s[..Run(Blank, s)], ReadToken(k, s).text, ReadToken(k, s).rest;
  }

  /** A token stands at the front of its text and ends where its class ends. */
  lemma TokenAhead(k: CharClass, t: string, rest: string)
    requires k == Ident || k == Word
    requires t != "" && AllIn(k, t)
    requires rest != "" ==> !Is(k, rest[0])
    ensures ReadToken(k, t + rest) == Token(t, rest)
  {
    RunIs(Blank, t + rest, 0);
    RunOver(k, t, rest);
  }

  lemma TokenAfterBlank(k: CharClass, b: string, s: string)
    requires AllIn(Blank, b)
    ensures ReadToken(k, b + s) == ReadToken(k, s)
  {
    SkipOver(Blank, b, s);
  }

  lemma {:induction false} WordsAfterBlank(b: string, s: string)
    requires AllIn(Blank, b)
    ensures Words(b + s) == Words(s)
  {
    TokenAfterBlank(Word, b, s);
  }

  lemma {:induction false} WordAhead(w: string, rest: string)
    requires w != "" && AllIn(Word, w)
    requires rest != "" ==> !Is(Word, rest[0])
    ensures Words(w + rest) == [w] + Words(rest)
  {
    TokenAhead(Word, w, rest);
  }

  /** A line whose first character is part of a target goes straight to it. */
  lemma ParseStart(d: Dialect, p: string)
    requires p != "" && !Is(Blank, p[0]) && !Is(LineEnd, p[0])
    ensures Parse(d, p) == ParseTarget(d, p)
  {
    RunIs(Blank, p, 0);
    RunIs(LineEnd, p, 0);
  }

  /** What a target is made of. */
  predicate IsTargetText(kind: AddressKind, t: string) {
    t != "" && AllIn(if kind == Id then Hex else Ident, t)
  }

  lemma TargetText(d: Dialect, p: string)
    requires ReadTarget(d, p).Target?
    ensures IsTargetText(ReadTarget(d, p).kind, ReadTarget(d, p).text)
  {
    hide Run;
    if p != "" && p[0] == '@' {
    } else if GroupAhead(d, p) {
      TokenText(Ident, p[6..]);
    } else {
      TokenText(Ident, p);
    }
  }

  lemma NoGluedId(d: Dialect, r: Request)
    requires IsTargetText(r.kind, r.target)
    ensures SplitGlued(d, r) == r
  {
    forall i | 0 <= i < |r.target| ensures r.target[i] != '#' {
      assert Is(if r.kind == Id then Hex else Ident, r.target[i]);
    }
    IndexIs(r.target, '#', |r.target|);
  }

  /** The stored target never contains '#', so the glued-id step never fires. */
  lemma GluedIdNeverFires(d: Dialect, p: string)
    requires ReadTarget(d, p).Target?
    ensures var t := ReadTarget(d, p);
            var r := NO_REQUEST.(kind := t.kind, target := t.text);
            SplitGlued(d, r) == r
  {
    TargetText(d, p);
    NoGluedId(d, NO_REQUEST.(kind := ReadTarget(d, p).kind, target := ReadTarget(d, p).text));
  }

  /** Blanks in front of a line never change what is parsed. */
  lemma LeadingBlanks(d: Dialect, b: string, s: string)
    requires AllIn(Blank, b)
    ensures Parse(d, b + s) == Parse(d, s)
  {
    SkipOver(Blank, b, s);
  }

  /** No target starts outside the name characters but for '@'. */
  lemma NoTargetHere(d: Dialect, p: string)
    requires p != "" && !Is(Blank, p[0]) && !Is(Ident, p[0]) && p[0] != '@'
    ensures ParseTarget(d, p).result == Malformed
  {
    if |p| >= 6 {
      assert Lower(p[..6])[0] == LowerChar(p[..6][0]);
      assert p[..6] != "group:" && p[..6] != "GROUP:" && Lower(p[..6]) != "group:";
    }
    RunIs(Blank, p, 0);
    assert Skip(Blank, p) == p;
    RunIs(Ident, p, 0);
  }

  /** A line that starts with '#', as every correlated reply does, is no request. */
  lemma HashLineIsMalformed(d: Dialect, s: string)
    requires s != "" && s[0] == '#'
    ensures Parse(d, s).result == Malformed
  {
    hide ParseTarget, Parse;
    ParseStart(d, s);
    NoTargetHere(d, s);
  }

  // ----- lines that start with a target in wire form -------------------------

  function WireTarget(kind: AddressKind, t: string): string {
    match kind
    case Group => "group:" + t
    case Id => "@" + t
    case _ => t
  }

  /** The kind is the one the grammar gives this target. */
  predicate IsTarget(kind: AddressKind, t: string) {
    IsTargetText(kind, t) && (kind != Group && kind != Id ==> kind == NameKind(t))
  }

  lemma KeptNameKind(d: Dialect, t: string)
    ensures NameKind(Kept(d, t)) == NameKind(t)
  {
    LowerCut(t, TOKEN_CHARS);
  }

  lemma NamedIsNoGroup(d: Dialect, t: string, rest: string)
    requires t != "" && AllIn(Ident, t)
    requires rest != "" ==> !Is(Ident, rest[0]) && rest[0] != ':'
    ensures !GroupAhead(d, t + rest) && (t + rest)[0] != '@'
  {
    var p := t + rest;
    assert Is(Ident, p[0]);
    if |p| >= 6 {
      assert "group:"[5] == ':' && "GROUP:"[5] == ':';
      assert LowerChar(p[5]) == Lower(p[..6])[5];
      if |t| > 5 {
        assert Is(Ident, p[5]);
      } else if |t| < 5 {
        var i := |t|;
        assert p[i] == rest[0];
        assert Is(Ident, "group:"[i]) && Is(Ident, "GROUP:"[i]);
        assert LowerChar(p[i]) == Lower(p[..6])[i];
      }
    }
  }

  lemma IdAhead(d: Dialect, t: string, rest: string)
    requires t != "" && AllIn(Hex, t)
    requires rest != "" ==> !Is(Hex, rest[0])
    ensures ReadTarget(d, "@" + t + rest) == Target(Id, Kept(d, t), rest)
  {
    hide Run, Kept;
    var p := "@" + t + rest;
    assert p[1..] == t + rest;
    RunOver(Hex, t, rest);
  }

  lemma GroupTargetAhead(d: Dialect, t: string, rest: string)
    requires t != "" && AllIn(Ident, t)
    requires rest != "" ==> !Is(Ident, rest[0])
    ensures ReadTarget(d, "group:" + t + rest) == Target(Group, Kept(d, t), rest)
  {
    hide Run, Kept, ReadToken;
    var p := "group:" + t + rest;
    assert p[6..] == t + rest;
    assert p[..6] == "group:";
    assert Lower("group:") == "group:";
    assert GroupAhead(d, p) && p[0] == 'g';
    TokenAhead(Ident, t, rest);
  }

  lemma NameAhead(d: Dialect, t: string, rest: string)
    requires t != "" && AllIn(Ident, t)
    requires rest != "" ==> !Is(Ident, rest[0]) && rest[0] != ':'
    ensures ReadTarget(d, t + rest) == Target(NameKind(t), Kept(d, t), rest)
  {
    hide Run, Kept, ReadToken, NameKind, GroupAhead;
    NamedIsNoGroup(d, t, rest);
    TokenAhead(Ident, t, rest);
    KeptNameKind(d, t);
  }

  /** A target in wire form, followed by what cannot belong to it, is read back whole. */
  lemma TargetAhead(d: Dialect, kind: AddressKind, t: string, rest: string)
    requires IsTarget(kind, t)
    requires rest != "" ==> !Is(Ident, rest[0]) && rest[0] != ':'
    ensures ReadTarget(d, WireTarget(kind, t) + rest) == Target(kind, Kept(d, t), rest)
  {
    hide Run, ReadTarget, Kept, NameKind;
    match kind
    case Id => IdAhead(d, t, rest);
    case Group => GroupTargetAhead(d, t, rest);
    case _ => NameAhead(d, t, rest);
  }

  lemma ParseWireTarget(d: Dialect, kind: AddressKind, t: string, rest: string)
    requires IsTarget(kind, t)
    requires rest != "" ==> !Is(Ident, rest[0]) && rest[0] != ':'
    ensures Parse(d, WireTarget(kind, t) + rest)
         == AfterTarget(d, NO_REQUEST.(kind := kind, target := Kept(d, t)), rest)
  {
    assert Is(Ident, t[0]);
    ParseStart(d, WireTarget(kind, t) + rest);
    TargetAhead(d, kind, t, rest);
  }

  /** `#digits` in front of anything but a digit: all of them, or as many as idbuf holds. */
  lemma ReadIdAhead(d: Dialect, r: Request, ds: string, tail: string)
    requires ds != "" && AllIn(Digit, ds)
    requires tail != "" ==> !Is(Digit, tail[0])
    ensures var n := if d.Cpp? && |ds| > MAX_ID_DIGITS then MAX_ID_DIGITS else |ds|;
            ReadId(d, r, "#" + (ds + tail)) == IdRead(r.(hasId := true, id := IdValue(d, ds[..n])), ds[n..] + tail)
  {
    hide Run, IdValue;
    var q := "#" + (ds + tail);
    var n := if d.Cpp? && |ds| > MAX_ID_DIGITS then MAX_ID_DIGITS else |ds|;
    assert q[1..] == ds + tail;
    RunOver(Digit, ds, tail);
    assert (ds + tail)[..n] == ds[..n] && (ds + tail)[n..] == ds[n..] + tail;
  }

  /** What follows a line and is no digit does not change the `#digits` in front of it. */
  lemma IdFront(d: Dialect, r: Request, q: string, b: string)
    requires q != "" && (b != "" ==> !Is(Digit, b[0]))
    ensures ReadId(d, r, q + b) == match ReadId(d, r, q)
                                   case BadId => BadId
                                   case IdRead(r', rest) => IdRead(r', rest + b)
  {
    hide Run, IdValue, Is, AllIn;
    if q[0] == '#' {
      var h := q[1..];
      assert (q + b)[1..] == h + b;
      RunFront(Digit, h, b);
      SliceFront(h, b, IdDigits(d, h));
    }
  }
}
