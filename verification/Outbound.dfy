/**
 The printer side: include/mcrpc/OutboundBuilder.h over the bounded reply buffer
 and python/mcrpc/builder.py over unbounded strings, and the canonical form that
 printing and parsing share.
 */
module Outbound {
  import opened Text
  import opened Wire
  import opened Buffers

  // ----- the bounded builder --------------------------------------------------

  function IdText(hasId: bool, id: nat): (s: string)
    ensures NoNul(s)
  {
    if hasId then "#" + Decimal(id) else ""
  }

  /** `target[#id] ` as far as the buffer takes it. */
  function HeadText(target: string, hasId: bool, id: nat): string {
    Push(Push(Push("", target), IdText(hasId, id)), " ")
  }

  datatype Built = Built(text: string, ok: bool)

  function BuildRequest(target: string, command: string, hasId: bool, id: nat): Built {
    var head := HeadText(target, hasId, id);
    Built(Push(head, command), Fits(head, command))
  }

  /** The argument loop: null pointers are skipped, the first text that does not fit ends it. */
  function BuildArgs(text: string, argv: seq<CString>): Built
    decreases |argv|
  {
    if argv == [] then Built(text, true)
    else if argv[0].Null? then BuildArgs(text, argv[1..])
    else
      var spaced := Push(text, " ");
      if Fits(spaced, argv[0].text) then BuildArgs(Push(spaced, argv[0].text), argv[1..])
      else Built(spaced, false)
  }

  predicate IsCText(s: CString) {
    s.Str? ==> NoNul(s.text)
  }

  method Request(out: ReplyBuffer, target: CString, command: CString, hasId: bool, id: nat) returns (ok: bool)
    requires out.Valid() && IsCText(target) && IsCText(command) && id < UINT32_SIZE
    modifies out, out.data
    ensures out.Valid()
    ensures if target.Null? || command.Null? then !ok && out.Text() == old(out.Text())
            else Built(out.Text(), ok) == BuildRequest(target.text, command.text, hasId, id)
  {
    hide Decimal, Push, Fits;
    if target.Null? || command.Null? {
      return false;
    }
    out.Clear();
    var _ := out.Append(target);
    NoIdPushed(out.Text());
    if hasId {
      var _ := out.Append(Str(IdText(true, id)));
    }
    var _ := out.AppendChar(' ');
    ok := out.Append(command);
  }

  lemma NoIdPushed(text: string)
    requires |text| < MAX_REPLY
    ensures Push(text, "") == text
  {
    assert text + "" == text;
  }

  method RequestWithArgs(out: ReplyBuffer, target: CString, command: CString, argv: seq<CString>, hasId: bool, id: nat)
    returns (ok: bool)
    requires out.Valid() && IsCText(target) && IsCText(command) && id < UINT32_SIZE
    requires forall a :: a in argv ==> IsCText(a)
    modifies out, out.data
    ensures out.Valid()
    ensures if target.Null? || command.Null? then !ok && out.Text() == old(out.Text())
            else var b := BuildRequest(target.text, command.text, hasId, id);
                 Built(out.Text(), ok) == if b.ok then BuildArgs(b.text, argv) else b
  {
    hide Decimal, Push;
    ok := Request(out, target, command, hasId, id);
    if !ok {
      return;
    }
    ghost var whole := BuildArgs(out.Text(), argv);
    for i := 0 to |argv|
      invariant out.Valid() && BuildArgs(out.Text(), argv[i..]) == whole
    {
      assert argv[i..][0] == argv[i] && argv[i..][1..] == argv[i + 1..];
      if argv[i].Str? {
        assert IsCText(argv[i]);
        var _ := out.AppendChar(' ');
        ok := out.Append(argv[i]);
        if !ok {
          assert Built(out.Text(), false) == whole by { PushUnfit(); }
          return;
        }
      }
    }
    ok := true;
  }

  lemma PushUnfit()
    ensures forall text, piece :: !Fits(text, piece) ==> Push(text, piece) == text
  {
  }

  /** With nothing dropped, the line a request prints to. */
  function FullRequest(target: string, command: string, hasId: bool, id: nat): string {
    target + IdText(hasId, id) + (" " + command)
  }

  /**
   Whether true is returned for a line that is not whole, from the lengths of the
   target, the id text and the command: a target that fits no buffer is dropped
   when the rest fits; an id text is dropped when there is room for the command
   without it; the space is dropped in front of an empty command.
   */
  predicate DropsSilently(t: nat, i: nat, c: nat) {
    || (t >= MAX_REPLY && i + 1 + c < MAX_REPLY)
    || (t < MAX_REPLY <= t + i && (t + 1 + c < MAX_REPLY || (t + 1 == MAX_REPLY && c == 0)))
    || (t + i + 1 == MAX_REPLY && c == 0)
  }

  /** What is pushed is there or not, and only what is too long is not. */
  lemma PushCases(text: string, piece: string)
    ensures Fits(text, piece) <==> |text| + |piece| < MAX_REPLY
    ensures Push(text, piece) == if Fits(text, piece) then text + piece else text
  {
  }

  lemma IdTextIsShort(hasId: bool, id: nat)
    requires id < UINT32_SIZE
    ensures |IdText(hasId, id)| <= 11
  {
    Decimal32(id);
  }

  /**
   The result code alone does not say that the line is whole. It is true for the
   whole line exactly when all of it fits, and for a line with something dropped
   exactly when the lengths say so.
   */
  lemma RequestIsWhole(target: string, command: string, hasId: bool, id: nat)
    requires id < UINT32_SIZE
    ensures var b, full := BuildRequest(target, command, hasId, id), FullRequest(target, command, hasId, id);
            && (b.ok && b.text == full <==> |full| < MAX_REPLY)
            && (b.ok && b.text != full <==> DropsSilently(|target|, |IdText(hasId, id)|, |command|))
  {
    hide IdText, Push, Fits;
    IdTextIsShort(hasId, id);
    var i := IdText(hasId, id);
    var t1 := Push("", target);
    var t2 := Push(t1, i);
    var t3 := Push(t2, " ");
    PushCases("", target);
    PushCases(t1, i);
    PushCases(t2, " ");
    PushCases(t3, command);
    WholeText(target, i, command);
  }

  lemma WholeText(t: string, i: string, c: string)
    ensures "" + t == t && t + i + " " + c == t + i + (" " + c)
  {
  }

  lemma DroppedTargetIsNotReported()
    ensures var b := BuildRequest(seq(MAX_REPLY, _ => 'a'), "ping", false, 0);
            b.ok && b.text == " ping"
  {
    hide Decimal;
    assert |seq(MAX_REPLY, _ => 'a')| == MAX_REPLY;
    assert "" + "" == "" && "" + " " == " ";
  }

  // ----- the canonical form ---------------------------------------------------

  /** The requests a dialect can produce. */
  predicate WellFormed(d: Dialect, r: Wire.Request) {
    && IsTarget(r.kind, r.target)
    && (!r.hasId ==> r.id == 0)
    && r.command != "" && AllIn(Ident, r.command) && Lower(r.command) == r.command && r.command != "discover"
    && (forall a :: a in r.args ==> a != "" && AllIn(Word, a))
    && (d.Cpp? ==> WithinBounds(r))
  }

  lemma WellFormedFacts(d: Dialect, r: Wire.Request)
    requires WellFormed(d, r)
    ensures r.target != "" && r.command != "" && IsTargetText(r.kind, r.target)
  {
  }

  predicate WithinBounds(r: Wire.Request) {
    && |r.target| <= TOKEN_CHARS && |r.command| <= TOKEN_CHARS && r.id < UINT32_SIZE
    && |r.args| <= MAX_ARGS && (forall a :: a in r.args ==> |a| <= TOKEN_CHARS)
  }

  function ArgsTail(args: seq<string>): string {
    if args == [] then "" else " " + (args[0] + ArgsTail(args[1..]))
  }

  /** A request put back on the wire, the group or id marker included. */
  function Line(r: Wire.Request): string {
    WireTarget(r.kind, r.target) + (IdText(r.hasId, r.id) + (" " + (r.command + ArgsTail(r.args))))
  }

  lemma TailStart(args: seq<string>)
    ensures ArgsTail(args) != "" ==> ArgsTail(args)[0] == ' '
  {
  }

  lemma {:induction false} WordsOfTail(args: seq<string>)
    requires forall a :: a in args ==> a != "" && AllIn(Word, a)
    ensures Words(ArgsTail(args)) == args
  {
    hide Run, ReadToken;
    if args != [] {
      hide Words;
      var rest := ArgsTail(args[1..]);
      assert forall a :: a in args[1..] ==> a in args;
      WordsOfTail(args[1..]);
      TailStart(args[1..]);
      assert args[0] in args;
      WordsAfterBlank(" ", args[0] + rest);
      WordAhead(args[0], rest);
    } else {
      RunIs(Blank, "", 0);
      assert ReadToken(Word, "").NoToken? by { NoTokenIn(Word); }
    }
  }

  lemma NoTokenIn(k: CharClass)
    ensures ReadToken(k, "").NoToken?
  {
  }

  lemma ArgsBack(d: Dialect, args: seq<string>)
    requires forall a :: a in args ==> a != "" && AllIn(Word, a)
    requires d.Cpp? ==> |args| <= MAX_ARGS && forall a :: a in args ==> |a| <= TOKEN_CHARS
    ensures ReadArgs(d, ArgsTail(args)) == args
  {
    hide Words, Run;
    WordsOfTail(args);
    assert FirstArgs(args) == args || d.Python?;
    assert KeptAll(d, args) == args;
  }

  lemma CommandBack(d: Dialect, r: Wire.Request, before: Wire.Request, tail: string)
    requires r.command != "" && AllIn(Ident, r.command) && Lower(r.command) == r.command && r.command != "discover"
    requires d.Cpp? ==> |r.command| <= TOKEN_CHARS
    requires tail != "" ==> tail[0] == ' '
    ensures ReadCommand(d, before, r.command + tail)
         == Parsed(Ok, before.(command := r.command, args := ReadArgs(d, tail)))
    ensures Skip(Blank, " " + (r.command + tail)) == r.command + tail
    ensures ReadToken(Ident, r.command + tail) == Token(r.command, tail)
  {
    hide Run, ReadArgs;
    var c := r.command;
    assert Is(Ident, c[0]);
    RunIs(Blank, c + tail, 0);
    SkipOver(Blank, " ", c + tail);
    TokenAhead(Ident, c, tail);
  }

  lemma IdBack(d: Dialect, r: Wire.Request, id: nat, more: string)
    requires d.Cpp? ==> id < UINT32_SIZE
    requires more != "" ==> !Is(Digit, more[0])
    ensures ReadId(d, r, "#" + (Decimal(id) + more)) == IdRead(r.(hasId := true, id := id), more)
  {
    hide Run, ReadId, Decimal, Value;
    var ds := Decimal(id);
    if d.Cpp? {
      Decimal32(id);
    }
    ReadIdAhead(d, r, ds, more);
    ValueOfDecimal(id);
    assert ds[..|ds|] == ds && ds[|ds|..] + more == more;
  }

  lemma AfterTargetBack(d: Dialect, r: Wire.Request)
    requires WellFormed(d, r)
    ensures var before := NO_REQUEST.(kind := r.kind, target := r.target);
            AfterTarget(d, before, IdText(r.hasId, r.id) + (" " + (r.command + ArgsTail(r.args)))) == Parsed(Ok, r)
  {
    hide Run, Decimal, Words, ReadArgs, ReadCommand, ReadId, SplitGlued, ArgsTail, Skip;
    var before := NO_REQUEST.(kind := r.kind, target := r.target);
    var tail := ArgsTail(r.args);
    var more := " " + (r.command + tail);
    NoGluedId(d, before);
    TailStart(r.args);
    ArgsBack(d, r.args);
    CommandBack(d, r, before, tail);
    CommandBack(d, r, before.(hasId := true, id := r.id), tail);
    if r.hasId {
      var q := "#" + (Decimal(r.id) + more);
      assert IdText(true, r.id) + more == q;
      NoSkip(q);
      IdBack(d, before, r.id, more);
      CommandNoBlank(d, before.(hasId := true, id := r.id), r.command + tail);
    } else {
      assert "" + more == more;
      NoIdHere(d, before, r.command + tail);
    }
  }

  lemma NoSkip(q: string)
    requires q != "" && !Is(Blank, q[0])
    ensures Skip(Blank, q) == q
  {
    RunIs(Blank, q, 0);
  }

  lemma NoIdHere(d: Dialect, r: Wire.Request, q: string)
    requires q != "" && q[0] != '#'
    ensures ReadId(d, r, q) == IdRead(r, q)
  {
  }

  lemma CommandNoBlank(d: Dialect, r: Wire.Request, s: string)
    ensures ReadCommand(d, r, " " + s) == ReadCommand(d, r, s)
  {
    hide Run;
    TokenAfterBlank(Ident, " ", s);
  }

  /** Printing a well-formed request and parsing the line gives the request back, in either dialect. */
  lemma ParseOfLine(d: Dialect, r: Wire.Request)
    requires WellFormed(d, r)
    ensures Parse(d, Line(r)) == Parsed(Ok, r)
  {
    hide Run, Decimal, Parse, AfterTarget, ArgsTail, WireTarget, IsTarget;
    var rest := IdText(r.hasId, r.id) + (" " + (r.command + ArgsTail(r.args)));
    assert rest != "" && (rest[0] == '#' || rest[0] == ' ');
    ParseWireTarget(d, r.kind, r.target, rest);
    AfterTargetBack(d, r);
  }

  // ----- every accepted line has a canonical form ------------------------------

  lemma {:induction false} WordsAreWords(s: string)
    ensures forall a :: a in Words(s) ==> a != "" && AllIn(Word, a)
    decreases |s|
  {
    hide Run, ReadToken;
    match ReadToken(Word, s)
    case NoToken =>
    case Token(t, rest) =>
      TokenText(Word, s);
      WordsAreWords(rest);
  }

  lemma ArgsAreWords(d: Dialect, s: string)
    ensures forall a :: a in ReadArgs(d, s) ==> a != "" && AllIn(Word, a)
    ensures d.Cpp? ==> |ReadArgs(d, s)| <= MAX_ARGS && forall a :: a in ReadArgs(d, s) ==> |a| <= TOKEN_CHARS
  {
    hide Words;
    WordsAreWords(s);
    var words, args := Words(s), ReadArgs(d, s);
    forall i | 0 <= i < |args| ensures args[i] != "" && AllIn(Word, args[i]) && (d.Cpp? ==> |args[i]| <= TOKEN_CHARS) {
      assert words[i] in words && args[i] == Kept(d, words[i]);
    }
  }

  lemma CommandIsLower(d: Dialect, t: string)
    requires t != "" && AllIn(Ident, t)
    ensures var c := CommandOf(d, t);
            c != "" && AllIn(Ident, c) && Lower(c) == c && c != "discover" && (d.Cpp? ==> |c| <= TOKEN_CHARS)
  {
    var k := Lower(Kept(d, t));
    assert forall i :: 0 <= i < |k| ==> Is(Ident, t[i]) && k[i] == LowerChar(t[i]);
    LowerTwice(Kept(d, t));
    assert AllIn(Ident, "discovery") && Lower("discovery") == "discovery";
    assert |"discovery"| == 9 != |"discover"|;
  }

  lemma AcceptedTarget(d: Dialect, p: string)
    requires ReadTarget(d, p).Target?
    ensures var t := ReadTarget(d, p); IsTarget(t.kind, t.text) && (d.Cpp? ==> |t.text| <= TOKEN_CHARS)
  {
    hide Run, ReadToken, NameKind;
    TargetText(d, p);
  }

  lemma AcceptedCommand(d: Dialect, r: Wire.Request, s: string)
    requires IsTarget(r.kind, r.target) && (!r.hasId ==> r.id == 0)
    requires d.Cpp? ==> |r.target| <= TOKEN_CHARS && r.id < UINT32_SIZE
    requires ReadCommand(d, r, s).result == Ok
    ensures WellFormed(d, ReadCommand(d, r, s).request)
  {
    hide Run, ReadToken, ReadArgs, CommandOf, IsTarget;
    var t := ReadToken(Ident, s);
    TokenText(Ident, s);
    CommandIsLower(d, t.text);
    ArgsAreWords(d, t.rest);
  }

  lemma AcceptedId(d: Dialect, r: Wire.Request, q: string)
    requires r.id == 0 && !r.hasId && ReadId(d, r, q).IdRead?
    ensures var r' := ReadId(d, r, q).request;
            r' == r.(hasId := r'.hasId, id := r'.id) && (!r'.hasId ==> r'.id == 0) && (d.Cpp? ==> r'.id < UINT32_SIZE)
  {
    hide Run, Value;
  }

  lemma AcceptedAfterTarget(d: Dialect, r: Wire.Request, rest: string)
    requires IsTarget(r.kind, r.target) && !r.hasId && r.id == 0 && (d.Cpp? ==> |r.target| <= TOKEN_CHARS)
    requires AfterTarget(d, r, rest).result == Ok
    ensures WellFormed(d, AfterTarget(d, r, rest).request)
  {
    hide Run, Skip, ReadId, ReadCommand, NameKind, SplitGlued;
    NoGluedId(d, r);
    var q := Skip(Blank, rest);
    AcceptedId(d, r, q);
    var id := ReadId(d, r, q);
    AcceptedCommand(d, id.request, id.rest);
  }

  lemma AcceptedIsWellFormed(d: Dialect, s: string)
    requires Parse(d, s).result == Ok
    ensures WellFormed(d, Parse(d, s).request)
  {
    hide Run, Skip, ReadTarget, AfterTarget, WellFormed, NameKind;
    var p := Skip(Blank, Skip(LineEnd, Skip(Blank, s)));
    AcceptedTarget(d, p);
    var t := ReadTarget(d, p);
    AcceptedAfterTarget(d, NO_REQUEST.(kind := t.kind, target := t.text), t.rest);
  }

  /** The well-formed requests are exactly those some line parses to. */
  lemma WellFormedIsTheImage(d: Dialect, r: Wire.Request)
    ensures WellFormed(d, r) <==> exists s :: Parse(d, s) == Parsed(Ok, r)
  {
    hide *;
    if WellFormed(d, r) {
      ParseOfLine(d, r);
    }
    forall s | Parse(d, s) == Parsed(Ok, r) ensures WellFormed(d, r) {
      AcceptedIsWellFormed(d, s);
    }
  }

  // ----- the bounded printer on accepted requests ------------------------------

  /** What requestWithArgs prints for a request. */
  function Printed(r: Wire.Request): Built {
    var b := BuildRequest(WireTarget(r.kind, r.target), r.command, r.hasId, r.id);
    if b.ok then BuildArgs(b.text, Pointers(r.args)) else b
  }

  lemma BuildArgsStep(text: string, a: string, more: seq<CString>)
    requires |text| < MAX_REPLY && a != ""
    ensures BuildArgs(text, [Str(a)] + more)
         == if |text| + 1 + |a| < MAX_REPLY then BuildArgs(text + " " + a, more) else Built(Push(text, " "), false)
  {
    assert ([Str(a)] + more)[1..] == more;
  }

  lemma NoArgs(text: string)
    ensures BuildArgs(text, Pointers([])) == Built(text, true) && text + ArgsTail([]) == text
  {
  }

  lemma ArgFirst(text: string, args: seq<string>)
    requires args != []
    ensures Pointers(args) == [Str(args[0])] + Pointers(args[1..])
    ensures text + ArgsTail(args) == text + " " + args[0] + ArgsTail(args[1..])
  {
    PointersFirst(args);
    TailFirst(args);
    hide *;
    Spaced(text, args[0], ArgsTail(args[1..]));
  }

  lemma PointersFirst(args: seq<string>)
    requires args != []
    ensures Pointers(args) == [Str(args[0])] + Pointers(args[1..])
  {
  }

  lemma TailFirst(args: seq<string>)
    requires args != []
    ensures ArgsTail(args) == " " + (args[0] + ArgsTail(args[1..]))
  {
  }

  lemma Spaced(text: string, a: string, tail: string)
    ensures text + (" " + (a + tail)) == text + " " + a + tail
  {
  }

  lemma {:induction false} ArgsPrinted(text: string, args: seq<string>)
    requires |text| < MAX_REPLY && forall a :: a in args ==> a != ""
    decreases |args|
    ensures var b := BuildArgs(text, Pointers(args));
            (b.ok <==> |text + ArgsTail(args)| < MAX_REPLY) && (b.ok ==> b.text == text + ArgsTail(args))
  {
    hide *;
    if args == [] {
      NoArgs(text);
    } else {
      var a, rest := args[0], args[1..];
      assert a in args && forall x :: x in rest ==> x in args;
      ArgFirst(text, args);
      BuildArgsStep(text, a, Pointers(rest));
      if |text| + 1 + |a| < MAX_REPLY {
        ArgsPrinted(text + " " + a, rest);
      }
    }
  }

  // ----- what the argument loop writes ----------------------------------------

  function Texts(argv: seq<CString>): seq<string> {
    if argv == [] then [] else (if argv[0].Null? then [] else [argv[0].text]) + Texts(argv[1..])
  }

  lemma ArgsTailStep(a: string, rest: seq<string>)
    ensures ArgsTail([a] + rest) == " " + (a + ArgsTail(rest)) && ArgsTail([]) == ""
  {
    assert ([a] + rest)[1..] == rest;
  }

  lemma FrontStep(a: string, rest: seq<string>, j: nat)
    requires j <= |rest|
    ensures ([a] + rest)[..j + 1] == [a] + rest[..j] && (j < |rest| ==> ([a] + rest)[j + 1] == rest[j])
  {
  }

  /**
   The loop writes a run of the arguments, nulls left out, cut to 191 characters: only
   spaces in front of empty arguments are ever cut. If that is not all of them, the next
   one does not fit, false is returned, and its space is left behind if there is room.
   */
  lemma {:induction false} ArgsWritten(text: string, argv: seq<CString>) returns (j: nat)
    requires |text| < 192
    ensures var b, args := BuildArgs(text, argv), Texts(argv);
            && j <= |args| && (b.ok <==> j == |args|)
            && (forall i :: 0 <= i < j && args[i] != "" ==> |text + ArgsTail(args[..i + 1])| < 192)
            && var part := Cut(text + ArgsTail(args[..j]), 191);
               if j == |args| then b.text == part
               else args[j] != "" && |part| + 1 + |args[j]| >= 192 && b.text == Cut(part + " ", 191)
    decreases |argv|
  {
    j := 0;
    hide BuildArgs, ArgsTail, Cut;
    LoopStep(text, argv);
    NothingAppended(text);
    if argv != [] {
      var rest := argv[1..];
      if argv[0].Null? {
        j := ArgsWritten(text, rest);
        assert Texts(argv) == Texts(rest);
      } else {
        var a, args := argv[0].text, Texts(rest);
        assert Texts(argv) == [a] + args;
        if a == "" || |text| + 1 + |a| < 192 {
          var next := Cut(text + " " + a, 191);
          var i := ArgsWritten(next, rest);
          j := i + 1;
          OneMoreWritten(text, a, args, i);
        }
      }
    }
  }

  lemma NothingAppended(text: string)
    requires |text| < 192
    ensures Cut(text + ArgsTail([]), 191) == text
  {
    assert text + "" == text;
  }

  /** One argument is written, or was empty and the buffer is full. */
  lemma OneMoreWritten(text: string, a: string, args: seq<string>, j: nat)
    requires |text| < 192 && (a == "" || |text| + 1 + |a| < 192) && j <= |args|
    requires var next := Cut(text + " " + a, 191);
             forall i :: 0 <= i < j && args[i] != "" ==> |next + ArgsTail(args[..i + 1])| < 192
    ensures var all, next := [a] + args, Cut(text + " " + a, 191);
            && Cut(text + ArgsTail(all[..j + 1]), 191) == Cut(next + ArgsTail(args[..j]), 191)
            && (j < |args| ==> all[j + 1] == args[j])
            && forall i :: 0 <= i < j + 1 && all[i] != "" ==> |text + ArgsTail(all[..i + 1])| < 192
  {
    hide ArgsTail, Cut;
    var all, next := [a] + args, Cut(text + " " + a, 191);
    AppendedOver(text, a, args, j);
    forall i | 0 <= i < j + 1 && all[i] != "" ensures |text + ArgsTail(all[..i + 1])| < 192 {
      AppendedOver(text, a, args, i);
      if i == 0 {
        assert args[..0] == [];
        ArgsTailStep(a, []);
      } else {
        assert all[i] == args[i - 1];
        TailIsLong(args[..i]);
        assert args[..i - 1 + 1] == args[..i];
      }
    }
  }

  lemma TailIsLong(args: seq<string>)
    ensures args != [] ==> |ArgsTail(args)| > 0
  {
  }

  lemma AppendedOver(text: string, a: string, args: seq<string>, i: nat)
    requires |text| < 192 && (a == "" || |text| + 1 + |a| < 192) && i <= |args|
    ensures var all, next, tail := [a] + args, Cut(text + " " + a, 191), ArgsTail(args[..i]);
            && |text + ArgsTail(all[..i + 1])| == |text| + 1 + |a| + |tail|
            && |next| == (if |text| + 1 + |a| < 192 then |text| + 1 + |a| else 191)
            && Cut(text + ArgsTail(all[..i + 1]), 191) == Cut(next + tail, 191)
  {
    hide ArgsTail;
    FrontStep(a, args, i);
    ArgsTailStep(a, args[..i]);
    var tail := ArgsTail(args[..i]);
    Spaced(text, a, tail);
    if |text| + 1 + |a| >= 192 {
      assert (text + " " + a + tail)[..191] == text == (text + tail)[..191];
    }
  }

  lemma LoopStep(text: string, argv: seq<CString>)
    requires |text| < 192
    ensures argv == [] ==> BuildArgs(text, argv) == Built(text, true)
    ensures argv != [] && argv[0].Null? ==> BuildArgs(text, argv) == BuildArgs(text, argv[1..])
    ensures argv != [] && argv[0].Str? ==>
              var a := argv[0].text;
              BuildArgs(text, argv)
              == if a == "" || |text| + 1 + |a| < 192 then BuildArgs(Cut(text + " " + a, 191), argv[1..])
                 else Built(Cut(text + " ", 191), false)
  {
    if argv != [] && argv[0].Str? {
      var a := argv[0].text;
      assert a == "" ==> text + " " + a == text + " " && text + "" == text;
    }
  }

  lemma PushedHead(t: string, i: string, c: string)
    requires |t| + |i| + 1 + |c| < MAX_REPLY
    ensures var head := Push(Push(Push("", t), i), " "); Fits(head, c) && Push(head, c) == t + (i + (" " + c))
  {
    assert "" + t == t;
    assert t + i + " " + c == t + (i + (" " + c));
  }

  lemma HeadLengths(r: Wire.Request)
    requires WellFormed(Cpp, r)
    ensures |WireTarget(r.kind, r.target)| <= 77 && |IdText(r.hasId, r.id)| <= 11 && |r.command| <= 71
  {
    hide IdText, IsTarget;
    IdTextIsShort(r.hasId, r.id);
  }

  lemma HeadFits(r: Wire.Request)
    requires WellFormed(Cpp, r)
    ensures var b := BuildRequest(WireTarget(r.kind, r.target), r.command, r.hasId, r.id);
            && b.ok && |b.text| <= 160
            && b.text == WireTarget(r.kind, r.target) + (IdText(r.hasId, r.id) + (" " + r.command))
  {
    hide WireTarget, IdText, WellFormed, Push, Fits;
    HeadLengths(r);
    PushedHead(WireTarget(r.kind, r.target), IdText(r.hasId, r.id), r.command);
  }

  /**
   The canonical form: print any request that some line parses to. The printer
   succeeds exactly when the whole line fits the buffer, it then wrote that line,
   and parsing it gives back the very same request. Without arguments it never
   fails, since at most 160 of the 191 bytes are used.
   */
  lemma CanonicalForm(s: string)
    requires Parse(Cpp, s).result == Ok
    ensures var r := Parse(Cpp, s).request;
            var b := Printed(r);
            && (b.ok <==> |Line(r)| < MAX_REPLY)
            && (b.ok ==> b.text == Line(r) && Parse(Cpp, b.text) == Parsed(Ok, r))
            && (r.args == [] ==> b.ok && |b.text| <= 160)
  {
    hide Run, Decimal, Parse, WireTarget, ArgsTail, IdText, BuildRequest, BuildArgs;
    AcceptedIsWellFormed(Cpp, s);
    var r := Parse(Cpp, s).request;
    HeadFits(r);
    ParseOfLine(Cpp, r);
    var b := BuildRequest(WireTarget(r.kind, r.target), r.command, r.hasId, r.id);
    ArgsPrinted(b.text, r.args);
    assert b.text + ArgsTail(r.args) == Line(r);
    NoArgsNoTail();
    assert r.args == [] ==> b.text + "" == b.text;
  }

  lemma NoArgsNoTail()
    ensures ArgsTail([]) == ""
  {
  }
}
