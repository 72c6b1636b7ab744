/**
 The bounded C++ parser against the unbounded Python parser: where they agree,
 and exactly where they do not.
 */
module Refinement {
  import opened Text
  import opened Wire

  /** A Python result squeezed into the fixed buffers of the C++ Request. */
  function Bounded(p: Parsed): Parsed {
    var r := p.request;
    Parsed(p.result, r.(target := Cut(r.target, TOKEN_CHARS),
                        command := Cut(r.command, TOKEN_CHARS),
                        args := KeptAll(Cpp, FirstArgs(r.args))))
  }

  /** `Group:` in a mix of cases is a group address to Python only. */
  predicate MixedGroup(s: string) {
    GroupAhead(Python, Start(s)) && !GroupAhead(Cpp, Start(s))
  }

  /** The digits after the '#' that follows the target, "" when there are none. */
  function IdText(s: string): (ds: string)
    ensures AllIn(Digit, ds)
  {
    match ReadTarget(Python, Start(s))
    case NoTarget(_) => ""
    case Target(_, _, rest) => IdTextAt(Skip(Blank, rest))
  }

  /** What follows those digits. */
  function IdTail(s: string): string {
    match ReadTarget(Python, Start(s))
    case NoTarget(_) => ""
    case Target(_, _, rest) => IdTailAt(Skip(Blank, rest))
  }

  function IdTailAt(q: string): string {
    if q != "" && q[0] == '#' then q[1..][Run(Digit, q[1..])..] else ""
  }

  function IdTextAt(q: string): (ds: string)
    ensures AllIn(Digit, ds)
  {
    if q != "" && q[0] == '#' then q[1..][..Run(Digit, q[1..])] else ""
  }

  predicate IdFits(ds: string)
    requires AllIn(Digit, ds)
  {
    |ds| <= MAX_ID_DIGITS && Value(ds) < UINT32_SIZE
  }

  lemma SameGroup(p: string)
    ensures GroupAhead(Cpp, p) ==> GroupAhead(Python, p)
  {
    assert Lower("group:") == "group:";
    assert Lower("GROUP:") == "group:";
  }

  lemma SameTarget(p: string)
    requires GroupAhead(Python, p) ==> GroupAhead(Cpp, p)
    ensures ReadTarget(Cpp, p) == match ReadTarget(Python, p)
                                  case NoTarget(k) => NoTarget(k)
                                  case Target(k, t, rest) => Target(k, Cut(t, TOKEN_CHARS), rest)
  {
    hide Run, ReadToken, NameKind, Cut, GroupAhead;
    SameGroup(p);
    match ReadToken(Ident, p)
    case NoToken =>
    case Token(t, _) => KeptNameKind(Cpp, t);
  }

  lemma SameCommandText(t: string)
    ensures CommandOf(Cpp, t) == Cut(CommandOf(Python, t), TOKEN_CHARS)
  {
    LowerCut(t, TOKEN_CHARS);
    assert |t| > TOKEN_CHARS ==> |Lower(t)| != |"discover"|;
  }

  lemma SameCommand(r: Request, s: string)
    requires r.args == [] && r.command == ""
    ensures ReadCommand(Cpp, r.(target := Cut(r.target, TOKEN_CHARS)), s) == Bounded(ReadCommand(Python, r, s))
  {
    match ReadToken(Ident, s)
    case NoToken =>
    case Token(t, rest) =>
      var words := Words(rest);
      assert KeptAll(Python, words) == words;
      SameCommandText(t);
  }

  /** The same '#digits' is read by both when it fits. */
  lemma SameId(r: Request, q: string)
    requires IdFits(IdTextAt(q))
    ensures var cut := r.(target := Cut(r.target, TOKEN_CHARS));
            ReadId(Cpp, cut, q) == match ReadId(Python, r, q)
                                   case BadId => BadId
                                   case IdRead(r', rest) => IdRead(r'.(target := cut.target), rest)
    ensures ReadId(Python, r, q).IdRead? ==>
              ReadId(Python, r, q).request == r.(hasId := ReadId(Python, r, q).request.hasId,
                                                 id := ReadId(Python, r, q).request.id)
  {
  }

  /** After the same target, the two agree when the id digits fit. */
  lemma SameAfterTarget(r: Request, rest: string)
    requires IsTargetText(r.kind, r.target) && r.args == [] && r.command == ""
    requires IdFits(IdTextAt(Skip(Blank, rest)))
    ensures AfterTarget(Cpp, r.(target := Cut(r.target, TOKEN_CHARS)), rest) == Bounded(AfterTarget(Python, r, rest))
  {
    var cut := r.(target := Cut(r.target, TOKEN_CHARS));
    NoGluedId(Python, r);
    NoGluedId(Cpp, cut);
    var q := Skip(Blank, rest);
    SameId(r, q);
    match ReadId(Python, r, q)
    case BadId =>
    case IdRead(r', rest') => SameCommand(r', rest');
  }

  /** On every line without a mixed-case group and with a fitting id, C++ is Python bounded. */
  lemma BoundedRefinesUnbounded(s: string)
    requires !MixedGroup(s) && IdFits(IdText(s))
    ensures Parse(Cpp, s) == Bounded(Parse(Python, s))
  {
    var p := Start(s);
    if p != "" {
      SameTarget(p);
      match ReadTarget(Python, p)
      case NoTarget(_) =>
      case Target(k, t, rest) =>
        TargetText(Python, p);
        SameAfterTarget(NO_REQUEST.(kind := k, target := t), rest);
    }
  }

  lemma KindIsKept(d: Dialect, p: string)
    ensures ParseTarget(d, p).request.kind == ReadTarget(d, p).kind
  {
  }

  lemma OnlyGroupAheadGivesGroup(d: Dialect, p: string)
    requires p != "" && p[0] != '@'
    ensures ReadTarget(d, p).kind == Group <==> GroupAhead(d, p)
  {
  }

  /** A mixed-case group always separates them. */
  lemma MixedGroupDiffers(s: string)
    requires MixedGroup(s)
    ensures Parse(Cpp, s).request.kind != Parse(Python, s).request.kind
  {
    var p := Start(s);
    assert LowerChar(p[0]) == Lower(p[..6])[0] == "group:"[0];
    OnlyGroupAheadGivesGroup(Cpp, p);
    OnlyGroupAheadGivesGroup(Python, p);
    KindIsKept(Cpp, p);
    KindIsKept(Python, p);
    assert Parse(Cpp, s) == ParseTarget(Cpp, p);
    assert Parse(Python, s) == ParseTarget(Python, p);
  }

  lemma DivideId(q: string) returns (ds: string, tail: string)
    requires IdTextAt(q) != ""
    ensures ds == IdTextAt(q) && tail == IdTailAt(q) && q == "#" + (ds + tail)
    ensures ds != "" && AllIn(Digit, ds) && (tail != "" ==> !Is(Digit, tail[0]))
  {
    hide Run, Is;
    ds, tail := IdTextAt(q), IdTailAt(q);
    assert q[1..] == ds + tail;
  }

  lemma CommandKeepsId(d: Dialect, r: Request, s: string)
    ensures ReadCommand(d, r, s).request.id == r.id
  {
  }

  /** A number of digits that fits is read whole, and the id of the request is its value. */
  lemma IdOfDigits(d: Dialect, r: Request, rest: string)
    requires IsTargetText(r.kind, r.target)
    requires 0 < |IdTextAt(Skip(Blank, rest))| <= MAX_ID_DIGITS
    ensures AfterTarget(d, r, rest).request.id == IdValue(d, IdTextAt(Skip(Blank, rest)))
  {
    hide Run, Skip, IdValue, ReadId, ReadCommand, SplitGlued, IdTextAt, IdTailAt, Is;
    NoGluedId(d, r);
    var q := Skip(Blank, rest);
    var ds, tail := DivideId(q);
    ReadIdAhead(d, r, ds, tail);
    assert ds[..|ds|] == ds;
    CommandKeepsId(d, r.(hasId := true, id := IdValue(d, ds)), ds[|ds|..] + tail);
  }

  /** A fitting number of digits with a value past 32 bits always separates them. */
  lemma WideIdDiffers(r: Request, c: Request, rest: string)
    requires IsTargetText(r.kind, r.target) && c == r.(target := Cut(r.target, TOKEN_CHARS))
    requires var ds := IdTextAt(Skip(Blank, rest)); |ds| <= MAX_ID_DIGITS && Value(ds) >= UINT32_SIZE
    ensures AfterTarget(Cpp, c, rest).request.id < UINT32_SIZE <= AfterTarget(Python, r, rest).request.id
  {
    hide Run, Skip, AfterTarget, Is;
    var ds := IdTextAt(Skip(Blank, rest));
    assert ds != "" by { NothingIsZero(); }
    hide Value, IdTextAt;
    assert IsTargetText(c.kind, c.target) by { hide Is; }
    IdOfDigits(Cpp, c, rest);
    IdOfDigits(Python, r, rest);
  }

  lemma NothingIsZero()
    ensures Value("") == 0
  {
  }

  lemma CommandFirst(d: Dialect, t: string)
    requires t != ""
    ensures CommandOf(d, t) != "" && CommandOf(d, t)[0] == LowerChar(t[0])
  {
    assert Lower(Kept(d, t))[0] == LowerChar(t[0]);
  }

  /** Digits past the fifteenth become the front of the C++ command. */
  lemma SpillBecomesCommand(spill: string, tail: string)
    requires spill != "" && AllIn(Digit, spill)
    ensures var n := Run(Ident, tail);
            ReadToken(Ident, spill + tail) == Token(spill + tail[..n], tail[n..])
  {
    var n := Run(Ident, tail);
    assert spill + tail == (spill + tail[..n]) + tail[n..];
    forall i | 0 <= i < |spill| ensures Is(Ident, spill[i]) { assert Is(Digit, spill[i]); }
    TokenAhead(Ident, spill + tail[..n], tail[n..]);
  }

  lemma IdentIsWord(c: string)
    requires AllIn(Ident, c)
    ensures AllIn(Word, c)
  {
    forall i | 0 <= i < |c| ensures Is(Word, c[i]) { assert Is(Ident, c[i]); }
  }

  /** At least eight words, the first eight stored as w. */
  predicate EightOf(words: seq<string>, w: string) {
    |words| >= MAX_ARGS && forall i :: 0 <= i < MAX_ARGS ==> Kept(Cpp, words[i]) == w
  }

  /** One more word in front shows unless eight stored words already look like it. */
  lemma OneMoreWord(w: string, words: seq<string>)
    ensures KeptAll(Cpp, FirstArgs([w] + words)) == KeptAll(Cpp, FirstArgs(words)) <==> EightOf(words, Kept(Cpp, w))
  {
    hide Kept;
    var a, b := KeptAll(Cpp, FirstArgs([w] + words)), KeptAll(Cpp, FirstArgs(words));
    if |words| >= MAX_ARGS {
      assert a[0] == Kept(Cpp, w) && forall i :: 0 < i < MAX_ARGS ==> a[i] == b[i - 1];
      assert forall i :: 0 <= i < MAX_ARGS ==> b[i] == Kept(Cpp, words[i]);
      if a == b {
        EightSame(b, Kept(Cpp, w));
      }
    }
  }

  lemma EightSame(b: seq<string>, w: string)
    requires |b| == MAX_ARGS && b[0] == w && forall i :: 0 < i < MAX_ARGS ==> b[i] == b[i - 1]
    ensures forall i :: 0 <= i < MAX_ARGS ==> b[i] == w
  {
    for n := 0 to MAX_ARGS
      invariant forall i :: 0 <= i < n ==> b[i] == w
    {
      assert n > 0 ==> b[n] == b[n - 1];
    }
  }

  /** A word glued to the command is another word, since names end where it starts. */
  lemma GluedWord(c: string, x: string)
    requires c != "" && AllIn(Ident, c) && x != "" && !Is(Ident, x[0])
    ensures Kept(Cpp, c + x) != Kept(Cpp, x) && Kept(Cpp, c) != Kept(Cpp, x)
  {
    assert Is(Ident, c[0]) && Kept(Cpp, c + x)[0] == c[0] && Kept(Cpp, x)[0] == x[0] && Kept(Cpp, c)[0] == c[0];
  }

  lemma FirstArgs0(words: seq<string>, w: string)
    ensures words != [] && words[0] == w ==>
              KeptAll(Cpp, FirstArgs(words)) != [] && KeptAll(Cpp, FirstArgs(words))[0] == Kept(Cpp, w)
  {
  }

  /** Reading words from the first character or from after the command: when the arguments are the same. */
  lemma {:induction false} ShiftedExactly(c: string, rest: string)
    requires c != "" && AllIn(Ident, c) && (rest != "" ==> !Is(Ident, rest[0]))
    ensures KeptAll(Cpp, FirstArgs(Words(c + rest))) == KeptAll(Cpp, FirstArgs(Words(rest)))
       <==> EightOf(Words(rest), Kept(Cpp, c))
  {
    hide Words, Run, KeptAll, FirstArgs, Kept, Is;
    IdentIsWord(c);
    var n := Run(Word, rest);
    if n == 0 {
      WordAhead(c, rest);
      OneMoreWord(c, Words(rest));
    } else {
      var x, after := rest[..n], rest[n..];
      assert rest == x + after && c + rest == (c + x) + after && x[0] == rest[0];
      GluedIsWord(c, x);
      WordAhead(c + x, after);
      WordAhead(x, after);
      GluedWord(c, x);
      FirstArgs0(Words(c + rest), c + x);
      FirstArgs0(Words(rest), x);
    }
  }

  lemma GluedIsWord(c: string, x: string)
    requires AllIn(Word, c) && AllIn(Word, x)
    ensures AllIn(Word, c + x)
  {
    hide Is;
  }

  lemma DigitsAreLower(s: string)
    requires AllIn(Digit, s)
    ensures Lower(s) == s
  {
    forall i | 0 <= i < |s| ensures LowerChar(s[i]) == s[i] { assert Is(Digit, s[i]); }
  }

  /** Digits are a command only a word that is stored as the same digits can be. */
  lemma DigitCommand(spill: string, word: string)
    requires spill != "" && AllIn(Digit, spill) && word != ""
    ensures CommandOf(Cpp, spill) == CommandOf(Cpp, word) <==> Kept(Cpp, spill) == Kept(Cpp, word)
  {
    var s, k := Kept(Cpp, spill), Kept(Cpp, word);
    assert Is(Digit, spill[0]) && AllIn(Digit, s);
    DigitsAreLower(s);
    assert s[0] != "discover"[0] && s[0] != "discovery"[0];
    if Canonical(Lower(k)) == s {
      forall i | 0 <= i < |k| ensures k[i] == s[i] { assert Is(Digit, s[i]) && Lower(k)[i] == LowerChar(k[i]); }
    }
  }

  /** Without a blank after the digits, the commands start differently. */
  lemma SpillBeforeIdent(spill: string, more: string, word: string)
    requires spill != "" && AllIn(Digit, spill)
    requires word != "" && Is(Ident, word[0]) && !Is(Digit, word[0])
    ensures CommandOf(Cpp, spill + more) != Cut(CommandOf(Python, word), TOKEN_CHARS)
  {
    CommandFirst(Cpp, spill + more);
    CommandFirst(Python, word);
    assert Is(Digit, spill[0]);
  }

  lemma ReadCommandToken(d: Dialect, r: Request, s: string, word: string, rest: string)
    requires ReadToken(Ident, s) == Token(word, rest)
    ensures ReadCommand(d, r, s) == Parsed(Ok, r.(command := CommandOf(d, word), args := ReadArgs(d, rest)))
  {
  }

  lemma BoundedPython(r: Request, word: string, rest: string)
    ensures Bounded(Parsed(Ok, r.(command := CommandOf(Python, word), args := ReadArgs(Python, rest))))
         == Parsed(Ok, r.(target := Cut(r.target, TOKEN_CHARS), command := CommandOf(Cpp, word),
                          args := KeptAll(Cpp, FirstArgs(Words(rest)))))
  {
    var words := Words(rest);
    assert KeptAll(Python, words) == words;
    SameCommandText(word);
  }

  /** After the digits that did not fit: a blank, then the same digits as command and as eight arguments. */
  predicate Repeats(spill: string, tail: string) {
    && tail != "" && Is(Blank, tail[0])
    && match ReadToken(Ident, tail)
       case NoToken => false
       case Token(word, rest) => Kept(Cpp, word) == Kept(Cpp, spill) && EightOf(Words(rest), Kept(Cpp, word))
  }

  /** The spill is the whole C++ command and the arguments start one word early. */
  lemma {:induction false} SpillBeforeBlank(
      c: Request, r: Request, spill: string, b: string, word: string, rest: string)
    requires spill != "" && AllIn(Digit, spill) && b != "" && AllIn(Blank, b)
    requires word != "" && AllIn(Ident, word) && (rest != "" ==> !Is(Ident, rest[0]))
    requires c == r.(target := Cut(r.target, TOKEN_CHARS), id := c.id)
    ensures var tail := b + (word + rest);
            ReadCommand(Cpp, c, spill + tail) == Bounded(ReadCommand(Python, r, tail))
            <==> c.id == r.id && Repeats(spill, tail)
  {
    hide Run, ReadToken, CommandOf, Words, KeptAll, FirstArgs, Kept, EightOf, Bounded, ReadCommand;
    var tail := b + (word + rest);
    assert Is(Blank, tail[0]) by { assert tail[0] == b[0]; }
    DigitsThenBlank(spill, tail);
    TokenAhead(Ident, word, rest);
    TokenAfterBlank(Ident, b, word + rest);
    ReadCommandToken(Python, r, tail, word, rest);
    ReadCommandToken(Cpp, c, spill + tail, spill, tail);
    BoundedPython(r, word, rest);
    DigitCommand(spill, word);
    WordsAfterBlank(b, word + rest);
    ShiftedExactly(word, rest);
  }

  lemma DigitsThenBlank(spill: string, tail: string)
    requires spill != "" && AllIn(Digit, spill) && tail != "" && Is(Blank, tail[0])
    ensures ReadToken(Ident, spill + tail) == Token(spill, tail)
  {
    hide ReadToken, Run;
    forall i | 0 <= i < |spill| ensures Is(Ident, spill[i]) { assert Is(Digit, spill[i]); }
    TokenAhead(Ident, spill, tail);
  }

  /** More digits than idbuf holds: the same result exactly when the rest repeats them. */
  lemma {:induction false} SpilledExactly(c: Request, r: Request, spill: string, tail: string)
    requires spill != "" && AllIn(Digit, spill) && (tail != "" ==> !Is(Digit, tail[0]))
    requires c == r.(target := Cut(r.target, TOKEN_CHARS), id := c.id)
    ensures ReadCommand(Cpp, c, spill + tail) == Bounded(ReadCommand(Python, r, tail))
       <==> c.id == r.id && Repeats(spill, tail)
  {
    if ReadToken(Ident, tail).Token? {
      var b, word, rest := DivideToken(Ident, tail);
      if b != "" {
        SpillBeforeBlank(c, r, spill, b, word, rest);
      } else {
        SpillWithoutBlank(c, r, spill, tail, word, rest);
      }
    } else {
      SpillBecomesCommand(spill, tail);
    }
  }

  lemma SpillWithoutBlank(c: Request, r: Request, spill: string, tail: string, word: string, rest: string)
    requires spill != "" && AllIn(Digit, spill) && tail != "" && !Is(Digit, tail[0])
    requires ReadToken(Ident, tail) == Token(word, rest) && word != "" && AllIn(Ident, word) && word[0] == tail[0]
    ensures ReadCommand(Cpp, c, spill + tail) != Bounded(ReadCommand(Python, r, tail)) && !Repeats(spill, tail)
  {
    hide Run, ReadToken, CommandOf, Words, KeptAll, FirstArgs, Kept, EightOf;
    assert Is(Ident, word[0]);
    SpillBecomesCommand(spill, tail);
    var n := Run(Ident, tail);
    ReadCommandToken(Python, r, tail, word, rest);
    ReadCommandToken(Cpp, c, spill + tail, spill + tail[..n], tail[n..]);
    SpillBeforeIdent(spill, tail[..n], word);
  }

  lemma {:induction false} ValueFront(ds: string, n: nat)
    requires AllIn(Digit, ds) && n < |ds|
    ensures Value(ds) >= 10 * Value(ds[..n])
  {
    var front := ds[..|ds| - 1];
    if n < |front| {
      ValueFront(front, n);
      assert front[..n] == ds[..n];
    }
  }

  /** The first fifteen of more digits give the whole number only if all of them are zero. */
  lemma LongIdsEqual(ds: string)
    requires AllIn(Digit, ds) && |ds| > MAX_ID_DIGITS
    ensures IdValue(Cpp, ds[..MAX_ID_DIGITS]) == Value(ds) <==> Value(ds) == 0
  {
    hide Value;
    ValueFront(ds, MAX_ID_DIGITS);
  }

  lemma {:induction false} LongIdExactly(c: Request, r: Request, rest: string)
    requires IsTargetText(r.kind, r.target) && c == r.(target := Cut(r.target, TOKEN_CHARS))
    requires |IdTextAt(Skip(Blank, rest))| > MAX_ID_DIGITS
    ensures var q := Skip(Blank, rest);
            AfterTarget(Cpp, c, rest) == Bounded(AfterTarget(Python, r, rest)) <==>
            Value(IdTextAt(q)) == 0 && Repeats(IdTextAt(q)[MAX_ID_DIGITS..], IdTailAt(q))
  {
    hide Run, Skip, Value, IdValue, ReadCommand, Bounded, Repeats, SplitGlued, ReadId;
    NoGluedId(Python, r);
    NoGluedId(Cpp, c);
    var q := Skip(Blank, rest);
    var ds, tail := IdTextAt(q), IdTailAt(q);
    LongIdStages(c, r, q);
    LongIdsEqual(ds);
    SpilledExactly(c.(hasId := true, id := IdValue(Cpp, ds[..MAX_ID_DIGITS])), r.(hasId := true, id := Value(ds)),
                   ds[MAX_ID_DIGITS..], tail);
  }

  /** Fifteen digits are read, the rest stay in front of the command. */
  lemma LongIdStages(c: Request, r: Request, q: string)
    requires |IdTextAt(q)| > MAX_ID_DIGITS
    ensures var ds, tail := IdTextAt(q), IdTailAt(q);
            && ReadId(Cpp, c, q)
               == IdRead(c.(hasId := true, id := IdValue(Cpp, ds[..MAX_ID_DIGITS])), ds[MAX_ID_DIGITS..] + tail)
            && ReadId(Python, r, q) == IdRead(r.(hasId := true, id := Value(ds)), tail)
            && (tail != "" ==> !Is(Digit, tail[0]))
  {
    var ds, tail := DivideId(q);
    hide *;
    ReadIdAhead(Cpp, c, ds, tail);
    ReadIdAhead(Python, r, ds, tail);
    PythonReadsAll(ds, tail);
  }

  lemma PythonReadsAll(ds: string, tail: string)
    requires AllIn(Digit, ds)
    ensures ds[..|ds|] == ds && ds[|ds|..] + tail == tail && IdValue(Python, ds[..|ds|]) == Value(ds)
  {
  }

  /**
   Digits that do not fit and yet do not show: all of them zero, a blank after
   them, and then the digits past the fifteenth again as the command and as the
   first eight arguments, as far as 71 characters tell.
   */
  predicate HiddenByTheBounds(s: string) {
    var ds := IdText(s);
    |ds| > MAX_ID_DIGITS && Value(ds) == 0 && Repeats(ds[MAX_ID_DIGITS..], IdTail(s))
  }

  /**
   The exact agreement, on every line: the bounded parser returns the unbounded
   result cut to size if and only if the group prefix is not in mixed case and the
   id digits fit the buffer and 32 bits, or are hidden by the bounds.
   */
  lemma AgreeExactly(s: string)
    ensures Parse(Cpp, s) == Bounded(Parse(Python, s)) <==>
            !MixedGroup(s) && (IdFits(IdText(s)) || HiddenByTheBounds(s))
  {
    if MixedGroup(s) {
      MixedGroupDiffers(s);
    } else if IdFits(IdText(s)) {
      BoundedRefinesUnbounded(s);
    } else {
      hide Run, Skip, Value, AfterTarget, Bounded, Repeats;
      var c, r, rest := SameStages(s);
      if |IdText(s)| > MAX_ID_DIGITS {
        LongIdExactly(c, r, rest);
      } else {
        WideIdDiffers(r, c, rest);
        assert Bounded(AfterTarget(Python, r, rest)).request.id == AfterTarget(Python, r, rest).request.id by {
          BoundedKeepsId(AfterTarget(Python, r, rest));
        }
      }
    }
  }

  lemma BoundedKeepsId(p: Parsed)
    ensures Bounded(p).request.id == p.request.id
  {
  }

  /** Where digits do not fit there is a target, and both parsers go on after it. */
  lemma SameStages(s: string) returns (c: Request, r: Request, rest: string)
    requires !MixedGroup(s) && !IdFits(IdText(s))
    ensures IsTargetText(r.kind, r.target) && c == r.(target := Cut(r.target, TOKEN_CHARS))
    ensures Parse(Python, s) == AfterTarget(Python, r, rest) && Parse(Cpp, s) == AfterTarget(Cpp, c, rest)
    ensures IdText(s) == IdTextAt(Skip(Blank, rest)) && IdTail(s) == IdTailAt(Skip(Blank, rest))
  {
    hide Run, AfterTarget, Cut, NameKind;
    var p := Start(s);
    SameTarget(p);
    var t := ReadTarget(Python, p);
    TargetText(Python, p);
    assert p != "" by { RunIs(Blank, "", 0); }
    r := NO_REQUEST.(kind := t.kind, target := t.text);
    c := r.(target := Cut(r.target, TOKEN_CHARS));
    rest := t.rest;
  }

  // ----- digits the bounds do hide ---------------------------------------------

  function Zeros(n: nat): (s: string)
    ensures |s| == n && AllIn(Digit, s)
  {
    if n == 0 then "" else Zeros(n - 1) + "0"
  }

  lemma {:induction false} ValueOfZeros(n: nat)
    ensures Value(Zeros(n)) == 0
  {
    if n > 0 {
      ValueOfZeros(n - 1);
      assert Zeros(n)[..n - 1] == Zeros(n - 1);
    }
  }

  function Copies(n: nat): string {
    if n == 0 then "" else " " + ("0" + Copies(n - 1))
  }

  function Same(n: nat): (r: seq<string>)
    ensures |r| == n && forall i :: 0 <= i < n ==> r[i] == "0"
  {
    if n == 0 then [] else ["0"] + Same(n - 1)
  }

  lemma CopiesStep(n: nat)
    ensures n > 0 ==> Copies(n) == " " + ("0" + Copies(n - 1)) && Same(n) == ["0"] + Same(n - 1)
    ensures Copies(n) != "" ==> Copies(n)[0] == ' '
    ensures Copies(0) == "" && Same(0) == [] && Words("") == []
  {
    RunIs(Blank, "", 0);
  }

  lemma ZeroIsWord()
    ensures AllIn(Word, "0") && AllIn(Ident, "0") && AllIn(Blank, " ")
    ensures !Is(Word, ' ') && !Is(Ident, ' ') && Is(Blank, ' ') && !Is(Digit, ' ')
  {
  }

  lemma {:induction false} WordsOfCopies(n: nat)
    ensures Words(Copies(n)) == Same(n)
  {
    hide *;
    CopiesStep(n);
    if n > 0 {
      CopiesStep(n - 1);
      WordsOfCopies(n - 1);
      ZeroIsWord();
      WordsAfterBlank(" ", "0" + Copies(n - 1));
      WordAhead("0", Copies(n - 1));
    }
  }

  lemma CopiesRepeat(n: nat)
    requires n > MAX_ARGS
    ensures Repeats("0", Copies(n))
  {
    hide Words, ReadToken, Run, Copies, Same, AllIn;
    CopiesStep(n);
    CopiesStep(n - 1);
    ZeroIsWord();
    TokenAfterBlank(Ident, " ", "0" + Copies(n - 1));
    TokenAhead(Ident, "0", Copies(n - 1));
    WordsOfCopies(n - 1);
    var words := Same(n - 1);
    forall i | 0 <= i < MAX_ARGS ensures Kept(Cpp, words[i]) == "0" { assert words[i] == "0"; }
  }

  function IdLine(ds: string, tail: string): string {
    "a" + ("#" + (ds + tail))
  }

  /** A line to node a with these id digits. */
  lemma IdLineParts(ds: string, tail: string)
    requires ds != "" && AllIn(Digit, ds) && (tail != "" ==> !Is(Digit, tail[0]))
    ensures var s := IdLine(ds, tail); !MixedGroup(s) && IdText(s) == ds && IdTail(s) == tail
  {
    hide Run, Skip, GroupAhead, ReadTarget, NameKind, Is, AllIn;
    var q, s := "#" + (ds + tail), IdLine(ds, tail);
    NoSkip(Blank, s);
    NoSkip(LineEnd, s);
    NoSkip(Blank, q);
    LetterA();
    NamedIsNoGroup(Python, "a", q);
    NameAhead(Python, "a", q);
    assert q[1..] == ds + tail;
    RunOver(Digit, ds, tail);
  }

  lemma NoSkip(k: CharClass, s: string)
    requires k == Blank || k == LineEnd
    requires s != "" && (s[0] == 'a' || s[0] == '#')
    ensures Skip(k, s) == s
  {
    RunIs(k, s, 0);
  }

  lemma LetterA()
    ensures AllIn(Ident, "a") && !Is(Ident, '#')
  {
  }

  /**
   Sixteen digits do not fit, yet `a#0000000000000000 0 0 ... 0` with eight or more
   arguments after the command makes the parsers agree: the bound of eight hides
   the argument that C++ counts twice.
   */
  lemma AgreeByAccident(n: nat)
    requires n > MAX_ARGS
    ensures var s := "a#" + (Zeros(16) + Copies(n));
            !IdFits(IdText(s)) && HiddenByTheBounds(s) && Parse(Cpp, s) == Bounded(Parse(Python, s))
  {
    hide Parse, Bounded, MixedGroup, IdText, IdTail, Repeats, Copies, Zeros, Value;
    var s := IdLine(Zeros(16), Copies(n));
    assert s == "a#" + (Zeros(16) + Copies(n));
    CopiesStep(n);
    ZeroIsWord();
    IdLineParts(Zeros(16), Copies(n));
    ValueOfZeros(16);
    SixteenthZero();
    CopiesRepeat(n);
    AgreeExactly(s);
  }

  lemma SixteenthZero()
    ensures Zeros(16)[15..] == "0"
  {
    var z := Zeros(16);
    assert z == Zeros(15) + "0";
    assert |Zeros(15)| == 15;
  }

  // ----- lines on which the parsers differ ---------------------------------------

  /** Any line to node a with more than fifteen id digits, not all of them zero. */
  lemma LongIdLineDiffers(ds: string, tail: string)
    requires AllIn(Digit, ds) && |ds| > MAX_ID_DIGITS && Value(ds) > 0 && (tail != "" ==> !Is(Digit, tail[0]))
    ensures var s := "a#" + (ds + tail); Parse(Cpp, s) != Bounded(Parse(Python, s))
  {
    hide Parse, Bounded, MixedGroup, IdText, IdTail, Repeats, Value;
    var s := IdLine(ds, tail);
    assert s == "a#" + (ds + tail);
    IdLineParts(ds, tail);
    AgreeExactly(s);
  }

  lemma SixteenDigitsDiffer()
    ensures var s := "a#1000000000000000 ping"; Parse(Cpp, s) != Bounded(Parse(Python, s))
  {
    hide Parse, Bounded;
    var ds := "1000000000000000";
    assert AllIn(Digit, ds);
    ValueFront(ds, 1);
    assert ds[..1] == "1" && Value("1") == 1;
    LongIdLineDiffers(ds, " ping");
    assert "a#" + (ds + " ping") == "a#1000000000000000 ping";
  }

  lemma MixedGroupLine()
    ensures var s := "Group:a ping"; Parse(Cpp, s).request.kind != Parse(Python, s).request.kind
  {
    hide Parse;
    var s := "Group:a ping";
    RunIs(Blank, s, 0);
    RunIs(LineEnd, s, 0);
    assert s[..6] == "Group:" && Lower("Group:") == "group:";
    assert "Group:"[0] != "group:"[0] && "Group:"[1] != "GROUP:"[1];
    MixedGroupDiffers(s);
  }
}
