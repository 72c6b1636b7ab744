/**
 What may surround a request on a chat channel without changing it: the sender
 prefix, blanks before, and (but for one family of lines) blanks after.
 */
module Framing {
  import opened Text
  import opened Wire

  /** The chat form of a line sent by name. */
  function Framed(name: string, line: string): string {
    name + ": " + line
  }

  /**
   Every chat text: without a colon it stays, and with one it is stripped up to the
   first colon and the blanks behind it exactly if there is a blank behind it.
   */
  lemma StripExactly(name: string, blanks: string, rest: string)
    requires ':' !in name && AllIn(Blank, blanks) && (rest != "" ==> !Is(Blank, rest[0]))
    ensures StripSender(name) == name
    ensures StripSender(name + (":" + (blanks + rest))) == if blanks != "" then rest else name + (":" + rest)
  {
    hide Run, Skip;
    var text, tail := name + (":" + (blanks + rest)), blanks + rest;
    forall j | 0 <= j < |name| ensures name[j] != ':' { assert name[j] in name; }
    IndexIs(name, ':', |name|);
    IndexIs(text, ':', |name|);
    assert text[|name| + 1..] == tail;
    if blanks == "" {
      assert tail == rest;
    } else {
      assert Is(Blank, blanks[0]) && text[|name| + 1] == blanks[0];
      SkipOver(Blank, blanks, rest);
      assert rest == "" || !Is(Blank, rest[0]);
      StopsHere(rest);
    }
  }

  lemma StopsHere(s: string)
    requires s != "" ==> !Is(Blank, s[0])
    ensures Skip(Blank, s) == s
  {
    RunIs(Blank, s, 0);
  }

  /** The stripper recovers the payload exactly when the sender name has no colon. */
  lemma StripFramed(name: string, line: string)
    ensures StripSender(Framed(name, line)) == Skip(Blank, line) <==> ':' !in name
  {
    hide Run;
    var text := Framed(name, line);
    var i := IndexOf(name, ':');
    if i == |name| {
      IndexIs(text, ':', |name|);
      assert text[|name| + 1..] == " " + line;
      SkipOver(Blank, " ", line);
    } else {
      assert name[i] in name;
      IndexIs(text, ':', i);
      var tail := text[i + 1..];
      assert tail[|name| - i - 1] == ':' && |tail| == |name| - i - 1 + 2 + |line|;
      assert Run(Blank, tail) <= |name| - i - 1;
    }
  }

  /** A colon-free sender name never changes what is parsed, whatever the line. */
  lemma SenderIsTransparent(d: Dialect, name: string, line: string)
    requires ':' !in name
    ensures Parse(d, StripSender(Framed(name, line))) == Parse(d, line)
  {
    hide Run, ParseTarget;
    StripFramed(name, line);
    var n := Run(Blank, line);
    assert line == line[..n] + line[n..];
    LeadingBlanks(d, line[..n], line[n..]);
  }

  // ----- blanks after a line -------------------------------------------------

  /** A run that stops inside a is not moved by what follows a. */
  lemma RunInside(k: CharClass, a: string, b: string)
    requires Skip(k, a) != ""
    ensures Run(k, a + b) == Run(k, a)
    ensures Skip(k, a + b) == Skip(k, a) + b
  {
    hide Run;
    RunIs(k, a + b, Run(k, a));
  }

  lemma NoSkipLeft(a: string, b: string)
    requires AllIn(Blank, b) && Skip(Blank, a) == ""
    ensures Skip(Blank, a + b) == ""
  {
    hide Run;
    var n := Run(Blank, a);
    forall i | 0 <= i < |a + b| ensures Is(Blank, (a + b)[i]) {
      if i >= |a| { assert Is(Blank, b[i - |a|]); }
    }
    RunIs(Blank, a + b, |a + b|);
  }

  lemma BlankIsNot(k: CharClass, b: string)
    requires AllIn(Blank, b) && k != Blank && k != Space && k != Visible
    ensures b != "" ==> !Is(k, b[0])
  {
    if b != "" { assert Is(Blank, b[0]); }
  }

  lemma TokenBeforeBlanks(k: CharClass, s: string, b: string)
    requires AllIn(Blank, b) && (k == Ident || k == Word)
    ensures ReadToken(k, s + b) == match ReadToken(k, s)
                                   case NoToken => NoToken
                                   case Token(w, rest) => Token(w, rest + b)
  {
    hide Run;
    var p := Skip(Blank, s);
    if p == "" {
      NoSkipLeft(s, b);
    } else {
      RunInside(Blank, s, b);
      BlankIsNot(k, b);
      RunFront(k, p, b);
      assert (p + b)[Run(k, p)..] == p[Run(k, p)..] + b;
    }
  }

  lemma {:induction false} WordsBeforeBlanks(s: string, b: string)
    requires AllIn(Blank, b)
    ensures Words(s + b) == Words(s)
    decreases |s|
  {
    hide Run, ReadToken;
    TokenBeforeBlanks(Word, s, b);
    match ReadToken(Word, s)
    case NoToken =>
    case Token(w, rest) => WordsBeforeBlanks(rest, b);
  }

  lemma GroupBeforeBlanks(d: Dialect, p: string, b: string)
    requires AllIn(Blank, b)
    ensures GroupAhead(d, p + b) <==> GroupAhead(d, p)
  {
    if |p| >= 6 {
      assert (p + b)[..6] == p[..6];
    } else if |p + b| >= 6 {
      var x, i := (p + b)[..6], |p|;
      assert Is(Blank, b[0]) && x[i] == b[0];
      assert !Is(Blank, "group:"[i]) && !Is(Blank, "GROUP:"[i]);
      assert Lower(x)[i] == x[i];
    }
  }

  lemma TargetBeforeBlanks(d: Dialect, p: string, b: string)
    requires AllIn(Blank, b) && p != ""
    ensures ReadTarget(d, p + b) == match ReadTarget(d, p)
                                    case NoTarget(k) => NoTarget(k)
                                    case Target(k, t, rest) => Target(k, t, rest + b)
  {
    hide Run, Kept, NameKind, ReadToken, GroupAhead;
    GroupBeforeBlanks(d, p, b);
    if p[0] == '@' {
      assert (p + b)[1..] == p[1..] + b;
      BlankIsNot(Hex, b);
      RunFront(Hex, p[1..], b);
      assert (p[1..] + b)[Run(Hex, p[1..])..] == p[1..][Run(Hex, p[1..])..] + b;
    } else if GroupAhead(d, p) {
      assert |p| >= 6 by { GroupIsSix(d, p); }
      assert (p + b)[6..] == p[6..] + b;
      TokenBeforeBlanks(Ident, p[6..], b);
    } else {
      TokenBeforeBlanks(Ident, p, b);
    }
  }

  lemma GroupIsSix(d: Dialect, p: string)
    requires GroupAhead(d, p)
    ensures |p| >= 6
  {
  }

  lemma CommandBeforeBlanks(d: Dialect, r: Request, s: string, b: string)
    requires AllIn(Blank, b)
    ensures ReadCommand(d, r, s + b) == ReadCommand(d, r, s)
  {
    hide Run, ReadToken, Words, CommandOf;
    TokenBeforeBlanks(Ident, s, b);
    match ReadToken(Ident, s)
    case NoToken =>
    case Token(_, rest) => WordsBeforeBlanks(rest, b);
  }

  lemma IdBeforeBlanks(d: Dialect, r: Request, q: string, b: string)
    requires AllIn(Blank, b) && q != ""
    ensures ReadId(d, r, q + b) == match ReadId(d, r, q)
                                   case BadId => BadId
                                   case IdRead(r', rest) => IdRead(r', rest + b)
  {
    BlankIsNot(Digit, b);
    IdFront(d, r, q, b);
  }

  lemma AfterTargetBeforeBlanks(d: Dialect, r: Request, rest: string, b: string)
    requires AllIn(Blank, b)
    ensures AfterTarget(d, r, rest + b) == AfterTarget(d, r, rest)
  {
    hide Run, Skip, ReadId, SplitGlued, ReadCommand;
    var q := Skip(Blank, rest);
    var r0 := SplitGlued(d, r);
    if q == "" {
      NoSkipLeft(rest, b);
    } else {
      RunInside(Blank, rest, b);
      IdBeforeBlanks(d, r0, q, b);
      match ReadId(d, r0, q)
      case BadId =>
      case IdRead(r', rest') => CommandBeforeBlanks(d, r', rest', b);
    }
  }

  lemma ParseTargetBeforeBlanks(d: Dialect, p: string, b: string)
    requires AllIn(Blank, b) && p != ""
    ensures ParseTarget(d, p + b) == ParseTarget(d, p)
  {
    hide AfterTarget, ReadTarget;
    TargetBeforeBlanks(d, p, b);
    match ReadTarget(d, p)
    case NoTarget(_) =>
    case Target(k, t, rest) => AfterTargetBeforeBlanks(d, NO_REQUEST.(kind := k, target := t), rest, b);
  }

  /** Blanks, then line ends, then nothing: read as empty, but not when blanks follow. */
  predicate OnlyLineEnds(s: string) {
    Skip(Blank, s) != "" && Skip(LineEnd, Skip(Blank, s)) == ""
  }

  /**
   Blanks after a line change its result exactly when the line is line ends only
   (Empty becomes MissingTarget); in particular an accepted line never changes.
   */
  lemma TrailingBlanks(d: Dialect, s: string, b: string)
    requires AllIn(Blank, b)
    ensures Parse(d, s + b) == Parse(d, s) <==> b == "" || !OnlyLineEnds(s)
  {
    hide Run, Skip, ParseTarget;
    if b == "" {
      assert s + b == s;
      return;
    }
    var t := Skip(Blank, s);
    if t == "" {
      NoSkipLeft(s, b);
      SkipNothing(LineEnd);
    } else {
      RunInside(Blank, s, b);
      BlankIsNot(LineEnd, b);
      RunFront(LineEnd, t, b);
      var u := Skip(LineEnd, t);
      if u == "" {
        SkipNothing(Blank);
        NoSkipLeft("", b);
        assert "" + b == b;
      } else if Skip(Blank, u) == "" {
        NoSkipLeft(u, b);
      } else {
        RunInside(Blank, u, b);
        ParseTargetBeforeBlanks(d, Skip(Blank, u), b);
      }
    }
  }

  lemma SkipNothing(k: CharClass)
    ensures Skip(k, "") == ""
  {
  }
}
