/**
 What a line has to look like to be read as a request, written out by its pieces:
 blanks, line ends, the marker of the target, the `#digits`, the command word and
 the argument words, with the bounds of the C++ buffers as numbers. `Wire.Parse`
 accepts exactly these lines, and this is what it makes of them.
 */
module Grammar {
  import opened Text
  import opened Wire
  import Outbound

  predicate Starts(k: CharClass, z: string) {
    z != "" && Is(k, z[0])
  }

  /** The character classes by their codes. */
  lemma ClassesByCode(c: char)
    ensures Is(Blank, c) <==> c as int == 9 || c as int == 32
    ensures Is(LineEnd, c) <==> c as int == 10 || c as int == 13
    ensures Is(Digit, c) <==> 48 <= c as int <= 57
    ensures Is(Hex, c) <==> 48 <= c as int <= 57 || 65 <= c as int <= 70 || 97 <= c as int <= 102
    ensures Is(Ident, c) <==> 48 <= c as int <= 57 || 65 <= c as int <= 90 || 97 <= c as int <= 122
                              || c as int == 45 || c as int == 95
    ensures Is(Word, c) <==> c as int !in {0, 9, 10, 13, 32}
    ensures Is(Name, c) <==> 48 <= c as int <= 57 || 65 <= c as int <= 90 || 97 <= c as int <= 122 || c as int == 95
    ensures Is(Space, c) <==> 9 <= c as int <= 13 || 28 <= c as int <= 32
    ensures Is(Visible, c) <==> !Is(Space, c)
    ensures LowerChar(c) as int == if 65 <= c as int <= 90 then c as int + 32 else c as int
  {
  }

  /** Numerals digit by digit, printed and read. */
  lemma NumeralsByCode(n: nat, k: nat, s: string)
    requires k < 10 && AllIn(Digit, s)
    ensures Decimal(k) == [(48 + k) as char]
    ensures n > 0 ==> Decimal(10 * n + k) == Decimal(n) + [(48 + k) as char]
    ensures Value("") == 0
    ensures AllIn(Digit, s + [(48 + k) as char]) && Value(s + [(48 + k) as char]) == 10 * Value(s) + k
  {
    var c := (48 + k) as char;
    assert (s + [c])[..|s|] == s;
    assert (10 * n + k) / 10 == n && (10 * n + k) % 10 == k;
  }

  /** Everything in front of the command. */
  datatype Front = Front(
    blanks: string, ends: string, more: string, marker: string, target: string, gap: string, digits: string)

  /** `#digits`, or nothing. */
  function IdMark(f: Front): string {
    if f.digits == "" then "" else "#" + f.digits
  }

  function FrontText(f: Front, z: string): string {
    f.blanks + (f.ends + (f.more + (f.marker + (f.target + (f.gap + (IdMark(f) + z))))))
  }

  /** `group:` in the spellings a language knows. */
  predicate IsGroupMark(d: Dialect, m: string) {
    |m| == 6 && match d case Cpp => m == "group:" || m == "GROUP:" case Python => Lower(m) == "group:"
  }

  /** The address kind a marker and a target give, and what the target is made of. */
  predicate IsAddress(d: Dialect, marker: string, target: string, kind: AddressKind) {
    target != "" &&
    match kind
    case Id => marker == "@" && AllIn(Hex, target)
    case Group =>
      |marker| >= 6 && IsGroupMark(d, marker[..6]) && AllIn(Blank, marker[6..]) && AllIn(Ident, target)
    case Everyone => marker == "" && Lower(target) == "all"
    case Self => marker == "" && Lower(target) == "self"
    case Named => marker == "" && AllIn(Ident, target) && Lower(target) != "all" && Lower(target) != "self"
  }

  /** The target ends where its characters end, and a name is not the start of a group marker. */
  predicate TargetEnds(d: Dialect, f: Front, kind: AddressKind, next: string) {
    && !Starts(if kind == Id then Hex else Ident, next)
    && (f.marker == "" ==> !(next != "" && IsGroupMark(d, f.target + [next[0]])))
  }

  /** The id a line carries: C++ has room for fifteen digits and 32 bits. */
  predicate IsIdOf(d: Dialect, r: Request, digits: string, z: string) {
    if digits == "" then !r.hasId && r.id == 0 && !Starts(Blank, z) && !(z != "" && z[0] == '#')
    else
      && r.hasId && AllIn(Digit, digits)
      && match d
         case Cpp => |digits| <= 15 && r.id == Value(digits) % 0x1_0000_0000 && (|digits| < 15 ==> !Starts(Digit, z))
         case Python => r.id == Value(digits) && !Starts(Digit, z)
  }

  /** The front of a line, with z behind it, gives the request r without command and arguments. */
  predicate IsFront(d: Dialect, f: Front, r: Request, z: string) {
    && AllIn(Blank, f.blanks) && AllIn(LineEnd, f.ends) && AllIn(Blank, f.more) && AllIn(Blank, f.gap)
    && IsAddress(d, f.marker, f.target, r.kind)
    && r.target == (if d.Cpp? then Cut(f.target, 71) else f.target)
    && TargetEnds(d, f, r.kind, f.gap + (IdMark(f) + z))
    && IsIdOf(d, r, f.digits, z)
    && r.command == "" && r.args == []
  }

  // ----- the front is read --------------------------------------------------------

  lemma SkipLead(f: Front, p: string)
    requires AllIn(Blank, f.blanks) && AllIn(LineEnd, f.ends) && AllIn(Blank, f.more)
    requires p != "" && !Is(Blank, p[0]) && !Is(LineEnd, p[0])
    ensures Start(f.blanks + (f.ends + (f.more + p))) == p
  {
    hide Run, Skip;
    var q := f.more + p;
    assert q != "";
    if f.ends == "" {
      assert f.ends + q == q;
      SkipOver(Blank, f.blanks, q);
      SkipOver(Blank, f.more, p);
      NoSkip(Blank, p);
      NoSkip(LineEnd, p);
    } else {
      assert Is(LineEnd, f.ends[0]);
      SkipOver(Blank, f.blanks, f.ends + q);
      NoSkip(Blank, f.ends + q);
      SkipOver(LineEnd, f.ends, q);
      if f.more == "" {
        assert q == p;
      } else {
        assert Is(Blank, f.more[0]);
        NoSkip(LineEnd, q);
        SkipOver(Blank, f.more, p);
      }
      NoSkip(Blank, p);
      NoSkip(LineEnd, p);
    }
  }

  lemma NoSkip(k: CharClass, s: string)
    requires s != "" ==> !Is(k, s[0])
    ensures Skip(k, s) == s
  {
    RunIs(k, s, 0);
  }

  lemma GroupIsRead(d: Dialect, marker: string, t: string, next: string)
    requires IsAddress(d, marker, t, Group) && !Starts(Ident, next)
    ensures ReadTarget(d, marker + (t + next)) == Target(Group, Kept(d, t), next)
  {
    hide Run, Kept, ReadToken, Lower;
    var p, b := marker + (t + next), marker[6..];
    assert p[..6] == marker[..6] && p[6..] == b + (t + next);
    assert p[0] == marker[..6][0] && p[0] != '@' by { MarkStarts(d, marker[..6]); }
    assert GroupAhead(d, p);
    TokenAfterBlank(Ident, b, t + next);
    TokenAhead(Ident, t, next);
  }

  lemma MarkStarts(d: Dialect, m: string)
    requires IsGroupMark(d, m)
    ensures (m[0] == 'g' || m[0] == 'G') && m[5] == ':'
    ensures forall i :: 0 <= i < 5 ==> Is(Ident, m[i])
  {
    if d.Python? {
      assert forall i :: 0 <= i < 6 ==> LowerChar(m[i]) == "group:"[i];
    }
  }

  lemma GroupIsMark(d: Dialect, p: string)
    ensures GroupAhead(d, p) <==> |p| >= 6 && IsGroupMark(d, p[..6])
  {
  }

  /** A group marker is five letters and a colon, so a name in front of one has five letters. */
  lemma MarkSplits(d: Dialect, t: string, next: string)
    requires t != "" && AllIn(Ident, t) && !Starts(Ident, next) && |t + next| >= 6
    ensures IsGroupMark(d, (t + next)[..6]) ==> |t| == 5 && next != "" && (t + next)[..6] == t + [next[0]]
  {
    hide Run, IsGroupMark;
    var p := t + next;
    if IsGroupMark(d, p[..6]) {
      MarkStarts(d, p[..6]);
      assert forall i :: 0 <= i < 6 ==> p[..6][i] == p[i];
      RunIs(Ident, p, 5);
      RunOver(Ident, t, next);
    }
  }

  lemma NameIsNoMark(d: Dialect, t: string, next: string)
    requires t != "" && AllIn(Ident, t) && !Starts(Ident, next)
    requires !(next != "" && IsGroupMark(d, t + [next[0]]))
    ensures !GroupAhead(d, t + next) && (t + next)[0] != '@'
  {
    hide IsGroupMark, GroupAhead;
    assert Is(Ident, t[0]);
    GroupIsMark(d, t + next);
    if |t + next| >= 6 {
      MarkSplits(d, t, next);
    }
  }

  lemma NameIsRead(d: Dialect, t: string, next: string)
    requires t != "" && AllIn(Ident, t) && !Starts(Ident, next)
    requires !(next != "" && IsGroupMark(d, t + [next[0]]))
    ensures ReadTarget(d, t + next) == Target(NameKind(t), Kept(d, t), next)
  {
    hide Run, Kept, ReadToken, NameKind, GroupAhead;
    NameIsNoMark(d, t, next);
    TokenAhead(Ident, t, next);
    KeptNameKind(d, t);
  }

  lemma LettersOf(t: string)
    requires Lower(t) == "all" || Lower(t) == "self"
    ensures AllIn(Ident, t)
  {
    forall i | 0 <= i < |t| ensures Is(Ident, t[i]) { assert Lower(t)[i] == LowerChar(t[i]); }
  }

  lemma TargetIsRead(d: Dialect, f: Front, kind: AddressKind, next: string)
    requires IsAddress(d, f.marker, f.target, kind) && TargetEnds(d, f, kind, next)
    ensures var p := f.marker + (f.target + next);
            && ReadTarget(d, p) == Target(kind, Kept(d, f.target), next)
            && p != "" && !Is(Blank, p[0]) && !Is(LineEnd, p[0])
  {
    hide Run, Kept, ReadTarget, Lower, IsGroupMark;
    match kind
    case Id =>
      assert "@" + (f.target + next) == "@" + f.target + next;
      IdAhead(d, f.target, next);
    case Group =>
      GroupIsRead(d, f.marker, f.target, next);
      MarkStarts(d, f.marker[..6]);
      assert f.marker[0] == f.marker[..6][0];
    case _ =>
      if Lower(f.target) == "all" || Lower(f.target) == "self" {
        LettersOf(f.target);
      }
      assert "" + (f.target + next) == f.target + next;
      NameIsRead(d, f.target, next);
      assert Is(Ident, f.target[0]);
  }

  /** Digits followed by anything C++ has no room for, or no digit. */
  lemma DigitsAreRead(d: Dialect, r0: Request, digits: string, z: string, r: Request)
    requires digits != "" && IsIdOf(d, r, digits, z) && r == r0.(hasId := true, id := r.id)
    ensures ReadId(d, r0, "#" + (digits + z)) == IdRead(r, z)
  {
    hide Run, Value;
    var q := "#" + (digits + z);
    assert q[1..] == digits + z;
    assert (digits + z)[..|digits|] == digits && (digits + z)[|digits|..] == z;
    if Starts(Digit, z) {
      var n := Run(Digit, digits + z);
      assert n >= |digits| by {
        assert n < |digits + z| ==> !Is(Digit, (digits + z)[n]);
        assert forall i :: 0 <= i < |digits| ==> (digits + z)[i] == digits[i];
      }
    } else {
      RunOver(Digit, digits, z);
    }
    if d.Cpp? {
      Value15(digits);
    }
  }

  /** A front is read, whatever command and arguments follow. */
  lemma FrontIsRead(d: Dialect, f: Front, r: Request, z: string)
    requires IsFront(d, f, r, z)
    ensures Parse(d, FrontText(f, z)) == ReadCommand(d, r, z)
  {
    hide Run, Skip, ReadTarget, ReadId, ReadCommand, SplitGlued, IsAddress, TargetEnds, IsIdOf;
    var next := f.gap + (IdMark(f) + z);
    var p := f.marker + (f.target + next);
    TargetIsRead(d, f, r.kind, next);
    SkipLead(f, p);
    StartedOrNot(d, FrontText(f, z));
    TargetText(d, p);
    var r0 := NO_REQUEST.(kind := r.kind, target := r.target);
    NoGluedId(d, r0);
    IdIsRead(d, f, r0, r, z);
  }

  lemma IdIsRead(d: Dialect, f: Front, r0: Request, r: Request, z: string)
    requires IsIdOf(d, r, f.digits, z) && AllIn(Blank, f.gap)
    requires r0 == NO_REQUEST.(kind := r.kind, target := r.target) && r.command == "" && r.args == []
    ensures ReadId(d, r0, Skip(Blank, f.gap + (IdMark(f) + z))) == IdRead(r, z)
  {
    hide Run, Skip, IdValue;
    SkipOver(Blank, f.gap, IdMark(f) + z);
    if f.digits == "" {
      assert "" + z == z;
      NoSkip(Blank, z);
    } else {
      var q := "#" + (f.digits + z);
      assert IdMark(f) + z == q;
      NoSkip(Blank, q);
      DigitsAreRead(d, r0, f.digits, z, r);
    }
  }

  // ----- and every line with a target and a good id has a front -------------------

  lemma SkipParts(k: CharClass, s: string) returns (a: string)
    ensures s == a + Skip(k, s) && AllIn(k, a) && !Starts(k, Skip(k, s))
  {
    hide Run;
    a := s[..Run(k, s)];
  }

  lemma TokenParts(k: CharClass, s: string) returns (b: string)
    requires ReadToken(k, s).Token?
    ensures s == b + (ReadToken(k, s).text + ReadToken(k, s).rest)
    ensures AllIn(Blank, b) && AllIn(k, ReadToken(k, s).text) && ReadToken(k, s).text != ""
    ensures !Starts(k, ReadToken(k, s).rest)
    ensures Skip(Blank, s) == s ==> b == ""
  {
    hide Run, Is;
    b := SkipParts(Blank, s);
    var p := Skip(Blank, s);
    hide Skip;
    var n := Run(k, p);
    assert p == p[..n] + p[n..];
  }

  /** The marker and the whole target, which C++ then cuts, and what follows. */
  predicate IsDivided(d: Dialect, p: string, marker: string, t: string) {
    var g := ReadTarget(d, p);
    && g.Target? && p == marker + (t + g.rest) && IsAddress(d, marker, t, g.kind) && g.text == Kept(d, t)
    && TargetEnds(d, Front("", "", "", marker, t, "", ""), g.kind, g.rest)
  }

  lemma IdParts(d: Dialect, p: string) returns (t: string)
    requires p != "" && p[0] == '@' && ReadTarget(d, p).Target?
    ensures IsDivided(d, p, "@", t)
  {
    hide Run, Kept;
    var h := p[1..];
    t := h[..Run(Hex, h)];
    assert h == t + h[Run(Hex, h)..] && p == "@" + h;
  }

  lemma GroupParts(d: Dialect, p: string) returns (marker: string, t: string)
    requires p != "" && p[0] != '@' && GroupAhead(d, p) && ReadTarget(d, p).Target?
    ensures IsDivided(d, p, marker, t)
  {
    hide Run, Skip, ReadToken, Kept, Lower, IsGroupMark, GroupAhead;
    GroupIsMark(d, p);
    var m, h := p[..6], p[6..];
    var b := TokenParts(Ident, h);
    t, marker := ReadToken(Ident, h).text, m + b;
    assert marker[..6] == m && marker[6..] == b && p == m + h;
    assert m + (b + (t + ReadToken(Ident, h).rest)) == marker + (t + ReadToken(Ident, h).rest);
  }

  lemma NameEnds(d: Dialect, t: string, rest: string)
    requires !GroupAhead(d, t + rest)
    ensures !(rest != "" && IsGroupMark(d, t + [rest[0]]))
  {
    hide IsGroupMark, GroupAhead;
    GroupIsMark(d, t + rest);
    if rest != "" {
      MarkLength(d, t + [rest[0]]);
      assert |t| == 5 ==> (t + rest)[..6] == t + [rest[0]];
    }
  }

  lemma NameAddress(d: Dialect, t: string)
    requires t != "" && AllIn(Ident, t)
    ensures IsAddress(d, "", t, NameKind(t)) && NameKind(t) != Id && NameKind(t) != Group
  {
    hide Lower;
  }

  lemma NameParts(d: Dialect, p: string) returns (t: string)
    requires p != "" && p[0] != '@' && !GroupAhead(d, p) && ReadTarget(d, p).Target? && Skip(Blank, p) == p
    ensures IsDivided(d, p, "", t)
  {
    hide Skip, ReadToken, Kept, GroupAhead, IsGroupMark, Is, AllIn, NameKind, IsAddress;
    var b := TokenParts(Ident, p);
    var rest := ReadToken(Ident, p).rest;
    t := ReadToken(Ident, p).text;
    assert b + (t + rest) == t + rest && "" + (t + rest) == t + rest;
    KeptNameKind(d, t);
    NameAddress(d, t);
    NameEnds(d, t, rest);
  }

  lemma MarkLength(d: Dialect, m: string)
    ensures IsGroupMark(d, m) ==> |m| == 6
  {
  }

  lemma TargetParts(d: Dialect, p: string) returns (marker: string, t: string)
    requires ReadTarget(d, p).Target? && Skip(Blank, p) == p && p != ""
    ensures IsDivided(d, p, marker, t)
  {
    hide Run, Skip, ReadTarget, IsDivided, GroupAhead;
    if p[0] == '@' {
      t := IdParts(d, p);
      marker := "@";
    } else if GroupAhead(d, p) {
      marker, t := GroupParts(d, p);
    } else {
      t := NameParts(d, p);
      marker := "";
    }
  }

  lemma HashParts(q: string, n: nat)
    requires q != "" && q[0] == '#' && n <= |q| - 1
    ensures q == "#" + q[1..][..n] + q[1..][n..]
  {
  }

  lemma DigitCount(d: Dialect, h: string)
    ensures var n := IdDigits(d, h);
            && (d.Cpp? ==> n <= 15) && (d.Python? || n < 15 ==> !Starts(Digit, h[n..]))
  {
    hide Run;
  }

  lemma ShortValue(digits: string)
    requires AllIn(Digit, digits) && |digits| <= 15
    ensures IdValue(Cpp, digits) == Value(digits) % 0x1_0000_0000
  {
    hide Value;
    Value15(digits);
  }

  /** The digits read, and that no more could be. */
  lemma DigitParts(d: Dialect, r0: Request, q: string) returns (digits: string)
    requires ReadId(d, r0, q).IdRead? && !r0.hasId && r0.id == 0 && !Starts(Blank, q)
    ensures var i := ReadId(d, r0, q);
            && q == (if digits == "" then "" else "#" + digits) + i.rest
            && IsIdOf(d, i.request, digits, i.rest) && i.request == r0.(hasId := i.request.hasId, id := i.request.id)
  {
    hide Run, Value, IdDigits, Is;
    digits := "";
    if q != "" && q[0] == '#' {
      var n := IdDigits(d, q[1..]);
      digits := q[1..][..n];
      HashParts(q, n);
      DigitCount(d, q[1..]);
      if d.Cpp? {
        ShortValue(digits);
      }
    } else {
      assert "" + q == q;
    }
  }

  /** Where parsing got as far as the command, the front is there to be seen. */
  lemma FrontOf(d: Dialect, s: string) returns (f: Front, r: Request, z: string)
    requires Parse(d, s).result == Ok || Parse(d, s).result == MissingCommand
    ensures IsFront(d, f, r, z) && s == FrontText(f, z) && Parse(d, s) == ReadCommand(d, r, z)
  {
    hide Run, Skip, ReadTarget, ReadId, ReadCommand, SplitGlued, IsAddress, IsIdOf, IsGroupMark;
    var blanks := SkipParts(Blank, s);
    var a := Skip(Blank, s);
    var ends := SkipParts(LineEnd, a);
    var b := Skip(LineEnd, a);
    var more := SkipParts(Blank, b);
    var p := Skip(Blank, b);
    NoSkip(Blank, p);
    NoSkip(Blank, "");
    StartedOrNot(d, s);
    var marker, t := TargetParts(d, p);
    var g := ReadTarget(d, p);
    TargetText(d, p);
    var r0 := NO_REQUEST.(kind := g.kind, target := g.text);
    NoGluedId(d, r0);
    var gap := SkipParts(Blank, g.rest);
    var q := Skip(Blank, g.rest);
    var digits := DigitParts(d, r0, q);
    var i := ReadId(d, r0, q);
    f, r, z := Front(blanks, ends, more, marker, t, gap, digits), i.request, i.rest;
  }

  lemma StartedOrNot(d: Dialect, s: string)
    ensures Start(s) == "" ==> Parse(d, s).result == Empty || Parse(d, s).result == MissingTarget
    ensures Start(s) != "" ==> Parse(d, s) == ParseTarget(d, Start(s))
  {
    hide Run, Skip, ParseTarget;
    NoSkip(Blank, "");
  }

  // ----- the command and the arguments ---------------------------------------------

  /** The command and the argument words, the blanks between them, and what ends the last one. */
  datatype Rest = Rest(
    gap: string, command: string, gaps: seq<string>, words: seq<string>, blanks: string, end: string)

  function WordsText(gaps: seq<string>, words: seq<string>, tail: string): string
    requires |gaps| == |words|
    decreases |words|
  {
    if words == [] then tail else gaps[0] + (words[0] + WordsText(gaps[1..], words[1..], tail))
  }

  function RestText(c: Rest): string
    requires |c.gaps| == |c.words|
  {
    c.gap + (c.command + WordsText(c.gaps, c.words, c.blanks + c.end))
  }

  /** Each word ends where its characters end. */
  predicate AreWords(gaps: seq<string>, words: seq<string>, tail: string)
    requires |gaps| == |words|
    decreases |words|
  {
    words == [] ||
    (&& AllIn(Blank, gaps[0]) && words[0] != "" && AllIn(Word, words[0])
     && !Starts(Word, WordsText(gaps[1..], words[1..], tail)) && AreWords(gaps[1..], words[1..], tail))
  }

  /** What is stored of a token. */
  function Stored(d: Dialect, t: string): string {
    if d.Cpp? && |t| > 71 then t[..71] else t
  }

  /** Behind the front r0 the rest c completes the request r. */
  predicate IsRest(d: Dialect, c: Rest, r0: Request, r: Request) {
    && |c.gaps| == |c.words| && AllIn(Blank, c.gap) && AllIn(Blank, c.blanks)
    && !Starts(Word, c.end) && !Starts(Blank, c.end)
    && c.command != "" && AllIn(Ident, c.command)
    && !Starts(Ident, WordsText(c.gaps, c.words, c.blanks + c.end))
    && AreWords(c.gaps, c.words, c.blanks + c.end)
    && r == r0.(command := r.command, args := r.args)
    && (var low := Lower(Stored(d, c.command)); r.command == if low == "discover" then "discovery" else low)
    && |r.args| == (if d.Cpp? && |c.words| > 8 then 8 else |c.words|)
    && forall i :: 0 <= i < |r.args| ==> r.args[i] == Stored(d, c.words[i])
  }

  lemma NoWordsLeft(blanks: string, end: string)
    requires AllIn(Blank, blanks) && !Starts(Word, end) && !Starts(Blank, end)
    ensures Words(blanks + end) == []
  {
    hide Run;
    WordsAfterBlank(blanks, end);
    NoSkip(Blank, end);
    RunIs(Word, end, 0);
  }

  lemma {:induction false} WordsAreRead(gaps: seq<string>, words: seq<string>, blanks: string, end: string)
    requires |gaps| == |words| && AllIn(Blank, blanks) && !Starts(Word, end) && !Starts(Blank, end)
    requires AreWords(gaps, words, blanks + end)
    ensures Words(WordsText(gaps, words, blanks + end)) == words
    decreases |words|
  {
    hide Words, AllIn, Is;
    if words == [] {
      NoWordsLeft(blanks, end);
    } else {
      var rest := WordsText(gaps[1..], words[1..], blanks + end);
      WordsAreRead(gaps[1..], words[1..], blanks, end);
      WordsAfterBlank(gaps[0], words[0] + rest);
      WordAhead(words[0], rest);
    }
  }

  /** The command and its arguments are read as written. */
  lemma RestIsRead(d: Dialect, c: Rest, r0: Request, r: Request)
    requires IsRest(d, c, r0, r)
    ensures ReadCommand(d, r0, RestText(c)) == Parsed(Ok, r)
  {
    hide Run, ReadToken, Words, Lower, AreWords, WordsText, AllIn, Is;
    var tail := WordsText(c.gaps, c.words, c.blanks + c.end);
    TokenAfterBlank(Ident, c.gap, c.command + tail);
    TokenAhead(Ident, c.command, tail);
    WordsAreRead(c.gaps, c.words, c.blanks, c.end);
    assert ReadArgs(d, tail) == r.args;
  }

  lemma {:induction false} WordParts(s: string) returns (gaps: seq<string>, blanks: string, end: string)
    ensures var words := Words(s);
            && |gaps| == |words| && s == WordsText(gaps, words, blanks + end)
            && AllIn(Blank, blanks) && !Starts(Word, end) && !Starts(Blank, end) && AreWords(gaps, words, blanks + end)
    decreases |s|
  {
    hide Run, ReadToken, AllIn, Is;
    match ReadToken(Word, s)
    case NoToken =>
      blanks := SkipParts(Blank, s);
      gaps, end := [], Skip(Blank, s);
      NoTokenStops(s);
    case Token(w, rest) =>
      var b := TokenParts(Word, s);
      gaps, blanks, end := WordParts(rest);
      var words := Words(rest);
      assert ([b] + gaps)[1..] == gaps && ([w] + words)[1..] == words;
      gaps := [b] + gaps;
  }

  lemma NoTokenStops(s: string)
    requires ReadToken(Word, s).NoToken?
    ensures !Starts(Word, Skip(Blank, s))
  {
    hide Skip;
  }

  /** A command that is read has these parts. */
  lemma RestOf(d: Dialect, r0: Request, z: string) returns (c: Rest, r: Request)
    requires ReadCommand(d, r0, z).result == Ok
    ensures IsRest(d, c, r0, r) && z == RestText(c) && ReadCommand(d, r0, z) == Parsed(Ok, r)
  {
    hide Run, ReadToken, Words, Lower, AreWords, WordsText, AllIn, Is;
    var t := ReadToken(Ident, z);
    var gap := TokenParts(Ident, z);
    var gaps, blanks, end := WordParts(t.rest);
    c, r := Rest(gap, t.text, gaps, Words(t.rest), blanks, end), ReadCommand(d, r0, z).request;
  }

  // ----- the results ----------------------------------------------------------------

  /** A request line, piece by piece. */
  predicate IsLineOf(d: Dialect, s: string, r: Request, f: Front, c: Rest) {
    var r0 := r.(command := "", args := []);
    IsRest(d, c, r0, r) && IsFront(d, f, r0, RestText(c)) && s == FrontText(f, RestText(c))
  }

  ghost predicate IsRequestLine(d: Dialect, s: string, r: Request) {
    exists f, c :: IsLineOf(d, s, r, f, c)
  }

  /** The parsers accept exactly the request lines, with exactly this request. */
  lemma AcceptsExactly(d: Dialect, s: string, r: Request)
    ensures Parse(d, s) == Parsed(Ok, r) <==> IsRequestLine(d, s, r)
  {
    hide Parse, IsFront, IsRest, ReadCommand, FrontText, RestText;
    if Parse(d, s) == Parsed(Ok, r) {
      var f, r0, z := FrontOf(d, s);
      var c, r' := RestOf(d, r0, z);
      RestKeepsFront(d, c, r0, r', f);
      assert IsLineOf(d, s, r, f, c);
    }
    forall f, c | IsLineOf(d, s, r, f, c) ensures Parse(d, s) == Parsed(Ok, r) {
      var r0 := r.(command := "", args := []);
      AsManyGaps(d, c, r0, r);
      FrontIsRead(d, f, r0, RestText(c));
      RestIsRead(d, c, r0, r);
    }
  }

  lemma AsManyGaps(d: Dialect, c: Rest, r0: Request, r: Request)
    requires IsRest(d, c, r0, r)
    ensures |c.gaps| == |c.words|
  {
  }

  lemma RestKeepsFront(d: Dialect, c: Rest, r0: Request, r: Request, f: Front)
    requires IsRest(d, c, r0, r) && IsFront(d, f, r0, RestText(c))
    ensures r0 == r.(command := "", args := [])
  {
  }

  /** Blanks and then something that cannot start a command. */
  predicate HasNoCommand(z: string, b: string, x: string) {
    z == b + x && AllIn(Blank, b) && !Starts(Blank, x) && !Starts(Ident, x)
  }

  ghost predicate IsFrontOnly(d: Dialect, s: string, r: Request) {
    exists f, z, b, x :: IsFront(d, f, r, z) && s == FrontText(f, z) && HasNoCommand(z, b, x)
  }

  lemma NoCommandRead(d: Dialect, r: Request, b: string, x: string)
    requires HasNoCommand(b + x, b, x)
    ensures ReadCommand(d, r, b + x) == Parsed(MissingCommand, r)
  {
    TokenAfterBlank(Ident, b, x);
    NothingStarts(x);
    hide ReadToken, Is, AllIn;
  }

  lemma NothingStarts(x: string)
    requires !Starts(Blank, x) && !Starts(Ident, x)
    ensures ReadToken(Ident, x).NoToken?
  {
    hide Run, Skip, Is;
    NoSkip(Blank, x);
    RunIs(Ident, x, 0);
  }

  lemma NoCommandParts(d: Dialect, r: Request, z: string) returns (b: string, x: string)
    requires ReadCommand(d, r, z).result == MissingCommand
    ensures HasNoCommand(z, b, x) && ReadCommand(d, r, z).request == r
  {
    b := SkipParts(Blank, z);
    x := Skip(Blank, z);
    hide Skip;
  }

  /** Only the front, and no command behind it: the request has what the front gives. */
  lemma MissesCommandExactly(d: Dialect, s: string, r: Request)
    ensures Parse(d, s) == Parsed(MissingCommand, r) <==> IsFrontOnly(d, s, r)
  {
    hide Parse, IsFront, ReadCommand, FrontText, HasNoCommand;
    if Parse(d, s) == Parsed(MissingCommand, r) {
      var f, r0, z := FrontOf(d, s);
      var b, x := NoCommandParts(d, r0, z);
      assert IsFront(d, f, r, z) && s == FrontText(f, z) && HasNoCommand(z, b, x);
    }
    forall f, z, b, x | IsFront(d, f, r, z) && s == FrontText(f, z) && HasNoCommand(z, b, x)
      ensures Parse(d, s) == Parsed(MissingCommand, r)
    {
      FrontIsRead(d, f, r, z);
      assert z == b + x by { PartsOfNone(z, b, x); }
      NoCommandRead(d, r, b, x);
    }
  }

  lemma PartsOfNone(z: string, b: string, x: string)
    requires HasNoCommand(z, b, x)
    ensures z == b + x
  {
  }

  /** Blanks and then line ends only. */
  ghost predicate IsEmptyLine(s: string) {
    exists b, l :: s == b + l && AllIn(Blank, b) && AllIn(LineEnd, l)
  }

  /** The same with more blanks behind the line ends. */
  ghost predicate IsBlankLine(s: string) {
    exists b, l, m :: s == b + (l + m) && AllIn(Blank, b) && l != "" && AllIn(LineEnd, l) && m != "" && AllIn(Blank, m)
  }

  lemma {:induction false} LineEndsOnly(b: string, l: string, m: string)
    requires AllIn(Blank, b) && AllIn(LineEnd, l) && AllIn(Blank, m) && (l == "" ==> m == "")
    ensures Skip(LineEnd, Skip(Blank, b + (l + m))) == m && Skip(Blank, m) == ""
  {
    hide Run, Skip;
    SkipOver(Blank, b, l + m);
    if l != "" {
      assert Is(LineEnd, l[0]);
    } else {
      assert l + m == "";
    }
    NoSkip(Blank, l + m);
    SkipOver(LineEnd, l, m);
    if m != "" {
      assert Is(Blank, m[0]);
    }
    NoSkip(LineEnd, m);
    assert m + "" == m;
    SkipOver(Blank, m, "");
    NoSkip(Blank, "");
  }

  /** The two results for lines without any target. */
  lemma EmptyExactly(d: Dialect, s: string)
    ensures Parse(d, s).result == Empty <==> IsEmptyLine(s)
    ensures Parse(d, s).result == MissingTarget <==> IsBlankLine(s)
    ensures IsEmptyLine(s) || IsBlankLine(s) ==> Parse(d, s).request == Request(Named, "", false, 0, "", [])
  {
    hide Run, Skip, ParseTarget, AllIn;
    var b := SkipParts(Blank, s);
    var t := Skip(Blank, s);
    var l := SkipParts(LineEnd, t);
    var p := Skip(LineEnd, t);
    var m := SkipParts(Blank, p);
    TargetResult(d, Skip(Blank, p));
    assert p == "" ==> l + p == l;
    assert Skip(Blank, p) == "" ==> m + Skip(Blank, p) == m;
    if p != "" && Skip(Blank, p) == "" {
      BlankRest(s, t, l, p);
    }
    forall b', l' | s == b' + l' && AllIn(Blank, b') && AllIn(LineEnd, l') ensures p == "" {
      assert l' + "" == l';
      NothingIn(Blank);
      LineEndsOnly(b', l', "");
    }
    forall b', l', m' | s == b' + (l' + m') && AllIn(Blank, b') && l' != "" && AllIn(LineEnd, l')
                        && m' != "" && AllIn(Blank, m')
      ensures p == m' && Skip(Blank, p) == ""
    {
      LineEndsOnly(b', l', m');
    }
  }

  lemma NothingIn(k: CharClass)
    ensures AllIn(k, "")
  {
  }

  lemma BlankRest(s: string, t: string, l: string, p: string)
    requires t == Skip(Blank, s) && t == l + p && p != "" && Skip(Blank, p) == ""
    ensures l != ""
  {
    hide Run, Skip;
    var b := SkipParts(Blank, p);
    var b' := SkipParts(Blank, s);
    assert b + "" == b;
    assert Is(Blank, p[0]);
  }

  lemma TargetResult(d: Dialect, p: string)
    ensures ParseTarget(d, p).result != Empty && ParseTarget(d, p).result != MissingTarget
  {
    hide Run, ReadTarget, ReadId;
  }

  // ----- spellings of one request ---------------------------------------------------

  function Spaces(n: nat): (gaps: seq<string>)
    ensures |gaps| == n
  {
    seq(n, i => " ")
  }

  lemma {:induction false} TailAsWords(args: seq<string>)
    requires forall a :: a in args ==> a != "" && AllIn(Word, a)
    ensures WordsText(Spaces(|args|), args, "") == Outbound.ArgsTail(args)
    ensures AreWords(Spaces(|args|), args, "") && !Starts(Ident, Outbound.ArgsTail(args))
    ensures !Starts(Word, Outbound.ArgsTail(args))
  {
    if args != [] {
      var rest := args[1..];
      assert Spaces(|args|)[1..] == Spaces(|rest|) && args[0] in args && forall a :: a in rest ==> a in args;
      TailAsWords(rest);
    }
  }

  lemma SpelledRest(d: Dialect, r: Request, c: string)
    requires Outbound.WellFormed(d, r)
    requires Lower(c) == r.command || (r.command == "discovery" && Lower(c) == "discover")
    ensures var p := Rest(" ", c, Spaces(|r.args|), r.args, "", "");
            IsRest(d, p, r.(command := "", args := []), r) && RestText(p) == " " + (c + Outbound.ArgsTail(r.args))
  {
    hide Lower, IsTarget, AreWords, WordsText;
    TailAsWords(r.args);
    assert "" + "" == "";
    assert Lower("discovery") != "discover" && r.command != "discover";
    LoweredIsIdent(c, Lower(c));
    assert |c| == |Lower(c)|;
    assert forall i :: 0 <= i < |r.args| ==> r.args[i] in r.args;
  }

  lemma LoweredIsIdent(c: string, low: string)
    requires Lower(c) == low && (AllIn(Ident, low) || low == "discover")
    ensures AllIn(Ident, c)
  {
    forall i | 0 <= i < |c| ensures Is(Ident, c[i]) { assert low[i] == LowerChar(c[i]); }
  }

  function MarkerOf(kind: AddressKind): string {
    match kind case Id => "@" case Group => "group:" case _ => ""
  }

  lemma WireMarker(kind: AddressKind, t: string)
    requires IsTarget(kind, t)
    ensures WireTarget(kind, t) == MarkerOf(kind) + t
    ensures forall d: Dialect :: IsAddress(d, MarkerOf(kind), t, kind)
  {
    assert Lower("group:") == "group:";
    assert kind == Group ==> MarkerOf(kind)[..6] == "group:" && MarkerOf(kind)[6..] == "";
  }

  lemma TaggedFrontText(m: string, t: string, mark: string, z: string)
    ensures "" + ("" + ("" + (m + (t + ("" + (mark + z)))))) == m + t + (mark + z)
    ensures "" + ("" + ("" + (m + (t + (" " + ("" + z)))))) == m + t + ("" + (" " + z))
  {
  }

  /** The front of a printed request with an id. */
  lemma TaggedFront(d: Dialect, r: Request, z: string)
    requires Outbound.WellFormed(d, r) && r.hasId && z != "" && z[0] == ' '
    ensures var f := Front("", "", "", MarkerOf(r.kind), r.target, "", Decimal(r.id));
            && IsFront(d, f, r.(command := "", args := []), z)
            && FrontText(f, z) == WireTarget(r.kind, r.target) + (Outbound.IdText(true, r.id) + z)
  {
    hide Decimal, IsTarget, Lower, IsAddress, IsGroupMark, NameKind, WireTarget, MarkerOf, IsFront, Value;
    WireMarker(r.kind, r.target);
    TaggedFrontText(MarkerOf(r.kind), r.target, "#" + Decimal(r.id), z);
    TaggedIsFront(d, r, z);
  }

  lemma TaggedIsFront(d: Dialect, r: Request, z: string)
    requires Outbound.WellFormed(d, r) && r.hasId && z != "" && z[0] == ' '
    ensures var f := Front("", "", "", MarkerOf(r.kind), r.target, "", Decimal(r.id));
            IsFront(d, f, r.(command := "", args := []), z)
  {
    hide Decimal, IsTarget, Lower, IsAddress, IsGroupMark, NameKind, WireTarget, MarkerOf, FrontText;
    WireMarker(r.kind, r.target);
    ValueOfDecimal(r.id);
    if d.Cpp? {
      Decimal32(r.id);
    }
    NoMarkEnds(d, r.target, '#');
  }

  /** And of one without, its space counted to the front. */
  lemma PlainFront(d: Dialect, r: Request, z: string)
    requires Outbound.WellFormed(d, r) && !r.hasId && !Starts(Blank, z) && !(z != "" && z[0] == '#')
    ensures var f := Front("", "", "", MarkerOf(r.kind), r.target, " ", "");
            && IsFront(d, f, r.(command := "", args := []), z)
            && FrontText(f, z) == WireTarget(r.kind, r.target) + (Outbound.IdText(false, r.id) + (" " + z))
  {
    hide Decimal, IsTarget, Lower, IsAddress, IsGroupMark, NameKind, WireTarget, MarkerOf;
    WireMarker(r.kind, r.target);
    TaggedFrontText(MarkerOf(r.kind), r.target, "", z);
    NoMarkEnds(d, r.target, ' ');
  }

  lemma NoMarkEnds(d: Dialect, t: string, c: char)
    requires c != ':'
    ensures !IsGroupMark(d, t + [c])
  {
    if IsGroupMark(d, t + [c]) {
      MarkStarts(d, t + [c]);
    }
  }

  /**
   Letter case of the command does not matter, and `discover` is read as
   `discovery`: every spelling of a well-formed request gives it back.
   */
  lemma EverySpellingIsRead(d: Dialect, r: Request, c: string)
    requires Outbound.WellFormed(d, r)
    requires Lower(c) == r.command || (r.command == "discovery" && Lower(c) == "discover")
    ensures Parse(d, WireTarget(r.kind, r.target) +
                     (Outbound.IdText(r.hasId, r.id) + (" " + (c + Outbound.ArgsTail(r.args))))) == Parsed(Ok, r)
  {
    hide Parse, Lower, IsRest, IsFront, RestText, FrontText, Decimal, WireTarget;
    var p := Rest(" ", c, Spaces(|r.args|), r.args, "", "");
    var r0, z := r.(command := "", args := []), " " + (c + Outbound.ArgsTail(r.args));
    SpelledRest(d, r, c);
    if r.hasId {
      TaggedFront(d, r, z);
      var f := Front("", "", "", MarkerOf(r.kind), r.target, "", Decimal(r.id));
      assert IsLineOf(d, FrontText(f, z), r, f, p);
      AcceptsExactly(d, FrontText(f, z), r);
    } else {
      var f := Front("", "", "", MarkerOf(r.kind), r.target, " ", "");
      var q := p.(gap := "");
      GapMoves(d, p, q, r0, r, c);
      PlainFront(d, r, RestText(q));
      assert z == " " + RestText(q);
      assert IsLineOf(d, FrontText(f, RestText(q)), r, f, q);
      AcceptsExactly(d, FrontText(f, RestText(q)), r);
    }
  }

  lemma GapMoves(d: Dialect, p: Rest, q: Rest, r0: Request, r: Request, c: string)
    requires IsRest(d, p, r0, r) && p.gap == " " && q == p.(gap := "") && p.command == c
    ensures IsRest(d, q, r0, r) && RestText(q) == RestText(p)[1..]
    ensures RestText(q) != "" && !Starts(Blank, RestText(q)) && RestText(q)[0] != '#'
  {
    hide Lower, AreWords, WordsText;
    assert Is(Ident, c[0]);
    assert RestText(q)[0] == c[0];
  }

  /** The discovery request as people type it, in both languages. */
  lemma DiscoverIsDiscovery(d: Dialect)
    ensures Parse(d, "all discover") == Parsed(Ok, Request(Everyone, "all", false, 0, "discovery", []))
  {
    hide Parse;
    var r := Request(Everyone, "all", false, 0, "discovery", []);
    DiscoveryIsWellFormed(d, r);
    EverySpellingIsRead(d, r, "discover");
    assert "all" + ("" + (" " + ("discover" + ""))) == "all discover";
  }

  lemma DiscoveryIsWellFormed(d: Dialect, r: Request)
    requires r == Request(Everyone, "all", false, 0, "discovery", [])
    ensures Outbound.WellFormed(d, r) && Lower("discover") == "discover"
  {
    assert Lower("all") == "all" && Lower("discovery") == "discovery" && Lower("discover") == "discover";
    assert |"discovery"| == 9 != |"discover"|;
  }
}
