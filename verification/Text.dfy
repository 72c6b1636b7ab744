/**
 Text as both implementations see it: NUL-free sequences of characters, the
 character classes they test, runs of one class, ASCII lower case, and decimal
 numerals.
 */
module Text {
  const NUL: char := '\0'

  /**
   The character classes the scanners test. `Blank` is what is skipped between
   tokens, `Word` is what an argument is made of, `Name` what a procedure name is
   made of but for its dot, `Space` is the ASCII part of
   what Python's str.split() and str.strip() treat as whitespace, and `Visible`
   is its complement.
   */
  datatype CharClass = Blank | LineEnd | Ident | Hex | Digit | Word | Name | Space | Visible

  predicate Is(k: CharClass, c: char) {
    match k
    case Blank => c == ' ' || c == '\t'
    case LineEnd => c == '\r' || c == '\n'
    case Ident => 'a' <= c <= 'z' || 'A' <= c <= 'Z' || '0' <= c <= '9' || c == '_' || c == '-'
    case Hex => '0' <= c <= '9' || 'a' <= c <= 'f' || 'A' <= c <= 'F'
    case Digit => '0' <= c <= '9'
    case Name => 'a' <= c <= 'z' || 'A' <= c <= 'Z' || '0' <= c <= '9' || c == '_'
    case Word => c != NUL && c != ' ' && c != '\t' && c != '\r' && c != '\n'
    case Space => IsSpace(c)
    case Visible => !IsSpace(c)
  }

  predicate IsSpace(c: char) {
    9 as char <= c <= 13 as char || 28 as char <= c <= 32 as char
  }

  predicate AllIn(k: CharClass, s: string) {
    forall i :: 0 <= i < |s| ==> Is(k, s[i])
  }

  predicate NoNul(s: string) {
    forall i :: 0 <= i < |s| ==> s[i] != NUL
  }

  /** What `*p` reads when p is at offset i of the C string s. */
  function At(s: string, i: nat): char
    requires i <= |s|
  {
    if i < |s| then s[i] else NUL
  }

  /** Length of the longest prefix of s made of class k. */
  function Run(k: CharClass, s: string): (n: nat)
    ensures n <= |s|
    ensures forall i :: 0 <= i < n ==> Is(k, s[i])
    ensures n < |s| ==> !Is(k, s[n])
  {
    if s != "" && Is(k, s[0]) then 1 + Run(k, s[1..]) else 0
  }

  function Skip(k: CharClass, s: string): string {
    s[Run(k, s)..]
  }

  /** A run is pinned by its three properties. */
  lemma RunIs(k: CharClass, s: string, n: nat)
    requires n <= |s| && (forall i :: 0 <= i < n ==> Is(k, s[i]))
    requires n < |s| ==> !Is(k, s[n])
    ensures Run(k, s) == n
  {
    var r := Run(k, s);
    assert r < |s| ==> !Is(k, s[r]);
  }

  lemma SkipIs(k: CharClass, s: string, n: nat)
    requires n == Run(k, s)
    ensures Skip(k, s) == s[n..]
  {
  }

  lemma RunOver(k: CharClass, a: string, b: string)
    requires AllIn(k, a)
    requires b != "" ==> !Is(k, b[0])
    ensures Run(k, a + b) == |a|
    ensures (a + b)[..|a|] == a && (a + b)[|a|..] == b
    ensures Skip(k, a + b) == b
  {
    RunIs(k, a + b, |a|);
  }

  /** Text in front of a run does not matter once it is skipped. */
  lemma SkipOver(k: CharClass, a: string, s: string)
    requires AllIn(k, a)
    ensures Skip(k, a + s) == Skip(k, s)
  {
    hide Run, Is;
    var n := Run(k, s);
    RunIs(k, a + s, |a| + n);
    assert (a + s)[|a| + n..] == s[n..];
  }

  /** Appending text whose first character is outside k leaves a run alone. */
  lemma RunFront(k: CharClass, a: string, b: string)
    requires b != "" ==> !Is(k, b[0])
    ensures Run(k, a + b) == Run(k, a)
    ensures Skip(k, a + b) == Skip(k, a) + b
    ensures (a + b)[..Run(k, a)] == a[..Run(k, a)]
  {
    hide *;
    var n := Run(k, a);
    RunIs(k, a + b, n);
    SkipIs(k, a + b, n);
    SkipIs(k, a, n);
    assert (a + b)[n..] == a[n..] + b;
  }

  lemma SliceFront(a: string, b: string, n: nat)
    requires n <= |a|
    ensures (a + b)[..n] == a[..n] && (a + b)[n..] == a[n..] + b
  {
  }

  /** First position of c in s, or |s|. */
  function IndexOf(s: string, c: char): (i: nat)
    ensures i <= |s|
    ensures forall j :: 0 <= j < i ==> s[j] != c
    ensures i < |s| ==> s[i] == c
  {
    if s == "" || s[0] == c then 0 else 1 + IndexOf(s[1..], c)
  }

  lemma IndexIs(s: string, c: char, n: nat)
    requires n <= |s| && (forall j :: 0 <= j < n ==> s[j] != c)
    requires n < |s| ==> s[n] == c
    ensures IndexOf(s, c) == n
  {
    var i := IndexOf(s, c);
    assert n < |s| ==> s[n] == c;
  }

  /** The C string held at the start of a character buffer. */
  function CStr(data: string): (s: string)
    ensures |s| <= |data| && NoNul(s)
  {
    data[..IndexOf(data, NUL)]
  }

  lemma CStrOver(a: string, b: string)
    requires NoNul(a)
    ensures CStr(a + b) == a + CStr(b)
  {
    var n := IndexOf(b, NUL);
    IndexIs(a + b, NUL, |a| + n);
  }

  lemma CStrIs(data: string, n: nat)
    requires n < |data| && data[n] == NUL && NoNul(data[..n])
    ensures CStr(data) == data[..n]
  {
    forall j | 0 <= j < n ensures data[j] != NUL { assert data[j] == data[..n][j]; }
    IndexIs(data, NUL, n);
  }

  datatype Option<+T> = None | Some(value: T)

  /** A `const char*` argument: the null pointer or a NUL-terminated text. */
  datatype CString = Null | Str(text: string)

  function Pointers(texts: seq<string>): (r: seq<CString>)
    ensures |r| == |texts| && forall i :: 0 <= i < |texts| ==> r[i] == Str(texts[i])
  {
    seq(|texts|, i requires 0 <= i < |texts| => Str(texts[i]))
  }

  function Cut(s: string, n: nat): string {
    if |s| <= n then s else s[..n]
  }

  function LowerChar(c: char): char {
    if 'A' <= c <= 'Z' then c - 'A' + 'a' else c
  }

  function Lower(s: string): (r: string)
    ensures |r| == |s|
    ensures forall i :: 0 <= i < |s| ==> r[i] == LowerChar(s[i])
  {
    seq(|s|, i requires 0 <= i < |s| => LowerChar(s[i]))
  }

  lemma LowerTwice(s: string)
    ensures Lower(Lower(s)) == Lower(s)
  {
    assert Lower(Lower(s)) == Lower(s);
  }

  lemma LowerCut(s: string, n: nat)
    ensures Lower(Cut(s, n)) == Cut(Lower(s), n)
  {
    assert Lower(Cut(s, n)) == Cut(Lower(s), n);
  }

  function DigitValue(c: char): nat
    requires Is(Digit, c)
  {
    c as int - '0' as int
  }

  function DigitChar(n: nat): (c: char)
    requires n < 10
    ensures Is(Digit, c) && DigitValue(c) == n
  {
    '0' + n as char
  }

  /** The decimal numeral printed by %lu and by Python's str(int). */
  function Decimal(n: nat): (s: string)
    ensures s != "" && AllIn(Digit, s) && NoNul(s)
  {
    if n < 10 then [DigitChar(n)] else Decimal(n / 10) + [DigitChar(n % 10)]
  }

  /** The number a digit string denotes, however long. */
  function Value(s: string): nat
    requires AllIn(Digit, s)
  {
    if s == "" then 0 else Value(s[..|s| - 1]) * 10 + DigitValue(s[|s| - 1])
  }

  lemma {:induction false} ValueOfDecimal(n: nat)
    ensures Value(Decimal(n)) == n
  {
    if n >= 10 {
      var s := Decimal(n);
      assert s[..|s| - 1] == Decimal(n / 10);
      ValueOfDecimal(n / 10);
    }
  }

  function Pow10(k: nat): nat {
    if k == 0 then 1 else 10 * Pow10(k - 1)
  }

  lemma {:induction false} DecimalLength(n: nat, k: nat)
    requires k >= 1 && n < Pow10(k)
    ensures |Decimal(n)| <= k
  {
    if n >= 10 {
      DecimalLength(n / 10, k - 1);
    }
  }

  lemma {:induction false} ValueBound(s: string)
    requires AllIn(Digit, s)
    ensures Value(s) < Pow10(|s|)
  {
    if s != "" {
      ValueBound(s[..|s| - 1]);
    }
  }

  lemma {:induction false} Pow10Grows(a: nat, b: nat)
    requires a <= b
    ensures Pow10(a) <= Pow10(b)
  {
    if a < b {
      Pow10Grows(a, b - 1);
    }
  }

  /** A 32-bit number prints in at most ten digits. */
  lemma Decimal32(n: nat)
    requires n < 0x1_0000_0000
    ensures |Decimal(n)| <= 10
  {
    assert Pow10(10) == 10_000_000_000 by {
      assert Pow10(2) == 100;
      assert Pow10(4) == 10_000;
      assert Pow10(6) == 1_000_000;
      assert Pow10(8) == 100_000_000;
    }
    DecimalLength(n, 10);
  }

  /** Fifteen digits stay far below 2^64. */
  lemma Value15(s: string)
    requires AllIn(Digit, s) && |s| <= 15
    ensures Value(s) < 0x1_0000_0000_0000_0000
  {
    ValueBound(s);
    Pow10Grows(|s|, 15);
    assert Pow10(3) == 1000;
    assert Pow10(5) == 100_000;
    assert Pow10(7) == 10_000_000;
    assert Pow10(9) == 1_000_000_000;
    assert Pow10(11) == 100_000_000_000;
    assert Pow10(13) == 10_000_000_000_000;
    assert Pow10(15) == 1_000_000_000_000_000;
  }
}
