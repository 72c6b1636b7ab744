/**
 include/mcrpc/CanonicalCsv.h: lower-cased, de-duplicated, sorted and joined within
 a byte budget; and the Python reader of the result (python/mcrpc/discover.py).
 */
module Csv {
  import opened Text

  const MAX_TOKENS := 24
  const TOKEN_CHARS := 31

  // ----- the order of strcmp -------------------------------------------------------

  predicate Less(a: string, b: string) {
    b != "" && (a == "" || a[0] < b[0] || (a[0] == b[0] && Less(a[1..], b[1..])))
  }

  lemma LessIrreflexive(a: string)
    ensures !Less(a, a)
  {
  }

  lemma LessTransitive(a: string, b: string, c: string)
    requires Less(a, b) && Less(b, c)
    ensures Less(a, c)
  {
  }

  lemma LessTotal(a: string, b: string)
    ensures a == b || Less(a, b) || Less(b, a)
  {
    if a != "" && b != "" && a[0] == b[0] {
      LessTotal(a[1..], b[1..]);
      assert a == [a[0]] + a[1..] && b == [b[0]] + b[1..];
    }
  }

  ghost predicate Sorted(xs: seq<string>) {
    forall i, j :: 0 <= i < j < |xs| ==> Less(xs[i], xs[j])
  }

  function Elements(xs: seq<string>): set<string> {
    set x | x in xs
  }

  lemma NoElements(xs: seq<string>)
    ensures Elements(xs) == {} <==> xs == []
  {
    if xs != [] {
      assert xs[0] in Elements(xs);
    }
  }

  /** A strictly sorted list is the only one with its elements. */
  lemma {:induction false} SortedIsUnique(a: seq<string>, b: seq<string>)
    requires Sorted(a) && Sorted(b) && Elements(a) == Elements(b)
    ensures a == b
  {
    if a == [] {
      NoElements(b);
    } else {
      assert a[0] in Elements(a) && a[0] in b;
      assert b[0] in Elements(b) && b[0] in a;
      SameLeast(a, b);
      SortedTail(a);
      SortedTail(b);
      SortedIsUnique(a[1..], b[1..]);
    }
  }

  lemma SameLeast(a: seq<string>, b: seq<string>)
    requires Sorted(a) && Sorted(b) && a != [] && b != [] && a[0] in b && b[0] in a
    ensures a[0] == b[0]
  {
    hide Less;
    if a[0] != b[0] {
      assert Less(b[0], a[0]) && Less(a[0], b[0]);
      LessTransitive(a[0], b[0], a[0]);
      LessIrreflexive(a[0]);
    }
  }

  lemma SortedTail(a: seq<string>)
    requires Sorted(a) && a != []
    ensures Sorted(a[1..]) && Elements(a[1..]) == Elements(a) - {a[0]}
  {
    hide Less;
    forall x | x in a[1..] ensures x != a[0] {
      LessIrreflexive(a[0]);
    }
    assert a == [a[0]] + a[1..];
  }

  function Insert(xs: seq<string>, x: string): seq<string> {
    if xs == [] then [x]
    else if xs[0] == x then xs
    else if Less(x, xs[0]) then [x] + xs
    else [xs[0]] + Insert(xs[1..], x)
  }

  lemma ConsSorted(x: string, xs: seq<string>)
    requires Sorted(xs) && forall y :: y in xs ==> Less(x, y)
    ensures Sorted([x] + xs) && Elements([x] + xs) == {x} + Elements(xs)
  {
    hide Less;
  }

  lemma {:induction false} InsertSorted(xs: seq<string>, x: string)
    requires Sorted(xs)
    ensures Sorted(Insert(xs, x)) && Elements(Insert(xs, x)) == Elements(xs) + {x}
  {
    hide Less;
    if xs == [] || xs[0] == x {
      assert xs != [] ==> x in Elements(xs);
    } else if Less(x, xs[0]) {
      forall y | y in xs ensures Less(x, y) {
        if y != xs[0] { LessTransitive(x, xs[0], y); }
      }
      ConsSorted(x, xs);
    } else {
      LessTotal(x, xs[0]);
      SortedTail(xs);
      InsertSorted(xs[1..], x);
      var rest := Insert(xs[1..], x);
      forall y | y in rest ensures Less(xs[0], y) {
        assert y in Elements(rest);
        assert y == x || y in xs[1..];
      }
      ConsSorted(xs[0], rest);
    }
  }

  /** Between its smaller and its greater neighbours is where an element goes. */
  lemma {:induction false} InsertAt(xs: seq<string>, x: string, j: nat)
    requires j <= |xs|
    requires forall i :: 0 <= i < j ==> Less(xs[i], x)
    requires forall i :: j <= i < |xs| ==> Less(x, xs[i])
    ensures Insert(xs, x) == xs[..j] + [x] + xs[j..]
  {
    hide Less;
    LessIrreflexive(x);
    if j > 0 {
      if Less(x, xs[0]) {
        LessTransitive(x, xs[0], x);
      }
      InsertAt(xs[1..], x, j - 1);
      assert xs[..j] == [xs[0]] + xs[1..][..j - 1];
    }
  }

  /** sorted(set(xs)). */
  function SortDistinct(xs: seq<string>): seq<string> {
    if xs == [] then [] else Insert(SortDistinct(xs[..|xs| - 1]), xs[|xs| - 1])
  }

  lemma {:induction false} SortDistinctSorts(xs: seq<string>)
    ensures Sorted(SortDistinct(xs)) && Elements(SortDistinct(xs)) == Elements(xs)
  {
    if xs != [] {
      hide Less;
      var front, last := xs[..|xs| - 1], xs[|xs| - 1];
      SortDistinctSorts(front);
      InsertSorted(SortDistinct(front), last);
      assert xs == front + [last];
    }
  }

  lemma SortOfSorted(xs: seq<string>)
    requires Sorted(xs)
    ensures SortDistinct(xs) == xs
  {
    SortDistinctSorts(xs);
    SortedIsUnique(SortDistinct(xs), xs);
  }

  // ----- collecting ----------------------------------------------------------------

  /** A token as the table stores it. */
  function Normal(t: string): (r: string)
    ensures |r| <= TOKEN_CHARS
  {
    Lower(Cut(t, TOKEN_CHARS))
  }

  predicate Counts(t: CString) {
    t.Str? && t.text != ""
  }

  /** The table after the tokens: the first 24 distinct ones in order of arrival. */
  function Collect(tokens: seq<CString>): seq<string> {
    if tokens == [] then []
    else
      var acc, t := Collect(tokens[..|tokens| - 1]), tokens[|tokens| - 1];
      if |acc| >= MAX_TOKENS || !Counts(t) || Normal(t.text) in acc then acc else acc + [Normal(t.text)]
  }

  /** Every distinct token asked for. */
  function Wanted(tokens: seq<CString>): set<string> {
    set t | t in tokens && Counts(t) :: Normal(t.text)
  }

  ghost predicate NoDup(xs: seq<string>) {
    forall i, j :: 0 <= i < j < |xs| ==> xs[i] != xs[j]
  }

  lemma WantedSnoc(tokens: seq<CString>)
    requires tokens != []
    ensures var t := tokens[|tokens| - 1];
            Wanted(tokens) == Wanted(tokens[..|tokens| - 1]) + if Counts(t) then {Normal(t.text)} else {}
  {
    hide Normal;
    assert tokens == tokens[..|tokens| - 1] + [tokens[|tokens| - 1]];
  }

  lemma {:induction false} CollectFacts(tokens: seq<CString>)
    ensures var c := Collect(tokens);
            && NoDup(c) && |c| <= MAX_TOKENS && Elements(c) <= Wanted(tokens)
            && (|c| < MAX_TOKENS ==> Elements(c) == Wanted(tokens))
            && forall x :: x in c ==> x != "" && Lower(x) == x && |x| <= TOKEN_CHARS
  {
    if tokens != [] {
      CollectFacts(tokens[..|tokens| - 1]);
      WantedSnoc(tokens);
      var t := tokens[|tokens| - 1];
      if Counts(t) {
        LowerTwice(Cut(t.text, TOKEN_CHARS));
      }
      hide Normal, Counts, Lower;
    }
  }

  lemma {:induction false} NoDupSize(xs: seq<string>)
    requires NoDup(xs)
    ensures |Elements(xs)| == |xs|
  {
    if xs != [] {
      var front, last := xs[..|xs| - 1], xs[|xs| - 1];
      NoDupSize(front);
      assert xs == front + [last];
      assert last !in front;
      assert Elements(xs) == Elements(front) + {last};
    } else {
      assert Elements(xs) == {};
    }
  }

  lemma SubsetOfSameSize(a: set<string>, b: set<string>)
    requires a <= b && |a| >= |b|
    ensures a == b
  {
    assert |b - a| == |b| - |a|;
  }

  /** The table holds every token asked for exactly when there are at most 24 distinct ones. */
  lemma NothingDroppedExactly(tokens: seq<CString>)
    ensures Elements(Collect(tokens)) == Wanted(tokens) <==> |Wanted(tokens)| <= 24
  {
    hide Collect, Wanted, Elements;
    CollectFacts(tokens);
    NoDupSize(Collect(tokens));
    if |Wanted(tokens)| <= MAX_TOKENS && |Collect(tokens)| == MAX_TOKENS {
      SubsetOfSameSize(Elements(Collect(tokens)), Wanted(tokens));
    }
  }

  lemma {:induction false} CollectFull(tokens: seq<CString>, i: nat)
    requires i <= |tokens| && |Collect(tokens[..i])| >= MAX_TOKENS
    ensures Collect(tokens) == Collect(tokens[..i])
    decreases |tokens| - i
  {
    if i < |tokens| {
      assert tokens[..i + 1][..i] == tokens[..i];
      CollectFull(tokens, i + 1);
    } else {
      assert tokens[..i] == tokens;
    }
  }

  // ----- joining -------------------------------------------------------------------

  function Join(xs: seq<string>): string {
    if xs == [] then "" else if |xs| == 1 then xs[0] else xs[0] + "," + Join(xs[1..])
  }

  lemma {:induction false} JoinSnoc(xs: seq<string>, x: string)
    ensures Join(xs + [x]) == if xs == [] then x else Join(xs) + "," + x
  {
    if |xs| == 1 {
      assert (xs + [x])[1..] == [x];
    } else if |xs| > 1 {
      assert (xs + [x])[1..] == xs[1..] + [x];
      JoinSnoc(xs[1..], x);
    }
  }

  lemma {:induction false} JoinGrows(xs: seq<string>, i: nat)
    requires i <= |xs|
    ensures |Join(xs[..i])| <= |Join(xs)|
    decreases |xs| - i
  {
    if i == |xs| {
      assert xs[..i] == xs;
    } else {
      assert xs[..i + 1] == xs[..i] + [xs[i]];
      JoinSnoc(xs[..i], xs[i]);
      JoinGrows(xs, i + 1);
    }
  }

  function CsvTokens(tokens: seq<CString>): seq<string> {
    SortDistinct(Collect(tokens))
  }

  /** What a successful call leaves in the output buffer. */
  function CsvText(tokens: seq<CString>): string {
    Join(CsvTokens(tokens))
  }

  // ----- the algorithm ---------------------------------------------------------------

  method CollectInto(tokens: seq<CString>, table: array<string>) returns (count: nat)
    requires table.Length == MAX_TOKENS
    modifies table
    ensures count <= MAX_TOKENS && table[..count] == Collect(tokens)
  {
    hide Normal;
    count := 0;
    var i := 0;
    assert tokens[..0] == [];
    while i < |tokens| && count < MAX_TOKENS
      invariant i <= |tokens| && count <= MAX_TOKENS
      invariant table[..count] == Collect(tokens[..i])
    {
      assert tokens[..i + 1][..i] == tokens[..i] && tokens[..i + 1][i] == tokens[i];
      if Counts(tokens[i]) {
        var tmp := Normal(tokens[i].text);
        var dup := false;
        for j := 0 to count
          invariant dup <==> tmp in table[..j]
        {
          if table[j] == tmp {
            dup := true;
          }
        }
        if !dup {
          table[count] := tmp;
          count := count + 1;
        }
      }
      i := i + 1;
    }
    if i < |tokens| {
      CollectFull(tokens, i);
    } else {
      assert tokens[..i] == tokens;
    }
  }

  /** The insertion sort, in place on the used part of the table. */
  method SortTable(table: array<string>, count: nat)
    requires count <= table.Length && NoDup(table[..count])
    modifies table
    ensures table[..count] == SortDistinct(old(table[..count]))
    ensures table[count..] == old(table[count..])
  {
    hide Less, Insert, Elements, SortDistinct;
    ghost var was := table[..];
    if count == 0 {
      SortNone();
      return;
    }
    assert table[..1] == SortDistinct(was[..1]) by { SortOne(was[0]); assert was[..1] == [was[0]]; }
    for i := 1 to count
      invariant 1 <= i <= count
      invariant table[..i] == SortDistinct(was[..i])
      invariant table[i..] == was[i..]
    {
      SortDistinctSorts(was[..i]);
      KeyIsNew(was, count, i);
      assert table[i] == table[i..][0] == was[i];
      SortStep(table, i);
      SortSnoc(was, i);
    }
  }

  /** One round: shift the greater part up and drop the key into the gap. */
  method SortStep(table: array<string>, i: nat)
    requires 1 <= i < table.Length && Sorted(table[..i])
    requires forall x :: x in table[..i] ==> x != table[i]
    modifies table
    ensures table[..i + 1] == Insert(old(table[..i]), old(table[i]))
    ensures table[i + 1..] == old(table[i + 1..])
  {
    hide Less, Insert;
    ghost var p, was := table[..i], table[..];
    var key, j := table[i], i;
    while j > 0 && Less(key, table[j - 1])
      invariant j <= i
      invariant forall k :: 0 <= k < j ==> table[k] == p[k]
      invariant forall k :: j <= k < i ==> table[k + 1] == p[k] && Less(key, p[k])
      invariant forall k :: i < k < table.Length ==> table[k] == was[k]
    {
      table[j] := table[j - 1];
      j := j - 1;
    }
    if j > 0 {
      assert p[j - 1] in p;
      LowerPart(p, key, j);
    }
    table[j] := key;
    InsertAt(p, key, j);
    ShiftedBy(table[..], p, key, j);
    assert table[..][..i + 1] == table[..i + 1];
  }

  lemma ShiftedBy(now: seq<string>, p: seq<string>, key: string, j: nat)
    requires j <= |p| < |now| && now[j] == key
    requires forall k :: 0 <= k < j ==> now[k] == p[k]
    requires forall k :: j <= k < |p| ==> now[k + 1] == p[k]
    ensures now[..|p| + 1] == p[..j] + [key] + p[j..]
  {
    var t := p[..j] + [key] + p[j..];
    forall k | 0 <= k < |t| ensures now[k] == t[k] {
      if k > j { assert now[k - 1 + 1] == p[k - 1]; }
    }
  }

  lemma SortNone()
    ensures SortDistinct([]) == []
  {
  }

  lemma SortSnoc(xs: seq<string>, i: nat)
    requires i < |xs|
    ensures SortDistinct(xs[..i + 1]) == Insert(SortDistinct(xs[..i]), xs[i])
  {
    assert xs[..i + 1][..i] == xs[..i];
  }

  lemma SortOne(x: string)
    ensures SortDistinct([x]) == [x]
  {
    assert [x][..0] == [];
  }

  lemma KeyIsNew(was: seq<string>, count: nat, i: nat)
    requires i < count <= |was| && NoDup(was[..count])
    ensures forall x :: x in SortDistinct(was[..i]) ==> x != was[i]
  {
    SortDistinctSorts(was[..i]);
    forall x | x in SortDistinct(was[..i]) ensures x != was[i] {
      assert x in Elements(SortDistinct(was[..i])) && x in was[..i];
      var k :| 0 <= k < i && was[..i][k] == x;
      assert was[..count][k] == x && was[..count][i] == was[i];
    }
  }

  lemma LowerPart(p: seq<string>, key: string, j: nat)
    requires Sorted(p) && 0 < j <= |p| && !Less(key, p[j - 1]) && p[j - 1] != key
    ensures forall k :: 0 <= k < j ==> Less(p[k], key)
  {
    hide Less;
    LessTotal(p[j - 1], key);
    forall k | 0 <= k < j ensures Less(p[k], key) {
      if k < j - 1 { LessTransitive(p[k], p[j - 1], key); }
    }
  }

  /** How many tokens the buffer takes: the longest front of the list whose join and terminator fit. */
  function Room(xs: seq<string>, size: nat): (n: nat)
    requires size > 0
    ensures n <= |xs| && |Join(xs[..n])| < size
    ensures n < |xs| ==> |Join(xs[..n + 1])| >= size
  {
    if |Join(xs)| < size then
      assert xs[..|xs|] == xs;
      |xs|
    else
      var front := xs[..|xs| - 1];
      var n := Room(front, size);
      assert front[..n] == xs[..n] && (n < |front| ==> front[..n + 1] == xs[..n + 1]) && xs[..|xs|] == xs;
      n
  }

  lemma RoomIs(xs: seq<string>, size: nat, n: nat)
    requires size > 0 && n <= |xs| && |Join(xs[..n])| < size
    requires n < |xs| ==> |Join(xs[..n + 1])| >= size
    ensures Room(xs, size) == n
  {
    hide Join;
    var r := Room(xs, size);
    if n < r {
      assert xs[..r][..n + 1] == xs[..n + 1];
      JoinGrows(xs[..r], n + 1);
    }
    if r < n {
      assert xs[..n][..r + 1] == xs[..r + 1];
      JoinGrows(xs[..n], r + 1);
    }
  }

  /** A buffer with a text written over its front. */
  function Over(text: string, base: string): string
    requires |text| <= |base|
  {
    text + base[|text|..]
  }

  lemma OverStep(now: string, text: string, c: char, base: string)
    requires |text| < |base| && now == Over(text, base)
    ensures now[|text| := c] == Over(text + [c], base)
  {
  }

  /** memcpy behind the text that is already there. */
  method PutBehind(out: array<char>, len: nat, t: string, ghost text: string, ghost base: string)
    requires len == |text| && |text| + |t| <= |base| && out[..] == Over(text, base)
    modifies out
    ensures out[..] == Over(text + t, base)
  {
    hide Over;
    OverLength(text, base);
    assert text + t[..0] == text;
    for k := 0 to |t|
      invariant out[..] == Over(text + t[..k], base)
    {
      OverStep(out[..], text + t[..k], t[k], base);
      assert text + t[..k] + [t[k]] == text + t[..k + 1];
      out[len + k] := t[k];
    }
    assert t[..|t|] == t;
  }

  lemma OverLength(text: string, base: string)
    requires |text| <= |base|
    ensures |Over(text, base)| == |base|
  {
  }

  /** The buffer after a join: all of it and the terminator, or the tokens that fit and nothing else. */
  function Joined(xs: seq<string>, base: string): string
    requires base != ""
  {
    var n := Room(xs, |base|);
    Over(if n == |xs| then Join(xs) + [NUL] else Join(xs[..n]), base)
  }

  lemma JoinedReads(xs: seq<string>, base: string)
    requires base != "" && |Join(xs)| < |base| && NoNul(Join(xs))
    ensures NUL in Joined(xs, base) && CStr(Joined(xs, base)) == Join(xs)
  {
    hide Join, Room;
    var text, b := Join(xs), Joined(xs, base);
    assert xs[..|xs|] == xs;
    RoomIs(xs, |base|, |xs|);
    assert b[|text|] == NUL && b[..|text|] == text;
    CStrIs(b, |text|);
  }

  lemma {:induction false} JoinIsCText(xs: seq<string>)
    requires forall x :: x in xs ==> NoNul(x)
    ensures NoNul(Join(xs))
  {
    if xs != [] {
      assert xs[0] in xs && forall x :: x in xs[1..] ==> x in xs;
      JoinIsCText(xs[1..]);
      hide Join;
      JoinFirst(xs);
      var a, b := xs[0], Join(xs[1..]);
      assert NoNul(a + "," + b);
    }
  }

  lemma JoinFirst(xs: seq<string>)
    requires xs != []
    ensures Join(xs) == if |xs| == 1 then xs[0] else xs[0] + "," + Join(xs[1..])
  {
  }

  /** The join so far with one more token, and whether the bounds check lets it in. */
  lemma JoinNext(xs: seq<string>, i: nat)
    requires i < |xs|
    ensures Join(xs[..i + 1]) == if i == 0 then xs[0] else Join(xs[..i]) + "," + xs[i]
  {
    hide Join;
    assert xs[..i + 1] == xs[..i] + [xs[i]];
    JoinSnoc(xs[..i], xs[i]);
  }

  /** The bounded join: stops at the first token that would not leave room for the NUL. */
  method JoinInto(table: array<string>, count: nat, out: array<char>) returns (ok: bool)
    requires count <= table.Length && out.Length > 0
    modifies out
    ensures ok <==> |Join(old(table[..count]))| < out.Length
    ensures out[..] == Joined(old(table[..count]), old(out[..]))
  {
    hide Join, Room, Over;
    ghost var xs, base := table[..count], out[..];
    var len: nat := 0;
    JoinNone(xs, base);
    for i := 0 to count
      invariant len == |Join(xs[..i])| < out.Length && out[..] == Over(Join(xs[..i]), base)
      invariant table[..count] == xs
    {
      JoinNext(xs, i);
      var t := table[i];
      var need := |t| + if i > 0 then 1 else 0;
      if len + need + 1 > out.Length {
        RoomIs(xs, |base|, i);
        JoinGrows(xs, i + 1);
        return false;
      }
      ghost var text := Join(xs[..i]);
      if i > 0 {
        PutBehind(out, len, ",", text, base);
        len, text := len + 1, text + ",";
      }
      PutBehind(out, len, t, text, base);
      assert t == xs[i] && text + t == Join(xs[..i + 1]) by { assert i == 0 ==> text + t == t; }
      len := len + |t|;
    }
    assert xs[..count] == xs;
    RoomIs(xs, |base|, count);
    PutBehind(out, len, [NUL], Join(xs), base);
    ok := true;
  }

  lemma JoinNone(xs: seq<string>, base: string)
    ensures Join(xs[..0]) == "" && Over("", base) == base
  {
    assert "" + base == base;
  }

  /** What a call leaves in a buffer, from the tokens it lists. */
  function Listed(tokens: Option<seq<CString>>): seq<string> {
    if tokens.Some? then CsvTokens(tokens.value) else []
  }

  /** None is the null token list; a null output buffer is the null array. */
  method CanonicalizeCsv(tokens: Option<seq<CString>>, out: array?<char>) returns (ok: bool)
    requires tokens.Some? ==> forall t :: t in tokens.value && t.Str? ==> NoNul(t.text)
    modifies out
    ensures ok <==> out != null && |Join(Listed(tokens))| < out.Length
    ensures out != null && out.Length > 0 ==> out[..] == Joined(Listed(tokens), old(out[..])[0 := NUL])
    ensures ok ==> NUL in out[..] && CStr(out[..]) == Join(Listed(tokens))
  {
    hide Collect, SortDistinct, Join, Room, Over, Joined;
    if out == null || out.Length == 0 {
      return false;
    }
    out[0] := NUL;
    ghost var base := out[..];
    if tokens.None? || tokens.value == [] {
      assert Listed(tokens) == [] by { NothingListed(); }
      JoinOfNone(base);
      JoinedReads([], base);
      return true;
    }
    ghost var list := CsvTokens(tokens.value);
    var table := new string[MAX_TOKENS](_ => "");
    var count := CollectInto(tokens.value, table);
    CollectFacts(tokens.value);
    SortTable(table, count);
    assert table[..count] == list;
    ok := JoinInto(table, count, out);
    if ok {
      CollectedIsCText(tokens.value);
      JoinIsCText(list);
      JoinedReads(list, base);
    }
  }

  lemma NothingListed()
    ensures CsvTokens([]) == []
  {
  }

  lemma JoinOfNone(base: string)
    requires base != "" && base[0] == NUL
    ensures Join([]) == "" && Joined([], base) == base
  {
    assert "" + [NUL] + base[1..] == base;
  }

  lemma CollectedIsCText(tokens: seq<CString>)
    requires forall t :: t in tokens && t.Str? ==> NoNul(t.text)
    ensures forall x :: x in CsvTokens(tokens) ==> NoNul(x)
    ensures |CsvTokens(tokens)| == |Collect(tokens)|
  {
    hide Collect, SortDistinct, Less;
    var c := Collect(tokens);
    CollectFacts(tokens);
    SortDistinctSorts(c);
    NoDupSize(c);
    SortedNoDup(CsvTokens(tokens));
    NoDupSize(CsvTokens(tokens));
    forall x | x in CsvTokens(tokens) ensures NoNul(x) {
      assert x in Elements(CsvTokens(tokens)) && x in Wanted(tokens);
      var t :| t in tokens && Counts(t) && x == Normal(t.text);
      assert NoNul(t.text);
    }
  }

  lemma SortedNoDup(xs: seq<string>)
    requires Sorted(xs)
    ensures NoDup(xs)
  {
    hide Less;
    forall i, j | 0 <= i < j < |xs| ensures xs[i] != xs[j] { LessIrreflexive(xs[i]); }
  }

  // ----- what the text is ------------------------------------------------------------

  /** The listed tokens are strictly increasing, and with at most 24 they are those asked for. */
  lemma TokensAreCanonical(tokens: seq<CString>)
    ensures Sorted(CsvTokens(tokens)) && Elements(CsvTokens(tokens)) <= Wanted(tokens)
    ensures Elements(CsvTokens(tokens)) == Wanted(tokens) <==> |Wanted(tokens)| <= 24
  {
    hide Collect, SortDistinct, Wanted;
    SortDistinctSorts(Collect(tokens));
    CollectFacts(tokens);
    NothingDroppedExactly(tokens);
  }

  lemma SameList(a: seq<CString>, b: seq<CString>)
    requires Wanted(a) == Wanted(b) && |Wanted(a)| <= 24
    ensures CsvTokens(a) == CsvTokens(b)
  {
    hide CsvTokens, Wanted;
    TokensAreCanonical(a);
    TokensAreCanonical(b);
    SortedIsUnique(CsvTokens(a), CsvTokens(b));
  }

  /** Neither the order nor the repetition of the input shows in the text. */
  lemma OrderDoesNotMatter(a: seq<CString>, b: seq<CString>)
    requires Wanted(a) == Wanted(b) && |Wanted(a)| <= 24
    ensures CsvText(a) == CsvText(b)
  {
    hide CsvTokens, Wanted, Join;
    SameList(a, b);
  }

  // ----- the Python reader -------------------------------------------------------------

  function SplitCommas(s: string): seq<string>
    decreases |s|
  {
    var i := IndexOf(s, ',');
    if i == |s| then [s] else [s[..i]] + SplitCommas(s[i + 1..])
  }

  function TrimEnd(s: string): string {
    if s != "" && IsSpace(s[|s| - 1]) then TrimEnd(s[..|s| - 1]) else s
  }

  function Strip(s: string): string {
    TrimEnd(Skip(Space, s))
  }

  predicate Trimmed(s: string) {
    s != "" ==> !IsSpace(s[0]) && !IsSpace(s[|s| - 1])
  }

  function Cleaned(pieces: seq<string>): seq<string> {
    if pieces == [] then []
    else (if Strip(pieces[0]) == "" then [] else [Lower(Strip(pieces[0]))]) + Cleaned(pieces[1..])
  }

  /** _canonicalize_csv_tokens. */
  function PythonTokens(raw: string): seq<string> {
    if raw == "" then [] else SortDistinct(Cleaned(SplitCommas(raw)))
  }

  predicate Plain(t: string) {
    ',' !in t && Trimmed(t)
  }

  lemma TrimEndFacts(s: string)
    ensures TrimEnd(s) <= s && (TrimEnd(s) != "" ==> !IsSpace(TrimEnd(s)[|TrimEnd(s)| - 1]))
  {
  }

  lemma StripFacts(s: string)
    ensures Trimmed(Strip(s)) && (',' !in s ==> ',' !in Strip(s)) && (Trimmed(s) ==> Strip(s) == s)
  {
    hide Run;
    var p := Skip(Space, s);
    TrimEndFacts(p);
    if Trimmed(s) {
      RunIs(Space, s, 0);
      assert p == s;
    }
  }

  lemma LowerPlain(s: string)
    requires Plain(s)
    ensures Plain(Lower(s))
  {
    forall i | 0 <= i < |s| ensures Lower(s)[i] != ',' { assert s[i] in s; }
  }

  lemma {:induction false} PiecesHaveNoComma(s: string)
    ensures forall p :: p in SplitCommas(s) ==> ',' !in p
    decreases |s|
  {
    var i := IndexOf(s, ',');
    if i < |s| {
      PiecesHaveNoComma(s[i + 1..]);
    }
  }

  lemma {:induction false} CleanedIsPlain(pieces: seq<string>)
    requires forall p :: p in pieces ==> ',' !in p
    ensures forall t :: t in Cleaned(pieces) ==> Plain(t)
  {
    hide Strip, Lower, Plain;
    if pieces != [] {
      forall p | p in pieces[1..] ensures ',' !in p { assert p in pieces; }
      CleanedIsPlain(pieces[1..]);
      StripIsPlain(pieces[0]);
      LowerPlain(Strip(pieces[0]));
    }
  }

  lemma StripIsPlain(s: string)
    requires ',' !in s
    ensures Plain(Strip(s))
  {
    StripFacts(s);
  }

  lemma SplitAtComma(a: string, b: string)
    requires ',' !in a
    ensures SplitCommas(a + "," + b) == [a] + SplitCommas(b) && SplitCommas(a) == [a]
  {
    hide IndexOf;
    var s := a + "," + b;
    IndexIs(s, ',', |a|);
    IndexIs(a, ',', |a|);
    assert s[..|a|] == a && s[|a| + 1..] == b;
  }

  lemma {:induction false} SplitOfJoin(xs: seq<string>)
    requires xs != [] && forall x :: x in xs ==> ',' !in x
    ensures SplitCommas(Join(xs)) == xs
  {
    assert xs[0] in xs && forall x :: x in xs[1..] ==> x in xs;
    if |xs| == 1 {
      SplitAtComma(xs[0], "");
    } else {
      var rest := Join(xs[1..]);
      hide Join, SplitCommas;
      SplitOfJoin(xs[1..]);
      SplitAtComma(xs[0], rest);
    }
  }

  lemma {:induction false} CleanedOfClean(xs: seq<string>)
    requires forall x :: x in xs ==> x != "" && Trimmed(x) && Lower(x) == x
    ensures Cleaned(xs) == xs
  {
    hide Strip, Lower, Trimmed;
    if xs != [] {
      assert xs[0] in xs && forall x :: x in xs[1..] ==> x in xs;
      StripFacts(xs[0]);
      CleanedOfClean(xs[1..]);
    }
  }

  lemma JoinIsEmpty(xs: seq<string>)
    requires forall x :: x in xs ==> x != ""
    ensures Join(xs) == "" <==> xs == []
  {
    if xs != [] { assert xs[0] in xs; }
  }

  /**
   The reader gets back exactly the list the writer sorted, if and only if no
   token holds a comma or outer whitespace.
   */
  lemma ReadBackExactly(tokens: seq<CString>)
    ensures PythonTokens(CsvText(tokens)) == CsvTokens(tokens) <==> forall t :: t in CsvTokens(tokens) ==> Plain(t)
  {
    hide Collect, SortDistinct, SplitCommas, Join, Cleaned, Less, Lower, Trimmed;
    var xs := CsvTokens(tokens);
    CollectFacts(tokens);
    SortDistinctSorts(Collect(tokens));
    assert forall x :: x in xs ==> x in Elements(xs) && x in Collect(tokens);
    JoinIsEmpty(xs);
    var raw := CsvText(tokens);
    if raw != "" {
      PiecesHaveNoComma(raw);
      CleanedIsPlain(SplitCommas(raw));
      SortDistinctSorts(Cleaned(SplitCommas(raw)));
      assert forall t :: t in PythonTokens(raw) ==> t in Elements(PythonTokens(raw)) && t in Cleaned(SplitCommas(raw));
      if forall t :: t in xs ==> Plain(t) {
        SplitOfJoin(xs);
        CleanedOfClean(xs);
        SortOfSorted(xs);
      }
    }
  }

  lemma {:induction false} CollectOfCanonical(xs: seq<string>)
    requires NoDup(xs) && |xs| <= MAX_TOKENS
    requires forall x :: x in xs ==> x != "" && Lower(x) == x && |x| <= TOKEN_CHARS
    ensures Collect(Pointers(xs)) == xs
  {
    if xs != [] {
      hide Lower, Collect, Pointers;
      var front, last := xs[..|xs| - 1], xs[|xs| - 1];
      assert xs == front + [last] && last in xs;
      assert forall x :: x in front ==> x in xs;
      CollectOfCanonical(front);
      assert last !in front;
      PointersSnoc(front, last);
      CollectSnoc(Pointers(front), last);
    }
  }

  lemma PointersSnoc(xs: seq<string>, x: string)
    ensures Pointers(xs + [x]) == Pointers(xs) + [Str(x)]
  {
  }

  lemma CollectSnoc(tokens: seq<CString>, x: string)
    requires |Collect(tokens)| < MAX_TOKENS && x !in Collect(tokens)
    requires x != "" && Lower(x) == x && |x| <= TOKEN_CHARS
    ensures Collect(tokens + [Str(x)]) == Collect(tokens) + [x]
  {
    hide Lower;
    assert (tokens + [Str(x)])[..|tokens|] == tokens;
  }

  /** Canonical text is a fixed point: its tokens, written again, give the same bytes. */
  lemma WritingTwiceChangesNothing(tokens: seq<CString>)
    ensures CsvText(Pointers(CsvTokens(tokens))) == CsvText(tokens)
  {
    hide Collect, SortDistinct, Join, Less, Lower, Pointers;
    var xs := CsvTokens(tokens);
    CollectFacts(tokens);
    SortDistinctSorts(Collect(tokens));
    SortedNoDup(xs);
    NoDupSize(xs);
    NoDupSize(Collect(tokens));
    forall x | x in xs ensures x in Collect(tokens) { assert x in Elements(xs); }
    CollectOfCanonical(xs);
    SortOfSorted(xs);
  }

  // ----- when the order of the input shows ---------------------------------------------

  /** The list does not depend on the order or the repetition of the input. */
  ghost predicate ListIsStable(a: seq<CString>) {
    forall b :: Wanted(b) == Wanted(a) ==> CsvTokens(b) == CsvTokens(a)
  }

  ghost predicate TextIsStable(a: seq<CString>) {
    forall b :: Wanted(b) == Wanted(a) ==> CsvText(b) == CsvText(a)
  }

  lemma WantedAppend(a: seq<CString>, b: seq<CString>)
    ensures Wanted(a + b) == Wanted(a) + Wanted(b)
  {
    hide Normal;
  }

  lemma WantedOfNormal(l: seq<string>)
    requires forall x :: x in l ==> x != "" && Normal(x) == x
    ensures Wanted(Pointers(l)) == Elements(l)
  {
    hide Normal;
    var w := Wanted(Pointers(l));
    forall x | x in l ensures x in w {
      var i :| 0 <= i < |l| && l[i] == x;
      assert Pointers(l)[i] == Str(x) && Counts(Str(x));
    }
  }

  lemma NormalTwice(t: string)
    ensures Normal(Normal(t)) == Normal(t) && (t != "" ==> Normal(t) != "")
    ensures Lower(Normal(t)) == Normal(t)
  {
    LowerTwice(Cut(t, TOKEN_CHARS));
  }

  lemma WantedAreNormal(a: seq<CString>)
    ensures forall x :: x in Wanted(a) ==> x != "" && Normal(x) == x && Lower(x) == x && |x| <= TOKEN_CHARS
  {
    hide Normal, Lower;
    forall x | x in Wanted(a) ensures x != "" && Normal(x) == x && Lower(x) == x && |x| <= TOKEN_CHARS {
      var t :| t in a && Counts(t) && x == Normal(t.text);
      NormalTwice(t.text);
    }
  }

  /** Any 24 of the tokens asked for can be the ones that fill the table. */
  lemma Rearranged(a: seq<CString>, l: seq<string>) returns (b: seq<CString>)
    requires NoDup(l) && |l| == MAX_TOKENS && Elements(l) <= Wanted(a)
    ensures Wanted(b) == Wanted(a) && Collect(b) == l
  {
    hide Normal, Lower, Wanted, Collect, Pointers;
    b := Pointers(l) + a;
    WantedAreNormal(a);
    assert forall x :: x in l ==> x in Elements(l);
    CollectOfCanonical(l);
    assert b[..|l|] == Pointers(l);
    CollectFull(b, |l|);
    WantedAppend(Pointers(l), a);
    WantedOfNormal(l);
  }

  function Total(xs: seq<string>): nat {
    if xs == [] then 0 else |xs[0]| + Total(xs[1..])
  }

  lemma {:induction false} TotalAppend(xs: seq<string>, ys: seq<string>)
    ensures Total(xs + ys) == Total(xs) + Total(ys)
  {
    if xs == [] {
      assert xs + ys == ys;
    } else {
      assert (xs + ys)[1..] == xs[1..] + ys;
      TotalAppend(xs[1..], ys);
    }
  }

  lemma {:induction false} JoinLength(xs: seq<string>)
    requires xs != []
    ensures |Join(xs)| == Total(xs) + |xs| - 1
  {
    if |xs| > 1 {
      JoinLength(xs[1..]);
    } else {
      assert Total(xs[1..]) == 0;
    }
  }

  lemma {:induction false} InsertTotal(xs: seq<string>, x: string)
    requires x !in xs
    ensures Total(Insert(xs, x)) == Total(xs) + |x| && |Insert(xs, x)| == |xs| + 1
  {
    hide Less;
    if xs != [] {
      InsertTotal(xs[1..], x);
    }
  }

  lemma {:induction false} SortTotal(xs: seq<string>)
    requires NoDup(xs)
    ensures Total(SortDistinct(xs)) == Total(xs) && |SortDistinct(xs)| == |xs|
  {
    if xs != [] {
      hide Total, Insert, Less;
      var front, last := xs[..|xs| - 1], xs[|xs| - 1];
      SortTotal(front);
      SortDistinctSorts(front);
      assert last !in front && last !in Elements(SortDistinct(front));
      InsertTotal(SortDistinct(front), last);
      assert xs == front + [last];
      TotalAppend(front, [last]);
      TotalOfOne(last);
    }
  }

  lemma TotalOfOne(x: string)
    ensures Total([x]) == |x|
  {
    assert Total([x][1..]) == 0;
  }

  lemma TotalUpdate(xs: seq<string>, i: nat, x: string)
    requires i < |xs|
    ensures Total(xs[i := x]) + |xs[i]| == Total(xs) + |x|
  {
    hide Total;
    assert xs == xs[..i] + ([xs[i]] + xs[i + 1..]);
    assert xs[i := x] == xs[..i] + ([x] + xs[i + 1..]);
    TotalAppend(xs[..i], [xs[i]] + xs[i + 1..]);
    TotalAppend([xs[i]], xs[i + 1..]);
    TotalAppend(xs[..i], [x] + xs[i + 1..]);
    TotalAppend([x], xs[i + 1..]);
    TotalOfOne(x);
    TotalOfOne(xs[i]);
  }

  /** Tokens of one width can be told apart in a join, commas or not. */
  lemma {:induction false} JoinOfWidth(xs: seq<string>, ys: seq<string>, w: nat)
    requires |xs| == |ys| && Join(xs) == Join(ys)
    requires (forall x :: x in xs ==> |x| == w) && (forall y :: y in ys ==> |y| == w)
    ensures xs == ys
  {
    if xs != [] {
      assert xs[0] in xs && ys[0] in ys;
      assert Join(xs)[..w] == xs[0] && Join(ys)[..w] == ys[0];
      if |xs| > 1 {
        assert Join(xs)[w + 1..] == Join(xs[1..]) && Join(ys)[w + 1..] == Join(ys[1..]);
        JoinOfWidth(xs[1..], ys[1..], w);
      }
      assert xs == [xs[0]] + xs[1..] && ys == [ys[0]] + ys[1..];
    }
  }

  lemma SwapOne(c: seq<string>, i: nat, x: string)
    requires NoDup(c) && i < |c| && x !in c
    ensures NoDup(c[i := x]) && x in c[i := x] && Elements(c[i := x]) <= Elements(c) + {x}
  {
    assert c[i := x][i] == x;
  }

  /** A table with one token exchanged for one that was left out. */
  lemma Exchanged(a: seq<CString>, i: nat, x: string) returns (b: seq<CString>)
    requires |Collect(a)| == MAX_TOKENS && i < MAX_TOKENS && x in Wanted(a) && x !in Collect(a)
    ensures Wanted(b) == Wanted(a) && Collect(b) == Collect(a)[i := x] && NoDup(Collect(b))
    ensures CsvTokens(b) != CsvTokens(a)
  {
    hide Wanted, Collect, SortDistinct;
    var c := Collect(a);
    CollectFacts(a);
    SwapOne(c, i, x);
    b := Rearranged(a, c[i := x]);
    SortDistinctSorts(c);
    SortDistinctSorts(c[i := x]);
    assert x in Elements(c[i := x]) && x !in Elements(c);
  }

  /** The text after an exchange for a token of another length, or among tokens of one length. */
  lemma ExchangeShows(a: seq<CString>, b: seq<CString>, i: nat, x: string)
    requires |Collect(a)| == MAX_TOKENS && i < MAX_TOKENS && NoDup(Collect(b)) && Collect(b) == Collect(a)[i := x]
    requires CsvTokens(b) != CsvTokens(a)
    requires |x| != |Collect(a)[i]| || forall y :: y in Collect(a) ==> |y| == |x|
    ensures CsvText(b) != CsvText(a)
  {
    hide Collect, SortDistinct, Join, Total;
    var c, d := Collect(a), Collect(b);
    CollectFacts(a);
    SortTotal(c);
    SortTotal(d);
    TotalUpdate(c, i, x);
    JoinLength(CsvTokens(a));
    JoinLength(CsvTokens(b));
    if |x| == |c[i]| && CsvText(b) == CsvText(a) {
      SameWidth(c, |x|);
      SameWidth(d, |x|);
      JoinOfWidth(CsvTokens(a), CsvTokens(b), |x|);
    }
  }

  lemma SameWidth(xs: seq<string>, w: nat)
    requires forall x :: x in xs ==> |x| == w
    ensures forall x :: x in SortDistinct(xs) ==> |x| == w
  {
    SortDistinctSorts(xs);
    assert forall x :: x in SortDistinct(xs) ==> x in Elements(xs);
  }

  /** Past 24 tokens some order of the input gives another list and another text. */
  lemma OverflowShows(a: seq<CString>) returns (b: seq<CString>)
    requires |Wanted(a)| > MAX_TOKENS
    ensures Wanted(b) == Wanted(a) && CsvTokens(b) != CsvTokens(a) && CsvText(b) != CsvText(a)
  {
    hide Collect, Wanted, CsvTokens, CsvText;
    CollectFacts(a);
    NothingDroppedExactly(a);
    var c := Collect(a);
    var x :| x in Wanted(a) && x !in Elements(c);
    var i: nat := 0;
    if y :| y in c && |y| != |x| {
      i :| 0 <= i < |c| && c[i] == y;
    }
    b := Exchanged(a, i, x);
    ExchangeShows(a, b, i, x);
  }

  /** The list is stable exactly when at most 24 distinct tokens are asked for. */
  lemma ListIsStableExactly(a: seq<CString>)
    ensures ListIsStable(a) <==> |Wanted(a)| <= 24
  {
    hide CsvTokens, Wanted;
    if |Wanted(a)| <= MAX_TOKENS {
      forall b | Wanted(b) == Wanted(a) ensures CsvTokens(b) == CsvTokens(a) {
        SameList(a, b);
      }
    } else {
      var b := OverflowShows(a);
    }
  }

  /** And so is the text, whatever the tokens hold. */
  lemma TextIsStableExactly(a: seq<CString>)
    ensures TextIsStable(a) <==> |Wanted(a)| <= 24
  {
    hide CsvText, Wanted;
    if |Wanted(a)| <= MAX_TOKENS {
      forall b | Wanted(b) == Wanted(a) ensures CsvText(b) == CsvText(a) {
        OrderDoesNotMatter(b, a);
      }
    } else {
      var b := OverflowShows(a);
    }
  }

  // ----- reading a text that was cut ---------------------------------------------------

  /** Characters and separators a list takes, one separator too many. */
  function Weight(xs: seq<string>): nat {
    Total(xs) + |xs|
  }

  lemma {:induction false} SplitWeight(s: string)
    ensures Weight(SplitCommas(s)) == |s| + 1
    decreases |s|
  {
    var i := IndexOf(s, ',');
    if i == |s| {
      TotalOfOne(s);
    } else {
      SplitWeight(s[i + 1..]);
      var front, rest := s[..i], SplitCommas(s[i + 1..]);
      hide SplitCommas, IndexOf;
      TotalAppend([front], rest);
      TotalOfOne(front);
    }
  }

  lemma StripShortens(s: string)
    ensures |Strip(s)| <= |s|
  {
    hide Run;
    TrimEndFacts(Skip(Space, s));
  }

  lemma {:induction false} CleanedWeight(pieces: seq<string>)
    ensures Weight(Cleaned(pieces)) <= Weight(pieces)
  {
    hide Strip, Lower;
    if pieces != [] {
      var p, rest := Strip(pieces[0]), Cleaned(pieces[1..]);
      StripShortens(pieces[0]);
      CleanedWeight(pieces[1..]);
      if p != "" {
        TotalAppend([Lower(p)], rest);
        TotalOfOne(Lower(p));
      } else {
        assert Cleaned(pieces) == rest;
      }
    }
  }

  lemma {:induction false} InsertWeight(xs: seq<string>, x: string)
    ensures Weight(Insert(xs, x)) <= Weight(xs) + |x| + 1
  {
    hide Less;
    if xs == [] {
      TotalOfOne(x);
    } else {
      InsertWeight(xs[1..], x);
      assert ([x] + xs)[1..] == xs;
      assert ([xs[0]] + Insert(xs[1..], x))[1..] == Insert(xs[1..], x);
    }
  }

  lemma {:induction false} SortWeight(xs: seq<string>)
    ensures Weight(SortDistinct(xs)) <= Weight(xs)
  {
    if xs != [] {
      hide Total, Insert;
      var front, last := xs[..|xs| - 1], xs[|xs| - 1];
      SortWeight(front);
      InsertWeight(SortDistinct(front), last);
      assert xs == front + [last];
      TotalAppend(front, [last]);
      TotalOfOne(last);
    }
  }

  /** What is read from a text is, joined again, no longer than the text. */
  lemma ReadIsNoLonger(raw: string)
    ensures |Join(PythonTokens(raw))| <= |raw|
  {
    hide SplitCommas, Cleaned, SortDistinct, Total;
    var xs := PythonTokens(raw);
    if xs != [] {
      SplitWeight(raw);
      CleanedWeight(SplitCommas(raw));
      SortWeight(Cleaned(SplitCommas(raw)));
      JoinLength(xs);
    } else {
      assert Join([]) == "";
    }
  }

  /** A text that is cut reads back as the sorted list exactly when nothing is cut and the tokens are plain. */
  lemma CutReadsBackExactly(tokens: seq<CString>, n: nat)
    ensures PythonTokens(Cut(CsvText(tokens), n)) == CsvTokens(tokens)
       <==> |CsvText(tokens)| <= n && forall t :: t in CsvTokens(tokens) ==> Plain(t)
  {
    hide CsvTokens, PythonTokens, Plain, Join;
    ReadBackExactly(tokens);
    ReadIsNoLonger(Cut(CsvText(tokens), n));
  }

  // ----- order and spelling in plain terms ---------------------------------------------

  /** a stands before b in a dictionary: a proper prefix, or smaller where they first differ. */
  predicate ComesBefore(a: string, b: string) {
    (|a| < |b| && a == b[..|a|]) ||
    exists n :: 0 <= n < |a| && n < |b| && SmallerAt(a, b, n)
  }

  predicate SmallerAt(a: string, b: string, n: nat)
    requires n < |a| && n < |b|
  {
    a[..n] == b[..n] && a[n] < b[n]
  }

  lemma {:induction false} LessIsBefore(a: string, b: string)
    requires Less(a, b)
    ensures ComesBefore(a, b)
  {
    if a != "" && a[0] < b[0] {
      assert SmallerAt(a, b, 0);
    } else if a != "" {
      var u, v := a[1..], b[1..];
      LessIsBefore(u, v);
      assert a == [a[0]] + u && b == [b[0]] + v;
      if !(|u| < |v| && u == v[..|u|]) {
        var n :| 0 <= n < |u| && n < |v| && SmallerAt(u, v, n);
        assert a[..n + 1] == [a[0]] + u[..n] && b[..n + 1] == [b[0]] + v[..n];
        assert SmallerAt(a, b, n + 1);
      } else {
        assert b[..|a|] == [b[0]] + v[..|u|];
      }
    }
  }

  /** The lists of both languages are in dictionary order. */
  lemma ListsAreAscending(tokens: seq<CString>, raw: string, i: nat, j: nat)
    ensures i < j < |CsvTokens(tokens)| ==> ComesBefore(CsvTokens(tokens)[i], CsvTokens(tokens)[j])
    ensures i < j < |PythonTokens(raw)| ==> ComesBefore(PythonTokens(raw)[i], PythonTokens(raw)[j])
  {
    hide SortDistinct, Collect, ComesBefore, Less, Cleaned, SplitCommas;
    SortDistinctSorts(Collect(tokens));
    SortDistinctSorts(Cleaned(SplitCommas(raw)));
    if i < j < |CsvTokens(tokens)| {
      LessIsBefore(CsvTokens(tokens)[i], CsvTokens(tokens)[j]);
    }
    if i < j < |PythonTokens(raw)| {
      LessIsBefore(PythonTokens(raw)[i], PythonTokens(raw)[j]);
    }
  }

  /** x is the first 31 characters of t, letters in lower case. */
  predicate IsShortLower(x: string, t: string) {
    && |x| == (if |t| < 31 then |t| else 31)
    && forall i :: 0 <= i < |x| ==> x[i] == if 'A' <= t[i] <= 'Z' then t[i] - 'A' + 'a' else t[i]
  }

  /** What is asked for: the shortened, lowered form of every text that is not empty. */
  lemma WantedExactly(tokens: seq<CString>, x: string)
    ensures x in Wanted(tokens) <==> exists t :: t in tokens && t.Str? && t.text != "" && IsShortLower(x, t.text)
  {
    hide Normal, IsShortLower;
    forall t | t in tokens && t.Str? ensures Normal(t.text) == x <==> IsShortLower(x, t.text) { NormalIs(t.text, x); }
  }

  lemma NormalIs(t: string, x: string)
    ensures Normal(t) == x <==> IsShortLower(x, t)
  {
    var n := Normal(t);
    assert forall i :: 0 <= i < |n| ==> n[i] == LowerChar(t[i]);
    if IsShortLower(x, t) {
      assert n == x;
    }
  }

  /** The table only grows at its end, so with Wanted it holds the first 24 distinct tokens to arrive. */
  lemma {:induction false} TableGrows(a: seq<CString>, b: seq<CString>)
    ensures Collect(a) <= Collect(a + b)
    decreases |b|
  {
    if b == [] {
      assert a + b == a;
    } else {
      hide Normal;
      var front := b[..|b| - 1];
      assert (a + b)[..|a + b| - 1] == a + front;
      TableGrows(a, front);
    }
  }

  /** x is s without outer whitespace. */
  predicate IsInside(x: string, s: string) {
    Trimmed(x) && exists n :: 0 <= n <= |s| - |x| && IsInsideAt(x, s, n)
  }

  predicate IsInsideAt(x: string, s: string, n: nat)
    requires n + |x| <= |s|
  {
    s[n..n + |x|] == x && AllIn(Space, s[..n]) && AllIn(Space, s[n + |x|..])
  }

  lemma {:induction false} TrimEndDrops(s: string)
    ensures TrimEnd(s) <= s && AllIn(Space, s[|TrimEnd(s)|..])
  {
    if s != "" && IsSpace(s[|s| - 1]) {
      var t := s[..|s| - 1];
      TrimEndDrops(t);
      var n := |TrimEnd(t)|;
      assert s[n..] == t[n..] + [s[|s| - 1]];
    }
  }

  lemma DropTwice(s: string, n: nat, m: nat)
    requires n + m <= |s|
    ensures s[n..][..m] == s[n..n + m] && s[n..][m..] == s[n + m..]
  {
  }

  lemma LeadIsSpace(s: string)
    ensures AllIn(Space, s[..Run(Space, s)]) && Skip(Space, s) == s[Run(Space, s)..]
  {
    hide Run, Is;
  }

  lemma StripIsInside(s: string)
    ensures IsInside(Strip(s), s)
  {
    StripFacts(s);
    hide Run, Skip, TrimEnd, AllIn, Trimmed;
    var n, p := Run(Space, s), Skip(Space, s);
    LeadIsSpace(s);
    TrimEndDrops(p);
    var x := TrimEnd(p);
    assert p[..|x|] == x;
    DropTwice(s, n, |x|);
    assert IsInsideAt(x, s, n);
  }

  /** What the reader lists: every piece between commas, without outer whitespace, lowered, if anything is left. */
  lemma PythonTokensExactly(pieces: seq<string>, x: string)
    requires pieces != [] && (forall p :: p in pieces ==> ',' !in p) && Join(pieces) != ""
    ensures x in PythonTokens(Join(pieces)) <==> exists p :: p in pieces && Strip(p) != "" && x == Lower(Strip(p))
  {
    hide Strip, Lower, SortDistinct, SplitCommas, Join;
    SplitOfJoin(pieces);
    SortDistinctSorts(Cleaned(pieces));
    CleanedExactly(pieces, x);
    var xs := PythonTokens(Join(pieces));
    assert x in xs <==> x in Elements(xs);
    assert x in Cleaned(pieces) <==> x in Elements(Cleaned(pieces));
  }

  lemma {:induction false} CleanedExactly(pieces: seq<string>, x: string)
    ensures x in Cleaned(pieces) <==> exists p :: p in pieces && Strip(p) != "" && x == Lower(Strip(p))
  {
    hide Strip, Lower;
    if pieces != [] {
      CleanedExactly(pieces[1..], x);
      assert forall p :: p in pieces <==> p == pieces[0] || p in pieces[1..];
    }
  }
}
