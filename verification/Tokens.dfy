/**
 The Python reader's view of a line: whitespace tokens (codec.split_tokens),
 key=value pairs in an insertion-ordered dict (codec.parse_kv_pairs), and the
 leading request id (response._strip_request_id).
 */
module Tokens {
  import opened Text

  /** str.split(), which ignores surrounding whitespace by itself. */
  function Split(s: string): seq<string>
    decreases |s|
  {
    var p := Skip(Space, s);
    var n := Run(Visible, p);
    if n == 0 then [] else [p[..n]] + Split(p[n..])
  }

  lemma {:induction false} SplitAfterSpace(b: string, s: string)
    requires AllIn(Space, b)
    ensures Split(b + s) == Split(s)
  {
    hide Run;
    SkipOver(Space, b, s);
  }

  lemma {:induction false} SplitToken(w: string, rest: string)
    requires w != "" && AllIn(Visible, w)
    requires rest != "" ==> Is(Space, rest[0])
    ensures Split(w + rest) == [w] + Split(rest)
  {
    hide Run;
    assert Is(Visible, w[0]);
    RunIs(Space, w + rest, 0);
    assert (w + rest)[0..] == w + rest;
    RunOver(Visible, w, rest);
  }

  lemma SplitNothing()
    ensures Split("") == []
  {
  }

  predicate HasRequestId(tokens: seq<string>) {
    tokens != [] && |tokens[0]| > 1 && tokens[0][0] == '#' && AllIn(Digit, tokens[0][1..])
  }

  /** The id of a `#digits` first token. */
  function RequestId(tokens: seq<string>): Option<nat> {
    if HasRequestId(tokens) then Some(Value(tokens[0][1..])) else None
  }

  function WithoutRequestId(tokens: seq<string>): seq<string> {
    if HasRequestId(tokens) then tokens[1..] else tokens
  }

  lemma {:induction false} DecimalTag(id: nat, rest: seq<string>)
    ensures HasRequestId(["#" + Decimal(id)] + rest)
    ensures RequestId(["#" + Decimal(id)] + rest) == Some(id)
    ensures WithoutRequestId(["#" + Decimal(id)] + rest) == rest
  {
    hide Decimal, Value;
    var tag := "#" + Decimal(id);
    assert tag[1..] == Decimal(id);
    ValueOfDecimal(id);
    assert (["#" + Decimal(id)] + rest)[1..] == rest;
  }

  lemma DigitsAreVisible(s: string)
    requires AllIn(Digit, s)
    ensures AllIn(Visible, s)
  {
    forall i | 0 <= i < |s| ensures Is(Visible, s[i]) { assert Is(Digit, s[i]); }
  }

  /** A line tagged `#id ` splits into the tag and the tokens of what follows. */
  lemma SplitTagged(id: nat, body: string)
    ensures Split("#" + Decimal(id) + " " + body) == ["#" + Decimal(id)] + Split(body)
  {
    hide Decimal, Split;
    var tag := "#" + Decimal(id);
    DigitsAreVisible(Decimal(id));
    assert tag + " " + body == tag + (" " + body);
    SplitToken(tag, " " + body);
    SplitAfterSpace(" ", body);
  }

  // ----- insertion-ordered dicts -------------------------------------------------

  datatype Field = Field(key: string, value: string)

  type Dict = seq<Field>

  predicate HasKey(d: Dict, k: string) {
    exists i :: 0 <= i < |d| && d[i].key == k
  }

  /** d[k] = v: in place for a known key, at the end for a new one. */
  function Put(d: Dict, k: string, v: string): Dict {
    if d == [] then [Field(k, v)]
    else if d[0].key == k then [Field(k, v)] + d[1..]
    else [d[0]] + Put(d[1..], k, v)
  }

  lemma {:induction false} PutNew(d: Dict, k: string, v: string)
    requires !HasKey(d, k)
    ensures Put(d, k, v) == d + [Field(k, v)]
  {
    if d != [] {
      assert d[0].key != k;
      forall i | 0 <= i < |d[1..]| ensures d[1..][i].key != k { assert d[1..][i] == d[i + 1]; }
      PutNew(d[1..], k, v);
      assert d == [d[0]] + d[1..];
    }
  }

  /** parse_kv_pairs over a token list, starting from the dict read so far. */
  function ReadPairs(d: Dict, tokens: seq<string>): Dict
    decreases |tokens|
  {
    if tokens == [] then d
    else
      var e := IndexOf(tokens[0], '=');
      ReadPairs(if e == 0 || e == |tokens[0]| then d else Put(d, tokens[0][..e], tokens[0][e + 1..]), tokens[1..])
  }

  function Pair(f: Field): string {
    f.key + "=" + f.value
  }

  predicate IsKey(k: string) {
    k != "" && '=' !in k && AllIn(Visible, k)
  }

  ghost predicate IsRecord(fields: seq<Field>) {
    && (forall i :: 0 <= i < |fields| ==> IsKey(fields[i].key) && AllIn(Visible, fields[i].value))
    && (forall i, j :: 0 <= i < j < |fields| ==> fields[i].key != fields[j].key)
  }

  function Pairs(fields: seq<Field>): seq<string> {
    if fields == [] then [] else [Pair(fields[0])] + Pairs(fields[1..])
  }

  lemma PairSplits(fields: seq<Field>)
    requires IsRecord(fields) && fields != []
    ensures var t, k, v := Pair(fields[0]), fields[0].key, fields[0].value;
            0 < |k| < |t| && IndexOf(t, '=') == |k| && t[..|k|] == k && t[|k| + 1..] == v
  {
    IndexIs(Pair(fields[0]), '=', |fields[0].key|);
  }

  lemma PairIsVisible(k: string, v: string)
    requires IsKey(k) && AllIn(Visible, v)
    ensures k + "=" + v != "" && AllIn(Visible, k + "=" + v)
  {
    var t := k + "=" + v;
    forall i | 0 <= i < |t| ensures Is(Visible, t[i]) {
      if i < |k| { assert Is(Visible, k[i]); }
      else if i > |k| { assert Is(Visible, v[i - |k| - 1]); }
    }
  }

  lemma ReadPair(d: Dict, f: Field, more: seq<string>)
    requires var t, n := Pair(f), |f.key|;
             0 < n < |t| && IndexOf(t, '=') == n && t[..n] == f.key && t[n + 1..] == f.value
    ensures ReadPairs(d, [Pair(f)] + more) == ReadPairs(Put(d, f.key, f.value), more)
  {
    hide Put, Pair, IndexOf;
    assert ([Pair(f)] + more)[1..] == more;
  }

  /** Reading printed pairs with new, distinct keys appends exactly them, then goes on. */
  lemma {:induction false} ReadPairsOf(d: Dict, fields: seq<Field>, more: seq<string>)
    requires IsRecord(fields)
    requires forall i :: 0 <= i < |fields| ==> !HasKey(d, fields[i].key)
    ensures ReadPairs(d, Pairs(fields) + more) == ReadPairs(d + fields, more)
    decreases |fields|
  {
    hide *;
    if fields == [] {
      PairsOfNone(more);
      assert d + [] == d;
    } else {
      var f, rest := fields[0], fields[1..];
      PairsFirst(fields, more);
      PairSplits(fields);
      ReadPair(d, f, Pairs(rest) + more);
      PutNew(d, f.key, f.value);
      RecordRest(fields);
      StillNew(d, fields);
      ReadPairsOf(d + [f], rest, more);
      assert d + [f] + rest == d + fields;
    }
  }

  lemma PairsOfNone(more: seq<string>)
    ensures Pairs([]) + more == more
  {
  }

  lemma PairsFirst(fields: seq<Field>, more: seq<string>)
    requires fields != []
    ensures Pairs(fields) + more == [Pair(fields[0])] + (Pairs(fields[1..]) + more)
  {
    hide Pair;
  }

  lemma RecordRest(fields: seq<Field>)
    requires IsRecord(fields) && fields != []
    ensures IsRecord(fields[1..])
    ensures forall i :: 0 <= i < |fields| - 1 ==> fields[1..][i].key != fields[0].key
  {
  }

  /** Keys new to a dict are still new once the record's first field is in it. */
  lemma StillNew(d: Dict, fields: seq<Field>)
    requires IsRecord(fields) && fields != [] && forall i :: 0 <= i < |fields| ==> !HasKey(d, fields[i].key)
    ensures forall i :: 0 <= i < |fields| - 1 ==> !HasKey(d + [fields[0]], fields[1..][i].key)
  {
    hide HasKey, IsKey, Is;
    forall i | 0 <= i < |fields| - 1 ensures !HasKey(d + [fields[0]], fields[1..][i].key) {
      HasKeyAppend(d, fields[0], fields[i + 1].key);
    }
  }

  lemma HasKeyAppend(d: Dict, f: Field, k: string)
    requires !HasKey(d, k) && f.key != k
    ensures !HasKey(d + [f], k)
  {
  }

  lemma {:induction false} TokensAreVisible(s: string)
    ensures forall t :: t in Split(s) ==> t != "" && AllIn(Visible, t) && |t| <= |s|
    decreases |s|
  {
    hide Run;
    var p := Skip(Space, s);
    var n := Run(Visible, p);
    if n > 0 {
      TokensAreVisible(p[n..]);
    }
  }

  lemma {:induction false} PutKnown(d: Dict, k: string, v: string, i: nat)
    requires i < |d| && d[i].key == k && forall j :: 0 <= j < i ==> d[j].key != k
    ensures Put(d, k, v) == d[i := Field(k, v)]
  {
    if i > 0 {
      PutKnown(d[1..], k, v, i - 1);
      assert d[i := Field(k, v)] == [d[0]] + d[1..][i - 1 := Field(k, v)];
    }
  }

  /** A dict stays a record under assignment: keys differ, all text is visible. */
  lemma PutKeepsRecord(d: Dict, k: string, v: string)
    requires IsRecord(d) && IsKey(k) && AllIn(Visible, v)
    ensures IsRecord(Put(d, k, v))
  {
    hide IsKey, AllIn, Put;
    if HasKey(d, k) {
      var i :| 0 <= i < |d| && d[i].key == k;
      PutKnown(d, k, v, i);
    } else {
      PutNew(d, k, v);
    }
  }

  lemma TokenParts(t: string)
    requires AllIn(Visible, t)
    ensures var e := IndexOf(t, '='); 0 < e < |t| ==> IsKey(t[..e]) && AllIn(Visible, t[e + 1..])
  {
    hide Is, IndexOf;
    var e := IndexOf(t, '=');
    if 0 < e < |t| {
      var k, v := t[..e], t[e + 1..];
      assert forall i :: 0 <= i < |k| ==> k[i] == t[i];
      assert forall i :: 0 <= i < |v| ==> v[i] == t[e + 1 + i];
    }
  }

  /** Whatever the tokens, what is read from them is a record. */
  lemma {:induction false} ReadPairsIsRecord(d: Dict, tokens: seq<string>)
    requires IsRecord(d) && forall t :: t in tokens ==> AllIn(Visible, t)
    ensures IsRecord(ReadPairs(d, tokens))
    decreases |tokens|
  {
    hide IsRecord, Put, IsKey, AllIn;
    if tokens != [] {
      var t, rest := tokens[0], tokens[1..];
      assert t in tokens && forall x :: x in rest ==> x in tokens;
      var e := IndexOf(t, '=');
      TokenParts(t);
      if 0 < e < |t| {
        PutKeepsRecord(d, t[..e], t[e + 1..]);
        ReadPairsIsRecord(Put(d, t[..e], t[e + 1..]), rest);
      } else {
        ReadPairsIsRecord(d, rest);
      }
    }
  }

  // ----- reading more pairs into a dict ------------------------------------------------

  ghost predicate DistinctKeys(d: Dict) {
    forall i, j :: 0 <= i < j < |d| ==> d[i].key != d[j].key
  }

  predicate IsPair(t: string) {
    0 < IndexOf(t, '=') < |t|
  }

  function PairOf(t: string): Field
    requires IsPair(t)
  {
    Field(t[..IndexOf(t, '=')], t[IndexOf(t, '=') + 1..])
  }

  /** The value the last of some tokens assigns to a key. */
  function LastValue(tokens: seq<string>, k: string): Option<string> {
    if tokens == [] then None
    else
      var later := LastValue(tokens[1..], k);
      if later.Some? then later
      else if IsPair(tokens[0]) && PairOf(tokens[0]).key == k then Some(PairOf(tokens[0]).value)
      else None
  }

  lemma PutFacts(d: Dict, k: string, v: string)
    requires DistinctKeys(d)
    ensures var p := Put(d, k, v);
            && DistinctKeys(p) && |d| <= |p| && (forall i :: 0 <= i < |d| ==> p[i].key == d[i].key)
            && forall f :: f in p <==> f == Field(k, v) || (f.key != k && f in d)
  {
    hide Put;
    if HasKey(d, k) {
      var i :| 0 <= i < |d| && d[i].key == k;
      PutKnown(d, k, v, i);
      var p := d[i := Field(k, v)];
      assert p[i] == Field(k, v);
      forall f: Field | f.key != k && f in d ensures f in p {
        var j :| 0 <= j < |d| && d[j] == f;
        assert p[j] == f;
      }
    } else {
      PutNew(d, k, v);
    }
  }

  lemma ReadPairsStep(d: Dict, tokens: seq<string>)
    requires tokens != []
    ensures var t, rest := tokens[0], tokens[1..];
            ReadPairs(d, tokens)
            == if IsPair(t) then ReadPairs(Put(d, PairOf(t).key, PairOf(t).value), rest) else ReadPairs(d, rest)
  {
    hide Put;
  }

  /** Known keys keep their places, and each key ends with the last value assigned to it. */
  lemma {:induction false} ReadPairsFacts(d: Dict, tokens: seq<string>)
    requires DistinctKeys(d)
    ensures var p := ReadPairs(d, tokens);
            && DistinctKeys(p) && |d| <= |p| && (forall i :: 0 <= i < |d| ==> p[i].key == d[i].key)
            && forall f :: f in p <==>
                 LastValue(tokens, f.key) == Some(f.value) || (LastValue(tokens, f.key) == None && f in d)
    decreases |tokens|
  {
    if tokens == [] {
      assert ReadPairs(d, tokens) == d;
    } else {
      ReadPairsStep(d, tokens);
      hide ReadPairs, Put, DistinctKeys, IsPair, PairOf;
      var rest := tokens[1..];
      if IsPair(tokens[0]) {
        var f := PairOf(tokens[0]);
        PutFacts(d, f.key, f.value);
        ReadPairsFacts(Put(d, f.key, f.value), rest);
      } else {
        ReadPairsFacts(d, rest);
      }
    }
  }

  /** Reading tokens into a dict overlays it with what the tokens are by themselves. */
  lemma Overlay(d: Dict, tokens: seq<string>)
    requires DistinctKeys(d)
    ensures var p, e := ReadPairs(d, tokens), ReadPairs([], tokens);
            && DistinctKeys(p) && |d| <= |p| && (forall i :: 0 <= i < |d| ==> p[i].key == d[i].key)
            && forall f :: f in p <==> f in e || (f in d && !HasKey(e, f.key))
  {
    hide ReadPairs, LastValue;
    ReadPairsFacts(d, tokens);
    ReadPairsFacts([], tokens);
    var p, e := ReadPairs(d, tokens), ReadPairs([], tokens);
    forall f: Field ensures f in p <==> f in e || (f in d && !HasKey(e, f.key)) {
      LastIsKey(e, tokens, f.key);
    }
  }

  lemma LastIsKey(e: Dict, tokens: seq<string>, k: string)
    requires forall f :: f in e <==> LastValue(tokens, f.key) == Some(f.value)
    ensures LastValue(tokens, k).Some? <==> HasKey(e, k)
  {
    hide LastValue;
    if LastValue(tokens, k).Some? {
      assert Field(k, LastValue(tokens, k).value) in e;
    }
    forall i | 0 <= i < |e| && e[i].key == k ensures LastValue(tokens, k).Some? {
      assert e[i] in e;
    }
  }

  lemma SameKeySamePlace(d: Dict, i: nat, j: nat)
    requires DistinctKeys(d) && i < |d| && j < |d| && d[i].key == d[j].key
    ensures i == j
  {
  }

  /** A dict that keeps the places of a list's front and holds only the list is the list, as far as it goes. */
  lemma PinnedByKeys(p: Dict, d: Dict, l: Dict)
    requires DistinctKeys(p) && DistinctKeys(l) && |d| <= |p| && d <= l && |l| <= |d| + 1
    requires (forall i :: 0 <= i < |d| ==> p[i].key == d[i].key) && forall f :: f in p ==> f in l
    ensures p == d || p == l
  {
    hide DistinctKeys;
    forall i | 0 <= i < |d| ensures p[i] == d[i] {
      assert p[i] in p;
      var j :| 0 <= j < |l| && l[j] == p[i];
      SameKeySamePlace(l, i, j);
    }
    forall i | |d| <= i < |p| ensures |l| == |d| + 1 && p[i] == l[|d|] {
      assert p[i] in p;
      var j :| 0 <= j < |l| && l[j] == p[i];
      if j < |d| {
        SameKeySamePlace(p, i, j);
      }
    }
    if |d| + 1 < |p| {
      SameKeySamePlace(p, |d|, |d| + 1);
    } else if |p| == |d| {
      assert p == d;
    } else {
      var f := p[|d|];
      assert f == l[|d|];
      assert l == d + [f] && p == d + [f];
    }
  }

  // ----- a space-separated tail of pairs -------------------------------------------

  function PairsTail(fields: seq<Field>): string {
    if fields == [] then "" else " " + (Pair(fields[0]) + PairsTail(fields[1..]))
  }

  lemma {:induction false} SplitPairsTail(fields: seq<Field>, more: string)
    requires IsRecord(fields)
    requires more != "" ==> Is(Space, more[0])
    ensures Split(PairsTail(fields) + more) == Pairs(fields) + Split(more)
    decreases |fields|
  {
    hide *;
    if fields == [] {
      PairsOfNone(Split(more));
      TailOfNothing(more);
    } else {
      var f, rest := fields[0], fields[1..];
      var after := PairsTail(rest) + more;
      TailFirst(fields, more);
      SplitAfterSpace(" ", Pair(f) + after);
      FirstPairVisible(fields);
      SplitToken(Pair(f), after);
      SplitPairsTail(rest, more);
      PairsFirst(fields, Split(more));
    }
  }

  lemma TailOfNothing(more: string)
    ensures PairsTail([]) + more == more
  {
  }

  lemma TailIsSpaced(fields: seq<Field>)
    ensures PairsTail(fields) != "" ==> PairsTail(fields)[0] == ' '
  {
  }

  lemma Regroup(p: string, t: string, more: string)
    ensures " " + (p + t) + more == " " + (p + (t + more))
    ensures t + more != "" ==> (t + more)[0] == if t != "" then t[0] else more[0]
  {
  }

  lemma TailFirst(fields: seq<Field>, more: string)
    requires fields != [] && (more != "" ==> Is(Space, more[0]))
    ensures var after := PairsTail(fields[1..]) + more;
            && PairsTail(fields) + more == " " + (Pair(fields[0]) + after)
            && (after != "" ==> Is(Space, after[0])) && AllIn(Space, " ")
  {
    var p, t := Pair(fields[0]), PairsTail(fields[1..]);
    assert PairsTail(fields) == " " + (p + t);
    hide PairsTail, Pair;
    Regroup(p, t, more);
    TailIsSpaced(fields[1..]);
  }

  lemma FirstPairVisible(fields: seq<Field>)
    requires IsRecord(fields) && fields != []
    ensures Pair(fields[0]) != "" && AllIn(Visible, Pair(fields[0])) && IsRecord(fields[1..])
  {
    PairIsVisible(fields[0].key, fields[0].value);
    RecordRest(fields);
  }
}
