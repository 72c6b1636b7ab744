/**
 The discovery line: include/mcrpc/DiscoverBuilder.h with its stop-at-budget rule,
 McRpc::buildDiscover, and the Python reader parse_discover.
 */
module Discover {
  import opened Text
  import opened Buffers
  import opened Tokens
  import opened Uptime
  import Csv

  const MAX_FIELDS := 24
  const VALUE_CHARS := 71

  // ----- the builder ---------------------------------------------------------------

  /** What writeTo appends for the fields, piece by piece. */
  function Pieces(fields: seq<Field>): seq<string> {
    if fields == [] then [] else [" ", fields[0].key, "=", fields[0].value] + Pieces(fields[1..])
  }

  /** Appending piece by piece up to the first that does not fit. */
  function Emit(text: string, pieces: seq<string>): string
    decreases |pieces|
  {
    if pieces == [] || !Fits(text, pieces[0]) then text else Emit(text + pieces[0], pieces[1..])
  }

  function Device(name: string): (s: string)
    ensures s != ""
  {
    if name == "" then "node" else name
  }

  function WrittenLine(name: string, fields: seq<Field>): string {
    Emit(Device(name), Pieces(fields))
  }

  class DiscoverBuilder {
    var name: string
    const keys: array<string>
    const values: array<string>
    var count: nat

    ghost predicate Valid()
      reads this, keys, values
    {
      && keys.Length == MAX_FIELDS && values.Length == MAX_FIELDS && keys != values && count <= MAX_FIELDS
      && NoNul(name) && |name| <= VALUE_CHARS
      && forall i :: 0 <= i < count ==> NoNul(keys[i]) && NoNul(values[i])
    }

    ghost function Fields(): (fields: seq<Field>)
      requires Valid()
      reads this, keys, values
      ensures |fields| == count
    {
      seq(count, i requires 0 <= i < count reads this, keys, values
                   requires keys.Length == values.Length == MAX_FIELDS && count <= MAX_FIELDS
                   => Field(keys[i], values[i]))
    }

    constructor ()
      ensures Valid() && Fields() == [] && name == "" && fresh(keys) && fresh(values)
    {
      name, count := "", 0;
      keys := new string[MAX_FIELDS](_ => "");
      values := new string[MAX_FIELDS](_ => "");
    }

    method Reset()
      requires Valid()
      modifies this
      ensures Valid() && Fields() == [] && name == ""
    {
      name, count := "", 0;
    }

    method SetNodeName(n: CString)
      requires Valid() && (n.Str? ==> NoNul(n.text))
      modifies this`name
      ensures Valid() && Fields() == old(Fields()) && name == if n.Str? then Cut(n.text, VALUE_CHARS) else ""
    {
      name := if n.Str? then Cut(n.text, VALUE_CHARS) else "";
    }

    method Add(key: CString, value: CString) returns (ok: bool)
      requires Valid() && (key.Str? ==> NoNul(key.text)) && (value.Str? ==> NoNul(value.text))
      modifies this`count, keys, values
      ensures Valid()
      ensures ok <==> key.Str? && value.Str? && |old(Fields())| < MAX_FIELDS
      ensures Fields() == old(Fields()) + if ok then [Field(key.text, Cut(value.text, VALUE_CHARS))] else []
    {
      if key.Null? || value.Null? || count >= MAX_FIELDS {
        return false;
      }
      keys[count] := key.text;
      values[count] := Cut(value.text, VALUE_CHARS);
      count := count + 1;
      return true;
    }

    method WriteTo(reply: ReplyBuffer)
      requires Valid() && reply.Valid()
      modifies reply, reply.data
      ensures reply.Valid() && reply.Text() == WrittenLine(name, Fields())
    {
      hide Emit, Pieces, Fits, Fields;
      reply.Clear();
      DeviceFits(name);
      var _ := reply.Append(Str(if name != "" then name else "node"));
      WriteFields(reply);
    }

    method WriteFields(reply: ReplyBuffer)
      requires Valid() && reply.Valid()
      modifies reply, reply.data
      ensures reply.Valid() && reply.Text() == Emit(old(reply.Text()), Pieces(Fields()))
    {
      hide Emit, Pieces, EmitField, Fits, Fields, NoNul;
      ghost var fields := Fields();
      ghost var whole := Emit(reply.Text(), Pieces(fields));
      assert fields[0..] == fields;
      for i := 0 to count
        invariant reply.Valid() && Valid() && Fields() == fields
        invariant Emit(reply.Text(), Pieces(fields[i..])) == whole
      {
        var k, v := FieldAt(i);
        assert fields[i..][0] == fields[i] && fields[i..][1..] == fields[i + 1..];
        var ok := WriteField(reply, k, v, fields[i..]);
        if !ok {
          return;
        }
      }
      NothingLeft(reply.Text(), fields);
    }

    method FieldAt(i: nat) returns (k: string, v: string)
      requires Valid() && i < count
      ensures NoNul(k) && NoNul(v) && i < |Fields()| && Fields()[i] == Field(k, v)
    {
      k, v := keys[i], values[i];
    }
  }

  lemma DeviceFits(name: string)
    requires |name| <= VALUE_CHARS
    ensures Fits("", Device(name)) && Push("", Device(name)) == Device(name)
  {
    assert "" + Device(name) == Device(name);
  }

  lemma NothingLeft(text: string, fields: seq<Field>)
    ensures Emit(text, Pieces(fields[|fields|..])) == text
  {
  }

  /** One field's four appends, each tried only if the one before it fitted. */
  method WriteField(reply: ReplyBuffer, k: string, v: string, ghost fields: seq<Field>) returns (ok: bool)
    requires reply.Valid() && NoNul(k) && NoNul(v) && fields != [] && fields[0] == Field(k, v)
    modifies reply, reply.data
    ensures reply.Valid() && FieldWritten(reply.Text(), ok) == EmitField(old(reply.Text()), k, v)
    ensures old(Emit(reply.Text(), Pieces(fields)))
         == if ok then Emit(reply.Text(), Pieces(fields[1..])) else reply.Text()
  {
    hide Emit, Pieces;
    EmitByField(reply.Text(), fields);
    ok := reply.AppendChar(' ');
    if !ok {
      return;
    }
    ok := reply.Append(Str(k));
    if !ok {
      return;
    }
    ok := reply.AppendChar('=');
    if !ok {
      return;
    }
    ok := reply.Append(Str(v));
  }

  datatype FieldWritten = FieldWritten(text: string, whole: bool)

  function EmitField(text: string, k: string, v: string): FieldWritten {
    if !Fits(text, " ") then FieldWritten(text, false)
    else if !Fits(text + " ", k) then FieldWritten(text + " ", false)
    else if !Fits(text + " " + k, "=") then FieldWritten(text + " " + k, false)
    else if !Fits(text + " " + k + "=", v) then FieldWritten(text + " " + k + "=", false)
    else FieldWritten(text + " " + k + "=" + v, true)
  }

  /** Writing piece by piece is writing field by field. */
  lemma EmitByField(text: string, fields: seq<Field>)
    requires fields != []
    ensures var f := EmitField(text, fields[0].key, fields[0].value);
            Emit(text, Pieces(fields)) == if f.whole then Emit(f.text, Pieces(fields[1..])) else f.text
  {
    hide *;
    var k, v, rest := fields[0].key, fields[0].value, Pieces(fields[1..]);
    EmitFieldIs(text, k, v);
    PiecesStep(fields);
    EmitStep(text, " ", [k] + (["="] + ([v] + rest)));
    EmitStep(text + " ", k, ["="] + ([v] + rest));
    EmitStep(text + " " + k, "=", [v] + rest);
    EmitStep(text + " " + k + "=", v, rest);
  }

  lemma EmitFieldIs(text: string, k: string, v: string)
    ensures EmitField(text, k, v)
         == if !Fits(text, " ") then FieldWritten(text, false)
            else if !Fits(text + " ", k) then FieldWritten(text + " ", false)
            else if !Fits(text + " " + k, "=") then FieldWritten(text + " " + k, false)
            else if !Fits(text + " " + k + "=", v) then FieldWritten(text + " " + k + "=", false)
            else FieldWritten(text + " " + k + "=" + v, true)
  {
  }

  lemma PiecesStep(fields: seq<Field>)
    requires fields != []
    ensures Pieces(fields)
         == [" "] + ([fields[0].key] + (["="] + ([fields[0].value] + Pieces(fields[1..]))))
  {
  }

  lemma EmitStep(text: string, p: string, rest: seq<string>)
    ensures Emit(text, [p] + rest) == if Fits(text, p) then Emit(text + p, rest) else text
  {
    assert ([p] + rest)[1..] == rest;
  }

  // ----- how much is written ----------------------------------------------------------

  function Concat(pieces: seq<string>): string {
    if pieces == [] then "" else pieces[0] + Concat(pieces[1..])
  }

  lemma ConcatStep(p: string, rest: seq<string>, j: nat)
    requires 0 < j <= |rest| + 1
    ensures Concat(([p] + rest)[..j]) == p + Concat(rest[..j - 1])
  {
    assert ([p] + rest)[..j] == [p] + rest[..j - 1];
    assert ([p] + rest[..j - 1])[1..] == rest[..j - 1];
  }

  /** The first j pieces fit the buffer behind text. */
  predicate FrontFits(text: string, pieces: seq<string>, j: nat)
    requires j <= |pieces|
  {
    |text + Concat(pieces[..j])| < MAX_REPLY
  }

  lemma FrontFitsStep(text: string, p: string, rest: seq<string>, j: nat)
    requires 0 < j <= |rest| + 1
    ensures text + Concat(([p] + rest)[..j]) == text + p + Concat(rest[..j - 1])
    ensures FrontFits(text, [p] + rest, j) <==> FrontFits(text + p, rest, j - 1)
    ensures FrontFits(text, [p] + rest, j) ==> Fits(text, p)
  {
    hide Concat;
    ConcatStep(p, rest, j);
    var c := Concat(rest[..j - 1]);
    assert text + (p + c) == text + p + c;
  }

  /** What is written is the longest prefix of the pieces that fits: j pieces fit exactly when j <= k. */
  lemma {:induction false} LongestPrefix(text: string, pieces: seq<string>) returns (k: nat)
    requires |text| < MAX_REPLY
    ensures k <= |pieces| && Emit(text, pieces) == text + Concat(pieces[..k])
    ensures forall j :: 0 <= j <= |pieces| ==> (FrontFits(text, pieces, j) <==> j <= k)
    decreases |pieces|
  {
    NoPieces(text, pieces);
    k := 0;
    if pieces != [] {
      hide Concat, Emit, FrontFits;
      var p, rest := pieces[0], pieces[1..];
      assert pieces == [p] + rest;
      EmitStep(text, p, rest);
      if Fits(text, p) {
        var k' := LongestPrefix(text + p, rest);
        k := k' + 1;
        FrontFitsStep(text, p, rest, k);
      }
      forall j | 0 < j <= |pieces| ensures FrontFits(text, pieces, j) <==> j <= k {
        FrontFitsStep(text, p, rest, j);
      }
    }
  }

  lemma NoPieces(text: string, pieces: seq<string>)
    requires |text| < MAX_REPLY
    ensures text + Concat(pieces[..0]) == text && FrontFits(text, pieces, 0)
    ensures pieces == [] ==> Emit(text, pieces) == text
  {
  }

  // ----- reading it back --------------------------------------------------------------

  datatype ParsedDiscover = ParsedDiscover(id: Option<nat>, device: string, fields: Dict)

  function ParseDiscover(raw: string): ParsedDiscover {
    var tokens := Split(raw);
    var rest := WithoutRequestId(tokens);
    if rest == [] then ParsedDiscover(RequestId(tokens), "", [])
    else ParsedDiscover(RequestId(tokens), rest[0], ReadPairs([], rest[1..]))
  }

  /** The four ways a line can stop inside a field. */
  predicate IsStump(more: string, k: string) {
    more == "" || more == " " || more == " " + k || more == " " + k + "="
  }

  /** How many fields are written whole. */
  function WholeFields(text: string, fields: seq<Field>): (m: nat)
    ensures m <= |fields|
    decreases |fields|
  {
    if fields == [] then 0
    else
      var w := EmitField(text, fields[0].key, fields[0].value);
      if w.whole then 1 + WholeFields(w.text, fields[1..]) else 0
  }

  /** What is left of the first field that is not whole. */
  function StumpOf(text: string, fields: seq<Field>): string
    decreases |fields|
  {
    if fields == [] then ""
    else
      var w := EmitField(text, fields[0].key, fields[0].value);
      if w.whole then StumpOf(w.text, fields[1..]) else Stump(text, fields[0].key, fields[0].value)
  }

  /** The written text is m whole fields, then possibly the stump of one more. */
  predicate IsWritten(text: string, fields: seq<Field>, m: nat, more: string) {
    && m <= |fields| && Emit(text, Pieces(fields)) == text + (PairsTail(fields[..m]) + more)
    && (if m == |fields| then more == "" else IsStump(more, fields[m].key))
    && (m == |fields| <==> |text + PairsTail(fields)| < MAX_REPLY)
  }

  lemma WholeFieldFirst(text: string, fields: seq<Field>, m: nat, more: string)
    requires fields != [] && EmitField(text, fields[0].key, fields[0].value).whole
    requires IsWritten(EmitField(text, fields[0].key, fields[0].value).text, fields[1..], m, more)
    ensures IsWritten(text, fields, m + 1, more)
  {
    hide Emit, PairsTail, EmitField, IsStump, Pieces;
    var w, rest := EmitField(text, fields[0].key, fields[0].value), fields[1..];
    EmitByField(text, fields);
    TailAfter(text, fields);
    assert fields[..m + 1][1..] == rest[..m] && fields[..m + 1][0] == fields[0];
    TailAfter(text, fields[..m + 1]);
    var t, u := PairsTail(fields[..m + 1]), PairsTail(rest[..m]);
    assert text + t == w.text + u;
    assert text + (t + more) == (text + t) + more && w.text + (u + more) == (w.text + u) + more;
  }

  lemma StumpFirst(text: string, fields: seq<Field>)
    requires |text| < MAX_REPLY && fields != [] && !EmitField(text, fields[0].key, fields[0].value).whole
    ensures IsWritten(text, fields, 0, Stump(text, fields[0].key, fields[0].value))
  {
    hide Emit, PairsTail, EmitField, Stump, IsStump, Pieces;
    var more := Stump(text, fields[0].key, fields[0].value);
    EmitByField(text, fields);
    TailAfter(text, fields);
    StumpIsWritten(text, fields[0].key, fields[0].value);
    TailOfNone(fields);
    assert text + ("" + more) == text + more;
  }

  lemma {:induction false} WrittenParts(text: string, fields: seq<Field>) returns (m: nat, more: string)
    requires |text| < MAX_REPLY
    ensures m == WholeFields(text, fields) && more == StumpOf(text, fields) && IsWritten(text, fields, m, more)
    decreases |fields|
  {
    if fields == [] {
      m, more := 0, "";
      assert text + ("" + "") == text && text + "" == text;
    } else {
      hide IsWritten, Stump;
      var w := EmitField(text, fields[0].key, fields[0].value);
      if w.whole {
        TailAfter(text, fields);
        m, more := WrittenParts(w.text, fields[1..]);
        WholeFieldFirst(text, fields, m, more);
        m := m + 1;
      } else {
        m, more := 0, Stump(text, fields[0].key, fields[0].value);
        StumpFirst(text, fields);
      }
    }
  }

  lemma TailOfNone(fields: seq<Field>)
    ensures PairsTail(fields[..0]) == ""
  {
  }

  /** What a field that does not fit leaves behind. */
  function Stump(text: string, k: string, v: string): string {
    if !Fits(text, " ") then ""
    else if !Fits(text + " ", k) then " "
    else if !Fits(text + " " + k, "=") then " " + k
    else " " + k + "="
  }

  lemma StumpIsWritten(text: string, k: string, v: string)
    requires |text| < MAX_REPLY && !EmitField(text, k, v).whole
    ensures EmitField(text, k, v).text == text + Stump(text, k, v) && IsStump(Stump(text, k, v), k)
  {
    assert text + "" == text;
    assert text + " " + k == text + (" " + k);
    assert text + " " + k + "=" == text + (" " + k + "=");
  }

  lemma TailStep(fields: seq<Field>)
    requires fields != []
    ensures PairsTail(fields) == " " + (Pair(fields[0]) + PairsTail(fields[1..]))
  {
  }

  /** The text after one whole field; a field that is not whole does not fit. */
  lemma TailAfter(text: string, fields: seq<Field>)
    requires fields != []
    ensures var f, w := fields[0], EmitField(text, fields[0].key, fields[0].value);
            && (w.whole ==> text + PairsTail(fields) == w.text + PairsTail(fields[1..]) && |w.text| < MAX_REPLY)
            && (!w.whole ==> |text + PairsTail(fields)| >= MAX_REPLY)
  {
    hide PairsTail;
    TailStep(fields);
    var k, v, rest := fields[0].key, fields[0].value, PairsTail(fields[1..]);
    assert text + (" " + (k + "=" + v + rest)) == text + " " + k + "=" + v + rest;
  }

  lemma SplitStump(more: string, k: string)
    requires IsKey(k) && IsStump(more, k)
    ensures Split(more) == if more == " " + k + "=" then [k + "="] else if more == " " + k then [k] else []
  {
    hide Split;
    SplitNothing();
    SplitAfterSpace(" ", "");
    assert " " + "" == " ";
    Alone(k);
    PairIsVisible(k, "");
    assert k + "=" + "" == k + "=";
    Alone(k + "=");
    SplitAfterSpace(" ", k);
    SplitAfterSpace(" ", k + "=");
    assert " " + (k + "=") == " " + k + "=";
  }

  lemma Alone(w: string)
    requires w != "" && AllIn(Visible, w)
    ensures Split(w) == [w]
  {
    hide Split;
    SplitToken(w, "");
    SplitNothing();
    assert w + "" == w;
  }

  lemma RecordFront(fields: seq<Field>, m: nat)
    requires IsRecord(fields) && m <= |fields|
    ensures IsRecord(fields[..m]) && (m < |fields| ==> IsKey(fields[m].key) && !HasKey(fields[..m], fields[m].key))
  {
  }

  /** What the reader can have: the first m fields, and perhaps the next key with no value. */
  ghost predicate IsReading(d: Dict, fields: seq<Field>, m: nat) {
    m <= |fields| && (d == fields[..m] || (m < |fields| && d == fields[..m] + [Field(fields[m].key, "")]))
  }

  /** What a stump adds by itself: pairs that are there already, or the cut key, if new, with no value. */
  predicate AddsNothingElse(front: seq<Field>, k: string, added: Dict) {
    forall f :: f in added ==> f in front || (f == Field(k, "") && !HasKey(front, k))
  }

  /** The stump of field m, read by itself, leaves the m fields before it alone. */
  predicate StumpIsHarmless(fields: seq<Field>, m: nat, more: string) {
    m < |fields| ==> AddsNothingElse(fields[..m], fields[m].key, ReadPairs([], Split(more)))
  }

  lemma OverlayExactly(front: seq<Field>, k: string, tokens: seq<string>)
    requires DistinctKeys(front)
    ensures (ReadPairs(front, tokens) == front || ReadPairs(front, tokens) == front + [Field(k, "")])
       <==> AddsNothingElse(front, k, ReadPairs([], tokens))
  {
    hide ReadPairs;
    Overlay(front, tokens);
    var p, e := ReadPairs(front, tokens), ReadPairs([], tokens);
    var more := front + [Field(k, "")];
    if AddsNothingElse(front, k, e) {
      var l := if HasKey(front, k) then front else more;
      PinnedByKeys(p, front, l);
    }
    if p == front || p == more {
      forall f | f in e ensures f in front || (f == Field(k, "") && !HasKey(front, k)) {
        assert f in p;
        if p == more {
          LastIsNew(front, Field(k, ""));
        }
      }
    }
  }

  lemma LastIsNew(front: seq<Field>, f: Field)
    requires DistinctKeys(front + [f])
    ensures !HasKey(front, f.key)
  {
    var all := front + [f];
    forall i | 0 <= i < |front| ensures front[i].key != f.key { assert all[i].key != all[|front|].key; }
  }

  lemma RecordKeysDiffer(fields: seq<Field>)
    requires IsRecord(fields)
    ensures DistinctKeys(fields)
  {
  }

  lemma ReadTail(fields: seq<Field>, m: nat, more: string)
    requires m <= |fields| && IsRecord(fields[..m]) && (m == |fields| ==> more == "")
    ensures IsReading(ReadPairs([], Pairs(fields[..m]) + Split(more)), fields, m) <==> StumpIsHarmless(fields, m, more)
  {
    hide Split, Pairs, ReadPairs, IsRecord, AddsNothingElse;
    var front := fields[..m];
    forall i | 0 <= i < |front| ensures !HasKey([], front[i].key) {}
    ReadPairsOf([], front, Split(more));
    assert [] + front == front;
    if m < |fields| {
      RecordKeysDiffer(front);
      OverlayExactly(front, fields[m].key, Split(more));
    } else {
      SplitNothing();
      ReadNoMore(front);
    }
  }

  lemma ReadNoMore(d: Dict)
    ensures ReadPairs(d, []) == d
  {
  }

  lemma LineTokens(name: string, front: seq<Field>, more: string)
    requires name != "" && AllIn(Visible, name) && IsRecord(front)
    requires more != "" ==> Is(Space, more[0])
    ensures Split(name + (PairsTail(front) + more)) == [name] + (Pairs(front) + Split(more))
  {
    hide Split, Pairs, Pair, IsKey;
    TailIsSpaced(front);
    SplitToken(name, PairsTail(front) + more);
    SplitPairsTail(front, more);
  }

  lemma StumpIsSpaced(more: string, k: string)
    requires IsStump(more, k)
    ensures more != "" ==> Is(Space, more[0])
  {
  }

  /** The tokens of a written line, when its name and its whole fields are fit to be read. */
  lemma WrittenTokens(device: string, fields: seq<Field>) returns (more: string)
    requires device != "" && |device| < MAX_REPLY && AllIn(Visible, device)
    requires var m := WholeFields(device, fields); IsRecord(fields[..m])
    ensures var m := WholeFields(device, fields);
            && more == StumpOf(device, fields) && (m == |fields| ==> more == "")
            && Split(Emit(device, Pieces(fields))) == [device] + (Pairs(fields[..m]) + Split(more))
  {
    hide Split, Pairs, Emit, Pieces, PairsTail, IsRecord, IsStump, WholeFields;
    var m;
    m, more := WrittenParts(device, fields);
    if m < |fields| {
      StumpIsSpaced(more, fields[m].key);
    }
    LineTokens(device, fields[..m], more);
  }

  /** Anything read is a record, so its first fields are. */
  lemma ReadingIsRecord(tokens: seq<string>, fields: seq<Field>, m: nat)
    requires forall t :: t in tokens ==> AllIn(Visible, t)
    requires IsReading(ReadPairs([], tokens), fields, m)
    ensures IsRecord(fields[..m])
  {
    hide IsRecord, ReadPairs;
    assert IsRecord([]) by { NothingIsRecord(); }
    ReadPairsIsRecord([], tokens);
    var d := ReadPairs([], tokens);
    RecordFront(d, m);
    assert d[..m] == fields[..m];
  }

  lemma NothingIsRecord()
    ensures IsRecord([])
  {
  }

  /** The reader has the id, the device name, and what it can have of the fields. */
  ghost predicate ReadsBack(p: ParsedDiscover, id: Option<nat>, name: string, fields: seq<Field>) {
    p.id == id && p.device == Device(name) && IsReading(p.fields, fields, WholeFields(Device(name), fields))
  }

  lemma DeviceIsShort(name: string)
    requires |name| <= VALUE_CHARS
    ensures |Device(name)| < MAX_REPLY
  {
  }

  /**
   Exactly when what is written reads back: the name is one visible word, the fields
   written whole are a record (distinct non-empty keys without '=', no whitespace in
   any key or value), and the stump of the field that was cut leaves them alone.
   */
  ghost predicate IsReadable(name: string, fields: seq<Field>) {
    var m := WholeFields(Device(name), fields);
    AllIn(Visible, Device(name)) && IsRecord(fields[..m]) && StumpIsHarmless(fields, m, StumpOf(Device(name), fields))
  }

  /** The tokens of a written line, read after its tag if it has one. */
  lemma ReadableTokens(name: string, fields: seq<Field>)
    requires |name| <= VALUE_CHARS
    ensures var tokens := Split(WrittenLine(name, fields));
            && (IsReadable(name, fields) ==> tokens != [] && tokens[0] == Device(name))
            && (tokens != [] && tokens[0] == Device(name) ==>
                  (IsReading(ReadPairs([], tokens[1..]), fields, WholeFields(Device(name), fields))
                   <==> IsReadable(name, fields)))
  {
    hide Split, Pairs, ReadPairs, Emit, Pieces, PairsTail, IsRecord, WholeFields, StumpOf, IsReading, StumpIsHarmless;
    var device, m := Device(name), WholeFields(Device(name), fields);
    DeviceIsShort(name);
    var tokens := Split(WrittenLine(name, fields));
    TokensAreVisible(WrittenLine(name, fields));
    if tokens != [] && tokens[0] == device && IsReading(ReadPairs([], tokens[1..]), fields, m) {
      assert tokens[0] in tokens;
      ReadingIsRecord(tokens[1..], fields, m);
    }
    if AllIn(Visible, device) && IsRecord(fields[..m]) {
      var more := WrittenTokens(device, fields);
      assert tokens[0] == device && tokens[1..] == Pairs(fields[..m]) + Split(more);
      ReadTail(fields, m, more);
    }
  }

  /**
   For any name and fields the reader gets the device name and the fields written
   whole in order, plus at most the next key with an empty value, exactly when the
   line is readable and the name is no tag. All fields are whole exactly when the
   line fits.
   */
  lemma TruncationIsSafe(name: string, fields: seq<Field>)
    requires |name| <= VALUE_CHARS
    ensures ReadsBack(ParseDiscover(WrittenLine(name, fields)), None, name, fields)
       <==> IsReadable(name, fields) && !HasRequestId([Device(name)])
    ensures WholeFields(Device(name), fields) == |fields| <==> |Device(name) + PairsTail(fields)| < MAX_REPLY
  {
    hide Split, ReadPairs, Emit, Pieces, PairsTail, WholeFields, IsReading, IsReadable, WrittenLine;
    DeviceIsShort(name);
    var m, _ := WrittenParts(Device(name), fields);
    ReadableTokens(name, fields);
    TagIsFirst(Split(WrittenLine(name, fields)));
  }

  lemma TagIsFirst(tokens: seq<string>)
    ensures tokens != [] ==> (HasRequestId(tokens) <==> HasRequestId([tokens[0]]))
    ensures tokens == [] ==> !HasRequestId(tokens)
  {
  }

  /** The same line behind a reply's `#id ` tag, where any visible name will do. */
  lemma TaggedTruncationIsSafe(id: nat, name: string, fields: seq<Field>)
    requires |name| <= VALUE_CHARS
    ensures ReadsBack(ParseDiscover("#" + Decimal(id) + " " + WrittenLine(name, fields)), Some(id), name, fields)
       <==> IsReadable(name, fields)
  {
    hide Split, ReadPairs, WholeFields, IsReading, IsReadable, WrittenLine, Decimal, HasRequestId;
    ReadableTokens(name, fields);
    SplitTagged(id, WrittenLine(name, fields));
    DecimalTag(id, Split(WrittenLine(name, fields)));
  }

  /** A field cut right after its '=' whose key an earlier field has with a value. */
  predicate Erases(front: seq<Field>, k: string, more: string) {
    more == " " + k + "=" && exists i :: 0 <= i < |front| && front[i].key == k && front[i].value != ""
  }

  lemma BareKeyReads(k: string)
    requires IsKey(k)
    ensures ReadPairs([], [k]) == [] && ReadPairs([], [k + "="]) == [Field(k, "")]
  {
    IndexIs(k, '=', |k|);
    IndexIs(k + "=", '=', |k|);
    assert (k + "=")[..|k|] == k && (k + "=")[|k| + 1..] == "";
  }

  lemma PairsOfStump(more: string, k: string)
    requires IsKey(k) && IsStump(more, k)
    ensures ReadPairs([], Split(more)) == if more == " " + k + "=" then [Field(k, "")] else []
  {
    hide Split, ReadPairs;
    SplitStump(more, k);
    BareKeyReads(k);
    ReadNoMore([]);
  }

  /** With a cut key as readers understand keys, the stump does harm exactly when it erases a value. */
  lemma HarmIsErasure(fields: seq<Field>, m: nat, more: string)
    requires m < |fields| && IsRecord(fields[..m]) && IsKey(fields[m].key) && IsStump(more, fields[m].key)
    ensures StumpIsHarmless(fields, m, more) <==> !Erases(fields[..m], fields[m].key, more)
  {
    hide Split, ReadPairs, IsKey;
    var front, k := fields[..m], fields[m].key;
    PairsOfStump(more, k);
    if more == " " + k + "=" {
      RecordKeysDiffer(front);
      OnlyEmptyOrNew(front, k);
    }
  }

  lemma OnlyEmptyOrNew(front: seq<Field>, k: string)
    requires DistinctKeys(front)
    ensures Field(k, "") in front || !HasKey(front, k) <==>
            !exists i :: 0 <= i < |front| && front[i].key == k && front[i].value != ""
  {
    if HasKey(front, k) {
      var i :| 0 <= i < |front| && front[i].key == k;
      assert front[i] in front;
    }
  }

  lemma FieldIsWhole(text: string, k: string, v: string)
    ensures |text| + |k| + |v| + 2 < MAX_REPLY ==> EmitField(text, k, v) == FieldWritten(text + " " + k + "=" + v, true)
    ensures |text| + |k| + 2 < MAX_REPLY <= |text| + |k| + |v| + 2 ==>
              !EmitField(text, k, v).whole && Stump(text, k, v) == " " + k + "="
  {
  }

  lemma ThreeFields(text: string, f: Field, g: Field, h: Field)
    requires |text| + |f.key| + |f.value| + |g.key| + |g.value| + |h.key| + 6 < MAX_REPLY
    requires |text| + |f.key| + |f.value| + |g.key| + |g.value| + |h.key| + |h.value| + 6 >= MAX_REPLY
    ensures WholeFields(text, [f, g, h]) == 2 && StumpOf(text, [f, g, h]) == " " + h.key + "="
  {
    hide EmitField, Stump;
    FieldIsWhole(text, f.key, f.value);
    var t := text + " " + f.key + "=" + f.value;
    FieldIsWhole(t, g.key, g.value);
    var u := t + " " + g.key + "=" + g.value;
    FieldIsWhole(u, h.key, h.value);
    assert WholeFields(u, [h]) == 0 && StumpOf(u, [h]) == " " + h.key + "=";
    assert [g, h][1..] == [h];
    assert WholeFields(t, [g, h]) == 1 && StumpOf(t, [g, h]) == " " + h.key + "=";
    assert [f, g, h][1..] == [g, h];
  }

  /**
   Truncation can do harm: three fields of 71 characters, the last with the key of
   the first, are written up to the third '=', and the reader finds the first one empty.
   */
  lemma RepeatedKeyErases(x: string, y: string, z: string)
    requires |x| == VALUE_CHARS && |y| == VALUE_CHARS && |z| == VALUE_CHARS
    ensures var fields := [Field("a", x), Field("b", y), Field("a", z)];
            !ReadsBack(ParseDiscover(WrittenLine("n", fields)), None, "n", fields)
  {
    hide WrittenLine, ParseDiscover, ReadsBack, IsRecord, WholeFields, StumpOf, StumpIsHarmless, HasRequestId;
    var fields := [Field("a", x), Field("b", y), Field("a", z)];
    ThreeFields("n", fields[0], fields[1], fields[2]);
    TruncationIsSafe("n", fields);
    if IsRecord(fields[..2]) {
      assert " " + "a" + "=" == " a=" && IsKey("a");
      HarmIsErasure(fields, 2, " a=");
      assert fields[..2][0] == Field("a", x);
    }
  }

  /**
   Why values must have no whitespace: a value holding ` k=v` is written like two
   fields, so no reader can tell the two builders apart.
   */
  lemma SpacedValueLooksLikeTwoFields(name: string, k: string, v: string, k': string, v': string)
    requires var two := [Field(k, v), Field(k', v')];
             |name| <= VALUE_CHARS && |Device(name) + PairsTail(two)| < MAX_REPLY
    ensures WrittenLine(name, [Field(k, v + " " + k' + "=" + v')]) == WrittenLine(name, [Field(k, v), Field(k', v')])
  {
    hide Emit, Pieces, IsStump, PairsTail;
    var one, two := [Field(k, v + " " + k' + "=" + v')], [Field(k, v), Field(k', v')];
    SameTails(k, v, k', v');
    var m1, more1 := WrittenParts(Device(name), one);
    var m2, more2 := WrittenParts(Device(name), two);
    assert one[..1] == one && two[..2] == two;
  }

  lemma SameTails(k: string, v: string, k': string, v': string)
    ensures PairsTail([Field(k, v + " " + k' + "=" + v')]) == PairsTail([Field(k, v), Field(k', v')])
  {
    var one, two := [Field(k, v + " " + k' + "=" + v')], [Field(k, v), Field(k', v')];
    TailStep(one);
    TailStep(two);
    TailStep(two[1..]);
    assert one[1..] == [] && two[1..][1..] == [];
    assert " " + (k + "=" + (v + " " + k' + "=" + v') + "") == " " + (k + "=" + v + (" " + (k' + "=" + v' + "")));
  }

  // ----- McRpc::buildDiscover -----------------------------------------------------------

  /** The node's identity and what its features would add. */
  datatype Identity = Identity(
    name: string, id: string, firmware: string, tag: string, profile: string,
    uptime: Option<nat>, caps: seq<CString>, contributions: seq<Field>)

  predicate IsIdentity(n: Identity) {
    && NoNul(n.name) && NoNul(n.id) && NoNul(n.firmware) && NoNul(n.tag) && NoNul(n.profile)
    && (n.uptime.Some? ==> n.uptime.value < 0x1_0000_0000)
    && (forall c :: c in n.caps && c.Str? ==> NoNul(c.text)) && |n.caps| <= Csv.MAX_TOKENS
    && forall i :: 0 <= i < |n.contributions| ==> NoNul(n.contributions[i].key) && NoNul(n.contributions[i].value)
  }

  const PROTOCOL_VERSION := "1.2"
  const CSV_BYTES := 96

  function Kept(key: string, value: string): Field {
    Field(key, Cut(value, VALUE_CHARS))
  }

  function IdFields(n: Identity): seq<Field> {
    if n.id != "" then [Kept("id", ShortId8(n.id))] else []
  }

  function TagFields(n: Identity): seq<Field> {
    var tag := if n.tag != "" then n.tag else n.profile;
    if tag != "" then [Kept("tag", tag)] else []
  }

  function UptimeFields(n: Identity): seq<Field> {
    if n.uptime.Some? then [Kept("up", FormatUptime(n.uptime.value))] else []
  }

  /** Capabilities are left out when their text does not fit its buffer. */
  function CapsFields(n: Identity): seq<Field> {
    var text := Csv.CsvText(n.caps);
    if n.caps != [] && |text| < CSV_BYTES then [Kept("caps", text)] else []
  }

  /** The fields in the order they are added, before those of the features. */
  function DiscoverFields(n: Identity): seq<Field> {
    IdFields(n) + [Kept("fw", n.firmware)] + [Kept("v", PROTOCOL_VERSION)] +
    TagFields(n) + UptimeFields(n) + CapsFields(n)
  }

  function Contributed(fields: seq<Field>, more: seq<Field>): seq<Field>
    decreases |more|
  {
    if more == [] then fields
    else Contributed(if |fields| < MAX_FIELDS then fields + [Kept(more[0].key, more[0].value)] else fields, more[1..])
  }

  function AllFields(n: Identity): seq<Field> {
    Contributed(DiscoverFields(n), n.contributions)
  }

  method AddKept(b: DiscoverBuilder, key: string, value: string)
    requires b.Valid() && NoNul(key) && NoNul(value) && |b.Fields()| < MAX_FIELDS
    modifies b`count, b.keys, b.values
    ensures b.Valid() && b.Fields() == old(b.Fields()) + [Kept(key, value)]
  {
    var _ := b.Add(Str(key), Str(value));
  }

  method AddId(b: DiscoverBuilder, n: Identity)
    requires b.Valid() && IsIdentity(n) && |b.Fields()| < MAX_FIELDS
    modifies b`count, b.keys, b.values
    ensures b.Valid() && b.Fields() == old(b.Fields()) + IdFields(n)
  {
    hide ShortId8;
    if n.id != "" {
      var id8 := new char[9];
      var ok := ShortId8Into(Str(n.id), id8);
      AddKept(b, "id", CStr(id8[..]));
    }
  }

  method AddTag(b: DiscoverBuilder, n: Identity)
    requires b.Valid() && IsIdentity(n) && |b.Fields()| < MAX_FIELDS
    modifies b`count, b.keys, b.values
    ensures b.Valid() && b.Fields() == old(b.Fields()) + TagFields(n)
  {
    var tag := if n.tag != "" then n.tag else n.profile;
    if tag != "" {
      AddKept(b, "tag", tag);
    }
  }

  method AddUptime(b: DiscoverBuilder, n: Identity)
    requires b.Valid() && IsIdentity(n) && |b.Fields()| < MAX_FIELDS
    modifies b`count, b.keys, b.values
    ensures b.Valid() && b.Fields() == old(b.Fields()) + UptimeFields(n)
  {
    hide FormatUptime;
    if n.uptime.Some? {
      var up := new char[16];
      var ok := FormatUptimeInto(n.uptime.value, up);
      SixteenBytesSuffice(n.uptime.value);
      AddKept(b, "up", CStr(up[..]));
    }
  }

  method AddCaps(b: DiscoverBuilder, n: Identity)
    requires b.Valid() && IsIdentity(n) && |b.Fields()| < MAX_FIELDS
    modifies b`count, b.keys, b.values
    ensures b.Valid() && b.Fields() == old(b.Fields()) + CapsFields(n)
  {
    hide Csv.Join, Csv.CsvTokens, Csv.Joined;
    if n.caps != [] {
      var buf := new char[CSV_BYTES];
      var ok := Csv.CanonicalizeCsv(Some(n.caps), buf);
      if ok {
        AddKept(b, "caps", CStr(buf[..]));
      }
    }
  }

  method AddContributions(b: DiscoverBuilder, more: seq<Field>)
    requires b.Valid() && forall i :: 0 <= i < |more| ==> NoNul(more[i].key) && NoNul(more[i].value)
    modifies b`count, b.keys, b.values
    ensures b.Valid() && b.Fields() == Contributed(old(b.Fields()), more)
  {
    ghost var whole := Contributed(b.Fields(), more);
    for i := 0 to |more|
      invariant b.Valid() && Contributed(b.Fields(), more[i..]) == whole
    {
      assert more[i..][0] == more[i] && more[i..][1..] == more[i + 1..];
      ghost var before := b.Fields();
      var _ := b.Add(Str(more[i].key), Str(more[i].value));
      assert before + [] == before;
    }
  }

  method BuildDiscover(b: DiscoverBuilder, n: Identity)
    requires b.Valid() && IsIdentity(n)
    modifies b, b.keys, b.values
    ensures b.Valid() && b.name == Cut(n.name, VALUE_CHARS) && b.Fields() == AllFields(n)
  {
    hide Contributed, IdFields, TagFields, UptimeFields, CapsFields;
    FieldCounts(n);
    b.Reset();
    b.SetNodeName(Str(n.name));
    AddId(b, n);
    assert b.Fields() == IdFields(n);
    AddKept(b, "fw", n.firmware);
    AddKept(b, "v", PROTOCOL_VERSION);
    AddTag(b, n);
    AddUptime(b, n);
    AddCaps(b, n);
    AddContributions(b, n.contributions);
  }

  lemma FieldCounts(n: Identity)
    ensures |IdFields(n)| <= 1 && |TagFields(n)| <= 1 && |UptimeFields(n)| <= 1 && |CapsFields(n)| <= 1
  {
  }

  lemma {:induction false} ContributedKeeps(fields: seq<Field>, more: seq<Field>)
    ensures fields <= Contributed(fields, more)
    decreases |more|
  {
    if more != [] {
      var next := if |fields| < MAX_FIELDS then fields + [Kept(more[0].key, more[0].value)] else fields;
      ContributedKeeps(next, more[1..]);
    }
  }

  lemma {:induction false} EmitKeeps(text: string, pieces: seq<string>)
    ensures text <= Emit(text, pieces)
    decreases |pieces|
  {
    if pieces != [] && Fits(text, pieces[0]) {
      EmitKeeps(text + pieces[0], pieces[1..]);
    }
  }

  /** Fields that fit are written whole, whatever follows them. */
  lemma {:induction false} FrontSurvives(text: string, front: seq<Field>, more: seq<Field>)
    requires |text + PairsTail(front)| < MAX_REPLY
    ensures Emit(text, Pieces(front + more)) == Emit(text + PairsTail(front), Pieces(more))
    decreases |front|
  {
    if front == [] {
      assert front + more == more && text + "" == text;
    } else {
      hide Emit, PairsTail, Pieces;
      var f := front[0];
      assert (front + more)[1..] == front[1..] + more;
      EmitByField(text, front + more);
      TailAfter(text, front);
      FrontSurvives(EmitField(text, f.key, f.value).text, front[1..], more);
    }
  }

  function Essentials(n: Identity): seq<Field> {
    [Kept("id", ShortId8(n.id)), Kept("fw", n.firmware), Kept("v", PROTOCOL_VERSION)]
  }

  lemma EssentialsFit(n: Identity)
    ensures |Device(Cut(n.name, VALUE_CHARS)) + PairsTail(Essentials(n))| <= 164
  {
    hide ShortId8, PairsTail;
    var e := Essentials(n);
    TailStep(e);
    TailStep(e[1..]);
    TailStep(e[2..]);
    TailOfNone(e);
    assert e[1..][1..] == e[2..] && e[2..][1..] == e[..0];
  }

  /**
   Whatever the name, the firmware text, the tag, the uptime, the capabilities and
   the contributions of features, a node with an id announces its name, id, firmware
   and protocol version whole and in this order, within 164 of the 191 bytes.
   */
  lemma EssentialsSurvive(n: Identity)
    requires n.id != ""
    ensures var line := WrittenLine(Cut(n.name, VALUE_CHARS), AllFields(n));
            var front := Device(Cut(n.name, VALUE_CHARS)) + PairsTail(Essentials(n));
            front <= line && |front| <= 164
  {
    hide ShortId8, PairsTail, Emit, Pieces, TagFields, UptimeFields, CapsFields, Contributed;
    EssentialsFit(n);
    ContributedKeeps(DiscoverFields(n), n.contributions);
    var all := AllFields(n);
    assert Essentials(n) <= DiscoverFields(n);
    assert all == Essentials(n) + all[3..];
    var front := Device(Cut(n.name, VALUE_CHARS)) + PairsTail(Essentials(n));
    FrontSurvives(Device(Cut(n.name, VALUE_CHARS)), Essentials(n), all[3..]);
    EmitKeeps(front, Pieces(all[3..]));
  }

  /** The announced line, and what follows its essentials in it. */
  function Announced(n: Identity): string {
    WrittenLine(Cut(n.name, VALUE_CHARS), AllFields(n))
  }

  function AfterEssentials(n: Identity): (rest: string)
    requires n.id != ""
  {
    EssentialsSurvive(n);
    Announced(n)[|Device(Cut(n.name, VALUE_CHARS)) + PairsTail(Essentials(n))|..]
  }

  lemma EmitIsSpaced(text: string, fields: seq<Field>)
    requires |text| < MAX_REPLY
    ensures var line := Emit(text, Pieces(fields));
            text <= line && (line != text ==> line[|text|] == ' ')
  {
    hide Emit, Pieces, PairsTail;
    var m, more := WrittenParts(text, fields);
    TailIsSpaced(fields[..m]);
    if m < |fields| && more != "" {
      StumpStartsSpaced(more, fields[m].key);
    }
    var tail := PairsTail(fields[..m]) + more;
    assert Emit(text, Pieces(fields)) == text + tail && (tail != "" ==> tail[0] == ' ');
  }

  lemma StumpStartsSpaced(more: string, k: string)
    requires IsStump(more, k) && more != ""
    ensures more[0] == ' '
  {
  }

  /** The line is the essentials and then text that starts with a space. */
  lemma AnnouncedParts(n: Identity)
    requires n.id != ""
    ensures var rest := AfterEssentials(n);
            && Announced(n) == Device(Cut(n.name, VALUE_CHARS)) + (PairsTail(Essentials(n)) + rest)
            && (rest != "" ==> Is(Space, rest[0]))
  {
    hide ShortId8, PairsTail, Emit, Pieces, TagFields, UptimeFields, CapsFields, Contributed;
    EssentialsSurvive(n);
    EssentialsFit(n);
    ContributedKeeps(DiscoverFields(n), n.contributions);
    var device, all := Device(Cut(n.name, VALUE_CHARS)), AllFields(n);
    assert all == Essentials(n) + all[3..];
    FrontSurvives(device, Essentials(n), all[3..]);
    EmitIsSpaced(device + PairsTail(Essentials(n)), all[3..]);
    SplitBehind(Announced(n), device, PairsTail(Essentials(n)));
  }

  lemma SplitBehind(line: string, a: string, b: string)
    requires a + b <= line
    ensures line == a + (b + line[|a + b|..])
  {
  }

  /** Features get what is left of the 24 fields, in order, with their values cut to 71 characters. */
  lemma {:induction false} ContributedIs(fields: seq<Field>, more: seq<Field>)
    requires |fields| <= 24
    ensures var all, own := Contributed(fields, more), |fields|;
            && |all| == (if own + |more| < 24 then own + |more| else 24) && all[..own] == fields
            && forall i :: own <= i < |all| ==> all[i] == Field(more[i - own].key, Cut(more[i - own].value, 71))
    decreases |more|
  {
    if more != [] {
      var kept := Kept(more[0].key, more[0].value);
      if |fields| < 24 {
        ContributedIs(fields + [kept], more[1..]);
        KeptFirst(fields, kept, Contributed(fields + [kept], more[1..]), more);
      } else {
        ContributedIs(fields, more[1..]);
      }
    }
  }

  lemma KeptFirst(fields: seq<Field>, kept: Field, all: seq<Field>, more: seq<Field>)
    requires more != [] && kept == Field(more[0].key, Cut(more[0].value, 71)) && |fields| < |all| <= |fields| + |more|
    requires all[..|fields| + 1] == fields + [kept]
    requires var own := |fields| + 1;
             forall i :: own <= i < |all| ==>
               all[i] == Field(more[1..][i - own].key, Cut(more[1..][i - own].value, 71))
    ensures all[..|fields|] == fields
    ensures var own := |fields|;
            forall i :: own <= i < |all| ==> all[i] == Field(more[i - own].key, Cut(more[i - own].value, 71))
  {
    hide Cut;
    var own := |fields|;
    assert all[..own] == all[..own + 1][..own];
    forall i | own <= i < |all| ensures all[i] == Field(more[i - own].key, Cut(more[i - own].value, 71)) {
      if i == own {
        assert all[i] == all[..own + 1][i];
      } else {
        assert more[1..][i - own - 1] == more[i - own];
      }
    }
  }

  lemma {:induction false} ConcatOfPieces(fields: seq<Field>)
    ensures Concat(Pieces(fields)) == PairsTail(fields)
  {
    if fields != [] {
      hide Concat, Pieces, PairsTail;
      var k, v, rest := fields[0].key, fields[0].value, Pieces(fields[1..]);
      ConcatOfPieces(fields[1..]);
      PiecesStep(fields);
      TailStep(fields);
      ConcatFirst(" ", [k] + (["="] + ([v] + rest)));
      ConcatFirst(k, ["="] + ([v] + rest));
      ConcatFirst("=", [v] + rest);
      ConcatFirst(v, rest);
      RegroupPair(k, v, Concat(rest));
    }
  }

  lemma RegroupPair(k: string, v: string, tail: string)
    ensures " " + (k + ("=" + (v + tail))) == " " + (k + "=" + v + tail)
  {
  }

  lemma ConcatFirst(p: string, rest: seq<string>)
    ensures Concat([p] + rest) == p + Concat(rest)
  {
    assert ([p] + rest)[1..] == rest;
  }

  lemma {:induction false} ConcatFront(pieces: seq<string>, k: nat)
    requires k <= |pieces|
    ensures Concat(pieces[..k]) <= Concat(pieces)
  {
    if k > 0 {
      assert pieces[..k][1..] == pieces[1..][..k - 1];
      ConcatFront(pieces[1..], k - 1);
    }
  }

  /** A written line is a front of the whole one, and all of it exactly when that has at most 191 characters. */
  lemma WrittenExactly(text: string, fields: seq<Field>)
    requires |text| < 192
    ensures var whole := text + PairsTail(fields);
            Emit(text, Pieces(fields)) <= whole && (Emit(text, Pieces(fields)) == whole <==> |whole| < 192)
  {
    hide Emit, Concat, Pieces, PairsTail;
    var pieces, whole := Pieces(fields), text + PairsTail(fields);
    var k := LongestPrefix(text, pieces);
    ConcatOfPieces(fields);
    ConcatFront(pieces, k);
    assert pieces[..|pieces|] == pieces;
    assert FrontFits(text, pieces, |pieces|) <==> |whole| < 192;
    assert FrontFits(text, pieces, k);
  }

  lemma {:induction false} TailOfSum(a: seq<Field>, b: seq<Field>)
    ensures PairsTail(a + b) == PairsTail(a) + PairsTail(b)
  {
    if a == [] {
      assert a + b == b;
      TailOfNothing(PairsTail(b));
    } else {
      hide PairsTail;
      TailStep(a);
      TailStep(a + b);
      assert (a + b)[1..] == a[1..] + b;
      TailOfSum(a[1..], b);
      Regroup(Pair(a[0]), PairsTail(a[1..]), PairsTail(b));
    }
  }

  lemma TailOfOne(f: Field)
    ensures PairsTail([f]) == " " + f.key + "=" + f.value && PairsTail([]) == ""
  {
    TailStep([f]);
    assert [f][1..] == [];
  }

  lemma OneField(key: string, value: string)
    ensures PairsTail([Kept(key, value)]) == " " + key + "=" + Cut(value, 71)
  {
    hide PairsTail;
    TailOfOne(Kept(key, value));
  }

  lemma OptionalFields(n: Identity)
    requires IsIdentity(n)
    ensures PairsTail(IdFields(n)) == if n.id != "" then " id=" + ShortId8(n.id) else ""
    ensures PairsTail(TagFields(n)) == if n.tag != "" then " tag=" + Cut(n.tag, 71)
                                       else if n.profile != "" then " tag=" + Cut(n.profile, 71) else ""
    ensures PairsTail(CapsFields(n))
         == if n.caps != [] && |Csv.CsvText(n.caps)| < 96 then " caps=" + Cut(Csv.CsvText(n.caps), 71) else ""
  {
    hide PairsTail, ShortId8, Csv.CsvText;
    TailOfOne(Field("", ""));
    assert Cut(ShortId8(n.id), 71) == ShortId8(n.id);
    OneField("id", ShortId8(n.id));
    OneField("tag", if n.tag != "" then n.tag else n.profile);
    OneField("caps", Csv.CsvText(n.caps));
  }

  lemma UptimeField(n: Identity)
    requires IsIdentity(n)
    ensures PairsTail(UptimeFields(n)) == if n.uptime.Some? then " up=" + FormatUptime(n.uptime.value) else ""
  {
    hide PairsTail, FormatUptime;
    TailOfOne(Field("", ""));
    if n.uptime.Some? {
      OneField("up", FormatUptime(n.uptime.value));
      SixteenBytesSuffice(n.uptime.value);
    }
  }

  /** What a node says of itself, before its features: id, fw, v, tag or profile, up and caps. */
  lemma OwnFields(n: Identity)
    requires IsIdentity(n)
    ensures |DiscoverFields(n)| <= 6
    ensures PairsTail(DiscoverFields(n))
         == (if n.id != "" then " id=" + ShortId8(n.id) else "")
            + (" fw=" + Cut(n.firmware, 71)) + " v=1.2"
            + (if n.tag != "" then " tag=" + Cut(n.tag, 71)
               else if n.profile != "" then " tag=" + Cut(n.profile, 71) else "")
            + (if n.uptime.Some? then " up=" + FormatUptime(n.uptime.value) else "")
            + (if n.caps != [] && |Csv.CsvText(n.caps)| < 96 then " caps=" + Cut(Csv.CsvText(n.caps), 71) else "")
  {
    FieldCounts(n);
    hide *;
    OptionalFields(n);
    UptimeField(n);
    FirmwareAndVersion(n);
    SumIsThese(n);
    TailOfSix(IdFields(n), [Kept("fw", n.firmware)], [Kept("v", "1.2")], TagFields(n), UptimeFields(n), CapsFields(n));
  }

  lemma SumIsThese(n: Identity)
    ensures DiscoverFields(n)
         == IdFields(n) + [Kept("fw", n.firmware)] + [Kept("v", "1.2")] + TagFields(n) + UptimeFields(n) + CapsFields(n)
  {
  }

  lemma FirmwareAndVersion(n: Identity)
    ensures PairsTail([Kept("fw", n.firmware)]) == " fw=" + Cut(n.firmware, 71)
    ensures PairsTail([Kept("v", "1.2")]) == " v=1.2"
  {
    hide PairsTail;
    OneField("fw", n.firmware);
    OneField("v", "1.2");
  }

  lemma TailOfSix(a: seq<Field>, b: seq<Field>, c: seq<Field>, t: seq<Field>, u: seq<Field>, k: seq<Field>)
    ensures PairsTail(a + b + c + t + u + k)
         == PairsTail(a) + PairsTail(b) + PairsTail(c) + PairsTail(t) + PairsTail(u) + PairsTail(k)
  {
    hide PairsTail;
    TailOfSum(a, b);
    TailOfSum(a + b, c);
    TailOfSum(a + b + c, t);
    TailOfSum(a + b + c + t, u);
    TailOfSum(a + b + c + t + u, k);
  }

  /**
   The line a node announces: its name or `node`, its own fields, and those of its
   features, or a front of this when it has more than 191 characters.
   */
  lemma AnnouncedExactly(n: Identity)
    requires IsIdentity(n)
    ensures var own := |DiscoverFields(n)|;
            && own <= |AllFields(n)|
            && var whole := (if n.name == "" then "node" else Cut(n.name, 71))
                            + PairsTail(DiscoverFields(n)) + PairsTail(AllFields(n)[own..]);
               Announced(n) <= whole && (Announced(n) == whole <==> |whole| < 192)
  {
    hide DiscoverFields, Contributed, Emit, Pieces, PairsTail;
    var device, own, all := Device(Cut(n.name, VALUE_CHARS)), DiscoverFields(n), AllFields(n);
    ContributedKeeps(own, n.contributions);
    assert all == own + all[|own|..];
    TailOfSum(own, all[|own|..]);
    WrittenExactly(device, all);
    assert device + (PairsTail(own) + PairsTail(all[|own|..])) == device + PairsTail(own) + PairsTail(all[|own|..]);
  }

  predicate EssentialsAreVisible(n: Identity) {
    AllIn(Visible, ShortId8(n.id)) && AllIn(Visible, Cut(n.firmware, VALUE_CHARS))
  }

  lemma EssentialsAreRecord(n: Identity)
    ensures EssentialsAreVisible(n) <==> IsRecord(Essentials(n))
    ensures EssentialsAreVisible(n) <==> forall f :: f in Essentials(n) ==> AllIn(Visible, f.value)
  {
    hide ShortId8, Cut;
    var e := Essentials(n);
    assert e[0] in e && e[1] in e;
    assert Cut(ShortId8(n.id), VALUE_CHARS) == ShortId8(n.id) && Cut(PROTOCOL_VERSION, VALUE_CHARS) == "1.2" by {
      ShortTexts(n);
    }
    assert AllIn(Visible, "1.2") && IsKey("id") && IsKey("fw") && IsKey("v");
  }

  lemma ShortTexts(n: Identity)
    ensures Cut(ShortId8(n.id), VALUE_CHARS) == ShortId8(n.id) && Cut(PROTOCOL_VERSION, VALUE_CHARS) == "1.2"
  {
    hide ShortId8;
  }

  /** A field is there after an overlay: no later pair has its key, or the last one that does agrees. */
  predicate Outlives(f: Field, later: Dict) {
    f in later || !HasKey(later, f.key)
  }

  lemma EssentialTokens(n: Identity)
    requires n.id != "" && AllIn(Visible, Device(Cut(n.name, VALUE_CHARS))) && EssentialsAreVisible(n)
    ensures var tokens, later := Split(Announced(n)), ReadPairs([], Split(AfterEssentials(n)));
            && tokens != [] && tokens[0] == Device(Cut(n.name, VALUE_CHARS))
            && forall f :: f in Essentials(n) ==> (f in ReadPairs([], tokens[1..]) <==> Outlives(f, later))
  {
    hide Split, Pairs, ReadPairs, PairsTail, Announced, AfterEssentials, IsRecord, Essentials, EssentialsAreVisible;
    var device, e, rest := Device(Cut(n.name, VALUE_CHARS)), Essentials(n), AfterEssentials(n);
    AnnouncedParts(n);
    EssentialsAreRecord(n);
    LineTokens(device, e, rest);
    forall i | 0 <= i < |e| ensures !HasKey([], e[i].key) {}
    ReadPairsOf([], e, Split(rest));
    assert [] + e == e;
    var tokens := Split(Announced(n));
    assert tokens[1..] == Pairs(e) + Split(rest);
    RecordKeysDiffer(e);
    Overlay(e, Split(rest));
  }

  /**
   What a client gets of the essentials: the device name and all three of them
   exactly when the name is one visible word and no tag, id and firmware are visible,
   and nothing that follows, whole or cut right after its '=', gives one of their
   keys another value.
   */
  lemma EssentialsAreRead(n: Identity)
    requires n.id != ""
    ensures var p, device := ParseDiscover(Announced(n)), Device(Cut(n.name, VALUE_CHARS));
            (p.id == None && p.device == device && forall f :: f in Essentials(n) ==> f in p.fields)
            <==> AllIn(Visible, device) && !HasRequestId([device]) && EssentialsAreVisible(n)
                 && forall f :: f in Essentials(n) ==> Outlives(f, ReadPairs([], Split(AfterEssentials(n))))
  {
    hide Split, ReadPairs, Announced, AfterEssentials, Essentials, EssentialsAreVisible, Outlives;
    var device, tokens, p := Device(Cut(n.name, VALUE_CHARS)), Split(Announced(n)), ParseDiscover(Announced(n));
    TagIsFirst(tokens);
    TokensAreVisible(Announced(n));
    EssentialsAreRecord(n);
    if p.id == None && p.device == device && forall f :: f in Essentials(n) ==> f in p.fields {
      assert tokens[0] in tokens;
      ReadValuesVisible(tokens[1..]);
    }
    if AllIn(Visible, device) && EssentialsAreVisible(n) {
      EssentialTokens(n);
    }
  }

  lemma ReadValuesVisible(tokens: seq<string>)
    requires forall t :: t in tokens ==> AllIn(Visible, t)
    ensures forall f :: f in ReadPairs([], tokens) ==> AllIn(Visible, f.value)
  {
    hide ReadPairs;
    NothingIsRecord();
    ReadPairsIsRecord([], tokens);
  }

  /**
   The capabilities a client reads from their field are the canonical list exactly
   when their text has at most 71 characters, though its own buffer takes 95, and
   the tokens are plain.
   */
  lemma CapsReadBackExactly(n: Identity)
    requires CapsFields(n) != []
    ensures Csv.PythonTokens(CapsFields(n)[0].value) == Csv.CsvTokens(n.caps)
       <==> |Csv.CsvText(n.caps)| <= VALUE_CHARS && forall t :: t in Csv.CsvTokens(n.caps) ==> Csv.Plain(t)
  {
    hide Csv.PythonTokens, Csv.CsvTokens, Csv.CsvText, Csv.Plain;
    Csv.CutReadsBackExactly(n.caps, VALUE_CHARS);
  }
}
