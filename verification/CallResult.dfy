/** include/mcrpc/CallResult.h and python/mcrpc/call_result.py: the result of a `call`. */
module CallResult {
  import opened Text
  import opened Buffers
  import opened Tokens
  import opened Discover

  // ----- the writer ------------------------------------------------------------------

  datatype Verdict = Fine | Busy | Retry | Failed(code: CString)

  function VerdictText(v: Verdict): string {
    match v
    case Fine => "ok"
    case Busy => "busy"
    case Retry => "retry"
    case Failed(code) => Push("err ", if code.Str? && code.text != "" then code.text else "internal")
  }

  method WriteVerdict(out: ReplyBuffer, v: Verdict)
    requires out.Valid() && (v.Failed? && v.code.Str? ==> NoNul(v.code.text))
    modifies out, out.data
    ensures out.Valid() && out.Text() == VerdictText(v)
  {
    out.Clear();
    match v
    case Fine =>
      var _ := out.Append(Str("ok"));
    case Busy =>
      var _ := out.Append(Str("busy"));
    case Retry =>
      var _ := out.Append(Str("retry"));
    case Failed(code) =>
      var _ := out.Append(Str("err "));
      assert out.Text() == "err " by { assert "" + "err " == "err "; }
      var _ := out.Append(Str(if code.Str? && code.text != "" then code.text else "internal"));
  }

  predicate Refused(key: CString, value: CString) {
    key.Null? || key.text == "" || value.Null? || ' ' in key.text || '=' in key.text || ' ' in value.text
  }

  /** ` key=value`; a refusal changes nothing, a lack of room may leave a stump. */
  function AppendedKv(text: string, key: CString, value: CString): FieldWritten {
    if Refused(key, value) then FieldWritten(text, false) else EmitField(text, key.text, value.text)
  }

  method AppendKv(out: ReplyBuffer, key: CString, value: CString) returns (ok: bool)
    requires out.Valid() && (key.Str? ==> NoNul(key.text)) && (value.Str? ==> NoNul(value.text))
    modifies out, out.data
    ensures out.Valid() && FieldWritten(out.Text(), ok) == AppendedKv(old(out.Text()), key, value)
  {
    if key.Null? || key.text == "" || value.Null? {
      return false;
    }
    if ' ' in key.text || '=' in key.text || ' ' in value.text {
      return false;
    }
    ok := out.AppendChar(' ');
    if !ok {
      return;
    }
    ok := out.Append(key);
    if !ok {
      return;
    }
    ok := out.AppendChar('=');
    if !ok {
      return;
    }
    ok := out.Append(value);
  }

  /** A run of appends, each of which must return true. */
  function AppendAll(text: string, fields: seq<Field>): FieldWritten
    decreases |fields|
  {
    if fields == [] then FieldWritten(text, true)
    else
      var w := AppendedKv(text, Str(fields[0].key), Str(fields[0].value));
      if w.whole then AppendAll(w.text, fields[1..]) else w
  }

  /**
   What appendKv does with any key and value: it refuses nulls, an empty key, and a
   space or an '=' where they do not belong, and then changes nothing; otherwise it
   writes ` key=value` if the whole line stays below 192 characters, and else as much
   of it, cut at one of its four pieces, as does.
   */
  lemma AppendedExactly(text: string, key: CString, value: CString)
    requires |text| < 192
    ensures var w := AppendedKv(text, key, value);
            if key.Null? || value.Null? || key.text == ""
               || (exists i :: 0 <= i < |key.text| && (key.text[i] == ' ' || key.text[i] == '='))
               || (exists i :: 0 <= i < |value.text| && value.text[i] == ' ')
            then w == FieldWritten(text, false)
            else var k, v := key.text, value.text;
                 && (w.whole <==> |text| + 2 + |k| + |v| < 192)
                 && w.text == if |text| + 1 == 192 then text
                              else if |text| + 1 + |k| >= 192 then text + " "
                              else if |text| + 2 + |k| >= 192 then text + " " + k
                              else if |text| + 2 + |k| + |v| >= 192 then text + " " + k + "="
                              else text + " " + k + "=" + v
  {
    if key.Str? {
      HasExactly(key.text, ' ');
      HasExactly(key.text, '=');
    }
    if value.Str? {
      HasExactly(value.text, ' ');
    }
  }

  lemma HasExactly(s: string, c: char)
    ensures c in s <==> exists i :: 0 <= i < |s| && s[i] == c
  {
  }

  // ----- the reader ------------------------------------------------------------------

  datatype Result = Result(kind: string, code: Option<string>, id: Option<nat>, fields: Dict, valid: bool)

  datatype PairsRead = PairsRead(fields: Dict, clean: bool)

  /** Reads pairs up to the first token that is none. */
  function ReadCallPairs(d: Dict, tokens: seq<string>): PairsRead
    decreases |tokens|
  {
    if tokens == [] then PairsRead(d, true)
    else
      var e := IndexOf(tokens[0], '=');
      if e == |tokens[0]| then PairsRead(d, false)
      else ReadCallPairs(Put(d, tokens[0][..e], tokens[0][e + 1..]), tokens[1..])
  }

  const KINDS: set<string> := {"ok", "err", "busy", "retry"}

  /** parse_call_result; kind "" stands for None. */
  function ParseCallResult(raw: string): Result {
    ParseCallTokens(RequestId(Split(raw)), WithoutRequestId(Split(raw)))
  }

  function ParseCallTokens(id: Option<nat>, tokens: seq<string>): Result {
    if tokens == [] then Result("", None, id, [], false)
    else
      var kind, rest := Lower(tokens[0]), tokens[1..];
      if kind == "err" && rest == [] then Result("err", Some("internal"), id, [], false)
      else
        var code := if kind == "err" then Some(rest[0]) else None;
        var r := ReadCallPairs([], if kind == "err" then rest[1..] else rest);
        if !r.clean then Result(kind, code, id, r.fields, false)
        else if kind !in KINDS then Result(kind, None, id, r.fields, false)
        else Result(kind, code, id, r.fields, true)
  }

  /** Every token is a pair. */
  lemma {:induction false} CleanExactly(d: Dict, tokens: seq<string>)
    ensures ReadCallPairs(d, tokens).clean <==> forall i :: 0 <= i < |tokens| ==> '=' in tokens[i]
    decreases |tokens|
  {
    hide Put;
    if tokens != [] {
      var t, rest := tokens[0], tokens[1..];
      var e := IndexOf(t, '=');
      assert '=' in t <==> e < |t|;
      assert forall i :: 0 <= i < |rest| ==> rest[i] == tokens[i + 1];
      if e < |t| {
        CleanExactly(Put(d, t[..e], t[e + 1..]), rest);
        assert forall i :: 0 < i < |tokens| ==> tokens[i] == rest[i - 1];
      }
    }
  }

  /**
   A line is valid exactly when the first word behind its tag is one of the four kinds,
   in any case, an `err` has its code, and every further word is a pair: free prose
   makes it invalid. Its kind and its code are then these words.
   */
  lemma ValidExactly(raw: string)
    ensures var tokens, p := WithoutRequestId(Split(raw)), ParseCallResult(raw);
            && p.id == RequestId(Split(raw))
            && (p.valid <==>
                  && tokens != [] && Lower(tokens[0]) in {"ok", "err", "busy", "retry"}
                  && (Lower(tokens[0]) == "err" ==> |tokens| >= 2)
                  && forall i :: (if Lower(tokens[0]) == "err" then 2 else 1) <= i < |tokens| ==> '=' in tokens[i])
            && (p.valid ==>
                  && p.kind == Lower(tokens[0])
                  && p.code == if p.kind == "err" then Some(tokens[1]) else None)
            && (!p.valid ==>
                  && p.kind == (if tokens == [] then "" else Lower(tokens[0]))
                  && (tokens != [] && p.kind == "err" && |tokens| == 1 ==> p.code == Some("internal")))
  {
    hide Split, ReadCallPairs, RequestId, WithoutRequestId, Lower;
    var tokens := WithoutRequestId(Split(raw));
    if tokens != [] {
      var rest := tokens[1..];
      CleanExactly([], rest);
      assert forall i :: 0 <= i < |rest| ==> rest[i] == tokens[i + 1];
      assert forall i :: 1 <= i < |tokens| ==> tokens[i] == rest[i - 1];
      if rest != [] {
        CleanExactly([], rest[1..]);
        assert forall i :: 0 <= i < |rest[1..]| ==> rest[1..][i] == tokens[i + 2];
        assert forall i :: 2 <= i < |tokens| ==> tokens[i] == rest[1..][i - 2];
      }
    }
  }

  /** The verdicts on the wire. */
  lemma VerdictsAreWritten(code: string)
    requires code != "" && |code| < 188
    ensures VerdictText(Fine) == "ok" && VerdictText(Busy) == "busy" && VerdictText(Retry) == "retry"
    ensures VerdictText(Failed(Str(code))) == "err " + code
    ensures VerdictText(Failed(Null)) == "err internal" == VerdictText(Failed(Str("")))
  {
    assert "err " + "internal" == "err internal";
  }

  // ----- round trip -------------------------------------------------------------------

  function KindOf(v: Verdict): string {
    match v case Fine => "ok" case Busy => "busy" case Retry => "retry" case Failed(_) => "err"
  }

  function CodeOf(v: Verdict): Option<string> {
    if v.Failed? then Some(if v.code.Str? && v.code.text != "" then v.code.text else "internal") else None
  }

  /** A code of visible characters that fits its line. */
  predicate IsVerdict(v: Verdict) {
    v.Failed? ==> AllIn(Visible, CodeOf(v).value) && |CodeOf(v).value| < MAX_REPLY - 4
  }

  lemma {:induction false} AppendAllIsTail(text: string, fields: seq<Field>)
    requires AppendAll(text, fields).whole
    ensures AppendAll(text, fields).text == text + PairsTail(fields)
    decreases |fields|
  {
    if fields == [] {
      assert text + "" == text;
    } else {
      hide PairsTail, EmitField;
      TailAfter(text, fields);
      AppendAllIsTail(EmitField(text, fields[0].key, fields[0].value).text, fields[1..]);
    }
  }

  lemma ReadCallPair(d: Dict, f: Field, more: seq<string>)
    requires var t, n := Pair(f), |f.key|;
             0 < n < |t| && IndexOf(t, '=') == n && t[..n] == f.key && t[n + 1..] == f.value
    ensures ReadCallPairs(d, [Pair(f)] + more) == ReadCallPairs(Put(d, f.key, f.value), more)
  {
    hide Put, Pair, IndexOf;
    assert ([Pair(f)] + more)[1..] == more;
  }

  lemma {:induction false} CallPairsOf(d: Dict, fields: seq<Field>)
    requires IsRecord(fields) && forall i :: 0 <= i < |fields| ==> !HasKey(d, fields[i].key)
    ensures ReadCallPairs(d, Pairs(fields)) == PairsRead(d + fields, true)
    decreases |fields|
  {
    hide Put, HasKey, Pair, IsRecord, IndexOf;
    if fields == [] {
      assert d + fields == d;
    } else {
      var f, rest := fields[0], fields[1..];
      PairSplits(fields);
      ReadCallPair(d, f, Pairs(rest));
      hide ReadCallPairs;
      PutNew(d, f.key, f.value);
      RecordRest(fields);
      StillNew(d, fields);
      CallPairsOf(d + [f], rest);
      assert d + [f] + rest == d + fields;
    }
  }

  lemma TailTokens(fields: seq<Field>)
    requires IsRecord(fields)
    ensures Split(PairsTail(fields)) == Pairs(fields)
    ensures PairsTail(fields) != "" ==> Is(Space, PairsTail(fields)[0])
  {
    hide Split, Pairs, IsRecord, PairsTail;
    TailIsSpaced(fields);
    SplitPairsTail(fields, "");
    SplitNothing();
    assert PairsTail(fields) + "" == PairsTail(fields) && Pairs(fields) + [] == Pairs(fields);
  }

  lemma FailedTokens(code: string, tail: string)
    requires code != "" && AllIn(Visible, code) && (tail != "" ==> Is(Space, tail[0]))
    ensures Split("err " + code + tail) == ["err"] + ([code] + Split(tail))
  {
    hide Split;
    assert "err " + code + tail == "err" + (" " + (code + tail));
    assert AllIn(Visible, "err");
    SplitToken("err", " " + (code + tail));
    SplitAfterSpace(" ", code + tail);
    SplitToken(code, tail);
  }

  lemma FailedText(v: Verdict)
    requires v.Failed? && IsVerdict(v)
    ensures CodeOf(v).Some? && VerdictText(v) == "err " + CodeOf(v).value && KindOf(v) == "err"
    ensures CodeOf(v).value != "" && AllIn(Visible, CodeOf(v).value)
  {
  }

  lemma PlainText(v: Verdict)
    requires !v.Failed?
    ensures VerdictText(v) == KindOf(v) && KindOf(v) != "" && AllIn(Visible, KindOf(v))
  {
  }

  lemma VerdictTokens(v: Verdict, fields: seq<Field>)
    requires IsVerdict(v) && IsRecord(fields)
    ensures Split(VerdictText(v) + PairsTail(fields))
         == [KindOf(v)] + (if v.Failed? then [CodeOf(v).value] else []) + Pairs(fields)
  {
    hide *;
    TailTokens(fields);
    if v.Failed? {
      FailedText(v);
      FailedTokens(CodeOf(v).value, PairsTail(fields));
      assert ["err"] + ([CodeOf(v).value] + Pairs(fields)) == ["err"] + [CodeOf(v).value] + Pairs(fields);
    } else {
      PlainText(v);
      SplitToken(KindOf(v), PairsTail(fields));
      assert [KindOf(v)] + [] == [KindOf(v)];
    }
  }

  lemma KindIsVisible(v: Verdict)
    ensures KindOf(v) != "" && AllIn(Visible, KindOf(v)) && Lower(KindOf(v)) == KindOf(v)
    ensures KindOf(v) in KINDS && (KindOf(v) == "err" <==> v.Failed?) && KindOf(v)[0] != '#'
  {
    assert Lower("ok") == "ok" && Lower("busy") == "busy" && Lower("retry") == "retry" && Lower("err") == "err";
    assert "ok"[0] == 'o' && "busy"[0] == 'b' && "retry"[0] == 'r' && "err"[0] == 'e';
  }

  lemma VerdictParses(id: Option<nat>, tokens: seq<string>, v: Verdict, fields: seq<Field>)
    requires IsRecord(fields)
    requires tokens == [KindOf(v)] + (if v.Failed? then [CodeOf(v).value] else []) + Pairs(fields)
    ensures ParseCallTokens(id, tokens) == Result(KindOf(v), CodeOf(v), id, fields, true)
  {
    hide Split, Pairs, IsRecord, KindOf, CodeOf, ReadCallPairs;
    KindIsVisible(v);
    CodeOnlyIfFailed(v);
    assert tokens[0] == KindOf(v);
    assert tokens[1..] == (if v.Failed? then [CodeOf(v).value] else []) + Pairs(fields);
    assert v.Failed? ==> tokens[1..][0] == CodeOf(v).value && tokens[1..][1..] == Pairs(fields);
    assert !v.Failed? ==> tokens[1..] == Pairs(fields);
    CallPairsOf([], fields);
    assert [] + fields == fields;
  }

  lemma CodeOnlyIfFailed(v: Verdict)
    ensures CodeOf(v).Some? <==> v.Failed?
  {
  }

  // ----- nothing else reads back ------------------------------------------------------------

  /** A dict this reader can build: like a record, but for an empty key. */
  ghost predicate IsLoose(d: Dict) {
    && DistinctKeys(d)
    && forall i :: 0 <= i < |d| ==> '=' !in d[i].key && AllIn(Visible, d[i].key) && AllIn(Visible, d[i].value)
  }

  lemma PutKeepsLoose(d: Dict, k: string, v: string)
    requires IsLoose(d) && '=' !in k && AllIn(Visible, k) && AllIn(Visible, v)
    ensures IsLoose(Put(d, k, v))
  {
    hide AllIn, Put, DistinctKeys;
    PutFacts(d, k, v);
    var p := Put(d, k, v);
    forall i | 0 <= i < |p| ensures '=' !in p[i].key && AllIn(Visible, p[i].key) && AllIn(Visible, p[i].value) {
      assert p[i] in p;
    }
  }

  lemma CutAtEquals(t: string)
    requires AllIn(Visible, t)
    ensures var e := IndexOf(t, '=');
            e < |t| ==> '=' !in t[..e] && AllIn(Visible, t[..e]) && AllIn(Visible, t[e + 1..])
  {
    hide Is, IndexOf;
    var e := IndexOf(t, '=');
    if e < |t| {
      var k, v := t[..e], t[e + 1..];
      assert forall i :: 0 <= i < |k| ==> k[i] == t[i];
      assert forall i :: 0 <= i < |v| ==> v[i] == t[e + 1 + i];
    }
  }

  lemma {:induction false} CallPairsAreLoose(d: Dict, tokens: seq<string>)
    requires IsLoose(d) && forall t :: t in tokens ==> AllIn(Visible, t)
    ensures IsLoose(ReadCallPairs(d, tokens).fields)
    decreases |tokens|
  {
    hide IsLoose, Put, AllIn;
    if tokens != [] {
      var t, rest := tokens[0], tokens[1..];
      assert t in tokens && forall x :: x in rest ==> x in tokens;
      var e := IndexOf(t, '=');
      CutAtEquals(t);
      if e < |t| {
        PutKeepsLoose(d, t[..e], t[e + 1..]);
        CallPairsAreLoose(Put(d, t[..e], t[e + 1..]), rest);
      }
    }
  }

  /** What a valid result holds: a loose dict, and for `err` a code that is one of the tokens. */
  lemma ValidIsLoose(id: Option<nat>, tokens: seq<string>)
    requires forall t :: t in tokens ==> AllIn(Visible, t)
    requires ParseCallTokens(id, tokens).valid
    ensures IsLoose(ParseCallTokens(id, tokens).fields)
    ensures ParseCallTokens(id, tokens).code.Some? ==> ParseCallTokens(id, tokens).code.value in tokens[1..]
  {
    hide ReadCallPairs, Lower, AllIn;
    assert IsLoose([]);
    var rest := tokens[1..];
    assert forall x :: x in rest ==> x in tokens;
    if Lower(tokens[0]) == "err" {
      assert forall x :: x in rest[1..] ==> x in rest;
      CallPairsAreLoose([], rest[1..]);
    } else {
      CallPairsAreLoose([], rest);
    }
  }

  lemma {:induction false} AppendedKeys(text: string, fields: seq<Field>)
    requires AppendAll(text, fields).whole && |text| < MAX_REPLY
    ensures (forall i :: 0 <= i < |fields| ==> fields[i].key != "") && |AppendAll(text, fields).text| < MAX_REPLY
    decreases |fields|
  {
    if fields != [] {
      AppendedKeys(AppendedKv(text, Str(fields[0].key), Str(fields[0].value)).text, fields[1..]);
      forall i | 0 <= i < |fields| ensures fields[i].key != "" { assert i > 0 ==> fields[i] == fields[1..][i - 1]; }
    }
  }

  lemma VerdictTextStarts(v: Verdict)
    ensures |VerdictText(v)| < MAX_REPLY && VerdictText(v) != ""
    ensures var c := VerdictText(v)[0]; c != '#' && Is(Visible, c)
    ensures v.Failed? ==> "err " <= VerdictText(v)
  {
    assert "err "[0] == 'e' && "ok"[0] == 'o' && "busy"[0] == 'b' && "retry"[0] == 'r';
  }

  /** Behind `err ` no token is longer than the rest of the line. */
  lemma ErrTokens(text: string)
    requires "err " <= text
    ensures Split(text) == ["err"] + Split(text[4..]) && forall t :: t in Split(text)[1..] ==> |t| <= |text| - 4
  {
    var rest := text[4..];
    ErrStarts(text);
    hide *;
    SplitToken("err", " " + rest);
    SplitAfterSpace(" ", rest);
    TokensAreVisible(rest);
    assert (["err"] + Split(rest))[1..] == Split(rest);
  }

  lemma ErrStarts(text: string)
    requires "err " <= text
    ensures |text| >= 4 && text == "err" + (" " + text[4..]) && AllIn(Visible, "err") && AllIn(Space, " ")
    ensures Is(Space, (" " + text[4..])[0])
  {
    assert text == "err " + text[4..];
  }

  /** What reads back as it was appended was a verdict and a record. */
  lemma OnlyRecordsReadBack(v: Verdict, fields: seq<Field>, id: Option<nat>)
    requires AppendAll(VerdictText(v), fields).whole
    requires ParseCallTokens(id, Split(AppendAll(VerdictText(v), fields).text))
          == Result(KindOf(v), CodeOf(v), id, fields, true)
    ensures IsVerdict(v) && IsRecord(fields)
  {
    hide Split, AppendAll, VerdictText, KindOf, CodeOf, ParseCallTokens, AllIn;
    var text := AppendAll(VerdictText(v), fields).text;
    VerdictTextStarts(v);
    AppendedKeys(VerdictText(v), fields);
    AppendAllIsTail(VerdictText(v), fields);
    TokensAreVisible(text);
    ValidIsLoose(id, Split(text));
    CodeOnlyIfFailed(v);
    if v.Failed? {
      assert "err " <= text;
      ErrTokens(text);
      var code := CodeOf(v).value;
      assert code in Split(text)[1..];
      assert code in Split(text);
    }
  }

  lemma FirstIsNoTag(text: string)
    requires text != "" && text[0] != '#' && Is(Visible, text[0])
    ensures RequestId(Split(text)) == None && WithoutRequestId(Split(text)) == Split(text)
  {
    RunIs(Space, text, 0);
  }

  /**
   After a verdict and appends that all returned true, the line, bare or behind its
   `#id ` tag, parses as valid with the same kind, code, id and fields in order
   exactly when the code is visible and fits its line, and the fields are a record:
   distinct keys without '=', no whitespace in any key or value.
   */
  lemma CallResultRoundTrip(v: Verdict, fields: seq<Field>, id: nat)
    requires AppendAll(VerdictText(v), fields).whole
    ensures var text := AppendAll(VerdictText(v), fields).text;
            && (ParseCallResult(text) == Result(KindOf(v), CodeOf(v), None, fields, true)
                <==> IsVerdict(v) && IsRecord(fields))
            && (ParseCallResult("#" + Decimal(id) + " " + text) == Result(KindOf(v), CodeOf(v), Some(id), fields, true)
                <==> IsVerdict(v) && IsRecord(fields))
  {
    hide *;
    var text := AppendAll(VerdictText(v), fields).text;
    TextStarts(v, fields);
    FirstIsNoTag(text);
    ParsedByTokens(text);
    ParsedByTokens("#" + Decimal(id) + " " + text);
    SplitTagged(id, text);
    DecimalTag(id, Split(text));
    TokensRoundTrip(v, fields, None);
    TokensRoundTrip(v, fields, Some(id));
  }

  lemma ParsedByTokens(raw: string)
    ensures ParseCallResult(raw) == ParseCallTokens(RequestId(Split(raw)), WithoutRequestId(Split(raw)))
  {
  }

  lemma TextStarts(v: Verdict, fields: seq<Field>)
    requires AppendAll(VerdictText(v), fields).whole
    ensures var text := AppendAll(VerdictText(v), fields).text;
            text != "" && text[0] != '#' && Is(Visible, text[0])
  {
    hide AppendAll, VerdictText, PairsTail, Is;
    VerdictTextStarts(v);
    AppendAllIsTail(VerdictText(v), fields);
  }

  lemma TokensRoundTrip(v: Verdict, fields: seq<Field>, id: Option<nat>)
    requires AppendAll(VerdictText(v), fields).whole
    ensures ParseCallTokens(id, Split(AppendAll(VerdictText(v), fields).text))
            == Result(KindOf(v), CodeOf(v), id, fields, true)
       <==> IsVerdict(v) && IsRecord(fields)
  {
    hide *;
    if IsVerdict(v) && IsRecord(fields) {
      AppendAllIsTail(VerdictText(v), fields);
      VerdictTokens(v, fields);
      VerdictParses(id, Split(AppendAll(VerdictText(v), fields).text), v, fields);
    }
    if ParseCallTokens(id, Split(AppendAll(VerdictText(v), fields).text))
       == Result(KindOf(v), CodeOf(v), id, fields, true) {
      OnlyRecordsReadBack(v, fields, id);
    }
  }

  /** appendKv looks for spaces only, so a tab passes and the reader splits the value there. */
  lemma TabIsNotReadBack()
    ensures var fields := [Field("k", "x\ty")];
            var w := AppendAll("ok", fields);
            w.whole && ParseCallResult(w.text) != Result("ok", None, None, fields, true)
  {
    hide Split, ParseCallResult, Decimal;
    var fields := [Field("k", "x\ty")];
    assert fields[1..] == [];
    CallResultRoundTrip(Fine, fields, 0);
    assert !Is(Visible, fields[0].value[1]);
  }

  /** And nothing keeps a key from being appended twice. */
  lemma RepeatedKeyIsNotReadBack()
    ensures var fields := [Field("k", "1"), Field("k", "2")];
            var w := AppendAll("ok", fields);
            w.whole && ParseCallResult(w.text) != Result("ok", None, None, fields, true)
  {
    hide Split, ParseCallResult, Decimal;
    var fields := [Field("k", "1"), Field("k", "2")];
    assert fields[1..] == [Field("k", "2")] && fields[1..][1..] == [];
    CallResultRoundTrip(Fine, fields, 0);
    assert fields[0].key == fields[1].key;
  }

  // ----- procedure names -----------------------------------------------------------------

  predicate IsLetter(c: char) {
    'a' <= c <= 'z' || 'A' <= c <= 'Z'
  }

  predicate IsSegment(s: string) {
    s != "" && IsLetter(s[0]) && AllIn(Name, s[1..])
  }

  /** A segment by the codes of its characters. */
  lemma SegmentsByCode(s: string)
    ensures IsSegment(s)
       <==> && s != "" && (65 <= s[0] as int <= 90 || 97 <= s[0] as int <= 122)
            && forall i :: 0 <= i < |s| ==>
                 var c := s[i] as int; 48 <= c <= 57 || 65 <= c <= 90 || 97 <= c <= 122 || c == 95
  {
    if IsSegment(s) {
      forall i | 0 <= i < |s|
        ensures var c := s[i] as int; 48 <= c <= 57 || 65 <= c <= 90 || 97 <= c <= 122 || c == 95
      {
        assert i > 0 ==> Is(Name, s[1..][i - 1]);
      }
    }
  }

  predicate IsValidProc(s: string) {
    var i := IndexOf(s, '.');
    i < |s| && IsSegment(s[..i]) && IsSegment(s[i + 1..])
  }

  /** The predicate holds of exactly the texts that are a segment, a dot and a segment, in one way. */
  lemma ValidProcSplitsOnce(s: string)
    ensures IsValidProc(s) <==> exists a, b :: IsSegment(a) && IsSegment(b) && s == a + "." + b
    ensures forall a, b, a', b' ::
              (IsSegment(a) && IsSegment(b) && IsSegment(a') && IsSegment(b')
               && s == a + "." + b && s == a' + "." + b') ==> a == a' && b == b'
  {
    var i := IndexOf(s, '.');
    if IsValidProc(s) {
      assert s == s[..i] + "." + s[i + 1..];
    }
    forall a, b | IsSegment(a) && IsSegment(b) && s == a + "." + b
      ensures a == s[..i] && b == s[i + 1..]
    {
      SegmentThenDot(a, b);
    }
  }

  lemma SegmentThenDot(a: string, b: string)
    requires IsSegment(a)
    ensures var s := a + "." + b; IndexOf(s, '.') == |a| && s[..|a|] == a && s[|a| + 1..] == b
  {
    IndexIs(a + "." + b, '.', |a|);
  }

  method ValidateSegment(s: string, start: nat, end: nat) returns (ok: bool)
    requires start <= end <= |s| && NoNul(s)
    ensures ok <==> IsSegment(s[start..end])
  {
    ghost var seg := s[start..end];
    if start == |s| || start == end || !IsLetter(s[start]) {
      return false;
    }
    for p := start + 1 to end
      invariant forall i :: 0 <= i < p - start - 1 ==> Is(Name, seg[1..][i])
    {
      var c := s[p];
      assert c == seg[1..][p - start - 1];
      if !IsLetter(c) && !('0' <= c <= '9') && c != '_' {
        return false;
      }
    }
    return true;
  }

  method ValidateProc(proc: CString) returns (ok: bool)
    requires proc.Str? ==> NoNul(proc.text)
    ensures ok <==> proc.Str? && IsValidProc(proc.text)
  {
    if proc.Null? || proc.text == "" {
      return false;
    }
    var s := proc.text;
    var dot := IndexOf(s, '.');
    if dot == |s| || dot == 0 || dot + 1 == |s| {
      return false;
    }
    var second := IndexOf(s[dot + 1..], '.');
    if second < |s| - dot - 1 {
      assert s[dot + 1..][second] == '.';
      return false;
    }
    ok := ValidateSegment(s, 0, dot);
    if ok {
      ok := ValidateSegment(s, dot + 1, |s|);
    }
  }

  // ----- the pattern of the Python peer -----------------------------------------------------

  datatype CharSet = Letters | WordChars | Dot

  /** One character of a set, or any number of them. */
  datatype Item = One(of: CharSet) | Many(of: CharSet)

  predicate In(k: CharSet, c: char) {
    match k
    case Letters => IsLetter(c)
    case WordChars => Is(Name, c)
    case Dot => c == '.'
  }

  /** re.match for items between `^` and `$`, trying every split; `$` also holds before a final newline. */
  predicate Matches(items: seq<Item>, s: string)
    decreases |items| + |s|
  {
    if items == [] then s == "" || s == "\n"
    else
      match items[0]
      case One(k) => s != "" && In(k, s[0]) && Matches(items[1..], s[1..])
      case Many(k) => Matches(items[1..], s) || (s != "" && In(k, s[0]) && Matches(items, s[1..]))
  }

  const PROC_RE := [One(Letters), Many(WordChars), One(Dot), One(Letters), Many(WordChars)]

  function Count(s: string, c: char): nat {
    if s == "" then 0 else (if s[0] == c then 1 else 0) + Count(s[1..], c)
  }

  predicate IsValidProcPython(s: string) {
    s != "" && Count(s, '.') == 1 && Matches(PROC_RE, s)
  }

  /** The text without its final newline, if it has one. */
  function Chomp(s: string): string {
    if s != "" && s[|s| - 1] == '\n' then s[..|s| - 1] else s
  }

  /** Word characters up to the end: the text is made of them but for a final newline. */
  lemma {:induction false} WordsToEnd(s: string)
    ensures Matches([Many(WordChars)], s) <==> AllIn(Name, Chomp(s))
    decreases |s|
  {
    assert [Many(WordChars)][1..] == [];
    if s != "" && s != "\n" {
      WordsToEnd(s[1..]);
      assert Chomp(s) == [s[0]] + Chomp(s[1..]);
      assert Is(Name, s[0]) && AllIn(Name, Chomp(s[1..])) ==> AllIn(Name, Chomp(s));
      assert AllIn(Name, Chomp(s)) ==> Is(Name, Chomp(s)[0]) && AllIn(Name, Chomp(s)[1..]);
    }
  }

  /** Word characters and then a dot: no other split can match, since a dot is no word character. */
  lemma {:induction false} WordsThenDot(rest: seq<Item>, s: string)
    ensures var n := Run(Name, s);
            Matches([Many(WordChars), One(Dot)] + rest, s) <==> n < |s| && s[n] == '.' && Matches(rest, s[n + 1..])
    decreases |s|
  {
    var items := [Many(WordChars), One(Dot)] + rest;
    assert items[1..] == [One(Dot)] + rest && ([One(Dot)] + rest)[1..] == rest;
    if s != "" && Is(Name, s[0]) {
      WordsThenDot(rest, s[1..]);
      var n := Run(Name, s);
      assert s[1..][n - 1..] == s[n..] && n < |s| ==> s[1..][n..] == s[n + 1..];
    }
  }

  lemma OneStep(k: CharSet, rest: seq<Item>, s: string)
    ensures Matches([One(k)] + rest, s) <==> s != "" && In(k, s[0]) && Matches(rest, s[1..])
  {
    assert ([One(k)] + rest)[1..] == rest;
  }

  /** What the pattern asks of the text after its first letter. */
  predicate AfterFirst(t: string) {
    var m := Run(Name, t);
    m + 1 < |t| && t[m] == '.' && IsLetter(t[m + 1]) && AllIn(Name, Chomp(t[m + 2..]))
  }

  lemma LastSegment(u: string)
    ensures Matches([One(Letters)] + [Many(WordChars)], u)
       <==> u != "" && IsLetter(u[0]) && AllIn(Name, Chomp(u[1..]))
  {
    hide Chomp, Matches, AllIn;
    OneStep(Letters, [Many(WordChars)], u);
    if u != "" {
      WordsToEnd(u[1..]);
    }
  }

  lemma PatternAfterFirst(t: string)
    ensures Matches([Many(WordChars), One(Dot)] + ([One(Letters)] + [Many(WordChars)]), t) <==> AfterFirst(t)
  {
    hide Run, Chomp, Matches, AllIn;
    WordsThenDot([One(Letters)] + [Many(WordChars)], t);
    var m := Run(Name, t);
    if m < |t| {
      LastSegment(t[m + 1..]);
      assert m + 1 < |t| ==> t[m + 1..][1..] == t[m + 2..];
    }
  }

  lemma PatternSteps(s: string)
    ensures Matches(PROC_RE, s) <==> s != "" && IsLetter(s[0]) && AfterFirst(s[1..])
  {
    hide Matches, AfterFirst;
    var rest := [Many(WordChars), One(Dot)] + ([One(Letters)] + [Many(WordChars)]);
    assert PROC_RE == [One(Letters)] + rest;
    OneStep(Letters, rest, s);
    if s != "" {
      PatternAfterFirst(s[1..]);
    }
  }

  lemma {:induction false} CountNone(s: string)
    requires forall i :: 0 <= i < |s| ==> s[i] != '.'
    ensures Count(s, '.') == 0
  {
    if s != "" {
      CountNone(s[1..]);
    }
  }

  lemma {:induction false} CountOne(s: string, n: nat)
    requires n < |s| && s[n] == '.' && forall i :: 0 <= i < |s| && i != n ==> s[i] != '.'
    ensures Count(s, '.') == 1
  {
    if n == 0 {
      CountNone(s[1..]);
    } else {
      CountOne(s[1..], n - 1);
    }
  }

  lemma NoDotInWords(s: string)
    requires AllIn(Name, s)
    ensures forall i :: 0 <= i < |s| ==> s[i] != '.'
  {
    forall i | 0 <= i < |s| ensures s[i] != '.' { assert Is(Name, s[i]); }
  }

  /** The only dot of a name the pattern accepts. */
  lemma OnlyDot(s: string, n: nat)
    requires 0 < n && n + 1 < |s| && IsLetter(s[0]) && AllIn(Name, s[1..n])
    requires s[n] == '.' && IsLetter(s[n + 1]) && AllIn(Name, Chomp(s[n + 2..]))
    ensures forall i :: 0 <= i < |s| && i != n ==> s[i] != '.'
  {
    hide Is;
    var v := s[n + 2..];
    NoDotInWords(s[1..n]);
    NoDotInWords(Chomp(v));
    forall i | 0 <= i < |s| && i != n ensures s[i] != '.' {
      if 0 < i < n {
        assert s[i] == s[1..n][i - 1];
      } else if i > n + 1 {
        assert s[i] == v[i - n - 2];
      }
    }
  }

  lemma ChompAfter(s: string, m: nat)
    requires m <= |Chomp(s)|
    ensures m <= |s| && Chomp(s)[..m] == s[..m] && Chomp(s)[m..] == Chomp(s[m..])
  {
  }

  lemma ChompLength(s: string, m: nat)
    requires m < |s| && s[m] != '\n'
    ensures m < |Chomp(s)|
  {
  }

  lemma ProcSegments(s: string, c: string, n: nat)
    requires 0 < n && n + 2 <= |s| && n + 2 <= |c| && c[..n + 2] == s[..n + 2]
    requires IsLetter(s[0]) && AllIn(Name, s[1..n]) && IsLetter(s[n + 1]) && AllIn(Name, c[n + 2..])
    ensures IsSegment(c[..n]) && IsSegment(c[n + 1..])
  {
    hide AllIn, IsLetter;
    SameFront(s, c, n + 2);
    assert c[..n][1..] == s[1..n];
    assert c[n + 1..][1..] == c[n + 2..];
  }

  /** The name at a dot, in the terms of the pattern. */
  lemma ProcAtDot(s: string, n: nat)
    requires 0 < n && n + 1 < |s| && IsLetter(s[0]) && AllIn(Name, s[1..n])
    requires s[n] == '.' && IsLetter(s[n + 1]) && AllIn(Name, Chomp(s[n + 2..]))
    ensures IsValidProc(Chomp(s)) && Count(s, '.') == 1
  {
    hide Is, AllIn, Chomp, Count, IsSegment;
    OnlyDot(s, n);
    CountOne(s, n);
    var c := Chomp(s);
    ChompLength(s, n + 1);
    ChompAfter(s, n + 2);
    ProcSegments(s, c, n);
    SameFront(s, c, n + 2);
    IndexIs(c, '.', n);
  }

  lemma SameFront(s: string, c: string, m: nat)
    requires m <= |s| && m <= |c| && c[..m] == s[..m]
    ensures forall i :: 0 <= i < m ==> c[i] == s[i]
  {
    assert forall i :: 0 <= i < m ==> c[..m][i] == s[..m][i];
  }

  lemma DotOfProc(s: string)
    requires IsValidProc(Chomp(s))
    ensures s != "" && IsLetter(s[0]) && AfterFirst(s[1..])
  {
    hide Is, AllIn, Run, Chomp, IsLetter;
    var c := Chomp(s);
    var n := IndexOf(c, '.');
    ChompAfter(s, n + 2);
    SameFront(s, c, n + 2);
    var t := s[1..];
    assert c[..n][1..] == t[..n - 1] && c[n + 1..][1..] == c[n + 2..];
    DotAfterName(t, n - 1);
    assert t[n - 1 + 2..] == s[n + 2..];
  }

  lemma DotAfterName(t: string, m: nat)
    requires m < |t| && AllIn(Name, t[..m]) && t[m] == '.'
    ensures Run(Name, t) == m
  {
    hide Run;
    forall i | 0 <= i < m ensures Is(Name, t[i]) { assert Is(Name, t[..m][i]); }
    RunIs(Name, t, m);
  }

  /** What the pattern and the count accept: the names C++ accepts, with or without a final newline. */
  lemma PatternExactly(s: string)
    ensures IsValidProcPython(s) <==> IsValidProc(Chomp(s))
  {
    hide Matches, Count, Chomp, IsValidProc, AfterFirst;
    PatternSteps(s);
    if IsValidProc(Chomp(s)) {
      DotOfProc(s);
    }
    if Matches(PROC_RE, s) {
      MatchIsProc(s);
    }
  }

  lemma MatchIsProc(s: string)
    requires s != "" && IsLetter(s[0]) && AfterFirst(s[1..])
    ensures IsValidProc(Chomp(s)) && Count(s, '.') == 1
  {
    hide Count, Chomp, IsValidProc, Is, Run;
    var t := s[1..];
    var m := Run(Name, t);
    assert s[1..m + 1] == t[..m] && AllIn(Name, t[..m]);
    assert t[m + 2..] == s[m + 3..];
    ProcAtDot(s, m + 1);
  }

  lemma ProcEndsInName(s: string)
    requires IsValidProc(s)
    ensures Is(Name, s[|s| - 1])
  {
    var b := s[IndexOf(s, '.') + 1..];
    assert s[|s| - 1] == b[|b| - 1];
    assert |b| > 1 ==> b[|b| - 1] == b[1..][|b| - 2];
  }

  /** The two validators differ on exactly the valid names followed by one newline. */
  lemma ValidatorsAgreeExactly(s: string)
    ensures (IsValidProcPython(s) <==> IsValidProc(s))
       <==> !(s != "" && s[|s| - 1] == '\n' && IsValidProc(s[..|s| - 1]))
  {
    hide IsValidProcPython, IsValidProc;
    PatternExactly(s);
    if IsValidProc(s) {
      ProcEndsInName(s);
    }
  }

  lemma NewlineIsAccepted()
    ensures IsValidProcPython("a.b\n") && !IsValidProc("a.b\n")
  {
    hide IsValidProcPython;
    var s := "a.b\n";
    assert Chomp(s) == "a.b";
    IndexIs("a.b", '.', 1);
    assert "a.b"[..1] == "a" && "a.b"[2..] == "b";
    PatternExactly(s);
    IndexIs(s, '.', 1);
    assert s[2..][1..] == "\n";
  }
}
