/**
 src/Parser.cpp: the pointer-walking parser over a fixed Request. A pointer into
 the line is an offset, and reading through it at the end gives the terminator.
 */
module CppParser {
  import opened Text
  import opened Wire
  import opened Buffers

  const TOKEN_BYTES := 72

  method NewBuffers(n: nat) returns (buffers: seq<array<char>>)
    ensures |buffers| == n
    ensures forall i :: 0 <= i < n ==> fresh(buffers[i]) && buffers[i].Length == TOKEN_BYTES
    ensures forall i, j :: 0 <= i < j < n ==> buffers[i] != buffers[j]
  {
    buffers := [];
    for k := 0 to n
      invariant |buffers| == k
      invariant forall i :: 0 <= i < k ==> fresh(buffers[i]) && buffers[i].Length == TOKEN_BYTES
      invariant forall i, j :: 0 <= i < j < k ==> buffers[i] != buffers[j]
    {
      var buf := new char[TOKEN_BYTES];
      buffers := buffers + [buf];
    }
  }

  /** The Request struct: fixed character buffers and a used-argument count. */
  class RequestBuffers {
    var kind: AddressKind
    const target: array<char>
    var hasId: bool
    var id: nat
    const command: array<char>
    const args: seq<array<char>>
    var argc: nat

    ghost predicate Valid()
      reads this, target, command
    {
      && target.Length == TOKEN_BYTES && command.Length == TOKEN_BYTES
      && NUL in target[..] && NUL in command[..] && target != command
      && |args| == MAX_ARGS && argc <= MAX_ARGS
      && (forall i :: 0 <= i < MAX_ARGS ==>
            args[i].Length == TOKEN_BYTES && args[i] != target && args[i] != command)
      && (forall i, j :: 0 <= i < j < MAX_ARGS ==> args[i] != args[j])
    }

    function Words(n: nat): seq<string>
      requires n <= |args|
      reads args
    {
      seq(n, i requires 0 <= i < n reads args => CStr(args[i][..]))
    }

    /** The request the buffers hold. */
    function Model(): Request
      requires Valid()
      reads this, target, command, args
    {
      Request(kind, CStr(target[..]), hasId, id, CStr(command[..]), Words(argc))
    }

    constructor ()
      ensures Valid() && fresh(target) && fresh(command)
      ensures forall i :: 0 <= i < |args| ==> fresh(args[i])
    {
      kind, hasId, id, argc := Named, false, 0, 0;
      target := new char[TOKEN_BYTES](_ => NUL);
      command := new char[TOKEN_BYTES](_ => NUL);
      var buffers := NewBuffers(MAX_ARGS);
      args := buffers;
      new;
      assert target[..][0] == NUL && command[..][0] == NUL;
    }

    /** memset(&out, 0, sizeof(out)), as far as the strings can show it. */
    method Reset()
      requires Valid()
      modifies this, target, command
      ensures Valid() && Model() == NO_REQUEST
    {
      kind, hasId, id, argc := Named, false, 0, 0;
      target[0], command[0] := NUL, NUL;
      assert target[..][0] == NUL && command[..][0] == NUL;
      CStrIs(target[..], 0);
      CStrIs(command[..], 0);
    }
  }

  method SkipSpaces(s: string, p: nat) returns (q: nat)
    requires p <= |s| && NoNul(s)
    ensures p <= q <= |s| && s[q..] == Skip(Blank, s[p..])
  {
    q := SkipClass(Blank, s, p);
  }

  /** `while (isX(*p)) ++p;` for any class the terminator is outside of. */
  method SkipClass(k: CharClass, s: string, p: nat) returns (q: nat)
    requires p <= |s| && !Is(k, NUL)
    ensures p <= q <= |s| && q - p == Run(k, s[p..]) && s[q..] == Skip(k, s[p..])
  {
    hide Run;
    q := p;
    while Is(k, At(s, q))
      invariant p <= q <= |s|
      invariant forall i :: 0 <= i < q - p ==> Is(k, s[p..][i])
      decreases |s| - q
    {
      q := q + 1;
    }
    RunIs(k, s[p..], q - p);
  }

  method ReadTokenInto(s: string, p: nat, dest: array<char>, identOnly: bool) returns (ok: bool, q: nat)
    requires p <= |s| && NoNul(s) && dest.Length == TOKEN_BYTES
    modifies dest
    ensures q <= |s|
    ensures match ReadToken(if identOnly then Ident else Word, s[p..])
            case NoToken => !ok && dest[..] == old(dest[..])
            case Token(t, rest) =>
              ok && s[q..] == rest && NUL in dest[..] && CStr(dest[..]) == Kept(Cpp, t)
  {
    hide Run, Skip, ReadToken, CStr;
    var k := if identOnly then Ident else Word;
    var start := SkipSpaces(s, p);
    TokenStages(k, s[p..]);
    if start == |s| {
      return false, start;
    }
    q := SkipClass(k, s, start);
    if q == start {
      return false, q;
    }
    assert s[start..q] == s[start..][..q - start];
    CopyToken(dest, s, start, q - start);
    ok := true;
  }

  /** A token, by its two scans. */
  lemma TokenStages(k: CharClass, s: string)
    ensures var p := Skip(Blank, s);
            var n := Run(k, p);
            ReadToken(k, s) == (if n == 0 then NoToken else Token(p[..n], Skip(k, p))) && (p == "" ==> n == 0)
  {
  }

  /** strchr(t, '#') and whether there is something after it, all digits. */
  method FindGluedId(t: string) returns (glued: bool, hash: nat)
    requires NoNul(t)
    ensures hash == IndexOf(t, '#') && (glued <==> hash + 1 < |t| && AllIn(Digit, t[hash + 1..]))
  {
    hide Run;
    hash := IndexOf(t, '#');
    if hash + 1 >= |t| {
      return false, hash;
    }
    var d := SkipClass(Digit, t, hash + 1);
    assert d < |t| ==> !Is(Digit, t[hash + 1..][d - hash - 1]);
    glued := d == |t|;
  }

  method SplitGluedId(out: RequestBuffers)
    requires out.Valid()
    modifies out`hasId, out`id, out.target
    ensures out.Valid() && out.Model() == SplitGlued(Cpp, old(out.Model()))
  {
    hide Run, IdValue, CStr, Is, AllIn;
    var t := CStr(out.target[..]);
    CStrIsShort(out.target[..]);
    var glued, hash := FindGluedId(t);
    if glued {
      out.hasId, out.id := true, IdValue(Cpp, t[hash + 1..]);
      CutAt(out.target, hash);
    }
  }

  lemma CStrIsShort(data: string)
    requires NUL in data
    ensures |CStr(data)| < |data|
  {
    var i :| 0 <= i < |data| && data[i] == NUL;
    assert IndexOf(data, NUL) <= i;
  }

  /** `*hash = 0` */
  method CutAt(buf: array<char>, n: nat)
    requires n <= |CStr(buf[..])| < buf.Length
    modifies buf
    ensures NUL in buf[..] && CStr(buf[..]) == old(CStr(buf[..]))[..n]
  {
    buf[n] := NUL;
    assert buf[..][n] == NUL;
    assert buf[..][..n] == old(CStr(buf[..]))[..n];
    CStrIs(buf[..], n);
  }

  /** The target of the line at offset p: its kind and text go to the buffers. */
  method ReadTargetInto(s: string, p: nat, out: RequestBuffers) returns (ok: bool, q: nat)
    requires p < |s| && NoNul(s) && out.Valid() && out.Model() == NO_REQUEST
    modifies out`kind, out.target
    ensures q <= |s| && out.Valid()
    ensures match ReadTarget(Cpp, s[p..])
            case NoTarget(k) => !ok && out.Model() == NO_REQUEST.(kind := k)
            case Target(k, t, rest) =>
              ok && s[q..] == rest && out.Model() == NO_REQUEST.(kind := k, target := t)
  {
    hide Run, Skip, ReadToken, Kept, NameKind, Lower, CStr, Is, AllIn;
    if s[p] == '@' {
      assert s[p..][1..] == s[p + 1..];
      ok, q := ReadHexInto(s, p + 1, out.target);
      if ok {
        out.kind := Id;
      }
    } else if |s| - p >= 6 && (s[p..p + 6] == "group:" || s[p..p + 6] == "GROUP:") {
      assert s[p..][..6] == s[p..p + 6] && s[p..][6..] == s[p + 6..];
      out.kind := Group;
      ok, q := ReadTokenInto(s, p + 6, out.target, true);
    } else {
      assert |s| - p >= 6 ==> s[p..][..6] == s[p..p + 6];
      ok, q := ReadTokenInto(s, p, out.target, true);
      if ok {
        out.kind := KindOfName(CStr(out.target[..]));
      }
    }
  }

  method ReadHexInto(s: string, p: nat, dest: array<char>) returns (ok: bool, q: nat)
    requires p <= |s| && NoNul(s) && dest.Length == TOKEN_BYTES
    modifies dest
    ensures q <= |s|
    ensures var n := Run(Hex, s[p..]);
            if n == 0 then !ok && dest[..] == old(dest[..])
            else ok && s[q..] == s[p..][n..] && NUL in dest[..] && CStr(dest[..]) == Kept(Cpp, s[p..][..n])
  {
    hide Run;
    q := SkipClass(Hex, s, p);
    if q == p {
      return false, q;
    }
    assert s[p..q] == s[p..][..q - p];
    CopyToken(dest, s, p, q - p);
    ok := true;
  }

  method KindOfName(t: string) returns (kind: AddressKind)
    requires NoNul(t)
    ensures kind == NameKind(t)
  {
    assert Lower("all") == "all" && Lower("self") == "self";
    var all := Ieq(Str(t), Str("all"));
    if all {
      return Everyone;
    }
    var self := Ieq(Str(t), Str("self"));
    return if self then Self else Named;
  }

  /** The optional `#digits`, read through a sixteen-byte buffer. */
  method ReadIdInto(s: string, p: nat, out: RequestBuffers) returns (ok: bool, q: nat)
    requires p <= |s| && NoNul(s) && out.Valid()
    modifies out`hasId, out`id
    ensures q <= |s| && out.Valid()
    ensures match ReadId(Cpp, old(out.Model()), s[p..])
            case BadId => !ok && out.Model() == old(out.Model())
            case IdRead(r, rest) => ok && s[q..] == rest && out.Model() == r
  {
    hide Run, CStr, IdValue, IdDigits, Is;
    if At(s, p) != '#' {
      return true, p;
    }
    assert s[p..][1..] == s[p + 1..];
    var idbuf: string;
    idbuf, q := DigitsInto(s, p + 1);
    if idbuf == "" {
      return false, q;
    }
    out.hasId, out.id := true, IdValue(Cpp, idbuf);
    ok := true;
  }

  /** Digits go to idbuf while there is room for the terminator. */
  method DigitsInto(s: string, p: nat) returns (idbuf: string, q: nat)
    requires p <= |s| && NoNul(s)
    ensures var n := IdDigits(Cpp, s[p..]);
            q <= |s| && idbuf == s[p..][..n] && AllIn(Digit, idbuf) && s[q..] == s[p..][n..]
  {
    q, idbuf := p, "";
    while Is(Digit, At(s, q)) && |idbuf| + 1 < 16
      invariant p <= q <= |s| && |idbuf| == q - p <= MAX_ID_DIGITS
      invariant idbuf == s[p..q] && AllIn(Digit, idbuf)
    {
      idbuf := idbuf + [s[q]];
      q := q + 1;
    }
    assert s[p..][..q - p] == idbuf;
    assert q < |s| ==> s[p..][q - p] == s[q];
    RunAtLeast(s[p..], q - p);
  }

  /** Digits collected up to the buffer limit are as many as the grammar reads. */
  lemma RunAtLeast(s: string, n: nat)
    requires n <= |s| && n <= MAX_ID_DIGITS && AllIn(Digit, s[..n])
    requires n == MAX_ID_DIGITS || (n < |s| ==> !Is(Digit, s[n]))
    ensures IdDigits(Cpp, s) == n
  {
    hide Run;
    assert forall i :: 0 <= i < n ==> s[..n][i] == s[i];
    if n < |s| && Is(Digit, s[n]) {
      var r := Run(Digit, s);
      assert r < |s| ==> !Is(Digit, s[r]);
    } else {
      RunIs(Digit, s, n);
    }
  }

  /** The next argument word goes to the next free buffer. */
  method ReadArgInto(s: string, p: nat, out: RequestBuffers) returns (more: bool, q: nat)
    requires p <= |s| && NoNul(s) && out.Valid() && out.argc < MAX_ARGS
    modifies out`argc, out.args
    ensures out.Valid() && q <= |s|
    ensures match ReadToken(Word, s[p..])
            case NoToken => !more && out.argc == old(out.argc) && out.Words(out.argc) == old(out.Words(out.argc))
            case Token(t, rest) =>
              && more && s[q..] == rest && out.argc == old(out.argc) + 1
              && out.Words(out.argc) == old(out.Words(out.argc)) + [Kept(Cpp, t)]
  {
    hide Run, Skip, ReadToken, CStr, Kept, Is, NoNul;
    ghost var before := out.Words(out.argc);
    more, q := ReadTokenInto(s, p, out.args[out.argc], false);
    assert out.Words(out.argc) == before;
    if more {
      out.argc := out.argc + 1;
    }
  }

  method ReadArgsInto(s: string, p: nat, out: RequestBuffers)
    requires p <= |s| && NoNul(s) && out.Valid() && out.argc == 0
    modifies out`argc, out.args
    ensures out.Valid()
    ensures out.Words(out.argc) == ReadArgs(Cpp, s[p..])
  {
    hide Run, Skip, ReadToken, Wire.Words, CStr, Kept, Is, AllIn, NoNul;
    ghost var all := Wire.Words(s[p..]);
    var q: nat, more := p, true;
    while out.argc < MAX_ARGS && more
      invariant q <= |s| && out.Valid() && out.argc <= |all|
      invariant out.Words(out.argc) == KeptAll(Cpp, all[..out.argc])
      invariant if more then all[out.argc..] == Wire.Words(s[q..]) else out.argc == |all|
      decreases MAX_ARGS - out.argc, more
    {
      NextWord(all, out.argc, s[q..]);
      more, q := ReadArgInto(s, q, out);
    }
    assert all[..out.argc] == FirstArgs(all);
  }

  lemma NextWord(all: seq<string>, n: nat, s: string)
    requires n <= |all| && all[n..] == Wire.Words(s)
    ensures match ReadToken(Word, s)
            case NoToken => n == |all|
            case Token(t, rest) => n < |all| && all[n] == t && all[n + 1..] == Wire.Words(rest)
  {
    hide Run, ReadToken;
    if ReadToken(Word, s).Token? {
      assert all[n..][0] == all[n] && all[n..][1..] == all[n + 1..];
    }
  }

  method ReadCommandInto(s: string, p: nat, out: RequestBuffers) returns (result: ParseResult)
    requires p <= |s| && NoNul(s) && out.Valid() && out.argc == 0
    modifies out`argc, out.command, out.args
    ensures out.Valid()
    ensures Parsed(result, out.Model()) == ReadCommand(Cpp, old(out.Model()), s[p..])
  {
    hide Run, ReadToken, CStr, Wire.Words;
    var ok, q := ReadTokenInto(s, p, out.command, true);
    if !ok {
      return MissingCommand;
    }
    LowerInPlace(out.command);
    if CStr(out.command[..]) == "discover" {
      CopyToken(out.command, "discovery", 0, 9);
    }
    ReadArgsInto(s, q, out);
    return Ok;
  }

  method Parse(input: CString, out: RequestBuffers) returns (result: ParseResult)
    requires out.Valid() && (input.Str? ==> NoNul(input.text))
    modifies out, out.target, out.command, out.args
    ensures out.Valid()
    ensures Parsed(result, out.Model())
         == if input.Str? then Wire.Parse(Cpp, input.text) else Parsed(Empty, NO_REQUEST)
  {
    hide Run, Skip, ReadTarget, ReadId, ReadCommand;
    out.Reset();
    if input.Null? {
      return Empty;
    }
    var s := input.text;
    var p := SkipSpaces(s, 0);
    p := SkipClass(LineEnd, s, p);
    if p == |s| {
      return Empty;
    }
    p := SkipSpaces(s, p);
    if p == |s| {
      return MissingTarget;
    }
    var ok: bool;
    ok, p := ReadTargetInto(s, p, out);
    if !ok {
      return Malformed;
    }
    SplitGluedId(out);
    p := SkipSpaces(s, p);
    ok, p := ReadIdInto(s, p, out);
    if !ok {
      return Malformed;
    }
    result := ReadCommandInto(s, p, out);
  }

  /** Parser::stripSenderPrefix, as an offset into the text. */
  method StripSenderPrefix(text: CString) returns (line: string)
    requires text.Str? ==> NoNul(text.text)
    ensures line == if text.Str? then StripSender(text.text) else ""
  {
    hide Run;
    if text.Null? {
      return "";
    }
    var s := text.text;
    var colon := IndexOf(s, ':');
    if colon == |s| {
      return s;
    }
    var msg := colon + 1;
    if At(s, msg) != ' ' && At(s, msg) != '\t' {
      return s;
    }
    msg := SkipSpaces(s, msg);
    return s[msg..];
  }
}
