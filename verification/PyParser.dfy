/** python/mcrpc/parser.py: the same grammar over unbounded strings, by index. */
module PyParser {
  import opened Text
  import opened Wire

  method SkipClass(k: CharClass, s: string, start: nat) returns (i: nat)
    requires start <= |s|
    ensures start <= i <= |s| && i - start == Run(k, s[start..]) && s[i..] == Skip(k, s[start..])
  {
    hide Run;
    i := start;
    while i < |s| && Is(k, s[i])
      invariant start <= i <= |s|
      invariant forall j :: 0 <= j < i - start ==> Is(k, s[start..][j])
    {
      i := i + 1;
    }
    RunIs(k, s[start..], i - start);
  }

  /** A token and the index after it; None is NoToken. */
  method ReadTokenAt(s: string, start: nat, identOnly: bool) returns (token: CString, i: nat)
    requires start <= |s|
    ensures i <= |s|
    ensures match ReadToken(if identOnly then Ident else Word, s[start..])
            case NoToken => token == Null
            case Token(t, rest) => token == Str(t) && s[i..] == rest
  {
    hide Run;
    i := SkipClass(Blank, s, start);
    if i >= |s| {
      return Null, i;
    }
    var first := i;
    i := SkipClass(if identOnly then Ident else Word, s, first);
    if i == first {
      return Null, i;
    }
    assert s[first..i] == s[first..][..i - first];
    token := Str(s[first..i]);
  }

  /** The target of the line at index `start`, and how far it reaches. */
  method ReadTargetAt(s: string, start: nat) returns (stage: TargetStage, i: nat)
    requires start < |s|
    ensures i <= |s| && stage == ReadTarget(Python, s[start..])
    ensures stage.Target? ==> s[i..] == stage.rest
  {
    hide Run, ReadToken;
    var token: CString;
    if s[start] == '@' {
      assert s[start..][1..] == s[start + 1..];
      i := SkipClass(Hex, s, start + 1);
      assert s[start + 1..i] == s[start + 1..][..i - start - 1];
      return if i == start + 1 then NoTarget(Named) else Target(Id, s[start + 1..i], s[i..]), i;
    }
    if |s| - start >= 6 && Lower(s[start..start + 6]) == "group:" {
      assert s[start..][..6] == s[start..start + 6] && s[start..][6..] == s[start + 6..];
      token, i := ReadTokenAt(s, start + 6, true);
      return if token.Null? then NoTarget(Group) else Target(Group, token.text, s[i..]), i;
    }
    assert |s| - start >= 6 ==> s[start..][..6] == s[start..start + 6];
    token, i := ReadTokenAt(s, start, true);
    if token.Null? {
      return NoTarget(Named), i;
    }
    var low := Lower(token.text);
    var kind := if low == "all" then Everyone else if low == "self" then Self else Named;
    return Target(kind, token.text, s[i..]), i;
  }

  /** The glued `#digits` inside the target. */
  method SplitGluedId(r: Request) returns (out: Request)
    ensures out == SplitGlued(Python, r) && out.args == r.args
  {
    var hash := IndexOf(r.target, '#');
    out := r;
    if hash + 1 < |r.target| && AllIn(Digit, r.target[hash + 1..]) {
      out := r.(hasId := true, id := Value(r.target[hash + 1..]), target := r.target[..hash]);
    }
  }

  /** The separate `#digits`, all of them. */
  method ReadIdAt(s: string, start: nat, r: Request) returns (ok: bool, out: Request, i: nat)
    requires start <= |s|
    ensures i <= |s| && out.args == r.args
    ensures match ReadId(Python, r, s[start..])
            case BadId => !ok && out == r
            case IdRead(r', rest) => ok && out == r' && s[i..] == rest
  {
    hide Run, Value;
    out, i := r, start;
    if start >= |s| || s[start] != '#' {
      return true, out, i;
    }
    var first := start + 1;
    assert s[start..][1..] == s[first..];
    i := SkipClass(Digit, s, first);
    if i == first {
      return false, out, i;
    }
    assert s[first..i] == s[first..][..i - first];
    out := out.(hasId := true, id := Value(s[first..i]));
    ok := true;
  }

  method Parse(input: CString) returns (result: ParseResult, out: Request)
    requires input.Str? ==> NoNul(input.text)
    ensures Parsed(result, out)
         == if input.Str? then Wire.Parse(Python, input.text) else Parsed(Empty, NO_REQUEST)
  {
    hide Run, Skip, ReadTarget, ReadId, SplitGlued, ReadCommand;
    out := NO_REQUEST;
    if input.Null? {
      return Empty, out;
    }
    var s := input.text;
    var i := SkipClass(Blank, s, 0);
    i := SkipClass(LineEnd, s, i);
    if i >= |s| {
      return Empty, out;
    }
    i := SkipClass(Blank, s, i);
    if i >= |s| {
      return MissingTarget, out;
    }
    var stage: TargetStage;
    stage, i := ReadTargetAt(s, i);
    out := out.(kind := stage.kind);
    if stage.NoTarget? {
      return Malformed, out;
    }
    out := out.(target := stage.text);
    out := SplitGluedId(out);
    i := SkipClass(Blank, s, i);
    var ok: bool;
    ok, out, i := ReadIdAt(s, i, out);
    if !ok {
      return Malformed, out;
    }
    result, out := ReadCommandAt(s, i, out);
  }

  /** Every argument word after the command. */
  method ReadArgsAt(s: string, start: nat) returns (args: seq<string>)
    requires start <= |s|
    ensures args == Words(s[start..])
  {
    hide Run, ReadToken, Is;
    ghost var all := Words(s[start..]);
    args := [];
    var token: CString, i: nat := ReadTokenAt(s, start, false);
    NextWords(s[start..]);
    while token.Str?
      invariant i <= |s|
      invariant all == args + if token.Null? then [] else [token.text] + Words(s[i..])
      decreases |all| - |args|
    {
      NextWords(s[i..]);
      assert args + ([token.text] + Words(s[i..])) == args + [token.text] + Words(s[i..]);
      args := args + [token.text];
      token, i := ReadTokenAt(s, i, false);
    }
    assert args + [] == args;
  }

  lemma NextWords(s: string)
    ensures Words(s) == match ReadToken(Word, s)
                        case NoToken => []
                        case Token(t, rest) => [t] + Words(rest)
  {
  }

  /** The command and every argument after it. */
  method ReadCommandAt(s: string, start: nat, r: Request) returns (result: ParseResult, out: Request)
    requires start <= |s| && r.args == []
    ensures Parsed(result, out) == ReadCommand(Python, r, s[start..])
  {
    hide Run, ReadToken, Words, Is;
    var token: CString, i: nat := ReadTokenAt(s, start, true);
    if token.Null? {
      return MissingCommand, r;
    }
    out := r.(command := Lower(token.text));
    if out.command == "discover" {
      out := out.(command := "discovery");
    }
    var args := ReadArgsAt(s, i);
    assert KeptAll(Python, args) == args;
    return Ok, out.(args := args);
  }

  /** strip_sender_prefix: find, test the next character, lstrip. */
  method StripSenderPrefix(text: CString) returns (line: string)
    ensures line == if text.Str? then StripSender(text.text) else ""
  {
    hide Run;
    if text.Null? {
      return "";
    }
    var s := text.text;
    var colon := IndexOf(s, ':');
    if colon == |s| || colon + 1 >= |s| || !Is(Blank, s[colon + 1]) {
      return s;
    }
    var i := SkipClass(Blank, s, colon + 1);
    return s[i..];
  }
}
