/**
 The fixed buffers of include/mcrpc/McRpcTypes.h: bounded token copies, in-place
 lower case, case-insensitive comparison, and the reply buffer.
 */
module Buffers {
  import opened Text

  const MAX_REPLY := 192

  /** Copies at most |dest| - 1 of the n characters at offset start and terminates them. */
  method CopyToken(dest: array<char>, s: string, start: nat, n: nat)
    requires start + n <= |s| && NoNul(s[start..start + n])
    modifies dest
    ensures dest.Length > 0 ==> NUL in dest[..] && CStr(dest[..]) == Cut(s[start..start + n], dest.Length - 1)
  {
    if dest.Length == 0 {
      return;
    }
    ghost var src := s[start..start + n];
    var m := if n >= dest.Length then dest.Length - 1 else n;
    for i := 0 to m
      invariant dest[..i] == s[start..start + i]
    {
      dest[i] := s[start + i];
    }
    dest[m] := NUL;
    assert dest[..m] == src[..m];
    assert dest[..][..m] == dest[..m] && dest[..][m] == NUL;
    CStrIs(dest[..], m);
  }

  /** Lowers the C string held in a buffer, character by character up to its terminator. */
  method LowerInPlace(buf: array<char>)
    requires NUL in buf[..]
    modifies buf
    ensures NUL in buf[..] && CStr(buf[..]) == Lower(old(CStr(buf[..])))
  {
    ghost var was := buf[..];
    ghost var n := IndexOf(was, NUL);
    assert n < |was| by {
      var j :| 0 <= j < |was| && was[j] == NUL;
    }
    var i := 0;
    while buf[i] != NUL
      invariant 0 <= i <= n
      invariant forall j :: 0 <= j < i ==> buf[j] == LowerChar(was[j])
      invariant forall j :: i <= j < buf.Length ==> buf[j] == was[j]
      decreases n - i
    {
      buf[i] := LowerChar(buf[i]);
      i := i + 1;
    }
    assert buf[..][..n] == Lower(was[..n]);
    CStrIs(buf[..], n);
  }

  /** Case-insensitive comparison, one pair of characters at a time. */
  method Ieq(a: CString, b: CString) returns (same: bool)
    requires (a.Str? ==> NoNul(a.text)) && (b.Str? ==> NoNul(b.text))
    ensures same <==> (a.Null? && b.Null?) || (a.Str? && b.Str? && Lower(a.text) == Lower(b.text))
  {
    if a.Null? || b.Null? {
      return a.Null? && b.Null?;
    }
    var s, t, i := a.text, b.text, 0;
    while At(s, i) != NUL && At(t, i) != NUL
      invariant i <= |s| && i <= |t|
      invariant Lower(s)[..i] == Lower(t)[..i]
      decreases |s| - i
    {
      if LowerChar(s[i]) != LowerChar(t[i]) {
        assert Lower(s)[i] != Lower(t)[i];
        return false;
      }
      i := i + 1;
    }
    assert Lower(s)[..|s|] == Lower(s) && Lower(t)[..|t|] == Lower(t);
    return At(s, i) == NUL && At(t, i) == NUL;
  }

  /** A bounded text after one append: all of the piece or none of it. */
  function Push(text: string, piece: string): string {
    if |text| + |piece| < MAX_REPLY then text + piece else text
  }

  predicate Fits(text: string, piece: string) {
    |text| + |piece| < MAX_REPLY
  }

  class ReplyBuffer {
    const data: array<char>
    var len: nat

    ghost predicate Valid()
      reads this, data
    {
      data.Length == MAX_REPLY && len < MAX_REPLY && data[len] == NUL && NoNul(data[..len])
    }

    ghost function Text(): string
      requires Valid()
      reads this, data
    {
      data[..len]
    }

    constructor ()
      ensures Valid() && Text() == "" && fresh(data)
    {
      data := new char[MAX_REPLY](_ => NUL);
      len := 0;
    }

    /** What a reader of `data` sees is the text, neither more nor less. */
    lemma ReadsAsText()
      requires Valid()
      ensures CStr(data[..]) == Text()
    {
      assert data[..][..len] == data[..len];
      CStrIs(data[..], len);
    }

    method Clear()
      requires Valid()
      modifies this, data
      ensures Valid() && Text() == ""
    {
      data[0] := NUL;
      len := 0;
    }

    method Append(s: CString) returns (ok: bool)
      requires Valid() && (s.Str? ==> NoNul(s.text))
      modifies this, data
      ensures Valid()
      ensures ok <==> s.Str? && Fits(old(Text()), s.text)
      ensures Text() == if s.Str? then Push(old(Text()), s.text) else old(Text())
    {
      if s.Null? {
        return false;
      }
      var n := |s.text|;
      if len + n >= MAX_REPLY {
        return false;
      }
      for i := 0 to n
        invariant len == old(len)
        invariant data[..len + i] == old(data[..len]) + s.text[..i]
      {
        data[len + i] := s.text[i];
      }
      len := len + n;
      data[len] := NUL;
      return true;
    }

    method AppendChar(c: char) returns (ok: bool)
      requires Valid() && c != NUL
      modifies this, data
      ensures Valid()
      ensures ok <==> Fits(old(Text()), [c])
      ensures Text() == Push(old(Text()), [c])
    {
      if len + 1 >= MAX_REPLY {
        return false;
      }
      data[len] := c;
      len := len + 1;
      data[len] := NUL;
      return true;
    }

    /** vsnprintf into a scratch buffer of the same size, then append. */
    method Printf(formatted: string) returns (ok: bool)
      requires Valid() && NoNul(formatted)
      modifies this, data
      ensures Valid()
      ensures ok <==> Fits(old(Text()), Cut(formatted, MAX_REPLY - 1))
      ensures Text() == Push(old(Text()), Cut(formatted, MAX_REPLY - 1))
    {
      ok := Append(Str(Cut(formatted, MAX_REPLY - 1)));
    }
  }
}
