/** include/mcrpc/UptimeFormat.h and python/mcrpc/uptime.py: compact uptime and short ids. */
module Uptime {
  import opened Text
  import opened Buffers

  /** At most two segments, the second left out when it is zero. */
  function FormatUptime(seconds: nat): (s: string)
    ensures NoNul(s)
  {
    if seconds < 60 then Decimal(seconds) + "s"
    else if seconds < 3600 then
      var m, s := seconds / 60, seconds % 60;
      if s == 0 then Decimal(m) + "m" else Decimal(m) + "m" + Decimal(s) + "s"
    else if seconds < 86400 then
      var h, m := seconds / 3600, (seconds % 3600) / 60;
      if m == 0 then Decimal(h) + "h" else Decimal(h) + "h" + Decimal(m) + "m"
    else
      var d, h := seconds / 86400, (seconds % 86400) / 3600;
      if h == 0 then Decimal(d) + "d" else Decimal(d) + "d" + Decimal(h) + "h"
  }

  /** The text as the C++ function has it printed. */
  method UptimeText(seconds: nat) returns (text: string)
    ensures text == FormatUptime(seconds)
  {
    hide Decimal;
    if seconds < 60 {
      return Decimal(seconds) + "s";
    }
    if seconds < 3600 {
      var m, s := seconds / 60, seconds % 60;
      return if s == 0 then Decimal(m) + "m" else Decimal(m) + "m" + Decimal(s) + "s";
    }
    if seconds < 86400 {
      var h, m := seconds / 3600, (seconds % 3600) / 60;
      return if m == 0 then Decimal(h) + "h" else Decimal(h) + "h" + Decimal(m) + "m";
    }
    var d, h := seconds / 86400, (seconds % 86400) / 3600;
    return if h == 0 then Decimal(d) + "d" else Decimal(d) + "d" + Decimal(h) + "h";
  }

  /** snprintf into the caller's buffer: cut to what fits, refused below four bytes. */
  method FormatUptimeInto(seconds: nat, out: array?<char>) returns (ok: bool)
    requires seconds < 0x1_0000_0000
    modifies out
    ensures ok <==> out != null && out.Length >= 4
    ensures ok ==> NUL in out[..] && CStr(out[..]) == Cut(FormatUptime(seconds), out.Length - 1)
  {
    hide FormatUptime;
    if out == null || out.Length < 4 {
      return false;
    }
    var text := UptimeText(seconds);
    assert text[0..|text|] == text;
    CopyToken(out, text, 0, |text|);
    ok := true;
  }

  function DivMod(n: nat, k: nat): (nat, nat)
    requires k > 0
  {
    (n / k, n % k)
  }

  /** format_uptime of the Python peer: any integer, negative ones count as zero. */
  function FormatPython(seconds: int): string {
    var n: nat := if seconds > 0 then seconds else 0;
    if n < 60 then Decimal(n) + "s"
    else if n < 3600 then
      var (m, s) := DivMod(n, 60);
      if s == 0 then Decimal(m) + "m" else Decimal(m) + "m" + Decimal(s) + "s"
    else if n < 86400 then
      var (h, rem) := DivMod(n, 3600);
      var m := rem / 60;
      if m == 0 then Decimal(h) + "h" else Decimal(h) + "h" + Decimal(m) + "m"
    else
      var (d, rem) := DivMod(n, 86400);
      var h := rem / 3600;
      if h == 0 then Decimal(d) + "d" else Decimal(d) + "d" + Decimal(h) + "h"
  }

  /** A sixteen-byte buffer never truncates a 32-bit count. */
  lemma SixteenBytesSuffice(seconds: nat)
    requires seconds < 0x1_0000_0000
    ensures Cut(FormatUptime(seconds), 15) == FormatUptime(seconds)
  {
    hide Decimal;
    assert Pow10(1) == 10 && Pow10(2) == 100 && Pow10(3) == 1000 && Pow10(5) == 100_000;
    if seconds < 60 {
      DecimalLength(seconds, 2);
    } else if seconds < 3600 {
      DecimalLength(seconds / 60, 2);
      DecimalLength(seconds % 60, 2);
    } else if seconds < 86400 {
      DecimalLength(seconds / 3600, 2);
      DecimalLength((seconds % 3600) / 60, 2);
    } else {
      DecimalLength(seconds / 86400, 5);
      DecimalLength((seconds % 86400) / 3600, 2);
    }
  }

  /** The texts from the numbers in them: no zero segment, and a larger unit as soon as there is one. */
  lemma TextsAre(d: nat, h: nat, m: nat, s: nat)
    requires h < 24 && m < 60 && s < 60
    ensures FormatUptime(s) == Decimal(s) + "s"
    ensures m > 0 ==> FormatUptime(60 * m + s) == Decimal(m) + (if s > 0 then "m" + Decimal(s) + "s" else "m")
    ensures h > 0 ==> FormatUptime(3600 * h + 60 * m + s)
                      == Decimal(h) + (if m > 0 then "h" + Decimal(m) + "m" else "h")
    ensures d > 0 ==> FormatUptime(86400 * d + 3600 * h + 60 * m + s)
                      == Decimal(d) + (if h > 0 then "d" + Decimal(h) + "h" else "d")
  {
    hide FormatUptime, Decimal;
    TextOfMinutes(m, s);
    TextOfHours(h, m, s);
    TextOfDays(d, h, 60 * m + s);
    assert 86400 * d + 3600 * h + (60 * m + s) == 86400 * d + 3600 * h + 60 * m + s;
  }

  lemma Parts(q: nat, a: nat, r: nat)
    requires r < a && (a == 60 || a == 3600 || a == 86400)
    ensures (q * a + r) / a == q && (q * a + r) % a == r
  {
    var n := q * a + r;
    assert a == 60 ==> n / 60 == q && n % 60 == r;
    assert a == 3600 ==> n / 3600 == q && n % 3600 == r;
    assert a == 86400 ==> n / 86400 == q && n % 86400 == r;
  }

  lemma HoursText(n: nat, h: nat, m: nat)
    requires 3600 <= n < 86400 && h == n / 3600 && m == (n % 3600) / 60
    ensures FormatUptime(n) == Decimal(h) + (if m > 0 then "h" + Decimal(m) + "m" else "h")
  {
    hide Decimal;
    var a, b := Decimal(h), Decimal(m);
    assert a + "h" + b + "m" == a + ("h" + b + "m");
  }

  lemma DaysText(n: nat, d: nat, h: nat)
    requires 86400 <= n && d == n / 86400 && h == (n % 86400) / 3600
    ensures FormatUptime(n) == Decimal(d) + (if h > 0 then "d" + Decimal(h) + "h" else "d")
  {
    hide Decimal;
    var a, b := Decimal(d), Decimal(h);
    assert a + "d" + b + "h" == a + ("d" + b + "h");
  }

  lemma TextOfMinutes(m: nat, s: nat)
    requires m < 60 && s < 60
    ensures FormatUptime(s) == Decimal(s) + "s"
    ensures m > 0 ==> FormatUptime(60 * m + s) == Decimal(m) + (if s > 0 then "m" + Decimal(s) + "s" else "m")
  {
    hide Decimal;
    Parts(m, 60, s);
    var a, b := Decimal(m), Decimal(s);
    assert a + "m" + b + "s" == a + ("m" + b + "s");
  }

  lemma TextOfHours(h: nat, m: nat, s: nat)
    requires h < 24 && m < 60 && s < 60
    ensures h > 0 ==> FormatUptime(3600 * h + 60 * m + s)
                      == Decimal(h) + (if m > 0 then "h" + Decimal(m) + "m" else "h")
  {
    hide Decimal, FormatUptime;
    Parts(h, 3600, m * 60 + s);
    Parts(m, 60, s);
    if h > 0 {
      HoursText(h * 3600 + (m * 60 + s), h, m);
      assert h * 3600 + (m * 60 + s) == 3600 * h + 60 * m + s;
    }
  }

  lemma TextOfDays(d: nat, h: nat, rest: nat)
    requires h < 24 && rest < 3600
    ensures d > 0 ==> FormatUptime(86400 * d + 3600 * h + rest)
                      == Decimal(d) + (if h > 0 then "d" + Decimal(h) + "h" else "d")
  {
    hide Decimal, FormatUptime;
    Parts(d, 86400, h * 3600 + rest);
    Parts(h, 3600, rest);
    if d > 0 {
      DaysText(d * 86400 + (h * 3600 + rest), d, h);
      assert d * 86400 + (h * 3600 + rest) == 86400 * d + 3600 * h + rest;
    }
  }

  // ----- reading it back -------------------------------------------------------------

  function UnitSeconds(c: char): nat {
    if c == 'd' then 86400 else if c == 'h' then 3600 else if c == 'm' then 60 else 1
  }

  /** The seconds a text of `digits unit` segments stands for. */
  function Decode(s: string): nat
    decreases |s|
  {
    var n := Run(Digit, s);
    if n == |s| then 0
    else Value(s[..n]) * UnitSeconds(s[n]) + Decode(s[n + 1..])
  }

  lemma DecodeSegment(v: nat, unit: char, rest: string)
    requires !Is(Digit, unit)
    ensures Decode(Decimal(v) + [unit] + rest) == v * UnitSeconds(unit) + Decode(rest)
  {
    hide Run, Decimal, Value;
    var ds, s := Decimal(v), Decimal(v) + [unit] + rest;
    assert s == ds + ([unit] + rest);
    RunOver(Digit, ds, [unit] + rest);
    ValueOfDecimal(v);
    assert s[..|ds|] == ds && s[|ds|] == unit && s[|ds| + 1..] == rest;
  }

  lemma DecodeOne(v: nat, unit: char)
    requires !Is(Digit, unit)
    ensures Decode(Decimal(v) + [unit]) == v * UnitSeconds(unit)
  {
    hide Decimal, UnitSeconds;
    DecodeSegment(v, unit, "");
    assert Decimal(v) + [unit] + "" == Decimal(v) + [unit];
    assert Decode("") == 0;
  }

  lemma DecodeTwo(v: nat, unit: char, v': nat, unit': char)
    requires !Is(Digit, unit) && !Is(Digit, unit')
    ensures Decode(Decimal(v) + [unit] + Decimal(v') + [unit']) == v * UnitSeconds(unit) + v' * UnitSeconds(unit')
  {
    hide Decimal, UnitSeconds, Decode;
    DecodeOne(v', unit');
    assert Decimal(v) + [unit] + Decimal(v') + [unit'] == Decimal(v) + [unit] + (Decimal(v') + [unit']);
    DecodeSegment(v, unit, Decimal(v') + [unit']);
  }

  /** The precision the text keeps. */
  function Rounded(seconds: nat): nat {
    if seconds < 3600 then seconds
    else if seconds < 86400 then seconds / 60 * 60
    else seconds / 3600 * 3600
  }

  lemma DecodeMinutes(n: nat)
    requires 60 <= n < 3600
    ensures Decode(FormatUptime(n)) == n
  {
    hide Decimal, Decode;
    var m, s := n / 60, n % 60;
    assert n == m * 60 + s;
    DecodeOne(m, 'm');
    DecodeTwo(m, 'm', s, 's');
  }

  /** Quotients of a count by an outer unit and of the rest by an inner one. */
  lemma TwoUnits(n: nat, a: nat, b: nat, k: nat)
    requires (a == 3600 && b == 60 && k == 60) || (a == 86400 && b == 3600 && k == 24)
    ensures var q, r := n / a, (n % a) / b;
            n / b == q * k + r && r < k && n / b * b == q * a + r * b
  {
    var q, rest := n / a, n % a;
    var r, t := rest / b, rest % b;
    assert n == q * a + r * b + t && t < b;
    assert n == (q * k + r) * b + t;
  }

  lemma DecodeHours(n: nat)
    requires 3600 <= n < 86400
    ensures Decode(FormatUptime(n)) == n / 60 * 60
  {
    hide Decimal, Decode;
    var h, m := n / 3600, (n % 3600) / 60;
    TwoUnits(n, 3600, 60, 60);
    DecodeOne(h, 'h');
    DecodeTwo(h, 'h', m, 'm');
  }

  lemma DecodeDays(n: nat)
    requires 86400 <= n
    ensures Decode(FormatUptime(n)) == n / 3600 * 3600
  {
    hide Decimal, Decode;
    var d, h := n / 86400, (n % 86400) / 3600;
    TwoUnits(n, 86400, 3600, 24);
    DecodeOne(d, 'd');
    DecodeTwo(d, 'd', h, 'h');
  }

  /** Decoding gives the count itself below an hour, whole minutes below a day, whole hours above. */
  lemma DecodeOfFormat(n: nat)
    ensures Decode(FormatUptime(n)) == Rounded(n)
  {
    hide Decode, Decimal;
    if n < 60 {
      DecodeOne(n, 's');
    } else {
      hide FormatUptime;
      if n < 3600 {
        DecodeMinutes(n);
      } else if n < 86400 {
        DecodeHours(n);
      } else {
        DecodeDays(n);
      }
    }
  }

  /** Rounding to the inner unit changes neither quotient. */
  lemma RoundedUnits(n: nat, a: nat, b: nat, k: nat)
    requires (a == 3600 && b == 60 && k == 60) || (a == 86400 && b == 3600 && k == 24)
    ensures var r := n / b * b; r / a == n / a && (r % a) / b == (n % a) / b
  {
    TwoUnits(n, a, b, k);
    var q, rest := n / a, (n % a) / b;
    var r := n / b * b;
    assert r == q * a + rest * b && rest * b < a;
  }

  lemma FormatOfRounded(n: nat)
    ensures FormatUptime(Rounded(n)) == FormatUptime(n)
  {
    hide Decimal, FormatUptime;
    if 3600 <= n < 86400 {
      RoundedUnits(n, 3600, 60, 60);
      HoursText(n, n / 3600, (n % 3600) / 60);
      HoursText(Rounded(n), n / 3600, (n % 3600) / 60);
    } else if n >= 86400 {
      RoundedUnits(n, 86400, 3600, 24);
      DaysText(n, n / 86400, (n % 86400) / 3600);
      DaysText(Rounded(n), n / 86400, (n % 86400) / 3600);
    }
  }

  /** The Python peer prints the same text, for negative counts that of zero; so it decodes alike. */
  lemma PythonPrintsTheSame(seconds: int)
    ensures var n := if seconds > 0 then seconds else 0;
            FormatPython(seconds) == FormatUptime(n) && Decode(FormatPython(seconds)) == Rounded(n)
  {
    hide Decode, Decimal;
    DecodeOfFormat(if seconds > 0 then seconds else 0);
  }

  /** Two counts print alike exactly when they agree to that precision. */
  lemma SameTextExactly(a: nat, b: nat)
    ensures FormatUptime(a) == FormatUptime(b) <==> Rounded(a) == Rounded(b)
  {
    hide FormatUptime, Rounded;
    DecodeOfFormat(a);
    DecodeOfFormat(b);
    FormatOfRounded(a);
    FormatOfRounded(b);
  }

  // ----- short ids --------------------------------------------------------------------

  function LowerAF(c: char): char {
    if 'A' <= c <= 'F' then c - 'A' + 'a' else c
  }

  /** The first eight characters, A-F lowered. */
  function ShortId8(id: string): (s: string)
    ensures |s| == if |id| < 8 then |id| else 8
    ensures forall i :: 0 <= i < |s| ==> s[i] == LowerAF(id[i])
  {
    seq(if |id| < 8 then |id| else 8, i requires 0 <= i < |id| => LowerAF(id[i]))
  }

  /** The characters of a short id by their codes, whatever the id holds. */
  lemma ShortIdIs(id: string, i: nat)
    requires i < |ShortId8(id)|
    ensures |ShortId8(id)| <= 8 && |ShortId8(id)| <= |id| && (|id| >= 8 ==> |ShortId8(id)| == 8)
    ensures var c := id[i] as int; ShortId8(id)[i] as int == if 65 <= c <= 70 then c + 32 else c
  {
  }

  method ShortId8Into(full: CString, out: array?<char>) returns (ok: bool)
    requires out != null ==> out.Length == 9
    requires full.Str? ==> NoNul(full.text)
    modifies out
    ensures ok <==> out != null && full.Str? && full.text != ""
    ensures out != null ==> NUL in out[..] && CStr(out[..]) == if ok then ShortId8(full.text) else ""
  {
    if out == null {
      return false;
    }
    out[0] := NUL;
    assert out[..][0] == NUL;
    CStrIs(out[..], 0);
    if full.Null? || full.text == "" {
      return false;
    }
    var id, n := full.text, 0;
    while At(id, n) != NUL && n < 8
      invariant n <= |id| && n <= 8
      invariant forall i :: 0 <= i < n ==> out[i] == LowerAF(id[i])
      decreases 8 - n
    {
      out[n] := LowerAF(id[n]);
      n := n + 1;
    }
    out[n] := NUL;
    assert out[..][n] == NUL && out[..][..n] == ShortId8(id);
    CStrIs(out[..], n);
    ok := n > 0;
  }

  /** short_id8 of the Python peer keeps the hex characters only. */
  function HexOnly(s: string): string {
    if s == "" then "" else HexOrNothing(s[0]) + HexOnly(s[1..])
  }

  function HexOrNothing(c: char): string {
    if Is(Hex, c) then [LowerChar(c)] else ""
  }

  function ShortId8Python(id: string): string {
    Cut(HexOnly(id), 8)
  }

  lemma {:induction false} HexOnlyOfHex(s: string)
    requires AllIn(Hex, s)
    ensures HexOnly(s) == Lower(s)
  {
    if s != "" {
      var t := s[1..];
      forall i | 0 <= i < |t| ensures Is(Hex, t[i]) { assert t[i] == s[i + 1]; }
      HexOnlyOfHex(t);
      assert Is(Hex, s[0]);
      assert Lower(s) == [LowerChar(s[0])] + Lower(t);
    }
  }

  lemma {:induction false} HexOnlyAppend(a: string, b: string)
    ensures HexOnly(a + b) == HexOnly(a) + HexOnly(b)
  {
    hide HexOrNothing;
    if a == "" {
      assert a + b == b && HexOnly(a) + HexOnly(b) == HexOnly(b);
    } else {
      assert (a + b)[0] == a[0] && (a + b)[1..] == a[1..] + b;
      HexOnlyAppend(a[1..], b);
      var h, x, y := HexOrNothing(a[0]), HexOnly(a[1..]), HexOnly(b);
      assert HexOnly(a) == h + x && HexOnly(a + b) == h + (x + y);
      hide HexOnly;
      assert h + (x + y) == (h + x) + y;
    }
  }

  lemma {:induction false} HexOnlyIsHex(s: string)
    ensures AllIn(Hex, HexOnly(s))
  {
    if s != "" {
      HexOnlyIsHex(s[1..]);
    }
  }

  lemma HexLowersAlike(s: string)
    requires AllIn(Hex, s)
    ensures forall i :: 0 <= i < |s| ==> LowerAF(s[i]) == Lower(s)[i]
  {
    forall i | 0 <= i < |s| ensures LowerAF(s[i]) == Lower(s)[i] { assert Is(Hex, s[i]); }
  }

  /** The two shorten alike exactly the ids whose first eight characters are hex. */
  lemma ShortIdsAgreeExactly(id: string)
    ensures ShortId8Python(id) == ShortId8(id) <==> AllIn(Hex, Cut(id, 8))
  {
    hide HexOnly, Is;
    var front, s := Cut(id, 8), ShortId8(id);
    var rest := id[|front|..];
    assert id == front + rest;
    if AllIn(Hex, front) {
      HexOnlyAppend(front, rest);
      HexOnlyOfHex(front);
      HexLowersAlike(front);
      assert rest == "" ==> HexOnly(rest) == "" by { HexOnlyOfHex(""); }
      assert Cut(HexOnly(id), 8) == Lower(front);
      assert s == Lower(front);
    }
    if ShortId8Python(id) == s {
      HexOnlyIsHex(id);
      forall i | 0 <= i < |front| ensures Is(Hex, front[i]) {
        assert Is(Hex, HexOnly(id)[i]) && s[i] == LowerAF(front[i]);
        LowerAFHex(front[i]);
      }
    }
  }

  lemma LowerAFHex(c: char)
    ensures Is(Hex, LowerAF(c)) <==> Is(Hex, c)
  {
  }

  lemma NamesShortenDifferently()
    ensures ShortId8("node-1") == "node-1" && ShortId8Python("node-1") == "de1"
  {
    hide HexOnly;
    assert "node-1" == "no" + ("de" + ("-" + "1"));
    HexOnlyAppend("no", "de" + ("-" + "1"));
    HexOnlyAppend("de", "-" + "1");
    HexOnlyAppend("-", "1");
    HexOnlyOfTwo("no");
    HexOnlyOfTwo("de");
    HexOnlyOfOne("-");
    HexOnlyOfOne("1");
    assert "" + ("de" + ("" + "1")) == "de1";
  }

  lemma HexOnlyOfOne(s: string)
    requires |s| == 1
    ensures HexOnly(s) == HexOrNothing(s[0])
  {
    assert HexOnly(s[1..]) == "";
  }

  lemma HexOnlyOfTwo(s: string)
    requires |s| == 2
    ensures HexOnly(s) == HexOrNothing(s[0]) + HexOrNothing(s[1])
  {
    HexOnlyOfOne(s[1..]);
  }
}
