/**
 Broadcast reply stagger: include/mcrpc/ReplyJitter.h on wrapping 32-bit words and
 python/mcrpc/reply_jitter.py on unbounded integers with bit masks.
 */
module Jitter {
  import opened Text
  import opened Wire
  import Csv
  import Uptime

  const BROADCAST_MIN_MS := 400
  const BROADCAST_MAX_MS := 3600
  const ADDRESSED_MAX_MS := 120
  const SLOT_COUNT := 16
  const SLOT_MS := (BROADCAST_MAX_MS - BROADCAST_MIN_MS) / SLOT_COUNT

  predicate Ascii(s: string) {
    forall i :: 0 <= i < |s| ==> s[i] < 128 as char
  }

  // ----- bitwise operations on unbounded integers ------------------------------------

  /** a ^ b */
  function Xor(a: nat, b: nat): nat
    decreases a + b
  {
    if a == 0 && b == 0 then 0 else 2 * Xor(a / 2, b / 2) + (a % 2 + b % 2) % 2
  }

  /** a & b, the first operand in two's complement however negative. */
  function And(a: int, b: nat): nat
    decreases b
  {
    if b == 0 then 0 else 2 * And(a / 2, b / 2) + (a % 2) * (b % 2)
  }

  function Pow2(k: nat): (p: nat)
    ensures p > 0
  {
    if k == 0 then 1 else 2 * Pow2(k - 1)
  }

  lemma ProductAtLeast(d: int, m: nat)
    ensures d >= 1 ==> d * m >= m
    ensures d <= -1 ==> d * m + m <= 0
  {
  }

  lemma DistributeOverDifference(a: int, b: int, m: int)
    ensures (a - b) * m == a * m - b * m
  {
  }

  lemma DivisionEquation(x: int, m: nat)
    requires m > 0
    ensures x == x / m * m + x % m
  {
  }

  function Remainder(x: int, m: nat): nat
    requires m > 0
  {
    x % m
  }

  /** A remainder is pinned by its equation. */
  lemma RemainderIs(x: int, m: nat, q: int, r: nat)
    requires r < m && x == q * m + r
    ensures Remainder(x, m) == r
  {
    DivisionEquation(x, m);
    DistributeOverDifference(q, x / m, m);
    ProductAtLeast(q - x / m, m);
  }

  lemma DoubleEquation(x: int, m: nat, q: int, r: nat)
    requires x / 2 == q * m + r
    ensures x == q * (2 * m) + (2 * r + x % 2)
  {
  }

  lemma RemainderOfDouble(x: int, m: nat)
    requires m > 0
    ensures Remainder(x, 2 * m) == 2 * Remainder(x / 2, m) + x % 2
  {
    var q, r := x / 2 / m, Remainder(x / 2, m);
    DivisionEquation(x / 2, m);
    DoubleEquation(x, m, q, r);
    RemainderIs(x, 2 * m, q, 2 * r + x % 2);
  }

  lemma AndStep(x: int, b: nat)
    requires b % 2 == 1
    ensures And(x, b) == 2 * And(x / 2, b / 2) + x % 2
  {
    assert (x % 2) * (b % 2) == x % 2;
  }

  lemma OnesStep(k: nat)
    requires k > 0
    ensures Pow2(k) == 2 * Pow2(k - 1) && (Pow2(k) - 1) / 2 == Pow2(k - 1) - 1 && (Pow2(k) - 1) % 2 == 1
  {
  }

  lemma MaskNothing(x: int)
    ensures And(x, Pow2(0) - 1) == Remainder(x, Pow2(0))
  {
  }

  /** Masking with k ones is taking the remainder by 2^k, for negative numbers too. */
  lemma {:induction false} MaskIsRemainder(x: int, k: nat)
    ensures And(x, Pow2(k) - 1) == Remainder(x, Pow2(k))
    decreases k
  {
    hide *;
    if k == 0 {
      MaskNothing(x);
    } else {
      MaskIsRemainder(x / 2, k - 1);
      RemainderOfDouble(x, Pow2(k - 1));
      OnesStep(k);
      AndStep(x, Pow2(k) - 1);
    }
  }

  lemma Pow2Values()
    ensures Pow2(16) == 0x1_0000 && Pow2(32) == 0x1_0000_0000
  {
    assert Pow2(4) == 16;
    assert Pow2(8) == 256;
    assert Pow2(12) == 4096;
    assert Pow2(16) == 65536;
    assert Pow2(20) == 1048576;
    assert Pow2(24) == 16777216;
    assert Pow2(28) == 268435456;
  }

  // ----- FNV-1a in two arithmetics -------------------------------------------------

  const OFFSET_BASIS := 2166136261
  const FNV_PRIME := 16777619
  const WORD_SIZE := 0x1_0000_0000

  /** One byte on uint32_t, where the product wraps. */
  function Fold(h: nat, b: nat): nat {
    Xor(h, b) * FNV_PRIME % WORD_SIZE
  }

  /** One byte on Python integers: the product is exact, then masked. */
  function FoldPython(h: nat, b: nat): nat {
    And(Xor(h, b) * FNV_PRIME, 0xFFFF_FFFF)
  }

  function Byte(c: char): nat
    requires c < 128 as char
  {
    c as nat
  }

  function Hash(s: string): nat
    requires Ascii(s)
  {
    if s == "" then OFFSET_BASIS else Fold(Hash(s[..|s| - 1]), Byte(s[|s| - 1]))
  }

  function HashPython(s: string): nat
    requires Ascii(s)
  {
    if s == "" then And(OFFSET_BASIS, 0xFFFF_FFFF) else FoldPython(HashPython(s[..|s| - 1]), Byte(s[|s| - 1]))
  }

  /** Masking to 32 bits. */
  lemma MaskTo32(x: int)
    ensures And(x, 0xFFFF_FFFF) == x % WORD_SIZE
  {
    hide And;
    Pow2Values();
    MaskIsRemainder(x, 32);
  }

  /** Wrapping and masking compute the same hash. */
  lemma {:induction false} HashesAgree(s: string)
    requires Ascii(s)
    ensures HashPython(s) == Hash(s) < WORD_SIZE
  {
    hide And, Xor;
    if s == "" {
      MaskTo32(OFFSET_BASIS);
    } else {
      var front, b := s[..|s| - 1], Byte(s[|s| - 1]);
      HashesAgree(front);
      MaskTo32(Xor(Hash(front), b) * FNV_PRIME);
    }
  }

  method IdentityHash(identity: CString) returns (h: nat)
    requires identity.Str? ==> NoNul(identity.text) && Ascii(identity.text)
    ensures h == if identity.Str? then Hash(identity.text) else Hash("")
  {
    hide Xor, Byte;
    h := OFFSET_BASIS;
    if identity.Null? {
      return;
    }
    var s, p := identity.text, 0;
    assert s[..0] == "";
    while At(s, p) != NUL
      invariant p <= |s| && h == Hash(s[..p])
      decreases |s| - p
    {
      h := Xor(h, Byte(s[p]));
      h := h * FNV_PRIME % WORD_SIZE;
      assert s[..p + 1][..p] == s[..p];
      p := p + 1;
    }
    assert s[..p] == s;
  }

  // ----- the seed of the slot ---------------------------------------------------------

  /** Hex as far as the C++ scan looks, which is 64 characters. */
  predicate LooksHex(s: string) {
    |s| >= 8 && AllIn(Hex, Cut(s, 64))
  }

  function SlotSeed(s: string): string {
    if LooksHex(s) then Uptime.ShortId8(s) else s
  }

  /** slot_seed(identity) or identity, as delay_ms uses it. */
  function SlotSeedPython(s: string): string {
    var t := Csv.Strip(s);
    var seed := if |t| >= 8 && AllIn(Hex, t) then Lower(t[..8]) else t;
    if seed != "" then seed else s
  }

  method SlotSeedOf(identity: CString) returns (seed: string)
    requires identity.Str? ==> NoNul(identity.text)
    ensures seed == if identity.Str? then SlotSeed(identity.text) else ""
  {
    if identity.Null? || identity.text == "" {
      return "";
    }
    var s, n, hexish := identity.text, 0, true;
    while At(s, n) != NUL && n < 64 && hexish
      invariant n <= |s| && n <= 64 && AllIn(Hex, s[..n])
      invariant !hexish ==> n < |s| && n < 64 && !Is(Hex, s[n])
      decreases 64 - n, hexish
    {
      if Is(Hex, s[n]) {
        assert s[..n + 1] == s[..n] + [s[n]];
        n := n + 1;
      } else {
        hexish := false;
      }
    }
    assert hexish ==> s[..n] == Cut(s, 64);
    assert !hexish ==> Cut(s, 64)[n] == s[n];
    return if hexish && n >= 8 then Uptime.ShortId8(s) else s;
  }

  lemma LowerOfShort(s: string)
    requires |s| >= 8 && AllIn(Hex, s[..8])
    ensures Uptime.ShortId8(s) == Lower(s[..8])
  {
    forall i | 0 <= i < 8 ensures Uptime.ShortId8(s)[i] == LowerChar(s[i]) {
      assert Is(Hex, s[..8][i]);
    }
  }

  lemma StripOfHexStart(s: string)
    requires LooksHex(s)
    ensures Csv.Strip(s) == Csv.TrimEnd(s) && Csv.TrimEnd(s) <= s
    ensures Csv.TrimEnd(s) != s ==> |Csv.TrimEnd(s)| >= 8
    ensures |Csv.TrimEnd(s)| >= 8
  {
    assert Is(Hex, Cut(s, 64)[0]);
    RunIs(Space, s, 0);
    Csv.TrimEndFacts(s);
    TrimKeeps(s, 7);
  }

  lemma {:induction false} TrimKeeps(s: string, i: nat)
    requires i < |s| && !IsSpace(s[i])
    ensures |Csv.TrimEnd(s)| > i
  {
    if IsSpace(s[|s| - 1]) {
      TrimKeeps(s[..|s| - 1], i);
    }
  }

  lemma StripIsShorter(s: string)
    ensures |Csv.Strip(s)| <= |s| && (|Csv.Strip(s)| == |s| ==> Csv.Strip(s) == s)
  {
    Csv.TrimEndFacts(Skip(Space, s));
  }

  /**
   When the two languages seed the slot alike, for every identity: a hex start must
   be hex to the end but for trailing whitespace, and anything else must carry no
   outer whitespace unless it is nothing but whitespace.
   */
  lemma SeedsAgreeExactly(s: string)
    ensures SlotSeed(s) == SlotSeedPython(s) <==>
            if LooksHex(s) then AllIn(Hex, Csv.TrimEnd(s)) else Csv.Strip(s) == s || Csv.Strip(s) == ""
  {
    hide Csv.TrimEnd, Lower, Uptime.ShortId8;
    var t := Csv.Strip(s);
    StripIsShorter(s);
    if LooksHex(s) {
      StripOfHexStart(s);
      assert s[..8] == Cut(s, 64)[..8];
      LowerOfShort(s);
      assert t[..8] == s[..8];
      if !AllIn(Hex, t) {
        LongerThanHex(t);
      }
    } else if |t| >= 8 && AllIn(Hex, t) {
      HexLooksHex(t);
    }
  }

  /** A space in front of a name is part of the seed in C++ only. */
  lemma SpacedNameDiffers()
    ensures SlotSeed(" node") == " node" && SlotSeedPython(" node") == "node"
  {
    RunIs(Space, " node", 1);
    assert " node"[1..] == "node";
    assert Csv.TrimEnd("node") == "node";
  }

  lemma LongerThanHex(t: string)
    requires |t| >= 8 && AllIn(Hex, t[..8]) && !AllIn(Hex, t)
    ensures |t| > 8
  {
    assert t[..8] == t || |t| > 8;
  }

  lemma HexLooksHex(t: string)
    requires |t| >= 8 && AllIn(Hex, t)
    ensures LooksHex(t)
  {
  }

  /** The ordinary case: at most 64 characters and no outer whitespace. */
  lemma PlainIdentitiesAgree(s: string)
    requires |s| <= 64 && Csv.Trimmed(s)
    ensures SlotSeed(s) == SlotSeedPython(s)
  {
    hide Csv.Strip, Csv.TrimEnd;
    Csv.StripFacts(s);
    SeedsAgreeExactly(s);
    if LooksHex(s) {
      StripOfHexStart(s);
    }
  }

  /** An id and the short id announced for it share a slot. */
  lemma ShortIdSharesSeed(id: string)
    requires LooksHex(id)
    ensures SlotSeed(Uptime.ShortId8(id)) == SlotSeed(id)
  {
    var s := Uptime.ShortId8(id);
    forall i | 0 <= i < |s| ensures Is(Hex, s[i]) && s[i] == Uptime.LowerAF(s[i]) {
      assert Is(Hex, Cut(id, 64)[i]);
    }
    assert Cut(s, 64) == s;
    assert Uptime.ShortId8(s) == s;
  }

  // ----- the delay ----------------------------------------------------------------------

  function SlotOf(seed: string): (slot: nat)
    requires Ascii(seed)
    ensures slot < SLOT_COUNT
  {
    Hash(seed) % SLOT_COUNT
  }

  function BroadcastDelay(slot: nat, entropy: nat): nat {
    var ms := BROADCAST_MIN_MS + slot * SLOT_MS + if entropy != 0 then entropy % SLOT_MS else 0;
    if ms > BROADCAST_MAX_MS then BROADCAST_MAX_MS else ms
  }

  const ENTROPY_SIZE := 0x1_0000  // uint16_t

  function Delay(broadcast: bool, identity: string, entropy: nat): nat
    requires Ascii(identity) && entropy < ENTROPY_SIZE
  {
    if !broadcast then entropy % (ADDRESSED_MAX_MS + 1)
    else
      SeedIsAscii(identity);
      BroadcastDelay(SlotOf(SlotSeed(identity)), entropy)
  }

  /** Python takes any integer and masks it to sixteen bits itself. */
  function DelayPython(broadcast: bool, identity: string, anyEntropy: int): nat
    requires Ascii(identity)
  {
    var entropy := And(anyEntropy, 0xFFFF);
    if !broadcast then entropy % (ADDRESSED_MAX_MS + 1)
    else
      SeedIsAscii(identity);
      BroadcastDelay(HashPython(SlotSeedPython(identity)) % SLOT_COUNT, entropy)
  }

  lemma SeedIsAscii(s: string)
    requires Ascii(s)
    ensures Ascii(SlotSeed(s)) && Ascii(SlotSeedPython(s))
  {
    hide Csv.Strip, Lower, Uptime.ShortId8;
    StripIsAscii(s);
    var t := Csv.Strip(s);
    if |t| >= 8 {
      LowerIsAscii(t[..8]);
    }
    assert forall i :: 0 <= i < |Uptime.ShortId8(s)| ==> Uptime.ShortId8(s)[i] == Uptime.LowerAF(s[i]);
  }

  lemma StripIsAscii(s: string)
    requires Ascii(s)
    ensures Ascii(Csv.Strip(s))
  {
    hide Run;
    var p := Skip(Space, s);
    Csv.TrimEndFacts(p);
    assert forall i :: 0 <= i < |p| ==> p[i] == s[Run(Space, s) + i];
  }

  lemma LowerIsAscii(s: string)
    requires Ascii(s)
    ensures Ascii(Lower(s))
  {
  }

  /** Every broadcast delay lies in the window, so the clamp never acts, and tells its slot. */
  lemma DelayTellsSlot(slot: nat, entropy: nat)
    requires slot < SLOT_COUNT
    ensures BROADCAST_MIN_MS <= BroadcastDelay(slot, entropy) < BROADCAST_MAX_MS
    ensures (BroadcastDelay(slot, entropy) - BROADCAST_MIN_MS) / SLOT_MS == slot
    ensures (BroadcastDelay(slot, entropy) - BROADCAST_MIN_MS) % SLOT_MS == entropy % SLOT_MS
  {
    var w := entropy % 200;
    assert SLOT_MS == 200 && BroadcastDelay(slot, entropy) == 400 + slot * 200 + w;
    assert (slot * 200 + w) / 200 == slot;
  }

  /** Nodes k slots apart speak at least 200 (k - 1) + 1 ms apart, whatever their entropy. */
  lemma SlotsKeepNodesApart(a: nat, b: nat, e: nat, f: nat)
    requires a < b < SLOT_COUNT
    ensures BroadcastDelay(b, f) - BroadcastDelay(a, e) >= SLOT_MS * (b - a - 1) + 1
  {
    DelayInSlot(a, e);
    DelayInSlot(b, f);
  }

  lemma DelayInSlot(slot: nat, entropy: nat)
    requires slot < SLOT_COUNT
    ensures BROADCAST_MIN_MS + slot * SLOT_MS <= BroadcastDelay(slot, entropy) < BROADCAST_MIN_MS + (slot + 1) * SLOT_MS
  {
    assert SLOT_MS == 200;
  }

  /** Same seed, same delay: the languages agree wherever their seeds do, on any entropy. */
  lemma DelaysAgree(broadcast: bool, identity: string, entropy: int)
    requires Ascii(identity) && SlotSeed(identity) == SlotSeedPython(identity)
    ensures DelayPython(broadcast, identity, entropy) == Delay(broadcast, identity, entropy % ENTROPY_SIZE)
  {
    hide SlotSeed, SlotSeedPython, BroadcastDelay, Hash, HashPython, And;
    SeedIsAscii(identity);
    HashesAgree(SlotSeed(identity));
    Pow2Values();
    MaskIsRemainder(entropy, 16);
  }

  /** delayMsFor: only requests to `all` are staggered. */
  method DelayMsFor(req: Request, identity: CString, entropy: nat) returns (ms: nat)
    requires identity.Str? ==> NoNul(identity.text) && Ascii(identity.text)
    requires entropy < ENTROPY_SIZE
    ensures ms == Delay(req.kind == Everyone, if identity.Str? then identity.text else "", entropy)
    ensures if req.kind == Everyone then BROADCAST_MIN_MS <= ms < BROADCAST_MAX_MS else ms <= ADDRESSED_MAX_MS
  {
    hide Hash;
    if req.kind != Everyone {
      return entropy % (ADDRESSED_MAX_MS + 1);
    }
    var id := if identity.Str? then identity.text else "";
    SeedIsAscii(id);
    var seed := SlotSeedOf(identity);
    SeedIsCText(id);
    var h := IdentityHash(Str(seed));
    DelayTellsSlot(SlotOf(seed), entropy);
    ms := BroadcastDelay(h % SLOT_COUNT, entropy);
  }

  lemma SeedIsCText(s: string)
    requires NoNul(s)
    ensures NoNul(SlotSeed(s))
  {
    var t := SlotSeed(s);
    forall i | 0 <= i < |t| ensures t[i] != NUL { assert s[i] != NUL; }
  }

  // ----- what the operations are --------------------------------------------------------

  /** Bit k of a number. */
  predicate Bit(n: nat, k: nat) {
    n / Pow2(k) % 2 == 1
  }

  lemma BitStep(n: nat, k: nat)
    ensures Bit(n, 0) <==> n % 2 == 1
    ensures Bit(n, k + 1) <==> Bit(n / 2, k)
  {
    HalfTwice(n, Pow2(k));
  }

  lemma HalfTwice(n: nat, m: nat)
    requires m > 0
    ensures n / (2 * m) == n / 2 / m
  {
    var q, r := n / 2 / m, n / 2 % m;
    DivisionEquation(n / 2, m);
    DoubleEquation(n, m, q, r);
    QuotientIs(n, 2 * m, q, 2 * r + n % 2);
  }

  lemma QuotientIs(x: int, m: nat, q: int, r: nat)
    requires r < m && x == q * m + r
    ensures x / m == q
  {
    DivisionEquation(x, m);
    DistributeOverDifference(q, x / m, m);
    ProductAtLeast(q - x / m, m);
  }

  /** Exclusive or, bit by bit. */
  lemma {:induction false} XorByBits(a: nat, b: nat, k: nat)
    ensures Bit(Xor(a, b), k) <==> (Bit(a, k) <==> !Bit(b, k))
    decreases k
  {
    XorStep(a, b);
    hide Xor, Bit;
    BitStep(Xor(a, b), 0);
    BitStep(a, 0);
    BitStep(b, 0);
    if k > 0 {
      BitStep(Xor(a, b), k - 1);
      BitStep(a, k - 1);
      BitStep(b, k - 1);
      XorByBits(a / 2, b / 2, k - 1);
    }
  }

  lemma XorEquation(a: nat, b: nat)
    ensures Xor(a, b) == 2 * Xor(a / 2, b / 2) + (a % 2 + b % 2) % 2
  {
  }

  lemma XorStep(a: nat, b: nat)
    ensures Xor(a, b) / 2 == Xor(a / 2, b / 2)
    ensures Xor(a, b) % 2 == 1 <==> (a % 2 == 1 <==> b % 2 == 0)
  {
    hide Xor;
    XorEquation(a, b);
  }

  lemma {:induction false} XorZero(a: nat)
    ensures Xor(a, 0) == a
  {
    if a > 0 {
      XorZero(a / 2);
    }
  }

  lemma FirstXor()
    ensures Xor(2166136261, 97) == 2166136228
  {
    hide Xor;
    XorZero(16922939);
    XorEquation(33845879, 1);
    XorEquation(67691758, 3);
    XorEquation(135383516, 6);
    XorEquation(270767032, 12);
    XorEquation(541534065, 24);
    XorEquation(1083068130, 48);
    XorEquation(2166136261, 97);
  }

  /** The published FNV-1a values of the empty text and of `a`. */
  lemma HashOfA()
    ensures Hash("") == 0x811C9DC5 && Hash("a") == 0xE40C292C
  {
    hide Xor;
    FirstXor();
    assert "a"[..0] == "" && "a"[0] == 'a';
    assert Hash("a") == Fold(Hash(""), 97);
  }

  /** Every further character is xored in and the product wraps at 32 bits. */
  lemma HashStep(s: string, c: char)
    requires Ascii(s) && c as int < 128
    ensures Ascii(s + [c]) && Hash(s + [c]) == Xor(Hash(s), c as int) * 16777619 % 0x1_0000_0000
  {
    assert (s + [c])[..|s|] == s;
  }

  /** The seed by the hex characters a text starts with. */
  lemma SeedByLength(h: string, rest: string)
    requires AllIn(Hex, h) && (rest != "" ==> !Is(Hex, rest[0]))
    ensures SlotSeed(h + rest) == if |h| >= 64 || (|h| >= 8 && rest == "") then Lower(h[..8]) else h + rest
  {
    hide Uptime.ShortId8;
    var s := h + rest;
    if |h| >= 8 {
      assert s[..8] == h[..8];
      LowerOfShort(s);
    }
    var c := Cut(s, 64);
    assert forall i :: 0 <= i < |c| && i < |h| ==> c[i] == h[i];
    if |h| < 64 && rest != "" {
      assert c[|h|] == rest[0];
    }
  }

  /** The delays in numbers. */
  lemma DelayIs(broadcast: bool, identity: string, entropy: nat)
    requires Ascii(identity) && entropy < ENTROPY_SIZE
    ensures Ascii(SlotSeed(identity))
    ensures Delay(broadcast, identity, entropy) ==
            if broadcast then 400 + Hash(SlotSeed(identity)) % 16 * 200 + entropy % 200 else entropy % 121
  {
    hide Hash, SlotSeed;
    SeedIsAscii(identity);
  }
}
