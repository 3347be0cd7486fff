/** Integers modulo the group order: parsing, multiply-add and signed recodings (scalar/mod.rs). */
module Scalar {
  import opened Arith
  import opened Words
  import opened Bytes
  import opened ScalarReduce

  type i8 = x: int | -0x80 <= x < 0x80
  type Limbs4 = s: seq<u64> | |s| == 4 witness [0, 0, 0, 0]

  // ---------------------------------------------------------------------------
  // Bytes and limbs
  // ---------------------------------------------------------------------------

  /** `u64::from_le_bytes` on eight bytes. */
  function LoadLe64(bytes: seq<u8>): (r: u64)
    requires |bytes| == 8
    ensures r as int == LeVal(bytes)
  {
    LeBound(bytes);
    BytePow8();
    LeVal(bytes) as u64
  }

  lemma {:induction false} BytePowEight(i: nat)
    ensures BytePow(8 * i) == BPow(i)
  {
    if i > 0 {
      BytePowEight(i - 1);
      BytePowAdd(8, 8 * (i - 1));
      BytePow8();
    }
  }

  /** Read `n` little-endian limbs. */
  method LoadLimbs(bytes: seq<u8>, n: nat) returns (r: seq<u64>)
    requires |bytes| == 8 * n
    ensures |r| == n && Nat(r) == LeVal(bytes)
  {
    var limbs := new u64[n];
    assert Nat(limbs[..0]) == LeVal(bytes[..0]);
    hide *;
    for i := 0 to n
      invariant Nat(limbs[..i]) == LeVal(bytes[..8 * i])
    {
      ghost var before := limbs[..i];
      limbs[i] := LoadLe64(bytes[8 * i..8 * i + 8]);
      assert limbs[..i] == before;
      assert limbs[..i + 1] == before + [limbs[i]];
      assert bytes[..8 * (i + 1)] == bytes[..8 * i] + bytes[8 * i..8 * i + 8];
      LimbLoaded(before, limbs[i], bytes[..8 * i], bytes[8 * i..8 * i + 8]);
    }
    assert limbs[..n] == limbs[..] && bytes[..8 * n] == bytes;
    r := limbs[..];
  }

  lemma LimbLoaded(limbs: seq<u64>, limb: u64, low: seq<u8>, chunk: seq<u8>)
    requires |low| == 8 * |limbs| && |chunk| == 8
    requires limb as int == LeVal(chunk) && Nat(limbs) == LeVal(low)
    ensures Nat(limbs + [limb]) == LeVal(low + chunk)
  {
    NatAppend(limbs, [limb]);
    assert Nat([limb]) == limb as int;
    LeAppend(low, chunk);
    BytePowEight(|limbs|);
  }

  /** Reduce a 64-byte little-endian integer, as produced by SHA-512. */
  method FromWideBytes(bytes: seq<u8>) returns (r: Limbs4)
    requires |bytes| == 64
    ensures Nat(r) == LeVal(bytes) % ORDER
  {
    var wide := LoadLimbs(bytes, 8);
    r := BarrettReduce(wide);
  }

  /** Reduce a 32-byte little-endian integer. */
  method FromBytesModOrder(bytes: seq<u8>) returns (r: Limbs4)
    requires |bytes| == 32
    ensures Nat(r) == LeVal(bytes) % ORDER
  {
    var low := LoadLimbs(bytes, 4);
    var wide := low + [0, 0, 0, 0];
    NatAppend(low, [0, 0, 0, 0]);
    NatZeros([0, 0, 0, 0]);
    r := BarrettReduce(wide);
  }

  datatype Option<+T> = None | Some(value: T)

  /** Accept a 32-byte little-endian integer only when it is already reduced. */
  method FromCanonicalBytes(bytes: seq<u8>) returns (r: Option<Limbs4>)
    requires |bytes| == 32
    ensures r.Some? <==> LeVal(bytes) < ORDER
    ensures r.Some? ==> Nat(r.value) == LeVal(bytes)
  {
    var limbs := LoadLimbs(bytes, 4);
    var less := IsLessThan(limbs, L);
    Constants();
    r := if less then Some(limbs) else None;
  }

  /** Serialize to 32 little-endian bytes. */
  method ToBytes(s: Limbs4) returns (r: seq<u8>)
    ensures |r| == 32 && LeVal(r) == Nat(s)
  {
    var out := new u8[32];
    assert LeVal(out[..0]) == Nat(s[..0]);
    hide *;
    for i := 0 to 4
      invariant LeVal(out[..8 * i]) == Nat(s[..i])
    {
      ghost var before := out[..8 * i];
      var chunk := LeBytes(s[i] as int, 8);
      CopyInto(out, 8 * i, chunk);
      assert out[..8 * (i + 1)] == before + chunk;
      assert s[..i + 1] == s[..i] + [s[i]];
      ChunkValue(s[i], chunk);
      LimbLoaded(s[..i], s[i], before, chunk);
    }
    assert s[..4] == s && out[..32] == out[..];
    r := out[..];
  }

  lemma ChunkValue(limb: u64, chunk: seq<u8>)
    requires chunk == LeBytes(limb as int, 8)
    ensures LeVal(chunk) == limb as int
  {
    BytePow8();
    LeValOfBytes(limb as int, 8);
  }

  /** x * y + z modulo the group order. */
  method MulAdd(x: Limbs4, y: Limbs4, z: Limbs4) returns (r: Limbs4)
    requires Nat(z) < ORDER
    ensures Nat(r) == (Nat(x) * Nat(y) + Nat(z)) % ORDER
  {
    var product := MulWide(x, y);
    var reduced := BarrettReduce(product);
    r := AddModL(reduced, z);
    var n := Nat(x) * Nat(y);
    SameRemainder(n + Nat(z), n % ORDER + Nat(z), n / ORDER, ORDER);
  }

  /** Clear the low three bits and bit 255, set bit 254. */
  function Clamp(bytes: seq<u8>): (r: seq<u8>)
    requires |bytes| == 32
    ensures |r| == 32
  {
    var top := bytes[31] % 0x80;
    bytes[0 := bytes[0] - bytes[0] % 8][31 := if top < 0x40 then top + 0x40 else top]
  }

  const TWO248: int := 0x1000000_00000000_00000000_00000000_00000000_00000000_00000000_00000000

  /** 2^254. */
  const TWO254: int := 0x40000000_00000000_00000000_00000000_00000000_00000000_00000000_00000000

  /** Bit 254 is set, bits 255 and 2 to 0 are clear, and every other bit is that of the input. */
  lemma ClampMeaning(bytes: seq<u8>)
    requires |bytes| == 32
    ensures LeVal(Clamp(bytes)) == TWO254 + LeVal(bytes) % TWO254 - LeVal(bytes) % 8
  {
    hide *;
    var c, mid := Clamp(bytes), 0x100 * LeVal(bytes[1..31]);
    ClampParts(bytes);
    SplitEnds(bytes);
    SplitEnds(c);
    Weights();
    HighBits(bytes[0], mid, bytes[31], TWO248, TWO254);
    LowBits(bytes[0], LeVal(bytes[1..31]), bytes[31], TWO248);
    SetTop(bytes[31], c[31], TWO248, TWO254);
  }

  lemma ClampParts(bytes: seq<u8>)
    requires |bytes| == 32
    ensures var c := Clamp(bytes);
      && c[1..31] == bytes[1..31] && c[0] == bytes[0] - bytes[0] % 8 && c[31] == bytes[31] % 0x40 + 0x40
  {
  }

  lemma Weights()
    ensures TWO254 == 0x40 * TWO248 && TWO248 % 8 == 0
  {
  }

  lemma SplitEnds(s: seq<u8>)
    requires |s| == 32
    ensures LeVal(s) == s[0] + 0x100 * LeVal(s[1..31]) + TWO248 * s[31]
    ensures 0 <= 0x100 * LeVal(s[1..31]) <= TWO248 - 0x100
  {
    hide LeVal, BytePow;
    assert s == [s[0]] + (s[1..31] + [s[31]]);
    LeAppend([s[0]], s[1..31] + [s[31]]);
    LeAppend(s[1..31], [s[31]]);
    LeBound(s[1..31]);
    OneByteOf(s[0]);
    OneByteOf(s[31]);
    ThirtyBytes();
  }

  lemma OneByteOf(b: u8)
    ensures LeVal([b]) == b
  {
  }

  lemma ThirtyBytes()
    ensures BytePow(1) == 0x100 && BytePow(30) == TWO248 / 0x100
  {
    hide BytePow;
    BytePow8();
    BytePowAdd(8, 8);
    BytePowAdd(16, 8);
    BytePowAdd(24, 6);
    SixBytes();
  }

  lemma SixBytes()
    ensures BytePow(1) == 0x100 && BytePow(6) == 0x1_0000_0000_0000
  {
    assert BytePow(3) == 0x100_0000;
  }

  lemma SetTop(top: int, top': int, w: int, m: int)
    requires m == 0x40 * w && top' == top % 0x40 + 0x40
    ensures w * top' == m + w * (top % 0x40)
  {
  }

  lemma HighBits(low: int, mid: int, top: int, w: int, m: int)
    requires m == 0x40 * w && 0 <= low < 0x100 && 0 <= mid <= w - 0x100 && 0 <= top < 0x100
    ensures (low + mid + w * top) % m == low + mid + w * (top % 0x40)
  {
    var q, r := top / 0x40, top % 0x40;
    assert w * (0x40 * q + r) == m * q + w * r;
    MulMono(w, r, 0x3f);
    DivModOf(low + mid + w * top, m, q, low + mid + w * r);
  }

  lemma LowBits(low: int, mid: int, top: int, w: int)
    requires w % 8 == 0 && low >= 0
    ensures (low + 0x100 * mid + w * top) % 8 == low % 8
  {
    var e := w / 8;
    assert w * top == 8 * (e * top) by {
      MulAssoc(8, e, top);
    }
    DivModOf(low + 0x100 * mid + w * top, 8, low / 8 + 0x20 * mid + e * top, low % 8);
  }

  // ---------------------------------------------------------------------------
  // Signed digit strings
  // ---------------------------------------------------------------------------

  /** The integer a signed digit string stands for, least significant digit first. */
  function DigitSum(d: seq<int>, base: int): int {
    if d == [] then 0 else d[0] + base * DigitSum(d[1..], base)
  }

  function IntPow(base: int, k: nat): int {
    if k == 0 then 1 else base * IntPow(base, k - 1)
  }

  lemma {:induction false} DigitUpdate(d: seq<int>, base: int, k: nat, v: int)
    requires k < |d|
    ensures DigitSum(d[k := v], base) == DigitSum(d, base) + (v - d[k]) * IntPow(base, k)
  {
    if k == 0 {
      assert d[k := v][1..] == d[1..];
    } else {
      assert d[k := v][1..] == d[1..][k - 1 := v];
      DigitUpdate(d[1..], base, k - 1, v);
      MulSwap(base, v - d[k], IntPow(base, k - 1));
    }
  }

  lemma {:induction false} DigitZeros(d: seq<int>, base: int)
    requires forall k :: 0 <= k < |d| ==> d[k] == 0
    ensures DigitSum(d, base) == 0
  {
    if d != [] {
      DigitZeros(d[1..], base);
    }
  }

  lemma {:induction false} IntPowTwo(k: nat)
    ensures IntPow(2, k) == Pow2(k)
  {
    if k > 0 {
      IntPowTwo(k - 1);
    }
  }

  // ---------------------------------------------------------------------------
  // Signed radix 16
  // ---------------------------------------------------------------------------

  function Nibbles(bytes: seq<u8>): (r: seq<int>)
    ensures |r| == 2 * |bytes|
    ensures forall i :: 0 <= i < |bytes| ==> r[2 * i] == bytes[i] % 16 && r[2 * i + 1] == bytes[i] / 16
  {
    if bytes == [] then [] else [bytes[0] % 16, bytes[0] / 16] + Nibbles(bytes[1..])
  }

  lemma {:induction false} NibbleSum(bytes: seq<u8>)
    ensures DigitSum(Nibbles(bytes), 16) == LeVal(bytes)
  {
    if bytes != [] {
      NibbleSum(bytes[1..]);
      var d := Nibbles(bytes);
      assert d[1..][1..] == Nibbles(bytes[1..]);
    }
  }

  /**
   64 signed digits whose base-16 sum is the scalar. Every digit but the last
   lies in [-8, 8); the last one does too when the scalar is reduced.
   */
  method Radix16(s: Limbs4) returns (r: seq<i8>)
    ensures |r| == 64 && DigitSum(r, 16) == Nat(s)
    ensures forall k :: 0 <= k < 63 ==> -8 <= r[k] < 8
    ensures 0 <= r[63] <= 16
    ensures Nat(s) < ORDER ==> r[63] <= 2
  {
    var bytes := ToBytes(s);
    var digits := new i8[64](_ => 0);
    NibbleSum(bytes);
    NibbleRange(bytes);
    TopNibble(bytes);
    hide *;
    for i := 0 to 32
      invariant forall k :: 0 <= k < 2 * i ==> digits[k] == Nibbles(bytes)[k]
    {
      digits[2 * i] := bytes[i] % 16;
      digits[2 * i + 1] := bytes[i] / 16;
    }
    assert digits[..] == Nibbles(bytes);
    RecodeNibbles(digits);
    r := digits[..];
  }

  lemma {:induction false} NibbleRange(bytes: seq<u8>)
    ensures forall k :: 0 <= k < 2 * |bytes| ==> 0 <= Nibbles(bytes)[k] < 16
  {
    if bytes != [] {
      NibbleRange(bytes[1..]);
      assert Nibbles(bytes)[2..] == Nibbles(bytes[1..]);
    }
  }

  lemma RecodeStep(c: int, digit: int, out: int, c': int, p: int)
    requires out == digit + c - c' * 16
    ensures (out - digit) * p + c' * (16 * p) == c * p
  {
    assert (out - digit + c' * 16) * p == (out - digit) * p + c' * (16 * p);
  }

  /** Rewrite each nibble into [-8, 8) by carrying into the next one. */
  method RecodeNibbles(digits: array<i8>)
    requires digits.Length == 64
    requires forall k :: 0 <= k < 64 ==> 0 <= digits[k] < 16
    modifies digits
    ensures DigitSum(digits[..], 16) == old(DigitSum(digits[..], 16))
    ensures forall k :: 0 <= k < 63 ==> -8 <= digits[k] < 8
    ensures old(digits[63]) <= digits[63] <= old(digits[63]) + 1
  {
    var carry: i8 := 0;
    for i := 0 to 63
      invariant 0 <= carry <= 1
      invariant DigitSum(digits[..], 16) + carry * IntPow(16, i) == old(DigitSum(digits[..], 16))
      invariant forall k :: 0 <= k < i ==> -8 <= digits[k] < 8
      invariant forall k :: i <= k < 64 ==> digits[k] == old(digits[k])
    {
      ghost var before, c := digits[..], carry;
      digits[i] := digits[i] + carry;
      carry := (digits[i] + 8) / 16;
      digits[i] := digits[i] - carry * 16;
      assert digits[..] == before[i := digits[i]];
      DigitUpdate(before, 16, i, digits[i]);
      RecodeStep(c, before[i], digits[i], carry, IntPow(16, i));
    }
    ghost var before := digits[..];
    digits[63] := digits[63] + carry;
    assert digits[..] == before[63 := digits[63]];
    DigitUpdate(before, 16, 63, digits[63]);
  }

  lemma TopByteWeight()
    ensures BytePow(31) == TWO192 * 0x100_0000_0000_0000
  {
    BytePowEight(3);
    BytePowAdd(24, 7);
  }

  /** The top nibble of a reduced scalar is at most one. */
  lemma TopNibble(bytes: seq<u8>)
    requires |bytes| == 32
    ensures LeVal(bytes) < ORDER ==> Nibbles(bytes)[63] <= 1
  {
    hide LeVal, BytePow, Nibbles;
    TopByteWeight();
    assert bytes == bytes[..31] + [bytes[31]];
    LeAppend(bytes[..31], [bytes[31]]);
    OneByteValue(bytes[31]);
    assert Nibbles(bytes)[2 * 31 + 1] == bytes[31] / 16;
  }
}
