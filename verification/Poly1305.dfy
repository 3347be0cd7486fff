/** Poly1305 (poly1305/mod.rs): the tag of section 2.5 of RFC 8439, as a function of the whole message. */
module Poly1305Spec {
  import opened Bytes

  /** 2^130 - 5. */
  const P: int := 0x3_ffffffff_ffffffff_ffffffff_fffffffb
  const TWO128: int := 0x1_00000000_00000000_00000000_00000000

  /** The clamp of section 2.5, byte by byte. */
  function ClampBytes(r: seq<u8>): (c: seq<u8>)
    requires |r| == 16
    ensures |c| == 16
  {
    [r[0], r[1], r[2], r[3] % 16, r[4] - r[4] % 4, r[5], r[6], r[7] % 16,
     r[8] - r[8] % 4, r[9], r[10], r[11] % 16, r[12] - r[12] % 4, r[13], r[14], r[15] % 16]
  }

  function BlockStep(r: int, acc: int, block: seq<u8>): int {
    ((acc + LeVal(block + [1])) * r) % P
  }

  /** The accumulator after whole 16-byte blocks. */
  function Acc(r: int, blocks: seq<u8>): (a: int)
    requires |blocks| % 16 == 0
    decreases |blocks|
  {
    if blocks == [] then 0
    else BlockStep(r, Acc(r, blocks[..|blocks| - 16]), blocks[|blocks| - 16..])
  }

  function Whole(msg: seq<u8>): seq<u8> {
    msg[..|msg| - |msg| % 16]
  }

  function Rest(msg: seq<u8>): seq<u8> {
    msg[|msg| - |msg| % 16..]
  }

  /** The accumulator after the whole message: a short last block gets the byte 1 after its own bytes. */
  function Total(r: int, msg: seq<u8>): int {
    if Rest(msg) == [] then Acc(r, Whole(msg)) else BlockStep(r, Acc(r, Whole(msg)), Rest(msg))
  }

  /** The one-time authenticator of section 2.5.1. */
  function Tag(key: seq<u8>, msg: seq<u8>): seq<u8>
    requires |key| == 32
  {
    LeBytes((Total(LeVal(ClampBytes(key[..16])), msg) + LeVal(key[16..])) % TWO128, 16)
  }

  // ---------------------------------------------------------------------------
  // The standard's own words
  // ---------------------------------------------------------------------------

  /**
   Each block is read with a one bit above it, added, and multiplied by r modulo 2^130 - 5;
   only the last block may be short.
   */
  lemma HornerMeaning(r: int, whole: seq<u8>, block: seq<u8>)
    requires |whole| % 16 == 0 && 1 <= |block| <= 16
    ensures Total(r, []) == 0 && P == 4 * TWO128 - 5
    ensures Total(r, whole + block) == ((Total(r, whole) + LeVal(block) + BytePow(|block|)) * r) % P
  {
    hide LeVal, BytePow, Acc, Whole, Rest, BlockStep;
    NoBlocks(r);
    WholeParts([]);
    WholeParts(whole);
    StepIs(r, Acc(r, whole), block);
    if |block| == 16 {
      WholeParts(whole + block);
      LastBlock(r, whole, block);
    } else {
      ShortParts(whole, block);
    }
  }

  lemma StepIs(r: int, acc: int, block: seq<u8>)
    ensures BlockStep(r, acc, block) == ((acc + LeVal(block) + BytePow(|block|)) * r) % P
  {
    hide LeVal, BytePow;
    LeAppend(block, [1]);
    OneValue();
  }

  lemma NoBlocks(r: int)
    ensures Acc(r, []) == 0
  {
  }

  lemma WholeParts(whole: seq<u8>)
    requires |whole| % 16 == 0
    ensures Whole(whole) == whole && Rest(whole) == []
  {
  }

  lemma ShortParts(whole: seq<u8>, rest: seq<u8>)
    requires |whole| % 16 == 0 && |rest| < 16
    ensures Whole(whole + rest) == whole && Rest(whole + rest) == rest
  {
    assert |whole + rest| % 16 == |rest|;
  }

  lemma LastBlock(r: int, whole: seq<u8>, block: seq<u8>)
    requires |whole| % 16 == 0 && |block| == 16
    ensures |whole + block| % 16 == 0 && Acc(r, whole + block) == BlockStep(r, Acc(r, whole), block)
  {
    hide BlockStep;
    var m := whole + block;
    assert m[..|m| - 16] == whole && m[|m| - 16..] == block;
  }

  lemma OneValue()
    ensures LeVal([1]) == 1
  {
  }

  /** The tag is the total plus the second half of the key, modulo 2^128, little-endian. */
  lemma TagValue(key: seq<u8>, msg: seq<u8>)
    requires |key| == 32
    ensures |Tag(key, msg)| == 16
    ensures LeVal(Tag(key, msg)) == (Total(LeVal(ClampBytes(key[..16])), msg) + LeVal(key[16..])) % TWO128
    ensures TWO128 == 0x1_0000_0000_0000_0000 * 0x1_0000_0000_0000_0000
  {
    hide LeVal, LeBytes, Total, BytePow;
    BytePow8();
    BytePowAdd(8, 8);
    LeValOfBytes((Total(LeVal(ClampBytes(key[..16])), msg) + LeVal(key[16..])) % TWO128, 16);
  }

  /** The clamp clears the top four bits of bytes 3, 7, 11, 15 and the low two of bytes 4, 8, 12. */
  lemma ClampMeaning(r: seq<u8>, i: nat)
    requires |r| == 16 && i < 16
    ensures ClampBytes(r)[i]
         == if i % 4 == 3 then r[i] % 16 else if i % 4 == 0 && i > 0 then r[i] - r[i] % 4 else r[i]
  {
  }
}

module Poly1305Limbs {
  import opened Arith
  import opened Words
  import opened Bytes
  import opened Poly1305Spec

  /** `t & 0x0ffffffc0fffffff`: bits 0..27 and 34..59. */
  function Clamp0(t: u64): u64 {
    t % 0x1000_0000 + ((t / 0x4_0000_0000) % 0x400_0000) * 0x4_0000_0000
  }

  /** `t & 0x0ffffffc0ffffffc`: bits 2..27 and 34..59. */
  function Clamp1(t: u64): u64 {
    var lo, hi := t % 0x1000_0000, (t / 0x4_0000_0000) % 0x400_0000;
    lo - lo % 4 + hi * 0x4_0000_0000
  }

  function Value(h: (u64, u64, u64)): int {
    h.0 as int + B * h.1 as int + B * B * h.2 as int
  }

  /** What `absorb` may assume about the key limbs: the clamp's bounds, and s1 = 5/4 r1. */
  ghost predicate KeyLimbs(r: (u64, u64), s1: u64) {
    && r.0 as int < 0x1000_0000_0000_0000 && r.1 as int < 0x1000_0000_0000_0000
    && r.1 % 4 == 0 && s1 as int == r.1 as int + r.1 as int / 4
  }

  // ---------------------------------------------------------------------------
  // absorb
  // ---------------------------------------------------------------------------

  /** h += m: the first three lines of `absorb`. */
  function AddBlock(h: (u64, u64, u64), m: (u64, u64), padbit: u64): (r: (u64, u64, u64))
    requires h.2 <= 4 && padbit <= 1
    ensures Value(r) == Value(h) + m.0 as int + B * m.1 as int + B * B * padbit as int
    ensures r.2 <= 6
  {
    var t := h.0 as u128 + m.0 as u128;
    var t' := h.1 as u128 + t / 0x1_0000_0000_0000_0000 + m.1 as u128;
    ((t % 0x1_0000_0000_0000_0000) as u64, (t' % 0x1_0000_0000_0000_0000) as u64,
     WrappingAdd(WrappingAdd(h.2, (t' / 0x1_0000_0000_0000_0000) as u64), padbit))
  }

  lemma Products(h: (u64, u64, u64), r: (u64, u64), s1: u64)
    requires h.2 <= 6 && KeyLimbs(r, s1)
    ensures 0 <= h.0 as int * r.0 as int < B * 0x1000_0000_0000_0000
    ensures 0 <= h.1 as int * s1 as int < B * 0x2000_0000_0000_0000
    ensures 0 <= h.0 as int * r.1 as int < B * 0x1000_0000_0000_0000
    ensures 0 <= h.1 as int * r.0 as int < B * 0x1000_0000_0000_0000
    ensures 0 <= h.2 as int * s1 as int < 0x8000_0000_0000_0000
    ensures 0 <= h.2 as int * r.0 as int < 0x6000_0000_0000_0000
  {
    var q := 0x1000_0000_0000_0000;
    Below(h.0 as int, B, r.0 as int, q);
    Below(h.1 as int, B, s1 as int, 2 * q);
    Below(h.0 as int, B, r.1 as int, q);
    Below(h.1 as int, B, r.0 as int, q);
    MulMono(r.0 as int, h.2 as int, 6);
    MulMono(s1 as int, h.2 as int, 6);
  }

  lemma Below(x: int, xb: int, y: int, yb: int)
    requires 0 <= x < xb && 0 <= y < yb
    ensures 0 <= x * y < xb * yb
  {
    MulMono(x, y, yb);
    MulMono(yb, x, xb - 1);
  }

  /** The two wide sums and the short product of `h * r`. No operation wraps. */
  function MulKey(h: (u64, u64, u64), r: (u64, u64), s1: u64): (d: (u128, u128, u64))
    requires h.2 <= 6 && KeyLimbs(r, s1)
    ensures d.0 as int == h.0 as int * r.0 as int + h.1 as int * s1 as int
    ensures d.1 as int == h.0 as int * r.1 as int + h.1 as int * r.0 as int + h.2 as int * s1 as int
    ensures d.2 as int == h.2 as int * r.0 as int
    ensures d.0 as int < B * 0x3000_0000_0000_0000 && d.1 as int < B * 0x2000_0000_0000_0001
    ensures d.2 as int < 0x6000_0000_0000_0000
  {
    Products(h, r, s1);
    (h.0 as u128 * r.0 as u128 + h.1 as u128 * s1 as u128,
     h.0 as u128 * r.1 as u128 + h.1 as u128 * r.0 as u128 + WrappingMul(h.2, s1) as u128,
     WrappingMul(h.2, r.0))
  }

  /** Carry the wide sums into 64-bit limbs. */
  function CarryLimbs(d: (u128, u128, u64)): (h: (u64, u64, u64))
    requires d.0 as int < B * 0x3000_0000_0000_0000 && d.1 as int < B * 0x2000_0000_0000_0001
    requires d.2 as int < 0x6000_0000_0000_0000
    ensures Value(h) == d.0 as int + B * d.1 as int + B * B * d.2 as int
    ensures h.2 as int < 0x9000_0000_0000_0000
  {
    var d1 := d.1 + d.0 / 0x1_0000_0000_0000_0000;
    ((d.0 % 0x1_0000_0000_0000_0000) as u64, (d1 % 0x1_0000_0000_0000_0000) as u64,
     WrappingAdd(d.2, (d1 / 0x1_0000_0000_0000_0000) as u64))
  }

  /** Fold the bits at and above 2^130 back in: h += 5 * (h >> 130). */
  function FoldTop(h: (u64, u64, u64)): (r: (u64, u64, u64))
    requires h.2 as int < 0x9000_0000_0000_0000
    ensures r.2 <= 4
    ensures Value(r) == Value(h) - (h.2 as int / 4) * P
  {
    var c := WrappingAdd(h.2 / 4, h.2 - h.2 % 4);
    assert c as int == 5 * (h.2 as int / 4);
    var t := h.0 as u128 + c as u128;
    var t' := h.1 as u128 + t / 0x1_0000_0000_0000_0000;
    ((t % 0x1_0000_0000_0000_0000) as u64, (t' % 0x1_0000_0000_0000_0000) as u64,
     WrappingAdd(h.2 % 4, (t' / 0x1_0000_0000_0000_0000) as u64))
  }

  /** r1 is a multiple of four, so 2^128 * r1 is 5/4 * r1 modulo 2^130 - 5. */
  lemma MulFold(h0: int, h1: int, h2: int, r0: int, r1: int, s1: int, k: int)
    requires r1 == 4 * k && s1 == 5 * k
    ensures (h0 + B * h1 + B * B * h2) * (r0 + B * r1)
         == (h0 * r0 + h1 * s1) + B * (h0 * r1 + h1 * r0 + h2 * s1) + B * B * (h2 * r0) + (h1 * k + B * (h2 * k)) * P
  {
    var a, b, c := h1 * k, h2 * k, h0 * k;
    assert h1 * r1 == 4 * a && h1 * s1 == 5 * a && h2 * r1 == 4 * b && h2 * s1 == 5 * b;
    assert (h0 + B * h1 + B * B * h2) * (r0 + B * r1)
        == h0 * r0 + B * (h1 * r0) + B * B * (h2 * r0) + B * (h0 * r1) + B * B * (h1 * r1) + B * B * B * (h2 * r1);
  }

  /** One block: `(h + m) * r` modulo 2^130 - 5, with the top limb back at most 4. */
  function AbsorbLimbs(h: (u64, u64, u64), m: (u64, u64), padbit: u64, r: (u64, u64), s1: u64): (h': (u64, u64, u64))
    requires h.2 <= 4 && padbit <= 1 && KeyLimbs(r, s1)
    ensures h'.2 <= 4
    ensures Value(h') % P
         == ((Value(h) + m.0 as int + B * m.1 as int + B * B * padbit as int) * (r.0 as int + B * r.1 as int)) % P
  {
    var sum := AddBlock(h, m, padbit);
    var d := MulKey(sum, r, s1);
    var carried := CarryLimbs(d);
    var k := r.1 as int / 4;
    MulFold(sum.0 as int, sum.1 as int, sum.2 as int, r.0 as int, r.1 as int, s1 as int, k);
    var j := sum.1 as int * k + B * (sum.2 as int * k);
    SameRemainder(Value(sum) * (r.0 as int + B * r.1 as int), Value(FoldTop(carried)), j + carried.2 as int / 4, P);
    FoldTop(carried)
  }

  // ---------------------------------------------------------------------------
  // finalize
  // ---------------------------------------------------------------------------

  /** The final comparison against 2^130 - 5: add five, and keep the sum when bit 130 is set. */
  function Reduce(h: (u64, u64, u64)): (r: (u64, u64))
    requires h.2 <= 4
    ensures r.0 as int + B * r.1 as int == (Value(h) % P) % TWO128
  {
    var t := h.0 as u128 + 5;
    var g0 := (t % 0x1_0000_0000_0000_0000) as u64;
    var t' := h.1 as u128 + t / 0x1_0000_0000_0000_0000;
    var g1 := (t' % 0x1_0000_0000_0000_0000) as u64;
    var g2 := WrappingAdd(h.2, (t' / 0x1_0000_0000_0000_0000) as u64);
    OneSubtraction(h.0 as int, h.1 as int, h.2 as int, g0 as int, g1 as int, g2 as int);
    if g2 / 4 == 0 then (h.0, h.1) else (g0, g1)
  }

  /** Between blocks h < 2p, so bit 130 of h + 5 decides the one subtraction that can be due. */
  lemma OneSubtraction(h0: int, h1: int, h2: int, g0: int, g1: int, g2: int)
    requires 0 <= h0 < B && 0 <= h1 < B && 0 <= h2 <= 4
    requires 0 <= g0 < B && 0 <= g1 < B
    requires g0 + B * g1 + B * B * g2 == h0 + B * h1 + B * B * h2 + 5
    ensures g2 / 4 == 0 || g2 / 4 == 1
    ensures ((h0 + B * h1 + B * B * h2) % P) % TWO128 == if g2 / 4 == 0 then h0 + B * h1 else g0 + B * g1
  {
    var h := h0 + B * h1 + B * B * h2;
    if g2 < 4 {
      ModUnique(h, P, 0, h);
      ModUnique(h, TWO128, h2, h0 + B * h1);
    } else {
      ModUnique(h, P, 1, h - P);
      ModUnique(h - P, TWO128, g2 - 4, g0 + B * g1);
    }
  }

  /** Add the second half of the key modulo 2^128. */
  function AddPad(h: (u64, u64), t0: u64, t1: u64): (r: (u64, u64))
    ensures r.0 as int + B * r.1 as int == (h.0 as int + B * h.1 as int + t0 as int + B * t1 as int) % TWO128
  {
    var t := h.0 as u128 + t0 as u128;
    var r0 := (t % 0x1_0000_0000_0000_0000) as u64;
    var c := (t / 0x1_0000_0000_0000_0000) as u64;
    PadSum(h.0 as int, h.1 as int, t0 as int, t1 as int, r0 as int, c as int);
    (r0, WrappingAdd(WrappingAdd(h.1, t1), c))
  }

  lemma PadSum(h0: int, h1: int, t0: int, t1: int, r0: int, c: int)
    requires h0 + t0 == r0 + B * c && 0 <= r0 < B
    ensures r0 + B * (((h1 + t1) % B + c) % B) == (h0 + B * h1 + t0 + B * t1) % TWO128
  {
    var x := (h1 + t1) % B + c;
    ModUnique(h0 + B * h1 + t0 + B * t1, TWO128, (h1 + t1) / B + x / B, r0 + B * (x % B));
  }

  // ---------------------------------------------------------------------------
  // The key
  // ---------------------------------------------------------------------------

  function Word(b0: int, b1: int, b2: int, b3: int, b4: int, b5: int, b6: int, b7: int): int {
    b0 + 0x100 * (b1 + 0x100 * (b2 + 0x100 * (b3 + 0x100 * (b4 + 0x100 * (b5 + 0x100 * (b6 + 0x100 * b7))))))
  }

  lemma LeWord(b: seq<u8>)
    requires |b| == 8
    ensures LeVal(b) == Word(b[0], b[1], b[2], b[3], b[4], b[5], b[6], b[7])
  {
    var b1, b2, b3, b4 := b[1..], b[2..], b[3..], b[4..];
    assert b1[1..] == b2 && b2[1..] == b3 && b3[1..] == b4;
    var b5, b6, b7 := b[5..], b[6..], b[7..];
    assert b4[1..] == b5 && b5[1..] == b6 && b6[1..] == b7 && b7[1..] == [];
    assert LeVal(b7) == b[7];
    assert LeVal(b6) == b[6] + 0x100 * LeVal(b7) && LeVal(b5) == b[5] + 0x100 * LeVal(b6);
    assert LeVal(b4) == b[4] + 0x100 * LeVal(b5) && LeVal(b3) == b[3] + 0x100 * LeVal(b4);
    assert LeVal(b2) == b[2] + 0x100 * LeVal(b3) && LeVal(b1) == b[1] + 0x100 * LeVal(b2);
  }

  /** Masking the word is masking its bytes. */
  lemma MaskBytes(b0: u8, b1: u8, b2: u8, b3: u8, b4: u8, b5: u8, b6: u8, b7: u8, t: u64)
    requires t as int == Word(b0, b1, b2, b3, b4, b5, b6, b7)
    ensures Clamp0(t) as int == Word(b0, b1, b2, b3 % 16, b4 - b4 % 4, b5, b6, b7 % 16)
    ensures Clamp1(t) as int == Word(b0 - b0 % 4, b1, b2, b3 % 16, b4 - b4 % 4, b5, b6, b7 % 16)
  {
    var t := t as int;
    var lo: int := b0 as int + 0x100 * (b1 as int + 0x100 * (b2 as int + 0x100 * (b3 as int % 16)));
    var hi: int := b4 as int / 4 + 0x40 * (b5 as int + 0x100 * (b6 as int + 0x100 * (b7 as int % 16)));
    var top: int := b7 as int / 16;
    ModUnique(t, 0x1000_0000, b3 as int / 16 + 16 * Word(b4, b5, b6, b7, 0, 0, 0, 0), lo);
    ModUnique(t, 0x4_0000_0000, hi + 0x400_0000 * top,
              lo + 0x1000_0000 * (b3 as int / 16) + 0x1_0000_0000 * (b4 as int % 4));
    ModUnique(hi + 0x400_0000 * top, 0x400_0000, top, hi);
    ModUnique(lo, 4, b0 as int / 4 + 0x40 * (b1 as int + 0x100 * (b2 as int + 0x100 * (b3 as int % 16))),
              b0 as int % 4);
  }

  lemma ClampBounds(t: u64)
    ensures (Clamp0(t) as int) < 0x1000_0000_0000_0000 && (Clamp1(t) as int) < 0x1000_0000_0000_0000
        && Clamp1(t) % 4 == 0
  {
    var lo, hi := t as int % 0x1000_0000, (t as int / 0x4_0000_0000) % 0x400_0000;
    ModUnique(Clamp1(t) as int, 4, lo / 4 + hi * 0x1_0000_0000, 0);
  }

  /** The masked limbs are the RFC's clamped r. */
  lemma ClampAgrees(key: seq<u8>, t0: u64, t1: u64)
    requires |key| == 16 && t0 as int == LeVal(key[..8]) && t1 as int == LeVal(key[8..])
    ensures Clamp0(t0) as int + B * Clamp1(t1) as int == LeVal(ClampBytes(key))
  {
    var lo, hi, c := key[..8], key[8..], ClampBytes(key);
    LeWord(lo);
    LeWord(hi);
    MaskBytes(lo[0], lo[1], lo[2], lo[3], lo[4], lo[5], lo[6], lo[7], t0);
    MaskBytes(hi[0], hi[1], hi[2], hi[3], hi[4], hi[5], hi[6], hi[7], t1);
    ClampHalves(key);
    hide Clamp0, Clamp1, Word, LeVal;
    LeWord(c[..8]);
    LeWord(c[8..]);
  }

  lemma ClampHalves(key: seq<u8>)
    requires |key| == 16
    ensures LeVal(ClampBytes(key)) == LeVal(ClampBytes(key)[..8]) + B * LeVal(ClampBytes(key)[8..])
  {
    var c := ClampBytes(key);
    assert c == c[..8] + c[8..];
    LeAppend(c[..8], c[8..]);
    BytePow8();
  }
}

module Poly1305 {
  import opened Arith
  import opened Words
  import opened Bytes
  import opened Poly1305Spec
  import opened Poly1305Limbs

  function Load(bytes: seq<u8>): (r: u64)
    requires |bytes| == 8
    ensures r as int == LeVal(bytes)
  {
    LeBound(bytes);
    BytePow8();
    LeVal(bytes) as u64
  }

  /** `h` holds the accumulator of the whole blocks `done`. */
  ghost predicate Holds(h: (u64, u64, u64), r: (u64, u64), s1: u64, key: seq<u8>, done: seq<u8>) {
    && |key| == 32 && |done| % 16 == 0 && h.2 <= 4 && KeyLimbs(r, s1)
    && r.0 as int + B * r.1 as int == LeVal(ClampBytes(key[..16]))
    && Value(h) % P == Acc(LeVal(ClampBytes(key[..16])), done)
  }

  lemma StepCongruent(v: int, a: int, x: int, r: int, m: int)
    requires m > 0 && v % m == a
    ensures ((v + x) * r) % m == ((a + x) * r) % m
  {
    var q := v / m;
    assert v == a + q * m;
    assert (a + q * m + x) * r == (a + x) * r + (q * r) * m by {
      MulAssoc(q, m, r);
      MulAssoc(q, r, m);
    }
    SameRemainder((v + x) * r, (a + x) * r, q * r, m);
  }

  lemma Halves(block: seq<u8>)
    requires |block| == 16
    ensures LeVal(block) == LeVal(block[..8]) + B * LeVal(block[8..])
  {
    BytePow8();
    assert block == block[..8] + block[8..];
    LeAppend(block[..8], block[8..]);
  }

  /** The pad bit is the byte 1 after sixteen bytes. */
  lemma PadBit(block: seq<u8>)
    requires |block| == 16
    ensures LeVal(block + [1]) == LeVal(block[..8]) + B * LeVal(block[8..]) + B * B
  {
    Halves(block);
    LeAppend(block, [1]);
    assert LeVal([1]) == 1;
    BytePow8();
    BytePowAdd(8, 8);
  }

  lemma {:induction false} LeZeros(s: seq<u8>, n: nat)
    ensures LeVal(s + seq(n, _ => 0)) == LeVal(s)
    decreases n
  {
    if n == 0 {
      assert s + seq(n, _ => 0) == s;
    } else {
      assert s + seq(n, _ => 0) == s + [0] + seq(n - 1, _ => 0);
      LeZeros(s + [0], n - 1);
      LeAppend(s, [0]);
      assert LeVal([0]) == 0;
    }
  }

  /** In the last block the byte 1 sits inside the sixteen bytes, and the pad bit is off. */
  lemma PadByte(rest: seq<u8>, block: seq<u8>)
    requires |rest| < 16 && block == rest + [1] + seq(15 - |rest|, _ => 0)
    ensures |block| == 16 && LeVal(rest + [1]) == LeVal(block[..8]) + B * LeVal(block[8..])
  {
    hide LeVal;
    LeZeros(rest + [1], 15 - |rest|);
    Halves(block);
  }

  lemma AccSnoc(r: int, done: seq<u8>, block: seq<u8>)
    requires |done| % 16 == 0 && |block| == 16
    ensures Acc(r, done + block) == BlockStep(r, Acc(r, done), block)
  {
    var all := done + block;
    assert all[..|all| - 16] == done && all[|all| - 16..] == block;
  }

  class Poly1305 {
    var r: (u64, u64)
    var s1: u64
    var h: (u64, u64, u64)
    var pad: seq<u8>
    const buffer: array<u8>
    var buffered: nat
    ghost const key: seq<u8>
    ghost var msg: seq<u8>

    /** The whole blocks of `msg` are in `h`, the rest is in the buffer. */
    ghost predicate Valid()
      reads this, buffer
    {
      && buffer.Length == 16 && buffered < 16
      && Holds(h, r, s1, key, Whole(msg))
      && buffer[..buffered] == Rest(msg)
      && pad == key[16..]
    }

    /** Start an authenticator under a one-time key. */
    constructor (key: seq<u8>)
      requires |key| == 32
      ensures Valid() && fresh(buffer) && this.key == key && msg == []
    {
      var t0 := Load(key[..8]);
      var t1 := Load(key[8..16]);
      r := (Clamp0(t0), Clamp1(t1));
      ClampBounds(t0);
      ClampBounds(t1);
      s1 := Clamp1(t1) + Clamp1(t1) / 4;
      pad := key[16..];
      h := (0, 0, 0);
      buffer := new u8[16](_ => 0);
      buffered := 0;
      this.key := key;
      msg := [];
      new;
      assert key[..16][..8] == key[..8] && key[..16][8..] == key[8..16];
      ClampAgrees(key[..16], t0, t1);
      hide Clamp0, Clamp1, ClampBytes;
    }

    /** One block of `h = (h + m) * r`, partially reduced. */
    method Absorb(block: seq<u8>, padbit: u64)
      requires |block| == 16 && padbit <= 1
      requires h.2 <= 4 && KeyLimbs(r, s1)
      modifies this`h
      ensures h.2 <= 4
      ensures Value(h) % P
           == ((old(Value(h)) + (LeVal(block[..8]) + B * LeVal(block[8..]) + B * B * padbit as int))
               * (r.0 as int + B * r.1 as int)) % P
    {
      var m := (Load(block[..8]), Load(block[8..]));
      h := AbsorbLimbs(h, m, padbit, r, s1);
    }

    method AbsorbWhole(block: seq<u8>, ghost done: seq<u8>)
      requires |block| == 16 && Holds(h, r, s1, key, done)
      modifies this`h
      ensures Holds(h, r, s1, key, done + block)
    {
      hide LeVal, ClampBytes, Acc, Value, KeyLimbs;
      ghost var rv, v := LeVal(ClampBytes(key[..16])), Value(h);
      Absorb(block, 1);
      PadBit(block);
      AccSnoc(rv, done, block);
      StepCongruent(v, Acc(rv, done), LeVal(block + [1]), rv, P);
    }

    /** The head of `update`: top up a part-filled buffer and absorb it once it is full. */
    method TopUp(data: seq<u8>, ghost whole: seq<u8>) returns (rest: seq<u8>, ghost done: seq<u8>)
      requires buffer.Length == 16 && buffered < 16 && Holds(h, r, s1, key, whole)
      modifies this`h, this`buffered, buffer
      ensures buffered < 16 && (rest != [] ==> buffered == 0)
      ensures Holds(h, r, s1, key, done)
      ensures Joined(done, buffer[..buffered], rest) == whole + old(buffer[..buffered]) + data
    {
      hide *;
      rest, done := data, whole;
      TopUpJoined(whole, buffer[..buffered], data);
      if buffered > 0 {
        var take := if 16 - buffered < |rest| then 16 - buffered else |rest|;
        ghost var held := buffer[..buffered];
        CopyInto(buffer, buffered, rest[..take]);
        buffered := buffered + take;
        assert buffer[..buffered] == held + rest[..take];
        MoveIn(done, held, rest, take);
        rest := rest[take..];
        if buffered == 16 {
          assert buffer[..] == buffer[..16];
          MoveOut(done, buffer[..], rest);
          AbsorbWhole(buffer[..], done);
          done := done + buffer[..];
          buffered := 0;
        }
      }
    }

    /** Absorb more message bytes. */
    method Update(data: seq<u8>)
      requires Valid()
      modifies this, buffer
      ensures Valid() && msg == old(msg) + data
      ensures pad == old(pad) && r == old(r) && s1 == old(s1)
    {
      Split(msg);
      ValidParts();
      hide *;
      var rest, done := TopUp(data, Whole(msg));
      while |rest| >= 16
        invariant buffered < 16 && (rest != [] ==> buffered == 0)
        invariant Holds(h, r, s1, key, done)
        invariant Joined(done, buffer[..buffered], rest) == old(msg) + data
        invariant pad == old(pad) && r == old(r) && s1 == old(s1) && msg == old(msg)
      {
        ShiftBlock(done, buffer[..buffered], rest);
        AbsorbWhole(rest[..16], done);
        done := done + rest[..16];
        rest := rest[16..];
      }
      HoldRest(done, buffer[..buffered], rest);
      if rest != [] {
        CopyInto(buffer, 0, rest);
        buffered := |rest|;
        assert buffer[..buffered] == rest;
      }
      msg := msg + data;
      HoldsWhole(h, r, s1, key, done);
      Unsplit(msg, done, buffer[..buffered]);
      MakeValid();
    }

    /** Absorb zero bytes until the message length is a multiple of 16. */
    method PadToBlock()
      requires Valid()
      modifies this, buffer
      ensures Valid() && msg == old(msg) + ZeroPadding(|old(msg)|)
    {
      hide *;
      ValidParts();
      Split(msg);
      PaddingIs(|msg|, buffered);
      if buffered > 0 {
        Update(seq(16 - buffered, _ => 0));
      }
    }

    /** The head of `finalize`: absorb what is still buffered, with its byte 1 and no pad bit. */
    method AbsorbRest()
      requires Valid()
      modifies this`h
      ensures h.2 <= 4 && Value(h) % P == Total(LeVal(ClampBytes(key[..16])), msg)
    {
      hide Acc, LeVal, ClampBytes, KeyLimbs, Value, Whole, Rest;
      ghost var rv, v, rest := LeVal(ClampBytes(key[..16])), Value(h), Rest(msg);
      if buffered > 0 {
        var block := buffer[..buffered] + [1] + seq(15 - buffered, _ => 0);
        PadByte(rest, block);
        Absorb(block, 0);
        StepCongruent(v, Acc(rv, Whole(msg)), LeVal(rest + [1]), rv, P);
      }
    }

    /** Finish and return the 16-byte tag. */
    method Finalize() returns (tag: seq<u8>)
      requires Valid()
      modifies this, buffer
      ensures tag == Tag(key, old(msg))
    {
      ValidParts();
      hide *;
      AbsorbRest();
      buffered := 0;
      s1 := 0;
      tag := FinishTag(h, pad);
      TagUnfold(key, old(msg));
    }

    lemma ValidParts()
      requires Valid()
      ensures |key| == 32 && pad == key[16..] && buffer.Length == 16 && buffered < 16
      ensures Holds(h, r, s1, key, Whole(msg)) && buffer[..buffered] == Rest(msg)
    {
    }

    lemma MakeValid()
      requires |key| == 32 && pad == key[16..] && buffer.Length == 16 && buffered < 16
      requires Holds(h, r, s1, key, Whole(msg)) && buffer[..buffered] == Rest(msg)
      ensures Valid()
    {
    }

    /** Finish and compare against an expected tag: equal length and equal bytes. */
    method Verify(expected: seq<u8>) returns (ok: bool)
      requires Valid()
      modifies this, buffer
      ensures ok <==> expected == Tag(key, old(msg))
    {
      var tag := Finalize();
      ok := tag == expected;
    }
  }

  lemma TagUnfold(key: seq<u8>, msg: seq<u8>)
    requires |key| == 32
    ensures Tag(key, msg) == LeBytes((Total(LeVal(ClampBytes(key[..16])), msg) + LeVal(key[16..])) % TWO128, 16)
  {
  }

  function ZeroPadding(n: nat): (r: seq<u8>)
    ensures (n + |r|) % 16 == 0 && |r| < 16
  {
    seq((16 - n % 16) % 16, _ => 0)
  }

  lemma PaddingIs(n: nat, held: nat)
    requires held == n % 16
    ensures ZeroPadding(n) == if held > 0 then seq(16 - held, _ => 0) else []
  {
  }

  function Store(t: (u64, u64)): (r: seq<u8>)
    ensures |r| == 16
  {
    LeBytes(t.0 as int, 8) + LeBytes(t.1 as int, 8)
  }

  /** The blocks absorbed, the bytes held back, and what is still to come. */
  ghost function Joined(done: seq<u8>, held: seq<u8>, rest: seq<u8>): seq<u8> {
    done + held + rest
  }

  lemma ShiftBlock(done: seq<u8>, held: seq<u8>, rest: seq<u8>)
    requires held == [] && |rest| >= 16
    ensures Joined(done + rest[..16], held, rest[16..]) == Joined(done, held, rest)
  {
  }

  lemma TopUpJoined(done: seq<u8>, held: seq<u8>, rest: seq<u8>)
    ensures Joined(done, held, rest) == done + held + rest
  {
  }

  lemma MoveIn(done: seq<u8>, held: seq<u8>, rest: seq<u8>, take: nat)
    requires take <= |rest|
    ensures Joined(done, held + rest[..take], rest[take..]) == Joined(done, held, rest)
  {
    assert rest == rest[..take] + rest[take..];
  }

  lemma MoveOut(done: seq<u8>, block: seq<u8>, rest: seq<u8>)
    ensures Joined(done + block, [], rest) == Joined(done, block, rest)
  {
  }

  /** What is left when less than a block is to come is held back. */
  lemma HoldRest(done: seq<u8>, held: seq<u8>, rest: seq<u8>)
    ensures rest == [] ==> Joined(done, held, rest) == done + held
    ensures held == [] ==> Joined(done, held, rest) == done + rest
  {
  }

  lemma HoldsWhole(h: (u64, u64, u64), r: (u64, u64), s1: u64, key: seq<u8>, done: seq<u8>)
    requires Holds(h, r, s1, key, done)
    ensures |done| % 16 == 0
  {
  }

  /** The tail of `finalize`: full reduction, the pad, and the sixteen bytes. */
  function FinishTag(h: (u64, u64, u64), pad: seq<u8>): (tag: seq<u8>)
    requires h.2 <= 4 && |pad| == 16
    ensures tag == LeBytes((Value(h) % P + LeVal(pad)) % TWO128, 16)
  {
    var reduced := Reduce(h);
    var t := AddPad(reduced, Load(pad[..8]), Load(pad[8..]));
    FinalTag(Value(h), reduced, pad, t);
    Store(t)
  }

  /** Sixteen little-endian bytes of the final sum. */
  lemma FinalTag(v: int, reduced: (u64, u64), pad: seq<u8>, t: (u64, u64))
    requires |pad| == 16
    requires reduced.0 as int + B * reduced.1 as int == (v % P) % TWO128
    requires t.0 as int + B * t.1 as int
          == (reduced.0 as int + B * reduced.1 as int + LeVal(pad[..8]) + B * LeVal(pad[8..])) % TWO128
    ensures Store(t) == LeBytes((v % P + LeVal(pad)) % TWO128, 16)
  {
    Halves(pad);
    StoreValue(t);
    LeBytesOfVal(Store(t));
    ModOfSum(v % P, LeVal(pad), LeVal(Store(t)));
  }

  lemma ModOfSum(a: int, s: int, t: int)
    requires t == (a % TWO128 + s) % TWO128
    ensures t == (a + s) % TWO128
  {
    SameRemainder(a + s, a % TWO128 + s, a / TWO128, TWO128);
  }

  lemma StoreValue(t: (u64, u64))
    ensures LeVal(Store(t)) == t.0 as int + B * t.1 as int
  {
    BytePow8();
    LeValOfBytes(t.0 as int, 8);
    LeValOfBytes(t.1 as int, 8);
    LeAppend(LeBytes(t.0 as int, 8), LeBytes(t.1 as int, 8));
  }

  lemma Split(m: seq<u8>)
    ensures m == Whole(m) + Rest(m) && |Whole(m)| % 16 == 0 && |Rest(m)| == |m| % 16
  {
  }

  /** A message has one split into whole blocks and a short rest. */
  lemma Unsplit(m: seq<u8>, whole: seq<u8>, rest: seq<u8>)
    requires m == whole + rest && |whole| % 16 == 0 && |rest| < 16
    ensures Whole(m) == whole && Rest(m) == rest
  {
  }
}
