/** Byte encoding, selection and square roots (field/encoding.rs). */
module FieldEncoding {
  import opened Arith
  import opened Words
  import opened Bytes
  import opened FieldLimbs
  import opened FieldLoops
  import opened FieldPow
  import opened Scalar

  // ---------------------------------------------------------------------------
  // from_bytes
  // ---------------------------------------------------------------------------

  /**
   Five 51-bit windows of the 256-bit word, ignoring bit 255. Each `|` joins
   words without a common bit, so it is a sum; `(w << k) & MASK51` keeps the low
   51 - k bits of w.
   */
  function Unpack(w0: u64, w1: u64, w2: u64, w3: u64, ghost n: int): (f: Fe)
    requires n == w0 as int + B * w1 as int + TWO128 * w2 as int + TWO192 * w3 as int
    ensures Ok(f) && Val(f) == n % TWO255
  {
    var f := Fe(w0 % 0x8_0000_0000_0000,
                w0 / 0x8_0000_0000_0000 + (w1 % 0x40_0000_0000) * 0x2000,
                w1 / 0x40_0000_0000 + (w2 % 0x200_0000) * 0x400_0000,
                w2 / 0x200_0000 + (w3 % 0x1000) * 0x80_0000_0000,
                (w3 / 0x1000) % 0x8_0000_0000_0000);
    DivModOf(n, TWO255, w3 as int / 0x1000 / 0x8_0000_0000_0000, Val(f));
    f
  }

  const TWO128: int := 0x1_00000000_00000000_00000000_00000000
  const TWO192: int := 0x1_00000000_00000000_00000000_00000000_00000000_00000000
  const TWO255: int := 0x80000000_00000000_00000000_00000000_00000000_00000000_00000000_00000000

  /** 32 bytes as four words. */
  lemma FourWords(b: seq<u8>)
    requires |b| == 32
    ensures LeVal(b) == LeVal(b[..8]) + B * LeVal(b[8..16]) + TWO128 * LeVal(b[16..24]) + TWO192 * LeVal(b[24..])
  {
    hide LeVal, BytePow;
    BytePow8();
    var b1, b2 := b[8..], b[16..];
    assert b == b[..8] + b1 && b1 == b[8..16] + b2 && b2 == b[16..24] + b[24..];
    LeAppend(b[..8], b1);
    LeAppend(b[8..16], b2);
    LeAppend(b[16..24], b[24..]);
  }

  /** Load a field element from 32 little-endian bytes, ignoring bit 255. */
  function FromBytes(b: seq<u8>): (f: Fe)
    requires |b| == 32
    ensures Ok(f) && Val(f) == LeVal(b) % TWO255
  {
    hide LeVal, Unpack, Val, Ok, LoadLe64;
    FourWords(b);
    Unpack(LoadLe64(b[..8]), LoadLe64(b[8..16]), LoadLe64(b[16..24]), LoadLe64(b[24..]), LeVal(b))
  }

  // ---------------------------------------------------------------------------
  // to_bytes
  // ---------------------------------------------------------------------------

  /** A weakly reduced value lies below 2p, and its limbs but the last are below 2^51. */
  ghost predicate Weak(f: Fe) {
    && (f.l0 as int) < E51 && (f.l1 as int) < E51 && (f.l2 as int) < E51 && (f.l3 as int) < E51
    && (f.l4 as int) < E51 + 4
  }

  /** The carry of `value + 19` out of bit 255. */
  function Quotient(f: Fe): (q: u64)
    requires Weak(f)
    ensures q as int == (Val(f) + 19) / TWO255 && q <= 1
  {
    var q0 := (f.l0 + 19) / 0x8_0000_0000_0000;
    var q1 := (f.l1 + q0) / 0x8_0000_0000_0000;
    var q2 := (f.l2 + q1) / 0x8_0000_0000_0000;
    var q3 := (f.l3 + q2) / 0x8_0000_0000_0000;
    var q4 := (f.l4 + q3) / 0x8_0000_0000_0000;
    QuotientExact(f.l0 as int, f.l1 as int, f.l2 as int, f.l3 as int, f.l4 as int);
    q4
  }

  lemma QuotientExact(l0: int, l1: int, l2: int, l3: int, l4: int)
    requires 0 <= l0 < E51 && 0 <= l1 < E51 && 0 <= l2 < E51 && 0 <= l3 < E51 && 0 <= l4 < E51 + 4
    ensures var q3 := (l3 + (l2 + (l1 + (l0 + 19) / E51) / E51) / E51) / E51;
      (l4 + q3) / E51 == (l0 + E51 * l1 + E102 * l2 + E153 * l3 + E204 * l4 + 19) / TWO255
  {
    var t0 := l0 + 19;
    var t1 := l1 + t0 / E51;
    var t2 := l2 + t1 / E51;
    var t3 := l3 + t2 / E51;
    var t4 := l4 + t3 / E51;
    DivModOf(l0 + E51 * l1 + E102 * l2 + E153 * l3 + E204 * l4 + 19, TWO255, t4 / E51,
             t0 % E51 + E51 * (t1 % E51) + E102 * (t2 % E51) + E153 * (t3 % E51) + E204 * (t4 % E51));
  }

  /** The limbs before the last ripple of `to_bytes`: 19 more when the value is at least p. */
  lemma FullyReduced(f: Fe, q: int, t: seq<u64>, r: Fe)
    requires Weak(f) && q == (Val(f) + 19) / TWO255 && 0 <= q <= 1
    requires |t| == 5 && t[0] as int == f.l0 as int + 19 * q
    requires t[1] == f.l1 && t[2] == f.l2 && t[3] == f.l3 && t[4] == f.l4
    requires forall k :: 0 <= k < 5 ==> Limbs(r)[k] as int == Carried(t, k) % E51
    ensures Val(r) == Mod(Val(f))
  {
    hide WeakReduce, Mod;
    ModIs(Val(f));
    var c0, c1, c2, c3, c4 := Carried(t, 0), Carried(t, 1), Carried(t, 2), Carried(t, 3), Carried(t, 4);
    assert c1 == t[1] as int + c0 / E51 && c2 == t[2] as int + c1 / E51;
    assert c3 == t[3] as int + c2 / E51 && c4 == t[4] as int + c3 / E51;
    assert Limbs(r)[0] as int == c0 % E51 && Limbs(r)[1] as int == c1 % E51 && Limbs(r)[2] as int == c2 % E51;
    assert Limbs(r)[3] as int == c3 % E51 && Limbs(r)[4] as int == c4 % E51;
    RippleValue(f.l0 as int, f.l1 as int, f.l2 as int, f.l3 as int, f.l4 as int, q, c0, c1, c2, c3, c4);
    ModUnique(Val(f), P, q, Val(f) - q * P);
  }

  lemma RippleValue(l0: int, l1: int, l2: int, l3: int, l4: int, q: int, c0: int, c1: int, c2: int, c3: int, c4: int)
    requires 0 <= l0 + E51 * l1 + E102 * l2 + E153 * l3 + E204 * l4 < 2 * P
    requires q == (l0 + E51 * l1 + E102 * l2 + E153 * l3 + E204 * l4 + 19) / TWO255
    requires c0 == l0 + 19 * q && c1 == l1 + c0 / E51 && c2 == l2 + c1 / E51 && c3 == l3 + c2 / E51
        && c4 == l4 + c3 / E51
    ensures c0 % E51 + E51 * (c1 % E51) + E102 * (c2 % E51) + E153 * (c3 % E51) + E204 * (c4 % E51)
         == l0 + E51 * l1 + E102 * l2 + E153 * l3 + E204 * l4 - q * P
    ensures 0 <= l0 + E51 * l1 + E102 * l2 + E153 * l3 + E204 * l4 - q * P < P
  {
    var v := l0 + E51 * l1 + E102 * l2 + E153 * l3 + E204 * l4;
    var low := c0 % E51 + E51 * (c1 % E51) + E102 * (c2 % E51) + E153 * (c3 % E51) + E204 * (c4 % E51);
    assert low + TWO255 * (c4 / E51) == v + 19 * q;
    assert c4 / E51 == q;
  }

  /** Five 51-bit limbs packed into four words. */
  function Pack(f: Fe): (w: (u64, u64, u64, u64))
    requires (f.l0 as int) < E51 && (f.l1 as int) < E51 && (f.l2 as int) < E51
    requires (f.l3 as int) < E51 && (f.l4 as int) < E51
    ensures w.0 as int + B * w.1 as int + TWO128 * w.2 as int + TWO192 * w.3 as int == Val(f)
  {
    (f.l0 + (f.l1 % 0x2000) * 0x8_0000_0000_0000,
     f.l1 / 0x2000 + (f.l2 % 0x400_0000) * 0x40_0000_0000,
     f.l2 / 0x400_0000 + (f.l3 % 0x80_0000_0000) * 0x200_0000,
     f.l3 / 0x80_0000_0000 + f.l4 * 0x1000)
  }

  /** The canonical encoding: 32 little-endian bytes of the residue. */
  function Encode(f: Fe): (r: seq<u8>)
    ensures |r| == 32
  {
    LeBytes(Mod(Val(f)), 32)
  }

  lemma WeakOfReduce(f: Fe)
    requires Ok(f)
    ensures Loose(f) && Weak(WeakReduce(f)) && Mod(Val(WeakReduce(f))) == Mod(Val(f))
  {
    ModShift(Val(f), Val(WeakReduce(f)), f.l4 as int / E51);
  }

  /** Subtract p once when the weakly reduced value is at least p. */
  method Reduce(f: Fe) returns (r: Fe)
    requires Ok(f)
    ensures (r.l0 as int) < E51 && (r.l1 as int) < E51 && (r.l2 as int) < E51
    ensures (r.l3 as int) < E51 && (r.l4 as int) < E51
    ensures Val(r) == Mod(Val(f))
  {
    hide WeakReduce, Val, Carried, Mod;
    WeakOfReduce(f);
    var weak := WeakReduceLoop(f);
    var s, q := Limbs(weak), Quotient(weak);
    var limbs := new u64[5](i requires 0 <= i < 5 => s[i]);
    limbs[0] := limbs[0] + 19 * q;
    ghost var t := limbs[..];
    Ripple(limbs);
    limbs[4] := limbs[4] % 0x8_0000_0000_0000;
    r := OfLimbs(limbs[..]);
    FullyReduced(weak, q as int, t, r);
  }

  /** Fully reduce modulo p and serialize to 32 little-endian bytes. */
  method ToBytes(f: Fe) returns (r: seq<u8>)
    requires Ok(f)
    ensures r == Encode(f)
  {
    hide Val, Mod, LeVal, LeBytes, BytePow;
    var limbs := Reduce(f);
    var (w0, w1, w2, w3) := Pack(limbs);
    var out := new u8[32];
    var b0, b1, b2, b3 := LeBytes(w0 as int, 8), LeBytes(w1 as int, 8), LeBytes(w2 as int, 8), LeBytes(w3 as int, 8);
    for j := 0 to 8
      invariant out[..j] == b0[..j] && out[8..8 + j] == b1[..j]
      invariant out[16..16 + j] == b2[..j] && out[24..24 + j] == b3[..j]
    {
      out[j] := b0[j];
      out[8 + j] := b1[j];
      out[16 + j] := b2[j];
      out[24 + j] := b3[j];
    }
    r := out[..];
    assert r[..8] == b0 && r[8..16] == b1 && r[16..24] == b2 && r[24..] == b3;
    PackedBytes(f, r, w0, w1, w2, w3);
  }

  lemma PackedBytes(f: Fe, r: seq<u8>, w0: u64, w1: u64, w2: u64, w3: u64)
    requires |r| == 32
    requires r[..8] == LeBytes(w0 as int, 8) && r[8..16] == LeBytes(w1 as int, 8)
    requires r[16..24] == LeBytes(w2 as int, 8) && r[24..] == LeBytes(w3 as int, 8)
    requires w0 as int + B * w1 as int + TWO128 * w2 as int + TWO192 * w3 as int == Mod(Val(f))
    ensures r == Encode(f)
  {
    hide Val, Mod, LeVal, LeBytes, BytePow;
    FourWords(r);
    ChunkValue(w0, r[..8]);
    ChunkValue(w1, r[8..16]);
    ChunkValue(w2, r[16..24]);
    ChunkValue(w3, r[24..]);
    LeBytesOfVal(r);
  }

  // ---------------------------------------------------------------------------
  // Round trips
  // ---------------------------------------------------------------------------

  lemma EncodeValue(f: Fe)
    ensures LeVal(Encode(f)) == Mod(Val(f))
  {
    hide LeVal, Val, BytePow;
    Bytes32();
    LeValOfBytes(Mod(Val(f)), 32);
  }

  /** p is 2^255 - 19. */
  lemma PrimeIs()
    ensures 2 * (P + 19) == BytePow(32)
  {
    Bytes32();
  }

  lemma Bytes32()
    ensures BytePow(32) == 2 * TWO255
  {
    hide BytePow;
    BytePow8();
    BytePowAdd(8, 8);
    BytePowAdd(16, 16);
  }

  /** Byte equality is equality modulo p. */
  lemma EncodeEqual(f: Fe, g: Fe)
    ensures Encode(f) == Encode(g) <==> Mod(Val(f)) == Mod(Val(g))
  {
    EncodeValue(f);
    EncodeValue(g);
  }

  /** Reading the encoding recovers the residue. */
  lemma FromEncode(f: Fe)
    ensures Val(FromBytes(Encode(f))) == Mod(Val(f))
  {
    EncodeValue(f);
    hide Encode, Val, LeVal;
    ModUnique(LeVal(Encode(f)), TWO255, 0, LeVal(Encode(f)));
  }

  /** An encoding survives the trip exactly when it is below p; bit 255 and larger values do not. */
  lemma EncodeFrom(b: seq<u8>)
    requires |b| == 32
    ensures Encode(FromBytes(b)) == b <==> LeVal(b) < P
  {
    EncodeValue(FromBytes(b));
    if LeVal(b) < P {
      ModUnique(LeVal(b), TWO255, 0, LeVal(b));
      ModSmall(LeVal(b));
      LeInjective(Encode(FromBytes(b)), b);
    }
  }
}
