/** The GHASH accumulator (aes/arm/ghash.rs, `Ghash`), against section 6.4 of NIST SP 800-38D. */
module Ghash {
  import opened Arith
  import opened Bytes
  import opened Gf2
  import opened GhashField

  type Block = s: seq<u8> | |s| == 16 witness seq(16, _ => 0)

  // ---------------------------------------------------------------------------
  // Blocks and polynomials
  // ---------------------------------------------------------------------------

  /** The bits of a byte in reverse order. */
  function RevByte(b: u8): u8 {
    (b % 2) * 0x80 + (b / 2 % 2) * 0x40 + (b / 4 % 2) * 0x20 + (b / 8 % 2) * 0x10
    + (b / 16 % 2) * 8 + (b / 32 % 2) * 4 + (b / 64 % 2) * 2 + b / 128
  }

  /** A byte is the sum of its bits. */
  lemma ByteBits(b: u8)
    ensures b == b % 2 + 2 * (b / 2 % 2) + 4 * (b / 4 % 2) + 8 * (b / 8 % 2) + 16 * (b / 16 % 2)
              + 32 * (b / 32 % 2) + 64 * (b / 64 % 2) + 128 * (b / 128)
    ensures 0 <= b / 128 < 2
  {
    assert b / 4 == (b / 2) / 2 && b / 8 == (b / 4) / 2 && b / 16 == (b / 8) / 2;
    assert b / 32 == (b / 16) / 2 && b / 64 == (b / 32) / 2 && b / 128 == (b / 64) / 2;
  }

  predicate IsBit(b: int) {
    0 <= b < 2
  }

  /** The bits of a sum of bits. */
  lemma BitsOfSum(v: int, b0: int, b1: int, b2: int, b3: int, b4: int, b5: int, b6: int, b7: int)
    requires IsBit(b0) && IsBit(b1) && IsBit(b2) && IsBit(b3) && IsBit(b4) && IsBit(b5) && IsBit(b6) && IsBit(b7)
    requires v == b0 + 2 * b1 + 4 * b2 + 8 * b3 + 16 * b4 + 32 * b5 + 64 * b6 + 128 * b7
    ensures v % 2 == b0 && v / 2 % 2 == b1 && v / 4 % 2 == b2 && v / 8 % 2 == b3
    ensures v / 16 % 2 == b4 && v / 32 % 2 == b5 && v / 64 % 2 == b6 && v / 128 == b7
  {
    var v4 := b4 + 2 * b5 + 4 * b6 + 8 * b7;
    assert v / 16 == v4;
    assert v / 8 == b3 + 2 * v4;
    assert v / 4 == b2 + 2 * (b3 + 2 * v4);
    assert v / 2 == b1 + 2 * (b2 + 2 * (b3 + 2 * v4));
    assert v / 32 == b5 + 2 * b6 + 4 * b7;
    assert v / 64 == b6 + 2 * b7;
  }

  /** The bits of a reversed byte. */
  lemma RevByteBits(b: u8)
    ensures var r := RevByte(b);
      && r % 2 == b / 128 && r / 2 % 2 == b / 64 % 2 && r / 4 % 2 == b / 32 % 2 && r / 8 % 2 == b / 16 % 2
      && r / 16 % 2 == b / 8 % 2 && r / 32 % 2 == b / 4 % 2 && r / 64 % 2 == b / 2 % 2 && r / 128 == b % 2
  {
    BitsOfSum(RevByte(b), b / 128, b / 64 % 2, b / 32 % 2, b / 16 % 2, b / 8 % 2, b / 4 % 2, b / 2 % 2, b % 2);
  }

  lemma RevByteTwice(b: u8)
    ensures RevByte(RevByte(b)) == b
  {
    hide RevByte;
    ByteBits(b);
    RevByteBits(b);
    RevByteIs(RevByte(b));
  }

  lemma RevByteIs(b: u8)
    ensures RevByte(b) == (b % 2) * 0x80 + (b / 2 % 2) * 0x40 + (b / 4 % 2) * 0x20 + (b / 8 % 2) * 0x10
                        + (b / 16 % 2) * 8 + (b / 32 % 2) * 4 + (b / 64 % 2) * 2 + b / 128
  {
  }

  function RevBytes(s: seq<u8>): (r: seq<u8>)
    ensures |r| == |s|
  {
    seq(|s|, i requires 0 <= i < |s| => RevByte(s[i]))
  }

  lemma RevBytesTwice(s: seq<u8>)
    ensures RevBytes(RevBytes(s)) == s
  {
    hide RevByte;
    forall i | 0 <= i < |s| ensures RevBytes(RevBytes(s))[i] == s[i] {
      RevByteTwice(s[i]);
    }
  }

  /** The polynomial of a block: its bytes bit-reversed, then read little-endian. */
  function Reflect(block: Block): (r: nat)
    ensures r < Pow2(128)
  {
    hide *;
    LeBound(RevBytes(block));
    BytePowIsPow2(16);
    LeVal(RevBytes(block))
  }

  /** The block of a polynomial. */
  function Unreflect(v: nat): Block {
    RevBytes(LeBytes(v, 16))
  }

  lemma ReflectValue(block: Block)
    ensures Reflect(block) == LeVal(RevBytes(block))
  {
    hide RevBytes, LeVal;
  }

  lemma ReflectUnreflect(v: nat, block: Block)
    requires v < Pow2(128)
    ensures Reflect(Unreflect(v)) == v && Unreflect(Reflect(block)) == block
  {
    hide RevBytes, LeVal, LeBytes, Pow2, BytePow, Reflect;
    BytePowIsPow2(16);
    ReflectValue(Unreflect(v));
    ReflectValue(block);
    RevBytesTwice(LeBytes(v, 16));
    LeValOfBytes(v, 16);
    LeBytesOfVal(RevBytes(block));
    RevBytesTwice(block);
  }

  /** Coefficient i of the polynomial is bit i of the block, counted from the most significant bit of its first byte. */
  lemma ReflectCoefficient(block: Block, i: nat)
    requires i < 128
    ensures (Reflect(block) / Pow2(i)) % 2 == (block[i / 8] / Pow2(7 - i % 8)) % 2
  {
    hide RevBytes, LeVal, Pow2, BytePow, Reflect, RevByte;
    ReflectValue(block);
    BitValue(RevBytes(block), i);
    RevByteBit(block[i / 8], i % 8);
    RevBytesAt(block, i / 8);
  }

  lemma RevBytesAt(s: seq<u8>, i: nat)
    requires i < |s|
    ensures RevBytes(s)[i] == RevByte(s[i])
  {
  }

  lemma RevByteBit(b: u8, j: nat)
    requires j < 8
    ensures (RevByte(b) / Pow2(j)) % 2 == (b / Pow2(7 - j)) % 2
  {
    hide RevByte, Pow2;
    RevByteBits(b);
    SmallPowers();
    ByteRange(b);
    ByteRange(RevByte(b));
    assert j == 0 || j == 1 || j == 2 || j == 3 || j == 4 || j == 5 || j == 6 || j == 7;
  }

  lemma ByteRange(b: u8)
    ensures b / 128 % 2 == b / 128 && b / 1 == b
  {
  }

  lemma SmallPowers()
    ensures Pow2(0) == 1 && Pow2(1) == 2 && Pow2(2) == 4 && Pow2(3) == 8
    ensures Pow2(4) == 16 && Pow2(5) == 32 && Pow2(6) == 64 && Pow2(7) == 128
  {
  }

  /** A short final block is filled up with zeros. */
  function Pad(s: seq<u8>): Block
    requires |s| <= 16
  {
    s + seq(16 - |s|, _ => 0)
  }

  /** A byte string as 16-byte blocks, the last one padded. */
  function Blocks(data: seq<u8>): seq<Block> {
    if data == [] then []
    else if |data| <= 16 then [Pad(data)]
    else [data[..16]] + Blocks(data[16..])
  }

  lemma {:induction false} BlocksAppend(a: seq<u8>, b: seq<u8>)
    requires |a| % 16 == 0
    ensures Blocks(a + b) == Blocks(a) + Blocks(b)
    decreases |a|
  {
    hide Pad, Blocks;
    BlocksStep(a);
    BlocksStep(b);
    BlocksStep(a + b);
    if a == [] {
      assert a + b == b;
    } else if |a| == 16 {
      PadWhole(a);
      if b == [] {
        assert a + b == a;
      } else {
        assert (a + b)[..16] == a && (a + b)[16..] == b;
      }
    } else {
      BlocksAppend(a[16..], b);
      assert (a + b)[..16] == a[..16] && (a + b)[16..] == a[16..] + b;
    }
  }

  lemma BlocksStep(s: seq<u8>)
    ensures Blocks(s) == if s == [] then [] else if |s| <= 16 then [Pad(s)] else [s[..16]] + Blocks(s[16..])
  {
    hide Pad;
  }

  lemma PadWhole(a: seq<u8>)
    requires |a| == 16
    ensures Pad(a) == a
  {
  }

  /** One more block of data. */
  lemma NextBlock(data: seq<u8>, offset: nat, end: nat)
    requires offset < end <= |data| && offset % 16 == 0 && end <= offset + 16
    ensures Blocks(data[..end]) == Blocks(data[..offset]) + [Pad(data[offset..end])]
    ensures end == offset + 16 ==> Pad(data[offset..end]) == data[offset..end]
  {
    hide Pad;
    assert data[..end] == data[..offset] + data[offset..end];
    BlocksAppend(data[..offset], data[offset..end]);
    if end == offset + 16 {
      PadWhole(data[offset..end]);
    }
  }

  // ---------------------------------------------------------------------------
  // The hash of a block sequence
  // ---------------------------------------------------------------------------

  /** One block at a time: Y' = (Y + X) * H. */
  function HashFrom(h: nat, acc: nat, blocks: seq<Block>): nat {
    if blocks == [] then acc
    else Dot(Xor(HashFrom(h, acc, blocks[..|blocks| - 1]), Reflect(blocks[|blocks| - 1])), h)
  }

  lemma HashStep(h: nat, acc: nat, blocks: seq<Block>, b: Block)
    ensures HashFrom(h, acc, blocks + [b]) == Dot(Xor(HashFrom(h, acc, blocks), Reflect(b)), h)
    ensures HashFrom(h, acc, []) == acc
  {
    hide Dot, Xor, Reflect;
    assert (blocks + [b])[..|blocks|] == blocks;
  }

  lemma {:induction false} HashAppend(h: nat, acc: nat, a: seq<Block>, b: seq<Block>)
    ensures HashFrom(h, acc, a + b) == HashFrom(h, HashFrom(h, acc, a), b)
  {
    hide Dot, Xor, Reflect;
    if b == [] {
      assert a + b == a;
    } else {
      var n := |b| - 1;
      HashAppend(h, acc, a, b[..n]);
      assert (a + b)[..|a + b| - 1] == a + b[..n];
    }
  }

  lemma {:induction false} HashBound(h: nat, acc: nat, blocks: seq<Block>)
    requires h < Pow2(128) && acc < Pow2(128)
    ensures HashFrom(h, acc, blocks) < Pow2(128)
  {
    hide Dot, Xor, Reflect, Pow2;
    if blocks != [] {
      DotBound(Xor(HashFrom(h, acc, blocks[..|blocks| - 1]), Reflect(blocks[|blocks| - 1])), h);
    }
  }

  // ---------------------------------------------------------------------------
  // Powers of H and deferred products
  // ---------------------------------------------------------------------------

  function HPow(h: nat, n: nat): nat
    decreases n, h
  {
    if n == 0 then 1 else Dot(HPow(h, n - 1), h)
  }

  lemma HPowStep(h: nat, n: nat)
    ensures HPow(h, 0) == 1 && HPow(h, n + 1) == Dot(HPow(h, n), h)
  {
    hide Dot;
  }

  lemma {:induction false} HPowBound(h: nat, n: nat)
    requires h < Pow2(128)
    ensures HPow(h, n) < Pow2(128)
  {
    hide Dot, Pow2;
    if n == 0 {
      DotOne(0);
    } else {
      DotBound(HPow(h, n - 1), h);
    }
  }

  lemma HPowOne(h: nat)
    requires h < Pow2(128)
    ensures HPow(h, 1) == h
  {
    hide *;
    HPowStep(h, 0);
    DotOne(h);
    DotComm(1, h);
  }

  lemma {:induction false} HPowAdd(h: nat, i: nat, j: nat)
    requires h < Pow2(128)
    ensures Dot(HPow(h, i), HPow(h, j)) == HPow(h, i + j)
    decreases j
  {
    hide *;
    HPowBound(h, i);
    if j == 0 {
      HPowStep(h, 0);
      DotOne(HPow(h, i));
    } else {
      HPowBound(h, j - 1);
      HPowAdd(h, i, j - 1);
      HPowStep(h, j - 1);
      HPowStep(h, i + j - 1);
      DotAssoc(HPow(h, i), HPow(h, j - 1), h);
    }
  }

  /** The products summed so far reduce to the hash so far, still to be multiplied by H^m. */
  ghost predicate Deferred(u: Unreduced, h: nat, hash: nat, m: nat) {
    u.Fits() && hash < Pow2(128) && Rem(u.Value()) == Dot(hash, HPow(h, m))
  }

  /** The first product takes the accumulator in. */
  lemma FirstProduct(h: nat, b: nat, m: nat)
    requires h < Pow2(128) && b < Pow2(128)
    ensures Deferred(GfMulWide(b, HPow(h, m + 1)), h, Dot(b, h), m)
  {
    hide GfMulWide, Pow2, Rem, Dot, HPow, Clmul, Unreduced.Fits, Unreduced.Value;
    HPowBound(h, m + 1);
    HPowBound(h, m);
    MulWideValue(b, HPow(h, m + 1));
    DotRem(b, HPow(h, m + 1));
    DotBound(b, h);
    HPowOne(h);
    HPowAdd(h, 1, m);
    DotAssoc(b, h, HPow(h, m));
  }

  /** Each later product adds one block. */
  lemma NextProduct(u: Unreduced, h: nat, hash: nat, b: nat, m: nat)
    requires h < Pow2(128) && b < Pow2(128) && Deferred(u, h, hash, m + 1)
    ensures Deferred(u.Add(GfMulWide(b, HPow(h, m + 1))), h, Dot(Xor(hash, b), h), m)
  {
    hide GfMulWide, Pow2, Rem, Dot, HPow, Clmul, Xor, Unreduced.Fits, Unreduced.Value, Unreduced.Add;
    var v := GfMulWide(b, HPow(h, m + 1));
    HPowBound(h, m + 1);
    MulWideValue(b, HPow(h, m + 1));
    DotRem(b, HPow(h, m + 1));
    AddValue(u, v);
    DotXor(hash, b, HPow(h, m + 1));
    XorBound(hash, b, 128);
    FirstProduct(h, Xor(hash, b), m);
    MulWideValue(Xor(hash, b), HPow(h, m + 1));
    DotRem(Xor(hash, b), HPow(h, m + 1));
  }

  /** With no power left, one reduction gives the hash. */
  lemma LastProduct(u: Unreduced, h: nat, hash: nat)
    requires Deferred(u, h, hash, 0)
    ensures GfReduce(u) == hash
  {
    hide GfReduce, Pow2, Rem, Dot, Unreduced.Fits, Unreduced.Value;
    ReduceIsRem(u);
    HPowStep(h, 0);
    DotOne(hash);
  }

  // ---------------------------------------------------------------------------
  // The accumulator
  // ---------------------------------------------------------------------------

  /** powers[i] is H^(8 - i). */
  ghost predicate ArePowers(powers: seq<nat>, h: nat) {
    && |powers| == 8 && h < Pow2(128)
    && forall i {:trigger powers[i]} :: 0 <= i < 8 ==> powers[i] == HPow(h, 8 - i)
  }

  lemma PowerAt(powers: seq<nat>, h: nat, i: nat)
    requires ArePowers(powers, h) && i < 8
    ensures h < Pow2(128) && |powers| == 8 && powers[i] == HPow(h, 8 - i)
  {
    hide HPow, Pow2;
  }

  /** The tree of powers: three multiplications deep. */
  function Powers(h: nat): seq<nat> {
    var h2 := GfMul(h, h);
    var h3, h4 := GfMul(h2, h), GfMul(h2, h2);
    var h5, h6, h7, h8 := GfMul(h3, h2), GfMul(h3, h3), GfMul(h4, h3), GfMul(h4, h4);
    [h8, h7, h6, h5, h4, h3, h2, h]
  }

  lemma PowerProduct(h: nat, a: nat, i: nat, b: nat, j: nat)
    requires h < Pow2(128) && a == HPow(h, i) && b == HPow(h, j)
    ensures GfMul(a, b) == HPow(h, i + j)
  {
    hide *;
    HPowBound(h, i);
    HPowBound(h, j);
    GfMulIsDot(a, b);
    HPowAdd(h, i, j);
  }

  lemma PowersAre(h: nat)
    requires h < Pow2(128)
    ensures ArePowers(Powers(h), h)
  {
    hide GfMul, HPow, Pow2;
    HPowOne(h);
    var h2 := GfMul(h, h);
    PowerProduct(h, h, 1, h, 1);
    var h3, h4 := GfMul(h2, h), GfMul(h2, h2);
    PowerProduct(h, h2, 2, h, 1);
    PowerProduct(h, h2, 2, h2, 2);
    PowerProduct(h, h3, 3, h2, 2);
    PowerProduct(h, h3, 3, h3, 3);
    PowerProduct(h, h4, 4, h3, 3);
    PowerProduct(h, h4, 4, h4, 4);
  }

  class Accumulator {
    var powers: seq<nat>
    var acc: nat
    ghost const h: nat

    ghost predicate Valid()
      reads this
    {
      ArePowers(powers, h) && acc < Pow2(128)
    }

    constructor (hBlock: Block)
      ensures Valid() && acc == 0 && h == Reflect(hBlock)
    {
      hide *;
      var value := Reflect(hBlock);
      powers := Powers(value);
      acc := 0;
      h := value;
      new;
      PowersAre(value);
      ValidFrom();
    }

    lemma ValidFrom()
      requires ArePowers(powers, h) && acc == 0
      ensures Valid()
    {
      hide ArePowers;
    }

    lemma ValidParts()
      requires Valid()
      ensures ArePowers(powers, h) && acc < Pow2(128) && h < Pow2(128)
    {
      hide HPow, Pow2;
    }

    /** The new accumulator is a hash, so it is in range. */
    lemma StillValid(from: nat, blocks: seq<Block>)
      requires ArePowers(powers, h) && h < Pow2(128) && from < Pow2(128) && acc == HashFrom(h, from, blocks)
      ensures Valid()
    {
      hide HashFrom, ArePowers;
      HashBound(h, from, blocks);
    }

    method AbsorbBlock(block: Block)
      requires Valid()
      modifies this`acc
      ensures Valid() && acc == HashFrom(h, old(acc), [block])
    {
      hide *;
      ValidParts();
      PowerAt(powers, h, 7);
      var value := Reflect(block);
      HPowOne(h);
      XorBound(acc, value, 128);
      GfMulIsDot(Xor(acc, value), h);
      HashStep(h, acc, [], block);
      assert [] + [block] == [block];
      acc := GfMul(Xor(acc, value), powers[7]);
      StillValid(old(acc), [block]);
    }

    /** Four products and one reduction. */
    method AbsorbFourVectors(c0: Block, c1: Block, c2: Block, c3: Block)
      requires Valid()
      modifies this`acc
      ensures Valid() && acc == HashFrom(h, old(acc), [c0, c1, c2, c3])
    {
      hide *;
      ValidParts();
      var b0 := Xor(acc, Reflect(c0));
      var p0 := GfMulWide(b0, PowerOf(4));
      var p1 := GfMulWide(Reflect(c1), PowerOf(5));
      var p2 := GfMulWide(Reflect(c2), PowerOf(6));
      var p3 := GfMulWide(Reflect(c3), PowerOf(7));
      XorBound(acc, Reflect(c0), 128);
      FirstProduct(h, b0, 3);
      ghost var y1 := Dot(b0, h);
      NextProduct(p0, h, y1, Reflect(c1), 2);
      ghost var y2 := Dot(Xor(y1, Reflect(c1)), h);
      NextProduct(p0.Add(p1), h, y2, Reflect(c2), 1);
      ghost var y3 := Dot(Xor(y2, Reflect(c2)), h);
      NextProduct(p0.Add(p1).Add(p2), h, y3, Reflect(c3), 0);
      ghost var y4 := Dot(Xor(y3, Reflect(c3)), h);
      LastProduct(p0.Add(p1).Add(p2).Add(p3), h, y4);
      FourSteps(h, acc, c0, c1, c2, c3, y1, y2, y3, y4);
      acc := GfReduce(p0.Add(p1).Add(p2).Add(p3));
      StillValid(old(acc), [c0, c1, c2, c3]);
    }

    /** Eight products and one reduction. */
    method AbsorbEightVectors(c0: Block, c1: Block, c2: Block, c3: Block, c4: Block, c5: Block, c6: Block, c7: Block)
      requires Valid()
      modifies this`acc
      ensures Valid() && acc == HashFrom(h, old(acc), [c0, c1, c2, c3, c4, c5, c6, c7])
    {
      hide *;
      ValidParts();
      var b0 := Xor(acc, Reflect(c0));
      var p0 := GfMulWide(b0, PowerOf(0));
      var p1 := GfMulWide(Reflect(c1), PowerOf(1));
      var p2 := GfMulWide(Reflect(c2), PowerOf(2));
      var p3 := GfMulWide(Reflect(c3), PowerOf(3));
      var p4 := GfMulWide(Reflect(c4), PowerOf(4));
      var p5 := GfMulWide(Reflect(c5), PowerOf(5));
      var p6 := GfMulWide(Reflect(c6), PowerOf(6));
      var p7 := GfMulWide(Reflect(c7), PowerOf(7));
      XorBound(acc, Reflect(c0), 128);
      FirstProduct(h, b0, 7);
      ghost var y1 := Dot(b0, h);
      NextProduct(p0, h, y1, Reflect(c1), 6);
      var s1 := p0.Add(p1);
      ghost var y2 := Dot(Xor(y1, Reflect(c1)), h);
      NextProduct(s1, h, y2, Reflect(c2), 5);
      var s2 := s1.Add(p2);
      ghost var y3 := Dot(Xor(y2, Reflect(c2)), h);
      NextProduct(s2, h, y3, Reflect(c3), 4);
      var s3 := s2.Add(p3);
      ghost var y4 := Dot(Xor(y3, Reflect(c3)), h);
      NextProduct(s3, h, y4, Reflect(c4), 3);
      var s4 := s3.Add(p4);
      ghost var y5 := Dot(Xor(y4, Reflect(c4)), h);
      NextProduct(s4, h, y5, Reflect(c5), 2);
      var s5 := s4.Add(p5);
      ghost var y6 := Dot(Xor(y5, Reflect(c5)), h);
      NextProduct(s5, h, y6, Reflect(c6), 1);
      var s6 := s5.Add(p6);
      ghost var y7 := Dot(Xor(y6, Reflect(c6)), h);
      NextProduct(s6, h, y7, Reflect(c7), 0);
      var s7 := s6.Add(p7);
      ghost var y8 := Dot(Xor(y7, Reflect(c7)), h);
      LastProduct(s7, h, y8);
      FourSteps(h, acc, c0, c1, c2, c3, y1, y2, y3, y4);
      FourSteps(h, y4, c4, c5, c6, c7, y5, y6, y7, y8);
      HashAppend(h, acc, [c0, c1, c2, c3], [c4, c5, c6, c7]);
      assert [c0, c1, c2, c3] + [c4, c5, c6, c7] == [c0, c1, c2, c3, c4, c5, c6, c7];
      acc := GfReduce(s7);
      StillValid(old(acc), [c0, c1, c2, c3, c4, c5, c6, c7]);
    }

    /** The i-th stored power. */
    function PowerOf(i: nat): (p: nat)
      requires Valid() && i < 8
      reads this
      ensures p == HPow(h, 8 - i)
    {
      hide *;
      ValidParts();
      PowerAt(powers, h, i);
      powers[i]
    }

    /** Absorb a byte string: eight blocks at a time, then four, then one, then a padded rest. */
    method Absorb(data: seq<u8>)
      requires Valid()
      modifies this`acc
      ensures Valid() && acc == HashFrom(h, old(acc), Blocks(data))
    {
      hide *;
      NoBlocks(h, acc, data);
      var offset := 0;
      while offset + 128 <= |data|
        invariant 0 <= offset <= |data| && offset % 16 == 0
        invariant Valid() && acc == HashFrom(h, old(acc), Blocks(data[..offset]))
      {
        EightBlocks(data, offset);
        HashAppend(h, old(acc), Blocks(data[..offset]), Four(data, offset) + Four(data, offset + 64));
        EightIs(data, offset);
        AbsorbEightVectors(Load(data, offset), Load(data, offset + 16), Load(data, offset + 32),
                           Load(data, offset + 48),
                           Load(data, offset + 64), Load(data, offset + 80), Load(data, offset + 96),
                           Load(data, offset + 112));
        offset := offset + 128;
      }
      while offset + 64 <= |data|
        invariant 0 <= offset <= |data| && offset % 16 == 0
        invariant Valid() && acc == HashFrom(h, old(acc), Blocks(data[..offset]))
      {
        FourBlocks(data, offset);
        HashAppend(h, old(acc), Blocks(data[..offset]), Four(data, offset));
        FourIs(data, offset);
        AbsorbFourVectors(Load(data, offset), Load(data, offset + 16), Load(data, offset + 32),
                          Load(data, offset + 48));
        offset := offset + 64;
      }
      while offset + 16 <= |data|
        invariant 0 <= offset <= |data| && offset % 16 == 0
        invariant Valid() && acc == HashFrom(h, old(acc), Blocks(data[..offset]))
      {
        var block := Load(data, offset);
        NextBlock(data, offset, offset + 16);
        HashAppend(h, old(acc), Blocks(data[..offset]), [block]);
        AbsorbBlock(block);
        offset := offset + 16;
      }
      if offset < |data| {
        var block := Pad(data[offset..]);
        NextBlock(data, offset, |data|);
        assert data[offset..|data|] == data[offset..];
        HashAppend(h, old(acc), Blocks(data[..offset]), [block]);
        AbsorbBlock(block);
      }
      assert data[..|data|] == data;
    }

    /** The hash as a block. */
    method Finish() returns (out: Block)
      requires Valid()
      ensures out == Unreflect(acc)
    {
      out := Unreflect(acc);
    }
  }

  lemma FourSteps(h: nat, acc: nat, c0: Block, c1: Block, c2: Block, c3: Block, y1: nat, y2: nat, y3: nat, y4: nat)
    requires y1 == Dot(Xor(acc, Reflect(c0)), h) && y2 == Dot(Xor(y1, Reflect(c1)), h)
    requires y3 == Dot(Xor(y2, Reflect(c2)), h) && y4 == Dot(Xor(y3, Reflect(c3)), h)
    ensures HashFrom(h, acc, [c0, c1, c2, c3]) == y4
  {
    hide *;
    HashStep(h, acc, [], c0);
    HashStep(h, acc, [c0], c1);
    HashStep(h, acc, [c0, c1], c2);
    HashStep(h, acc, [c0, c1, c2], c3);
    assert [] + [c0] == [c0] && [c0] + [c1] == [c0, c1] && [c0, c1] + [c2] == [c0, c1, c2];
    assert [c0, c1, c2] + [c3] == [c0, c1, c2, c3];
  }

  lemma NoBlocks(h: nat, acc: nat, data: seq<u8>)
    ensures HashFrom(h, acc, Blocks(data[..0])) == acc
  {
  }

  lemma FourBlocks(data: seq<u8>, offset: nat)
    requires offset + 64 <= |data| && offset % 16 == 0
    ensures Blocks(data[..offset + 64]) == Blocks(data[..offset]) + Four(data, offset)
  {
    hide Blocks, Pad;
    NextBlock(data, offset, offset + 16);
    NextBlock(data, offset + 16, offset + 32);
    NextBlock(data, offset + 32, offset + 48);
    NextBlock(data, offset + 48, offset + 64);
  }

  lemma EightBlocks(data: seq<u8>, offset: nat)
    requires offset + 128 <= |data| && offset % 16 == 0
    ensures Blocks(data[..offset + 128]) == Blocks(data[..offset]) + (Four(data, offset) + Four(data, offset + 64))
  {
    hide Blocks, Pad, Four;
    FourBlocks(data, offset);
    FourBlocks(data, offset + 64);
  }

  /** Four whole blocks of data. */
  function Four(data: seq<u8>, offset: nat): seq<Block>
    requires offset + 64 <= |data|
  {
    [Load(data, offset), Load(data, offset + 16), Load(data, offset + 32), Load(data, offset + 48)]
  }

  lemma FourIs(data: seq<u8>, offset: nat)
    requires offset + 64 <= |data|
    ensures Four(data, offset)
         == [Load(data, offset), Load(data, offset + 16), Load(data, offset + 32), Load(data, offset + 48)]
  {
  }

  lemma EightIs(data: seq<u8>, offset: nat)
    requires offset + 128 <= |data|
    ensures Four(data, offset) + Four(data, offset + 64)
         == [Load(data, offset), Load(data, offset + 16), Load(data, offset + 32), Load(data, offset + 48),
             Load(data, offset + 64), Load(data, offset + 80), Load(data, offset + 96), Load(data, offset + 112)]
  {
  }

  /** Sixteen bytes of data in a register. */
  function Load(data: seq<u8>, at: nat): (r: Block)
    requires at + 16 <= |data|
    ensures r == data[at..at + 16]
  {
    data[at..at + 16]
  }

  /** The blocks hold the bytes in order, and zeros from the end of the string on. */
  lemma {:induction false} BlocksMeaning(data: seq<u8>, i: nat, k: nat)
    requires k < 16
    ensures |Blocks(data)| == (|data| + 15) / 16
    ensures i < |Blocks(data)| ==> Blocks(data)[i][k] == if 16 * i + k < |data| then data[16 * i + k] else 0
    decreases |data|
  {
    if |data| > 16 {
      BlocksMeaning(data[16..], if i > 0 then i - 1 else 0, k);
    }
  }
}
