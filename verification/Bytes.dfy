/** Byte strings as little-endian and big-endian integers, and powers of two. */
module Bytes {
  import opened Arith

  type u8 = x: int | 0 <= x < 0x100

  function Pow2(k: nat): (r: int)
    ensures r >= 1
  {
    if k == 0 then 1 else 2 * Pow2(k - 1)
  }

  lemma {:induction false} Pow2Add(i: nat, j: nat)
    ensures Pow2(i + j) == Pow2(i) * Pow2(j)
  {
    if i > 0 {
      Pow2Add(i - 1, j);
      MulAssoc(2, Pow2(i - 1), Pow2(j));
    }
  }

  lemma {:induction false} Pow2Monotone(i: nat, j: nat)
    requires i <= j
    ensures Pow2(i) <= Pow2(j)
  {
    Pow2Add(i, j - i);
    MulMono(Pow2(i), 1, Pow2(j - i));
  }

  /** 256^k. */
  function BytePow(k: nat): (r: int)
    ensures r >= 1
  {
    if k == 0 then 1 else 0x100 * BytePow(k - 1)
  }

  /** Eight bytes fill a word. */
  lemma BytePow8()
    ensures BytePow(8) == 0x1_0000_0000_0000_0000
  {
    assert BytePow(4) == 0x1_0000_0000;
  }

  lemma {:induction false} BytePowAdd(i: nat, j: nat)
    ensures BytePow(i + j) == BytePow(i) * BytePow(j)
  {
    if i > 0 {
      BytePowAdd(i - 1, j);
      MulAssoc(0x100, BytePow(i - 1), BytePow(j));
    }
  }

  /** `a[at..at + src.len()].copy_from_slice(src)`. */
  method CopyInto<T>(a: array<T>, at: nat, src: seq<T>)
    requires at + |src| <= a.Length
    modifies a
    ensures a[..] == old(a[..at]) + src + old(a[at + |src|..])
  {
    forall k | 0 <= k < |src| {
      a[at + k] := src[k];
    }
    assert a[at..at + |src|] == src;
  }

  /** `from_le_bytes`. */
  function LeVal(s: seq<u8>): (r: int)
    ensures r >= 0
  {
    if s == [] then 0 else s[0] + 0x100 * LeVal(s[1..])
  }

  /** `to_le_bytes` of the low k bytes. */
  function LeBytes(n: int, k: nat): (r: seq<u8>)
    requires n >= 0
    ensures |r| == k
  {
    if k == 0 then [] else [n % 0x100] + LeBytes(n / 0x100, k - 1)
  }

  lemma {:induction false} LeAppend(s: seq<u8>, t: seq<u8>)
    ensures LeVal(s + t) == LeVal(s) + BytePow(|s|) * LeVal(t)
  {
    if s == [] {
      assert s + t == t;
    } else {
      assert (s + t)[1..] == s[1..] + t;
      LeAppend(s[1..], t);
      MulAssoc(0x100, BytePow(|s| - 1), LeVal(t));
    }
  }

  lemma {:induction false} LeBound(s: seq<u8>)
    ensures LeVal(s) < BytePow(|s|)
  {
    if s != [] {
      LeBound(s[1..]);
    }
  }

  /** Printing what was read gives the bytes back. */
  lemma {:induction false} LeBytesOfVal(s: seq<u8>)
    ensures LeBytes(LeVal(s), |s|) == s
  {
    if s != [] {
      LeBytesOfVal(s[1..]);
      assert s == [s[0]] + s[1..];
    }
  }

  /** Reading what was printed gives the number back, when it fits. */
  lemma {:induction false} LeValOfBytes(n: int, k: nat)
    requires 0 <= n < BytePow(k)
    ensures LeVal(LeBytes(n, k)) == n
  {
    if k > 0 {
      LeValOfBytes(n / 0x100, k - 1);
      assert LeBytes(n, k)[1..] == LeBytes(n / 0x100, k - 1);
    }
  }

  lemma LeInjective(s: seq<u8>, t: seq<u8>)
    requires |s| == |t| && LeVal(s) == LeVal(t)
    ensures s == t
  {
    LeBytesOfVal(s);
    LeBytesOfVal(t);
  }

  /** `from_be_bytes`. */
  function BeVal(s: seq<u8>): (r: int)
    ensures r >= 0
  {
    if s == [] then 0 else 0x100 * BeVal(s[..|s| - 1]) + s[|s| - 1]
  }

  /** `to_be_bytes` of the low k bytes. */
  function BeBytes(n: int, k: nat): (r: seq<u8>)
    requires n >= 0
    ensures |r| == k
  {
    if k == 0 then [] else BeBytes(n / 0x100, k - 1) + [n % 0x100]
  }

  lemma {:induction false} BeBound(s: seq<u8>)
    ensures BeVal(s) < BytePow(|s|)
  {
    if s != [] {
      BeBound(s[..|s| - 1]);
    }
  }

  lemma {:induction false} BeBytesOfVal(s: seq<u8>)
    ensures BeBytes(BeVal(s), |s|) == s
  {
    if s != [] {
      BeBytesOfVal(s[..|s| - 1]);
      assert s == s[..|s| - 1] + [s[|s| - 1]];
    }
  }

  lemma {:induction false} BeValOfBytes(n: int, k: nat)
    requires 0 <= n < BytePow(k)
    ensures BeVal(BeBytes(n, k)) == n
  {
    if k > 0 {
      BeValOfBytes(n / 0x100, k - 1);
      assert BeBytes(n, k)[..k - 1] == BeBytes(n / 0x100, k - 1);
    }
  }

  /** Bit i of a byte string, least significant first within each byte. */
  function Bit(bytes: seq<u8>, i: nat): bool
    requires i / 8 < |bytes|
  {
    (bytes[i / 8] / Pow2(i % 8)) % 2 == 1
  }

  lemma {:induction false} BytePowIsPow2(k: nat)
    ensures BytePow(k) == Pow2(8 * k)
  {
    if k > 0 {
      BytePowIsPow2(k - 1);
      Pow2Add(8, 8 * (k - 1));
      EightBits();
    }
  }

  lemma EightBits()
    ensures Pow2(8) == 0x100
  {
  }

  /** The moduli of 32-bit and 64-bit words. */
  lemma WordSizes()
    ensures Pow2(32) == 0x1_0000_0000 && Pow2(64) == 0x1_0000_0000_0000_0000
  {
    hide Pow2;
    EightBits();
    Pow2Add(8, 8);
    Pow2Add(16, 16);
    Pow2Add(32, 32);
  }

  lemma BitValue(bytes: seq<u8>, i: nat)
    requires i / 8 < |bytes|
    ensures Bit(bytes, i) <==> (LeVal(bytes) / Pow2(i)) % 2 == 1
  {
    hide *;
    var j, b := i / 8, i % 8;
    BitIs(bytes, i);
    TailValue(bytes, j);
    BytePowIsPow2(j);
    Pow2Add(8 * j, b);
    DivDiv(LeVal(bytes), BytePow(j), Pow2(b));
    LowBit(bytes[j], LeVal(bytes[j + 1..]), b);
  }

  lemma BitIs(bytes: seq<u8>, i: nat)
    requires i / 8 < |bytes|
    ensures Bit(bytes, i) <==> (bytes[i / 8] / Pow2(i % 8)) % 2 == 1
  {
  }

  /** Dropping j bytes is dividing by 256^j. */
  lemma TailValue(bytes: seq<u8>, j: nat)
    requires j < |bytes|
    ensures LeVal(bytes) / BytePow(j) == bytes[j] + 0x100 * LeVal(bytes[j + 1..])
  {
    hide BytePow;
    assert bytes == bytes[..j] + bytes[j..] && bytes[j..][1..] == bytes[j + 1..];
    LeAppend(bytes[..j], bytes[j..]);
    LeBound(bytes[..j]);
    DivModOf(LeVal(bytes), BytePow(j), LeVal(bytes[j..]), LeVal(bytes[..j]));
  }

  lemma OneByteValue(b: u8)
    ensures LeVal([b]) == b && BytePow(1) == 0x100
  {
  }

  lemma LowBit(byte: int, rest: int, b: nat)
    requires 0 <= b < 8 && byte >= 0 && rest >= 0
    ensures ((byte + 0x100 * rest) / Pow2(b)) % 2 == (byte / Pow2(b)) % 2
  {
    EightBits();
    Pow2Add(b, 8 - b);
    assert Pow2(8 - b) == 2 * Pow2(7 - b);
    LowBitOf(byte, rest, Pow2(b), Pow2(7 - b));
  }

  lemma LowBitOf(byte: int, rest: int, p: int, h: int)
    requires p > 0 && p * (2 * h) == 0x100
    ensures ((byte + 0x100 * rest) / p) % 2 == (byte / p) % 2
  {
    var k := h * rest;
    assert 0x100 * rest == p * (2 * k) by {
      MulAssoc(p, 2 * h, rest);
    }
    DivModOf(byte + 0x100 * rest, p, byte / p + 2 * k, byte % p);
    SameRemainder(byte / p + 2 * k, byte / p, k, 2);
  }

  /** Byte i of a little-endian number is its digit i in base 256. */
  lemma {:induction false} LeByteAt(n: int, k: nat, i: nat)
    requires n >= 0 && i < k
    ensures LeBytes(n, k)[i] == n / BytePow(i) % 0x100
    decreases k
  {
    if i > 0 {
      LeByteAt(n / 0x100, k - 1, i - 1);
      DivDiv(n, 0x100, BytePow(i - 1));
    }
  }

  /** Byte i of a big-endian number of k bytes is its digit k - 1 - i. */
  lemma {:induction false} BeByteAt(n: int, k: nat, i: nat)
    requires n >= 0 && i < k
    ensures BeBytes(n, k)[i] == n / BytePow(k - 1 - i) % 0x100
    decreases k
  {
    if i < k - 1 {
      BeByteAt(n / 0x100, k - 1, i);
      DivDiv(n, 0x100, BytePow(k - 2 - i));
    }
  }
}
