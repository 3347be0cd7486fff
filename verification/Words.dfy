/** Machine words and the little-endian base-2^64 numbers the limb code works on. */
module Words {
  // `u64` and `u128` are newtypes, so the verifier checks that no intermediate result of the
  // limb code leaves the range of the word that holds it.

  import opened Arith

  const B: int := 0x1_0000_0000_0000_0000

  newtype u32 = x: int | 0 <= x < 0x1_0000_0000
  newtype u64 = x: int | 0 <= x < 0x1_0000_0000_0000_0000
  newtype u128 = x: int | 0 <= x < 0x1_0000_0000_0000_0000_0000_0000_0000_0000

  /** `wrapping_add` on 32-bit words. */
  function WrappingAdd32(a: u32, b: u32): u32 {
    ((a as int + b as int) % 0x1_0000_0000) as u32
  }

  /** `wrapping_add` on 64-bit words. */
  function WrappingAdd(a: u64, b: u64): u64 {
    ((a as int + b as int) % B) as u64
  }

  /** `wrapping_mul` on 64-bit words. */
  function WrappingMul(a: u64, b: u64): u64 {
    ((a as int * b as int) % B) as u64
  }

  /** `overflowing_add`: the wrapped sum and the carry bit. */
  function OverflowingAdd(a: u64, b: u64): (r: (u64, u64))
    ensures r.0 as int + B * r.1 as int == a as int + b as int
    ensures r.1 <= 1
  {
    var s := a as int + b as int;
    if s < B then (s as u64, 0) else ((s - B) as u64, 1)
  }

  /** `overflowing_sub`: the wrapped difference and the borrow bit. */
  function OverflowingSub(a: u64, b: u64): (r: (u64, u64))
    ensures r.0 as int == a as int - b as int + B * r.1 as int
    ensures r.1 <= 1
  {
    var d := a as int - b as int;
    if d >= 0 then (d as u64, 0) else ((d + B) as u64, 1)
  }

  /** B^k. */
  function BPow(k: nat): (r: int)
    ensures r >= 1
  {
    if k == 0 then 1 else B * BPow(k - 1)
  }

  lemma {:induction false} BPowAdd(i: nat, j: nat)
    ensures BPow(i + j) == BPow(i) * BPow(j)
  {
    if i > 0 {
      BPowAdd(i - 1, j);
      MulAssoc(B, BPow(i - 1), BPow(j));
    }
  }

  /** The integer a little-endian limb sequence stands for. */
  function Nat(s: seq<u64>): (r: int)
    ensures r >= 0
  {
    if s == [] then 0 else s[0] as int + B * Nat(s[1..])
  }

  lemma {:induction false} NatUpdate(s: seq<u64>, k: nat, v: u64)
    requires k < |s|
    ensures Nat(s[k := v]) == Nat(s) + (v as int - s[k] as int) * BPow(k)
  {
    if k == 0 {
      assert s[k := v][1..] == s[1..];
    } else {
      assert s[k := v][1..] == s[1..][k - 1 := v];
      NatUpdate(s[1..], k - 1, v);
      MulSwap(B, v as int - s[k] as int, BPow(k - 1));
    }
  }

  lemma {:induction false} NatAppend(s: seq<u64>, t: seq<u64>)
    ensures Nat(s + t) == Nat(s) + BPow(|s|) * Nat(t)
  {
    if s == [] {
      assert s + t == t;
    } else {
      assert (s + t)[1..] == s[1..] + t;
      NatAppend(s[1..], t);
      MulAssoc(B, BPow(|s| - 1), Nat(t));
    }
  }

  lemma NatSplit(s: seq<u64>, k: nat)
    requires k <= |s|
    ensures Nat(s) == Nat(s[..k]) + BPow(k) * Nat(s[k..])
  {
    assert s[..k] + s[k..] == s;
    NatAppend(s[..k], s[k..]);
  }

  lemma NatSnoc(s: seq<u64>, k: nat)
    requires k < |s|
    ensures Nat(s[..k + 1]) == Nat(s[..k]) + s[k] as int * BPow(k)
  {
    assert s[..k + 1] == s[..k] + [s[k]];
    NatAppend(s[..k], [s[k]]);
    assert Nat([s[k]]) == s[k] as int;
  }

  lemma {:induction false} NatBound(s: seq<u64>)
    ensures Nat(s) < BPow(|s|)
  {
    if s != [] {
      NatBound(s[1..]);
      assert B * Nat(s[1..]) <= B * (BPow(|s| - 1) - 1);
    }
  }

  lemma {:induction false} NatZeros(s: seq<u64>)
    requires forall k :: 0 <= k < |s| ==> s[k] == 0
    ensures Nat(s) == 0
  {
    if s != [] {
      NatZeros(s[1..]);
    }
  }
}
