/** Wide multiplication and Barrett reduction modulo the Ed25519 group order (scalar/reduce.rs). */
module ScalarReduce {
  // Every method is stated against plain integer arithmetic on `Nat`, the number its limbs
  // stand for.

  import opened Arith
  import opened Words

  /** The group order, 2^252 + 27742317777372353535851937790883648493. */
  const ORDER: int := 0x10000000_00000000_00000000_00000000_14def9de_a2f79cd6_5812631a_5cf5d3ed

  /** The group order of section 5.1 of RFC 8032. */
  lemma OrderIs()
    ensures ORDER == 0x1000_0000_0000_0000 * (B * B * B) + 27742317777372353535851937790883648493
  {
  }

  const L: seq<u64> := [0x5812631a5cf5d3ed, 0x14def9dea2f79cd6, 0x0000000000000000, 0x1000000000000000]

  const MU: seq<u64> := [0xed9ce5a30a2c131b, 0x2106215d086329a7, 0xffffffffffffffeb, 0xffffffffffffffff,
                         0x000000000000000f]

  /** The fifth limb of `L` is zero wherever a loop runs over five limbs. */
  const L5: seq<u64> := L + [0]

  const TWO192: int := 0x1_0000000000000000_0000000000000000_0000000000000000
  const TWO320: int := TWO192 * 0x1_0000000000000000_0000000000000000
  const TWO512: int := TWO320 * TWO192

  lemma Constants()
    ensures Nat(L) == ORDER && Nat(L5) == ORDER
    ensures BPow(3) == TWO192 && BPow(5) == TWO320 && BPow(8) == TWO512
    ensures Nat(MU) == TWO512 / ORDER
  {
    assert BPow(4) == B * TWO192;
    NatAppend(L, [0]);
    var l1, l2, l3 := L[1..], L[2..], L[3..];
    assert l1[1..] == l2 && l2[1..] == l3 && l3[1..] == [];
    var m1, m2, m3, m4 := MU[1..], MU[2..], MU[3..], MU[4..];
    assert m1[1..] == m2 && m2[1..] == m3 && m3[1..] == m4 && m4[1..] == [];
  }

  // ---------------------------------------------------------------------------
  // One row of a schoolbook product
  // ---------------------------------------------------------------------------

  /** `x * y + o + c` fits in 128 bits and its high half fits in 64. */
  lemma RowFits(x: int, y: int, o: int, c: int)
    requires 0 <= x < B && 0 <= y < B && 0 <= o < B && 0 <= c < B
    ensures 0 <= x * y && x * y + o + c < B * B
  {
    MulMono(x, y, B - 1);
  }

  lemma RowAlgebra(n: int, n': int, p: int, lo: int, o: int, c: int, c': int, x: int, y: int,
                   pi: int, pj: int, s: int, s': int, rest: int)
    requires x * y + o + c == lo + c' * B
    requires n' == n + (lo - o) * p
    requires p == pi * pj
    requires s' == s + y * pj
    requires n + c * p == rest + x * s * pi
    ensures n' + c' * (B * p) == rest + x * s' * pi
  {
    calc {
      n' + c' * (B * p);
      n + (lo + c' * B - o) * p;
      n + (x * y + c) * p;
      rest + x * s * pi + (x * y) * (pi * pj);
      { assert x * (y * pj) * pi == (x * y) * (pi * pj); }
      rest + x * s * pi + x * (y * pj) * pi;
      rest + x * s' * pi;
    }
  }

  /** The inner loop of every product here: add `x * b[..m]` into `out` at limb `i`. */
  method MulRow(out: array<u64>, i: nat, x: u64, b: seq<u64>, m: nat) returns (carry: u128)
    requires i + m <= out.Length && m <= |b|
    modifies out
    ensures carry < B as u128
    ensures Nat(out[..]) + carry as int * BPow(i + m) == old(Nat(out[..])) + x as int * Nat(b[..m]) * BPow(i)
    ensures forall k :: 0 <= k < out.Length && !(i <= k < i + m) ==> out[k] == old(out[k])
  {
    carry := 0;
    for j := 0 to m
      invariant carry < B as u128
      invariant Nat(out[..]) + carry as int * BPow(i + j) == old(Nat(out[..])) + x as int * Nat(b[..j]) * BPow(i)
      invariant forall k :: 0 <= k < out.Length && !(i <= k < i + j) ==> out[k] == old(out[k])
    {
      ghost var before := out[..];
      ghost var c, o := carry as int, out[i + j] as int;
      RowFits(x as int, b[j] as int, o, c);
      var t: u128 := x as u128 * b[j] as u128 + out[i + j] as u128 + carry;
      out[i + j] := (t % 0x1_0000_0000_0000_0000) as u64;
      carry := t / 0x1_0000_0000_0000_0000;
      assert out[..] == before[i + j := out[i + j]];
      NatUpdate(before, i + j, out[i + j]);
      NatSnoc(b, j);
      BPowAdd(i, j);
      RowAlgebra(Nat(before), Nat(out[..]), BPow(i + j), out[i + j] as int, o, c, carry as int, x as int, b[j] as int,
                 BPow(i), BPow(j), Nat(b[..j]), Nat(b[..j + 1]), old(Nat(out[..])));
    }
  }

  lemma RowDone(acc: int, pre: int, x: int, nb: int, pi: int, pre': int)
    requires acc == pre * nb
    requires pre' == pre + x * pi
    ensures acc + x * nb * pi == pre' * nb
  {
    assert x * nb * pi == (x * pi) * nb;
  }

  /**
   Schoolbook multiplication: 4 limbs by 4 in `mul_wide`, and 5 by 5 for q1 * mu
   in `barrett_reduce`, where each row's carry is stored with a wrapping addition
   into a limb that is still zero.
   */
  method MulWide(a: seq<u64>, b: seq<u64>) returns (r: seq<u64>)
    ensures |r| == |a| + |b| && Nat(r) == Nat(a) * Nat(b)
  {
    var out := new u64[|a| + |b|](_ => 0);
    NatZeros(out[..]);
    for i := 0 to |a|
      invariant Nat(out[..]) == Nat(a[..i]) * Nat(b)
      invariant forall k :: i + |b| <= k < out.Length ==> out[k] == 0
    {
      var carry := MulRow(out, i, a[i], b, |b|);
      ghost var before := out[..];
      out[i + |b|] := WrappingAdd(out[i + |b|], carry as u64);
      assert out[..] == before[i + |b| := carry as u64];
      NatUpdate(before, i + |b|, carry as u64);
      NatSnoc(a, i);
      assert b[..|b|] == b;
      RowDone(Nat(a[..i]) * Nat(b), Nat(a[..i]), a[i] as int, Nat(b), BPow(i), Nat(a[..i + 1]));
    }
    assert a[..|a|] == a;
    r := out[..];
  }

  // ---------------------------------------------------------------------------
  // (q3 * L) mod 2^320
  // ---------------------------------------------------------------------------

  lemma TruncatedRow(acc: int, dropped: int, pre: int, x: int, l: int, lo: int, hi: int, pi: int, pk: int, top: int,
                     carry: int, acc': int, pre': int)
    requires acc + dropped * top == pre * l
    requires acc' + carry * top == acc + x * lo * pi
    requires l == lo + pk * hi
    requires pk * pi == top
    requires pre' == pre + x * pi
    ensures acc' + (dropped + carry + x * hi) * top == pre' * l
  {
    calc {
      pre' * l;
      pre * l + (x * pi) * (lo + pk * hi);
      { assert (x * pi) * (lo + pk * hi) == x * lo * pi + (x * hi) * (pk * pi); }
      pre * l + x * lo * pi + (x * hi) * top;
    }
  }

  /** The low five limbs of q3 * l: each row drops what lies at or above 2^320. */
  method LowProduct(q3: seq<u64>, l: seq<u64>) returns (r2: seq<u64>)
    requires |q3| == 5 && |l| == 5
    ensures |r2| == 5 && Nat(r2) == (Nat(q3) * Nat(l)) % BPow(5)
  {
    var out := new u64[5](_ => 0);
    NatZeros(out[..]);
    ghost var dropped := 0;
    for i := 0 to 5
      invariant Nat(out[..]) + dropped * BPow(5) == Nat(q3[..i]) * Nat(l)
    {
      ghost var acc := Nat(out[..]);
      var carry := MulRow(out, i, q3[i], l, 5 - i);
      NatSplit(l, 5 - i);
      NatSnoc(q3, i);
      BPowAdd(5 - i, i);
      TruncatedRow(acc, dropped, Nat(q3[..i]), q3[i] as int, Nat(l), Nat(l[..5 - i]), Nat(l[5 - i..]), BPow(i),
                   BPow(5 - i),
                   BPow(5), carry as int, Nat(out[..]), Nat(q3[..i + 1]));
      dropped := dropped + carry as int + q3[i] as int * Nat(l[5 - i..]);
    }
    assert q3[..5] == q3;
    r2 := out[..];
    NatBound(r2);
    ModUnique(Nat(q3) * Nat(l), BPow(5), dropped, Nat(r2));
  }

  // ---------------------------------------------------------------------------
  // Borrow and carry chains
  // ---------------------------------------------------------------------------

  lemma BorrowStep(n: int, a: int, b: int, c: int, d: int, e: int, f: int, c': int, p: int)
    requires n == a - b + c * p
    requires d == e - f - c + c' * B
    ensures n + d * p == (a + e * p) - (b + f * p) + c' * (B * p)
  {
    assert d * p == e * p - f * p - c * p + c' * (B * p);
  }

  /** One limb of a subtraction: two `overflowing_sub`s, at most one of which borrows. */
  function SubLimb(a: u64, b: u64, borrow: u64): (r: (u64, u64))
    requires borrow <= 1
    ensures r.0 as int == a as int - b as int - borrow as int + B * r.1 as int && r.1 <= 1
  {
    var (d, b1) := OverflowingSub(a, b);
    var (d', b2) := OverflowingSub(d, borrow);
    (d', if b1 == 1 || b2 == 1 then 1 else 0)
  }

  /** a - b modulo B^n with the borrow out. */
  method SubBorrow(a: seq<u64>, b: seq<u64>) returns (r: seq<u64>, borrow: u64)
    requires |a| == |b|
    ensures |r| == |a| && borrow <= 1
    ensures Nat(r) == Nat(a) - Nat(b) + borrow as int * BPow(|a|)
    ensures borrow == 1 <==> Nat(a) < Nat(b)
  {
    var out := new u64[|a|];
    borrow := 0;
    for i := 0 to |a|
      invariant borrow <= 1
      invariant Nat(out[..i]) == Nat(a[..i]) - Nat(b[..i]) + borrow as int * BPow(i)
    {
      ghost var c, before := borrow, Nat(out[..i]);
      ghost var old_i := out[..i];
      var limb := SubLimb(a[i], b[i], borrow);
      out[i], borrow := limb.0, limb.1;
      assert out[..i] == old_i;
      NatSnoc(a, i);
      NatSnoc(b, i);
      NatSnoc(out[..], i);
      assert out[..][..i] == out[..i] && out[..][..i + 1] == out[..i + 1];
      BorrowStep(before, Nat(a[..i]), Nat(b[..i]), c as int, out[i] as int, a[i] as int, b[i] as int, borrow as int,
                 BPow(i));
    }
    assert a[..|a|] == a && b[..|b|] == b && out[..|a|] == out[..];
    r := out[..];
    NatBound(r);
    NatBound(a);
    NatBound(b);
  }

  /** Subtract `L` from a five-limb value; the flag reports a borrow. */
  method SubL5(value: seq<u64>) returns (r: seq<u64>, borrow: u64)
    requires |value| == 5
    ensures |r| == 5 && borrow <= 1
    ensures Nat(r) == Nat(value) - ORDER + borrow as int * TWO320
    ensures borrow == 1 <==> Nat(value) < ORDER
  {
    Constants();
    r, borrow := SubBorrow(value, L5);
  }

  // ---------------------------------------------------------------------------
  // Barrett
  // ---------------------------------------------------------------------------

  /** The quotient estimate is never high and at most two low. */
  lemma QuotientEstimate(x: int, q1: int, q3: int)
    requires 0 <= x < TWO512
    requires q1 == x / TWO192
    requires q3 == (q1 * (TWO512 / ORDER)) / TWO320
    ensures 0 <= x - q3 * ORDER < 3 * ORDER
    ensures x / ORDER - 2 <= q3 <= x / ORDER
  {
  }

  /** The difference of the low 320 bits is the whole difference x - q3 * L. */
  lemma ReductionWindow(x: int, lo: int, q1: int, q2: int, q3: int, r2: int, r: int, borrow: int)
    requires 0 <= x < TWO512 && 0 <= lo < TWO320 && 0 <= r < TWO320
    requires lo == x % TWO320 && q1 == x / TWO192
    requires q2 == q1 * (TWO512 / ORDER) && q3 == q2 / TWO320
    requires r2 == (q3 * ORDER) % TWO320
    requires r == lo - r2 + borrow * TWO320
    ensures r == x - q3 * ORDER && 0 <= r < 3 * ORDER
  {
    QuotientEstimate(x, q1, q3);
    SameResidue(r, x - q3 * ORDER, TWO320, borrow - x / TWO320 + (q3 * ORDER) / TWO320);
  }

  /** Reading a limb range is a shift and a remainder. */
  lemma NatSlice(s: seq<u64>, k: nat)
    requires k <= |s|
    ensures Nat(s) / BPow(k) == Nat(s[k..]) && Nat(s) % BPow(k) == Nat(s[..k])
  {
    NatSplit(s, k);
    NatBound(s[..k]);
    DivModOf(Nat(s), BPow(k), Nat(s[k..]), Nat(s[..k]));
  }

  /** Barrett reduction of a 512-bit integer modulo `L`. */
  method BarrettReduce(x: seq<u64>) returns (r: seq<u64>)
    requires |x| == 8
    ensures |r| == 4 && Nat(r) == Nat(x) % ORDER
  {
    hide Nat, BPow;
    var q1 := x[3..];
    var q2 := MulWide(q1, MU);
    var q3 := q2[5..];
    var r2 := LowProduct(q3, L5);
    var result, borrow := SubBorrow(x[..5], r2);
    BarrettWindow(x, q2, r2, result, borrow as int);
    result := SubtractTwice(result, Nat(x), Nat(q3));
    r := result[..4];
  }

  /** The two masked conditional subtractions: anything below 3L comes out reduced. */
  method SubtractTwice(start: seq<u64>, ghost n: int, ghost q3: int) returns (result: seq<u64>)
    requires |start| == 5 && Nat(start) == n - q3 * ORDER && Nat(start) < 3 * ORDER
    ensures |result| == 5 && Nat(result[..4]) == n % ORDER
  {
    hide Nat, BPow;
    result := start;
    ghost var q := q3;
    for round := 0 to 2
      invariant |result| == 5
      invariant Nat(result) == n - q * ORDER
      invariant Nat(result) < (3 - round) * ORDER
    {
      var candidate, underflowed := SubL5(result);
      result := if underflowed == 1 then result else candidate;
      q := if underflowed == 1 then q else q + 1;
    }
    FourLimbs(result);
    ModUnique(n, ORDER, q, Nat(result));
  }

  /** A reduced five-limb number keeps its value in four limbs. */
  lemma FourLimbs(s: seq<u64>)
    requires |s| == 5 && Nat(s) < ORDER
    ensures Nat(s[..4]) == Nat(s)
  {
    NatSnoc(s, 4);
    assert s[..5] == s;
    assert BPow(4) > ORDER;
    assert s[4] == 0;
  }

  lemma BarrettWindow(x: seq<u64>, q2: seq<u64>, r2: seq<u64>, result: seq<u64>, borrow: int)
    requires |x| == 8 && |q2| == 10 && |r2| == 5 && |result| == 5
    requires Nat(q2) == Nat(x[3..]) * Nat(MU)
    requires Nat(r2) == (Nat(q2[5..]) * Nat(L5)) % BPow(5)
    requires Nat(result) == Nat(x[..5]) - Nat(r2) + borrow * BPow(5)
    ensures Nat(result) == Nat(x) - Nat(q2[5..]) * ORDER && Nat(result) < 3 * ORDER
  {
    Constants();
    NatBound(x);
    NatBound(result);
    NatBound(x[..5]);
    NatSlice(x, 3);
    NatSlice(x, 5);
    NatSlice(q2, 5);
    ReductionWindow(Nat(x), Nat(x[..5]), Nat(x[3..]), Nat(q2), Nat(q2[5..]), Nat(r2), Nat(result), borrow);
  }

  // ---------------------------------------------------------------------------
  // Addition and comparison
  // ---------------------------------------------------------------------------

  /** One limb of an addition: two `overflowing_add`s, at most one of which carries. */
  function AddLimb(a: u64, b: u64, carry: u64): (r: (u64, u64))
    requires carry <= 1
    ensures r.0 as int + B * r.1 as int == a as int + b as int + carry as int && r.1 <= 1
  {
    var (s, c1) := OverflowingAdd(a, b);
    var (s', c2) := OverflowingAdd(s, carry);
    (s', if c1 == 1 || c2 == 1 then 1 else 0)
  }

  lemma CarryStep(n: int, a: int, b: int, c: int, d: int, e: int, f: int, c': int, p: int)
    requires n + c * p == a + b
    requires d + c' * B == e + f + c
    ensures n + d * p + c' * (B * p) == (a + e * p) + (b + f * p)
  {
    assert d * p + c' * (B * p) == e * p + f * p + c * p by {
      assert (d + c' * B) * p == d * p + c' * (B * p);
    }
  }

  /** The carry chain of `add_mod_l`: the exact sum in five limbs. */
  method AddCarry(a: seq<u64>, b: seq<u64>) returns (r: seq<u64>)
    requires |a| == 4 && |b| == 4
    ensures |r| == 5 && Nat(r) == Nat(a) + Nat(b)
  {
    var sum := new u64[5](_ => 0);
    var carry: u64 := 0;
    for i := 0 to 4
      invariant carry <= 1
      invariant Nat(sum[..i]) + carry as int * BPow(i) == Nat(a[..i]) + Nat(b[..i])
    {
      ghost var c, before := carry, sum[..i];
      var limb := AddLimb(a[i], b[i], carry);
      sum[i], carry := limb.0, limb.1;
      assert sum[..i] == before;
      NatSnoc(a, i);
      NatSnoc(b, i);
      NatSnoc(sum[..], i);
      assert sum[..][..i] == sum[..i] && sum[..][..i + 1] == sum[..i + 1];
      CarryStep(Nat(before), Nat(a[..i]), Nat(b[..i]), c as int, sum[i] as int, a[i] as int, b[i] as int, carry as int,
                BPow(i));
    }
    ghost var low := sum[..4];
    sum[4] := carry;
    assert sum[..4] == low && a[..4] == a && b[..4] == b;
    r := sum[..];
    NatSnoc(r, 4);
    assert r[..4] == low && r[..5] == r;
  }

  /** Addition modulo `L` of two already reduced values. */
  method AddModL(a: seq<u64>, b: seq<u64>) returns (r: seq<u64>)
    requires |a| == 4 && |b| == 4
    requires Nat(a) < ORDER && Nat(b) < ORDER
    ensures |r| == 4 && Nat(r) == (Nat(a) + Nat(b)) % ORDER
  {
    var sum := AddCarry(a, b);
    var reduced, borrow := SubL5(sum);
    var chosen := if borrow == 1 then sum else reduced;
    FourLimbs(chosen);
    SameRemainder(Nat(a) + Nat(b), Nat(chosen), if borrow == 1 then 0 else 1, ORDER);
    r := chosen[..4];
  }

  /** Constant-time `a < b` for four-limb values. */
  method IsLessThan(a: seq<u64>, b: seq<u64>) returns (less: bool)
    requires |a| == 4 && |b| == 4
    ensures less <==> Nat(a) < Nat(b)
  {
    var r, borrow := SubBorrow(a, b);
    less := borrow == 1;
  }
}
