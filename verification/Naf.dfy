/** The width-w non-adjacent form of a scalar (scalar/mod.rs, `non_adjacent_form`). */
module Naf {
  import opened Arith
  import opened Words
  import opened Bytes
  import opened ScalarReduce
  import opened Scalar

  /** Nonzero digits are odd, below half the radix, and at least w positions apart. */
  ghost predicate IsNaf(d: seq<int>, w: nat)
    requires w >= 1
  {
    && (forall k {:trigger d[k]} :: 0 <= k < |d| && d[k] != 0 ==> d[k] % 2 == 1 && -Pow2(w - 1) < d[k] < Pow2(w - 1))
    && (forall j, k {:trigger d[j], d[k]} :: 0 <= j < k < |d| && d[j] != 0 && d[k] != 0 ==> k - j >= w)
  }

  // ---------------------------------------------------------------------------
  // Reading a window across a limb boundary
  // ---------------------------------------------------------------------------

  /** `hi | lo` for words that share no set bit: hi is a multiple of 2^k, lo is below it. */
  function DisjointOr(hi: u64, lo: u64, k: nat): u64
    requires k <= 64 && (lo as int) < Pow2(k) && hi as int % Pow2(k) == 0
  {
    OrFits(hi as int, lo as int, k);
    hi + lo
  }

  lemma Pow2Limb()
    ensures Pow2(64) == B
  {
    WordSizes();
  }

  lemma OrFits(hi: int, lo: int, k: nat)
    requires k <= 64 && 0 <= lo < Pow2(k) && 0 <= hi < B && hi % Pow2(k) == 0
    ensures hi + lo < B
  {
    Pow2Limb();
    Pow2Add(k, 64 - k);
    MultipleBelow(hi, Pow2(k), Pow2(64 - k));
  }

  /** The largest multiple of p below p * q is p * (q - 1). */
  lemma MultipleBelow(n: int, p: int, q: int)
    requires 0 <= n < p * q && p > 0 && n % p == 0
    ensures n + p <= p * q
  {
    DivSmall(n, p, q);
    MulMono(p, n / p + 1, q);
  }

  /** `x << n` drops the bits that leave the word. */
  function Shl(x: u64, n: nat): (r: u64)
    requires n < 64
    ensures r as int % Pow2(n) == 0
  {
    Pow2Limb();
    Pow2Add(n, 64 - n);
    ShlMultiple(x as int, Pow2(n), Pow2(64 - n));
    ((x as int * Pow2(n)) % B) as u64
  }

  lemma ShlMultiple(x: int, p: int, r: int)
    requires p > 0 && r > 0 && p * r == B && x >= 0
    ensures ((x * p) % B) % p == 0
  {
    var q := (x * p) / B;
    assert (x * p) % B == x * p - q * (p * r);
    assert x * p - q * (p * r) == (x - q * r) * p;
    ModUnique((x * p) % B, p, x - q * r, 0);
  }

  function Shr(x: u64, n: nat): (r: u64)
    ensures r as int == x as int / Pow2(n)
  {
    DivBound(x as int, Pow2(n));
    (x as int / Pow2(n)) as u64
  }

  /** The bits of `x` from position `pos`: one limb when the window fits, two when it crosses. */
  function WindowBits(x: seq<u64>, pos: nat, width: nat): u64
    requires |x| == 5 && pos < 256 && 2 <= width <= 8
  {
    var limb, bit := pos / 64, pos % 64;
    if bit < 64 - width then
      Shr(x[limb], bit)
    else
      Pow2Limb();
      Pow2Add(bit, 64 - bit);
      DivSmall(x[limb] as int, Pow2(bit), Pow2(64 - bit));
      DisjointOr(Shl(x[limb + 1], 64 - bit), Shr(x[limb], bit), 64 - bit)
  }

  /** Split at a bit position inside a limb. */
  lemma WindowSplit(n: int, lo: int, hi: int, p: int, q: int)
    requires n == lo + B * hi && 0 <= lo && hi >= 0 && p > 0 && p * q == B
    ensures n / p == lo / p + q * hi
  {
    assert n == (lo % p) + p * (lo / p + q * hi) by {
      assert lo == p * (lo / p) + lo % p;
      assert (p * q) * hi == p * (q * hi);
    }
    ModUnique(n, p, lo / p + q * hi, lo % p);
  }

  lemma SameWindow(a: int, b: int, j: int, q: int, r: int, m: int)
    requires r > 0 && q == r * m && a == b + q * j
    ensures a % r == b % r
  {
    assert q * j == (m * j) * r;
    SameRemainder(a, b, m * j, r);
  }

  /** Bits [pos, pos + width) of n. */
  function Residue(n: int, pos: nat, width: nat): int
    requires n >= 0
  {
    (n / Pow2(pos)) % Pow2(width)
  }

  /** The masked window is the residue, whether or not it crosses a limb. */
  lemma WindowValue(x: seq<u64>, pos: nat, width: nat)
    requires |x| == 5 && pos < 256 && 2 <= width <= 8
    ensures WindowBits(x, pos, width) as int % Pow2(width) == Residue(Nat(x), pos, width)
  {
    var limb, bit := pos / 64, pos % 64;
    LimbSplit(x, limb, bit);
    if bit < 64 - width {
      InnerWindow(x[limb] as int / Pow2(bit), Nat(x[limb + 1..]), 64 - bit, width);
      hide Nat, Pow2;
    } else {
      CrossingWindow(x, limb, bit, width);
    }
  }

  function Window(x: seq<u64>, pos: nat, width: nat): (r: int)
    requires |x| == 5 && pos < 256 && 2 <= width <= 8
    ensures r == Residue(Nat(x), pos, width) && 0 <= r < Pow2(width)
  {
    WindowValue(x, pos, width);
    WindowBits(x, pos, width) as int % Pow2(width)
  }

  lemma InnerWindow(lo: int, hi: int, room: nat, width: nat)
    requires width < room
    ensures (lo + Pow2(room) * hi) % Pow2(width) == lo % Pow2(width)
  {
    Pow2Add(width, room - width);
    SameWindow(lo + Pow2(room) * hi, lo, hi, Pow2(room), Pow2(width), Pow2(room - width));
  }

  lemma LimbSplit(x: seq<u64>, limb: nat, bit: nat)
    requires limb < |x| && bit < 64
    ensures Nat(x) / Pow2(64 * limb + bit) == x[limb] as int / Pow2(bit) + Pow2(64 - bit) * Nat(x[limb + 1..])
  {
    Pow2Limb();
    Pow2Add(bit, 64 - bit);
    LimbShift(x, limb, bit);
    assert x[limb..][1..] == x[limb + 1..];
    WindowSplit(Nat(x[limb..]), x[limb] as int, Nat(x[limb + 1..]), Pow2(bit), Pow2(64 - bit));
  }

  lemma {:induction false} BPowIsPow2(k: nat)
    ensures BPow(k) == Pow2(64 * k)
  {
    if k > 0 {
      BPowIsPow2(k - 1);
      Pow2Limb();
      Pow2Add(64, 64 * (k - 1));
    }
  }

  lemma LimbShift(x: seq<u64>, limb: nat, bit: nat)
    requires limb <= |x|
    ensures Nat(x) / Pow2(64 * limb + bit) == Nat(x[limb..]) / Pow2(bit)
  {
    BPowIsPow2(limb);
    Pow2Add(64 * limb, bit);
    DivDiv(Nat(x), BPow(limb), Pow2(bit));
    NatSlice(x, limb);
  }

  lemma CrossingWindow(x: seq<u64>, limb: nat, bit: nat, width: nat)
    requires |x| == 5 && limb < 4 && 2 <= width <= 8 && 64 - width <= bit < 64
    ensures WindowBits(x, 64 * limb + bit, width) as int % Pow2(width)
         == (x[limb] as int / Pow2(bit) + Pow2(64 - bit) * Nat(x[limb + 1..])) % Pow2(width)
  {
    assert (64 * limb + bit) / 64 == limb && (64 * limb + bit) % 64 == bit;
    assert x[limb + 1..][1..] == x[limb + 2..];
    Pow2Limb();
    Pow2Add(width, 64 - width);
    CrossingSum(WindowBits(x, 64 * limb + bit, width) as int, x[limb] as int / Pow2(bit), Nat(x[limb + 1..]),
                x[limb + 1] as int, Nat(x[limb + 2..]), Pow2(64 - bit), Pow2(width), Pow2(64 - width));
  }

  lemma CrossingSum(w: int, lo: int, hi: int, next: int, rest: int, q: int, r: int, m: int)
    requires w == lo + (next * q) % B && hi == next + B * rest && r > 0 && r * m == B
    ensures w % r == (lo + q * hi) % r
  {
    var k := (next * q) / B;
    assert next * q == B * k + (next * q) % B;
    assert q * (next + B * rest) == next * q + B * (q * rest);
    SameWindow(lo + q * hi, w, q * rest + k, B, r, m);
  }

  // ---------------------------------------------------------------------------
  // The recoding loop
  // ---------------------------------------------------------------------------

  /** An even window moves on one bit; the carry rides along. */
  lemma SkipStep(x: int, p: int, p2: int, q: int, carry: int, sum: int)
    requires x >= 0 && p > 0 && p2 == 2 * p && q == x / p && 0 <= carry <= 1
    requires sum + (q + carry) * p == x && (q + carry) % 2 == 0
    ensures sum + (x / p2 + carry) * p2 == x
  {
    DivDiv(x, p, 2);
    assert q / 2 + carry == (q + carry) / 2;
    assert (q / 2 + carry) * (2 * p) == (q + carry) * p;
  }

  /** An odd window emits the digit that makes the rest divisible by 2^w. */
  lemma EmitStep(x: int, p: int, r: int, q: int, carry: int, carry': int, digit: int, sum: int)
    requires x >= 0 && p > 0 && r > 0 && q == x / p
    requires sum + (q + carry) * p == x
    requires digit == carry + q % r - carry' * r
    ensures x / (p * r) == q / r
    ensures sum + digit * p + (x / (p * r) + carry') * (p * r) == x
  {
    DivDiv(x, p, r);
    assert q == r * (q / r) + q % r;
    calc {
      digit * p + (q / r + carry') * (p * r);
      digit * p + (r * (q / r) + r * carry') * p;
      (digit + r * (q / r) + r * carry') * p;
      (q + carry) * p;
    }
  }

  lemma QuotientGrows(x: int, p: int, q: int, low: int)
    requires p > 0 && q == x / p && q >= low >= 0
    ensures x >= p * low
  {
    MulMono(p, low, q);
  }

  /** Split a scalar into its width-w non-adjacent form. */
  method NonAdjacentForm(s: Limbs4, width: nat) returns (r: seq<i8>)
    requires 2 <= width <= 8
    ensures |r| == 256 && IsNaf(r, width)
    ensures Nat(s) < Pow2(254) ==> DigitSum(r, 2) == Nat(s)
  {
    var naf := new i8[256](_ => 0);
    var x := s + [0];
    DigitZeros(naf[..], 2);
    var pos := 0;
    var carry := 0;
    assert Recoded(naf[..], Nat(x), pos, carry, width);
    hide *;
    while pos < 256
      invariant |x| == 5 && 2 <= width <= 8
      invariant Recoded(naf[..], Nat(x), pos, carry, width)
      decreases 256 - pos
    {
      CarryIsBit(naf[..], Nat(x), pos, carry, width);
      var window := carry + Window(x, pos, width);
      ghost var before := naf[..];
      if window % 2 == 0 {
        SkipWindow(before, Nat(x), pos, carry, width);
        pos := pos + 1;
      } else {
        var emitted := SignedDigit(window, width);
        naf[pos] := emitted.0;
        assert naf[..] == before[pos := emitted.0];
        EmitWindow(before, Nat(x), pos, carry, emitted.1, width, emitted.0);
        carry := emitted.1;
        pos := pos + width;
      }
    }
    r := naf[..];
    NafTotal(s, r, pos, carry, width);
  }

  lemma CarryIsBit(d: seq<int>, n: int, pos: nat, carry: int, width: nat)
    requires 2 <= width <= 8 && Recoded(d, n, pos, carry, width)
    ensures 0 <= carry <= 1
  {
  }

  /** The loop invariant: the digits so far plus what is left of the scalar make the scalar. */
  ghost predicate Recoded(d: seq<int>, n: int, pos: nat, carry: int, width: nat)
    requires 2 <= width <= 8
  {
    && |d| == 256 && 0 <= carry <= 1 && n >= 0
    && IsNaf(d, width)
    && (forall k {:trigger d[k]} :: 0 <= k < 256 && d[k] != 0 ==> k + width <= pos)
    && DigitSum(d, 2) + (n / Pow2(pos) + carry) * Pow2(pos) == n
    && (carry == 1 ==> pos >= 2 && n >= Pow2(pos - 2))
  }

  /** An odd window in the upper half becomes a negative digit and a carry. */
  function SignedDigit(window: int, width: nat): (r: (i8, int))
    requires 2 <= width <= 8 && 0 <= window <= Pow2(width) && window % 2 == 1
    ensures r.0 == window - r.1 * Pow2(width) && 0 <= r.1 <= 1
    ensures r.1 == 1 ==> window >= Pow2(width) / 2
    ensures r.0 % 2 == 1 && -Pow2(width - 1) < r.0 < Pow2(width - 1)
  {
    assert Pow2(width) == 2 * Pow2(width - 1) && Pow2(width - 1) == 2 * Pow2(width - 2);
    Pow2Monotone(width, 8);
    assert Pow2(8) == 0x100;
    if window < Pow2(width) / 2 then (window, 0) else (window - Pow2(width), 1)
  }

  lemma ParityOfWindow(n: int, pos: nat, width: nat)
    requires n >= 0 && width >= 1
    ensures Residue(n, pos, width) % 2 == (n / Pow2(pos)) % 2
  {
    assert Pow2(width) == 2 * Pow2(width - 1);
    EvenModulus(n / Pow2(pos), Pow2(width - 1));
  }

  lemma EvenModulus(q: int, r: int)
    requires r > 0
    ensures (q % (2 * r)) % 2 == q % 2
  {
    var k := q / (2 * r);
    assert q == (2 * r) * k + q % (2 * r);
    SameRemainder(q, q % (2 * r), r * k, 2);
  }

  lemma SkipWindow(d: seq<int>, n: int, pos: nat, carry: int, width: nat)
    requires 2 <= width <= 8 && Recoded(d, n, pos, carry, width)
    requires (carry + Residue(n, pos, width)) % 2 == 0
    ensures Recoded(d, n, pos + 1, carry, width)
  {
    SkipSum(DigitSum(d, 2), n, pos, carry, width);
    SkipCarry(n, pos, carry, width);
    assert carry == 1 ==> Pow2(pos) == 2 * Pow2(pos - 1);
    hide Residue, DigitSum;
  }

  lemma NextPower(pos: nat)
    ensures Pow2(pos + 1) == 2 * Pow2(pos)
  {
  }

  lemma EvenTogether(carry: int, r: int, q: int)
    requires (carry + r) % 2 == 0 && r % 2 == q % 2
    ensures (q + carry) % 2 == 0
  {
  }

  lemma SkipSum(sum: int, n: int, pos: nat, carry: int, width: nat)
    requires n >= 0 && width >= 1 && 0 <= carry <= 1
    requires sum + (n / Pow2(pos) + carry) * Pow2(pos) == n
    requires (carry + Residue(n, pos, width)) % 2 == 0
    ensures sum + (n / Pow2(pos + 1) + carry) * Pow2(pos + 1) == n
  {
    hide *;
    ParityOfWindow(n, pos, width);
    NextPower(pos);
    DivBound(n, Pow2(pos));
    EvenTogether(carry, Residue(n, pos, width), n / Pow2(pos));
    SkipStep(n, Pow2(pos), Pow2(pos + 1), n / Pow2(pos), carry, sum);
  }

  lemma SkipCarry(n: int, pos: nat, carry: int, width: nat)
    requires n >= 0 && width >= 1 && (carry + Residue(n, pos, width)) % 2 == 0
    ensures carry == 1 ==> n >= Pow2(pos)
  {
    hide *;
    if carry == 1 {
      ParityOfWindow(n, pos, width);
      DivBound(n, Pow2(pos));
      OddTogether(Residue(n, pos, width), n / Pow2(pos));
      QuotientGrows(n, Pow2(pos), n / Pow2(pos), 1);
    }
  }

  lemma OddTogether(r: int, q: int)
    requires (1 + r) % 2 == 0 && r % 2 == q % 2 && q >= 0
    ensures q >= 1
  {
  }

  lemma EmitWindow(d: seq<int>, n: int, pos: nat, carry: int, carry': int, width: nat, digit: int)
    requires 2 <= width <= 8 && Recoded(d, n, pos, carry, width) && pos < 256
    requires digit == carry + Residue(n, pos, width) - carry' * Pow2(width)
    requires 0 <= carry' <= 1 && (carry' == 1 ==> carry + Residue(n, pos, width) >= Pow2(width) / 2)
    requires digit % 2 == 1 && -Pow2(width - 1) < digit < Pow2(width - 1)
    ensures Recoded(d[pos := digit], n, pos + width, carry', width)
  {
    assert d[pos] == 0;
    NafExtend(d, width, pos, digit);
    EmitSum(d, n, pos, carry, carry', width, digit);
    CarryBound(n, pos, width, carry, carry');
  }

  lemma EmitSum(d: seq<int>, n: int, pos: nat, carry: int, carry': int, width: nat, digit: int)
    requires n >= 0 && 0 <= carry <= 1 && pos < |d| && d[pos] == 0
    requires DigitSum(d, 2) + (n / Pow2(pos) + carry) * Pow2(pos) == n
    requires digit == carry + Residue(n, pos, width) - carry' * Pow2(width)
    ensures DigitSum(d[pos := digit], 2) + (n / Pow2(pos + width) + carry') * Pow2(pos + width) == n
  {
    DigitUpdate(d, 2, pos, digit);
    IntPowTwo(pos);
    Pow2Add(pos, width);
    EmitStep(n, Pow2(pos), Pow2(width), n / Pow2(pos), carry, carry', digit, DigitSum(d, 2));
  }

  /** A window that carries out is large, so the scalar reaches beyond it. */
  lemma CarryBound(n: int, pos: nat, width: nat, carry: int, carry': int)
    requires n >= 0 && 2 <= width <= 8 && 0 <= carry <= 1
    requires carry' == 1 ==> carry + Residue(n, pos, width) >= Pow2(width) / 2
    ensures carry' == 1 ==> n >= Pow2(pos + width - 2)
  {
    var p, q, r := Pow2(pos), n / Pow2(pos), Pow2(width);
    if carry' == 1 {
      assert r == 4 * Pow2(width - 2) by { assert r == 2 * Pow2(width - 1); }
      DivBound(q, r);
      assert q == r * (q / r) + q % r;
      QuotientGrows(n, p, q, Pow2(width - 2));
      Pow2Add(pos, width - 2);
    }
  }

  lemma NafExtend(before: seq<int>, width: nat, pos: nat, digit: int)
    requires width >= 1 && pos < |before| && before[pos] == 0 && IsNaf(before, width)
    requires forall k {:trigger before[k]} :: 0 <= k < |before| && before[k] != 0 ==> k + width <= pos
    requires digit % 2 == 1 && -Pow2(width - 1) < digit < Pow2(width - 1)
    ensures IsNaf(before[pos := digit], width)
  {
  }

  /** Past bit 256 nothing is left but the carry, and a scalar below 2^254 leaves none. */
  lemma NafTotal(s: Limbs4, d: seq<int>, pos: nat, carry: int, width: nat)
    requires pos >= 256 && 2 <= width <= 8 && Recoded(d, Nat(s + [0]), pos, carry, width)
    ensures |d| == 256 && IsNaf(d, width)
    ensures Nat(s) < Pow2(254) ==> DigitSum(d, 2) == Nat(s)
  {
    NatAppend(s, [0]);
    NatZeros([0]);
    NatBound(s);
    BPowIsPow2(4);
    Pow2Monotone(254, pos - 2);
    Pow2Monotone(256, pos);
    ModUnique(Nat(s), Pow2(pos), 0, Nat(s));
  }

  /** Every reduced scalar is below the bound at which the recoding is exact. */
  lemma ReducedIsExact(n: int)
    requires 0 <= n < ORDER
    ensures n < Pow2(254)
  {
    Pow2Limb();
    Pow2Add(64, 64);
    Pow2Add(128, 64);
    Pow2Add(192, 62);
    assert Pow2(62) == 0x4000_0000_0000_0000;
  }
}
