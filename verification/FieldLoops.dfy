/** The loops of field/mod.rs, each proved to compute the limbs of its straight-line form. */
module FieldLoops {
  import opened Words
  import opened FieldLimbs

  function Limbs(f: Fe): (s: seq<u64>)
    ensures |s| == 5
  {
    [f.l0, f.l1, f.l2, f.l3, f.l4]
  }

  function OfLimbs(s: seq<u64>): Fe
    requires |s| == 5
  {
    Fe(s[0], s[1], s[2], s[3], s[4])
  }

  /** The running limbs of `weak_reduce`'s loop: limb k with the carry of limb k - 1 added. */
  function Carried(t: seq<u64>, k: nat): (r: int)
    requires |t| == 5 && k < 5 && forall j :: 0 <= j < 5 ==> (t[j] as int) < 5 * E51
    ensures 0 <= r < 6 * E51
    decreases k, |t|
  {
    if k == 0 then t[0] as int else t[k] as int + Carried(t, k - 1) / E51
  }

  method Ripple(out: array<u64>)
    requires out.Length == 5 && forall j :: 0 <= j < 5 ==> (out[j] as int) < 5 * E51
    modifies out
    ensures forall k :: 0 <= k < 4 ==> out[k] as int == Carried(old(out[..]), k) % E51
    ensures out[4] as int == Carried(old(out[..]), 4)
  {
    ghost var t := out[..];
    for i := 0 to 4
      invariant forall k :: 0 <= k < i ==> out[k] as int == Carried(t, k) % E51
      invariant out[i] as int == Carried(t, i)
      invariant forall k :: i < k < 5 ==> out[k] == t[k]
    {
      assert Carried(t, i + 1) == t[i + 1] as int + Carried(t, i) / E51;
      hide Carried;
      out[i + 1] := out[i + 1] + out[i] / 0x8_0000_0000_0000;
      out[i] := out[i] % 0x8_0000_0000_0000;
    }
  }

  method WeakReduceLoop(f: Fe) returns (r: Fe)
    requires Loose(f)
    ensures r == WeakReduce(f)
  {
    var s := Limbs(f);
    var out := new u64[5](i requires 0 <= i < 5 => s[i]);
    var carry := out[4] / 0x8_0000_0000_0000;
    out[4] := out[4] % 0x8_0000_0000_0000;
    out[0] := out[0] + carry * 19;
    ghost var t := out[..];
    Ripple(out);
    hide Carried;
    r := OfLimbs(out[..]);
    CarriedIsWeakReduce(f, t, r);
  }

  lemma CarriedIsWeakReduce(f: Fe, t: seq<u64>, r: Fe)
    requires Loose(f) && |t| == 5
    requires t[0] as int == f.l0 as int + f.l4 as int / E51 * 19
    requires t[1] == f.l1 && t[2] == f.l2 && t[3] == f.l3 && t[4] as int == f.l4 as int % E51
    requires forall k :: 0 <= k < 4 ==> Limbs(r)[k] as int == Carried(t, k) % E51
    requires r.l4 as int == Carried(t, 4)
    ensures r == WeakReduce(f)
  {
    hide WeakReduce;
    var c0, c1, c2, c3 := Carried(t, 0), Carried(t, 1), Carried(t, 2), Carried(t, 3);
    assert c1 == t[1] as int + c0 / E51 && c2 == t[2] as int + c1 / E51 && c3 == t[3] as int + c2 / E51;
    assert Limbs(r)[0] as int == c0 % E51 && Limbs(r)[1] as int == c1 % E51;
    assert Limbs(r)[2] as int == c2 % E51 && Limbs(r)[3] as int == c3 % E51;
    hide Carried;
    RippleIsWeakReduce(f, t[0] as int, c0, c1, c2, c3, r.l4 as int);
  }

  lemma RippleIsWeakReduce(f: Fe, t0: int, c0: int, c1: int, c2: int, c3: int, c4: int)
    requires Loose(f)
    requires t0 == f.l0 as int + f.l4 as int / E51 * 19 && c0 == t0
    requires c1 == f.l1 as int + c0 / E51 && c2 == f.l2 as int + c1 / E51 && c3 == f.l3 as int + c2 / E51
    requires c4 == f.l4 as int % E51 + c3 / E51
    ensures WeakReduce(f).l0 as int == c0 % E51 && WeakReduce(f).l1 as int == c1 % E51
    ensures WeakReduce(f).l2 as int == c2 % E51 && WeakReduce(f).l3 as int == c3 % E51 && WeakReduce(f).l4 as int == c4
  {
  }

  method AddLoop(a: Fe, b: Fe) returns (r: Fe)
    requires Ok(a) && Ok(b)
    ensures r == Add(a, b)
  {
    var x, y := Limbs(a), Limbs(b);
    var out := new u64[5];
    ghost var sum := Limbs(AddLimbs(a, b));
    for i := 0 to 5
      invariant forall k :: 0 <= k < i ==> out[k] == sum[k]
    {
      out[i] := x[i] + y[i];
    }
    assert OfLimbs(out[..]) == AddLimbs(a, b);
    hide WeakReduce, AddLimbs;
    r := WeakReduceLoop(OfLimbs(out[..]));
  }

  method SubLoop(a: Fe, b: Fe) returns (r: Fe)
    requires Ok(a) && Ok(b)
    ensures r == Sub(a, b)
  {
    var x, y, p2 := Limbs(a), Limbs(b), Limbs(P2);
    var out := new u64[5];
    OkFits(a, b);
    ghost var diff := Limbs(SubLimbs(a, b));
    for i := 0 to 5
      invariant forall k :: 0 <= k < i ==> out[k] == diff[k]
    {
      out[i] := x[i] + p2[i] - y[i];
    }
    assert OfLimbs(out[..]) == SubLimbs(a, b);
    hide WeakReduce, SubLimbs;
    r := WeakReduceLoop(OfLimbs(out[..]));
  }

  method Mul121666Loop(a: Fe) returns (r: Fe)
    requires Ok(a)
    ensures r == Mul121666(a)
  {
    var x := Limbs(a);
    var w := new u128[5];
    for i := 0 to 5
      invariant forall k :: 0 <= k < i ==> w[k] as int == x[k] as int * 121666
    {
      w[i] := x[i] as u128 * 121666;
    }
    r := Carry(Wide(w[0], w[1], w[2], w[3], w[4]));
  }

  /** n squarings. */
  function SquareN(a: Fe, n: nat): (r: Fe)
    requires Ok(a)
    ensures Ok(r)
    decreases n, a
  {
    if n == 0 then a else Square(SquareN(a, n - 1))
  }

  method SquareNLoop(a: Fe, n: nat) returns (r: Fe)
    requires Ok(a)
    ensures r == SquareN(a, n)
  {
    r := a;
    for i := 0 to n
      invariant r == SquareN(a, i)
    {
      r := Square(r);
    }
  }
}
