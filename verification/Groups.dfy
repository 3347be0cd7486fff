/** Abelian groups, and integer multiples in them. */
module Groups {
  datatype Group<!G> = Group(zero: G, add: (G, G) -> G, neg: G -> G)

  ghost predicate IsAbelian<G(!new)>(g: Group<G>) {
    && (forall a, b, c {:trigger g.add(g.add(a, b), c)} {:trigger g.add(a, g.add(b, c))} ::
          g.add(g.add(a, b), c) == g.add(a, g.add(b, c)))
    && (forall a, b {:trigger g.add(a, b)} :: g.add(a, b) == g.add(b, a))
    && (forall a {:trigger g.add(g.zero, a)} :: g.add(g.zero, a) == a)
    && (forall a {:trigger g.neg(a)} :: g.add(g.neg(a), a) == g.zero)
  }

  lemma Assoc<G(!new)>(g: Group<G>, a: G, b: G, c: G)
    requires IsAbelian(g)
    ensures g.add(g.add(a, b), c) == g.add(a, g.add(b, c))
  {
  }

  lemma Comm<G(!new)>(g: Group<G>, a: G, b: G)
    requires IsAbelian(g)
    ensures g.add(a, b) == g.add(b, a)
  {
  }

  lemma Zero<G(!new)>(g: Group<G>, a: G)
    requires IsAbelian(g)
    ensures g.add(g.zero, a) == a && g.add(a, g.zero) == a
  {
    Comm(g, g.zero, a);
  }

  lemma Inverse<G(!new)>(g: Group<G>, a: G)
    requires IsAbelian(g)
    ensures g.add(g.neg(a), a) == g.zero && g.add(a, g.neg(a)) == g.zero
  {
    Comm(g, a, g.neg(a));
  }

  /** The inverse is the only element that cancels. */
  lemma InverseUnique<G(!new)>(g: Group<G>, a: G, b: G)
    requires IsAbelian(g) && g.add(a, b) == g.zero
    ensures b == g.neg(a)
  {
    hide IsAbelian;
    Assoc(g, g.neg(a), a, b);
    Inverse(g, a);
    Zero(g, b);
    Zero(g, g.neg(a));
  }

  /** An element absorbed by another is zero. */
  lemma AbsorbedIsZero<G(!new)>(g: Group<G>, a: G, e: G)
    requires IsAbelian(g) && g.add(a, e) == a
    ensures e == g.zero
  {
    hide IsAbelian;
    Assoc(g, g.neg(a), a, e);
    Inverse(g, a);
    Zero(g, e);
  }

  /** (a + b) + (c + d) == (a + c) + (b + d). */
  lemma Interchange<G(!new)>(g: Group<G>, a: G, b: G, c: G, d: G)
    requires IsAbelian(g)
    ensures g.add(g.add(a, b), g.add(c, d)) == g.add(g.add(a, c), g.add(b, d))
  {
    hide IsAbelian;
    Assoc(g, a, b, g.add(c, d));
    Assoc(g, b, c, d);
    Comm(g, b, c);
    Assoc(g, c, b, d);
    Assoc(g, a, c, g.add(b, d));
  }

  /** n-fold sum of a, for natural n. */
  function Multiple<G>(g: Group<G>, n: nat, a: G): G
    decreases n, g
  {
    if n == 0 then g.zero else g.add(a, Multiple(g, n - 1, a))
  }

  /** [n]a for any integer n. */
  function Times<G>(g: Group<G>, n: int, a: G): G {
    if n >= 0 then Multiple(g, n, a) else g.neg(Multiple(g, -n, a))
  }

  lemma {:induction false} MultipleAdd<G(!new)>(g: Group<G>, m: nat, n: nat, a: G)
    requires IsAbelian(g)
    ensures Multiple(g, m + n, a) == g.add(Multiple(g, m, a), Multiple(g, n, a))
    decreases m
  {
    hide IsAbelian;
    if m == 0 {
      Zero(g, Multiple(g, n, a));
    } else {
      MultipleAdd(g, m - 1, n, a);
      Assoc(g, a, Multiple(g, m - 1, a), Multiple(g, n, a));
    }
  }

  /** [m + n]a == [m]a + [n]a over the integers. */
  lemma TimesAdd<G(!new)>(g: Group<G>, m: int, n: int, a: G)
    requires IsAbelian(g)
    ensures Times(g, m + n, a) == g.add(Times(g, m, a), Times(g, n, a))
  {
    hide IsAbelian, Multiple;
    if m >= 0 && n >= 0 {
      MultipleAdd(g, m, n, a);
    } else if m < 0 && n < 0 {
      MultipleAdd(g, -m, -n, a);
      NegOfSum(g, Multiple(g, -m, a), Multiple(g, -n, a));
    } else if m >= 0 {
      TimesMixed(g, m, -n, a);
    } else {
      TimesMixed(g, n, -m, a);
      Comm(g, Times(g, m, a), Times(g, n, a));
    }
  }

  lemma NegOfSum<G(!new)>(g: Group<G>, a: G, b: G)
    requires IsAbelian(g)
    ensures g.neg(g.add(a, b)) == g.add(g.neg(a), g.neg(b))
  {
    hide IsAbelian;
    Interchange(g, a, b, g.neg(a), g.neg(b));
    Inverse(g, a);
    Inverse(g, b);
    Zero(g, g.zero);
    InverseUnique(g, g.add(a, b), g.add(g.neg(a), g.neg(b)));
  }

  lemma TimesMixed<G(!new)>(g: Group<G>, m: nat, k: nat, a: G)
    requires IsAbelian(g)
    ensures Times(g, m - k, a) == g.add(Multiple(g, m, a), g.neg(Multiple(g, k, a)))
  {
    hide *;
    TimesUnfold(g, m - k, a);
    if m >= k {
      MultipleAdd(g, m - k, k, a);
      CancelRight(g, Multiple(g, m - k, a), Multiple(g, k, a));
    } else {
      MultipleAdd(g, k - m, m, a);
      NegDifference(g, Multiple(g, k - m, a), Multiple(g, m, a));
    }
  }

  lemma TimesUnfold<G(!new)>(g: Group<G>, n: int, a: G)
    ensures n >= 0 ==> Times(g, n, a) == Multiple(g, n, a)
    ensures n < 0 ==> Times(g, n, a) == g.neg(Multiple(g, -n, a))
  {
  }

  lemma NegDifference<G(!new)>(g: Group<G>, a: G, b: G)
    requires IsAbelian(g)
    ensures g.add(b, g.neg(g.add(a, b))) == g.neg(a)
  {
    hide IsAbelian;
    NegOfSum(g, a, b);
    Comm(g, b, g.add(g.neg(a), g.neg(b)));
    Assoc(g, g.neg(a), g.neg(b), b);
    Inverse(g, b);
    Zero(g, g.neg(a));
  }

  lemma CancelRight<G(!new)>(g: Group<G>, a: G, b: G)
    requires IsAbelian(g)
    ensures g.add(g.add(a, b), g.neg(b)) == a
  {
    hide IsAbelian;
    Assoc(g, a, b, g.neg(b));
    Inverse(g, b);
    Zero(g, a);
  }

  lemma TimesNeg<G(!new)>(g: Group<G>, n: int, a: G)
    requires IsAbelian(g)
    ensures Times(g, -n, a) == g.neg(Times(g, n, a))
  {
    hide IsAbelian, Times;
    TimesAdd(g, n, -n, a);
    TimesZero(g, a);
    InverseUnique(g, Times(g, n, a), Times(g, -n, a));
  }

  lemma TimesZero<G(!new)>(g: Group<G>, a: G)
    ensures Times(g, 0, a) == g.zero
  {
  }

  lemma TimesOne<G(!new)>(g: Group<G>, a: G)
    requires IsAbelian(g)
    ensures Times(g, 1, a) == a
  {
    assert Multiple(g, 1, a) == g.add(a, Multiple(g, 0, a));
    Zero(g, a);
  }

  /** [m]([n]a) == [m * n]a. */
  lemma {:induction false} TimesTimes<G(!new)>(g: Group<G>, m: nat, n: int, a: G)
    requires IsAbelian(g)
    ensures Times(g, m, Times(g, n, a)) == Times(g, m * n, a)
    decreases m
  {
    hide IsAbelian;
    if m > 0 {
      TimesTimes(g, m - 1, n, a);
      TimesAdd(g, n, (m - 1) * n, a);
      assert n + (m - 1) * n == m * n;
    } else {
      assert m * n == 0;
    }
  }
}
