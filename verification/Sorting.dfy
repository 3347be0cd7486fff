/** The sort and the duplicate check of sealing.rs, by (identifier, epoch). */
module Sorting {
  import opened WireTypes
  import opened WireRecord

  function Insert<T>(x: T, s: seq<T>, key: T -> SortKey): (r: seq<T>)
    ensures |r| == |s| + 1
  {
    if s == [] || KeyLess(key(x), key(s[0])) then [x] + s else [s[0]] + Insert(x, s[1..], key)
  }

  /** A stable sort by (identifier, epoch). */
  function Sort<T>(s: seq<T>, key: T -> SortKey): (r: seq<T>)
    ensures |r| == |s|
  {
    if s == [] then [] else Insert(s[|s| - 1], Sort(s[..|s| - 1], key), key)
  }

  function Keys<T>(s: seq<T>, key: T -> SortKey): (r: seq<SortKey>)
    ensures |r| == |s|
  {
    seq(|s|, i requires 0 <= i < |s| => key(s[i]))
  }

  /** No key before a smaller one. */
  predicate Ordered(keys: seq<SortKey>) {
    forall i, j :: 0 <= i < j < |keys| ==> !KeyLess(keys[j], keys[i])
  }

  lemma NotLessTransitive(a: SortKey, b: SortKey, c: SortKey)
    requires !KeyLess(b, a) && !KeyLess(c, b)
    ensures !KeyLess(c, a)
  {
    hide KeyLess, ValidUtf8;
    KeyLessTotal(a, b);
    KeyLessTotal(b, c);
    if KeyLess(c, a) && a != b {
      KeyLessTransitive(c, a, b);
    }
  }

  lemma {:induction false} InsertOrdered<T>(x: T, s: seq<T>, key: T -> SortKey)
    requires Ordered(Keys(s, key))
    ensures Ordered(Keys(Insert(x, s, key), key))
    ensures multiset(Insert(x, s, key)) == multiset(s) + multiset{x}
  {
    hide KeyLess, ValidUtf8;
    var r := Insert(x, s, key);
    if s == [] {
    } else if KeyLess(key(x), key(s[0])) {
      FrontOrdered(x, s, key);
    } else {
      var t := s[1..];
      assert forall i :: 0 <= i < |t| ==> Keys(t, key)[i] == Keys(s, key)[i + 1];
      InsertOrdered(x, t, key);
      assert s == [s[0]] + t;
      BehindOrdered(s[0], Insert(x, t, key), x, t, key);
    }
  }

  lemma FrontOrdered<T>(x: T, s: seq<T>, key: T -> SortKey)
    requires Ordered(Keys(s, key)) && s != [] && KeyLess(key(x), key(s[0]))
    ensures Ordered(Keys([x] + s, key))
  {
    hide KeyLess, ValidUtf8;
    var r, k := [x] + s, Keys(s, key);
    forall i, j | 0 <= i < j < |r| ensures !KeyLess(Keys(r, key)[j], Keys(r, key)[i]) {
      if i == 0 {
        KeyLessTotal(key(x), k[0]);
        if j > 1 {
          assert !KeyLess(k[j - 1], k[0]);
        }
        KeyLessTotal(k[0], k[0]);
        NotLessTransitive(key(x), k[0], k[j - 1]);
      } else {
        assert !KeyLess(k[j - 1], k[i - 1]);
      }
    }
  }

  lemma BehindOrdered<T>(h: T, r: seq<T>, x: T, t: seq<T>, key: T -> SortKey)
    requires Ordered(Keys(r, key)) && multiset(r) == multiset(t) + multiset{x}
    requires Ordered(Keys([h] + t, key)) && !KeyLess(key(x), key(h))
    ensures Ordered(Keys([h] + r, key))
  {
    hide KeyLess, ValidUtf8;
    var k := Keys([h] + t, key);
    forall j | 0 <= j < |r| ensures !KeyLess(key(r[j]), key(h)) {
      assert r[j] in multiset(r);
      if r[j] != x {
        assert r[j] in multiset(t);
        var i :| 0 <= i < |t| && t[i] == r[j];
        assert !KeyLess(k[i + 1], k[0]);
      }
    }
    forall i, j | 0 <= i < j < |[h] + r| ensures !KeyLess(Keys([h] + r, key)[j], Keys([h] + r, key)[i]) {
      if i > 0 {
        assert !KeyLess(Keys(r, key)[j - 1], Keys(r, key)[i - 1]);
      }
    }
  }

  /** Sorting permutes into order. */
  lemma {:induction false} SortSorts<T>(s: seq<T>, key: T -> SortKey)
    ensures Ordered(Keys(Sort(s, key), key)) && multiset(Sort(s, key)) == multiset(s)
  {
    if s != [] {
      SortSorts(s[..|s| - 1], key);
      InsertOrdered(s[|s| - 1], Sort(s[..|s| - 1], key), key);
      assert s == s[..|s| - 1] + [s[|s| - 1]];
    }
  }

  /** Two elements of the list share a key. */
  predicate HasDuplicate<T>(s: seq<T>, key: T -> SortKey) {
    exists i, j :: 0 <= i < j < |s| && key(s[i]) == key(s[j])
  }

  /** What the code looks for after sorting. */
  predicate HasAdjacent<T>(s: seq<T>, key: T -> SortKey) {
    exists i :: 0 <= i < |s| - 1 && key(s[i]) == key(s[i + 1])
  }

  /** In a sorted list duplicates are adjacent, and without them the order is strict. */
  lemma AdjacentIsDuplicate<T>(s: seq<T>, key: T -> SortKey)
    requires Ordered(Keys(s, key))
    ensures HasAdjacent(s, key) <==> HasDuplicate(s, key)
    ensures !HasAdjacent(s, key) <==> Increasing(Keys(s, key))
  {
    hide KeyLess, ValidUtf8;
    var k := Keys(s, key);
    if HasDuplicate(s, key) {
      var i, j :| 0 <= i < j < |s| && key(s[i]) == key(s[j]);
      KeyLessTotal(k[i], k[i + 1]);
      if i + 1 < j {
        assert !KeyLess(k[j], k[i + 1]) && !KeyLess(k[i + 1], k[i]);
      }
      assert key(s[i]) == key(s[i + 1]);
      assert !KeyLess(k[i], k[j]) by {
        KeyLessTotal(k[i], k[i]);
      }
    } else {
      forall i, j | 0 <= i < j < |k| ensures KeyLess(k[i], k[j]) {
        KeyLessTotal(k[i], k[j]);
        assert key(s[i]) != key(s[j]);
      }
    }
    if HasAdjacent(s, key) {
      var i :| 0 <= i < |s| - 1 && key(s[i]) == key(s[i + 1]);
      assert HasDuplicate(s, key);
      KeyLessTotal(k[i], k[i + 1]);
      assert !KeyLess(k[i], k[i + 1]);
    }
  }

  /** Rearranging a list neither makes nor removes duplicates. */
  lemma SameDuplicates<T>(s: seq<T>, t: seq<T>, key: T -> SortKey)
    requires multiset(s) == multiset(t)
    ensures HasDuplicate(s, key) ==> HasDuplicate(t, key)
  {
    if HasDuplicate(s, key) {
      var i, j :| 0 <= i < j < |s| && key(s[i]) == key(s[j]);
      if s[i] == s[j] {
        TwiceThere(s, i, j);
        ThereTwice(t, s[i]);
      } else {
        assert s[i] in multiset(t) && s[j] in multiset(t);
        var a :| 0 <= a < |t| && t[a] == s[i];
        var b :| 0 <= b < |t| && t[b] == s[j];
        assert a != b;
        assert key(t[if a < b then a else b]) == key(t[if a < b then b else a]);
      }
    }
  }

  lemma TwiceThere<T>(s: seq<T>, i: nat, j: nat)
    requires i < j < |s| && s[i] == s[j]
    ensures multiset(s)[s[i]] >= 2
  {
    assert s == s[..j] + s[j..];
    assert s[i] in multiset(s[..j]) by {
      assert s[..j][i] == s[i];
    }
    assert s[j] in multiset(s[j..]) by {
      assert s[j..][0] == s[j];
    }
  }

  lemma ThereTwice<T>(t: seq<T>, x: T)
    requires multiset(t)[x] >= 2
    ensures exists a, b :: 0 <= a < b < |t| && t[a] == x && t[b] == x
  {
    assert x in multiset(t);
    var a :| 0 <= a < |t| && t[a] == x;
    var rest := t[..a] + t[a + 1..];
    assert t == t[..a] + [t[a]] + t[a + 1..];
    assert multiset(rest)[x] >= 1;
    assert x in multiset(rest);
    var b :| 0 <= b < |rest| && rest[b] == x;
    var c := if b < a then b else b + 1;
    assert t[c] == x && c != a;
    assert t[if a < c then a else c] == x && t[if a < c then c else a] == x;
  }
}
