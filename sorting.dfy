// Python's `sorted(d)` over the keys of a dict of strings: keys in
// ascending code-point (lexicographic) order.
module Sorting {

  /** Python's `a < b` on `str`: lexicographic by code point, a proper prefix first. */
  predicate LexLess(a: string, b: string)
    decreases |a|
  {
    if a == [] then b != []
    else if b == [] then false
    else if a[0] != b[0] then a[0] < b[0]
    else LexLess(a[1..], b[1..])
  }

  lemma {:induction false} LexLessIrreflexive(a: string)
    ensures !LexLess(a, a)
    decreases |a|
  {
    if a != [] {
      LexLessIrreflexive(a[1..]);
    }
  }

  lemma {:induction false} LexLessTransitive(a: string, b: string, c: string)
    requires LexLess(a, b) && LexLess(b, c)
    ensures LexLess(a, c)
    decreases |a|
  {
    if a != [] && a[0] == b[0] && b[0] == c[0] {
      LexLessTransitive(a[1..], b[1..], c[1..]);
    }
  }

  lemma {:induction false} LexLessTotal(a: string, b: string)
    requires a != b
    ensures LexLess(a, b) || LexLess(b, a)
    decreases |a|
  {
    if a != [] && b != [] && a[0] == b[0] {
      assert a[1..] != b[1..] by {
        assert a == [a[0]] + a[1..] && b == [b[0]] + b[1..];
      }
      LexLessTotal(a[1..], b[1..]);
    }
  }

  lemma LexLessAsymmetric(a: string, b: string)
    requires LexLess(a, b)
    ensures !LexLess(b, a)
  {
    if LexLess(b, a) {
      LexLessTransitive(a, b, a);
      LexLessIrreflexive(a);
    }
  }

  /** Strictly ascending, hence free of duplicates. */
  predicate StrictlySorted(s: seq<string>)
  {
    forall i, j :: 0 <= i < j < |s| ==> LexLess(s[i], s[j])
  }

  /** Every non-empty finite set of strings has a least element. */
  lemma {:induction false} HasLeast(s: set<string>)
    requires s != {}
    ensures exists m :: m in s && forall y :: y in s && y != m ==> LexLess(m, y)
    decreases |s|
  {
    var x :| x in s;
    if s == {x} {
      assert forall y :: y in s ==> y == x;
    } else {
      var rest := s - {x};
      HasLeast(rest);
      var m :| m in rest && forall y :: y in rest && y != m ==> LexLess(m, y);
      if LexLess(m, x) {
        forall y | y in s && y != m ensures LexLess(m, y) {
          if y != x {
            assert y in rest;
          }
        }
      } else {
        LexLessTotal(m, x);
        forall y | y in s && y != x ensures LexLess(x, y) {
          if y != m {
            assert y in rest;
            LexLessTransitive(x, m, y);
          }
        }
      }
    }
  }

  /** The keys of `s` in the order `sorted` lists them. */
  ghost function SortedList(s: set<string>): (r: seq<string>)
    ensures StrictlySorted(r)
    ensures forall x :: x in r <==> x in s
    decreases |s|
  {
    if s == {} then []
    else
      HasLeast(s);
      var m :| m in s && forall y :: y in s && y != m ==> LexLess(m, y);
      var rest := SortedList(s - {m});
      assert forall j :: 0 <= j < |rest| ==> rest[j] in s - {m};
      [m] + rest
  }

  /** A strictly sorted sequence has as many elements as the set it lists. */
  lemma {:induction false} StrictlySortedSize(r: seq<string>)
    requires StrictlySorted(r)
    ensures |set x | x in r| == |r|
    decreases |r|
  {
    if r != [] {
      var n := |r| - 1;
      var init := r[..n];
      assert StrictlySorted(init);
      StrictlySortedSize(init);
      assert (set x | x in r) == (set x | x in init) + {r[n]};
      if r[n] in init {
        var j :| 0 <= j < n && init[j] == r[n];
        LexLessIrreflexive(r[n]);
      }
    }
  }

  /** `sorted(s)` has one element per member of `s`. */
  lemma SortedListSize(s: set<string>)
    ensures |SortedList(s)| == |s|
  {
    var r := SortedList(s);
    StrictlySortedSize(r);
    assert (set x | x in r) == s;
  }

  /** A strictly sorted listing of a set is unique. */
  lemma {:induction false} SortedListUnique(a: seq<string>, b: seq<string>)
    requires StrictlySorted(a) && StrictlySorted(b)
    requires forall x :: x in a <==> x in b
    ensures a == b
    decreases |a|
  {
    if a != [] {
      assert a[0] in a;
      assert b != [];
      assert b[0] in b;
      if a[0] != b[0] {
        var i :| 0 <= i < |b| && b[i] == a[0];
        var j :| 0 <= j < |a| && a[j] == b[0];
        assert i > 0 && j > 0;
        assert LexLess(b[0], a[0]) && LexLess(a[0], b[0]);
        LexLessAsymmetric(a[0], b[0]);
      }
      assert a == [a[0]] + a[1..] && b == [b[0]] + b[1..];
      forall x ensures x in a[1..] <==> x in b[1..] {
        if x in a[1..] {
          var i :| 0 <= i < |a[1..]| && a[1..][i] == x;
          assert a[i + 1] == x;
          LexLessIrreflexive(a[0]);
          assert x != b[0] && x in b;
          var k :| 0 <= k < |b| && b[k] == x;
          assert b[1..][k - 1] == x;
        }
        if x in b[1..] {
          var i :| 0 <= i < |b[1..]| && b[1..][i] == x;
          assert b[i + 1] == x;
          LexLessIrreflexive(b[0]);
          assert x != a[0] && x in a;
          var k :| 0 <= k < |a| && a[k] == x;
          assert a[1..][k - 1] == x;
        }
      }
      SortedListUnique(a[1..], b[1..]);
    }
  }

  /** Inserts `k` into a strictly sorted sequence that does not hold it. */
  method Insert(keys: seq<string>, k: string) returns (r: seq<string>)
    requires StrictlySorted(keys) && k !in keys
    ensures StrictlySorted(r)
    ensures forall x :: x in r <==> x in keys || x == k
  {
    var i := 0;
    while i < |keys| && LexLess(keys[i], k)
      invariant 0 <= i <= |keys|
      invariant forall j :: 0 <= j < i ==> LexLess(keys[j], k)
    {
      i := i + 1;
    }
    if i < |keys| {
      LexLessTotal(keys[i], k);
      forall j | i <= j < |keys| ensures LexLess(k, keys[j]) {
        if j > i {
          LexLessTransitive(k, keys[i], keys[j]);
        }
      }
    }
    r := keys[..i] + [k] + keys[i..];
  }

  /** `sorted(m)` for a dict `m` keyed by strings. */
  method SortKeys<V>(m: map<string, V>) returns (keys: seq<string>)
    ensures keys == SortedList(m.Keys)
  {
    keys := [];
    var rest := m.Keys;
    while rest != {}
      invariant rest <= m.Keys
      invariant StrictlySorted(keys)
      invariant forall x :: x in keys <==> x in m && x !in rest
      decreases |rest|
    {
      var k :| k in rest;
      keys := Insert(keys, k);
      rest := rest - {k};
    }
    SortedListUnique(keys, SortedList(m.Keys));
  }
}
