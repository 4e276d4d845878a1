/** String ordering and sorting as the two runtimes do it: Python's `sorted`
    on strings and JavaScript's default `Array.prototype.sort` both compare
    character by character. Characters are compared by code point, as
    Python does; JavaScript compares UTF-16 code units, which gives a
    different order only for characters outside the Basic Multilingual
    Plane. */
module Order {

  /** `a < b` on strings: lexicographic, a proper prefix first. */
  predicate LexLess(a: string, b: string)
    decreases |a|
  {
    if a == [] then b != []
    else b != [] && (a[0] < b[0] || (a[0] == b[0] && LexLess(a[1..], b[1..])))
  }

  predicate LexLeq(a: string, b: string) {
    a == b || LexLess(a, b)
  }

  lemma {:induction false} LexIrreflexive(a: string)
    ensures !LexLess(a, a)
    decreases |a|
  {
    if a != [] {
      LexIrreflexive(a[1..]);
    }
  }

  lemma {:induction false} LexAsymmetric(a: string, b: string)
    ensures !(LexLess(a, b) && LexLess(b, a))
    decreases |a|
  {
    if a != [] && b != [] && a[0] == b[0] {
      LexAsymmetric(a[1..], b[1..]);
    }
  }

  lemma {:induction false} LexTransitive(a: string, b: string, c: string)
    requires LexLess(a, b) && LexLess(b, c)
    ensures LexLess(a, c)
    decreases |a|
  {
    if a != [] && a[0] == b[0] && b[0] == c[0] {
      LexTransitive(a[1..], b[1..], c[1..]);
    }
  }

  lemma {:induction false} LexTotal(a: string, b: string)
    ensures a == b || LexLess(a, b) || LexLess(b, a)
    decreases |a|
  {
    if a != [] && b != [] && a[0] == b[0] {
      LexTotal(a[1..], b[1..]);
      if a[1..] == b[1..] {
        assert a == [a[0]] + a[1..] && b == [b[0]] + b[1..];
      }
    }
  }

  lemma LexAsymmetricAll()
    ensures forall a, b :: LexLess(a, b) ==> !LexLess(b, a)
  {
    forall a, b | LexLess(a, b) ensures !LexLess(b, a) {
      LexAsymmetric(a, b);
    }
  }

  /** Ascending without repeats. */
  predicate StrictlySorted(xs: seq<string>) {
    forall i, j | 0 <= i < j < |xs| :: LexLess(xs[i], xs[j])
  }

  /** Ascending, repeats allowed. */
  predicate Sorted(xs: seq<string>) {
    forall i, j | 0 <= i < j < |xs| :: LexLeq(xs[i], xs[j])
  }

  predicate Distinct<T(==)>(xs: seq<T>) {
    forall i, j | 0 <= i < j < |xs| :: xs[i] != xs[j]
  }

  /** A strictly ascending sequence has no repeats. */
  lemma StrictlySortedDistinct(xs: seq<string>)
    requires StrictlySorted(xs)
    ensures Distinct(xs)
  {
    forall i, j | 0 <= i < j < |xs| ensures xs[i] != xs[j] {
      LexIrreflexive(xs[i]);
    }
  }

  predicate IsLeast(m: string, s: set<string>) {
    m in s && forall y | y in s && y != m :: LexLess(m, y)
  }

  lemma {:induction false} LeastExists(s: set<string>)
    requires s != {}
    ensures exists m :: IsLeast(m, s)
    decreases |s|
  {
    var x :| x in s;
    if s != {x} {
      var rest := s - {x};
      LeastExists(rest);
      var m :| IsLeast(m, rest);
      LexTotal(x, m);
      if LexLess(x, m) {
        forall y | y in s && y != x ensures LexLess(x, y) {
          if y != m {
            LexTransitive(x, m, y);
          }
        }
        assert IsLeast(x, s);
      } else {
        assert IsLeast(m, s);
      }
    } else {
      assert IsLeast(x, s);
    }
  }

  /** Python's `sorted(s)` of a set of strings. */
  function SortedSet(s: set<string>): (r: seq<string>)
    ensures StrictlySorted(r)
    ensures forall x :: x in r <==> x in s
    ensures |r| == |s|
    decreases |s|
  {
    if s == {} then []
    else
      LeastExists(s);
      LexAsymmetricAll();
      var m :| IsLeast(m, s);
      var rest := SortedSet(s - {m});
      forall j | 0 <= j < |rest| ensures LexLess(m, rest[j]) {
        assert rest[j] in s - {m};
      }
      ConsStrictlySorted(m, rest);
      [m] + rest
  }

  /** A strictly sorted sequence is determined by its elements. */
  lemma {:induction false} StrictlySortedUnique(a: seq<string>, b: seq<string>)
    requires StrictlySorted(a) && StrictlySorted(b)
    requires forall x :: x in a <==> x in b
    ensures a == b
    decreases |a|
  {
    assert (set x | x in a) == (set x | x in b);
    SortedCard(a);
    SortedCard(b);
    if a != [] {
      assert a[0] in b && b[0] in a;
      var j :| 0 <= j < |a| && a[j] == b[0];
      var k :| 0 <= k < |b| && b[k] == a[0];
      if a[0] != b[0] {
        assert j > 0 && k > 0;
        LexAsymmetric(a[0], b[0]);
        assert false;
      }
      assert a == [a[0]] + a[1..] && b == [b[0]] + b[1..];
      forall x ensures x in a[1..] <==> x in b[1..] {
        LexIrreflexive(a[0]);
        if x in a[1..] {
          var i :| 1 <= i < |a| && a[i] == x;
          assert LexLess(a[0], x);
          assert x in b && x != b[0];
        }
        if x in b[1..] {
          var i :| 1 <= i < |b| && b[i] == x;
          assert LexLess(b[0], x);
          assert x in a && x != a[0];
        }
      }
      StrictlySortedUnique(a[1..], b[1..]);
    }
  }

  /** A strictly sorted sequence has as many entries as elements. */
  lemma {:induction false} SortedCard(a: seq<string>)
    requires StrictlySorted(a)
    ensures |set x | x in a| == |a|
    decreases |a|
  {
    if a != [] {
      SortedCard(a[1..]);
      LexIrreflexive(a[0]);
      assert a[0] !in a[1..];
      assert (set x | x in a) == {a[0]} + (set x | x in a[1..]);
    }
  }

  /** `sorted` depends only on the set of strings: the result of sorting a
      set equals every strictly sorted arrangement of it. */
  lemma SortedSetCharacterized(s: set<string>, r: seq<string>)
    requires StrictlySorted(r) && forall x :: x in r <==> x in s
    ensures SortedSet(s) == r
  {
    StrictlySortedUnique(SortedSet(s), r);
  }

  /** A sorted sequence stays sorted under a new first element no greater
      than any of its elements. */
  lemma ConsSorted(x: string, xs: seq<string>)
    requires Sorted(xs)
    requires forall j | 0 <= j < |xs| :: LexLeq(x, xs[j])
    ensures Sorted([x] + xs)
  {
    forall i, j | 0 <= i < j < |xs| + 1 ensures LexLeq(([x] + xs)[i], ([x] + xs)[j]) {
      if i > 0 {
        assert ([x] + xs)[i] == xs[i - 1];
      }
      assert ([x] + xs)[j] == xs[j - 1];
    }
  }

  lemma ConsStrictlySorted(x: string, xs: seq<string>)
    requires StrictlySorted(xs)
    requires forall j | 0 <= j < |xs| :: LexLess(x, xs[j])
    ensures StrictlySorted([x] + xs)
  {
    forall i, j | 0 <= i < j < |xs| + 1 ensures LexLess(([x] + xs)[i], ([x] + xs)[j]) {
      if i > 0 {
        assert ([x] + xs)[i] == xs[i - 1];
      }
      assert ([x] + xs)[j] == xs[j - 1];
    }
  }

  function Insert(x: string, xs: seq<string>): (r: seq<string>)
    ensures multiset(r) == multiset(xs) + multiset{x}
    ensures Sorted(xs) ==> Sorted(r)
    decreases |xs|
  {
    if xs == [] then [x]
    else if LexLeq(x, xs[0]) then
      assert Sorted(xs) ==> Sorted([x] + xs) by {
        if Sorted(xs) {
          forall j | 0 <= j < |xs| ensures LexLeq(x, xs[j]) {
            if x != xs[0] && xs[0] != xs[j] {
              LexTransitive(x, xs[0], xs[j]);
            }
          }
          ConsSorted(x, xs);
        }
      }
      [x] + xs
    else
      var rest := Insert(x, xs[1..]);
      assert xs == [xs[0]] + xs[1..];
      LexTotal(x, xs[0]);
      assert Sorted(xs) ==> Sorted([xs[0]] + rest) by {
        if Sorted(xs) {
          assert Sorted(xs[1..]);
          forall j | 0 <= j < |rest| ensures LexLeq(xs[0], rest[j]) {
            assert rest[j] in multiset(rest);
            assert rest[j] == x || rest[j] in xs[1..];
          }
          ConsSorted(xs[0], rest);
        }
      }
      [xs[0]] + rest
  }

  /** JavaScript's `xs.sort()` on strings (insertion sort; JavaScript's sort
      is stable and strings that compare equal are identical, so any correct
      sort gives this result). */
  function Sort(xs: seq<string>): (r: seq<string>)
    ensures Sorted(r)
    ensures multiset(r) == multiset(xs)
    decreases |xs|
  {
    if xs == [] then []
    else
      assert xs == [xs[0]] + xs[1..];
      Insert(xs[0], Sort(xs[1..]))
  }

  /** Sorting a repeat-free sequence gives the sorted set of its elements. */
  lemma SortDistinct(xs: seq<string>)
    requires Distinct(xs)
    ensures Sort(xs) == SortedSet(set x | x in xs)
  {
    var r := Sort(xs);
    forall i, j | 0 <= i < j < |r| ensures LexLess(r[i], r[j]) {
      if r[i] == r[j] {
        CountTwo(r, i, j);
        DistinctCount(xs, r[i]);
      }
    }
    forall x ensures x in r <==> x in (set y | y in xs) {
      assert x in r <==> x in multiset(r);
      assert x in xs <==> x in multiset(xs);
    }
    SortedSetCharacterized((set x | x in xs), r);
  }

  /** A value at two positions occurs at least twice. */
  lemma CountTwo<T>(r: seq<T>, i: nat, j: nat)
    requires i < j < |r| && r[i] == r[j]
    ensures multiset(r)[r[i]] >= 2
  {
    assert r == r[..j] + r[j..];
    assert r[..j][i] == r[i] && r[j..][0] == r[j];
    assert r[i] in multiset(r[..j]) && r[j] in multiset(r[j..]);
  }

  lemma {:induction false} DistinctCount<T>(xs: seq<T>, x: T)
    requires Distinct(xs)
    ensures multiset(xs)[x] <= 1
    decreases |xs|
  {
    if xs != [] {
      assert xs == [xs[0]] + xs[1..];
      DistinctCount(xs[1..], x);
      if x == xs[0] {
        assert x !in xs[1..];
      }
    }
  }
}
