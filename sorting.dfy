/** The two library routines the frontend leans on for its views:
    `Array.prototype.filter` and `Array.prototype.sort`. The sort is stable (as
    ECMAScript requires) and is driven by a strict "comes before" relation `lt`,
    which is what a comparator that returns -1, 0 or 1 amounts to. */
module Sorting {
  import opened Seqs

  /** `s.filter(keep)`: the elements that pass, in their original order. */
  function Filter<T(!new)>(s: seq<T>, keep: T -> bool): (r: seq<T>)
    ensures |r| <= |s|
    ensures forall x :: x in r <==> x in s && keep(x)
  {
    if s == [] then []
    else
      var rest := Filter(s[1..], keep);
      assert s == [s[0]] + s[1..];
      if keep(s[0]) then [s[0]] + rest else rest
  }

  /** Filtering a concatenation filters each part: the order of what is kept is
      the order of the input. */
  lemma {:induction false} FilterAppend<T(!new)>(a: seq<T>, b: seq<T>, keep: T -> bool)
    ensures Filter(a + b, keep) == Filter(a, keep) + Filter(b, keep)
  {
    if a == [] {
      assert a + b == b;
    } else {
      assert (a + b)[0] == a[0] && (a + b)[1..] == a[1..] + b;
      FilterAppend(a[1..], b, keep);
      if keep(a[0]) {
        assert Filter(a + b, keep) == [a[0]] + (Filter(a[1..], keep) + Filter(b, keep));
      }
    }
  }

  /** Something is filtered out exactly when some element fails the test. */
  lemma {:induction false} FilterDrops<T(!new)>(s: seq<T>, keep: T -> bool)
    ensures |Filter(s, keep)| < |s| <==> exists i :: 0 <= i < |s| && !keep(s[i])
  {
    if s != [] {
      FilterDrops(s[1..], keep);
      if exists i :: 0 <= i < |s[1..]| && !keep(s[1..][i]) {
        var i :| 0 <= i < |s[1..]| && !keep(s[1..][i]);
        assert s[i + 1] == s[1..][i];
      }
      if exists i :: 0 <= i < |s| && !keep(s[i]) {
        var i :| 0 <= i < |s| && !keep(s[i]);
        if i > 0 {
          assert s[1..][i - 1] == s[i];
        }
      }
    }
  }

  /** No element occurs twice. */
  predicate Distinct<T(==)>(s: seq<T>) {
    forall i, j :: 0 <= i < j < |s| ==> s[i] != s[j]
  }

  lemma {:induction false} DistinctCountsOnce<T>(s: seq<T>, x: T)
    requires Distinct(s)
    ensures multiset(s)[x] <= 1
  {
    if s != [] {
      assert s == [s[0]] + s[1..];
      assert Distinct(s[1..]) by {
        forall i, j | 0 <= i < j < |s[1..]| ensures s[1..][i] != s[1..][j] {
          assert s[1..][i] == s[i + 1] && s[1..][j] == s[j + 1];
        }
      }
      DistinctCountsOnce(s[1..], x);
      if s[0] == x {
        assert x !in s[1..];
      }
    }
  }

  /** A rearrangement of a sequence without repetitions has none either. */
  lemma {:induction false} DistinctPermutation<T>(a: seq<T>, b: seq<T>)
    requires multiset(a) == multiset(b) && Distinct(a)
    ensures Distinct(b)
  {
    forall i, j | 0 <= i < j < |b| ensures b[i] != b[j] {
      if b[i] == b[j] {
        var x := b[i];
        assert b == b[..j] + b[j..];
        assert x in b[..j] && x in b[j..];
        assert multiset(b)[x] == multiset(b[..j])[x] + multiset(b[j..])[x];
        DistinctCountsOnce(a, x);
        assert false;
      }
    }
  }

  // ---------------------------------------------------------------------------
  // Orders

  /** On the elements of `dom`, `lt` is a strict weak order: irreflexive,
      transitive, and whatever lies strictly between is comparable to a middle
      element (so that "neither comes before the other" is an equivalence). */
  ghost predicate StrictWeakOn<T>(lt: (T, T) -> bool, dom: seq<T>) {
    && (forall a | a in dom :: !lt(a, a))
    && (forall a, b, c | a in dom && b in dom && c in dom :: lt(a, b) && lt(b, c) ==> lt(a, c))
    && (forall a, b, c | a in dom && b in dom && c in dom :: lt(a, c) ==> lt(a, b) || lt(b, c))
  }

  /** No element comes strictly before an element to its left. */
  ghost predicate SortedBy<T>(lt: (T, T) -> bool, s: seq<T>) {
    forall i, j :: 0 <= i < j < |s| ==> !lt(s[j], s[i])
  }

  /** Neither of `a` and `b` comes before the other: the comparator returns 0. */
  predicate Tied<T>(lt: (T, T) -> bool, a: T, b: T) {
    !lt(a, b) && !lt(b, a)
  }

  /** The elements of `s` tied with `y`, in their order in `s`. */
  function Ties<T>(s: seq<T>, y: T, lt: (T, T) -> bool): seq<T> {
    if s == [] then [] else (if Tied(lt, s[0], y) then [s[0]] else []) + Ties(s[1..], y, lt)
  }

  lemma {:induction false} TiesAppend<T>(a: seq<T>, b: seq<T>, y: T, lt: (T, T) -> bool)
    ensures Ties(a + b, y, lt) == Ties(a, y, lt) + Ties(b, y, lt)
  {
    if a == [] {
      assert a + b == b;
    } else {
      var h := if Tied(lt, a[0], y) then [a[0]] else [];
      assert Ties(a + b, y, lt) == h + Ties(a[1..] + b, y, lt) by {
        assert (a + b)[0] == a[0] && (a + b)[1..] == a[1..] + b;
      }
      TiesAppend(a[1..], b, y, lt);
      AppendAssoc(h, Ties(a[1..], y, lt), Ties(b, y, lt));
    }
  }

  lemma {:induction false} NoTies<T>(s: seq<T>, y: T, lt: (T, T) -> bool)
    requires forall e | e in s :: !Tied(lt, e, y)
    ensures Ties(s, y, lt) == []
  {
    if s != [] {
      NoTies(s[1..], y, lt);
    }
  }

  // ---------------------------------------------------------------------------
  // Stable insertion sort

  /** Places `x` before the first element it comes strictly before. */
  function Insert<T>(x: T, s: seq<T>, lt: (T, T) -> bool): (r: seq<T>)
    ensures |r| == |s| + 1
    ensures multiset(r) == multiset(s) + multiset{x}
  {
    if s == [] then [x]
    else if lt(x, s[0]) then [x] + s
    else
      assert s == [s[0]] + s[1..];
      [s[0]] + Insert(x, s[1..], lt)
  }

  /** The stable sort of `s`: each element in turn is inserted after everything
      before it that it does not come strictly before. */
  function InsertionSort<T>(s: seq<T>, lt: (T, T) -> bool): (r: seq<T>)
    ensures |r| == |s|
    ensures multiset(r) == multiset(s)
  {
    if s == [] then []
    else
      assert s == s[..|s| - 1] + [s[|s| - 1]];
      Insert(s[|s| - 1], InsertionSort(s[..|s| - 1], lt), lt)
  }

  lemma {:induction false} InsertSorted<T>(x: T, s: seq<T>, lt: (T, T) -> bool, dom: seq<T>)
    requires StrictWeakOn(lt, dom)
    requires x in dom && forall e | e in s :: e in dom
    requires SortedBy(lt, s)
    ensures SortedBy(lt, Insert(x, s, lt))
  {
    if s == [] {
    } else if lt(x, s[0]) {
      var r := [x] + s;
      forall i, j | 0 <= i < j < |r| ensures !lt(r[j], r[i]) {
        if i == 0 {
          assert r[j] == s[j - 1] && s[0] in dom && s[j - 1] in dom;
          if j - 1 > 0 {
            assert !lt(s[j - 1], s[0]);
          }
        } else {
          assert r[i] == s[i - 1] && r[j] == s[j - 1];
        }
      }
    } else {
      var t := Insert(x, s[1..], lt);
      forall e | e in s[1..] ensures e in dom {
        assert e in s;
      }
      InsertSorted(x, s[1..], lt, dom);
      var r := [s[0]] + t;
      forall i, j | 0 <= i < j < |r| ensures !lt(r[j], r[i]) {
        if i == 0 {
          assert r[j] in multiset(t);
          if r[j] != x {
            assert r[j] in multiset(s[1..]);
            var k :| 0 <= k < |s[1..]| && s[1..][k] == r[j];
            assert s[k + 1] == r[j];
          }
        } else {
          assert r[i] == t[i - 1] && r[j] == t[j - 1];
        }
      }
    }
  }

  /** The sort orders by `lt`: no element comes strictly before one to its left. */
  lemma {:induction false} SortIsSorted<T>(s: seq<T>, lt: (T, T) -> bool, dom: seq<T>)
    requires StrictWeakOn(lt, dom)
    requires forall e | e in s :: e in dom
    ensures SortedBy(lt, InsertionSort(s, lt))
  {
    if s != [] {
      var p := s[..|s| - 1];
      forall e | e in p ensures e in dom {
        assert e in s;
      }
      SortIsSorted(p, lt, dom);
      forall e | e in InsertionSort(p, lt) ensures e in dom {
        assert e in multiset(p);
      }
      InsertSorted(s[|s| - 1], InsertionSort(p, lt), lt, dom);
    }
  }

  /** Inserting into a sorted sequence puts `x` after every element tied with it. */
  lemma {:induction false} InsertTies<T>(x: T, s: seq<T>, y: T, lt: (T, T) -> bool, dom: seq<T>)
    requires StrictWeakOn(lt, dom)
    requires x in dom && y in dom && forall e | e in s :: e in dom
    requires SortedBy(lt, s)
    ensures Ties(Insert(x, s, lt), y, lt) == Ties(s, y, lt) + (if Tied(lt, x, y) then [x] else [])
  {
    var tx := if Tied(lt, x, y) then [x] else [];
    if s == [] {
      assert [x][1..] == [];
    } else if lt(x, s[0]) {
      assert ([x] + s)[1..] == s;
      if Tied(lt, x, y) {
        BeforeFirstNoTies(x, s, y, lt, dom);
      }
    } else {
      var t := Insert(x, s[1..], lt);
      var h := if Tied(lt, s[0], y) then [s[0]] else [];
      SortedTail(s, lt, dom);
      InsertTies(x, s[1..], y, lt, dom);
      assert Ties(Insert(x, s, lt), y, lt) == h + Ties(t, y, lt) by {
        assert ([s[0]] + t)[0] == s[0] && ([s[0]] + t)[1..] == t;
      }
      AppendAssoc(h, Ties(s[1..], y, lt), tx);
    }
  }

  /** The tail of a sorted sequence is sorted and stays in the domain. */
  lemma {:induction false} SortedTail<T>(s: seq<T>, lt: (T, T) -> bool, dom: seq<T>)
    requires s != [] && SortedBy(lt, s) && forall e | e in s :: e in dom
    ensures SortedBy(lt, s[1..]) && forall e | e in s[1..] :: e in dom
  {
    forall e | e in s[1..] ensures e in dom {
      assert e in s;
    }
    forall i, j | 0 <= i < j < |s[1..]| ensures !lt(s[1..][j], s[1..][i]) {
      assert s[1..][i] == s[i + 1] && s[1..][j] == s[j + 1];
    }
  }

  /** Nothing in a sorted sequence is tied with an `x` that comes before its
      first element, when `x` is tied with `y`. */
  lemma {:induction false} BeforeFirstNoTies<T>(x: T, s: seq<T>, y: T, lt: (T, T) -> bool, dom: seq<T>)
    requires StrictWeakOn(lt, dom)
    requires x in dom && y in dom && forall e | e in s :: e in dom
    requires SortedBy(lt, s) && s != [] && lt(x, s[0]) && Tied(lt, x, y)
    ensures Ties(s, y, lt) == []
  {
    forall e | e in s ensures !Tied(lt, e, y) {
      var k :| 0 <= k < |s| && s[k] == e;
      assert s[0] in dom && e in dom;
      if k > 0 {
        assert !lt(s[k], s[0]);
      }
    }
    NoTies(s, y, lt);
  }

  /** The sort is stable: the elements tied with any `y` keep their relative order. */
  lemma {:induction false} SortIsStable<T>(s: seq<T>, y: T, lt: (T, T) -> bool, dom: seq<T>)
    requires StrictWeakOn(lt, dom)
    requires y in dom && forall e | e in s :: e in dom
    ensures Ties(InsertionSort(s, lt), y, lt) == Ties(s, y, lt)
  {
    if s != [] {
      var p, x := s[..|s| - 1], s[|s| - 1];
      assert s == p + [x];
      var sp := InsertionSort(p, lt);
      assert InsertionSort(s, lt) == Insert(x, sp, lt);
      forall e | e in p ensures e in dom {
        assert e in s;
      }
      SortIsStable(p, y, lt, dom);
      SortIsSorted(p, lt, dom);
      forall e | e in sp ensures e in dom {
        assert e in multiset(p);
      }
      InsertTies(x, sp, y, lt, dom);
      TiesAppend(p, [x], y, lt);
      assert [x][1..] == [];
      assert Ties([x], y, lt) == if Tied(lt, x, y) then [x] else [];
    }
  }
}
