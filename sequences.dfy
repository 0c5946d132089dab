/**
 * List operations the model is built from: filtering (`Array.prototype.filter`,
 * a list comprehension with an `if`), the stable `Array.prototype.sort` with a
 * JavaScript comparator (a negative or zero result lets the first argument
 * come first), an element-wise map, and collecting what each element
 * contributes (the loops that read the job file line by line).
 */
module Sequences {

  /** `xs.filter(p)`: the elements satisfying `p`, in their original order. */
  function Filter<T>(xs: seq<T>, p: T -> bool): (r: seq<T>)
    ensures |r| <= |xs|
  {
    if xs == [] then [] else (if p(xs[0]) then [xs[0]] else []) + Filter(xs[1..], p)
  }

  /** An element is kept exactly when it is in the list and passes `p`. */
  lemma {:induction false} FilterMembers<T>(xs: seq<T>, p: T -> bool, x: T)
    ensures x in Filter(xs, p) <==> x in xs && p(x)
  {
    if xs != [] {
      FilterMembers(xs[1..], p, x);
      assert xs == [xs[0]] + xs[1..];
    }
  }

  /** Filtering distributes over concatenation, so it keeps relative order. */
  lemma {:induction false} FilterAppend<T>(a: seq<T>, b: seq<T>, p: T -> bool)
    ensures Filter(a + b, p) == Filter(a, p) + Filter(b, p)
  {
    if a == [] {
      assert a + b == b;
    } else {
      var head := if p(a[0]) then [a[0]] else [];
      assert (a + b)[0] == a[0];
      assert (a + b)[1..] == a[1..] + b;
      FilterAppend(a[1..], b, p);
      assert Filter(a + b, p) == head + Filter(a[1..] + b, p);
      assert Filter(a, p) == head + Filter(a[1..], p);
    }
  }

  lemma {:induction false} FilterMultiset<T>(xs: seq<T>, p: T -> bool)
    ensures multiset(Filter(xs, p)) <= multiset(xs)
  {
    if xs != [] {
      FilterMultiset(xs[1..], p);
      assert xs == [xs[0]] + xs[1..];
    }
  }

  /**
   * The comparator describes a total preorder: any two elements may be put
   * in some order, and "may come first" is transitive. JavaScript's sort is
   * only defined for such comparators.
   */
  ghost predicate Consistent<T(!new)>(cmp: (T, T) -> int) {
    && (forall a, b :: cmp(a, b) <= 0 || cmp(b, a) <= 0)
    && (forall a, b, c :: cmp(a, b) <= 0 && cmp(b, c) <= 0 ==> cmp(a, c) <= 0)
  }

  /** Every element may come before every later one. */
  ghost predicate Sorted<T>(xs: seq<T>, cmp: (T, T) -> int) {
    forall i, j :: 0 <= i < j < |xs| ==> cmp(xs[i], xs[j]) <= 0
  }

  /**
   * Puts `x` in front of the first element it may precede; an element equal
   * to `x` under `cmp` therefore stays behind it.
   */
  function Insert<T>(x: T, ys: seq<T>, cmp: (T, T) -> int): seq<T> {
    if ys == [] then [x]
    else if cmp(x, ys[0]) <= 0 then [x] + ys
    else [ys[0]] + Insert(x, ys[1..], cmp)
  }

  lemma {:induction false} InsertMultiset<T>(x: T, ys: seq<T>, cmp: (T, T) -> int)
    ensures multiset(Insert(x, ys, cmp)) == multiset(ys) + multiset{x}
  {
    if ys != [] && cmp(x, ys[0]) > 0 {
      InsertMultiset(x, ys[1..], cmp);
      assert ys == [ys[0]] + ys[1..];
    }
  }

  /** `[...xs].sort(cmp)`: a stable sort, here as insertion sort. */
  function Sort<T>(xs: seq<T>, cmp: (T, T) -> int): (r: seq<T>)
    ensures multiset(r) == multiset(xs)
  {
    if xs == [] then []
    else
      assert xs == [xs[0]] + xs[1..];
      InsertMultiset(xs[0], Sort(xs[1..], cmp), cmp);
      Insert(xs[0], Sort(xs[1..], cmp), cmp)
  }

  lemma SortLength<T>(xs: seq<T>, cmp: (T, T) -> int)
    ensures |Sort(xs, cmp)| == |xs|
  {
    assert |multiset(Sort(xs, cmp))| == |multiset(xs)|;
  }

  /** A sorted list stays sorted with an element in front that may precede all of it. */
  lemma ConsSorted<T>(y: T, tail: seq<T>, cmp: (T, T) -> int)
    requires Sorted(tail, cmp) && forall z :: z in tail ==> cmp(y, z) <= 0
    ensures Sorted([y] + tail, cmp)
  {
    var r := [y] + tail;
    forall i, j | 0 <= i < j < |r| ensures cmp(r[i], r[j]) <= 0 {
      assert r[j] == tail[j - 1];
      if i > 0 {
        assert r[i] == tail[i - 1];
      }
    }
  }

  lemma SortedTail<T>(ys: seq<T>, cmp: (T, T) -> int)
    requires ys != [] && Sorted(ys, cmp)
    ensures Sorted(ys[1..], cmp)
    ensures forall z :: z in ys[1..] ==> cmp(ys[0], z) <= 0
  {
    var rest := ys[1..];
    forall i, j | 0 <= i < j < |rest| ensures cmp(rest[i], rest[j]) <= 0 {
      assert rest[i] == ys[i + 1] && rest[j] == ys[j + 1];
    }
    forall z | z in rest ensures cmp(ys[0], z) <= 0 {
      var k :| 0 <= k < |rest| && rest[k] == z;
      assert ys[k + 1] == z;
    }
  }

  lemma {:induction false} InsertSorted<T(!new)>(x: T, ys: seq<T>, cmp: (T, T) -> int)
    requires Consistent(cmp) && Sorted(ys, cmp)
    ensures Sorted(Insert(x, ys, cmp), cmp)
  {
    if ys == [] {
    } else if cmp(x, ys[0]) <= 0 {
      BeforeSorted(x, ys, cmp);
      ConsSorted(x, ys, cmp);
    } else {
      var y, rest := ys[0], ys[1..];
      SortedTail(ys, cmp);
      InsertSorted(x, rest, cmp);
      var tail := Insert(x, rest, cmp);
      InsertMultiset(x, rest, cmp);
      forall z | z in tail ensures cmp(y, z) <= 0 {
        assert z in multiset(tail);
        if z != x {
          assert z in rest;
        }
      }
      ConsSorted(y, tail, cmp);
    }
  }

  /** The result of `Sort` is sorted: every element may precede every later one. */
  lemma {:induction false} SortSorted<T(!new)>(xs: seq<T>, cmp: (T, T) -> int)
    requires Consistent(cmp)
    ensures Sorted(Sort(xs, cmp), cmp)
  {
    if xs != [] {
      SortSorted(xs[1..], cmp);
      InsertSorted(xs[0], Sort(xs[1..], cmp), cmp);
    }
  }

  /** `x` goes to the front of a list whose elements it may all precede. */
  lemma InsertFront<T>(x: T, ys: seq<T>, cmp: (T, T) -> int)
    requires forall y :: y in ys ==> cmp(x, y) <= 0
    ensures Insert(x, ys, cmp) == [x] + ys
  {
  }

  lemma FilterCons<T>(x: T, ys: seq<T>, p: T -> bool)
    ensures Filter([x] + ys, p) == (if p(x) then [x] else []) + Filter(ys, p)
  {
    assert ([x] + ys)[1..] == ys;
  }

  /** What may precede the head of a sorted list may precede all of it. */
  lemma BeforeSorted<T(!new)>(x: T, ys: seq<T>, cmp: (T, T) -> int)
    requires Consistent(cmp) && Sorted(ys, cmp)
    requires ys != [] && cmp(x, ys[0]) <= 0
    ensures forall y :: y in ys ==> cmp(x, y) <= 0
  {
    forall y | y in ys ensures cmp(x, y) <= 0 {
      var j :| 0 <= j < |ys| && ys[j] == y;
      if j > 0 {
        assert cmp(ys[0], ys[j]) <= 0;
      }
    }
  }

  lemma BeforeFiltered<T>(x: T, ys: seq<T>, cmp: (T, T) -> int, p: T -> bool)
    requires forall y :: y in ys ==> cmp(x, y) <= 0
    ensures forall y :: y in Filter(ys, p) ==> cmp(x, y) <= 0
  {
    forall y | y in Filter(ys, p) ensures cmp(x, y) <= 0 {
      FilterMembers(ys, p, y);
    }
  }

  lemma InsertFilterFront<T(!new)>(x: T, ys: seq<T>, cmp: (T, T) -> int, p: T -> bool)
    requires Consistent(cmp) && Sorted(ys, cmp)
    requires ys != [] && cmp(x, ys[0]) <= 0
    ensures Filter(Insert(x, ys, cmp), p)
         == if p(x) then Insert(x, Filter(ys, p), cmp) else Filter(ys, p)
  {
    FilterCons(x, ys, p);
    if p(x) {
      BeforeSorted(x, ys, cmp);
      BeforeFiltered(x, ys, cmp, p);
      InsertFront(x, Filter(ys, p), cmp);
    }
  }

  lemma InsertFilterPast<T(!new)>(x: T, y: T, zs: seq<T>, cmp: (T, T) -> int, p: T -> bool)
    requires cmp(x, y) > 0
    requires Filter(Insert(x, zs, cmp), p)
          == if p(x) then Insert(x, Filter(zs, p), cmp) else Filter(zs, p)
    ensures Filter(Insert(x, [y] + zs, cmp), p)
         == if p(x) then Insert(x, Filter([y] + zs, p), cmp) else Filter([y] + zs, p)
  {
    var ys := [y] + zs;
    assert ys[0] == y && ys[1..] == zs;
    var inserted := Insert(x, zs, cmp);
    assert Insert(x, ys, cmp) == [y] + inserted;
    FilterCons(y, inserted, p);
    FilterCons(y, zs, p);
    var f := Filter(zs, p);
    if p(y) {
      assert ([y] + f)[0] == y && ([y] + f)[1..] == f;
      assert Insert(x, [y] + f, cmp) == [y] + Insert(x, f, cmp);
    } else {
      assert [] + f == f;
      assert [] + Filter(inserted, p) == Filter(inserted, p);
    }
  }

  /** Filtering after an insertion is inserting into the filtered list. */
  lemma {:induction false} InsertFilter<T(!new)>(x: T, ys: seq<T>, cmp: (T, T) -> int, p: T -> bool)
    requires Consistent(cmp) && Sorted(ys, cmp)
    ensures Filter(Insert(x, ys, cmp), p)
         == if p(x) then Insert(x, Filter(ys, p), cmp) else Filter(ys, p)
  {
    if ys == [] {
      FilterCons(x, [], p);
    } else if cmp(x, ys[0]) <= 0 {
      InsertFilterFront(x, ys, cmp, p);
    } else {
      assert ys == [ys[0]] + ys[1..];
      assert Sorted(ys[1..], cmp);
      InsertFilter(x, ys[1..], cmp, p);
      InsertFilterPast(x, ys[0], ys[1..], cmp, p);
    }
  }

  /**
   * A stable sort commutes with an order-preserving filter: sorting and then
   * filtering gives the same list as filtering and then sorting.
   */
  lemma {:induction false} SortFilterCommute<T(!new)>(xs: seq<T>, cmp: (T, T) -> int, p: T -> bool)
    requires Consistent(cmp)
    ensures Filter(Sort(xs, cmp), p) == Sort(Filter(xs, p), cmp)
  {
    if xs != [] {
      var x, rest := xs[0], xs[1..];
      assert xs == [x] + rest;
      var sortedRest := Sort(rest, cmp);
      assert Sort(xs, cmp) == Insert(x, sortedRest, cmp);
      SortFilterCommute(rest, cmp, p);
      SortSorted(rest, cmp);
      InsertFilter(x, sortedRest, cmp, p);
      FilterCons(x, rest, p);
      var f := Filter(rest, p);
      if p(x) {
        assert ([x] + f)[0] == x && ([x] + f)[1..] == f;
        assert Sort([x] + f, cmp) == Insert(x, Sort(f, cmp), cmp);
      } else {
        assert [] + f == f;
      }
    }
  }

  /** Sorting a list in which every element may precede every other changes nothing. */
  lemma {:induction false} SortAllTies<T>(xs: seq<T>, cmp: (T, T) -> int)
    requires forall i, j :: 0 <= i < |xs| && 0 <= j < |xs| ==> cmp(xs[i], xs[j]) <= 0
    ensures Sort(xs, cmp) == xs
  {
    if xs != [] {
      var x, rest := xs[0], xs[1..];
      assert xs == [x] + rest;
      assert forall i :: 0 <= i < |rest| ==> rest[i] == xs[i + 1];
      SortAllTies(rest, cmp);
      forall y | y in rest ensures cmp(x, y) <= 0 {
        var j :| 0 <= j < |rest| && rest[j] == y;
        assert cmp(xs[0], xs[j + 1]) <= 0;
      }
      InsertFront(x, rest, cmp);
    }
  }

  /**
   * Stability: the elements of one class of mutual ties (`p`) appear in the
   * sorted list in exactly their original order.
   */
  lemma SortStable<T(!new)>(xs: seq<T>, cmp: (T, T) -> int, p: T -> bool)
    requires Consistent(cmp)
    requires forall a, b :: p(a) && p(b) ==> cmp(a, b) <= 0
    ensures Filter(Sort(xs, cmp), p) == Filter(xs, p)
  {
    SortFilterCommute(xs, cmp, p);
    var f := Filter(xs, p);
    forall i, j | 0 <= i < |f| && 0 <= j < |f| ensures cmp(f[i], f[j]) <= 0 {
      FilterMembers(xs, p, f[i]);
      FilterMembers(xs, p, f[j]);
    }
    SortAllTies(f, cmp);
  }

  /** The concatenation of what `f` gives for each element, in order. */
  function Collect<T, U>(xs: seq<T>, f: T -> seq<U>): seq<U>
    decreases |xs|
  {
    if xs == [] then [] else Collect(xs[..|xs| - 1], f) + f(xs[|xs| - 1])
  }

  lemma CollectSnoc<T, U>(xs: seq<T>, x: T, f: T -> seq<U>)
    ensures Collect(xs + [x], f) == Collect(xs, f) + f(x)
  {
    assert (xs + [x])[..|xs|] == xs;
  }

  lemma {:induction false} CollectAppend<T, U>(xs: seq<T>, ys: seq<T>, f: T -> seq<U>)
    ensures Collect(xs + ys, f) == Collect(xs, f) + Collect(ys, f)
    decreases |ys|
  {
    if ys == [] {
      assert xs + ys == xs;
    } else {
      var init, last := ys[..|ys| - 1], ys[|ys| - 1];
      assert ys == init + [last];
      assert xs + ys == (xs + init) + [last];
      calc {
        Collect(xs + ys, f);
        { CollectSnoc(xs + init, last, f); }
        Collect(xs + init, f) + f(last);
        { CollectAppend(xs, init, f); }
        Collect(xs, f) + Collect(init, f) + f(last);
        { CollectSnoc(init, last, f); }
        Collect(xs, f) + Collect(ys, f);
      }
    }
  }

  /** Something is collected exactly when some element contributes it. */
  lemma {:induction false} CollectMembers<T, U>(xs: seq<T>, f: T -> seq<U>, u: U)
    ensures u in Collect(xs, f) <==> exists i :: 0 <= i < |xs| && u in f(xs[i])
    decreases |xs|
  {
    if xs != [] {
      var init := xs[..|xs| - 1];
      CollectMembers(init, f, u);
      if exists i :: 0 <= i < |xs| && u in f(xs[i]) {
        var i :| 0 <= i < |xs| && u in f(xs[i]);
        if i < |init| {
          assert init[i] == xs[i];
        }
      }
      if u in Collect(init, f) {
        var i :| 0 <= i < |init| && u in f(init[i]);
        assert xs[i] == init[i];
      }
    }
  }

  /**
   * Dropping the elements that fail `p` before collecting is filtering the
   * collected values by `q`, when each element that `p` drops contributes
   * only values `q` rejects and each element `p` keeps contributes only
   * values `q` accepts.
   */
  lemma {:induction false} CollectFilter<T, U>(xs: seq<T>, f: T -> seq<U>, p: T -> bool, q: U -> bool)
    requires forall i :: 0 <= i < |xs| ==> Filter(f(xs[i]), q) == (if p(xs[i]) then f(xs[i]) else [])
    ensures Collect(Filter(xs, p), f) == Filter(Collect(xs, f), q)
    decreases |xs|
  {
    if xs != [] {
      var init, last := xs[..|xs| - 1], xs[|xs| - 1];
      assert xs == init + [last];
      assert forall i :: 0 <= i < |init| ==> init[i] == xs[i];
      CollectFilter(init, f, p, q);
      FilterAppend(init, [last], p);
      FilterCons(last, [], p);
      assert [last] + [] == [last];
      var kept := if p(last) then [last] else [];
      CollectAppend(Filter(init, p), kept, f);
      if p(last) {
        CollectSnoc([], last, f);
        assert [] + [last] == [last];
      }
      FilterAppend(Collect(init, f), f(last), q);
    }
  }

  /** `xs.map(g)`. */
  function Map<T, U>(xs: seq<T>, g: T -> U): (r: seq<U>)
    ensures |r| == |xs|
    ensures forall i :: 0 <= i < |xs| ==> r[i] == g(xs[i])
  {
    seq(|xs|, i requires 0 <= i < |xs| => g(xs[i]))
  }

  lemma MapAppend<T, U>(xs: seq<T>, ys: seq<T>, g: T -> U)
    ensures Map(xs + ys, g) == Map(xs, g) + Map(ys, g)
  {
  }

  /**
   * Mapping with `g` before collecting is mapping the collected values with
   * `h`, when that holds element by element.
   */
  lemma {:induction false} CollectMap<T, U>(xs: seq<T>, f: T -> seq<U>, g: T -> T, h: U -> U)
    requires forall i :: 0 <= i < |xs| ==> f(g(xs[i])) == Map(f(xs[i]), h)
    ensures Collect(Map(xs, g), f) == Map(Collect(xs, f), h)
    decreases |xs|
  {
    if xs != [] {
      var init, last := xs[..|xs| - 1], xs[|xs| - 1];
      assert forall i :: 0 <= i < |init| ==> init[i] == xs[i];
      CollectMap(init, f, g, h);
      assert Map(xs, g) == Map(init, g) + [g(last)];
      CollectSnoc(Map(init, g), g(last), f);
      MapAppend(Collect(init, f), f(last), h);
    }
  }

  /** No element occurs twice (the keys of a JavaScript object). */
  predicate Distinct<T(==)>(xs: seq<T>) {
    forall i, j :: 0 <= i < j < |xs| ==> xs[i] != xs[j]
  }

  lemma {:induction false} DistinctCount<T>(xs: seq<T>, v: T)
    requires Distinct(xs)
    ensures multiset(xs)[v] <= 1
  {
    if xs != [] {
      var rest := xs[1..];
      assert xs == [xs[0]] + rest;
      assert Distinct(rest) by {
        forall i, j | 0 <= i < j < |rest| ensures rest[i] != rest[j] {
          assert rest[i] == xs[i + 1] && rest[j] == xs[j + 1];
        }
      }
      DistinctCount(rest, v);
      if xs[0] == v {
        forall k | 0 <= k < |rest| ensures rest[k] != v {
          assert rest[k] == xs[k + 1];
        }
        assert v !in rest;
      }
    }
  }

  lemma RepeatCount<T>(ys: seq<T>, i: int, j: int)
    requires 0 <= i < j < |ys| && ys[i] == ys[j]
    ensures multiset(ys)[ys[i]] >= 2
  {
    var v := ys[i];
    assert ys == ys[..j] + [ys[j]] + ys[j + 1..];
    assert ys[..j][i] == v;
    assert v in multiset(ys[..j]);
  }

  /** A rearrangement of a list without repeats has none either. */
  lemma DistinctPermutation<T>(xs: seq<T>, ys: seq<T>)
    requires multiset(xs) == multiset(ys) && Distinct(xs)
    ensures Distinct(ys)
  {
    forall i, j | 0 <= i < j < |ys| ensures ys[i] != ys[j] {
      if ys[i] == ys[j] {
        RepeatCount(ys, i, j);
        DistinctCount(xs, ys[i]);
      }
    }
  }
}
