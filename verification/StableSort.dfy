/**
 The contract of Go's sort.SliceStable: a permutation in which no element
 comes after one it is `before`, and tied elements keep their input order.
 */
module StableSort {

  /** A strict weak order, which sort.SliceStable asks of its less function. */
  ghost predicate WeakOrder<T(!new)>(before: (T, T) -> bool) {
    && (forall i, j :: before(i, j) ==> !before(j, i))
    && (forall i, j, k :: before(i, j) ==> before(i, k) || before(k, j))
  }

  function Insert<T>(before: (T, T) -> bool, x: T, xs: seq<T>): seq<T> {
    if xs == [] || before(x, xs[0]) then [x] + xs
    else [xs[0]] + Insert(before, x, xs[1..])
  }

  function Sort<T>(before: (T, T) -> bool, xs: seq<T>): seq<T> {
    if xs == [] then [] else Insert(before, xs[|xs| - 1], Sort(before, xs[..|xs| - 1]))
  }

  ghost predicate Ordered<T>(before: (T, T) -> bool, xs: seq<T>) {
    forall a, b | 0 <= a < b < |xs| :: !before(xs[b], xs[a])
  }

  function Filter<T>(p: T -> bool, xs: seq<T>): seq<T> {
    if xs == [] then []
    else Filter(p, xs[..|xs| - 1]) + (if p(xs[|xs| - 1]) then [xs[|xs| - 1]] else [])
  }

  lemma {:induction false} FilterConcat<T>(p: T -> bool, xs: seq<T>, ys: seq<T>)
    ensures Filter(p, xs + ys) == Filter(p, xs) + Filter(p, ys)
  {
    if ys == [] {
      assert xs + ys == xs;
    } else {
      FilterConcat(p, xs, ys[..|ys| - 1]);
      assert (xs + ys)[..|xs + ys| - 1] == xs + ys[..|ys| - 1];
    }
  }

  lemma {:induction false} FilterNone<T>(p: T -> bool, xs: seq<T>)
    requires forall x | x in xs :: !p(x)
    ensures Filter(p, xs) == []
  {
    if xs != [] { FilterNone(p, xs[..|xs| - 1]); }
  }

  lemma SameMembers<T>(xs: seq<T>, ys: seq<T>)
    requires multiset(xs) == multiset(ys)
    ensures |xs| == |ys| && forall x :: x in xs <==> x in ys
  {
    assert |xs| == |multiset(xs)|;
    assert forall x :: x in xs <==> x in multiset(xs);
    assert forall x :: x in ys <==> x in multiset(ys);
  }

  lemma SortOne<T>(before: (T, T) -> bool, xs: seq<T>)
    requires |xs| <= 1
    ensures Sort(before, xs) == xs
  {
    if |xs| == 1 {
      assert xs[..|xs| - 1] == [];
      assert Sort(before, xs[..|xs| - 1]) == [];
    }
  }

  lemma {:induction false} InsertPermutes<T>(before: (T, T) -> bool, x: T, xs: seq<T>)
    ensures multiset(Insert(before, x, xs)) == multiset(xs) + multiset{x}
    ensures |Insert(before, x, xs)| == |xs| + 1
  {
    if !(xs == [] || before(x, xs[0])) {
      InsertPermutes(before, x, xs[1..]);
      assert xs == [xs[0]] + xs[1..];
    }
  }

  lemma {:induction false} SortPermutes<T>(before: (T, T) -> bool, xs: seq<T>)
    ensures multiset(Sort(before, xs)) == multiset(xs)
    ensures |Sort(before, xs)| == |xs|
    ensures forall x :: x in Sort(before, xs) <==> x in xs
  {
    if xs != [] {
      var init, x := xs[..|xs| - 1], xs[|xs| - 1];
      SortPermutes(before, init);
      InsertPermutes(before, x, Sort(before, init));
      assert xs == init + [x];
    }
    SameMembers(Sort(before, xs), xs);
  }

  lemma {:induction false} InsertOrders<T(!new)>(before: (T, T) -> bool, x: T, xs: seq<T>)
    requires WeakOrder(before) && Ordered(before, xs)
    ensures Ordered(before, Insert(before, x, xs))
  {
    if xs == [] {
    } else if before(x, xs[0]) {
      forall b | 0 <= b < |xs| ensures !before(xs[b], x) {
        if b > 0 { assert !before(xs[b], xs[0]); }
      }
    } else {
      InsertOrders(before, x, xs[1..]);
      InsertPermutes(before, x, xs[1..]);
      var rest := Insert(before, x, xs[1..]);
      forall b | 0 <= b < |rest| ensures !before(rest[b], xs[0]) {
        assert rest[b] in multiset(rest);
        if rest[b] != x { assert rest[b] in xs[1..]; }
      }
    }
  }

  lemma {:induction false} SortOrders<T(!new)>(before: (T, T) -> bool, xs: seq<T>)
    requires WeakOrder(before)
    ensures Ordered(before, Sort(before, xs))
  {
    if xs != [] {
      SortOrders(before, xs[..|xs| - 1]);
      InsertOrders(before, xs[|xs| - 1], Sort(before, xs[..|xs| - 1]));
    }
  }

  lemma NoTiesBehind<T(!new)>(before: (T, T) -> bool, x: T, xs: seq<T>, p: T -> bool)
    requires WeakOrder(before) && Ordered(before, xs) && xs != [] && before(x, xs[0]) && p(x)
    requires forall y, z | p(y) && p(z) :: !before(y, z)
    ensures Filter(p, xs) == []
  {
    forall b | 0 <= b < |xs| ensures !p(xs[b]) {
      if b > 0 { assert !before(xs[b], xs[0]); }
    }
    FilterNone(p, xs);
  }

  lemma Regroup<T>(xs: seq<T>, ys: seq<T>, zs: seq<T>)
    ensures xs + (ys + zs) == (xs + ys) + zs
  {
  }

  lemma {:induction false} InsertAfterTies<T(!new)>(before: (T, T) -> bool, x: T, xs: seq<T>, p: T -> bool)
    requires WeakOrder(before) && Ordered(before, xs)
    requires forall y, z | p(y) && p(z) :: !before(y, z)
    ensures Filter(p, Insert(before, x, xs)) == Filter(p, xs) + Filter(p, [x])
  {
    if xs == [] {
    } else if before(x, xs[0]) {
      FilterConcat(p, [x], xs);
      if p(x) { NoTiesBehind(before, x, xs, p); } else { assert Filter(p, [x]) == []; }
    } else {
      var head, rest := [xs[0]], xs[1..];
      InsertAfterTies(before, x, rest, p);
      FilterConcat(p, head, Insert(before, x, rest));
      FilterConcat(p, head, rest);
      assert xs == head + rest && Insert(before, x, xs) == head + Insert(before, x, rest);
      Regroup(Filter(p, head), Filter(p, rest), Filter(p, [x]));
    }
  }

  /** Stability: any set of mutually tied elements keeps its input order. */
  lemma {:induction false} SortKeepsTies<T(!new)>(before: (T, T) -> bool, xs: seq<T>, p: T -> bool)
    requires WeakOrder(before)
    requires forall y, z | p(y) && p(z) :: !before(y, z)
    ensures Filter(p, Sort(before, xs)) == Filter(p, xs)
  {
    if xs != [] {
      var init, x := xs[..|xs| - 1], xs[|xs| - 1];
      SortKeepsTies(before, init, p);
      SortOrders(before, init);
      InsertAfterTies(before, x, Sort(before, init), p);
      FilterConcat(p, init, [x]);
      assert xs == init + [x];
    }
  }

  // ---------------------------------------------------------------- sorting an increasing list of indices

  /** Stable precedence of indices: strictly before, or tied and the smaller index. */
  predicate Precedes(before: (nat, nat) -> bool, i: nat, j: nat) {
    before(i, j) || (!before(j, i) && i < j)
  }

  ghost predicate Increasing(xs: seq<nat>) {
    forall a, b | 0 <= a < b < |xs| :: xs[a] < xs[b]
  }

  ghost predicate Sorted(before: (nat, nat) -> bool, xs: seq<nat>) {
    forall a, b | 0 <= a < b < |xs| :: Precedes(before, xs[a], xs[b])
  }

  lemma {:induction false} InsertLargest(before: (nat, nat) -> bool, x: nat, xs: seq<nat>)
    requires WeakOrder(before) && Sorted(before, xs)
    requires forall y | y in xs :: y < x
    ensures Sorted(before, Insert(before, x, xs))
  {
    if xs == [] {
    } else if before(x, xs[0]) {
      forall b | 0 <= b < |xs| ensures Precedes(before, x, xs[b]) {
        if b > 0 { assert Precedes(before, xs[0], xs[b]); }
      }
    } else {
      assert forall y | y in xs[1..] :: y in xs;
      InsertLargest(before, x, xs[1..]);
      InsertPermutes(before, x, xs[1..]);
      var rest := Insert(before, x, xs[1..]);
      forall b | 0 <= b < |rest| ensures Precedes(before, xs[0], rest[b]) {
        assert rest[b] in multiset(rest);
        if rest[b] != x { assert rest[b] in xs[1..]; }
        assert xs[0] in xs;
      }
    }
  }

  /** An increasing list of indices is sorted by stable precedence. */
  lemma {:induction false} SortIndices(before: (nat, nat) -> bool, xs: seq<nat>)
    requires WeakOrder(before) && Increasing(xs)
    ensures Sorted(before, Sort(before, xs))
  {
    if xs != [] {
      var init, x := xs[..|xs| - 1], xs[|xs| - 1];
      SortIndices(before, init);
      SortPermutes(before, init);
      assert forall y | y in Sort(before, init) :: y in init && y < x;
      InsertLargest(before, x, Sort(before, init));
    }
  }

  function Elems(xs: seq<nat>): set<nat> {
    set j | j in xs
  }

  /** The members of `xs` that precede index `i`. */
  function Ahead(before: (nat, nat) -> bool, xs: seq<nat>, i: nat): set<nat> {
    set j | j in xs && Precedes(before, j, i)
  }

  /** An index sits at the position counting the indices that precede it. */
  lemma PositionCounts(before: (nat, nat) -> bool, xs: seq<nat>, a: nat)
    requires WeakOrder(before) && Sorted(before, xs) && a < |xs|
    ensures Ahead(before, xs, xs[a]) == Elems(xs[..a])
    ensures |Ahead(before, xs, xs[a])| == a
  {
    forall j ensures j in Ahead(before, xs, xs[a]) <==> j in Elems(xs[..a]) {
      if j in xs {
        var b :| 0 <= b < |xs| && xs[b] == j;
        if b < a { assert j == xs[..a][b]; }
      }
    }
    DistinctPrefix(before, xs, a);
  }

  lemma {:induction false} DistinctPrefix(before: (nat, nat) -> bool, xs: seq<nat>, a: nat)
    requires WeakOrder(before) && Sorted(before, xs) && a <= |xs|
    ensures |Elems(xs[..a])| == a
  {
    if a > 0 {
      DistinctPrefix(before, xs, a - 1);
      var shorter, last := xs[..a - 1], xs[a - 1];
      assert xs[..a] == shorter + [last];
      assert last !in Elems(shorter) by {
        forall b | 0 <= b < a - 1 ensures shorter[b] != last { assert Precedes(before, xs[b], last); }
      }
      assert Elems(shorter + [last]) == Elems(shorter) + {last};
    }
  }
}
