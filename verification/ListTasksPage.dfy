/**
 Capping a compact task page by its size and saying how to continue
 (internal/mcp/list_tasks.go:198-257). A row is its serialized bytes.
 */
module ListTasksPage {
  import opened Wrappers

  const CHAR_BUDGET: nat := 2500

  type Row = Bytes

  /** The next request: page number `page` of size `limit`. */
  datatype Next = Next(limit: int, page: int)

  /** The serialized size of the first n rows, separators included. */
  function Used(rows: seq<Row>, n: nat): nat
    requires n <= |rows|
  {
    if n == 0 then 0 else Used(rows, n - 1) + |rows[n - 1]| + 1
  }

  /** n rows may be shown together: one always, more only within the budget. */
  predicate Affordable(rows: seq<Row>, n: nat)
    requires n <= |rows|
  {
    n <= 1 || Used(rows, n) <= CHAR_BUDGET
  }

  /** k divides the page's start offset, so page start/k + 2 of size k begins k rows later. */
  predicate Addressable(start: nat, k: nat) {
    k >= 1 && start % k == 0
  }

  // ---------------------------------------------------------------- the cap

  class Page {
    var items: seq<Row>
    var truncatedTo: Option<nat>
    var next: Option<Next>

    constructor (items: seq<Row>)
      ensures this.items == items && truncatedTo == None && next == None
    {
      this.items := items;
      truncatedTo, next := None, None;
    }
  }

  /** The number of rows that fit: the accumulating loop. */
  method CountFit(rows: seq<Row>) returns (fit: nat)
    requires |rows| >= 1
    ensures 1 <= fit <= |rows| && Affordable(rows, fit)
    ensures fit < |rows| ==> !Affordable(rows, fit + 1)
  {
    fit := 0;
    var used := 0;
    while fit < |rows|
      invariant 0 <= fit <= |rows| && used == Used(rows, fit)
      invariant Affordable(rows, fit)
    {
      if fit > 0 && used + |rows[fit]| + 1 > CHAR_BUDGET { break; }
      used := used + |rows[fit]| + 1;
      fit := fit + 1;
    }
  }

  /** The largest divisor of start that is at most fit: the decrementing loop. */
  method LargestDivisor(start: nat, fit: nat) returns (keep: nat)
    requires fit >= 1
    ensures keep <= fit && Addressable(start, keep)
    ensures forall k | keep < k <= fit :: !Addressable(start, k)
  {
    keep := fit;
    while keep > 1 && start % keep != 0
      invariant 1 <= keep <= fit
      invariant forall k | keep < k <= fit :: !Addressable(start, k)
    {
      keep := keep - 1;
    }
  }

  /** The offset at which the capped page starts, when it can be known. */
  function StartOffset(rows: seq<Row>, limit: int, pageNo: int): Option<nat> {
    var page := if pageNo < 1 then 1 else pageNo;
    if limit < 1 then (if page > 1 then None else Some(0))
    else Some((page - 1) * (if limit < |rows| then |rows| else limit))
  }

  /** The page is cut to `keep` rows: as many as are affordable and leave the rest addressable. */
  ghost predicate CutTo(rows: seq<Row>, start: nat, keep: nat) {
    && 1 <= keep < |rows|
    && Affordable(rows, keep) && Addressable(start, keep)
    && (forall k | keep < k <= |rows| :: !Affordable(rows, k) || !Addressable(start, k))
  }

  /** capListTasksPage rewrites the page in place. */
  method CapListTasksPage(page: Page, limit: int, pageNo: int)
    modifies page
    ensures var rows, start := old(page.items), StartOffset(old(page.items), limit, pageNo);
            if |rows| < 2 || Affordable(rows, |rows|) || start.None? then
              page.items == rows && page.truncatedTo == old(page.truncatedTo) && page.next == old(page.next)
            else
              && var keep := |page.items|;
                 && CutTo(rows, start.value, keep) && page.items == rows[..keep]
                 && page.truncatedTo == Some(keep) && page.next == Some(Next(keep, start.value / keep + 2))
  {
    var rows := page.items;
    if |rows| < 2 { return; }
    var fit := CountFit(rows);
    if fit >= |rows| { return; }
    UnaffordableBeyond(rows, fit);
    var pageNo' := if pageNo < 1 then 1 else pageNo;
    var limit' := limit;
    if limit' < 1 {
      if pageNo' > 1 { return; }
      limit' := |rows|;
    }
    if limit' < |rows| { limit' := |rows|; }
    var start := (pageNo' - 1) * limit';
    var keep := LargestDivisor(start, fit);
    AffordableBelow(rows, keep, fit);
    page.items := rows[..keep];
    page.truncatedTo := Some(keep);
    page.next := Some(Next(keep, start / keep + 2));
  }

  lemma {:induction false} UsedMonotone(rows: seq<Row>, m: nat, n: nat)
    requires m <= n <= |rows|
    ensures Used(rows, m) <= Used(rows, n)
  {
    if m < n { UsedMonotone(rows, m, n - 1); }
  }

  lemma AffordableBelow(rows: seq<Row>, m: nat, n: nat)
    requires m <= n <= |rows| && Affordable(rows, n)
    ensures Affordable(rows, m)
  {
    UsedMonotone(rows, m, n);
  }

  lemma UnaffordableBeyond(rows: seq<Row>, fit: nat)
    requires 1 <= fit < |rows| && !Affordable(rows, fit + 1)
    ensures forall k | fit < k <= |rows| :: !Affordable(rows, k)
  {
    forall k | fit < k <= |rows| ensures !Affordable(rows, k) { UsedMonotone(rows, fit + 1, k); }
  }

  // ---------------------------------------------------------------- walking the pages

  /** The page size the server uses; a request without one gets the server's default. */
  function Size(limit: int, default: nat): nat {
    if limit < 1 then default else limit
  }

  /** A server over a fixed list: rows (p-1)*L to p*L. */
  function Serve(rows: seq<Row>, size: nat, page: nat): seq<Row>
    requires page >= 1
  {
    var from, to := Min((page - 1) * size, |rows|), Min(page * size, |rows|);
    if from <= to then rows[from..to] else []
  }

  /** What the caller is shown of a page, and where to go next. */
  ghost predicate Shown(served: seq<Row>, limit: int, page: nat, shown: seq<Row>, next: Option<Next>) {
    var start := StartOffset(served, limit, page);
    if |served| < 2 || Affordable(served, |served|) || start.None? then shown == served && next == None
    else
      && CutTo(served, start.value, |shown|) && shown == served[..|shown|]
      && next == Some(Next(|shown|, start.value / |shown| + 2))
  }

  /** Any run of a caller that follows `next` when there is one and turns the page otherwise, until a page is empty. */
  datatype Visit = Visit(limit: int, page: nat, shown: seq<Row>, next: Option<Next>)

  ghost predicate Walk(rows: seq<Row>, default: nat, visits: seq<Visit>) {
    && |visits| >= 1 && visits[0].page == 1
    && (forall i | 0 <= i < |visits| :: Answered(rows, default, visits[i]))
    && (forall i | 0 <= i < |visits| - 1 :: visits[i].shown != [] && Follows(visits[i], visits[i + 1]))
  }

  ghost predicate Answered(rows: seq<Row>, default: nat, v: Visit) {
    v.page >= 1 && Shown(Serve(rows, Size(v.limit, default), v.page), v.limit, v.page, v.shown, v.next)
  }

  ghost predicate Follows(v: Visit, w: Visit) {
    match v.next
    case Some(n) => w.limit == n.limit && w.page == n.page
    case None => w.limit == v.limit && w.page == v.page + 1
  }

  /** The first row of a page. */
  function Offset(v: Visit, default: nat): nat
    requires v.page >= 1
  {
    (v.page - 1) * Size(v.limit, default)
  }

  function Delivered(visits: seq<Visit>): seq<Row> {
    if visits == [] then [] else Delivered(visits[..|visits| - 1]) + visits[|visits| - 1].shown
  }

  lemma DivisorTimesQuotient(start: nat, k: nat)
    requires k >= 1 && start % k == 0
    ensures (start / k) * k == start
    ensures (start / k + 1) * k == start + k
  {
  }

  lemma ServedRows(rows: seq<Row>, size: nat, page: nat)
    requires page >= 1 && (page - 1) * size <= |rows|
    ensures page * size == (page - 1) * size + size
    ensures Serve(rows, size, page) == rows[(page - 1) * size..Min((page - 1) * size + size, |rows|)]
  {
    assert page * size == (page - 1) * size + size;
  }

  /** The continuation of a cut page begins exactly at its first dropped row. */
  lemma CutContinues(served: seq<Row>, limit: int, page: nat, size: nat, shown: seq<Row>, next: Option<Next>)
    requires page >= 1 && (limit >= 1 ==> size == limit) && |served| <= size
    requires Shown(served, limit, page, shown, next) && next.Some?
    ensures 1 <= |shown| < |served| && shown == served[..|shown|]
    ensures next.value.limit == |shown| && next.value.page >= 1
    ensures (next.value.page - 1) * |shown| == (page - 1) * size + |shown|
  {
    var start := StartOffset(served, limit, page).value;
    StartIsOffset(served, limit, page, size);
    DivisorTimesQuotient(start, |shown|);
  }

  /** The next page begins exactly at the first row not shown, and at least one row was shown. */
  lemma NextBeginsAfterShown(rows: seq<Row>, default: nat, v: Visit, w: Visit)
    requires default >= 1 && Answered(rows, default, v) && Offset(v, default) <= |rows|
    requires Follows(v, w) && v.shown != []
    ensures w.page >= 1
    ensures var o := Offset(v, default);
            && o + |v.shown| <= |rows| && v.shown == rows[o..o + |v.shown|]
            && Min(Offset(w, default), |rows|) == o + |v.shown|
  {
    var size := Size(v.limit, default);
    ServedRows(rows, size, v.page);
    var served := Serve(rows, size, v.page);
    if v.next.Some? {
      CutContinues(served, v.limit, v.page, size, v.shown, v.next);
    } else {
      assert v.shown == served;
    }
  }

  /** On a page no longer than asked for, the known start offset is the true one. */
  lemma StartIsOffset(served: seq<Row>, limit: int, page: nat, size: nat)
    requires page >= 1 && (limit >= 1 ==> size == limit) && |served| <= size
    requires StartOffset(served, limit, page).Some?
    ensures StartOffset(served, limit, page) == Some((page - 1) * size)
  {
  }

  /** The number of rows in front of a page. */
  function Reach(rows: seq<Row>, default: nat, v: Visit): nat
    requires v.page >= 1
  {
    Min(Offset(v, default), |rows|)
  }

  /** A page shows nothing exactly when no row is left; otherwise the next one begins where its rows end. */
  lemma PageShowsNext(rows: seq<Row>, default: nat, v: Visit)
    requires default >= 1 && Answered(rows, default, v)
    ensures v.shown == [] <==> Reach(rows, default, v) == |rows|
    ensures forall w | v.shown != [] && Follows(v, w) ::
              && w.page >= 1 && Reach(rows, default, w) == Reach(rows, default, v) + |v.shown|
              && v.shown == rows[Reach(rows, default, v)..Reach(rows, default, w)]
  {
    var size := Size(v.limit, default);
    assert v.page * size == (v.page - 1) * size + size;
    forall w | v.shown != [] && Follows(v, w)
      ensures && w.page >= 1 && Reach(rows, default, w) == Reach(rows, default, v) + |v.shown|
              && v.shown == rows[Reach(rows, default, v)..Reach(rows, default, w)]
    {
      NextBeginsAfterShown(rows, default, v, w);
    }
  }

  /** Before its last page a walk has delivered exactly the rows in front of that page. */
  lemma {:induction false} WalkDeliversPrefix(rows: seq<Row>, default: nat, visits: seq<Visit>)
    requires default >= 1 && Walk(rows, default, visits)
    ensures var last := visits[|visits| - 1];
            && Delivered(visits[..|visits| - 1]) == rows[..Reach(rows, default, last)]
            && |visits| - 1 <= Reach(rows, default, last)
  {
    var n := |visits| - 1;
    if n > 0 {
      WalkFront(rows, default, visits);
      WalkDeliversPrefix(rows, default, visits[..n]);
      PageShowsNext(rows, default, visits[n - 1]);
      assert visits[..n] == visits[..n][..n - 1] + [visits[n - 1]];
      TurnDelivers(rows, visits[..n][..n - 1], visits[n - 1],
                   Reach(rows, default, visits[n - 1]), Reach(rows, default, visits[n]));
    }
  }

  lemma WalkFront(rows: seq<Row>, default: nat, visits: seq<Visit>)
    requires Walk(rows, default, visits) && |visits| > 1
    ensures var n := |visits| - 1;
            && Walk(rows, default, visits[..n]) && visits[n - 1].shown != [] && Follows(visits[n - 1], visits[n])
  {
    var n := |visits| - 1;
    assert visits[n - 1 + 1] == visits[n];
  }

  /** One turn of a walk. */
  lemma TurnDelivers(rows: seq<Row>, before: seq<Visit>, v: Visit, from: nat, to: nat)
    requires |before| <= from < to <= |rows| && v.shown == rows[from..to] && Delivered(before) == rows[..from]
    ensures Delivered(before + [v]) == rows[..to] && |before| + 1 <= to
  {
    assert rows[..from] + rows[from..to] == rows[..to];
    assert (before + [v])[..|before|] == before;
  }

  /**
   A walk ends within |rows| + 1 pages, and one that has reached its empty page
   has delivered every row exactly once, in order.
   */
  lemma {:induction false} WalkDeliversEveryRowOnce(rows: seq<Row>, default: nat, visits: seq<Visit>)
    requires default >= 1 && Walk(rows, default, visits)
    ensures |visits| <= |rows| + 1
    ensures visits[|visits| - 1].shown == [] <==> Reach(rows, default, visits[|visits| - 1]) == |rows|
    ensures visits[|visits| - 1].shown == [] ==> Delivered(visits) == rows
  {
    WalkDeliversPrefix(rows, default, visits);
    PageShowsNext(rows, default, visits[|visits| - 1]);
  }

  /** The first n rows laid end to end, a separator after each. */
  function LaidOut(rows: seq<Row>, n: nat, separator: Byte): Bytes
    requires n <= |rows|
  {
    if n == 0 then [] else LaidOut(rows, n - 1, separator) + rows[n - 1] + [separator]
  }

  lemma {:induction false} UsedIsLaidOut(rows: seq<Row>, n: nat, separator: Byte)
    requires n <= |rows|
    ensures Used(rows, n) == |LaidOut(rows, n, separator)|
  {
    if n > 0 { UsedIsLaidOut(rows, n - 1, separator); }
  }

  /** A page that was cut to two or more rows is within 2500 bytes, separators included. */
  lemma TruncatedPageFits(served: seq<Row>, limit: int, page: nat, shown: seq<Row>, next: Option<Next>, separator: Byte)
    requires Shown(served, limit, page, shown, next) && next.Some? && |shown| >= 2
    ensures |LaidOut(shown, |shown|, separator)| <= 2500
  {
    UsedOfPrefix(served, |shown|, |shown|);
    UsedIsLaidOut(shown, |shown|, separator);
  }

  /**
   When and how a page is cut, in bytes: it is shown whole if it has one row, fits, or is
   a later page whose start is unknown; otherwise any more rows would be too long or
   would not divide the start.
   */
  lemma CutMeans(served: seq<Row>, limit: int, page: nat, shown: seq<Row>, next: Option<Next>, separator: Byte)
    requires Shown(served, limit, page, shown, next)
    ensures next.None? <==>
              |served| < 2 || |LaidOut(served, |served|, separator)| <= 2500 || (limit < 1 && page > 1)
    ensures next.None? ==> shown == served
    ensures next.Some? ==>
              && 1 <= |shown| < |served| && shown == served[..|shown|]
              && forall k: nat | |shown| < k <= |served| ::
                   || |LaidOut(served, k, separator)| > 2500
                   || (page > 1 && ((page - 1) * (if limit < |served| then |served| else limit)) % k != 0)
  {
    UsedIsLaidOut(served, |served|, separator);
    if next.Some? {
      forall k: nat | |shown| < k <= |served|
        ensures || |LaidOut(served, k, separator)| > 2500
                || (page > 1 && ((page - 1) * (if limit < |served| then |served| else limit)) % k != 0)
      {
        UsedIsLaidOut(served, k, separator);
        CutIsLargest(served, StartOffset(served, limit, page).value, |shown|, k);
      }
    }
  }

  lemma CutIsLargest(rows: seq<Row>, start: nat, keep: nat, k: nat)
    requires CutTo(rows, start, keep) && keep < k <= |rows|
    ensures Used(rows, k) > 2500 || start % k != 0
    ensures start == 0 ==> Used(rows, k) > 2500
  {
    assert !Affordable(rows, k) || !Addressable(start, k);
  }

  lemma {:induction false} UsedOfPrefix(rows: seq<Row>, keep: nat, n: nat)
    requires n <= keep <= |rows|
    ensures Used(rows[..keep], n) == Used(rows, n)
  {
    if n > 0 { UsedOfPrefix(rows, keep, n - 1); }
  }

  /** The caller itself: it always finishes, whatever page size it begins with. */
  method WalkAll(rows: seq<Row>, default: nat, limit: int) returns (delivered: seq<Row>, ghost visits: seq<Visit>)
    requires default >= 1
    ensures delivered == rows
    ensures Walk(rows, default, visits) && visits[0].limit == limit && visits[|visits| - 1].shown == []
  {
    var visit := ShowPage(rows, default, limit, 1);
    delivered, visits := visit.shown, [visit];
    assert Delivered(visits[..0]) == [];
    WalkDeliversEveryRowOnce(rows, default, visits);
    while visit.shown != []
      invariant Walk(rows, default, visits) && visits[|visits| - 1] == visit && visits[0].limit == limit
      invariant delivered == Delivered(visits) && |visits| <= |rows| + 1
      invariant visit.shown == [] ==> delivered == rows
      decreases |rows| + 1 - |visits|
    {
      visit := TurnPage(rows, default, visit);
      delivered := delivered + visit.shown;
      WalkSnoc(rows, default, visits, visit);
      Extended(rows, default, visits, visit);
      visits := visits + [visit];
    }
  }

  lemma WalkSnoc(rows: seq<Row>, default: nat, visits: seq<Visit>, v: Visit)
    requires Walk(rows, default, visits) && Answered(rows, default, v)
    requires visits[|visits| - 1].shown != [] && Follows(visits[|visits| - 1], v)
    ensures Walk(rows, default, visits + [v])
  {
    var longer := visits + [v];
    forall i | 0 <= i < |longer| ensures Answered(rows, default, longer[i]) {
      if i < |visits| { assert longer[i] == visits[i]; }
    }
    forall i | 0 <= i < |longer| - 1 ensures longer[i].shown != [] && Follows(longer[i], longer[i + 1]) {
      assert longer[i] == visits[i];
      if i + 1 < |visits| { assert longer[i + 1] == visits[i + 1]; }
    }
  }

  lemma Extended(rows: seq<Row>, default: nat, visits: seq<Visit>, v: Visit)
    requires default >= 1 && Walk(rows, default, visits + [v])
    ensures Delivered(visits + [v]) == Delivered(visits) + v.shown
    ensures |visits| <= |rows| && (v.shown == [] ==> Delivered(visits + [v]) == rows)
  {
    assert (visits + [v])[..|visits|] == visits;
    WalkDeliversEveryRowOnce(rows, default, visits + [v]);
  }

  method TurnPage(rows: seq<Row>, default: nat, v: Visit) returns (w: Visit)
    requires default >= 1 && Answered(rows, default, v) && v.shown != []
    ensures Answered(rows, default, w) && Follows(v, w)
  {
    var turned := if v.next.Some? then v.next.value else Next(v.limit, v.page + 1);
    assert Follows(v, Visit(turned.limit, turned.page, [], None));
    PageShowsNext(rows, default, v);
    w := ShowPage(rows, default, turned.limit, turned.page);
  }

  method ShowPage(rows: seq<Row>, default: nat, limit: int, pageNo: int) returns (v: Visit)
    requires pageNo >= 1
    ensures v.limit == limit && v.page == pageNo && Answered(rows, default, v)
  {
    var page := new Page(Serve(rows, Size(limit, default), pageNo));
    CapListTasksPage(page, limit, pageNo);
    v := Visit(limit, pageNo, page.items, page.next);
  }
}
