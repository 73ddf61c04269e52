/**
 Comments newer than a cursor: the complete newest-first walk, then one page of
 what it found (internal/mcp/compact_read.go:69-163).
 */
module CommentsAfter {
  import opened Wrappers

  const WALK_PAGES: nat := 1000
  const MAX_COLLECTED: nat := 0x3E8_0000_0000 // WALK_PAGES full pages
  const DEFAULT_LIMIT: int64 := 10
  const MAX_LIMIT: int64 := 200

  /** Go's int. */
  newtype int64 = x: int | -0x8000_0000_0000_0000 <= x < 0x8000_0000_0000_0000

  /** An element of a served page: an id, a creation time that may not parse, and its text. */
  datatype Item = NotAnObject | Comment(id: Option<string>, at: Option<int>, text: string)

  /** What is after the cursor; the cursor's text is parsed by the caller. */
  datatype Cursor = At(stamp: int) | Uuid(id: string) | Malformed

  datatype Order = Asc | Desc | Unknown

  datatype Request = Request(after: Cursor, order: Order, pageSize: Option<int64>, page: Option<int64>)

  /** A decoded page fits in memory. */
  type Rows = rows: seq<Item> | |rows| < 0x1_0000_0000

  /** The API's answer for one page number; `items` is None when it is not a list. */
  datatype Answer = Failed | Page(total: Option<int>, items: Option<Rows>, hasMore: bool)

  type Server = nat -> Answer

  datatype Failure =
    | MalformedCursor | BadOrder | ApiError | ChangedDuringWalk | InvalidPage | InvalidItem
    | InvalidTimestamp | EmptyPageClaimsMore | CursorNotFound | TooManyPages

  datatype Listing = Listing(items: seq<Item>, page: int64, pageSize: int64,
                             totalCount: int64, totalPages: int64, hasMore: bool)

  datatype Scanned = Scanned(newer: seq<Item>, found: bool)

  // ---------------------------------------------------------------- specification of one call

  function Limit(pageSize: Option<int64>): (limit: int64)
    ensures 1 <= limit <= MAX_LIMIT
  {
    match pageSize
    case Some(n) => if n > MAX_LIMIT then MAX_LIMIT else if n > 0 then n else DEFAULT_LIMIT
    case None => DEFAULT_LIMIT
  }

  function PageNo(page: Option<int64>): (n: int64)
    ensures n >= 1
  {
    match page
    case Some(n) => if n > 0 then n else 1
    case None => 1
  }

  /** One served page read from the top: up to the cursor, or the newer ones of all. */
  function Scan(rows: seq<Item>, after: Cursor, newer: seq<Item>): Result<Scanned, Failure>
    requires !after.Malformed?
  {
    if rows == [] then Ok(Scanned(newer, false))
    else if rows[0].NotAnObject? then Err(InvalidItem)
    else if after.Uuid? then
      if rows[0].id == Some(after.id) then Ok(Scanned(newer, true)) else Scan(rows[1..], after, newer + [rows[0]])
    else if rows[0].at.None? then Err(InvalidTimestamp)
    else Scan(rows[1..], after, if rows[0].at.value > after.stamp then newer + [rows[0]] else newer)
  }

  /** The walk from page n on, with what earlier pages gave. */
  function WalkFrom(server: Server, after: Cursor, n: nat, total: Option<int>, newer: seq<Item>)
    : Result<seq<Item>, Failure>
    requires !after.Malformed?
    decreases WALK_PAGES + 1 - n
  {
    if n > WALK_PAGES then Err(TooManyPages)
    else match server(n)
      case Failed => Err(ApiError)
      case Page(count, items, hasMore) =>
        if n > 1 && count != total then Err(ChangedDuringWalk)
        else if items.None? then Err(InvalidPage)
        else match Scan(items.value, after, newer)
          case Err(e) => Err(e)
          case Ok(s) =>
            if hasMore && |items.value| == 0 then Err(EmptyPageClaimsMore)
            else if s.found || !hasMore then
              (if after.Uuid? && !s.found then Err(CursorNotFound) else Ok(s.newer))
            else WalkFrom(server, after, n + 1, count, s.newer)
  }

  function Reversed(xs: seq<Item>): seq<Item> {
    if xs == [] then [] else Reversed(xs[1..]) + [xs[0]]
  }

  function Ordered(xs: seq<Item>, order: Order): seq<Item> {
    if order == Asc then Reversed(xs) else xs
  }

  /** Page number `page`, of `limit` items, of a list. */
  function Slice(xs: seq<Item>, page: nat, limit: nat): seq<Item>
    requires page >= 1
  {
    var from := (page - 1) * limit;
    if from >= |xs| then [] else if |xs| - from <= limit then xs[from..] else xs[from..from + limit]
  }

  /** The least number of pages that holds that many items. */
  ghost predicate PageCount(count: nat, limit: nat, pages: nat) {
    pages * limit >= count && (pages > 0 ==> (pages - 1) * limit < count)
  }

  ghost predicate IsPage(l: Listing, xs: seq<Item>, page: int64, limit: int64)
    requires page >= 1 && limit >= 1
  {
    && l.items == Slice(xs, page as nat, limit as nat)
    && l.page == page && l.pageSize == limit && l.totalCount as int == |xs|
    && l.totalPages >= 0 && PageCount(|xs|, limit as nat, l.totalPages as nat)
    && (l.hasMore <==> page < l.totalPages)
  }

  /** What a call answers, whatever the API says. */
  ghost predicate Answers(server: Server, r: Request, result: Result<Listing, Failure>) {
    if r.after.Malformed? then result == Err(MalformedCursor)
    else if r.order.Unknown? then result == Err(BadOrder)
    else match WalkFrom(server, r.after, 1, None, [])
      case Err(e) => result == Err(e)
      case Ok(newer) => result.Ok? && IsPage(result.value, Ordered(newer, r.order), PageNo(r.page), Limit(r.pageSize))
  }

  // ---------------------------------------------------------------- the code

  method ScanPage(rows: Rows, after: Cursor, before: seq<Item>) returns (result: Result<Scanned, Failure>)
    requires !after.Malformed?
    ensures result == Scan(rows, after, before)
  {
    var newer := before;
    for k := 0 to |rows|
      invariant Scan(rows, after, before) == Scan(rows[k..], after, newer)
    {
      var item := rows[k];
      assert rows[k..][0] == item && rows[k..][1..] == rows[k + 1..];
      if item.NotAnObject? { return Err(InvalidItem); }
      if after.Uuid? {
        if item.id == Some(after.id) { return Ok(Scanned(newer, true)); }
        newer := newer + [item];
      } else {
        if item.at.None? { return Err(InvalidTimestamp); }
        if item.at.value > after.stamp { newer := newer + [item]; }
      }
    }
    return Ok(Scanned(newer, false));
  }

  method Walk(server: Server, after: Cursor) returns (result: Result<seq<Item>, Failure>)
    requires !after.Malformed?
    ensures result == WalkFrom(server, after, 1, None, [])
  {
    var newer, total := [], None;
    var n := 1;
    while n <= WALK_PAGES
      invariant 1 <= n <= WALK_PAGES + 1
      invariant WalkFrom(server, after, 1, None, []) == WalkFrom(server, after, n, total, newer)
    {
      var page := server(n);
      match page {
        case Failed => return Err(ApiError);
        case Page(count, items, hasMore) =>
          if n > 1 && count != total { return Err(ChangedDuringWalk); }
          total := count;
          if items.None? { return Err(InvalidPage); }
          var scan := ScanPage(items.value, after, newer);
          if scan.Err? { return Err(scan.error); }
          newer := scan.value.newer;
          if hasMore && |items.value| == 0 { return Err(EmptyPageClaimsMore); }
          if scan.value.found || !hasMore {
            if after.Uuid? && !scan.value.found { return Err(CursorNotFound); }
            return Ok(newer);
          }
      }
      n := n + 1;
    }
    return Err(TooManyPages);
  }

  lemma {:induction false} ScanBounded(rows: seq<Item>, after: Cursor, newer: seq<Item>)
    requires !after.Malformed? && Scan(rows, after, newer).Ok?
    ensures |Scan(rows, after, newer).value.newer| <= |newer| + |rows|
  {
    if rows != [] && !(after.Uuid? && rows[0].id == Some(after.id)) {
      ScanBounded(rows[1..], after,
                  if after.Uuid? || rows[0].at.value > after.stamp then newer + [rows[0]] else newer);
    }
  }

  /** However much the API sends, what a walk collects can be counted in an int64. */
  lemma {:induction false} WalkBounded(server: Server, after: Cursor, n: nat, total: Option<int>, newer: seq<Item>)
    requires !after.Malformed? && WalkFrom(server, after, n, total, newer).Ok?
    ensures |WalkFrom(server, after, n, total, newer).value| <= |newer| + (WALK_PAGES + 1 - n) * 0x1_0000_0000
    decreases WALK_PAGES + 1 - n
  {
    var page := server(n);
    var rows := page.items.value;
    ScanBounded(rows, after, newer);
    var s := Scan(rows, after, newer).value;
    if !s.found && page.hasMore { WalkBounded(server, after, n + 1, page.total, s.newer); }
  }

  lemma {:induction false} ReversedAt(xs: seq<Item>, k: nat)
    requires k < |xs|
    ensures |Reversed(xs)| == |xs| && Reversed(xs)[k] == xs[|xs| - 1 - k]
  {
    if |xs| > 1 { ReversedAt(xs[1..], if k < |xs| - 1 then k else 0); }
  }

  lemma ReversedIs(xs: seq<Item>, ys: seq<Item>)
    requires |xs| == |ys| && forall k | 0 <= k < |xs| :: ys[k] == xs[|xs| - 1 - k]
    ensures ys == Reversed(xs)
  {
    if xs != [] { ReversedAt(xs, 0); }
    forall k | 0 <= k < |xs| ensures Reversed(xs)[k] == ys[k] { ReversedAt(xs, k); }
  }

  /** The outer i items on either side have changed places. */
  ghost predicate HalfReversed(was: seq<Item>, now: seq<Item>, i: nat) {
    && |now| == |was| && 2 * i <= |was| + 1
    && (forall k | i <= k < |was| - i :: now[k] == was[k])
    && (forall k | 0 <= k < |was| && !(i <= k < |was| - i) :: now[k] == was[|was| - 1 - k])
  }

  lemma SwapReverses(was: seq<Item>, now: seq<Item>, i: nat)
    requires HalfReversed(was, now, i) && i < |was| - 1 - i
    ensures var j := |was| - 1 - i; HalfReversed(was, now[i := now[j]][j := now[i]], i + 1)
  {
  }

  method ReverseItems(items: array<Item>)
    modifies items
    ensures items[..] == Reversed(old(items[..]))
  {
    ghost var was := items[..];
    var i, j := 0, items.Length - 1;
    while i < j
      invariant 0 <= i <= j + 1 && j == |was| - 1 - i
      invariant HalfReversed(was, items[..], i)
    {
      SwapReverses(was, items[..], i);
      ghost var now := items[..];
      items[i], items[j] := items[j], items[i];
      assert items[..] == now[i := now[j]][j := now[i]];
      i, j := i + 1, j - 1;
    }
    ReversedIs(was, items[..]);
  }

  ghost predicate StartsAt(start: nat, count: nat, page: nat, limit: nat)
    requires page >= 1
  {
    var from := (page - 1) * limit;
    start == if from < count then from else count
  }

  /** Where the page starts; every intermediate value is an int64, whatever page is asked for. */
  method StartOf(count: int64, page: int64, limit: int64) returns (start: int64)
    requires count >= 0 && page >= 1 && 1 <= limit <= MAX_LIMIT
    ensures start >= 0 && StartsAt(start as nat, count as nat, page as nat, limit as nat)
  {
    start := count;
    var quotient := count / limit;
    if page - 1 <= quotient {
      QuotientBound(count as int, limit as int, page as int - 1);
      start := (page - 1) * limit;
    } else {
      BeyondQuotient(count as int, limit as int, page as int - 1);
    }
  }

  method PagesOf(count: int64, limit: int64) returns (pages: int64)
    requires 0 <= count <= MAX_COLLECTED as int64 && 1 <= limit <= MAX_LIMIT
    ensures pages >= 0 && PageCount(count as nat, limit as nat, pages as nat)
  {
    pages := (count + limit - 1) / limit;
    CeilingCounts(count as int, limit as int, pages as int);
  }

  method PageOf(items: seq<Item>, page: int64, limit: int64) returns (l: Listing)
    requires page >= 1 && 1 <= limit <= MAX_LIMIT && |items| <= MAX_COLLECTED
    ensures IsPage(l, items, page, limit)
  {
    var count := |items| as int64;
    var start := StartOf(count, page, limit);
    var end := start + limit;
    if end > count { end := count; }
    var pages := PagesOf(count, limit);
    l := Listing(items[start..end], page, limit, count, pages, end < count);
    PageFits(l, items, start as nat, end as nat);
  }

  lemma PageFits(l: Listing, xs: seq<Item>, start: nat, end: nat)
    requires l.page >= 1 && l.pageSize >= 1 && l.totalCount as int == |xs| && l.totalPages >= 0
    requires start <= end <= |xs| && l.items == xs[start..end] && (l.hasMore <==> end < |xs|)
    requires StartsAt(start, |xs|, l.page as nat, l.pageSize as nat)
    requires end == if start + l.pageSize as int <= |xs| then start + l.pageSize as int else |xs|
    requires PageCount(|xs|, l.pageSize as nat, l.totalPages as nat)
    ensures IsPage(l, xs, l.page, l.pageSize)
  {
    SliceAt(xs, l.page as nat, l.pageSize as nat, start, end);
    TurnsWhileMore(|xs|, l.pageSize as nat, l.totalPages as nat, l.page as nat);
  }

  lemma SliceAt(xs: seq<Item>, page: nat, limit: nat, start: nat, end: nat)
    requires page >= 1 && start <= end <= |xs|
    requires StartsAt(start, |xs|, page, limit)
    requires end == if start + limit <= |xs| then start + limit else |xs|
    ensures Slice(xs, page, limit) == xs[start..end]
    ensures end < |xs| <==> page * limit < |xs|
  {
    assert page * limit == (page - 1) * limit + limit;
  }

  lemma MultiplesGrow(a: nat, b: nat, d: nat)
    requires a <= b
    ensures a * d <= b * d
  {
  }

  lemma QuotientBound(n: nat, d: nat, q: nat)
    requires d >= 1 && q <= n / d
    ensures q * d <= n
  {
    assert n == (n / d) * d + n % d;
    MultiplesGrow(q, n / d, d);
  }

  lemma BeyondQuotient(n: nat, d: nat, q: nat)
    requires d >= 1 && q > n / d
    ensures q * d > n
  {
    assert (n / d + 1) * d > n;
    MultiplesGrow(n / d + 1, q, d);
  }

  lemma CeilingCounts(n: nat, d: nat, pages: nat)
    requires d >= 1 && pages == (n + d - 1) / d
    ensures PageCount(n, d, pages)
  {
    assert n + d - 1 == pages * d + (n + d - 1) % d;
  }

  lemma TurnsWhileMore(n: nat, d: nat, pages: nat, page: nat)
    requires d >= 1 && page >= 1
    requires PageCount(n, d, pages)
    ensures page * d < n <==> page < pages
  {
    if page < pages { MultiplesGrow(page, pages - 1, d); } else { MultiplesGrow(pages, page, d); }
  }

  method CommentsAfter(server: Server, r: Request) returns (result: Result<Listing, Failure>)
    ensures Answers(server, r, result)
  {
    if r.after.Malformed? { return Err(MalformedCursor); }
    var limit, page := DEFAULT_LIMIT, 1;
    if r.pageSize.Some? && r.pageSize.value > 0 { limit := r.pageSize.value; }
    if limit > MAX_LIMIT { limit := MAX_LIMIT; }
    if r.page.Some? && r.page.value > 0 { page := r.page.value; }
    if r.order.Unknown? { return Err(BadOrder); }
    var walked := Walk(server, r.after);
    if walked.Err? { return Err(walked.error); }
    WalkBounded(server, r.after, 1, None, []);
    var items := walked.value;
    if r.order == Asc {
      var buffer := new Item[|items|](i requires 0 <= i < |items| => items[i]);
      assert buffer[..] == items;
      ReverseItems(buffer);
      items := buffer[..];
    }
    var l := PageOf(items, page, limit);
    return Ok(l);
  }

  // ---------------------------------------------------------------- against a fixed thread

  /** The comments above the cursor: those before the named one, or those created later. */
  function Newer(thread: seq<Item>, after: Cursor): seq<Item>
    requires !after.Malformed? && Readable(thread, after)
  {
    if thread == [] then []
    else if after.Uuid? then (if thread[0].id == Some(after.id) then [] else [thread[0]] + Newer(thread[1..], after))
    else (if thread[0].at.value > after.stamp then [thread[0]] else []) + Newer(thread[1..], after)
  }

  predicate Has(thread: seq<Item>, after: Cursor) {
    after.Uuid? && exists i | 0 <= i < |thread| :: Names(thread[i], after)
  }

  predicate Names(item: Item, after: Cursor)
    requires after.Uuid?
  {
    item.Comment? && item.id == Some(after.id)
  }

  predicate Readable(thread: seq<Item>, after: Cursor) {
    forall i | 0 <= i < |thread| :: thread[i].Comment? && (after.At? ==> thread[i].at.Some?)
  }

  /** The number of comments on the first n pages of the walk, 200 each. */
  function Through(n: nat): nat {
    n * 200
  }

  /** The API over a thread that does not change: newest first, 200 a page. */
  function Served(thread: seq<Item>, n: nat): Answer {
    var to := Min(Through(n), |thread|);
    var from := if n == 0 then 0 else Min(Through(n - 1), |thread|);
    Page(Some(|thread|), Some(thread[from..to]), to < |thread|)
  }

  function ServerOf(thread: seq<Item>): Server {
    (n: nat) => Served(thread, n)
  }

  /** What the walk finds: the newer comments, or why they cannot be known. */
  function Found(thread: seq<Item>, after: Cursor): Result<seq<Item>, Failure>
    requires !after.Malformed? && Readable(thread, after)
  {
    var walked := thread[..Min(|thread|, Through(WALK_PAGES))];
    if Has(walked, after) then Ok(Newer(thread, after))
    else if |thread| > |walked| then Err(TooManyPages)
    else if after.Uuid? then Err(CursorNotFound)
    else Ok(Newer(thread, after))
  }

  /** Newer comments are found chunk by chunk; nothing below the named comment is. */
  lemma {:induction false} NewerConcat(xs: seq<Item>, ys: seq<Item>, after: Cursor)
    requires !after.Malformed? && Readable(xs, after) && Readable(ys, after)
    ensures Readable(xs + ys, after)
    ensures Newer(xs + ys, after) == if Has(xs, after) then Newer(xs, after) else Newer(xs, after) + Newer(ys, after)
  {
    if xs == [] {
      assert xs + ys == ys;
    } else {
      var head, rest := xs[0], xs[1..];
      assert (xs + ys)[0] == head && (xs + ys)[1..] == rest + ys;
      NewerConcat(rest, ys, after);
      if after.Uuid? { HasFirst(xs, after); }
    }
  }

  lemma HasFirst(xs: seq<Item>, after: Cursor)
    requires after.Uuid? && xs != []
    ensures Has(xs, after) <==> Names(xs[0], after) || Has(xs[1..], after)
  {
    HasSplit([xs[0]], xs[1..], after);
    assert xs == [xs[0]] + xs[1..] && [xs[0]][0] == xs[0];
  }

  lemma HasSplit(xs: seq<Item>, ys: seq<Item>, after: Cursor)
    requires after.Uuid?
    ensures Has(xs + ys, after) <==> Has(xs, after) || Has(ys, after)
  {
    forall i | 0 <= i < |xs| ensures Names(xs[i], after) ==> Has(xs + ys, after) { assert (xs + ys)[i] == xs[i]; }
    forall i | 0 <= i < |ys| ensures Names(ys[i], after) ==> Has(xs + ys, after) {
      assert (xs + ys)[|xs| + i] == ys[i];
    }
  }

  lemma {:induction false} ScanReadable(rows: seq<Item>, after: Cursor, newer: seq<Item>)
    requires !after.Malformed? && Readable(rows, after)
    ensures Scan(rows, after, newer) == Ok(Scanned(newer + Newer(rows, after), Has(rows, after)))
  {
    if rows != [] {
      if after.Uuid? { HasFirst(rows, after); }
      if after.Uuid? && rows[0].id == Some(after.id) {
        assert Names(rows[0], after) && newer + [] == newer;
      } else {
        var newer' := if after.Uuid? || rows[0].at.value > after.stamp then newer + [rows[0]] else newer;
        ScanReadable(rows[1..], after, newer');
        assert newer' + Newer(rows[1..], after) == newer + Newer(rows, after);
      }
    }
  }

  /** One page on: what is known after n pages is what the first n * 200 comments hold. */
  lemma {:induction false} PageExtendsPrefix(thread: seq<Item>, after: Cursor, from: nat, to: nat)
    requires from <= to <= |thread| && !after.Malformed? && Readable(thread, after)
    requires !Has(thread[..from], after)
    ensures Newer(thread[..to], after) == Newer(thread[..from], after) + Newer(thread[from..to], after)
    ensures Has(thread[..to], after) <==> Has(thread[from..to], after)
    ensures Has(thread[..to], after) ==> Newer(thread[..to], after) == Newer(thread, after)
  {
    assert thread[..to] == thread[..from] + thread[from..to];
    NewerConcat(thread[..from], thread[from..to], after);
    if after.Uuid? { HasSplit(thread[..from], thread[from..to], after); }
    assert thread == thread[..to] + thread[to..];
    NewerConcat(thread[..to], thread[to..], after);
  }

  lemma HasWithin(thread: seq<Item>, after: Cursor, to: nat, limit: nat)
    requires to <= limit <= |thread| && Has(thread[..to], after)
    ensures Has(thread[..limit], after)
  {
    assert thread[..limit] == thread[..to] + thread[to..limit];
    HasSplit(thread[..to], thread[to..limit], after);
  }

  /** One page of the walk over a fixed thread. */
  lemma PageOfThread(thread: seq<Item>, after: Cursor, n: nat, from: nat, to: nat)
    requires !after.Malformed? && Readable(thread, after) && 1 <= n <= WALK_PAGES
    requires from == Through(n - 1) && to == Min(Through(n), |thread|)
    requires from <= |thread| && (n > 1 ==> from < |thread|)
    requires !Has(thread[..from], after)
    ensures WalkFrom(ServerOf(thread), after, n, Some(|thread|), Newer(thread[..from], after)) ==
            if Has(thread[..to], after) then Ok(Newer(thread, after))
            else if to < |thread| then
              WalkFrom(ServerOf(thread), after, n + 1, Some(|thread|), Newer(thread[..to], after))
            else if after.Uuid? then Err(CursorNotFound) else Ok(Newer(thread[..to], after))
  {
    PageExtendsPrefix(thread, after, from, to);
    ScanReadable(thread[from..to], after, Newer(thread[..from], after));
    assert ServerOf(thread)(n) == Page(Some(|thread|), Some(thread[from..to]), to < |thread|);
  }

  /** Page by page the walk finds exactly the newer comments of the whole thread. */
  lemma {:induction false} WalkOfThread(thread: seq<Item>, after: Cursor, n: nat, from: nat)
    requires !after.Malformed? && Readable(thread, after) && 1 <= n <= WALK_PAGES + 1
    requires from == Through(n - 1) <= |thread| && (n > 1 ==> from < |thread|)
    requires !Has(thread[..from], after)
    ensures WalkFrom(ServerOf(thread), after, n, Some(|thread|), Newer(thread[..from], after)) == Found(thread, after)
    decreases WALK_PAGES + 1 - n
  {
    if n <= WALK_PAGES {
      var to := Min(Through(n), |thread|);
      PageOfThread(thread, after, n, from, to);
      if Has(thread[..to], after) {
        HasWithin(thread, after, to, Min(|thread|, Through(WALK_PAGES)));
      } else if to < |thread| {
        WalkOfThread(thread, after, n + 1, to);
      } else {
        assert thread[..to] == thread;
      }
    }
  }

  /** The first page's total is whatever the server says. */
  lemma FirstTotalIsFree(server: Server, after: Cursor, total: Option<int>, total': Option<int>, newer: seq<Item>)
    requires !after.Malformed?
    ensures WalkFrom(server, after, 1, total, newer) == WalkFrom(server, after, 1, total', newer)
  {
  }

  /**
   A call about a fixed thread: it answers the asked page of the newer comments, and
   fails exactly when the named comment is not there or the thread outruns the walk.
   */
  lemma {:induction false} AnswersForThread(thread: seq<Item>, r: Request, result: Result<Listing, Failure>)
    requires !r.after.Malformed? && !r.order.Unknown? && Readable(thread, r.after)
    requires Answers(ServerOf(thread), r, result)
    ensures match Found(thread, r.after)
            case Err(e) => result == Err(e)
            case Ok(newer) =>
              && newer == Newer(thread, r.after) && result.Ok?
              && IsPage(result.value, Ordered(newer, r.order), PageNo(r.page), Limit(r.pageSize))
    ensures |thread| <= 200_000 ==>
              if r.after.Uuid? && !Has(thread, r.after) then result == Err(CursorNotFound) else result.Ok?
  {
    assert thread[..0] == [];
    WalkOfThread(thread, r.after, 1, 0);
    FirstTotalIsFree(ServerOf(thread), r.after, None, Some(|thread|), []);
    if |thread| <= Through(WALK_PAGES) {
      assert thread[..Min(|thread|, Through(WALK_PAGES))] == thread;
    }
  }

  // ---------------------------------------------------------------- what "newer" means

  ghost predicate NewestFirst(thread: seq<Item>) {
    forall i, j | 0 <= i < j < |thread| ::
      thread[i].Comment? && thread[j].Comment? && thread[i].at.Some? && thread[j].at.Some?
      && thread[i].at.value >= thread[j].at.value
  }

  /** Above a named comment: the longest prefix that does not hold it. */
  lemma {:induction false} NewerThanUuid(thread: seq<Item>, after: Cursor)
    requires after.Uuid? && Readable(thread, after)
    ensures var k := |Newer(thread, after)|;
            && k <= |thread| && Newer(thread, after) == thread[..k] && !Has(thread[..k], after)
            && (if Has(thread, after) then k < |thread| && Names(thread[k], after) else k == |thread|)
  {
    if thread != [] {
      NewerThanUuid(thread[1..], after);
      HasFirst(thread, after);
      if !Names(thread[0], after) {
        var k := |Newer(thread[1..], after)|;
        assert thread[..k + 1] == [thread[0]] + thread[1..][..k];
        HasSplit([thread[0]], thread[1..][..k], after);
      } else {
        assert thread[..0] == [];
      }
    }
  }

  /** Later than a timestamp, newest first: the prefix of strictly later comments. */
  lemma {:induction false} NewerThanTime(thread: seq<Item>, after: Cursor)
    requires after.At? && Readable(thread, after) && NewestFirst(thread)
    ensures var k := |Newer(thread, after)|;
            && k <= |thread| && Newer(thread, after) == thread[..k]
            && forall i | 0 <= i < |thread| :: i < k <==> thread[i].at.value > after.stamp
  {
    if thread != [] {
      NewerThanTime(thread[1..], after);
      var k := |Newer(thread[1..], after)|;
      if thread[0].at.value > after.stamp {
        assert thread[..k + 1] == [thread[0]] + thread[1..][..k];
        forall i | 0 <= i < |thread| ensures i < k + 1 <==> thread[i].at.value > after.stamp {
          if i > 0 { assert thread[i] == thread[1..][i - 1]; }
        }
      } else {
        assert |thread| > 1 ==> thread[1..][0] == thread[1];
        assert thread[..0] == [];
      }
    }
  }

  lemma {:induction false} NewerStopsAtNamed(thread: seq<Item>, after: Cursor, at: nat)
    requires after.Uuid? && Readable(thread, after) && at < |thread| && Names(thread[at], after)
    ensures |Newer(thread, after)| <= at
  {
    if at > 0 && !Names(thread[0], after) { NewerStopsAtNamed(thread[1..], after, at - 1); }
  }

  /** Naming a comment and giving its own creation time ask for the same comments, unless times tie. */
  lemma UuidAgreesWithItsTime(thread: seq<Item>, at: nat, id: string)
    requires at < |thread| && NewestFirst(thread) && thread[at].Comment?
    requires thread[at].id == Some(id) && thread[at].at.Some?
    requires Readable(thread, At(thread[at].at.value)) && Readable(thread, Uuid(id))
    requires forall i | 0 <= i < at :: thread[i].id != Some(id)
    ensures Newer(thread, Uuid(id)) == Newer(thread, At(thread[at].at.value))
            <==> at == 0 || thread[at - 1].at.value > thread[at].at.value
  {
    NewerThanUuid(thread, Uuid(id));
    NewerThanTime(thread, At(thread[at].at.value));
    var k := |Newer(thread, Uuid(id))|;
    assert Names(thread[at], Uuid(id));
    NewerStopsAtNamed(thread, Uuid(id), at);
    assert k == at;
  }

  // ---------------------------------------------------------------- pages put together

  /** The first n pages, one after another. */
  function Pages(xs: seq<Item>, limit: nat, n: nat): seq<Item> {
    if n == 0 then [] else Pages(xs, limit, n - 1) + Slice(xs, n, limit)
  }

  lemma {:induction false} PagesArePrefix(xs: seq<Item>, limit: nat, n: nat)
    ensures Pages(xs, limit, n) == xs[..Min(n * limit, |xs|)]
  {
    if n > 0 {
      PagesArePrefix(xs, limit, n - 1);
      var from := (n - 1) * limit;
      assert n * limit == from + limit;
      if from < |xs| { assert xs[..from] + xs[from..Min(from + limit, |xs|)] == xs[..Min(from + limit, |xs|)]; }
    }
  }

  /** Pages 1 to total_pages are the whole list, each item once; more pages add nothing. */
  lemma PagesCoverList(xs: seq<Item>, limit: nat, pages: nat, n: nat)
    requires PageCount(|xs|, limit, pages) && n >= pages
    ensures Pages(xs, limit, n) == xs
  {
    PagesArePrefix(xs, limit, n);
    MultiplesGrow(pages, n, limit);
    assert Min(n * limit, |xs|) == |xs|;
  }

  /** Every later page is empty, and none before. */
  lemma PageIsEmptyBeyond(xs: seq<Item>, limit: nat, pages: nat, page: nat)
    requires limit >= 1 && PageCount(|xs|, limit, pages) && page >= 1
    ensures Slice(xs, page, limit) == [] <==> page > pages
  {
    if page > pages { MultiplesGrow(pages, page - 1, limit); } else { MultiplesGrow(page - 1, pages - 1, limit); }
  }

  function Collected(listings: seq<Listing>): seq<Item> {
    if listings == [] then [] else Collected(listings[..|listings| - 1]) + listings[|listings| - 1].items
  }

  function Asking(r: Request, page: nat): Request
    requires 1 <= page < 0x8000_0000_0000_0000
  {
    r.(page := Some(page as int64))
  }

  /** The calls for pages 1, 2, ... of one question about a fixed thread. */
  ghost predicate PageByPage(thread: seq<Item>, r: Request, listings: seq<Listing>) {
    && |listings| < 0x8000_0000_0000_0000 - 1
    && forall i | 0 <= i < |listings| :: Answers(ServerOf(thread), Asking(r, i + 1), Ok(listings[i]))
  }

  /** One of those calls, with everything but the slice settled. */
  lemma {:induction false} CallForPage(thread: seq<Item>, r: Request, page: nat, l: Listing, xs: seq<Item>, limit: nat)
    requires !r.after.Malformed? && !r.order.Unknown? && Readable(thread, r.after)
    requires 1 <= page < 0x8000_0000_0000_0000 && Answers(ServerOf(thread), Asking(r, page), Ok(l))
    requires xs == Ordered(Newer(thread, r.after), r.order) && limit == Limit(r.pageSize) as nat
    ensures l.items == Slice(xs, page, limit)
    ensures l.totalPages >= 0 && PageCount(|xs|, limit, l.totalPages as nat)
    ensures l.items == [] <==> page > l.totalPages as nat
  {
    AnswersForThread(thread, Asking(r, page), Ok(l));
    PageIsEmptyBeyond(xs, limit, l.totalPages as nat, page);
  }

  lemma {:induction false} CallsCollectPages(
    thread: seq<Item>, r: Request, listings: seq<Listing>, xs: seq<Item>, limit: nat)
    requires !r.after.Malformed? && !r.order.Unknown? && Readable(thread, r.after)
    requires PageByPage(thread, r, listings)
    requires xs == Ordered(Newer(thread, r.after), r.order) && limit == Limit(r.pageSize) as nat
    ensures Collected(listings) == Pages(xs, limit, |listings|)
  {
    if listings != [] {
      var n := |listings| - 1;
      CallsCollectPages(thread, r, listings[..n], xs, limit);
      CallForPage(thread, r, n + 1, listings[n], xs, limit);
    }
  }

  /**
   Asking for pages 1 to total_pages collects exactly the comments newer than the
   cursor, in the order asked for; a page is empty exactly beyond the last.
   */
  lemma {:induction false} CallsCollectThread(thread: seq<Item>, r: Request, listings: seq<Listing>)
    requires !r.after.Malformed? && !r.order.Unknown? && Readable(thread, r.after)
    requires PageByPage(thread, r, listings) && 1 <= |listings|
    ensures |listings| >= listings[0].totalPages as int ==>
              Collected(listings) == Ordered(Newer(thread, r.after), r.order)
    ensures forall i: nat | i < |listings| :: listings[i].items == [] <==> i + 1 > listings[i].totalPages as int
  {
    var xs, limit := Ordered(Newer(thread, r.after), r.order), Limit(r.pageSize) as nat;
    forall i: nat | i < |listings| ensures listings[i].items == [] <==> i + 1 > listings[i].totalPages as int {
      CallForPage(thread, r, i + 1, listings[i], xs, limit);
    }
    CallsCollectPages(thread, r, listings, xs, limit);
    CallForPage(thread, r, 1, listings[0], xs, limit);
    if |listings| >= listings[0].totalPages as int {
      PagesCoverList(xs, limit, listings[0].totalPages as nat, |listings|);
    }
  }

  // ---------------------------------------------------------------- in numbers and positions

  /** The page size: what was asked for from 1 to 200, 200 at most, 10 by default; and the page number. */
  lemma DefaultsMean(pageSize: Option<int64>, page: Option<int64>)
    ensures Limit(pageSize) == match pageSize
                               case None => 10
                               case Some(n) => if n <= 0 then 10 else if n <= 200 then n else 200
    ensures PageNo(page) == match page
                            case None => 1
                            case Some(n) => if n <= 0 then 1 else n
  {
  }

  lemma OrderedAt(xs: seq<Item>, order: Order, k: nat)
    requires k < |xs| && !order.Unknown?
    ensures |Ordered(xs, order)| == |xs|
    ensures order.Asc? ==> Ordered(xs, order)[k] == xs[|xs| - 1 - k]
    ensures order.Desc? ==> Ordered(xs, order)[k] == xs[k]
  {
    if order.Asc? { ReversedAt(xs, k); }
  }

  lemma NewerIsOnTop(thread: seq<Item>, after: Cursor)
    requires !after.Malformed? && Readable(thread, after) && NewestFirst(thread)
    ensures |Newer(thread, after)| <= |thread| && Newer(thread, after) == thread[..|Newer(thread, after)|]
  {
    if after.Uuid? { NewerThanUuid(thread, after); } else { NewerThanTime(thread, after); }
  }

  /** Ascending pages go from the oldest newer comment to the newest, descending ones the other way. */
  lemma {:induction false} CollectedInOrder(thread: seq<Item>, r: Request, listings: seq<Listing>)
    requires !r.after.Malformed? && !r.order.Unknown? && Readable(thread, r.after)
    requires PageByPage(thread, r, listings) && 1 <= |listings| && listings[0].totalPages as int <= |listings|
    ensures var xs, out := Newer(thread, r.after), Collected(listings);
            && |out| == |xs|
            && (r.order.Asc? ==> forall k | 0 <= k < |out| :: out[k] == xs[|xs| - 1 - k])
            && (r.order.Desc? ==> forall k | 0 <= k < |out| :: out[k] == xs[k])
  {
    var xs, out := Newer(thread, r.after), Collected(listings);
    CallsCollectThread(thread, r, listings);
    if xs != [] { OrderedAt(xs, r.order, 0); }
    forall k: nat | k < |xs|
      ensures r.order.Asc? ==> out[k] == xs[|xs| - 1 - k]
      ensures r.order.Desc? ==> out[k] == xs[k]
    {
      OrderedAt(xs, r.order, k);
    }
  }

  /** Both were created at a known time, the first one no later than the second. */
  predicate NoLater(x: Item, y: Item) {
    x.Comment? && y.Comment? && x.at.Some? && y.at.Some? && x.at.value <= y.at.value
  }

  lemma {:induction false} NewerByTime(thread: seq<Item>, after: Cursor, j: nat, k: nat)
    requires !after.Malformed? && Readable(thread, after) && NewestFirst(thread) && j < k < |Newer(thread, after)|
    ensures NoLater(Newer(thread, after)[k], Newer(thread, after)[j])
  {
    NewerIsOnTop(thread, after);
    assert Newer(thread, after)[j] == thread[j] && Newer(thread, after)[k] == thread[k];
  }

  /** What the pages collect, for a list whose times never rise. */
  lemma {:induction false} OrderByTime(xs: seq<Item>, out: seq<Item>, asc: bool)
    requires |out| == |xs| && forall j, k | 0 <= j < k < |xs| :: NoLater(xs[k], xs[j])
    requires asc ==> forall k | 0 <= k < |out| :: out[k] == xs[|xs| - 1 - k]
    requires !asc ==> out == xs
    ensures forall j, k | 0 <= j < k < |out| :: if asc then NoLater(out[j], out[k]) else NoLater(out[k], out[j])
  {
    var n := |xs| - 1;
    forall j, k | 0 <= j < k < |out| ensures if asc then NoLater(out[j], out[k]) else NoLater(out[k], out[j]) {
      if asc {
        assert out[j] == xs[n - j] && out[k] == xs[n - k];
        assert NoLater(xs[n - j], xs[n - k]);
      } else {
        assert NoLater(xs[k], xs[j]);
      }
    }
  }

  /** On a newest-first thread creation times never fall in ascending order and never rise in descending order. */
  lemma {:induction false} CollectedByTime(thread: seq<Item>, r: Request, listings: seq<Listing>)
    requires !r.after.Malformed? && !r.order.Unknown? && Readable(thread, r.after) && NewestFirst(thread)
    requires PageByPage(thread, r, listings) && 1 <= |listings| && listings[0].totalPages as int <= |listings|
    ensures var out := Collected(listings);
            forall j, k | 0 <= j < k < |out| ::
              if r.order.Asc? then NoLater(out[j], out[k]) else NoLater(out[k], out[j])
  {
    CollectedInOrder(thread, r, listings);
    forall j, k | 0 <= j < k < |Newer(thread, r.after)|
      ensures NoLater(Newer(thread, r.after)[k], Newer(thread, r.after)[j])
    {
      NewerByTime(thread, r.after, j, k);
    }
    OrderByTime(Newer(thread, r.after), Collected(listings), r.order.Asc?);
  }
}
