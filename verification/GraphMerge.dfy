/** Merging graph neighbours into a recall page (internal/mcp/tools.go:3436-3534). */
module GraphMerge {
  import opened Wrappers

  /** A row of a page: an object, with its id when that is a string, or anything else. */
  datatype Row = Node(id: Option<string>, hop: real, boosted: bool, rest: string) | Other(rest: string)

  function Reserve(limit: int): nat {
    if limit < 2 then 0 else if limit / 4 < 1 then 1 else limit / 4
  }

  /** The ids a page already shows. */
  function IdsOf(rows: seq<Row>): set<string> {
    set i | 0 <= i < |rows| && rows[i].Node? && rows[i].id.Some? :: rows[i].id.value
  }

  /** A missing id reads as "". */
  function IdText(r: Row): string
    requires r.Node?
  {
    if r.id.Some? then r.id.value else ""
  }

  predicate Eligible(r: Row, seen: set<string>) {
    r.Node? && r.hop > 0.0 && IdText(r) !in seen
  }

  /** The neighbours taken, in order, while there is room. */
  function Picked(graph: seq<Row>, seen: set<string>, room: nat): seq<Row> {
    if graph == [] || room == 0 then []
    else if Eligible(graph[0], seen) then
      [graph[0].(boosted := true)] + Picked(graph[1..], seen + {IdText(graph[0])}, room - 1)
    else Picked(graph[1..], seen, room)
  }

  /** The merged page. */
  function Merged(base: seq<Row>, graph: seq<Row>, limit: int): seq<Row> {
    var picked := Picked(graph, IdsOf(base), Reserve(limit));
    if picked == [] || limit < |picked| then base
    else base[..Min(|base|, limit - |picked|)] + picked
  }

  // ---------------------------------------------------------------- properties

  /** The reserve is a whole quarter of the page, at least one slot from two on, and never the only one. */
  lemma ReserveLeavesRoom(limit: int)
    ensures limit < 2 ==> Reserve(limit) == 0
    ensures 2 <= limit ==> 1 <= Reserve(limit) < limit
    ensures 4 <= limit ==> 4 * Reserve(limit) <= limit < 4 * Reserve(limit) + 4
  {
  }

  /** Neighbours taken are marked, within the room, and have ids new to the page and to each other. */
  lemma {:induction false} PickedIsNew(graph: seq<Row>, seen: set<string>, room: nat)
    ensures var p := Picked(graph, seen, room);
            && |p| <= room
            && (forall i | 0 <= i < |p| :: p[i].Node? && p[i].boosted && p[i].hop > 0.0 && IdText(p[i]) !in seen)
            && (forall i, j | 0 <= i < j < |p| :: IdText(p[i]) != IdText(p[j]))
  {
    if graph != [] && room > 0 {
      if Eligible(graph[0], seen) {
        PickedIsNew(graph[1..], seen + {IdText(graph[0])}, room - 1);
      } else {
        PickedIsNew(graph[1..], seen, room);
      }
    }
  }

  /** Some row of the graph page has this id and lies at least a hop away. */
  ghost predicate Offers(graph: seq<Row>, id: string) {
    exists g :: 0 <= g < |graph| && graph[g].Node? && graph[g].hop > 0.0 && IdText(graph[g]) == id
  }

  ghost predicate HasId(rows: seq<Row>, id: string) {
    exists i :: 0 <= i < |rows| && rows[i].Node? && IdText(rows[i]) == id
  }

  lemma OffersTail(graph: seq<Row>, id: string)
    requires graph != []
    ensures Offers(graph, id) <==>
      (graph[0].Node? && graph[0].hop > 0.0 && IdText(graph[0]) == id) || Offers(graph[1..], id)
  {
    if Offers(graph[1..], id) {
      var g :| 0 <= g < |graph| - 1 && graph[1..][g].Node? && graph[1..][g].hop > 0.0 && IdText(graph[1..][g]) == id;
      assert graph[g + 1] == graph[1..][g];
    }
    if Offers(graph, id) {
      var g :| 0 <= g < |graph| && graph[g].Node? && graph[g].hop > 0.0 && IdText(graph[g]) == id;
      if g > 0 { assert graph[1..][g - 1] == graph[g]; }
    }
  }

  /** Only offered neighbours are taken, and with room left over none is passed by. */
  lemma {:induction false} PickedFromGraph(graph: seq<Row>, seen: set<string>, room: nat, id: string)
    ensures var p := Picked(graph, seen, room);
            && (HasId(p, id) ==> Offers(graph, id) && id !in seen)
            && (|p| < room && Offers(graph, id) && id !in seen ==> HasId(p, id))
  {
    if graph != [] && room > 0 {
      OffersTail(graph, id);
      if Eligible(graph[0], seen) {
        var head, q := graph[0].(boosted := true), Picked(graph[1..], seen + {IdText(graph[0])}, room - 1);
        PickedFromGraph(graph[1..], seen + {IdText(graph[0])}, room - 1, id);
        HasIdCons(head, q, id);
      } else {
        PickedFromGraph(graph[1..], seen, room, id);
      }
    }
  }

  lemma HasIdCons(head: Row, rows: seq<Row>, id: string)
    requires head.Node?
    ensures HasId([head] + rows, id) <==> IdText(head) == id || HasId(rows, id)
  {
    var all := [head] + rows;
    if HasId(rows, id) {
      var i :| 0 <= i < |rows| && rows[i].Node? && IdText(rows[i]) == id;
      assert all[i + 1] == rows[i];
    }
    assert all[0] == head;
  }

  /**
   The merged page keeps within the limit, is a prefix of the base page followed
   by the neighbours, gives up no more base rows than the neighbours need, and is
   the base page itself when no neighbour is eligible.
   */
  lemma MergeRespectsPage(base: seq<Row>, graph: seq<Row>, limit: int)
    ensures var picked, merged := Picked(graph, IdsOf(base), Reserve(limit)), Merged(base, graph, limit);
            && |picked| <= Reserve(limit)
            && (|base| <= limit || picked != [] ==> |merged| <= limit)
            && merged == base[..|merged| - |picked|] + picked
            && (|merged| - |picked| == |base| || |merged| == limit)
    ensures limit < 2 || (forall id | Offers(graph, id) :: id in IdsOf(base)) ==> Merged(base, graph, limit) == base
  {
    var picked := Picked(graph, IdsOf(base), Reserve(limit));
    PickedIsNew(graph, IdsOf(base), Reserve(limit));
    if picked != [] {
      var id := IdText(picked[0]);
      assert HasId(picked, id);
      PickedFromGraph(graph, IdsOf(base), Reserve(limit), id);
    }
  }

  // ---------------------------------------------------------------- in plain terms

  /** A neighbour: an object at least a hop away, its id the empty text when it has none. */
  predicate Neighbour(r: Row, id: string) {
    r.Node? && r.hop > 0.0 && (r.id == Some(id) || (r.id.None? && id == ""))
  }

  ghost predicate InPage(base: seq<Row>, id: string) {
    exists i :: 0 <= i < |base| && base[i].Node? && base[i].id == Some(id)
  }

  /** Rows of the graph page, in its order. */
  ghost predicate Positions(graph: seq<Row>, from: nat, at: seq<nat>) {
    && (forall m | 0 <= m < |at| :: from <= at[m] < |graph| && graph[at[m]].Node?)
    && (forall m, n | 0 <= m < n < |at| :: at[m] < at[n])
  }

  /** One of them before g has this id. */
  ghost predicate TakenBefore(graph: seq<Row>, from: nat, at: seq<nat>, g: nat, id: string)
    requires Positions(graph, from, at)
  {
    exists m :: 0 <= m < |at| && at[m] < g && Neighbour(graph[at[m]], id)
  }

  ghost predicate UsedUp(at: seq<nat>, room: nat, g: nat) {
    |at| == room && forall m | 0 <= m < |at| :: at[m] < g
  }

  /** Rows are taken exactly when they are neighbours with an id not yet there, while there is room. */
  ghost predicate FirstNew(graph: seq<Row>, from: nat, seen: set<string>, room: nat, at: seq<nat>) {
    && Positions(graph, from, at) && |at| <= room
    && (forall g | g in at :: exists id :: Neighbour(graph[g], id))
    && forall g: nat, id | from <= g < |graph| && Neighbour(graph[g], id) ::
         g in at <==> id !in seen && !TakenBefore(graph, from, at, g, id) && !UsedUp(at, room, g)
  }

  /** The rows at these positions, marked. */
  ghost predicate MarkedRows(graph: seq<Row>, from: nat, at: seq<nat>, rows: seq<Row>)
    requires Positions(graph, from, at)
  {
    && |rows| == |at|
    && forall m | 0 <= m < |at| ::
         rows[m] == Node(graph[at[m]].id, graph[at[m]].hop, true, graph[at[m]].rest)
  }

  lemma {:induction false} PickedAt(graph: seq<Row>, from: nat, seen: set<string>, room: nat) returns (at: seq<nat>)
    requires from <= |graph|
    ensures FirstNew(graph, from, seen, room, at)
    ensures MarkedRows(graph, from, at, Picked(graph[from..], seen, room))
    decreases |graph| - from
  {
    if from == |graph| || room == 0 { return []; }
    assert graph[from..][0] == graph[from] && graph[from..][1..] == graph[from + 1..];
    var head := graph[from];
    if !Eligible(head, seen) {
      at := PickedAt(graph, from + 1, seen, room);
      PassedBy(graph, from, seen, room, at);
    } else {
      var rest := PickedAt(graph, from + 1, seen + {IdText(head)}, room - 1);
      at := [from] + rest;
      TakenFirst(graph, from, seen, room, rest);
    }
  }

  lemma PassedBy(graph: seq<Row>, from: nat, seen: set<string>, room: nat, at: seq<nat>)
    requires from < |graph| && !Eligible(graph[from], seen) && room > 0
    requires FirstNew(graph, from + 1, seen, room, at)
    ensures FirstNew(graph, from, seen, room, at)
  {
    forall g: nat, id | from <= g < |graph| && Neighbour(graph[g], id)
      ensures g in at <==> id !in seen && !TakenBefore(graph, from, at, g, id) && !UsedUp(at, room, g)
    {
      if g > from {
        assert TakenBefore(graph, from + 1, at, g, id) <==> TakenBefore(graph, from, at, g, id);
      }
    }
  }

  lemma OneMorePosition(graph: seq<Row>, from: nat, rest: seq<nat>)
    requires from < |graph| && graph[from].Node? && Positions(graph, from + 1, rest)
    ensures Positions(graph, from, [from] + rest)
    ensures forall g :: g in [from] + rest <==> g == from || g in rest
  {
    var at := [from] + rest;
    assert at[0] == from && forall m | 1 <= m < |at| :: at[m] == rest[m - 1];
  }

  lemma OneMoreTaken(graph: seq<Row>, from: nat, rest: seq<nat>, g: nat, id: string)
    requires from < g < |graph| && graph[from].Node? && graph[from].hop > 0.0
    requires Positions(graph, from + 1, rest) && Positions(graph, from, [from] + rest)
    ensures TakenBefore(graph, from, [from] + rest, g, id) <==>
              id == IdText(graph[from]) || TakenBefore(graph, from + 1, rest, g, id)
  {
    var at := [from] + rest;
    assert at[0] == from;
    if TakenBefore(graph, from, at, g, id) {
      var m :| 0 <= m < |at| && at[m] < g && Neighbour(graph[at[m]], id);
      assert m > 0 ==> at[m] == rest[m - 1];
    }
    if TakenBefore(graph, from + 1, rest, g, id) {
      var m :| 0 <= m < |rest| && rest[m] < g && Neighbour(graph[rest[m]], id);
      assert at[m + 1] == rest[m];
    }
  }

  lemma OneMoreUsed(from: nat, rest: seq<nat>, room: nat, g: nat)
    requires from < g && room > 0
    ensures UsedUp([from] + rest, room, g) <==> UsedUp(rest, room - 1, g)
  {
    var at := [from] + rest;
    assert at[0] == from && forall m | 0 <= m < |rest| :: at[m + 1] == rest[m];
  }

  lemma TakenFirst(graph: seq<Row>, from: nat, seen: set<string>, room: nat, rest: seq<nat>)
    requires from < |graph| && Eligible(graph[from], seen) && room > 0
    requires FirstNew(graph, from + 1, seen + {IdText(graph[from])}, room - 1, rest)
    ensures FirstNew(graph, from, seen, room, [from] + rest)
  {
    var at, own := [from] + rest, IdText(graph[from]);
    assert Neighbour(graph[from], own);
    OneMorePosition(graph, from, rest);
    forall g: nat, id | from <= g < |graph| && Neighbour(graph[g], id)
      ensures g in at <==> id !in seen && !TakenBefore(graph, from, at, g, id) && !UsedUp(at, room, g)
    {
      if g > from {
        OneMoreTaken(graph, from, rest, g, id);
        OneMoreUsed(from, rest, room, g);
      }
    }
  }

  /**
   The page with its neighbours, on the rows themselves: the base rows there is room for, then
   the first neighbours with new ids, marked, no more than a quarter of the page and at least one.
   */
  lemma MergeMeans(base: seq<Row>, graph: seq<Row>, limit: int, ids: set<string>) returns (at: seq<nat>)
    requires forall id :: id in ids <==> InPage(base, id)
    ensures FirstNew(graph, 0, ids, if limit < 2 then 0 else if limit < 8 then 1 else limit / 4, at)
    ensures var merged := Merged(base, graph, limit);
            var keep := if at == [] || |base| + |at| <= limit then |base| else limit - |at|;
            && 0 <= keep <= |base| && keep + |at| == |merged|
            && merged[..keep] == base[..keep] && MarkedRows(graph, 0, at, merged[keep..])
  {
    assert ids == IdsOf(base) by {
      forall id ensures id in IdsOf(base) <==> InPage(base, id) {
        if InPage(base, id) {
          var i :| 0 <= i < |base| && base[i].Node? && base[i].id == Some(id);
          assert base[i].id.value == id;
        }
      }
    }
    ReserveLeavesRoom(limit);
    at := PickedAt(graph, 0, ids, Reserve(limit));
    assert graph[0..] == graph;
  }

  // ---------------------------------------------------------------- slices

  /** A Go slice: the first `len` elements of a backing array. */
  datatype Slice = Slice(arr: array<Row>, len: nat)
  {
    ghost predicate Valid() {
      len <= arr.Length
    }

    ghost function View(): seq<Row>
      reads arr
      requires Valid()
    {
      arr[..len]
    }
  }

  /** append: in place when the backing array has room, otherwise into a new one. */
  method Append(s: Slice, xs: seq<Row>) returns (r: Slice)
    requires s.Valid()
    modifies s.arr
    ensures r.Valid() && r.View() == old(s.View()) + xs
    ensures s.len + |xs| <= s.arr.Length ==>
      r.arr == s.arr && s.arr[..] == old(s.View()) + xs + old(s.arr[s.len + |xs|..])
    ensures s.len + |xs| > s.arr.Length ==> fresh(r.arr) && s.arr[..] == old(s.arr[..])
  {
    ghost var before := s.arr[..];
    if s.len + |xs| <= s.arr.Length {
      for k := 0 to |xs|
        invariant s.arr[..] == before[..s.len] + xs[..k] + before[s.len + k..]
      {
        s.arr[s.len + k] := xs[k];
      }
      return Slice(s.arr, s.len + |xs|);
    }
    var all := s.arr[..s.len] + xs;
    var arr := new Row[|all|](k requires 0 <= k < |all| => all[k]);
    assert arr[..] == all;
    return Slice(arr, |all|);
  }

  /** The picking loop. */
  method Pick(graph: seq<Row>, ids: set<string>, maxBoost: nat) returns (picked: seq<Row>)
    ensures picked == Picked(graph, ids, maxBoost)
  {
    picked := [];
    var seen := ids;
    var n := 0;
    while n < |graph| && |picked| < maxBoost
      invariant 0 <= n <= |graph| && |picked| <= maxBoost
      invariant picked + Picked(graph[n..], seen, maxBoost - |picked|) == Picked(graph, ids, maxBoost)
      decreases |graph| - n
    {
      var it := graph[n];
      assert graph[n..][1..] == graph[n + 1..];
      if Eligible(it, seen) {
        picked := picked + [it.(boosted := true)];
        seen := seen + {IdText(it)};
      }
      n := n + 1;
    }
  }

  /**
   mergeGraphResults. When rows give way, the shortened slice is appended to in
   place, so the base page's own backing array is overwritten behind the kept rows.
   */
  method MergeGraphResults(base: Slice, graph: seq<Row>, limit: int) returns (merged: Slice, boosts: nat)
    requires base.Valid()
    modifies base.arr
    ensures merged.Valid() && merged.View() == Merged(old(base.View()), graph, limit)
    ensures boosts == |Picked(graph, IdsOf(old(base.View())), Reserve(limit))|
    ensures boosts == 0 ==> merged == base && base.arr[..] == old(base.arr[..])
    ensures boosts > 0 ==>
      var keep := merged.len - boosts;
      if keep + boosts <= base.arr.Length
      then merged.arr == base.arr && base.arr[..] == merged.View() + old(base.arr[keep + boosts..])
      else fresh(merged.arr) && base.arr[..] == old(base.arr[..])
  {
    var ids := CollectIds(base.arr[..base.len]);
    var picked := Pick(graph, ids, Reserve(limit));
    PickedIsNew(graph, ids, Reserve(limit));
    if |picked| == 0 { return base, 0; }
    var kept := base;
    var keep := limit - |picked|;
    if kept.len > keep { kept := Slice(base.arr, keep); }
    assert kept.View() == base.View()[..Min(base.len, keep)];
    merged := Append(kept, picked);
    boosts := |picked|;
  }

  method CollectIds(rows: seq<Row>) returns (ids: set<string>)
    ensures ids == IdsOf(rows)
  {
    ids := {};
    for n := 0 to |rows|
      invariant ids == IdsOf(rows[..n])
    {
      IdsSnoc(rows, n);
      if rows[n].Node? && rows[n].id.Some? { ids := ids + {rows[n].id.value}; }
    }
    assert rows[..|rows|] == rows;
  }

  lemma IdsSnoc(rows: seq<Row>, n: nat)
    requires n < |rows|
    ensures IdsOf(rows[..n + 1])
            == IdsOf(rows[..n]) + (if rows[n].Node? && rows[n].id.Some? then {rows[n].id.value} else {})
  {
    var shorter, longer := rows[..n], rows[..n + 1];
    assert longer == shorter + [rows[n]];
    forall id | id in IdsOf(shorter) ensures id in IdsOf(longer) {
      var i :| 0 <= i < n && shorter[i].Node? && shorter[i].id.Some? && shorter[i].id.value == id;
      assert longer[i] == shorter[i];
    }
    if rows[n].Node? && rows[n].id.Some? { assert longer[n].id.value in IdsOf(longer); }
    forall id | id in IdsOf(longer) ensures id in IdsOf(shorter) || (rows[n].Node? && rows[n].id == Some(id)) {
      var i :| 0 <= i < n + 1 && longer[i].Node? && longer[i].id.Some? && longer[i].id.value == id;
      if i < n { assert shorter[i] == longer[i]; }
    }
  }
}
