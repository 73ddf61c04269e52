/**
 The delta between two task snapshots and the consumer that applies it
 (internal/mcp/my_tasks_snapshot.go:461-529, docs/my-tasks-snapshots.md:33-55).
 */
module SnapshotDelta {
  import opened Wrappers
  import opened Json
  import opened ActiveTasks
  import opened SnapshotCache

  /** json.Marshal and json.Unmarshal of an object, and the revision digest. */
  datatype Codec = Codec(encode: Object -> Bytes, decode: Bytes -> Option<Object>, digest: Digest)
  {
    /** Decoding inverts encoding, and an encoded object is never empty. */
    ghost predicate Lossless() {
      forall o :: encode(o) != [] && decode(encode(o)) == Some(o)
    }

    ghost predicate NeverEmpty() {
      forall s, b :: digest(s, b) != ""
    }

    /** Different (scope, body) pairs have different, nonempty revisions. */
    ghost predicate CollisionFree() {
      && NeverEmpty()
      && (forall s, b, s', b' :: digest(s, b) == digest(s', b') ==> s == s' && b == b')
    }
  }

  lemma EncodeInjective(codec: Codec, a: Object, b: Object)
    requires codec.Lossless() && codec.encode(a) == codec.encode(b)
    ensures a == b
  {
    assert codec.decode(codec.encode(a)) == codec.decode(codec.encode(b));
  }

  // ---------------------------------------------------------------- task lists

  function Id(task: Value): string {
    if task.Obj? then Text(task.fields, "id") else ""
  }

  function Ids(tasks: seq<Value>): seq<string> {
    seq(|tasks|, k requires 0 <= k < |tasks| => Id(tasks[k]))
  }

  /** Every task is an object with a nonempty id of its own. */
  ghost predicate WellFormed(tasks: seq<Value>) {
    && (forall k | 0 <= k < |tasks| :: tasks[k].Obj? && Id(tasks[k]) != "")
    && Distinct(Ids(tasks))
  }

  lemma SameIdSameIndex(tasks: seq<Value>, j: nat, k: nat)
    requires WellFormed(tasks) && j < |tasks| && k < |tasks| && Id(tasks[j]) == Id(tasks[k])
    ensures j == k
  {
    assert Ids(tasks)[j] == Ids(tasks)[k];
  }

  lemma WellFormedSnoc(tasks: seq<Value>, n: nat)
    requires n < |tasks|
    ensures WellFormed(tasks[..n + 1]) <==>
      WellFormed(tasks[..n]) && tasks[n].Obj? && Id(tasks[n]) != "" && Id(tasks[n]) !in Ids(tasks[..n])
    ensures Ids(tasks[..n + 1]) == Ids(tasks[..n]) + [Id(tasks[n])]
  {
    var shorter, longer := tasks[..n], tasks[..n + 1];
    assert longer == shorter + [tasks[n]];
    assert Ids(longer) == Ids(shorter) + [Id(tasks[n])];
    if WellFormed(longer) {
      assert forall k | 0 <= k < n :: shorter[k] == longer[k] && Ids(shorter)[k] == Ids(longer)[k];
      assert longer[n].Obj? && Ids(longer)[n] == Id(tasks[n]);
    }
  }

  lemma IllFormedPrefix(tasks: seq<Value>, n: nat)
    requires n <= |tasks| && !WellFormed(tasks[..n])
    ensures !WellFormed(tasks)
  {
    if WellFormed(tasks) {
      assert forall k | 0 <= k < n :: tasks[..n][k] == tasks[k] && Ids(tasks[..n])[k] == Ids(tasks)[k];
    }
  }

  function Tasks(page: Object): seq<Value> {
    if "tasks" in page && page["tasks"].Arr? then page["tasks"].elems else []
  }

  /** The part of a page the consumer is shown: with a caller's own category filter, all of it. */
  function View(tasks: seq<Value>, table: StatusTable, filtered: bool): seq<Value> {
    if filtered then tasks
    else
      match ActiveOnly(tasks, table)
      case Ok(selection) => selection.0
      case Err(_) => tasks
  }

  /** A view shows nothing that is not on its page. */
  lemma ViewWithin(tasks: seq<Value>, table: StatusTable, filtered: bool)
    ensures forall item | item in View(tasks, table, filtered) :: item in tasks
  {
  }

  /** Narrowing a page to its view keeps ids present and distinct. */
  lemma ViewWellFormed(tasks: seq<Value>, table: StatusTable, filtered: bool)
    requires WellFormed(tasks)
    ensures WellFormed(View(tasks, table, filtered))
  {
    if !filtered && ActiveOnly(tasks, table).Ok? {
      var cats := Categories(tasks, table).value;
      KeptIndicesExact(tasks, cats, |tasks|);
      var ks := KeptIndices(tasks, cats, |tasks|);
      forall i, j | 0 <= i < j < |ks| ensures Ids(Pick(tasks, ks))[i] != Ids(Pick(tasks, ks))[j] {
        assert Ids(tasks)[ks[i]] != Ids(tasks)[ks[j]];
      }
    }
  }

  // ---------------------------------------------------------------- the delta

  datatype Delta = Delta(
    baseRevision: string, revision: string,
    changed: seq<Value>, removed: seq<string>, order: seq<string>, envelope: Object)

  /** The new items, in order, that the old list does not hold unaltered. */
  ghost function Changed(prior: seq<Value>, next: seq<Value>): seq<Value> {
    if next == [] then []
    else
      var item := next[|next| - 1];
      Changed(prior, next[..|next| - 1]) + (if item in prior then [] else [item])
  }

  /** The old ids, in order, that the new list no longer has. */
  ghost function Removed(prior: seq<string>, next: seq<string>): seq<string> {
    if prior == [] then []
    else
      var id := prior[|prior| - 1];
      Removed(prior[..|prior| - 1], next) + (if id in next then [] else [id])
  }

  const DESCRIPTION_NOTE := "descriptions not included: get_task(id) or full=true"

  function Envelope(page: Object): Object {
    Without(page, {"tasks"})["description_omitted" := Str(DESCRIPTION_NOTE)]
  }

  ghost function DeltaOf(
    prior: seq<Value>, next: seq<Value>, known: string, revision: string, envelope: Object): Delta
  {
    Delta(known, revision, Changed(prior, next), Removed(Ids(prior), Ids(next)), Ids(next), envelope)
  }

  /** None when the base cannot serve: the caller then answers cold. */
  ghost function DeltaFrom(
    codec: Codec, base: Bytes, current: Object, known: string, revision: string,
    table: StatusTable, filtered: bool): Option<Delta>
  {
    match codec.decode(base)
    case None => None
    case Some(previous) =>
      if !("tasks" in previous && previous["tasks"].Arr?) then None
      else
        var prior := View(Tasks(previous), table, filtered);
        if !WellFormed(prior) then None
        else Some(DeltaOf(prior, View(Tasks(current), table, filtered), known, revision, Envelope(current)))
  }

  // ---------------------------------------------------------------- what a delta contains

  lemma {:induction false} ChangedExact(prior: seq<Value>, next: seq<Value>, item: Value)
    ensures item in Changed(prior, next) <==> item in next && item !in prior
  {
    if next != [] {
      var init, last := next[..|next| - 1], next[|next| - 1];
      assert next == init + [last];
      ChangedExact(prior, init, item);
    }
  }

  lemma {:induction false} RemovedExact(prior: seq<string>, next: seq<string>, id: string)
    ensures id in Removed(prior, next) <==> id in prior && id !in next
  {
    if prior != [] {
      var init, last := prior[..|prior| - 1], prior[|prior| - 1];
      assert prior == init + [last];
      RemovedExact(init, next, id);
    }
  }

  ghost predicate Subsequence<T(!new)>(xs: seq<T>, ys: seq<T>) {
    xs == [] || (ys != [] &&
      var init := ys[..|ys| - 1];
      Subsequence(xs, init) || (xs[|xs| - 1] == ys[|ys| - 1] && Subsequence(xs[..|xs| - 1], init)))
  }

  lemma SubsequenceSnoc<T(!new)>(xs: seq<T>, ys: seq<T>, y: T)
    requires Subsequence(xs, ys)
    ensures Subsequence(xs, ys + [y]) && Subsequence(xs + [y], ys + [y])
  {
    assert (ys + [y])[..|ys|] == ys;
    assert (xs + [y])[..|xs|] == xs;
  }

  /** changed keeps the order of the new list. */
  lemma {:induction false} ChangedKeepsOrder(prior: seq<Value>, next: seq<Value>)
    ensures Subsequence(Changed(prior, next), next)
  {
    if next != [] {
      var init, last := next[..|next| - 1], next[|next| - 1];
      ChangedKeepsOrder(prior, init);
      SubsequenceSnoc(Changed(prior, init), init, last);
      assert next == init + [last];
      assert Changed(prior, init) + [] == Changed(prior, init);
    }
  }

  /** removed_ids keeps the order of the old list. */
  lemma {:induction false} RemovedKeepsOrder(prior: seq<string>, next: seq<string>)
    ensures Subsequence(Removed(prior, next), prior)
  {
    if prior != [] {
      var init, last := prior[..|prior| - 1], prior[|prior| - 1];
      RemovedKeepsOrder(init, next);
      SubsequenceSnoc(Removed(init, next), init, last);
      assert prior == init + [last];
      assert Removed(init, next) + [] == Removed(init, next);
    }
  }

  // ---------------------------------------------------------------- the consumer

  /** Items by id; the last one of an id wins. */
  function ById(items: seq<Value>): map<string, Value> {
    if items == [] then map[]
    else
      var last := items[|items| - 1];
      ById(items[..|items| - 1])[Id(last) := last]
  }

  /** Drop removed_ids, then replace or add changed. */
  function Updated(held: seq<Value>, d: Delta): map<string, Value> {
    (map id | id in ById(held) && id !in d.removed :: ById(held)[id]) + ById(d.changed)
  }

  /** The updated items arranged in order; None when an ordered id is missing. */
  function Rebuild(held: seq<Value>, d: Delta): Option<seq<Value>> {
    var items := Updated(held, d);
    if forall k | 0 <= k < |d.order| :: d.order[k] in items
    then Some(seq(|d.order|, k requires 0 <= k < |d.order| && d.order[k] in items => items[d.order[k]]))
    else None
  }

  ghost predicate Carries(items: seq<Value>, id: string) {
    exists k :: 0 <= k < |items| && Id(items[k]) == id
  }

  lemma CarriesSnoc(items: seq<Value>, last: Value, id: string)
    ensures Carries(items + [last], id) <==> Carries(items, id) || Id(last) == id
  {
    var longer := items + [last];
    if Carries(items, id) {
      var k :| 0 <= k < |items| && Id(items[k]) == id;
      assert longer[k] == items[k];
    }
    assert longer[|items|] == last;
  }

  lemma {:induction false} ByIdHas(items: seq<Value>, id: string)
    ensures id in ById(items) <==> Carries(items, id)
    ensures id in ById(items) ==> Id(ById(items)[id]) == id && ById(items)[id] in items
  {
    if items != [] {
      var init, last := items[..|items| - 1], items[|items| - 1];
      assert items == init + [last];
      ByIdHas(init, id);
      CarriesSnoc(init, last, id);
    }
  }

  // ---------------------------------------------------------------- rebuilding

  /** Each held item is the shown one, whole or after `plain`. */
  ghost predicate Copies(held: seq<Value>, shown: seq<Value>, plain: Value -> Value) {
    |held| == |shown| && forall k | 0 <= k < |shown| :: held[k] == shown[k] || held[k] == plain(shown[k])
  }

  ghost predicate KeepsIds(plain: Value -> Value) {
    forall v :: Id(plain(v)) == Id(v)
  }

  ghost predicate PartOf(shown: seq<Value>, page: seq<Value>) {
    forall item | item in shown :: item in page
  }

  lemma SameIdSameItem(page: seq<Value>, a: Value, b: Value)
    requires WellFormed(page) && a in page && b in page && Id(a) == Id(b)
    ensures a == b
  {
    var j :| 0 <= j < |page| && page[j] == a;
    var k :| 0 <= k < |page| && page[k] == b;
    SameIdSameIndex(page, j, k);
  }

  /** The consumer has an item of the page exactly if it was shown it, and then a copy of it. */
  lemma HeldItem(page: seq<Value>, shown: seq<Value>, held: seq<Value>, plain: Value -> Value, item: Value)
    returns (j: nat)
    requires WellFormed(page) && PartOf(shown, page) && item in page
    requires Copies(held, shown, plain) && KeepsIds(plain)
    ensures Id(item) in ById(held) <==> item in shown
    ensures item in shown ==> j < |held| && shown[j] == item && ById(held)[Id(item)] == held[j]
  {
    j := 0;
    if item in shown {
      var k :| 0 <= k < |shown| && shown[k] == item;
      assert Id(held[k]) == Id(item);
    }
    ByIdHas(held, Id(item));
    if Id(item) in ById(held) {
      j :| 0 <= j < |held| && held[j] == ById(held)[Id(item)];
      assert Id(shown[j]) == Id(held[j]) && shown[j] in shown;
      SameIdSameItem(page, shown[j], item);
    }
  }

  /** A delta carries an item of the new list exactly if the old list lacks it. */
  lemma CarriedItem(prior: seq<Value>, next: seq<Value>, item: Value)
    requires WellFormed(next) && item in next
    ensures Id(item) in ById(Changed(prior, next)) <==> item !in prior
    ensures item !in prior ==> ById(Changed(prior, next))[Id(item)] == item
  {
    var changed := Changed(prior, next);
    ChangedExact(prior, next, item);
    assert item in changed ==> Carries(changed, Id(item));
    ByIdHas(changed, Id(item));
    if Id(item) in ById(changed) {
      var c := ById(changed)[Id(item)];
      ChangedExact(prior, next, c);
      SameIdSameItem(next, c, item);
    }
  }

  /**
   What the consumer has for one item of the new list, when the delta was built
   against `prior` and the consumer was shown `shown`, both from one base page.
   */
  lemma UpdatedItem(
    page: seq<Value>, shown: seq<Value>, prior: seq<Value>, next: seq<Value>, held: seq<Value>,
    plain: Value -> Value, d: Delta, item: Value) returns (j: nat)
    requires WellFormed(page) && PartOf(shown, page) && PartOf(prior, page) && WellFormed(next) && item in next
    requires Copies(held, shown, plain) && KeepsIds(plain)
    requires d == DeltaOf(prior, next, d.baseRevision, d.revision, d.envelope)
    ensures item !in prior ==> Id(item) in Updated(held, d) && Updated(held, d)[Id(item)] == item
    ensures item in prior ==> (Id(item) in Updated(held, d) <==> item in shown)
    ensures item in prior && item in shown ==>
              j < |held| && shown[j] == item && Updated(held, d)[Id(item)] == held[j]
  {
    j := 0;
    CarriedItem(prior, next, item);
    if item in prior {
      var k :| 0 <= k < |next| && next[k] == item;
      assert Ids(next)[k] == Id(item);
      RemovedExact(Ids(prior), Ids(next), Id(item));
      j := HeldItem(page, shown, held, plain, item);
    }
  }

  /** Nothing the delta leaves to the consumer was hidden from it. */
  ghost predicate NoneHidden(shown: seq<Value>, prior: seq<Value>, next: seq<Value>) {
    forall item | item in next && item in prior :: item in shown
  }

  /**
   A delta can be applied exactly if every item it leaves to the consumer was
   shown to it; then the rebuilt list copies the new one, order included.
   */
  lemma RebuildExact(
    page: seq<Value>, shown: seq<Value>, prior: seq<Value>, next: seq<Value>, held: seq<Value>,
    plain: Value -> Value, d: Delta)
    requires WellFormed(page) && PartOf(shown, page) && PartOf(prior, page) && WellFormed(next)
    requires Copies(held, shown, plain) && KeepsIds(plain)
    requires d == DeltaOf(prior, next, d.baseRevision, d.revision, d.envelope)
    ensures Rebuild(held, d).Some? <==> NoneHidden(shown, prior, next)
    ensures Rebuild(held, d).Some? ==> Copies(Rebuild(held, d).value, next, plain)
  {
    forall k: nat | k < |next|
      ensures d.order[k] == Id(next[k])
      ensures d.order[k] in Updated(held, d) <==> (next[k] in prior ==> next[k] in shown)
      ensures d.order[k] in Updated(held, d) ==>
                Updated(held, d)[d.order[k]] == next[k] || Updated(held, d)[d.order[k]] == plain(next[k])
    {
      var j := UpdatedItem(page, shown, prior, next, held, plain, d, next[k]);
    }
    assert |d.order| == |next|;
  }

  /** Round trip: with the same list shown before and compared with, every delta can be applied. */
  lemma RebuildRoundTrip(
    prior: seq<Value>, next: seq<Value>, held: seq<Value>, plain: Value -> Value,
    known: string, revision: string, envelope: Object)
    requires WellFormed(prior) && WellFormed(next) && Copies(held, prior, plain) && KeepsIds(plain)
    ensures var r := Rebuild(held, DeltaOf(prior, next, known, revision, envelope));
            r.Some? && Copies(r.value, next, plain)
  {
    RebuildExact(prior, prior, prior, next, held, plain, DeltaOf(prior, next, known, revision, envelope));
  }

  /** With the old list itself held, the rebuilt list is the new one, order included. */
  lemma DeltaRoundTrip(prior: seq<Value>, next: seq<Value>, known: string, revision: string, envelope: Object)
    requires WellFormed(prior) && WellFormed(next)
    ensures Rebuild(prior, DeltaOf(prior, next, known, revision, envelope)) == Some(next)
  {
    RebuildRoundTrip(prior, next, prior, v => v, known, revision, envelope);
    assert Rebuild(prior, DeltaOf(prior, next, known, revision, envelope)).value == next;
  }

  // ---------------------------------------------------------------- myTasksDelta

  /** The view callback renderMyTasks passes in. */
  method ViewOf(memo: StatusMemo, tasks: seq<Value>, filtered: bool) returns (shown: seq<Value>)
    requires memo.Valid()
    modifies memo
    ensures memo.Valid()
    ensures forall table | memo.Agrees(table) :: old(memo.Agrees(table)) && shown == View(tasks, table, filtered)
  {
    if filtered { return tasks; }
    var active := ActiveOnlyMyTasks(memo, tasks);
    match active
    case Ok(selection) => return selection.0;
    case Err(_) => return tasks;
  }

  /** The first loop: the encoded old items by id, or None for an item or id that cannot serve. */
  method IndexOld(codec: Codec, tasks: seq<Value>) returns (prior: Option<map<string, Bytes>>)
    requires codec.Lossless()
    ensures prior.Some? <==> WellFormed(tasks)
    ensures prior.Some? ==>
      && (forall id :: id in prior.value <==> id in Ids(tasks))
      && (forall k | 0 <= k < |tasks| ::
            Id(tasks[k]) in prior.value && prior.value[Id(tasks[k])] == codec.encode(tasks[k].fields))
  {
    var m: map<string, Bytes> := map[];
    for n := 0 to |tasks|
      invariant WellFormed(tasks[..n])
      invariant forall id :: id in m <==> id in Ids(tasks[..n])
      invariant forall k | 0 <= k < n :: Id(tasks[k]) in m && m[Id(tasks[k])] == codec.encode(tasks[k].fields)
    {
      WellFormedSnoc(tasks, n);
      if !tasks[n].Obj? || Text(tasks[n].fields, "id") == "" || Text(tasks[n].fields, "id") in m {
        IllFormedPrefix(tasks, n + 1);
        return None;
      }
      m := m[Text(tasks[n].fields, "id") := codec.encode(tasks[n].fields)];
      assert forall k | 0 <= k < n :: Ids(tasks[..n])[k] == Id(tasks[k]);
    }
    assert tasks[..|tasks|] == tasks;
    return Some(m);
  }

  /** The second loop: an item is changed when its encoding differs from the old one of its id. */
  method CollectChanged(codec: Codec, ghost oldTasks: seq<Value>, prior: map<string, Bytes>, tasks: seq<Value>)
    returns (changed: seq<Value>)
    requires codec.Lossless() && WellFormed(oldTasks) && WellFormed(tasks)
    requires forall id :: id in prior <==> id in Ids(oldTasks)
    requires forall k | 0 <= k < |oldTasks| ::
               Id(oldTasks[k]) in prior && prior[Id(oldTasks[k])] == codec.encode(oldTasks[k].fields)
    ensures changed == Changed(oldTasks, tasks)
  {
    changed := [];
    for n := 0 to |tasks|
      invariant changed == Changed(oldTasks, tasks[..n])
    {
      var id := Text(tasks[n].fields, "id");
      if !(id in prior && prior[id] == codec.encode(tasks[n].fields)) {
        assert tasks[n] !in oldTasks;
        changed := changed + [tasks[n]];
      } else {
        ghost var k :| 0 <= k < |oldTasks| && Ids(oldTasks)[k] == id;
        EncodeInjective(codec, oldTasks[k].fields, tasks[n].fields);
        assert oldTasks[k] == tasks[n];
      }
      assert tasks[..n + 1][..n] == tasks[..n];
    }
    assert tasks[..|tasks|] == tasks;
  }

  /** The third loop. */
  method CollectRemoved(oldTasks: seq<Value>, tasks: seq<Value>) returns (removed: seq<string>)
    ensures removed == Removed(Ids(oldTasks), Ids(tasks))
  {
    removed := [];
    var oldOrder, seen := Ids(oldTasks), set id | id in Ids(tasks);
    for n := 0 to |oldOrder|
      invariant removed == Removed(oldOrder[..n], Ids(tasks))
    {
      if oldOrder[n] !in seen { removed := removed + [oldOrder[n]]; }
      assert oldOrder[..n + 1][..n] == oldOrder[..n];
    }
    assert oldOrder[..|oldOrder|] == oldOrder;
  }

  /** myTasksDelta. The current page has passed validation, which its unchecked assertions rely on. */
  method MyTasksDelta(
    codec: Codec, base: Bytes, current: Object, known: string, revision: string,
    memo: StatusMemo, filtered: bool) returns (r: Option<Delta>)
    requires codec.Lossless() && memo.Valid()
    requires WellFormed(Tasks(current))
    modifies memo
    ensures memo.Valid()
    ensures forall table | memo.Agrees(table) ::
      old(memo.Agrees(table)) && r == DeltaFrom(codec, base, current, known, revision, table, filtered)
  {
    var previous := codec.decode(base);
    if previous.None? { return None; }
    if !("tasks" in previous.value && previous.value["tasks"].Arr?) { return None; }
    var oldTasks := ViewOf(memo, Tasks(previous.value), filtered);
    var newTasks := ViewOf(memo, Tasks(current), filtered);
    memo.TableAgrees();
    ViewWellFormed(Tasks(current), memo.Table(), filtered);
    r := DeltaBetween(codec, oldTasks, newTasks, known, revision, Envelope(current));
  }

  /** The loops of myTasksDelta over the two views. */
  method DeltaBetween(
    codec: Codec, oldTasks: seq<Value>, newTasks: seq<Value>, known: string, revision: string, envelope: Object)
    returns (r: Option<Delta>)
    requires codec.Lossless() && WellFormed(newTasks)
    ensures r.Some? <==> WellFormed(oldTasks)
    ensures r.Some? ==> r.value == DeltaOf(oldTasks, newTasks, known, revision, envelope)
  {
    var index := IndexOld(codec, oldTasks);
    if index.None? { return None; }
    var changed := CollectChanged(codec, oldTasks, index.value, newTasks);
    var removed := CollectRemoved(oldTasks, newTasks);
    return Some(Delta(known, revision, changed, removed, Ids(newTasks), envelope));
  }
}
