/**
 What get_my_tasks shows and leaves out, written out in the names and values of the
 data (internal/mcp/my_tasks_snapshot.go:108-459, internal/mcp/tools.go:2145-2219).
 */
module MyTasksPlain {
  import opened Wrappers
  import opened Json
  import opened ActiveTasks
  import opened SnapshotCache
  import opened SnapshotDelta
  import opened MyTasksRender
  import StableSort

  // ---------------------------------------------------------------- the fields of a card

  /** Every card's url is the prefix and its id, and so moves to the envelope. */
  ghost predicate UrlsMove(tasks: seq<Value>, allowed: string) {
    && allowed != ""
    && forall t | t in tasks && t.Obj? ::
         && "id" in t.fields && t.fields["id"].Str? && t.fields["id"].s != ""
         && "url" in t.fields && t.fields["url"] == Str(allowed + t.fields["id"].s)
  }

  /** A value that says nothing. */
  predicate SaysNothing(v: Value) {
    v == Null || v == Str("") || v == Num(0) || v == Bool(false) || v == Arr([]) || v == Obj(map[])
  }

  predicate DroppedByName(key: string) {
    key in {"assignee_id", "assignee_type", "assigned_by", "created_by", "created_by_name", "created_by_type",
            "created_at", "completed_at", "delegation_level", "position", "human_gate_class", "is_shipped"}
  }

  predicate DroppedByLean(key: string) {
    key in {"parent_task_id", "custom_fields", "dod_checks", "estimated_hours", "start_after", "subtask_count",
            "artifact_count", "vcs_link_count", "completion_signal", "due_date", "human_gate", "acceptance_missing"}
  }

  predicate DroppedBySlim(key: string) {
    key in {"checkout_generation", "vcs_pipeline_status"}
  }

  /** The rendered card keeps this field: it is not dropped by name, not empty and droppable, not a url that moves. */
  predicate Survives(key: string, v: Value, urlsMove: bool) {
    && !DroppedByName(key)
    && !((DroppedByLean(key) || DroppedBySlim(key)) && SaysNothing(v))
    && !(key == "url" && urlsMove)
  }

  lemma NamesAre(key: string)
    ensures key in LEAN_DROP <==> DroppedByName(key)
    ensures key in LEAN_DROP_WHEN_EMPTY <==> DroppedByLean(key)
    ensures key in COLD_DROP_WHEN_EMPTY <==> DroppedBySlim(key)
  {
  }

  lemma UrlIsNotDropped()
    ensures !DroppedByName("url") && !DroppedByName("id")
    ensures !DroppedByLean("url") && !DroppedByLean("id")
  {
  }

  lemma EmptyMeans(o: Object, key: string)
    ensures key in o ==> (IsEmpty(o, key) <==> SaysNothing(o[key]))
  {
  }

  lemma WithoutField(o: Object, always: set<string>, whenEmpty: set<string>, key: string)
    ensures var out := Without(o, always + EmptyAmong(o, whenEmpty));
            && (key in out <==> key in o && key !in always && !(key in whenEmpty && SaysNothing(o[key])))
            && (key in out ==> out[key] == o[key])
  {
    EmptyMeans(o, key);
  }

  lemma LeanField(task: Value, key: string)
    requires task.Obj?
    ensures LeanItem(task).Obj?
    ensures var out := LeanItem(task).fields;
            && (key in out <==> key in task.fields && !DroppedByName(key)
                                && !(DroppedByLean(key) && SaysNothing(task.fields[key])))
            && (key in out ==> out[key] == task.fields[key])
  {
    WithoutField(task.fields, LEAN_DROP, LEAN_DROP_WHEN_EMPTY, key);
    NamesAre(key);
  }

  lemma SlimField(task: Value, hoist: bool, key: string)
    requires task.Obj?
    ensures SlimItem(task, hoist).Obj?
    ensures var out := SlimItem(task, hoist).fields;
            && (key in out <==> key in task.fields && !(key == "url" && hoist)
                                && !(DroppedBySlim(key) && SaysNothing(task.fields[key])))
            && (key in out ==> out[key] == task.fields[key])
  {
    WithoutField(task.fields, if hoist then {"url"} else {}, COLD_DROP_WHEN_EMPTY, key);
    NamesAre(key);
  }

  lemma LeanKeepsUrl(task: Value)
    requires task.Obj?
    ensures Text(LeanItem(task).fields, "id") == Text(task.fields, "id")
    ensures Text(LeanItem(task).fields, "url") == Text(task.fields, "url")
  {
    UrlIsNotDropped();
    LeanField(task, "id");
    LeanField(task, "url");
  }

  lemma UrlsMoveIff(tasks: seq<Value>, allowed: string)
    requires exists k :: 0 <= k < |tasks| && tasks[k].Obj?
    ensures Hoists(MapTasks(tasks, LeanItem), allowed) <==> UrlsMove(tasks, allowed)
  {
    var lean := MapTasks(tasks, LeanItem);
    forall k | 0 <= k < |tasks|
      ensures lean[k].Obj? <==> tasks[k].Obj?
      ensures tasks[k].Obj? ==> Text(lean[k].fields, "id") == Text(tasks[k].fields, "id")
      ensures tasks[k].Obj? ==> Text(lean[k].fields, "url") == Text(tasks[k].fields, "url")
    {
      assert lean[k] == LeanItem(tasks[k]);
      if tasks[k].Obj? { LeanKeepsUrl(tasks[k]); }
    }
    if Hoists(lean, allowed) {
      forall t | t in tasks && t.Obj?
        ensures && "id" in t.fields && t.fields["id"].Str? && t.fields["id"].s != ""
                && "url" in t.fields && t.fields["url"] == Str(allowed + t.fields["id"].s)
      {
        var k :| 0 <= k < |tasks| && tasks[k] == t;
        assert UrlFromId(lean[k], allowed);
      }
    }
    if UrlsMove(tasks, allowed) {
      forall k | 0 <= k < |lean| && lean[k].Obj? ensures UrlFromId(lean[k], allowed) { assert tasks[k] in tasks; }
      var k :| 0 <= k < |tasks| && tasks[k].Obj?;
      assert lean[k].Obj?;
    }
  }

  /** Every field of every card of a snapshot: kept with its value exactly if it survives. */
  lemma SnapshotField(upstream: Object, tasks: seq<Value>, allowed: string, k: nat, key: string)
    requires "tasks" in upstream && upstream["tasks"] == Arr(tasks) && k < |tasks| && tasks[k].Obj?
    ensures var page := Snapshot(upstream, allowed);
            && "tasks" in page && page["tasks"].Arr? && |page["tasks"].elems| == |tasks| && page["tasks"].elems[k].Obj?
            && var out, item := page["tasks"].elems[k].fields, tasks[k].fields;
               && (key in out <==> key in item && Survives(key, item[key], UrlsMove(tasks, allowed)))
               && (key in out ==> out[key] == item[key])
  {
    UrlsMoveIff(tasks, allowed);
    LeanField(tasks[k], key);
    SlimField(LeanItem(tasks[k]), Hoists(MapTasks(tasks, LeanItem), allowed), key);
  }

  /** The rest of a snapshot is the upstream page, with the template of the urls that moved. */
  lemma SnapshotEnvelope(upstream: Object, tasks: seq<Value>, allowed: string, key: string)
    requires "tasks" in upstream && upstream["tasks"] == Arr(tasks) && key != "tasks"
    requires exists k :: 0 <= k < |tasks| && tasks[k].Obj?
    ensures var page := Snapshot(upstream, allowed);
            if key == "url_template" && UrlsMove(tasks, allowed)
            then key in page && page[key] == Str(allowed + "{id}")
            else (key in page <==> key in upstream) && (key in page ==> page[key] == upstream[key])
  {
    UrlsMoveIff(tasks, allowed);
  }

  predicate HasDescription(fields: Object) {
    "description" in fields && fields["description"].Str? && fields["description"].s != ""
  }

  /** A card without its description says whether it had one, and keeps every other field. */
  lemma ColdField(task: Value, key: string)
    requires task.Obj?
    ensures Plain(task).Obj?
    ensures var out := Plain(task).fields;
            if key == "has_description" && HasDescription(task.fields) then key in out && out[key] == Bool(true)
            else && (key in out <==> key in task.fields && key != "description" && key != "description_truncated")
                 && (key in out ==> out[key] == task.fields[key])
  {
  }

  predicate SameField(cold: Object, page: Object, key: string) {
    (key in cold <==> key in page) && (key in cold ==> cold[key] == page[key])
  }

  predicate Sets(cold: Object, key: string, v: Value) {
    key in cold && cold[key] == v
  }

  /** The envelope of a cold view: the cards, their number, what is left out or why it could not be told. */
  lemma ColdEnvelope(page: Object, tasks: seq<Value>, table: StatusTable, filtered: bool, key: string)
    requires "tasks" in page && page["tasks"] == Arr(tasks)
    ensures var cold, cards := ColdView(page, table, filtered), MapTasks(tasks, Plain);
            && "description_omitted" in cold
            && (key !in {"tasks", "description_omitted", "omitted", "omitted_note", "omitted_unavailable", "count"} ==>
                  SameField(cold, page, key))
            && (filtered ==>
                  && Sets(cold, "tasks", Arr(cards))
                  && SameField(cold, page, "omitted") && SameField(cold, page, "omitted_unavailable")
                  && SameField(cold, page, "omitted_note") && SameField(cold, page, "count"))
            && (!filtered && ActiveOnly(cards, table).Err? ==>
                  && Sets(cold, "tasks", Arr(cards)) && "omitted_note" in cold
                  && Sets(cold, "omitted_unavailable", Str(ActiveOnly(cards, table).error))
                  && SameField(cold, page, "omitted") && SameField(cold, page, "count"))
            && (!filtered && ActiveOnly(cards, table).Ok? ==>
                  var (shown, hidden) := ActiveOnly(cards, table).value;
                  && Sets(cold, "tasks", Arr(shown)) && "omitted_note" in cold
                  && Sets(cold, "count", Num(|shown|)) && SameField(cold, page, "omitted_unavailable")
                  && "omitted" in cold && cold["omitted"].Obj?
                  && forall c :: if c in hidden then Sets(cold["omitted"].fields, c, Num(hidden[c]))
                                 else c !in cold["omitted"].fields)
  {
    assert Tasks(page) == tasks;
  }

  // ---------------------------------------------------------------- which pages are complete

  predicate IsId(t: Value, id: string) {
    id != "" && t.Obj? && "id" in t.fields && t.fields["id"] == Str(id)
  }

  predicate Carries(t: Value, key: string, v: Value) {
    t.Obj? && key in t.fields && t.fields[key] == v
  }

  lemma IdMeans(t: Value, id: string)
    requires id != ""
    ensures t.Obj? && Id(t) == id <==> IsId(t, id)
  {
  }

  /**
   A page is accepted exactly if it is not truncated and its tasks are objects with
   nonempty ids of their own, no description cut, none announced and missing.
   */
  lemma CompleteMeans(page: Object, tasks: seq<Value>)
    requires "tasks" in page && page["tasks"] == Arr(tasks)
    ensures Complete(page) <==>
              && !("truncated" in page && page["truncated"] == Bool(true))
              && (forall k | 0 <= k < |tasks| ::
                    && (exists id :: IsId(tasks[k], id))
                    && !Carries(tasks[k], "description_truncated", Bool(true))
                    && !(Carries(tasks[k], "has_description", Bool(true)) && !HasDescription(tasks[k].fields)))
              && (forall j, k, id | 0 <= j < k < |tasks| :: !(IsId(tasks[j], id) && IsId(tasks[k], id)))
  {
    forall k | 0 <= k < |tasks| ensures tasks[k].Obj? && Id(tasks[k]) != "" <==> exists id :: IsId(tasks[k], id) {
      if Id(tasks[k]) != "" { IdMeans(tasks[k], Id(tasks[k])); }
    }
    forall j, k | 0 <= j < k < |tasks| && tasks[j].Obj? && tasks[k].Obj? && Id(tasks[j]) != "" && Id(tasks[k]) != ""
      ensures Ids(tasks)[j] != Ids(tasks)[k] <==> forall id :: !(IsId(tasks[j], id) && IsId(tasks[k], id))
    {
      assert IsId(tasks[j], Id(tasks[j])) && IsId(tasks[k], Id(tasks[k]));
    }
    if Complete(page) { assert Tasks(page) == tasks; }
  }

  /** A page without a task array is refused. */
  lemma NoTasksRefused(page: Object)
    requires !("tasks" in page && page["tasks"].Arr?)
    ensures !Complete(page)
  {
  }

  /** A revision is offered exactly if every task has a whole version from 1 up to the 64-bit limit. */
  lemma VersionedMeans(page: Object, tasks: seq<Value>)
    requires "tasks" in page && page["tasks"] == Arr(tasks)
    ensures Versioned(page) <==> forall k | 0 <= k < |tasks| ::
              && tasks[k].Obj? && "version" in tasks[k].fields && tasks[k].fields["version"].Num?
              && 1 <= tasks[k].fields["version"].n < 9_223_372_036_854_775_808
  {
    assert Tasks(page) == tasks;
    assert Versioned(page) <==> forall k | 0 <= k < |tasks| :: VersionedItem(tasks[k]);
  }

  // ---------------------------------------------------------------- which answer is given

  /** When each kind of answer is given. */
  lemma AnswerKinds(
    codec: Codec, table: StatusTable, allowed: string, request: Request, upstream: Object, scope: string, base: Bytes)
    ensures var r := Respond(codec, table, allowed, request, upstream, scope, base);
            var body := codec.encode(Snapshot(upstream, allowed));
            && (request.full <==> r.Whole?) && (r.Whole? ==> r.page == upstream)
            && (!request.full && !Complete(upstream) <==> r.Failed?)
            && (r.Unchanged? <==> !request.full && Complete(upstream) && Versioned(upstream) && scope != ""
                                  && base != [] && base == body)
            && (r.Unchanged? ==> r.revision == codec.digest(scope, body))
            && (r.Changes? ==> request.acceptDelta && Versioned(upstream) && scope != "" && base != [] && base != body
                               && r.delta.revision == codec.digest(scope, body)
                               && r.delta.baseRevision == request.known)
  {
  }

  /** A cold answer names the revision of its snapshot exactly if there is one to name. */
  lemma ColdRevision(
    codec: Codec, table: StatusTable, allowed: string, request: Request, upstream: Object, scope: string, base: Bytes)
    ensures var r := Respond(codec, table, allowed, request, upstream, scope, base);
            r.Cold? ==>
              if Versioned(upstream) && scope != ""
              then Sets(r.page, "revision", Str(codec.digest(scope, codec.encode(Snapshot(upstream, allowed)))))
              else "revision" in r.page ==> "revision" in upstream
  {
  }

  // ---------------------------------------------------------------- which cards are shown

  /** The category the lookups give a card: the one of its status in its project's listing. */
  predicate HasCategory(t: Value, table: StatusTable, category: string) {
    && t.Obj? && category != ""
    && "project_id" in t.fields && t.fields["project_id"].Str? && t.fields["project_id"].s != ""
    && "status_id" in t.fields && t.fields["status_id"].Str? && t.fields["status_id"].s != ""
    && var listing := table(t.fields["project_id"].s);
       && listing.Ok? && t.fields["status_id"].s in listing.value
       && listing.value[t.fields["status_id"].s] == category
  }

  lemma CategoryMeans(t: Value, table: StatusTable, category: string)
    ensures CategoryOf(t, table) == Ok(category) <==> HasCategory(t, table, category)
  {
  }

  lemma {:induction false} CategoriesMean(tasks: seq<Value>, table: StatusTable)
    ensures Categories(tasks, table).Ok? ==>
              forall k | 0 <= k < |tasks| :: HasCategory(tasks[k], table, Categories(tasks, table).value[k])
  {
    if tasks != [] && Categories(tasks, table).Ok? {
      var init, cats := tasks[..|tasks| - 1], Categories(tasks, table).value;
      CategoriesMean(init, table);
      CategoryMeans(tasks[|tasks| - 1], table, cats[|tasks| - 1]);
      forall k | 0 <= k < |tasks| ensures HasCategory(tasks[k], table, cats[k]) {
        if k < |init| { assert init[k] == tasks[k] && HasCategory(init[k], table, Categories(init, table).value[k]); }
      }
    }
  }

  /** The card's priority text; anything that is not a text has none. */
  function PriorityText(t: Value): string {
    if t.Obj? && "priority" in t.fields && t.fields["priority"].Str? then t.fields["priority"].s else ""
  }

  /** Priority p comes before q. */
  predicate Before(p: string, q: string) {
    || (p == "urgent" && q != "urgent")
    || (p == "high" && q != "urgent" && q != "high")
    || (p == "medium" && q != "urgent" && q != "high" && q != "medium")
    || (p == "low" && q != "urgent" && q != "high" && q != "medium" && q != "low")
  }

  lemma RankMeans(p: string, q: string)
    ensures PriorityRank(p) < PriorityRank(q) <==> Before(p, q)
  {
  }

  lemma TaskRank(tasks: seq<Value>, i: nat)
    requires i < |tasks| && tasks[i].Obj?
    ensures Rank(tasks, i) == PriorityRank(PriorityText(tasks[i]))
  {
  }

  /** The todo positions, all or those shown. */
  ghost function TodoAt(cats: seq<string>): set<nat> {
    set k: nat | k < |cats| && cats[k] == "todo"
  }

  ghost function ShownTodoAt(cats: seq<string>, shown: seq<nat>): set<nat> {
    set k: nat | k < |cats| && cats[k] == "todo" && k in shown
  }

  ghost function HiddenOf(cats: seq<string>, shown: seq<nat>, category: string): set<nat> {
    set k: nat | k < |cats| && cats[k] == category && k !in shown
  }

  predicate IsActive(category: string) {
    category == "in_progress" || category == "review"
  }

  ghost predicate ShowsCategories(cats: seq<string>, shown: seq<nat>) {
    && StableSort.Increasing(shown) && (forall m | 0 <= m < |shown| :: shown[m] < |cats|)
    && (forall k: nat | k < |cats| && IsActive(cats[k]) :: k in shown)
    && (forall k | k in shown :: IsActive(cats[k]) || cats[k] == "todo")
    && |ShownTodoAt(cats, shown)| == (if |TodoAt(cats)| < 5 then |TodoAt(cats)| else 5)
  }

  /** No hidden todo card comes before a shown one, by priority and then by position. */
  ghost predicate ShowsFirst(tasks: seq<Value>, cats: seq<string>, shown: seq<nat>)
    requires |cats| == |tasks|
  {
    forall i, j | i in ShownTodoAt(cats, shown) && j in HiddenOf(cats, shown, "todo") ::
      var p, q := PriorityText(tasks[i]), PriorityText(tasks[j]);
      !Before(q, p) && (!Before(p, q) ==> i < j)
  }

  ghost predicate CountsHidden(cats: seq<string>, shown: seq<nat>, omitted: map<string, nat>) {
    forall c :: (if c in omitted then omitted[c] else 0) == |HiddenOf(cats, shown, c)|
  }

  lemma KeptShowsCategories(tasks: seq<Value>, cats: seq<string>)
    requires |cats| == |tasks|
    ensures ShowsCategories(cats, KeptIndices(tasks, cats, |tasks|))
  {
    var shown := KeptIndices(tasks, cats, |tasks|);
    KeptIndicesExact(tasks, cats, |tasks|);
    forall k: nat | k < |cats| ensures IsActive(cats[k]) ==> k in shown { KeptByCategory(tasks, cats, k); }
    forall k | k in shown ensures IsActive(cats[k]) || cats[k] == "todo" { KeptByCategory(tasks, cats, k); }
    KeptCountsTodo(tasks, cats);
  }

  lemma KeptByCategory(tasks: seq<Value>, cats: seq<string>, k: nat)
    requires k < |cats|
    ensures IsActive(cats[k]) ==> Kept(tasks, cats, k)
    ensures Kept(tasks, cats, k) ==> IsActive(cats[k]) || cats[k] == "todo"
  {
  }

  lemma KeptCountsTodo(tasks: seq<Value>, cats: seq<string>)
    requires |cats| == |tasks|
    ensures |ShownTodoAt(cats, KeptIndices(tasks, cats, |tasks|))| == if |TodoAt(cats)| < 5 then |TodoAt(cats)| else 5
  {
    KeptIndicesExact(tasks, cats, |tasks|);
    KeptTodoCount(tasks, cats);
    assert ShownTodoAt(cats, KeptIndices(tasks, cats, |tasks|)) == KeptTodo(tasks, cats);
    assert TodoAt(cats) == TodoSet(cats);
  }

  lemma KeptShowsFirst(tasks: seq<Value>, cats: seq<string>)
    requires |cats| == |tasks| && forall k | 0 <= k < |tasks| :: tasks[k].Obj?
    ensures ShowsFirst(tasks, cats, KeptIndices(tasks, cats, |tasks|))
  {
    var shown := KeptIndices(tasks, cats, |tasks|);
    KeptIndicesExact(tasks, cats, |tasks|);
    forall i, j | i in ShownTodoAt(cats, shown) && j in HiddenOf(cats, shown, "todo")
      ensures var p, q := PriorityText(tasks[i]), PriorityText(tasks[j]); !Before(q, p) && (!Before(p, q) ==> i < j)
    {
      var p, q := PriorityText(tasks[i]), PriorityText(tasks[j]);
      OmittedNeverBeatsKept(tasks, cats, i, j);
      TaskRank(tasks, i);
      TaskRank(tasks, j);
      RankMeans(p, q);
      RankMeans(q, p);
      assert i != j;
    }
  }

  lemma KeptCountsHidden(tasks: seq<Value>, cats: seq<string>)
    requires |cats| == |tasks|
    ensures CountsHidden(cats, KeptIndices(tasks, cats, |tasks|), Omitted(tasks, cats, |tasks|))
  {
    var shown, omitted := KeptIndices(tasks, cats, |tasks|), Omitted(tasks, cats, |tasks|);
    KeptIndicesExact(tasks, cats, |tasks|);
    forall c ensures (if c in omitted then omitted[c] else 0) == |HiddenOf(cats, shown, c)| {
      CategoryConserved(tasks, cats, |tasks|, c);
      var all, kept, hidden := InCategory(cats, |tasks|, c), KeptIn(tasks, cats, |tasks|, c), HiddenOf(cats, shown, c);
      assert all == kept + hidden && kept !! hidden;
    }
  }

  /**
   The active-only answer on the cards' own texts: every in_progress and review card, the
   first five todo cards by priority and position, nothing else, in page order; and what
   is hidden is counted by category.
   */
  lemma SelectionMeans(tasks: seq<Value>, table: StatusTable) returns (cats: seq<string>, shown: seq<nat>)
    requires ActiveOnly(tasks, table).Ok?
    ensures |cats| == |tasks| && forall k | 0 <= k < |tasks| :: HasCategory(tasks[k], table, cats[k])
    ensures ShowsCategories(cats, shown) && ShowsFirst(tasks, cats, shown)
    ensures var (cards, omitted) := ActiveOnly(tasks, table).value;
            && |cards| == |shown| && (forall m | 0 <= m < |shown| :: cards[m] == tasks[shown[m]])
            && CountsHidden(cats, shown, omitted)
  {
    cats := Categories(tasks, table).value;
    shown := KeptIndices(tasks, cats, |tasks|);
    CategoriesMean(tasks, table);
    KeptShowsCategories(tasks, cats);
    KeptShowsFirst(tasks, cats);
    KeptCountsHidden(tasks, cats);
  }

  ghost predicate Categorised(t: Value, table: StatusTable) {
    exists category :: HasCategory(t, table, category)
  }

  lemma CategorisedMeans(t: Value, table: StatusTable)
    ensures CategoryOf(t, table).Ok? <==> Categorised(t, table)
  {
    if CategoryOf(t, table).Ok? { CategoryMeans(t, table, CategoryOf(t, table).value); }
    if category :| HasCategory(t, table, category) { CategoryMeans(t, table, category); }
  }

  /** It fails exactly if some card has no category. */
  lemma {:induction false} SelectionFailsIff(tasks: seq<Value>, table: StatusTable)
    ensures ActiveOnly(tasks, table).Ok? <==> forall k | 0 <= k < |tasks| :: Categorised(tasks[k], table)
  {
    CategoriesFailIff(tasks, table);
  }

  lemma {:induction false} CategoriesFailIff(tasks: seq<Value>, table: StatusTable)
    ensures Categories(tasks, table).Ok? <==> forall k | 0 <= k < |tasks| :: Categorised(tasks[k], table)
  {
    if tasks != [] {
      var init, last := tasks[..|tasks| - 1], tasks[|tasks| - 1];
      CategoriesFailIff(init, table);
      CategorisedMeans(last, table);
      assert forall k | 0 <= k < |init| :: init[k] == tasks[k];
    }
  }
}
