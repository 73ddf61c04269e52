/**
 How get_my_tasks renders a page (internal/mcp/my_tasks_snapshot.go:108-242,
 391-459, internal/mcp/tools.go:2145-2201).
 */
module MyTasksRender {
  import opened Wrappers
  import opened Json
  import opened ActiveTasks
  import opened SnapshotCache
  import opened SnapshotDelta

  // ---------------------------------------------------------------- validation

  predicate CompleteItem(task: Value) {
    && task.Obj?
    && !IsTrue(task.fields, "description_truncated")
    && !(IsTrue(task.fields, "has_description") && Text(task.fields, "description") == "")
  }

  /** The page may serve as a complete snapshot. */
  ghost predicate Complete(page: Object) {
    && !IsTrue(page, "truncated")
    && "tasks" in page && page["tasks"].Arr?
    && WellFormed(Tasks(page))
    && forall k | 0 <= k < |Tasks(page)| :: CompleteItem(Tasks(page)[k])
  }

  predicate VersionedItem(task: Value) {
    task.Obj? && "version" in task.fields && task.fields["version"].Num? && 1 <= task.fields["version"].n < INT64_LIMIT
  }

  /** Every item has an authoritative version, so the page may be advertised with a revision. */
  ghost predicate Versioned(page: Object) {
    forall k | 0 <= k < |Tasks(page)| :: VersionedItem(Tasks(page)[k])
  }

  /** validateMyTasksSnapshot; None is a refusal. */
  method ValidateMyTasksSnapshot(page: Object) returns (versioned: Option<bool>)
    ensures versioned.Some? <==> Complete(page)
    ensures versioned.Some? ==> (versioned.value <==> Versioned(page))
  {
    if IsTrue(page, "truncated") { return None; }
    if !("tasks" in page && page["tasks"].Arr?) { return None; }
    var tasks, all, seen := Tasks(page), true, {};
    for n := 0 to |tasks|
      invariant WellFormed(tasks[..n])
      invariant forall k | 0 <= k < n :: CompleteItem(tasks[k])
      invariant forall id :: id in seen <==> id in Ids(tasks[..n])
      invariant all <==> forall k | 0 <= k < n :: VersionedItem(tasks[k])
    {
      WellFormedSnoc(tasks, n);
      if !tasks[n].Obj? || Id(tasks[n]) == "" || Id(tasks[n]) in seen {
        IllFormedPrefix(tasks, n + 1);
        return None;
      }
      seen := seen + {Id(tasks[n])};
      if !CompleteItem(tasks[n]) { return None; }
      if !VersionedItem(tasks[n]) { all := false; }
    }
    assert tasks[..|tasks|] == tasks;
    return Some(all);
  }

  // ---------------------------------------------------------------- lean and slim

  /** The lean drop list minus url and parent_task_id, which this view keeps. */
  const LEAN_DROP: set<string> := {
    "assignee_id", "assignee_type", "assigned_by", "created_by", "created_by_name", "created_by_type",
    "created_at", "completed_at", "delegation_level", "position", "human_gate_class", "is_shipped"}

  const LEAN_DROP_WHEN_EMPTY: set<string> := {
    "parent_task_id", "custom_fields", "dod_checks", "estimated_hours", "start_after", "subtask_count",
    "artifact_count", "vcs_link_count", "completion_signal", "due_date", "human_gate", "acceptance_missing"}

  const COLD_DROP_WHEN_EMPTY: set<string> := {"checkout_generation", "vcs_pipeline_status"}

  function EmptyAmong(o: Object, keys: set<string>): set<string> {
    set k | k in keys && IsEmpty(o, k)
  }

  function LeanItem(task: Value): Value {
    if !task.Obj? then task
    else Obj(Without(task.fields, LEAN_DROP + EmptyAmong(task.fields, LEAN_DROP_WHEN_EMPTY)))
  }

  function SlimItem(task: Value, hoist: bool): Value {
    if !task.Obj? then task
    else
      Obj(Without(task.fields, (if hoist then {"url"} else {}) + EmptyAmong(task.fields, COLD_DROP_WHEN_EMPTY)))
  }

  function MapTasks(tasks: seq<Value>, f: Value -> Value): seq<Value> {
    seq(|tasks|, k requires 0 <= k < |tasks| => f(tasks[k]))
  }

  /** The item's url is the task prefix followed by its id. */
  predicate UrlFromId(task: Value, prefix: string) {
    task.Obj? && Id(task) != "" && Text(task.fields, "url") == prefix + Id(task)
  }

  /** The page's urls may move to one template: there is a card, and every card's url is the prefix and its id. */
  ghost predicate Hoists(tasks: seq<Value>, allowed: string) {
    && allowed != ""
    && (exists k :: 0 <= k < |tasks| && tasks[k].Obj?)
    && forall k | 0 <= k < |tasks| && tasks[k].Obj? :: UrlFromId(tasks[k], allowed)
  }

  /** The first part of s when it ends in t. */
  function TrimSuffix(s: string, t: string): Option<string> {
    if |t| <= |s| && s[|s| - |t|..] == t then Some(s[..|s| - |t|]) else None
  }

  lemma TrimSuffixExact(s: string, t: string, p: string)
    ensures TrimSuffix(s, t) == Some(p) <==> s == p + t
  {
    if s == p + t {
      assert s[|s| - |t|..] == t;
      assert s[..|s| - |t|] == p;
    }
    if TrimSuffix(s, t) == Some(p) {
      assert s == s[..|s| - |t|] + s[|s| - |t|..];
    }
  }

  /** The prefix scan of slimMyTasksItems: whether all cards share the allowed prefix. */
  method SharedPrefix(tasks: seq<Value>, allowed: string) returns (hoist: bool)
    ensures hoist <==> Hoists(tasks, allowed)
  {
    var prefix, uniform := "", true;
    for n := 0 to |tasks|
      invariant prefix == "" ==> (uniform <==> forall k | 0 <= k < n :: !tasks[k].Obj?)
      invariant prefix == "" ==> forall k, q | 0 <= k < n && q != "" :: !UrlFromId(tasks[k], q)
      invariant prefix != "" ==> exists k :: 0 <= k < n && UrlFromId(tasks[k], prefix)
      invariant prefix != "" ==>
          (uniform <==> forall k | 0 <= k < n && tasks[k].Obj? :: UrlFromId(tasks[k], prefix))
    {
      if tasks[n].Obj? {
        var u, id := Text(tasks[n].fields, "url"), Id(tasks[n]);
        var p := if u == "" || id == "" then None else TrimSuffix(u, id);
        forall q { TrimSuffixExact(u, id, q); }
        if p.None? || p.value == "" {
          uniform := false;
        } else if prefix == "" {
          prefix := p.value;
          assert UrlFromId(tasks[n], prefix);
        } else if p.value != prefix {
          uniform := false;
        }
      }
    }
    hoist := uniform && prefix != "" && prefix == allowed;
    if Hoists(tasks, allowed) {
      var k :| 0 <= k < |tasks| && tasks[k].Obj?;
      assert UrlFromId(tasks[k], allowed);
      var j :| 0 <= j < |tasks| && UrlFromId(tasks[j], prefix);
      TrimSuffixExact(Text(tasks[j].fields, "url"), Id(tasks[j]), prefix);
      TrimSuffixExact(Text(tasks[j].fields, "url"), Id(tasks[j]), allowed);
    }
  }

  /** slimMyTasksItems: rewrites the items in place and returns the url template or "". */
  method SlimMyTasksItems(tasks: array<Value>, allowed: string) returns (template: string)
    modifies tasks
    ensures tasks[..] == MapTasks(old(tasks[..]), v => SlimItem(v, Hoists(old(tasks[..]), allowed)))
    ensures template == if Hoists(old(tasks[..]), allowed) then allowed + "{id}" else ""
  {
    ghost var before := tasks[..];
    var hoist := SharedPrefix(tasks[..], allowed);
    for n := 0 to tasks.Length
      invariant forall k | 0 <= k < tasks.Length :: tasks[k] == if k < n then SlimItem(before[k], hoist) else before[k]
    {
      tasks[n] := SlimItem(tasks[n], hoist);
    }
    template := if hoist then allowed + "{id}" else "";
  }

  /** What a reader does with a hoisted template. */
  function Expand(template: string, task: Value): string
    requires |template| >= 4
  {
    template[..|template| - 4] + Id(task)
  }

  /** Slimming loses nothing: the template gives back the url, and only empty fields were dropped. */
  lemma SlimIsLossless(tasks: seq<Value>, allowed: string, k: nat)
    requires k < |tasks| && tasks[k].Obj?
    ensures var slim := SlimItem(tasks[k], Hoists(tasks, allowed));
            && slim.Obj? && Id(slim) == Id(tasks[k])
            && (if Hoists(tasks, allowed)
                then "url" !in slim.fields && Expand(allowed + "{id}", slim) == Text(tasks[k].fields, "url")
                else ("url" in slim.fields <==> "url" in tasks[k].fields))
            && (forall f | f in slim.fields :: f in tasks[k].fields && slim.fields[f] == tasks[k].fields[f])
            && (forall f | f in tasks[k].fields && f !in slim.fields && f != "url" ::
                  f in COLD_DROP_WHEN_EMPTY && IsEmpty(tasks[k].fields, f))
  {
    var t := allowed + "{id}";
    assert t[..|t| - 4] == allowed;
  }

  // ---------------------------------------------------------------- the snapshot and its cold view

  /** The rendered page a revision is taken over. */
  ghost function Snapshot(upstream: Object, allowed: string): Object {
    var lean := MapTasks(Tasks(upstream), LeanItem);
    var hoist := Hoists(lean, allowed);
    var page := upstream["tasks" := Arr(MapTasks(lean, v => SlimItem(v, hoist)))];
    if hoist then page["url_template" := Str(allowed + "{id}")] else page
  }

  const DESCRIPTION_KEYS: set<string> := {"description", "description_truncated"}

  /** The item without its description, flagged when there was one. */
  function Plain(task: Value): Value {
    if !task.Obj? then task
    else
      var o := Without(task.fields, DESCRIPTION_KEYS);
      Obj(if Text(task.fields, "description") != "" then o["has_description" := Bool(true)] else o)
  }

  const OMITTED_NOTE :=
    "cold view lists in_progress, review and the top todo only; " +
    "full=true or get_my_tasks(status_category=...) / list_tasks returns the rest"

  function CountsObject(counts: map<string, nat>): Value {
    Obj(map c | c in counts :: Num(counts[c]))
  }

  /** The fields a cold view sets: the shown tasks, what was omitted, and the notices. */
  function ColdFields(compact: seq<Value>, table: StatusTable, filtered: bool): Object {
    var always := map["tasks" := Arr(compact), "description_omitted" := Str(DESCRIPTION_NOTE)];
    if filtered then always
    else
      match ActiveOnly(compact, table)
      case Err(e) =>
        always["omitted_unavailable" := Str(e)]["omitted_note" := Str(OMITTED_NOTE)]
      case Ok(selection) =>
        always["tasks" := Arr(selection.0)]["omitted" := CountsObject(selection.1)]
              ["omitted_note" := Str(OMITTED_NOTE)]["count" := Num(|selection.0|)]
  }

  /** compactMyTasksCold as a function of the lookups. */
  function ColdView(page: Object, table: StatusTable, filtered: bool): Object {
    page + ColdFields(MapTasks(Tasks(page), Plain), table, filtered)
  }

  /** The updates the code makes one by one are the cold fields. */
  lemma ColdUpdates(page: Object, table: StatusTable, filtered: bool)
    ensures var compact := MapTasks(Tasks(page), Plain);
            var cold := ColdView(page, table, filtered);
            if filtered then cold == page["tasks" := Arr(compact)]["description_omitted" := Str(DESCRIPTION_NOTE)]
            else
              match ActiveOnly(compact, table)
              case Err(e) =>
                cold == page["omitted_unavailable" := Str(e)]["omitted_note" := Str(OMITTED_NOTE)]
                            ["tasks" := Arr(compact)]["description_omitted" := Str(DESCRIPTION_NOTE)]
              case Ok(selection) =>
                cold == page["omitted" := CountsObject(selection.1)]["omitted_note" := Str(OMITTED_NOTE)]
                            ["count" := Num(|selection.0|)]["tasks" := Arr(selection.0)]
                            ["description_omitted" := Str(DESCRIPTION_NOTE)]
  {
  }

  /** compactMyTasksCold. */
  method CompactMyTasksCold(page: Object, memo: StatusMemo, filtered: bool) returns (out: Object)
    requires memo.Valid()
    modifies memo
    ensures memo.Valid()
    ensures forall table | memo.Agrees(table) :: old(memo.Agrees(table)) && out == ColdView(page, table, filtered)
  {
    var compact := PlainAll(Tasks(page));
    out := page;
    forall table { ColdUpdates(page, table, filtered); }
    if !filtered {
      var active := ActiveOnlyMyTasks(memo, compact);
      match active {
        case Err(e) =>
          out := out["omitted_unavailable" := Str(e)]["omitted_note" := Str(OMITTED_NOTE)];
        case Ok(selection) =>
          compact := selection.0;
          out := out["omitted" := CountsObject(selection.1)]["omitted_note" := Str(OMITTED_NOTE)]
                    ["count" := Num(|compact|)];
      }
    }
    out := out["tasks" := Arr(compact)]["description_omitted" := Str(DESCRIPTION_NOTE)];
  }

  /** The copying loop of compactMyTasksCold. */
  method PlainAll(tasks: seq<Value>) returns (compact: seq<Value>)
    ensures compact == MapTasks(tasks, Plain)
  {
    compact := [];
    for n := 0 to |tasks|
      invariant compact == MapTasks(tasks[..n], Plain)
    {
      compact := compact + [Plain(tasks[n])];
    }
    assert tasks[..|tasks|] == tasks;
  }

  // ---------------------------------------------------------------- the answer

  datatype Request = Request(full: bool, statusCategory: string, known: string, acceptDelta: bool)

  datatype Response =
    | Whole(page: Object)            // full=true: the upstream page untouched
    | Failed                         // an error result
    | Unchanged(revision: string)
    | Changes(delta: Delta)
    | Cold(page: Object)

  const COLD_ENVELOPE_KEYS: seq<string> := ["omitted", "omitted_note", "omitted_unavailable", "count"]

  /** The delta envelope takes these keys from a fresh cold view. */
  function TakeFrom(envelope: Object, cold: Object, keys: seq<string>): Object {
    if keys == [] then envelope
    else
      var k := keys[|keys| - 1];
      var e := TakeFrom(envelope, cold, keys[..|keys| - 1]);
      if k in cold then e[k := cold[k]] else e
  }

  ghost function ColdAnswer(page: Object, table: StatusTable, filtered: bool): Response {
    Cold(ColdView(page, table, filtered))
  }

  /** What renderMyTasks answers, given the base its cache exchange returned. */
  ghost function Respond(
    codec: Codec, table: StatusTable, allowed: string, request: Request, upstream: Object,
    scope: string, base: Bytes): Response
  {
    var filtered := request.statusCategory != "";
    if request.full then Whole(upstream)
    else if !Complete(upstream) then Failed
    else
      var page := Snapshot(upstream, allowed);
      if !Versioned(upstream) || scope == "" then ColdAnswer(page, table, filtered)
      else
        var body := codec.encode(page);
        var revision := codec.digest(scope, body);
        if base != [] && base == body then Unchanged(revision)
        else
          var delta := DeltaFrom(codec, base, page, request.known, revision, table, filtered);
          if base != [] && request.acceptDelta && delta.Some? then
            Changes(delta.value.(envelope :=
              TakeFrom(delta.value.envelope, ColdView(page, table, filtered), COLD_ENVELOPE_KEYS)))
          else ColdAnswer(page["revision" := Str(revision)], table, filtered)
  }

  /** The request takes part in the exchange, so its snapshot is stored. */
  ghost predicate Exchanges(request: Request, upstream: Object, scope: string) {
    !request.full && Complete(upstream) && Versioned(upstream) && scope != ""
  }

  /** A field no drop list names is the same before and after. */
  lemma FieldKept(task: Value, hoist: bool, key: string)
    requires task.Obj? && key !in LEAN_DROP && key !in LEAN_DROP_WHEN_EMPTY
    requires key !in COLD_DROP_WHEN_EMPTY && key != "url"
    ensures Text(SlimItem(LeanItem(task), hoist).fields, key) == Text(task.fields, key)
  {
  }

  lemma SnapshotKeepsIds(upstream: Object, allowed: string)
    requires WellFormed(Tasks(upstream))
    ensures Ids(Tasks(Snapshot(upstream, allowed))) == Ids(Tasks(upstream))
    ensures WellFormed(Tasks(Snapshot(upstream, allowed)))
  {
    var before, after := Tasks(upstream), Tasks(Snapshot(upstream, allowed));
    var hoist := Hoists(MapTasks(before, LeanItem), allowed);
    forall k | 0 <= k < |before| ensures Id(after[k]) == Id(before[k]) && after[k].Obj? {
      FieldKept(before[k], hoist, "id");
      assert after[k] == SlimItem(LeanItem(before[k]), hoist);
    }
    assert Ids(after) == Ids(before);
  }

  // ---------------------------------------------------------------- renderMyTasks

  /** The lean and slim passes over the page. */
  method RenderSnapshot(upstream: Object, allowed: string) returns (page: Object)
    ensures page == Snapshot(upstream, allowed)
  {
    var tasks := Tasks(upstream);
    var items := new Value[|tasks|](k requires 0 <= k < |tasks| => LeanItem(tasks[k]));
    ghost var lean := MapTasks(tasks, LeanItem);
    assert items[..] == lean;
    var template := SlimMyTasksItems(items, allowed);
    page := upstream["tasks" := Arr(items[..])];
    if template != "" { page := page["url_template" := Str(template)]; }
  }

  /** The loop that copies the cold view's keys into a delta envelope. */
  method MergeEnvelope(envelope: Object, cold: Object) returns (merged: Object)
    ensures merged == TakeFrom(envelope, cold, COLD_ENVELOPE_KEYS)
  {
    merged := envelope;
    for n := 0 to |COLD_ENVELOPE_KEYS|
      invariant merged == TakeFrom(envelope, cold, COLD_ENVELOPE_KEYS[..n])
    {
      var k := COLD_ENVELOPE_KEYS[n];
      assert COLD_ENVELOPE_KEYS[..n + 1][..n] == COLD_ENVELOPE_KEYS[..n];
      if k in cold { merged := merged[k := cold[k]]; }
    }
    assert COLD_ENVELOPE_KEYS[..|COLD_ENVELOPE_KEYS|] == COLD_ENVELOPE_KEYS;
  }

  /** The base the exchange of one request returns; no exchange, no base. */
  ghost function BaseFor(
    codec: Codec, bases: Bases, allowed: string, request: Request, upstream: Object, scope: string, now: int): Bytes
  {
    if Exchanges(request, upstream, scope) then
      Previous(codec.digest, bases, scope, request.known, codec.encode(Snapshot(upstream, allowed)), now)
    else []
  }

  /** renderMyTasks after the exchange: unchanged, a delta, or cold. */
  method AnswerFrom(
    codec: Codec, memo: StatusMemo, filtered: bool, request: Request,
    page: Object, body: Bytes, revision: string, base: Bytes) returns (r: Response)
    requires codec.Lossless() && memo.Valid() && WellFormed(Tasks(page))
    modifies memo
    ensures memo.Valid()
    ensures base != [] && base == body ==> r == Unchanged(revision)
    ensures !(base != [] && base == body) ==>
      forall table | memo.Agrees(table) ::
        && old(memo.Agrees(table))
        && var delta := DeltaFrom(codec, base, page, request.known, revision, table, filtered);
           if base != [] && request.acceptDelta && delta.Some? then
             r == Changes(delta.value.(envelope :=
                    TakeFrom(delta.value.envelope, ColdView(page, table, filtered), COLD_ENVELOPE_KEYS)))
           else r == ColdAnswer(page["revision" := Str(revision)], table, filtered)
  {
    if base != [] && base == body { return Unchanged(revision); }
    if base != [] && request.acceptDelta {
      var delta := MyTasksDelta(codec, base, page, request.known, revision, memo, filtered);
      if delta.Some? {
        var cold := CompactMyTasksCold(page, memo, filtered);
        var envelope := MergeEnvelope(delta.value.envelope, cold);
        return Changes(delta.value.(envelope := envelope));
      }
    }
    var out := CompactMyTasksCold(page["revision" := Str(revision)], memo, filtered);
    return Cold(out);
  }

  /** renderMyTasks. */
  method RenderMyTasks(
    codec: Codec, cache: MyTasksSnapshots, memo: StatusMemo, allowed: string,
    request: Request, upstream: Object, scope: string, now: int) returns (r: Response)
    requires codec.Lossless() && codec.NeverEmpty()
    requires cache.Valid() && cache.digest == codec.digest && memo.Valid()
    modifies cache, memo
    ensures cache.Valid() && memo.Valid()
    ensures if Exchanges(request, upstream, scope) then
              var body := codec.encode(Snapshot(upstream, allowed));
              Stored(old(cache.bases), scope, codec.digest(scope, body), body, now, cache.bases)
            else cache.bases == old(cache.bases)
    ensures forall table | memo.Agrees(table) ::
      r == Respond(codec, table, allowed, request, upstream, scope,
                   BaseFor(codec, old(cache.bases), allowed, request, upstream, scope, now))
  {
    var filtered := request.statusCategory != "";
    if request.full { return Whole(upstream); }
    var versioned := ValidateMyTasksSnapshot(upstream);
    if versioned.None? { return Failed; }
    var page := RenderSnapshot(upstream, allowed);
    if !versioned.value || scope == "" {
      var out := CompactMyTasksCold(page, memo, filtered);
      return Cold(out);
    }
    SnapshotKeepsIds(upstream, allowed);
    var body := codec.encode(page);
    var revision := codec.digest(scope, body);
    assert Exchanges(request, upstream, scope);
    var base := cache.Exchange(scope, revision, request.known, body, now);
    r := AnswerFrom(codec, memo, filtered, request, page, body, revision, base);
  }
}
