/**
 The conditional get_my_tasks protocol over whole runs: what a consumer holds
 that keeps its list on "unchanged", rebuilds it from a delta and replaces it on
 cold (internal/mcp/my_tasks_snapshot.go:395-459, docs/my-tasks-snapshots.md:26-63).
 */
module MyTasksRun {
  import opened Wrappers
  import opened Json
  import opened ActiveTasks
  import opened SnapshotCache
  import opened SnapshotDelta
  import opened MyTasksRender

  /** What stays fixed while calls share one scope. */
  datatype Setting = Setting(codec: Codec, allowed: string, scope: string, statusCategory: string)
  {
    ghost predicate Sound() {
      codec.Lossless() && codec.CollisionFree() && scope != ""
    }

    predicate Filtered() {
      statusCategory != ""
    }
  }

  /**
   One call: the page upstream serves, what status lookups answer during this
   call, and the cache as the call finds it. The cache may be anything at all:
   other scopes' calls, expiry, eviction, loss and corruption since the last
   call are all covered.
   */
  datatype Event = Event(
    upstream: Object, table: StatusTable, bases: Bases, now: int,
    sendKnown: bool, acceptDelta: bool, full: bool)

  /** An unversioned page carries no revision of its own. */
  ghost predicate Honest(e: Event) {
    "revision" in e.upstream ==> Versioned(e.upstream)
  }

  datatype Consumer = Consumer(revision: string, tasks: seq<Value>, envelope: Object)

  const NOTHING := Consumer("", [], map[])

  /** The request of a call: a consumer sends its retained revision or none. */
  ghost function RequestOf(s: Setting, c: Consumer, e: Event): Request {
    Request(e.full, s.statusCategory, if e.sendKnown then c.revision else "", e.acceptDelta)
  }

  ghost function BaseOf(s: Setting, c: Consumer, e: Event): Bytes {
    BaseFor(s.codec, e.bases, s.allowed, RequestOf(s, c, e), e.upstream, s.scope, e.now)
  }

  ghost function Reply(s: Setting, c: Consumer, e: Event): Response {
    Respond(s.codec, e.table, s.allowed, RequestOf(s, c, e), e.upstream, s.scope, BaseOf(s, c, e))
  }

  /** The snapshot a call renders, its revision, and the part of it the call's lookups show. */
  ghost function PageOf(s: Setting, e: Event): Object {
    Snapshot(e.upstream, s.allowed)
  }

  ghost function RevisionOf(s: Setting, page: Object): string {
    s.codec.digest(s.scope, s.codec.encode(page))
  }

  function Shown(s: Setting, page: Object, table: StatusTable): seq<Value> {
    View(Tasks(page), table, s.Filtered())
  }

  /** A consumer holds the base of the delta and every item it is not sent. */
  predicate Applies(c: Consumer, d: Delta) {
    d.baseRevision == c.revision && Rebuild(c.tasks, d).Some?
  }

  /** The documented consumer. A delta it cannot apply makes it start over. */
  function Consume(c: Consumer, r: Response): Consumer {
    match r
    case Whole(_) => c
    case Failed => c
    case Unchanged(_) => c
    case Cold(page) => Consumer(Text(page, "revision"), Tasks(page), Without(page, {"tasks", "revision"}))
    case Changes(d) =>
      if Applies(c, d) then Consumer(d.revision, Rebuild(c.tasks, d).value, Without(d.envelope, {"revision"}))
      else NOTHING
  }

  ghost function After(s: Setting, events: seq<Event>): Consumer {
    if events == [] then NOTHING
    else
      var c := After(s, events[..|events| - 1]);
      Consume(c, Reply(s, c, events[|events| - 1]))
  }

  /** The lookups behind what the consumer holds: those of the last cold answer or delta. */
  ghost function Lookups(s: Setting, events: seq<Event>): StatusTable {
    if events == [] then _ => Err("")
    else
      var init, last := events[..|events| - 1], events[|events| - 1];
      var r := Reply(s, After(s, init), last);
      if r.Cold? || r.Changes? then last.table else Lookups(s, init)
  }

  /**
   The consumer holds what a cold answer for this snapshot and these lookups
   gives, in order: every item as the snapshot has it, with or without its
   description, and the whole envelope.
   */
  ghost predicate Shows(s: Setting, c: Consumer, page: Object, table: StatusTable) {
    && Copies(c.tasks, Shown(s, page, table), Plain)
    && c.envelope == Without(ColdView(page, table, s.Filtered()), {"tasks", "revision"})
  }

  /** A retained revision names the snapshot the consumer shows. */
  ghost predicate Retains(s: Setting, c: Consumer, upstream: Object, table: StatusTable) {
    var page := Snapshot(upstream, s.allowed);
    && Complete(upstream)
    && Shows(s, c, page, table)
    && c.revision == RevisionOf(s, page)
  }

  ghost predicate Inv(s: Setting, c: Consumer, table: StatusTable) {
    c.revision == "" || exists upstream :: Retains(s, c, upstream, table)
  }

  // ---------------------------------------------------------------- views ignore descriptions

  lemma PlainKeepsField(task: Value, key: string)
    requires task.Obj? && key !in DESCRIPTION_KEYS && key != "has_description"
    ensures Text(Plain(task).fields, key) == Text(task.fields, key)
  {
  }

  lemma CategoryPlain(task: Value, table: StatusTable)
    ensures CategoryOf(Plain(task), table) == CategoryOf(task, table)
  {
    if task.Obj? {
      PlainKeepsField(task, "project_id");
      PlainKeepsField(task, "status_id");
      PlainKeepsField(task, "id");
    }
  }

  lemma {:induction false} CategoriesPlain(tasks: seq<Value>, table: StatusTable)
    ensures Categories(MapTasks(tasks, Plain), table) == Categories(tasks, table)
  {
    if tasks != [] {
      var init, plain := tasks[..|tasks| - 1], MapTasks(tasks, Plain);
      assert plain[..|tasks| - 1] == MapTasks(init, Plain);
      CategoriesPlain(init, table);
      CategoryPlain(tasks[|tasks| - 1], table);
      assert plain[|tasks| - 1] == Plain(tasks[|tasks| - 1]);
    }
  }

  lemma RankPlain(tasks: seq<Value>, i: nat)
    ensures Rank(MapTasks(tasks, Plain), i) == Rank(tasks, i)
  {
    if i < |tasks| { assert MapTasks(tasks, Plain)[i] == Plain(tasks[i]); }
    if i < |tasks| && tasks[i].Obj? { PlainKeepsField(tasks[i], "priority"); }
  }

  lemma KeptPlain(tasks: seq<Value>, cats: seq<string>, i: nat)
    requires i < |cats|
    ensures Kept(MapTasks(tasks, Plain), cats, i) == Kept(tasks, cats, i)
  {
    forall j: nat ensures Rank(MapTasks(tasks, Plain), j) == Rank(tasks, j) { RankPlain(tasks, j); }
    assert Better(MapTasks(tasks, Plain), cats, i) == Better(tasks, cats, i);
  }

  lemma {:induction false} SelectionPlain(tasks: seq<Value>, cats: seq<string>, n: nat)
    requires n <= |cats| && n <= |tasks|
    ensures KeptIndices(MapTasks(tasks, Plain), cats, n) == KeptIndices(tasks, cats, n)
    ensures Omitted(MapTasks(tasks, Plain), cats, n) == Omitted(tasks, cats, n)
  {
    if n > 0 {
      SelectionPlain(tasks, cats, n - 1);
      KeptPlain(tasks, cats, n - 1);
    }
  }

  /** Selecting and then dropping descriptions is dropping them and then selecting. */
  lemma ViewPlain(tasks: seq<Value>, table: StatusTable, filtered: bool)
    ensures View(MapTasks(tasks, Plain), table, filtered) == MapTasks(View(tasks, table, filtered), Plain)
  {
    CategoriesPlain(tasks, table);
    if ActiveOnly(tasks, table).Ok? {
      SelectionPlain(tasks, Categories(tasks, table).value, |tasks|);
    }
  }

  lemma ColdTasks(page: Object, table: StatusTable, filtered: bool)
    ensures Tasks(ColdView(page, table, filtered)) == MapTasks(View(Tasks(page), table, filtered), Plain)
  {
    ViewPlain(Tasks(page), table, filtered);
  }

  /** The revision field does not change what a cold view shows. */
  lemma ColdIgnoresRevision(page: Object, revision: string, table: StatusTable, filtered: bool)
    ensures var cold := ColdView(page["revision" := Str(revision)], table, filtered);
            var plain := ColdView(page, table, filtered);
            && Tasks(cold) == Tasks(plain)
            && Without(cold, {"tasks", "revision"}) == Without(plain, {"tasks", "revision"})
            && Text(cold, "revision") == revision
  {
    var fields := ColdFields(MapTasks(Tasks(page), Plain), table, filtered);
    assert Tasks(page["revision" := Str(revision)]) == Tasks(page);
    assert "tasks" in fields && "revision" !in fields;
    OverlayIgnores(page, fields, "revision", Str(revision), {"tasks", "revision"});
  }

  lemma OverlayIgnores(page: Object, fields: Object, key: string, value: Value, hidden: set<string>)
    requires key in hidden && key !in fields
    ensures Without(page[key := value] + fields, hidden) == Without(page + fields, hidden)
    ensures (page[key := value] + fields)[key] == value
    ensures forall k | k in fields :: (page[key := value] + fields)[k] == (page + fields)[k] == fields[k]
  {
  }

  /** A consumer that takes a cold view shows it, every item without its description. */
  lemma ColdShows(s: Setting, page: Object, revision: string, table: StatusTable)
    ensures var c := Consume(NOTHING, Cold(ColdView(page["revision" := Str(revision)], table, s.Filtered())));
            && Shows(s, c, page, table) && c.revision == revision
            && c.tasks == MapTasks(Shown(s, page, table), Plain)
    ensures Shows(s, Consume(NOTHING, Cold(ColdView(page, table, s.Filtered()))), page, table)
  {
    ColdIgnoresRevision(page, revision, table, s.Filtered());
    ColdTasks(page, table, s.Filtered());
  }

  // ---------------------------------------------------------------- the delta envelope

  lemma {:induction false} TakeFromAt(envelope: Object, cold: Object, keys: seq<string>, k: string)
    ensures k in TakeFrom(envelope, cold, keys) <==> k in envelope || (k in keys && k in cold)
    ensures k in keys && k in cold ==> TakeFrom(envelope, cold, keys)[k] == cold[k]
    ensures k in envelope && !(k in keys && k in cold) ==> TakeFrom(envelope, cold, keys)[k] == envelope[k]
  {
    if keys != [] {
      var init, last := keys[..|keys| - 1], keys[|keys| - 1];
      assert keys == init + [last];
      TakeFromAt(envelope, cold, init, k);
    }
  }

  /** The envelope a delta carries is that of a fresh cold answer. */
  lemma DeltaEnvelopeIsCold(page: Object, table: StatusTable, filtered: bool)
    ensures TakeFrom(Envelope(page), ColdView(page, table, filtered), COLD_ENVELOPE_KEYS)
         == Without(ColdView(page, table, filtered), {"tasks"})
  {
    var cold := ColdView(page, table, filtered);
    var merged := TakeFrom(Envelope(page), cold, COLD_ENVELOPE_KEYS);
    forall k ensures k in merged <==> k in Without(cold, {"tasks"}) {
      TakeFromAt(Envelope(page), cold, COLD_ENVELOPE_KEYS, k);
    }
    forall k | k in merged ensures merged[k] == Without(cold, {"tasks"})[k] {
      TakeFromAt(Envelope(page), cold, COLD_ENVELOPE_KEYS, k);
    }
  }

  // ---------------------------------------------------------------- one delta

  ghost predicate Answered(r: Response) {
    r.Unchanged? || r.Changes? || r.Cold?
  }

  lemma PlainKeepsIds()
    ensures KeepsIds(Plain)
  {
  }

  /** The delta renderMyTasks sends from one snapshot to another. */
  ghost function SentDelta(
    s: Setting, before: Object, page: Object, table: StatusTable, known: string, revision: string): Delta
  {
    DeltaOf(Shown(s, before, table), Shown(s, page, table), known, revision,
            TakeFrom(Envelope(page), ColdView(page, table, s.Filtered()), COLD_ENVELOPE_KEYS))
  }

  lemma SentEnvelope(
    s: Setting, before: Object, page: Object, table: StatusTable, known: string, revision: string)
    ensures Without(SentDelta(s, before, page, table, known, revision).envelope, {"revision"})
            == Without(ColdView(page, table, s.Filtered()), {"tasks", "revision"})
  {
    DeltaEnvelopeIsCold(page, table, s.Filtered());
  }

  /**
   A consumer that shows the base under the lookups `held` applies a delta made
   under the lookups `table` exactly if each item both snapshots show unaltered
   under `table` was shown under `held`; it then shows the new snapshot.
   */
  lemma DeltaShows(
    s: Setting, c: Consumer, before: Object, page: Object, held: StatusTable, table: StatusTable, revision: string)
    requires Shows(s, c, before, held) && WellFormed(Tasks(before)) && WellFormed(Tasks(page))
    ensures var d := SentDelta(s, before, page, table, c.revision, revision);
            && (Applies(c, d) <==> NoneHidden(Shown(s, before, held), Shown(s, before, table), Shown(s, page, table)))
            && (Applies(c, d) ==> Shows(s, Consume(c, Changes(d)), page, table))
  {
    var d := SentDelta(s, before, page, table, c.revision, revision);
    ViewWithin(Tasks(before), held, s.Filtered());
    ViewWithin(Tasks(before), table, s.Filtered());
    ViewWellFormed(Tasks(page), table, s.Filtered());
    PlainKeepsIds();
    RebuildExact(Tasks(before), Shown(s, before, held), Shown(s, before, table), Shown(s, page, table),
                 c.tasks, Plain, d);
    SentEnvelope(s, before, page, table, c.revision, revision);
  }

  // ---------------------------------------------------------------- one call

  /** Whatever the cache holds, a base it returns is the encoded snapshot the consumer retains. */
  lemma BaseIsRetained(s: Setting, c: Consumer, e: Event, held: StatusTable) returns (retained: Object)
    requires s.Sound() && Inv(s, c, held) && BaseOf(s, c, e) != []
    ensures Retains(s, c, retained, held) && RequestOf(s, c, e).known == c.revision
    ensures BaseOf(s, c, e) == s.codec.encode(Snapshot(retained, s.allowed))
  {
    var base, known := BaseOf(s, c, e), RequestOf(s, c, e).known;
    assert s.codec.digest(s.scope, base) == known;
    assert known != "";
    retained :| Retains(s, c, retained, held);
  }

  lemma ColdStep(s: Setting, c: Consumer, e: Event)
    requires Reply(s, c, e).Cold? && Honest(e)
    ensures var c' := Consume(c, Reply(s, c, e));
            && Complete(e.upstream) && Shows(s, c', PageOf(s, e), e.table)
            && (c'.revision == "" || Retains(s, c', e.upstream, e.table))
  {
    var page := PageOf(s, e);
    ColdShows(s, page, RevisionOf(s, page), e.table);
  }

  /** A delta is made from the snapshot the consumer retains. */
  lemma SentFromRetained(s: Setting, c: Consumer, e: Event, held: StatusTable) returns (retained: Object)
    requires s.Sound() && Inv(s, c, held) && Reply(s, c, e).Changes?
    ensures Retains(s, c, retained, held)
    ensures var before, page := Snapshot(retained, s.allowed), PageOf(s, e);
            && WellFormed(Tasks(before)) && WellFormed(Tasks(page))
            && Reply(s, c, e) == Changes(SentDelta(s, before, page, e.table, c.revision, RevisionOf(s, page)))
  {
    retained := BaseIsRetained(s, c, e, held);
    SnapshotKeepsIds(retained, s.allowed);
    SnapshotKeepsIds(e.upstream, s.allowed);
    assert s.codec.decode(BaseOf(s, c, e)) == Some(Snapshot(retained, s.allowed));
  }

  lemma {:induction false} ChangesStep(s: Setting, c: Consumer, e: Event, held: StatusTable)
    requires s.Sound() && Inv(s, c, held) && Reply(s, c, e).Changes?
    ensures Applies(c, Reply(s, c, e).delta) ==> Retains(s, Consume(c, Reply(s, c, e)), e.upstream, e.table)
  {
    var retained := SentFromRetained(s, c, e, held);
    DeltaShows(s, c, Snapshot(retained, s.allowed), PageOf(s, e), held, e.table, RevisionOf(s, PageOf(s, e)));
  }

  /** Exactly when a delta can be applied, in terms of the lookups of then and now. */
  lemma {:induction false} DeltaAppliesIff(s: Setting, c: Consumer, e: Event, retained: Object, held: StatusTable)
    requires s.Sound() && Retains(s, c, retained, held) && Reply(s, c, e).Changes?
    ensures var before, page := Snapshot(retained, s.allowed), PageOf(s, e);
            Applies(c, Reply(s, c, e).delta) <==>
              NoneHidden(Shown(s, before, held), Shown(s, before, e.table), Shown(s, page, e.table))
  {
    var r := SentFromRetained(s, c, e, held);
    assert s.codec.encode(Snapshot(r, s.allowed)) == s.codec.encode(Snapshot(retained, s.allowed));
    EncodeInjective(s.codec, Snapshot(r, s.allowed), Snapshot(retained, s.allowed));
    DeltaShows(s, c, Snapshot(retained, s.allowed), PageOf(s, e), held, e.table, RevisionOf(s, PageOf(s, e)));
  }

  lemma UnchangedStep(s: Setting, c: Consumer, e: Event, held: StatusTable)
    requires s.Sound() && Inv(s, c, held) && Reply(s, c, e).Unchanged?
    ensures Retains(s, c, e.upstream, held) && Reply(s, c, e).revision == c.revision
  {
    var retained := BaseIsRetained(s, c, e, held);
    EncodeInjective(s.codec, Snapshot(retained, s.allowed), PageOf(s, e));
  }

  /**
   What one answer leaves the consumer with, `held` being the lookups behind its
   list: after a cold answer or a delta it can apply, the call's snapshot under the
   call's lookups; after "unchanged", that snapshot under the lookups of before; and
   nothing rather than a wrong list when a delta cannot be applied.
   */
  ghost predicate Agrees(s: Setting, c: Consumer, held: StatusTable, e: Event, r: Response, c': Consumer) {
    match r
    case Cold(_) => Complete(e.upstream) && Shows(s, c', PageOf(s, e), e.table)
    case Changes(d) =>
      && Complete(e.upstream)
      && if Applies(c, d) then Shows(s, c', PageOf(s, e), e.table) else c' == NOTHING
    case Unchanged(_) => Complete(e.upstream) && c' == c && Shows(s, c', PageOf(s, e), held)
    case Whole(_) => c' == c
    case Failed => c' == c
  }

  lemma {:induction false} CallAgrees(s: Setting, c: Consumer, held: StatusTable, e: Event)
    requires s.Sound() && Inv(s, c, held) && Honest(e)
    ensures var r := Reply(s, c, e);
            var c' := Consume(c, r);
            && Agrees(s, c, held, e, r, c')
            && Inv(s, c', if r.Cold? || r.Changes? then e.table else held)
  {
    match Reply(s, c, e)
    case Cold(_) => ColdStep(s, c, e);
    case Changes(_) => ChangesStep(s, c, e, held);
    case Unchanged(_) => UnchangedStep(s, c, e, held);
    case Whole(_) =>
    case Failed =>
  }

  /** The cache still holds the retained snapshot, and the new one fits beside it. */
  ghost predicate BaseIsLive(s: Setting, c: Consumer, e: Event, retained: Object) {
    && Exchanges(RequestOf(s, c, e), e.upstream, s.scope) && e.sendKnown
    && |s.codec.encode(PageOf(s, e))| <= CACHE_BYTES
    && c.revision in e.bases && e.bases[c.revision].scope == s.scope && e.now < e.bases[c.revision].expires
    && e.bases[c.revision].body == s.codec.encode(Snapshot(retained, s.allowed))
  }

  /** With a live base, an unaltered page is answered "unchanged", an altered one with a delta if asked for. */
  lemma LiveBaseAnswer(s: Setting, c: Consumer, held: StatusTable, e: Event, retained: Object)
    requires s.Sound() && Retains(s, c, retained, held) && BaseIsLive(s, c, e, retained)
    ensures PageOf(s, e) == Snapshot(retained, s.allowed) ==> Reply(s, c, e) == Unchanged(c.revision)
    ensures PageOf(s, e) != Snapshot(retained, s.allowed) && e.acceptDelta ==> Reply(s, c, e).Changes?
  {
    var before := Snapshot(retained, s.allowed);
    assert BaseOf(s, c, e) == s.codec.encode(before);
    SnapshotKeepsIds(retained, s.allowed);
    ViewWellFormed(Tasks(before), e.table, s.Filtered());
    if s.codec.encode(PageOf(s, e)) == s.codec.encode(before) { EncodeInjective(s.codec, PageOf(s, e), before); }
  }

  // ---------------------------------------------------------------- every run

  /** Call `e` agrees with what the calls `before` it have left. */
  ghost predicate AgreesOn(s: Setting, before: seq<Event>, e: Event) {
    var c := After(s, before);
    Agrees(s, c, Lookups(s, before), e, Reply(s, c, e), After(s, before + [e]))
  }

  lemma {:induction false} NextCallAgrees(s: Setting, before: seq<Event>, e: Event)
    requires s.Sound() && Inv(s, After(s, before), Lookups(s, before)) && Honest(e)
    ensures Inv(s, After(s, before + [e]), Lookups(s, before + [e])) && AgreesOn(s, before, e)
  {
    assert (before + [e])[..|before|] == before;
    CallAgrees(s, After(s, before), Lookups(s, before), e);
  }

  lemma {:induction false} RunKeepsInv(s: Setting, events: seq<Event>)
    requires s.Sound() && forall k | 0 <= k < |events| :: Honest(events[k])
    ensures Inv(s, After(s, events), Lookups(s, events))
  {
    if events != [] {
      var init, last := events[..|events| - 1], events[|events| - 1];
      RunKeepsInv(s, init);
      NextCallAgrees(s, init, last);
      assert events == init + [last];
    }
  }

  /**
   Over any run of calls in one scope, whatever the cache holds and whatever the
   status lookups answer at each call, every answer leaves the consumer in
   agreement: its list is never silently wrong.
   */
  lemma {:induction false} RunAgrees(s: Setting, events: seq<Event>)
    requires s.Sound() && forall k | 0 <= k < |events| :: Honest(events[k])
    ensures forall k | 0 <= k < |events| :: AgreesOn(s, events[..k], events[k])
  {
    forall k | 0 <= k < |events| ensures AgreesOn(s, events[..k], events[k]) {
      RunKeepsInv(s, events[..k]);
      NextCallAgrees(s, events[..k], events[k]);
    }
  }

  /** Every call's lookups answer alike. */
  ghost predicate FixedLookups(events: seq<Event>, table: StatusTable) {
    forall k | 0 <= k < |events| :: events[k].table == table
  }

  lemma {:induction false} HeldLookups(s: Setting, events: seq<Event>, table: StatusTable)
    requires FixedLookups(events, table)
    ensures After(s, events).revision == "" || Lookups(s, events) == table
  {
    if events != [] {
      var init := events[..|events| - 1];
      HeldLookups(s, init, table);
      assert events[|events| - 1].table == table;
    }
  }

  /**
   With lookups that stay fixed, every answered call leaves the consumer showing
   that call's snapshot, and every delta can be applied.
   */
  lemma {:induction false} FixedRunAgrees(s: Setting, before: seq<Event>, e: Event, table: StatusTable)
    requires s.Sound() && Honest(e) && forall k | 0 <= k < |before| :: Honest(before[k])
    requires FixedLookups(before + [e], table)
    ensures Answered(Reply(s, After(s, before), e)) ==> Shows(s, After(s, before + [e]), PageOf(s, e), table)
  {
    var c, held := After(s, before), Lookups(s, before);
    RunKeepsInv(s, before);
    NextCallAgrees(s, before, e);
    assert forall k | 0 <= k < |before| :: (before + [e])[k] == before[k];
    assert (before + [e])[|before|] == e;
    HeldLookups(s, before, table);
    if Reply(s, c, e).Changes? {
      var retained := SentFromRetained(s, c, e, held);
      assert c.revision != "";
      DeltaAppliesIff(s, c, e, retained, held);
    }
    if Reply(s, c, e).Unchanged? {
      UnchangedStep(s, c, e, held);
    }
  }

  // ---------------------------------------------------------------- lookups that change

  lemma SameIdsSameList(page: seq<Value>, a: seq<Value>, b: seq<Value>)
    requires WellFormed(page) && PartOf(a, page) && PartOf(b, page)
    requires |a| == |b| && forall k | 0 <= k < |a| :: Id(a[k]) == Id(b[k])
    ensures a == b
  {
    forall k | 0 <= k < |a| ensures a[k] == b[k] {
      assert a[k] in a && b[k] in b;
      SameIdSameItem(page, a[k], b[k]);
    }
  }

  lemma SamePlainSameList(page: seq<Value>, a: seq<Value>, b: seq<Value>)
    requires WellFormed(page) && PartOf(a, page) && PartOf(b, page)
    requires MapTasks(a, Plain) == MapTasks(b, Plain)
    ensures a == b
  {
    assert |a| == |MapTasks(a, Plain)| == |b|;
    PlainKeepsIds();
    forall k | 0 <= k < |a| ensures Id(a[k]) == Id(b[k]) {
      assert Plain(a[k]) == MapTasks(a, Plain)[k] == MapTasks(b, Plain)[k] == Plain(b[k]);
      assert Id(Plain(a[k])) == Id(a[k]) && Id(Plain(b[k])) == Id(b[k]);
    }
    SameIdsSameList(page, a, b);
  }

  /**
   After "unchanged" under other lookups than before, the consumer shows what the
   call's lookups give exactly if both lookups give the snapshot one cold answer.
   */
  lemma StaleColdIff(s: Setting, c: Consumer, page: Object, held: StatusTable, table: StatusTable)
    requires Shows(s, c, page, held) && WellFormed(Tasks(page))
    ensures Shows(s, c, page, table) <==>
              ColdView(page, held, s.Filtered()) == ColdView(page, table, s.Filtered())
  {
    var f, a, b := s.Filtered(), Shown(s, page, held), Shown(s, page, table);
    ColdTasks(page, held, f);
    ColdTasks(page, table, f);
    ViewWithin(Tasks(page), held, f);
    ViewWithin(Tasks(page), table, f);
    PlainKeepsIds();
    if Shows(s, c, page, table) {
      forall k | 0 <= k < |a| ensures Id(a[k]) == Id(b[k]) {
        assert Id(a[k]) == Id(c.tasks[k]) == Id(b[k]);
      }
      SameIdsSameList(Tasks(page), a, b);
      SameEnvelopeSameCold(page, held, table, f);
    }
    if ColdView(page, held, f) == ColdView(page, table, f) {
      SamePlainSameList(Tasks(page), a, b);
    }
  }

  /** What a cold answer selects from a page. */
  function Selected(page: Object, table: StatusTable): Result<Selection, string> {
    ActiveOnly(MapTasks(Tasks(page), Plain), table)
  }

  lemma CountsInjective(a: map<string, nat>, b: map<string, nat>)
    requires CountsObject(a) == CountsObject(b)
    ensures a == b
  {
    var f, g := CountsObject(a).fields, CountsObject(b).fields;
    assert f.Keys == a.Keys && g.Keys == b.Keys;
    forall c | c in a ensures a[c] == b[c] { assert f[c] == Num(a[c]) && g[c] == Num(b[c]); }
  }

  /** An unfiltered cold answer tells which cards were selected, which were not, and any failure. */
  lemma ColdTellsSelection(page: Object, held: StatusTable, table: StatusTable)
    requires "omitted" !in page && "omitted_unavailable" !in page
    ensures ColdView(page, held, false) == ColdView(page, table, false)
            <==> Selected(page, held) == Selected(page, table)
  {
    var a, b := ColdView(page, held, false), ColdView(page, table, false);
    ColdUpdates(page, held, false);
    ColdUpdates(page, table, false);
    assert ("omitted" in a <==> Selected(page, held).Ok?) && ("omitted" in b <==> Selected(page, table).Ok?);
    if a == b {
      match (Selected(page, held), Selected(page, table))
      case (Ok(x), Ok(y)) =>
        assert a["tasks"] == Arr(x.0) && b["tasks"] == Arr(y.0);
        assert a["omitted"] == CountsObject(x.1) && b["omitted"] == CountsObject(y.1);
        CountsInjective(x.1, y.1);
      case (Err(x), Err(y)) => assert a["omitted_unavailable"] == Str(x) && b["omitted_unavailable"] == Str(y);
      case _ =>
    }
  }

  /**
   After "unchanged" under other lookups than before, the consumer shows what the call's
   lookups give if and only if the page is the caller's own narrowing or both lookups
   select the same: the same cards, the same counts, or the same failure.
   */
  lemma StaleLookupsIff(s: Setting, c: Consumer, page: Object, held: StatusTable, table: StatusTable)
    requires Shows(s, c, page, held) && WellFormed(Tasks(page))
    requires s.Filtered() || ("omitted" !in page && "omitted_unavailable" !in page)
    ensures Shows(s, c, page, table) <==> s.Filtered() || Selected(page, held) == Selected(page, table)
  {
    StaleColdIff(s, c, page, held, table);
    if !s.Filtered() { ColdTellsSelection(page, held, table); }
  }

  lemma SameEnvelopeSameCold(page: Object, held: StatusTable, table: StatusTable, filtered: bool)
    requires Tasks(ColdView(page, held, filtered)) == Tasks(ColdView(page, table, filtered))
    requires Without(ColdView(page, held, filtered), {"tasks", "revision"})
          == Without(ColdView(page, table, filtered), {"tasks", "revision"})
    ensures ColdView(page, held, filtered) == ColdView(page, table, filtered)
  {
    var compact := MapTasks(Tasks(page), Plain);
    var f, g := ColdFields(compact, held, filtered), ColdFields(compact, table, filtered);
    assert "tasks" in f && "tasks" in g && f["tasks"].Arr? && g["tasks"].Arr?;
    assert "revision" !in f && "revision" !in g;
    SameOverlay(page, f, g);
  }

  lemma SameOverlay(page: Object, f: Object, g: Object)
    requires "tasks" in f && "tasks" in g && f["tasks"] == g["tasks"] && "revision" !in f && "revision" !in g
    requires Without(page + f, {"tasks", "revision"}) == Without(page + g, {"tasks", "revision"})
    ensures page + f == page + g
  {
    var a, b, hidden := page + f, page + g, {"tasks", "revision"};
    forall k ensures k in a <==> k in b { assert k in Without(a, hidden) <==> k in Without(b, hidden); }
    forall k | k in a ensures a[k] == b[k] {
      if k !in hidden { assert a[k] == Without(a, hidden)[k] == Without(b, hidden)[k] == b[k]; }
    }
  }

  // ---------------------------------------------------------------- descriptions

  /** The item carries a description, or says that one was cut. */
  predicate Described(item: Value) {
    item.Obj? && ("description" in item.fields || "description_truncated" in item.fields)
  }

  lemma PlainIffUndescribed(item: Value)
    ensures Plain(item) == item <==> !Described(item)
    ensures !Described(Plain(item))
  {
    if item.Obj? && !Described(item) {
      assert Without(item.fields, DESCRIPTION_KEYS) == item.fields;
    }
    if Described(item) {
      assert "description" !in Plain(item).fields && "description_truncated" !in Plain(item).fields;
    }
  }

  lemma CopiesArePlainIff(held: seq<Value>, shown: seq<Value>)
    requires Copies(held, shown, Plain)
    ensures held == MapTasks(shown, Plain) <==> forall item | item in held :: !Described(item)
  {
    forall k | 0 <= k < |shown| ensures held[k] == Plain(shown[k]) <==> !Described(held[k]) {
      PlainIffUndescribed(shown[k]);
    }
    if forall item | item in held :: !Described(item) {
      forall k | 0 <= k < |shown| ensures held[k] == Plain(shown[k]) { assert held[k] in held; }
    }
    if held == MapTasks(shown, Plain) {
      forall item | item in held ensures !Described(item) {
        var k :| 0 <= k < |held| && held[k] == item;
      }
    }
  }

  /** The consumer the same call leaves when it does not send its revision, which is answered cold. */
  ghost function ColdInstead(s: Setting, c: Consumer, e: Event): Consumer {
    Consume(c, Reply(s, c, e.(sendKnown := false)))
  }

  lemma UnsentIsCold(s: Setting, c: Consumer, e: Event)
    requires s.Sound() && Answered(Reply(s, c, e))
    ensures var page := PageOf(s, e);
            && Shows(s, ColdInstead(s, c, e), page, e.table)
            && ColdInstead(s, c, e).tasks == MapTasks(Shown(s, page, e.table), Plain)
            && (Versioned(e.upstream) ==> ColdInstead(s, c, e).revision == RevisionOf(s, page))
  {
    var page := PageOf(s, e);
    assert BaseOf(s, c, e.(sendKnown := false)) == [];
    ColdShows(s, page, RevisionOf(s, page), e.table);
    ColdTasks(page, e.table, s.Filtered());
  }

  /**
   The documented equality: a consumer that shows the call's snapshot holds exactly
   what a cold answer in its place would have given if and only if none of its items
   carries a description.
   */
  lemma ExactlyColdIff(s: Setting, c: Consumer, e: Event, c': Consumer)
    requires s.Sound() && Answered(Reply(s, c, e)) && Versioned(e.upstream)
    requires Shows(s, c', PageOf(s, e), e.table) && c'.revision == RevisionOf(s, PageOf(s, e))
    ensures c' == ColdInstead(s, c, e) <==> forall item | item in c'.tasks :: !Described(item)
  {
    UnsentIsCold(s, c, e);
    CopiesArePlainIff(c'.tasks, Shown(s, PageOf(s, e), e.table));
  }

  /** What a delta rebuilds: every changed item as sent, and otherwise only items already held. */
  lemma RebuiltFrom(
    page: seq<Value>, shown: seq<Value>, prior: seq<Value>, next: seq<Value>, held: seq<Value>, d: Delta)
    requires WellFormed(page) && PartOf(shown, page) && PartOf(prior, page) && WellFormed(next)
    requires Copies(held, shown, Plain) && Rebuild(held, d).Some?
    requires d == DeltaOf(prior, next, d.baseRevision, d.revision, d.envelope)
    ensures forall item | item in d.changed :: item in Rebuild(held, d).value
    ensures forall item | item in Rebuild(held, d).value :: item in d.changed || item in held
  {
    PlainKeepsIds();
    RebuildExact(page, shown, prior, next, held, Plain, d);
    var rebuilt := Rebuild(held, d).value;
    forall k: nat | k < |next|
      ensures rebuilt[k] in d.changed || rebuilt[k] in held
      ensures next[k] in d.changed ==> rebuilt[k] == next[k]
    {
      var j := UpdatedItem(page, shown, prior, next, held, Plain, d, next[k]);
      ChangedExact(prior, next, next[k]);
      assert d.order[k] == Id(next[k]) && rebuilt[k] == Updated(held, d)[Id(next[k])];
    }
    forall item | item in d.changed ensures item in rebuilt {
      ChangedExact(prior, next, item);
      var k: nat :| k < |next| && next[k] == item;
      assert rebuilt[k] == item;
    }
  }

  /** Rebuilding from a cold list gives the next cold list exactly if no changed item carries a description. */
  lemma RebuiltColdIff(prior: seq<Value>, next: seq<Value>, known: string, revision: string, envelope: Object)
    requires WellFormed(prior) && WellFormed(next)
    ensures Rebuild(MapTasks(prior, Plain), DeltaOf(prior, next, known, revision, envelope))
              == Some(MapTasks(next, Plain))
            <==> forall item | item in Changed(prior, next) :: !Described(item)
  {
    var held, d := MapTasks(prior, Plain), DeltaOf(prior, next, known, revision, envelope);
    PlainKeepsIds();
    RebuildRoundTrip(prior, next, held, Plain, known, revision, envelope);
    RebuiltFrom(prior, prior, prior, next, held, d);
    CopiesArePlainIff(held, prior);
    CopiesArePlainIff(Rebuild(held, d).value, next);
  }

  /**
   A consumer without descriptions that applies a delta then holds exactly what a cold
   answer would have given if and only if no changed item carries a description.
   */
  lemma DeltaExactlyColdIff(s: Setting, c: Consumer, held: StatusTable, e: Event)
    requires s.Sound() && Inv(s, c, held) && Reply(s, c, e).Changes? && Applies(c, Reply(s, c, e).delta)
    requires forall item | item in c.tasks :: !Described(item)
    ensures Consume(c, Reply(s, c, e)) == ColdInstead(s, c, e)
            <==> forall item | item in Reply(s, c, e).delta.changed :: !Described(item)
  {
    var retained := SentFromRetained(s, c, e, held);
    var before, page, d := Snapshot(retained, s.allowed), PageOf(s, e), Reply(s, c, e).delta;
    ViewWithin(Tasks(before), held, s.Filtered());
    ViewWithin(Tasks(before), e.table, s.Filtered());
    ViewWellFormed(Tasks(page), e.table, s.Filtered());
    RebuiltFrom(Tasks(before), Shown(s, before, held), Shown(s, before, e.table), Shown(s, page, e.table), c.tasks, d);
    ChangesStep(s, c, e, held);
    ExactlyColdIff(s, c, e, Consume(c, Reply(s, c, e)));
  }
}
