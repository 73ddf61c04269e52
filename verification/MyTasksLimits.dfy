/**
 Two calls in a row that show where get_my_tasks falls short of its documentation:
 a described card, and status lookups that fail in between
 (internal/mcp/my_tasks_snapshot.go:395-459, docs/my-tasks-snapshots.md:49-55).
 */
module MyTasksLimits {
  import opened Wrappers
  import opened Json
  import opened ActiveTasks
  import opened SnapshotCache
  import opened SnapshotDelta
  import opened MyTasksRender
  import opened MyTasksRun

  // ---------------------------------------------------------------- the cards

  /** Lookups that answer, and lookups that fail. */
  function Up(): StatusTable {
    _ => Ok(map["st-b" := "backlog", "st-i" := "in_progress"])
  }

  function Down(): StatusTable {
    _ => Err("unavailable")
  }

  predicate Dropped(key: string) {
    key in LEAN_DROP || key in LEAN_DROP_WHEN_EMPTY || key in COLD_DROP_WHEN_EMPTY || key == "url"
  }

  /** A complete, versioned card that rendering leaves as it is, in progress or in the backlog. */
  ghost predicate CardOf(card: Value, id: string, active: bool) {
    && card.Obj? && (forall key | key in card.fields :: !Dropped(key))
    && CategoryOf(card, Up()) == Ok(if active then "in_progress" else "backlog")
    && CategoryOf(card, Down()).Err?
    && CompleteItem(card) && VersionedItem(card) && Id(card) == id && id != ""
  }

  function Card(id: string, status: string, title: string): Value {
    Obj(map["id" := Str(id), "project_id" := Str("p"), "status_id" := Str(status),
            "title" := Str(title), "version" := Num(1)])
  }

  function DescribedCard(id: string, status: string, title: string, description: string): Value {
    Obj(Card(id, status, title).fields["description" := Str(description)])
  }

  lemma KeysAreKept()
    ensures !Dropped("id") && !Dropped("title") && !Dropped("version")
    ensures !Dropped("project_id")
    ensures !Dropped("status_id")
    ensures !Dropped("description")
  {
  }

  lemma CategoryOfCard(card: Value, status: string)
    requires card.Obj? && Text(card.fields, "project_id") == "p" && Text(card.fields, "status_id") == status
    requires status == "st-i" || status == "st-b"
    ensures CategoryOf(card, Up()) == Ok(if status == "st-i" then "in_progress" else "backlog")
    ensures CategoryOf(card, Down()).Err?
  {
  }

  lemma CardKeys(id: string, status: string, title: string, description: string)
    ensures Card(id, status, title).fields.Keys == {"id", "project_id", "status_id", "title", "version"}
    ensures DescribedCard(id, status, title, description).fields.Keys
            == {"id", "project_id", "status_id", "title", "version", "description"}
    ensures !Described(Card(id, status, title)) && Described(DescribedCard(id, status, title, description))
  {
    assert "description" !in {"id", "project_id", "status_id", "title", "version"};
    assert "description_truncated" !in {"id", "project_id", "status_id", "title", "version"};
  }

  lemma CardIsComplete(id: string, status: string, title: string, description: string)
    ensures CompleteItem(Card(id, status, title)) && VersionedItem(Card(id, status, title))
    ensures CompleteItem(DescribedCard(id, status, title, description))
    ensures VersionedItem(DescribedCard(id, status, title, description))
  {
  }

  lemma CardFields(id: string, status: string, title: string, description: string)
    ensures forall card | card in {Card(id, status, title), DescribedCard(id, status, title, description)} ::
              Id(card) == id && Text(card.fields, "project_id") == "p" && Text(card.fields, "status_id") == status
  {
  }

  /** Such cards exist, with and without a description. */
  lemma CardsAre(id: string, active: bool, title: string, description: string)
    requires id != ""
    ensures var status := if active then "st-i" else "st-b";
            && CardOf(Card(id, status, title), id, active) && !Described(Card(id, status, title))
            && CardOf(DescribedCard(id, status, title, description), id, active)
            && Described(DescribedCard(id, status, title, description))
  {
    var status := if active then "st-i" else "st-b";
    KeysAreKept();
    CardKeys(id, status, title, description);
    CardIsComplete(id, status, title, description);
    CardFields(id, status, title, description);
    CategoryOfCard(Card(id, status, title), status);
    CategoryOfCard(DescribedCard(id, status, title, description), status);
  }

  // ---------------------------------------------------------------- pages of two cards

  function PairPage(a: Value, b: Value): Object {
    map["tasks" := Arr([a, b])]
  }

  lemma CardIsKept(card: Value, id: string, active: bool)
    requires CardOf(card, id, active)
    ensures LeanItem(card) == card && SlimItem(card, false) == card
    ensures !UrlFromId(card, "") && forall allowed :: !UrlFromId(card, allowed)
  {
    assert Without(card.fields, LEAN_DROP + EmptyAmong(card.fields, LEAN_DROP_WHEN_EMPTY)) == card.fields;
    assert Without(card.fields, {} + EmptyAmong(card.fields, COLD_DROP_WHEN_EMPTY)) == card.fields;
    assert Dropped("url");
  }

  ghost predicate Pair(a: Value, b: Value) {
    CardOf(a, "a", false) && CardOf(b, "b", true)
  }

  /** Rendering changes nothing on a page whose items it leaves as they are. */
  lemma SnapshotIsPage(page: Object, allowed: string)
    requires "tasks" in page && page["tasks"].Arr? && !Hoists(Tasks(page), allowed)
    requires forall k | 0 <= k < |Tasks(page)| ::
               LeanItem(Tasks(page)[k]) == SlimItem(Tasks(page)[k], false) == Tasks(page)[k]
    ensures Snapshot(page, allowed) == page
  {
    assert MapTasks(Tasks(page), LeanItem) == Tasks(page);
    assert MapTasks(Tasks(page), v => SlimItem(v, false)) == Tasks(page);
  }

  lemma PairIsComplete(a: Value, b: Value)
    requires CompleteItem(a) && CompleteItem(b) && VersionedItem(a) && VersionedItem(b)
    requires Id(a) != "" && Id(b) != "" && Id(a) != Id(b)
    ensures Complete(PairPage(a, b)) && Versioned(PairPage(a, b))
  {
    var page := PairPage(a, b);
    assert page.Keys == {"tasks"} && "truncated" !in {"tasks"};
    assert Tasks(page) == [a, b] && Ids([a, b]) == [Id(a), Id(b)];
  }

  /** A page of two such cards is complete, versioned and rendered as it is. */
  lemma PairIsKept(a: Value, b: Value, allowed: string)
    requires Pair(a, b)
    ensures Complete(PairPage(a, b)) && Versioned(PairPage(a, b)) && Snapshot(PairPage(a, b), allowed) == PairPage(a, b)
  {
    CardIsKept(a, "a", false);
    CardIsKept(b, "b", true);
    PairIsComplete(a, b);
    PairIsRenderedAsIs(a, b, allowed);
  }

  lemma PairIsRenderedAsIs(a: Value, b: Value, allowed: string)
    requires a.Obj? && !UrlFromId(a, allowed)
    requires LeanItem(a) == SlimItem(a, false) == a && LeanItem(b) == SlimItem(b, false) == b
    ensures Snapshot(PairPage(a, b), allowed) == PairPage(a, b)
  {
    assert Tasks(PairPage(a, b))[0] == a;
    SnapshotIsPage(PairPage(a, b), allowed);
  }

  lemma CategoriesOfPair(a: Value, b: Value, table: StatusTable)
    ensures CategoryOf(a, table).Err? ==> Categories([a, b], table).Err?
    ensures CategoryOf(a, table).Ok? && CategoryOf(b, table).Ok? ==>
              Categories([a, b], table) == Ok([CategoryOf(a, table).value, CategoryOf(b, table).value])
  {
    assert [a, b][..|[a, b]| - 1] == [a];
    assert [a][..|[a]| - 1] == [];
    assert Categories([], table) == Ok([]);
    if CategoryOf(a, table).Ok? {
      var c := CategoryOf(a, table).value;
      assert [] + [c] == [c];
      assert Categories([a], table) == Ok([c]);
      if CategoryOf(b, table).Ok? {
        assert [c] + [CategoryOf(b, table).value] == [c, CategoryOf(b, table).value];
      }
    }
  }

  lemma KeptOfPair(a: Value, b: Value, cats: seq<string>)
    requires cats == ["backlog", "in_progress"]
    ensures Pick([a, b], KeptIndices([a, b], cats, 2)) == [b]
  {
    assert !Kept([a, b], cats, 0) && Kept([a, b], cats, 1);
    assert KeptIndices([a, b], cats, 1) == [];
    assert KeptIndices([a, b], cats, 2) == [1];
  }

  /** Lookups that answer show the active card only, lookups that fail show both. */
  lemma ViewsOfPair(a: Value, b: Value)
    requires Pair(a, b)
    ensures View([a, b], Up(), false) == [b] && View([a, b], Down(), false) == [a, b]
  {
    CategoriesOfPair(a, b, Up());
    CategoriesOfPair(a, b, Down());
    KeptOfPair(a, b, ["backlog", "in_progress"]);
  }

  /** What the two calls below need to know of such a page. */
  ghost predicate Rendered(allowed: string, a: Value, b: Value) {
    && Complete(PairPage(a, b)) && Versioned(PairPage(a, b)) && Snapshot(PairPage(a, b), allowed) == PairPage(a, b)
    && View([a, b], Up(), false) == [b] && View([a, b], Down(), false) == [a, b] && a != b
  }

  lemma PairIsRendered(a: Value, b: Value, allowed: string)
    requires Pair(a, b)
    ensures Rendered(allowed, a, b)
  {
    PairIsKept(a, b, allowed);
    ViewsOfPair(a, b);
  }

  // ---------------------------------------------------------------- the two calls

  /** A first call on an empty cache, with lookups that answer: it is answered cold. */
  ghost predicate FirstCall(s: Setting, e: Event, a: Value, b: Value) {
    && s.Sound() && s.statusCategory == "" && Rendered(s.allowed, a, b) && !Described(b)
    && e.upstream == PairPage(a, b) && e.table == Up() && e.bases == map[] && !e.full
  }

  /** A second call, with the first snapshot still cached, that finds the active card altered and accepts a delta. */
  ghost predicate SecondCall(s: Setting, first: Event, e: Event, a: Value, b: Value, b': Value) {
    && FirstCall(s, first, a, b) && Rendered(s.allowed, a, b') && b' != b
    && e.upstream == PairPage(a, b') && e.acceptDelta
    && BaseIsLive(s, After(s, [first]), e, first.upstream)
  }

  lemma FirstCallIsCold(s: Setting, e: Event, a: Value, b: Value)
    requires FirstCall(s, e, a, b)
    ensures Retains(s, After(s, [e]), e.upstream, Up()) && After(s, [e]).tasks == [b]
  {
    assert [e][..0] == [] && After(s, []) == NOTHING;
    assert BaseOf(s, NOTHING, e) == [];
    ColdShows(s, PageOf(s, e), RevisionOf(s, PageOf(s, e)), Up());
    PlainIffUndescribed(b);
    assert MapTasks([b], Plain) == [b];
  }

  lemma AfterTwo(s: Setting, first: Event, e: Event)
    ensures After(s, [first, e]) == Consume(After(s, [first]), Reply(s, After(s, [first]), e))
  {
    assert [first, e][..1] == [first];
  }

  lemma PagesDiffer(a: Value, b: Value, b': Value)
    requires b' != b
    ensures PairPage(a, b') != PairPage(a, b)
  {
    assert Tasks(PairPage(a, b')) == [a, b'] && Tasks(PairPage(a, b)) == [a, b];
    assert [a, b'][1] != [a, b][1];
  }

  lemma SecondCallIsDelta(s: Setting, first: Event, e: Event, a: Value, b: Value, b': Value)
    requires SecondCall(s, first, e, a, b, b')
    ensures Retains(s, After(s, [first]), first.upstream, Up())
    ensures Reply(s, After(s, [first]), e).Changes?
    ensures After(s, [first, e]) == Consume(After(s, [first]), Reply(s, After(s, [first]), e))
  {
    FirstCallIsCold(s, first, a, b);
    PagesDiffer(a, b, b');
    LiveBaseAnswer(s, After(s, [first]), Up(), e, first.upstream);
    AfterTwo(s, first, e);
  }

  lemma SecondDeltaApplies(s: Setting, first: Event, e: Event, a: Value, b: Value, b': Value)
    requires SecondCall(s, first, e, a, b, b')
    ensures var c := After(s, [first]);
            Reply(s, c, e).Changes? &&
            (Applies(c, Reply(s, c, e).delta) <==>
               NoneHidden([b], View([a, b], e.table, false), View([a, b'], e.table, false)))
  {
    SecondCallIsDelta(s, first, e, a, b, b');
    DeltaAppliesIff(s, After(s, [first]), e, first.upstream, Up());
  }

  /** Two such calls can be made with two backlog and in_progress cards, whatever the lookups of the second. */
  lemma TwoCalls(s: Setting, b': Value, table: StatusTable) returns (first: Event, e: Event)
    requires s.Sound() && s.statusCategory == "" && CardOf(b', "b", true) && b' != Card("b", "st-i", "B")
    requires |s.codec.encode(PairPage(Card("a", "st-b", "A"), b'))| <= CACHE_BYTES
    ensures SecondCall(s, first, e, Card("a", "st-b", "A"), Card("b", "st-i", "B"), b') && e.table == table
  {
    var a, b := Card("a", "st-b", "A"), Card("b", "st-i", "B");
    CardsAre("a", false, "A", "");
    CardsAre("b", true, "B", "");
    PairIsRendered(a, b, s.allowed);
    PairIsRendered(a, b', s.allowed);
    var page := PairPage(a, b);
    first := Event(page, Up(), map[], 0, false, false, false);
    FirstCallIsCold(s, first, a, b);
    var base := Base(s.scope, s.codec.encode(page), 1);
    e := Event(PairPage(a, b'), table, map[After(s, [first]).revision := base], 0, true, true, false);
  }

  /**
   Lookups that fail between the calls: the delta compares the whole pages and leaves
   the hidden card to the consumer, which never had it and so starts over.
   */
  lemma FailingLookupLosesCard(s: Setting, first: Event, e: Event, a: Value, b: Value, b': Value)
    requires SecondCall(s, first, e, a, b, b') && e.table == Down()
    ensures Reply(s, After(s, [first]), e).Changes? && After(s, [first, e]) == NOTHING
  {
    SecondCallIsDelta(s, first, e, a, b, b');
    SecondDeltaApplies(s, first, e, a, b, b');
    HiddenCardIsNeeded(a, b, b');
  }

  lemma HiddenCardIsNeeded(a: Value, b: Value, b': Value)
    requires a != b
    ensures !NoneHidden([b], [a, b], [a, b'])
  {
    assert a in [a, b] && a in [a, b'] && a !in [b];
  }

  /** A second call that finds nothing altered, with the first snapshot still cached. */
  ghost predicate SameAgain(s: Setting, first: Event, e: Event, a: Value, b: Value) {
    && FirstCall(s, first, a, b) && e.upstream == first.upstream
    && BaseIsLive(s, After(s, [first]), e, first.upstream)
  }

  /** Two such calls can be made, whatever the lookups of the second. */
  lemma SameCallTwice(s: Setting, table: StatusTable) returns (first: Event, e: Event)
    requires s.Sound() && s.statusCategory == ""
    requires |s.codec.encode(PairPage(Card("a", "st-b", "A"), Card("b", "st-i", "B")))| <= CACHE_BYTES
    ensures SameAgain(s, first, e, Card("a", "st-b", "A"), Card("b", "st-i", "B")) && e.table == table
  {
    var a, b := Card("a", "st-b", "A"), Card("b", "st-i", "B");
    CardsAre("a", false, "A", "");
    CardsAre("b", true, "B", "");
    PairIsRendered(a, b, s.allowed);
    var page := PairPage(a, b);
    first := Event(page, Up(), map[], 0, false, false, false);
    FirstCallIsCold(s, first, a, b);
    var base := Base(s.scope, s.codec.encode(page), 1);
    e := Event(page, table, map[After(s, [first]).revision := base], 0, true, true, false);
  }

  /**
   Lookups that fail by the second call, on an unaltered page: the answer is "unchanged",
   and the consumer keeps a list that is not the one these lookups give.
   */
  lemma UnchangedIsStale(s: Setting, first: Event, e: Event, a: Value, b: Value)
    requires SameAgain(s, first, e, a, b) && e.table == Down()
    ensures Reply(s, After(s, [first]), e).Unchanged? && After(s, [first, e]) == After(s, [first])
    ensures !Shows(s, After(s, [first, e]), PageOf(s, e), Down())
  {
    FirstCallIsCold(s, first, a, b);
    LiveBaseAnswer(s, After(s, [first]), Up(), e, first.upstream);
    AfterTwo(s, first, e);
    assert |After(s, [first]).tasks| == 1 && |View([a, b], Down(), false)| == 2;
  }

  /**
   A card that has gained a description: the delta carries it whole, so the consumer
   does not hold what a cold answer would have given.
   */
  lemma DescribedCardIsNotCold(s: Setting, first: Event, e: Event, a: Value, b: Value, b': Value)
    requires SecondCall(s, first, e, a, b, b') && e.table == Up() && Described(b')
    ensures Reply(s, After(s, [first]), e).Changes?
    ensures Applies(After(s, [first]), Reply(s, After(s, [first]), e).delta)
    ensures After(s, [first, e]) != ColdInstead(s, After(s, [first]), e)
  {
    SecondCallIsDelta(s, first, e, a, b, b');
    SecondDeltaApplies(s, first, e, a, b, b');
    FirstCallIsCold(s, first, a, b);
    DeltaCarries(s, After(s, [first]), e, first.upstream, a, b, b');
    assert NoneHidden([b], [b], [b']);
    CarriedDescriptionIsNotCold(s, After(s, [first]), e, first.upstream, b');
  }

  lemma CarriedDescriptionIsNotCold(s: Setting, c: Consumer, e: Event, upstream: Object, item: Value)
    requires s.Sound() && Retains(s, c, upstream, Up()) && Reply(s, c, e).Changes?
    requires Applies(c, Reply(s, c, e).delta) && forall held | held in c.tasks :: !Described(held)
    requires item in Reply(s, c, e).delta.changed && Described(item)
    ensures Consume(c, Reply(s, c, e)) != ColdInstead(s, c, e)
  {
    assert Inv(s, c, Up());
    DeltaExactlyColdIff(s, c, Up(), e);
  }

  lemma DeltaCarries(s: Setting, c: Consumer, e: Event, upstream: Object, a: Value, b: Value, b': Value)
    requires s.Sound() && Retains(s, c, upstream, Up()) && Reply(s, c, e).Changes?
    requires s.statusCategory == "" && Rendered(s.allowed, a, b) && Rendered(s.allowed, a, b') && e.table == Up()
    requires upstream == PairPage(a, b) && e.upstream == PairPage(a, b') && b != b'
    ensures b' in Reply(s, c, e).delta.changed
  {
    var retained := SentFromRetained(s, c, e, Up());
    assert s.codec.encode(Snapshot(retained, s.allowed)) == s.codec.encode(Snapshot(upstream, s.allowed));
    EncodeInjective(s.codec, Snapshot(retained, s.allowed), Snapshot(upstream, s.allowed));
    assert Shown(s, Snapshot(upstream, s.allowed), Up()) == [b] && Shown(s, PageOf(s, e), Up()) == [b'];
    ChangedExact([b], [b'], b');
  }
}
