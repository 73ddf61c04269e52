/** The slug path of every document of a project (internal/mcp/docs.go:110-154). */
module DocPaths {
  import opened Wrappers

  /** A listed document; `parent` is None unless parent_id is a string. */
  datatype Doc = Doc(id: string, slug: string, parent: Option<string>)

  type Slugs = map<string, string>
  type Parents = map<string, string>

  // ---------------------------------------------------------------- the two tables

  /** Filled in order: later entries of an id overwrite, a missing parent overwrites nothing. */
  function SlugsOf(docs: seq<Doc>): Slugs {
    if docs == [] then map[]
    else
      var d := docs[|docs| - 1];
      var before := SlugsOf(docs[..|docs| - 1]);
      if d.id == "" then before else before[d.id := d.slug]
  }

  function ParentsOf(docs: seq<Doc>): Parents {
    if docs == [] then map[]
    else
      var d := docs[|docs| - 1];
      var before := ParentsOf(docs[..|docs| - 1]);
      if d.id == "" || d.parent.None? then before else before[d.id := d.parent.value]
  }

  /** docs[i] is the last document that carries its id. */
  predicate LastOfId(docs: seq<Doc>, i: nat)
    requires i < |docs|
  {
    docs[i].id != "" && forall j | i < j < |docs| :: docs[j].id != docs[i].id
  }

  /** ... and the last of them that names a parent. */
  predicate LastWithParent(docs: seq<Doc>, i: nat)
    requires i < |docs|
  {
    && docs[i].id != "" && docs[i].parent.Some?
    && forall j | i < j < |docs| && docs[j].id == docs[i].id :: docs[j].parent.None?
  }

  /** A slug is what the last document of that id says. */
  lemma {:induction false} SlugIsLast(docs: seq<Doc>, id: string)
    ensures if id in SlugsOf(docs)
            then exists i :: 0 <= i < |docs| && docs[i].id == id && LastOfId(docs, i)
                             && SlugsOf(docs)[id] == docs[i].slug
            else id == "" || forall i | 0 <= i < |docs| :: docs[i].id != id
  {
    if docs != [] {
      var n := |docs| - 1;
      var before := docs[..n];
      SlugIsLast(before, id);
      if docs[n].id == id && id != "" {
        assert LastOfId(docs, n);
      } else if id in SlugsOf(before) {
        var i :| 0 <= i < n && before[i].id == id && LastOfId(before, i) && SlugsOf(before)[id] == before[i].slug;
        assert docs[i] == before[i] && LastOfId(docs, i);
      }
    }
  }

  /** A parent is what the last document of that id that names one says. */
  lemma {:induction false} ParentIsLast(docs: seq<Doc>, id: string)
    ensures if id in ParentsOf(docs)
            then exists i :: 0 <= i < |docs| && docs[i].id == id && LastWithParent(docs, i)
                             && ParentsOf(docs)[id] == docs[i].parent.value
            else id == "" || forall i | 0 <= i < |docs| && docs[i].id == id :: docs[i].parent.None?
  {
    if docs != [] {
      var n := |docs| - 1;
      var before := docs[..n];
      ParentIsLast(before, id);
      if docs[n].id == id && id != "" && docs[n].parent.Some? {
        assert LastWithParent(docs, n);
      } else if id in ParentsOf(before) {
        var i :| 0 <= i < n && before[i].id == id && LastWithParent(before, i)
                 && ParentsOf(before)[id] == before[i].parent.value;
        assert docs[i] == before[i] && LastWithParent(docs, i);
      }
    }
  }

  // ---------------------------------------------------------------- the walk without its guard

  /** The ids met walking up from cur, unknown and already seen ones left out. */
  function Trail(slugs: Slugs, parents: Parents, cur: string, seen: set<string>): seq<string>
    decreases slugs.Keys - seen
  {
    if cur == "" || cur in seen || cur !in slugs then []
    else [cur] + Trail(slugs, parents, Up(parents, cur), seen + {cur})
  }

  function Up(parents: Parents, id: string): string {
    if id in parents then parents[id] else ""
  }

  /** The slugs of the ids met, the topmost first. */
  function SlugPath(slugs: Slugs, trail: seq<string>): seq<string>
    requires forall id | id in trail :: id in slugs
  {
    if trail == [] then [] else SlugPath(slugs, trail[1..]) + [slugs[trail[0]]]
  }

  lemma {:induction false} TrailIsKnown(slugs: Slugs, parents: Parents, cur: string, seen: set<string>)
    ensures forall id | id in Trail(slugs, parents, cur, seen) :: id in slugs && id !in seen
    decreases slugs.Keys - seen
  {
    if cur != "" && cur !in seen && cur in slugs { TrailIsKnown(slugs, parents, Up(parents, cur), seen + {cur}); }
  }

  function SegmentsFrom(slugs: Slugs, parents: Parents, cur: string, seen: set<string>): seq<string> {
    TrailIsKnown(slugs, parents, cur, seen);
    SlugPath(slugs, Trail(slugs, parents, cur, seen))
  }

  /** The path of a document, segment by segment. */
  function Segments(slugs: Slugs, parents: Parents, id: string): seq<string> {
    SegmentsFrom(slugs, parents, id, {})
  }

  function Join(segments: seq<string>): string {
    if |segments| == 0 then ""
    else if |segments| == 1 then segments[0]
    else Join(segments[..|segments| - 1]) + "/" + segments[|segments| - 1]
  }

  // ---------------------------------------------------------------- the code

  method FillTables(docs: seq<Doc>) returns (slugs: Slugs, parents: Parents)
    ensures slugs == SlugsOf(docs) && parents == ParentsOf(docs)
  {
    slugs, parents := map[], map[];
    for n := 0 to |docs|
      invariant slugs == SlugsOf(docs[..n]) && parents == ParentsOf(docs[..n])
    {
      var d := docs[n];
      assert docs[..n + 1][..n] == docs[..n];
      if d.id == "" { continue; }
      slugs := slugs[d.id := d.slug];
      if d.parent.Some? { parents := parents[d.id := d.parent.value]; }
    }
    assert docs[..|docs|] == docs;
  }

  /**
   The walk, guard included. It ends for every table, cycles included, and the
   guard never ends it: as many segments as seen ids, and those are all known.
   */
  method WalkUp(slugs: Slugs, parents: Parents, id: string) returns (segments: seq<string>, ghost guardCut: bool)
    ensures segments == Segments(slugs, parents, id)
    ensures !guardCut
  {
    segments, guardCut := [], false;
    var cur, seen := id, {};
    ghost var whole := Segments(slugs, parents, id);
    while cur != "" && cur !in seen && |segments| <= |slugs|
      invariant seen <= slugs.Keys && |segments| == |seen|
      invariant whole == SegmentsFrom(slugs, parents, cur, seen) + segments
      decreases slugs.Keys - seen
    {
      if cur !in slugs { return; }
      WalkStep(slugs, parents, cur, seen);
      Regroup(SegmentsFrom(slugs, parents, Up(parents, cur), seen + {cur}), slugs[cur], segments);
      seen := seen + {cur};
      segments := [slugs[cur]] + segments;
      cur := Up(parents, cur);
    }
    SubsetSize(seen, slugs.Keys);
    guardCut := cur != "" && cur !in seen;
  }

  lemma Regroup(above: seq<string>, slug: string, below: seq<string>)
    ensures (above + [slug]) + below == above + ([slug] + below)
  {
  }

  lemma WalkStep(slugs: Slugs, parents: Parents, cur: string, seen: set<string>)
    requires cur != "" && cur !in seen && cur in slugs
    ensures SegmentsFrom(slugs, parents, cur, seen)
            == SegmentsFrom(slugs, parents, Up(parents, cur), seen + {cur}) + [slugs[cur]]
  {
    var rest := Trail(slugs, parents, Up(parents, cur), seen + {cur});
    assert ([cur] + rest)[1..] == rest;
  }

  method DocumentPaths(docs: seq<Doc>) returns (paths: map<string, string>)
    ensures paths.Keys == SlugsOf(docs).Keys
    ensures forall id | id in paths :: paths[id] == Join(Segments(SlugsOf(docs), ParentsOf(docs), id))
  {
    var slugs, parents := FillTables(docs);
    paths := map[];
    var todo := slugs.Keys;
    while todo != {}
      invariant todo <= slugs.Keys && paths.Keys == slugs.Keys - todo
      invariant forall id | id in paths :: paths[id] == Join(Segments(slugs, parents, id))
      decreases todo
    {
      var id :| id in todo;
      var segments, _ := WalkUp(slugs, parents, id);
      paths := paths[id := Join(segments)];
      todo := todo - {id};
    }
  }

  // ---------------------------------------------------------------- what the walk means

  /** No id is met twice. */
  lemma {:induction false} TrailIsDistinct(slugs: Slugs, parents: Parents, cur: string, seen: set<string>)
    ensures Distinct(Trail(slugs, parents, cur, seen))
    decreases slugs.Keys - seen
  {
    if cur != "" && cur !in seen && cur in slugs {
      var rest := Trail(slugs, parents, Up(parents, cur), seen + {cur});
      TrailIsDistinct(slugs, parents, Up(parents, cur), seen + {cur});
      TrailIsKnown(slugs, parents, Up(parents, cur), seen + {cur});
      assert cur !in rest && Distinct([cur] + rest);
    }
  }

  /** The parent a path continues to, if it is listed. */
  function ListedParent(slugs: Slugs, parents: Parents, id: string): Option<string> {
    if id in parents && parents[id] != "" && parents[id] in slugs then Some(parents[id]) else None
  }

  /** The document is its own ancestor: the walk from its parent comes back to it. */
  predicate OnCycle(slugs: Slugs, parents: Parents, id: string) {
    id in parents && id in Trail(slugs, parents, parents[id], {})
  }

  /** Marking an id as seen changes a trail exactly if the trail meets it, and then shortens it. */
  lemma {:induction false} SeenShortens(slugs: Slugs, parents: Parents, cur: string, seen: set<string>, x: string)
    ensures var t, t' := Trail(slugs, parents, cur, seen), Trail(slugs, parents, cur, seen + {x});
            if x in t then |t'| < |t| else t' == t
    decreases slugs.Keys - seen
  {
    if cur != "" && cur !in seen && cur in slugs && cur != x {
      assert seen + {cur} + {x} == seen + {x} + {cur};
      SeenShortens(slugs, parents, Up(parents, cur), seen + {cur}, x);
    }
  }

  lemma {:induction false} SlugPathLength(slugs: Slugs, trail: seq<string>)
    requires forall id | id in trail :: id in slugs
    ensures |SlugPath(slugs, trail)| == |trail|
  {
    if trail != [] { SlugPathLength(slugs, trail[1..]); }
  }

  /**
   A path is the parent's path, then the own slug, exactly for the documents that are
   not their own ancestors; with no listed parent it is the own slug alone.
   */
  lemma PathIsRecursive(slugs: Slugs, parents: Parents, id: string)
    requires id in slugs && id != ""
    ensures match ListedParent(slugs, parents, id)
            case None => Segments(slugs, parents, id) == [slugs[id]]
            case Some(p) =>
              Segments(slugs, parents, id) == Segments(slugs, parents, p) + [slugs[id]]
              <==> !OnCycle(slugs, parents, id)
  {
    var p := Up(parents, id);
    WalkStep(slugs, parents, id, {});
    TrailIsKnown(slugs, parents, p, {id});
    TrailIsKnown(slugs, parents, p, {});
    assert {} + {id} == {id};
    SeenShortens(slugs, parents, p, {}, id);
    SlugPathLength(slugs, Trail(slugs, parents, p, {id}));
    SlugPathLength(slugs, Trail(slugs, parents, p, {}));
  }

  /** A rank that falls along every listed parent. */
  ghost predicate Ranked(slugs: Slugs, parents: Parents, rank: map<string, nat>) {
    && rank.Keys == slugs.Keys
    && forall id | id in slugs && ListedParent(slugs, parents, id).Some? ::
         rank[ListedParent(slugs, parents, id).value] < rank[id]
  }

  /** Along a trail ranks fall, so a ranked project has no cycle and every path is the recursive one. */
  lemma {:induction false} RanksFall(
    slugs: Slugs, parents: Parents, rank: map<string, nat>, cur: string, seen: set<string>, id: string)
    requires Ranked(slugs, parents, rank) && id in Trail(slugs, parents, cur, seen)
    ensures cur in slugs && id in slugs && rank[id] <= rank[cur]
    decreases slugs.Keys - seen
  {
    if id != cur {
      var p := Up(parents, cur);
      assert id in Trail(slugs, parents, p, seen + {cur});
      RanksFall(slugs, parents, rank, p, seen + {cur}, id);
      assert p != "" && ListedParent(slugs, parents, cur) == Some(p);
    }
  }

  lemma RankedHasNoCycle(slugs: Slugs, parents: Parents, rank: map<string, nat>, id: string)
    requires Ranked(slugs, parents, rank) && id in slugs && id != ""
    ensures !OnCycle(slugs, parents, id)
    ensures match ListedParent(slugs, parents, id)
            case None => Join(Segments(slugs, parents, id)) == slugs[id]
            case Some(p) => Join(Segments(slugs, parents, id)) == Join(Segments(slugs, parents, p)) + "/" + slugs[id]
  {
    var p := Up(parents, id);
    assert p != "" && p in slugs ==> ListedParent(slugs, parents, id) == Some(p);
    if OnCycle(slugs, parents, id) {
      RanksFall(slugs, parents, rank, p, {}, id);
    }
    PathIsRecursive(slugs, parents, id);
    if p != "" && p in slugs { WalkStep(slugs, parents, p, {}); }
  }

  /** Two documents that are each other's parent: both get a path, but not a recursive one. */
  lemma CycleStillHasPaths()
    ensures var slugs, parents := map["1" := "a", "2" := "b"], map["1" := "2", "2" := "1"];
            && OnCycle(slugs, parents, "1")
            && Segments(slugs, parents, "1") == ["b", "a"] && Segments(slugs, parents, "2") == ["a", "b"]
  {
    var slugs, parents := map["1" := "a", "2" := "b"], map["1" := "2", "2" := "1"];
    WalkStep(slugs, parents, "1", {});
    WalkStep(slugs, parents, "2", {"1"});
    WalkStep(slugs, parents, "2", {});
    WalkStep(slugs, parents, "1", {"2"});
    assert {} + {"1"} == {"1"} && {} + {"2"} == {"2"};
    assert Trail(slugs, parents, "2", {}) == ["2"] + Trail(slugs, parents, "1", {"2"});
    assert Trail(slugs, parents, "1", {"2"})[0] == "1";
  }

  // ---------------------------------------------------------------- a path names one document

  /** No two documents under one parent, or without one, share a slug. */
  ghost predicate SiblingsDiffer(slugs: Slugs, parents: Parents) {
    forall a, b | a in slugs && b in slugs && a != b ::
      ListedParent(slugs, parents, a) == ListedParent(slugs, parents, b) ==> slugs[a] != slugs[b]
  }

  lemma {:induction false} SegmentsIdentify(
    slugs: Slugs, parents: Parents, rank: map<string, nat>, a: string, b: string)
    requires Ranked(slugs, parents, rank) && SiblingsDiffer(slugs, parents) && "" !in slugs
    requires a in slugs && b in slugs && Segments(slugs, parents, a) == Segments(slugs, parents, b)
    ensures a == b
    decreases rank[a]
  {
    var p, q := ListedParent(slugs, parents, a), ListedParent(slugs, parents, b);
    RankedHasNoCycle(slugs, parents, rank, a);
    RankedHasNoCycle(slugs, parents, rank, b);
    PathIsRecursive(slugs, parents, a);
    PathIsRecursive(slugs, parents, b);
    if p.Some? { WalkStep(slugs, parents, p.value, {}); }
    if q.Some? { WalkStep(slugs, parents, q.value, {}); }
    if p.Some? && q.Some? {
      var segments := Segments(slugs, parents, a);
      assert Segments(slugs, parents, p.value) == segments[..|segments| - 1] == Segments(slugs, parents, q.value);
      SegmentsIdentify(slugs, parents, rank, p.value, q.value);
    }
  }

  predicate NoSlash(segments: seq<string>) {
    forall k | 0 <= k < |segments| :: '/' !in segments[k]
  }

  lemma LastSlash(u: string, v: string, u': string, v': string)
    requires '/' !in v && '/' !in v' && u + "/" + v == u' + "/" + v'
    ensures u == u' && v == v'
  {
    var s := u + "/" + v;
    assert s[|u|] == '/' && s[|u'|] == '/';
    assert forall k | |u| < k < |s| :: s[k] == v[k - |u| - 1] && s[k] in v;
    assert forall k | |u'| < k < |s| :: s[k] == v'[k - |u'| - 1] && s[k] in v';
    assert |u| == |u'|;
    assert u == s[..|u|] && u' == s[..|u'|];
    assert v == s[|u| + 1..] && v' == s[|u'| + 1..];
  }

  /** Joined slugs can be taken apart again. */
  lemma {:induction false} JoinInjective(xs: seq<string>, ys: seq<string>)
    requires xs != [] && ys != [] && NoSlash(xs) && NoSlash(ys) && Join(xs) == Join(ys)
    ensures xs == ys
  {
    var m, n := |xs| - 1, |ys| - 1;
    if m > 0 && n > 0 {
      LastSlash(Join(xs[..m]), xs[m], Join(ys[..n]), ys[n]);
      JoinInjective(xs[..m], ys[..n]);
      assert xs == xs[..m] + [xs[m]] && ys == ys[..n] + [ys[n]];
    } else {
      JoinHasSlash(xs);
      JoinHasSlash(ys);
    }
  }

  lemma JoinHasSlash(xs: seq<string>)
    requires xs != [] && NoSlash(xs)
    ensures '/' in Join(xs) <==> |xs| > 1
  {
    if |xs| > 1 { assert Join(xs)[|Join(xs[..|xs| - 1])|] == '/'; } else { assert Join(xs) == xs[0]; }
  }

  lemma {:induction false} SlugPathNoSlash(slugs: Slugs, trail: seq<string>)
    requires (forall id | id in trail :: id in slugs) && forall id | id in slugs :: '/' !in slugs[id]
    ensures NoSlash(SlugPath(slugs, trail))
  {
    if trail != [] { SlugPathNoSlash(slugs, trail[1..]); }
  }

  lemma SegmentsNoSlash(slugs: Slugs, parents: Parents, id: string)
    requires id in slugs && id != "" && forall id | id in slugs :: '/' !in slugs[id]
    ensures NoSlash(Segments(slugs, parents, id)) && Segments(slugs, parents, id) != []
  {
    TrailIsKnown(slugs, parents, id, {});
    SlugPathNoSlash(slugs, Trail(slugs, parents, id, {}));
    WalkStep(slugs, parents, id, {});
  }

  /**
   Paths stand for documents: in a project without cycles, whose slugs hold no slash and
   differ between siblings, two documents never have the same path.
   */
  lemma PathsIdentifyDocuments(slugs: Slugs, parents: Parents, rank: map<string, nat>, a: string, b: string)
    requires Ranked(slugs, parents, rank) && SiblingsDiffer(slugs, parents) && "" !in slugs
    requires forall id | id in slugs :: '/' !in slugs[id]
    requires a in slugs && b in slugs && Join(Segments(slugs, parents, a)) == Join(Segments(slugs, parents, b))
    ensures a == b
  {
    SegmentsNoSlash(slugs, parents, a);
    SegmentsNoSlash(slugs, parents, b);
    JoinInjective(Segments(slugs, parents, a), Segments(slugs, parents, b));
    SegmentsIdentify(slugs, parents, rank, a, b);
  }
}
