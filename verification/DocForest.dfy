/**
 What the forest of comments (internal/mcp/doc_comments.go:300-337) shows: every
 comment once, at the depth of its chain of parents, unless its parents go round.
 */
module DocForest {
  import opened Wrappers
  import opened DocThreads
  import StableSort

  // ---------------------------------------------------------------- occurrences

  function Occurrences<T(==)>(xs: seq<T>, x: T): nat {
    multiset(xs)[x]
  }

  lemma OccurrencesConcat<T>(xs: seq<T>, ys: seq<T>, x: T)
    ensures Occurrences(xs + ys, x) == Occurrences(xs, x) + Occurrences(ys, x)
  {
  }

  lemma OccurrencesSnoc<T>(xs: seq<T>, y: T, x: T)
    ensures Occurrences(xs + [y], x) == Occurrences(xs, x) + if y == x then 1 else 0
  {
  }

  // ---------------------------------------------------------------- who answers whom

  /** For each comment the position of the one it answers; None for a thread. */
  type Parents = seq<Option<nat>>

  predicate InRange(up: Parents) {
    forall i | 0 <= i < |up| && up[i].Some? :: up[i].value < |up|
  }

  /** The comments among the first n that answer p, in input order. */
  function Children(up: Parents, p: Option<nat>, n: nat): (at: seq<nat>)
    requires n <= |up|
    ensures Within(at, n)
  {
    if n == 0 then [] else if up[n - 1] == p then Children(up, p, n - 1) + [n - 1] else Children(up, p, n - 1)
  }

  lemma {:induction false} ChildrenIncrease(up: Parents, p: Option<nat>, n: nat)
    requires n <= |up|
    ensures StableSort.Increasing(Children(up, p, n))
  {
    if n > 0 {
      ChildrenIncrease(up, p, n - 1);
      assert Within(Children(up, p, n - 1), n - 1);
    }
  }

  lemma {:induction false} ChildrenExact(up: Parents, p: Option<nat>, n: nat, i: nat)
    requires n <= |up| && i < |up|
    ensures Occurrences(Children(up, p, n), i) == if i < n && up[i] == p then 1 else 0
  {
    if n > 0 {
      ChildrenExact(up, p, n - 1, i);
      OccurrencesSnoc(Children(up, p, n - 1), n - 1, i);
    }
  }

  /** Following parents from i reaches a thread after exactly k steps. */
  predicate RootedAt(up: Parents, i: nat, k: nat)
    requires InRange(up) && i < |up|
    decreases k
  {
    if up[i].None? then k == 0 else k > 0 && RootedAt(up, up[i].value, k - 1)
  }

  lemma {:induction false} RootedOnce(up: Parents, i: nat, k: nat, k': nat)
    requires InRange(up) && i < |up| && RootedAt(up, i, k) && RootedAt(up, i, k')
    ensures k == k'
    decreases k
  {
    if k > 0 { RootedOnce(up, up[i].value, k - 1, k' - 1); }
  }

  /** The positions one level below the given ones, and k levels below the threads. */
  function Below(up: Parents, at: seq<nat>): (below: seq<nat>)
    ensures Within(below, |up|)
  {
    if at == [] then [] else Below(up, at[..|at| - 1]) + Children(up, Some(at[|at| - 1]), |up|)
  }

  function Level(up: Parents, k: nat): (level: seq<nat>)
    ensures Within(level, |up|)
  {
    if k == 0 then Children(up, None, |up|) else Below(up, Level(up, k - 1))
  }

  /** A comment is below exactly as often as its parent is above. */
  lemma {:induction false} BelowCounts(up: Parents, at: seq<nat>, i: nat)
    requires i < |up|
    ensures Occurrences(Below(up, at), i) == if up[i].None? then 0 else Occurrences(at, up[i].value)
  {
    if at != [] {
      var front, last := at[..|at| - 1], at[|at| - 1];
      assert at == front + [last];
      BelowCounts(up, front, i);
      ChildrenExact(up, Some(last), |up|, i);
      OccurrencesConcat(Below(up, front), Children(up, Some(last), |up|), i);
    }
  }

  /** A level holds a comment once if its chain of parents has that length, and not otherwise. */
  lemma {:induction false} LevelCounts(up: Parents, k: nat, i: nat)
    requires InRange(up) && i < |up|
    ensures Occurrences(Level(up, k), i) == if RootedAt(up, i, k) then 1 else 0
  {
    if k == 0 {
      ChildrenExact(up, None, |up|, i);
      assert Level(up, 0) == Children(up, None, |up|);
    } else {
      BelowCounts(up, Level(up, k - 1), i);
      assert Level(up, k) == Below(up, Level(up, k - 1));
      if up[i].Some? { LevelCounts(up, k - 1, up[i].value); }
    }
  }

  /** The chain of parents reaches a thread within n steps. */
  predicate RootedWithin(up: Parents, i: nat, n: nat)
    requires InRange(up) && i < |up|
  {
    exists k: nat :: k < n && RootedAt(up, i, k)
  }

  lemma RootedOneMore(up: Parents, i: nat, n: nat)
    requires InRange(up) && i < |up|
    ensures RootedWithin(up, i, n + 1) <==> RootedWithin(up, i, n) || RootedAt(up, i, n)
    ensures !(RootedWithin(up, i, n) && RootedAt(up, i, n))
  {
    if RootedWithin(up, i, n) && RootedAt(up, i, n) {
      var k: nat :| k < n && RootedAt(up, i, k);
      RootedOnce(up, i, k, n);
    }
  }

  /** A rank that falls along every parent link: parents do not go round. */
  ghost predicate Ranked(up: Parents, rank: seq<nat>)
    requires InRange(up)
  {
    |rank| == |up| && forall i | 0 <= i < |up| && up[i].Some? :: rank[up[i].value] < rank[i]
  }

  lemma {:induction false} RankedIsRooted(up: Parents, rank: seq<nat>, i: nat)
    requires InRange(up) && Ranked(up, rank) && i < |up|
    ensures RootedWithin(up, i, rank[i] + 1)
    decreases rank[i]
  {
    if up[i].None? {
      assert RootedAt(up, i, 0);
    } else {
      var p := up[i].value;
      RankedIsRooted(up, rank, p);
      var k: nat :| k < rank[p] + 1 && RootedAt(up, p, k);
      assert RootedAt(up, i, k + 1);
    }
  }

  ghost predicate Rooted(up: Parents, i: nat)
    requires InRange(up) && i < |up|
  {
    exists k: nat :: RootedAt(up, i, k)
  }

  ghost function Depths(up: Parents, n: nat): (depths: seq<nat>)
    requires InRange(up) && n <= |up| && forall i: nat | i < n :: Rooted(up, i)
    ensures |depths| == n && forall i: nat | i < n :: RootedAt(up, i, depths[i])
  {
    if n == 0 then []
    else
      assert Rooted(up, n - 1);
      var k: nat :| RootedAt(up, n - 1, k);
      Depths(up, n - 1) + [k]
  }

  function UpTo(n: nat): (below: set<nat>)
    ensures |below| == n && forall j: nat :: j in below <==> j < n
  {
    if n == 0 then {} else UpTo(n - 1) + {n - 1}
  }

  /** A comment and its parents up to the thread, all different because their depths are. */
  lemma {:induction false} Ancestry(up: Parents, i: nat, k: nat) returns (line: set<nat>)
    requires InRange(up) && i < |up| && RootedAt(up, i, k)
    ensures |line| == k + 1 && forall j | j in line :: j < |up| && RootedWithin(up, j, k + 1)
    decreases k
  {
    line := {};
    if k > 0 {
      line := Ancestry(up, up[i].value, k - 1);
      RootedOneMore(up, i, k);
      assert i !in line;
      forall j | j in line ensures RootedWithin(up, j, k + 1) { RootedOneMore(up, j, k); }
    }
    line := line + {i};
  }

  /** No chain of parents is longer than the list of comments. */
  lemma RootedShallow(up: Parents, i: nat, k: nat)
    requires InRange(up) && i < |up| && RootedAt(up, i, k)
    ensures k < |up|
  {
    var line := Ancestry(up, i, k);
    SubsetSize(line, UpTo(|up|));
  }

  lemma RootedIffWithin(up: Parents, i: nat, n: nat)
    requires InRange(up) && i < |up| <= n
    ensures Rooted(up, i) <==> RootedWithin(up, i, n)
  {
    if k: nat :| RootedAt(up, i, k) { RootedShallow(up, i, k); }
  }

  /** Every chain of parents ends in a thread exactly when parents never go round. */
  lemma AllRootedIffAcyclic(up: Parents)
    requires InRange(up)
    ensures (forall i: nat | i < |up| :: Rooted(up, i)) <==> exists rank :: Ranked(up, rank)
  {
    if rank :| Ranked(up, rank) {
      forall i: nat | i < |up| ensures Rooted(up, i) { RankedIsRooted(up, rank, i); }
    }
    if forall i: nat | i < |up| :: Rooted(up, i) {
      var rank := Depths(up, |up|);
      forall i: nat | i < |up| && up[i].Some? ensures rank[up[i].value] < rank[i] {
        RootedOnce(up, up[i].value, rank[up[i].value], rank[i] - 1);
      }
      assert Ranked(up, rank);
    }
  }

  // ---------------------------------------------------------------- the comments' own parents

  ghost predicate DistinctIds(comments: seq<Comment>) {
    && (forall i | 0 <= i < |comments| :: comments[i].id != "")
    && (forall i, j | 0 <= i < j < |comments| :: comments[i].id != comments[j].id)
  }

  /** The first comment that carries an id, or the number of comments. */
  function Find(comments: seq<Comment>, id: string): (p: nat)
    ensures p <= |comments| && (p < |comments| ==> comments[p].id == id)
    ensures p == |comments| ==> forall i | 0 <= i < |comments| :: comments[i].id != id
  {
    if comments == [] || comments[0].id == id then 0 else 1 + Find(comments[1..], id)
  }

  function ParentAt(comments: seq<Comment>, i: nat): Option<nat>
    requires i < |comments|
  {
    var p := Find(comments, comments[i].parent);
    if comments[i].parent == "" || p == |comments| then None else Some(p)
  }

  function ParentsOf(comments: seq<Comment>): (up: Parents)
    ensures |up| == |comments| && forall i | 0 <= i < |up| :: up[i] == ParentAt(comments, i)
    ensures InRange(up)
  {
    seq(|comments|, i requires 0 <= i < |comments| => ParentAt(comments, i))
  }

  /** None for what is placed at the top: no parent named, or one that is not listed. */
  lemma PlaceIsParent(comments: seq<Comment>, i: nat)
    requires i < |comments|
    ensures match ParentAt(comments, i)
            case None => PlaceOf(comments, comments[i]) == Top
            case Some(p) => p < |comments| && PlaceOf(comments, comments[i]) == Under(comments[p].id)
  {
    var p := Find(comments, comments[i].parent);
    if p < |comments| { assert comments[p] in comments; }
  }

  /** The place that holds the comments answering p, or the threads. */
  function PlaceUnder(comments: seq<Comment>, p: Option<nat>): Place
    requires p.Some? ==> p.value < |comments|
  {
    if p.None? then Top else Under(comments[p.value].id)
  }

  lemma PlaceMatches(comments: seq<Comment>, p: Option<nat>, i: nat)
    requires DistinctIds(comments) && i < |comments| && (p.Some? ==> p.value < |comments|)
    ensures ParentsOf(comments)[i] == p <==> PlaceOf(comments, comments[i]) == PlaceUnder(comments, p)
  {
    PlaceIsParent(comments, i);
    var q := ParentAt(comments, i);
    if q.Some? && p.Some? && q != p {
      if q.value < p.value { assert comments[q.value].id != comments[p.value].id; }
      else { assert comments[p.value].id != comments[q.value].id; }
    }
  }

  lemma {:induction false} MembersMatch(comments: seq<Comment>, place: Place, up: Parents, p: Option<nat>, n: nat)
    requires n <= |comments| == |up|
    requires forall i | 0 <= i < n :: up[i] == p <==> PlaceOf(comments, comments[i]) == place
    ensures Members(comments, place, n) == Children(up, p, n)
  {
    if n > 0 { MembersMatch(comments, place, up, p, n - 1); }
  }

  lemma MembersAreChildren(comments: seq<Comment>, p: Option<nat>)
    requires DistinctIds(comments) && (p.Some? ==> p.value < |comments|)
    ensures Members(comments, PlaceUnder(comments, p), |comments|) == Children(ParentsOf(comments), p, |comments|)
  {
    forall i | 0 <= i < |comments|
      ensures ParentsOf(comments)[i] == p <==> PlaceOf(comments, comments[i]) == PlaceUnder(comments, p)
    {
      PlaceMatches(comments, p, i);
    }
    MembersMatch(comments, PlaceUnder(comments, p), ParentsOf(comments), p, |comments|);
  }

  // ---------------------------------------------------------------- the forest on the heap

  function Pick(nodes: seq<Node>, at: seq<nat>): (picked: seq<Node>)
    requires Within(at, |nodes|)
    ensures |picked| == |at| && forall k | 0 <= k < |at| :: picked[k] == nodes[at[k]]
  {
    seq(|at|, k requires 0 <= k < |at| => nodes[at[k]])
  }

  lemma PickConcat(nodes: seq<Node>, at: seq<nat>, more: seq<nat>)
    requires Within(at, |nodes|) && Within(more, |nodes|)
    ensures Within(at + more, |nodes|)
    ensures Pick(nodes, at + more) == Pick(nodes, at) + Pick(nodes, more)
  {
  }

  lemma PickSnoc(nodes: seq<Node>, at: seq<nat>)
    requires Within(at, |nodes|) && at != []
    ensures var front, last := at[..|at| - 1], at[|at| - 1];
            && Pick(nodes, at)[..|at| - 1] == Pick(nodes, front)
            && at == front + [last] && Pick(nodes, at) == Pick(nodes, front) + [nodes[last]]
  {
  }

  lemma {:induction false} PickCounts(nodes: seq<Node>, at: seq<nat>, i: nat)
    requires i < |nodes| && Within(at, |nodes|)
    requires forall a, b | 0 <= a < b < |nodes| :: nodes[a] != nodes[b]
    ensures Occurrences(Pick(nodes, at), nodes[i]) == Occurrences(at, i)
  {
    if at != [] {
      var front, last := at[..|at| - 1], at[|at| - 1];
      PickCounts(nodes, front, i);
      PickSnoc(nodes, at);
      OccurrencesSnoc(front, last, i);
      OccurrencesSnoc(Pick(nodes, front), nodes[last], nodes[i]);
      assert last != i ==> nodes[last] != nodes[i];
    }
  }

  lemma {:induction false} NodesArePicked(comments: seq<Comment>, nodes: seq<Node>, place: Place, n: nat)
    requires n <= |comments| && n <= |nodes|
    ensures NodesAt(comments, nodes, place, n) == Pick(nodes, Members(comments, place, n))
  {
    if n > 0 {
      NodesArePicked(comments, nodes, place, n - 1);
      PickConcat(nodes, Members(comments, place, n - 1), [n - 1]);
      assert Pick(nodes, [n - 1]) == [nodes[n - 1]];
    }
  }

  /** A forest whose nodes are distinct and whose replies are the children of each position. */
  ghost predicate Shape(up: Parents, nodes: seq<Node>, threads: seq<Node>)
    reads set i | 0 <= i < |nodes| :: nodes[i]
  {
    && |nodes| == |up| && InRange(up)
    && (forall a, b | 0 <= a < b < |nodes| :: nodes[a] != nodes[b])
    && threads == Pick(nodes, Children(up, None, |up|))
    && (forall i | 0 <= i < |nodes| :: nodes[i].replies == Pick(nodes, Children(up, Some(i), |up|)))
  }

  /** With distinct ids each comment has a node of its own, with its content and mark. */
  lemma NodeOfComment(comments: seq<Comment>, nodes: seq<Node>, threads: seq<Node>, i: nat)
    requires Forest(comments, nodes, threads) && DistinctIds(comments) && i < |comments|
    ensures nodes[i].comment == comments[i] && (nodes[i].orphaned <==> Orphan(comments, comments[i]))
    ensures forall j: nat | j < |comments| && j != i :: nodes[i] != nodes[j]
  {
    DistinctEntries(comments, i);
  }

  lemma DistinctEntries(comments: seq<Comment>, i: nat)
    requires DistinctIds(comments) && i < |comments|
    ensures LastOfId(comments, i) && (ShowsOrphan(comments, i) <==> Orphan(comments, comments[i]))
    ensures forall j: nat | j < |comments| :: Same(comments, i, j) <==> i == j
  {
    forall j: nat | j < |comments| ensures Same(comments, i, j) <==> i == j {
      if i < j { assert comments[i].id != comments[j].id; }
      if j < i { assert comments[j].id != comments[i].id; }
    }
  }

  lemma RepliesOfComment(comments: seq<Comment>, nodes: seq<Node>, threads: seq<Node>, i: nat)
    requires Forest(comments, nodes, threads) && DistinctIds(comments) && i < |comments|
    ensures nodes[i].replies == Pick(nodes, Children(ParentsOf(comments), Some(i), |comments|))
  {
    NodesArePicked(comments, nodes, Under(comments[i].id), |comments|);
    MembersAreChildren(comments, Some(i));
  }

  /** The built forest is shaped by the parents; siblings keep input order. */
  lemma ForestHasShape(comments: seq<Comment>, nodes: seq<Node>, threads: seq<Node>)
    requires Forest(comments, nodes, threads) && DistinctIds(comments)
    ensures Shape(ParentsOf(comments), nodes, threads)
  {
    var up := ParentsOf(comments);
    forall i: nat | i < |comments|
      ensures nodes[i].replies == Pick(nodes, Children(up, Some(i), |up|))
      ensures forall j: nat | j < |comments| && j != i :: nodes[i] != nodes[j]
    {
      NodeOfComment(comments, nodes, threads, i);
      RepliesOfComment(comments, nodes, threads, i);
    }
    NodesArePicked(comments, nodes, Top, |comments|);
    MembersAreChildren(comments, None);
  }

  /** The replies of the given nodes, one after another. */
  function RepliesOf(nodes: seq<Node>): seq<Node>
    reads set j | 0 <= j < |nodes| :: nodes[j]
  {
    if nodes == [] then [] else RepliesOf(nodes[..|nodes| - 1]) + nodes[|nodes| - 1].replies
  }

  /** Reading a forest level by level: the threads, then the replies of each level. */
  ghost predicate Levels(threads: seq<Node>, levels: seq<seq<Node>>)
    reads set k, j | 0 <= k < |levels| && 0 <= j < |levels[k]| :: levels[k][j]
  {
    && |levels| >= 1 && levels[0] == threads
    && forall k | 0 < k < |levels| :: levels[k] == RepliesOf(levels[k - 1])
  }

  /** Any number of levels can be read. */
  lemma {:induction false} SomeLevels(threads: seq<Node>, n: nat) returns (levels: seq<seq<Node>>)
    requires n >= 1
    ensures |levels| == n && Levels(threads, levels)
  {
    if n == 1 { return [threads]; }
    var above := SomeLevels(threads, n - 1);
    levels := above + [RepliesOf(above[n - 2])];
    forall k | 0 < k < n ensures levels[k] == RepliesOf(levels[k - 1]) {
      assert levels[k - 1] == above[k - 1];
      if k < n - 1 { assert levels[k] == above[k]; }
    }
  }

  lemma {:induction false} RepliesArePicked(up: Parents, nodes: seq<Node>, threads: seq<Node>, at: seq<nat>)
    requires Shape(up, nodes, threads) && Within(at, |up|)
    ensures RepliesOf(Pick(nodes, at)) == Pick(nodes, Below(up, at))
  {
    if at != [] {
      var front, last := at[..|at| - 1], at[|at| - 1];
      RepliesArePicked(up, nodes, threads, front);
      PickSnoc(nodes, at);
      PickConcat(nodes, Below(up, front), Children(up, Some(last), |up|));
    }
  }

  lemma {:induction false} LevelIsPicked(
    up: Parents, nodes: seq<Node>, threads: seq<Node>, levels: seq<seq<Node>>, k: nat)
    requires Shape(up, nodes, threads) && Levels(threads, levels) && k < |levels|
    ensures levels[k] == Pick(nodes, Level(up, k))
  {
    if k > 0 {
      LevelIsPicked(up, nodes, threads, levels, k - 1);
      RepliesArePicked(up, nodes, threads, Level(up, k - 1));
    }
  }

  /** Each comment's node is met once, at the depth of its chain of parents, and nowhere else. */
  lemma MetAtItsDepth(up: Parents, nodes: seq<Node>, threads: seq<Node>, levels: seq<seq<Node>>, i: nat, k: nat)
    requires Shape(up, nodes, threads) && Levels(threads, levels) && i < |up| && k < |levels|
    ensures Occurrences(levels[k], nodes[i]) == if RootedAt(up, i, k) then 1 else 0
  {
    LevelIsPicked(up, nodes, threads, levels, k);
    PickCounts(nodes, Level(up, k), i);
    LevelCounts(up, k, i);
  }

  /** All levels, one after another. */
  function Whole(levels: seq<seq<Node>>): seq<Node> {
    if levels == [] then [] else Whole(levels[..|levels| - 1]) + levels[|levels| - 1]
  }

  lemma WholeSnoc(levels: seq<seq<Node>>, n: nat, node: Node)
    requires n < |levels|
    ensures Whole(levels[..n + 1]) == Whole(levels[..n]) + levels[n]
    ensures Occurrences(Whole(levels[..n + 1]), node)
            == Occurrences(Whole(levels[..n]), node) + Occurrences(levels[n], node)
  {
    assert levels[..n + 1][..n] == levels[..n];
    OccurrencesConcat(Whole(levels[..n]), levels[n], node);
  }

  /** A reading of n levels meets exactly the comments rooted within n steps, once each. */
  lemma {:induction false} MetOnce(
    up: Parents, nodes: seq<Node>, threads: seq<Node>, levels: seq<seq<Node>>, i: nat, n: nat)
    requires Shape(up, nodes, threads) && Levels(threads, levels) && i < |up| && n <= |levels|
    ensures Occurrences(Whole(levels[..n]), nodes[i]) == if RootedWithin(up, i, n) then 1 else 0
  {
    if n > 0 {
      MetOnce(up, nodes, threads, levels, i, n - 1);
      WholeSnoc(levels, n - 1, nodes[i]);
      MetAtItsDepth(up, nodes, threads, levels, i, n - 1);
      RootedOneMore(up, i, n - 1);
    }
  }

  lemma {:induction false} WholeFromNodes(
    up: Parents, nodes: seq<Node>, threads: seq<Node>, levels: seq<seq<Node>>, n: nat)
    requires Shape(up, nodes, threads) && Levels(threads, levels) && n <= |levels|
    ensures forall node | node in Whole(levels[..n]) :: node in nodes
  {
    if n > 0 {
      WholeFromNodes(up, nodes, threads, levels, n - 1);
      assert levels[..n][..n - 1] == levels[..n - 1];
      LevelIsPicked(up, nodes, threads, levels, n - 1);
      var level := levels[n - 1];
      forall node | node in level ensures node in nodes {
        var j :| 0 <= j < |level| && level[j] == node;
        assert node == nodes[Level(up, n - 1)[j]];
      }
    }
  }

  /**
   A reading of the whole forest meets every comment once, as it is, exactly if its
   chain of parents reaches a thread; and meets nothing else.
   */
  lemma {:induction false} ForestShowsRooted(
    comments: seq<Comment>, nodes: seq<Node>, threads: seq<Node>, levels: seq<seq<Node>>, i: nat)
    requires Forest(comments, nodes, threads) && DistinctIds(comments) && Levels(threads, levels) && i < |comments|
    ensures nodes[i].comment == comments[i] && (nodes[i].orphaned <==> Orphan(comments, comments[i]))
    ensures Occurrences(Whole(levels), nodes[i]) == if RootedWithin(ParentsOf(comments), i, |levels|) then 1 else 0
    ensures forall node | node in Whole(levels) :: node in nodes
  {
    ForestHasShape(comments, nodes, threads);
    NodeOfComment(comments, nodes, threads, i);
    assert levels[..|levels|] == levels;
    MetOnce(ParentsOf(comments), nodes, threads, levels, i, |levels|);
    WholeFromNodes(ParentsOf(comments), nodes, threads, levels, |levels|);
  }

  /** A reading as deep as the list is long meets a comment once if its chain of parents reaches a thread, or never. */
  lemma {:induction false} ShownIffRooted(
    comments: seq<Comment>, nodes: seq<Node>, threads: seq<Node>, levels: seq<seq<Node>>, i: nat)
    requires Forest(comments, nodes, threads) && DistinctIds(comments) && Levels(threads, levels)
    requires i < |comments| <= |levels|
    ensures Occurrences(Whole(levels), nodes[i]) == if Rooted(ParentsOf(comments), i) then 1 else 0
  {
    ForestShowsRooted(comments, nodes, threads, levels, i);
    RootedIffWithin(ParentsOf(comments), i, |levels|);
  }

  /**
   With distinct ids, reading the forest meets every comment exactly once if and only
   if parents never go round.
   */
  lemma {:induction false} AllShownIffAcyclic(
    comments: seq<Comment>, nodes: seq<Node>, threads: seq<Node>, levels: seq<seq<Node>>)
    requires Forest(comments, nodes, threads) && DistinctIds(comments) && Levels(threads, levels)
    requires |comments| <= |levels|
    ensures (forall i: nat | i < |comments| :: Occurrences(Whole(levels), nodes[i]) == 1)
            <==> exists rank :: Ranked(ParentsOf(comments), rank)
  {
    forall i: nat | i < |comments|
      ensures Occurrences(Whole(levels), nodes[i]) == 1 <==> Rooted(ParentsOf(comments), i)
    {
      ShownIffRooted(comments, nodes, threads, levels, i);
    }
    AllRootedIffAcyclic(ParentsOf(comments));
  }

  /** So an acyclic list of distinct comments is conserved, however deep it nests. */
  lemma {:induction false} ForestConservesComments(
    comments: seq<Comment>, nodes: seq<Node>, threads: seq<Node>, rank: seq<nat>) returns (levels: seq<seq<Node>>)
    requires Forest(comments, nodes, threads) && DistinctIds(comments) && Ranked(ParentsOf(comments), rank)
    ensures Levels(threads, levels)
    ensures forall i: nat | i < |comments| ::
              nodes[i].comment == comments[i] && Occurrences(Whole(levels), nodes[i]) == 1
    ensures forall node | node in Whole(levels) :: node in nodes
  {
    levels := SomeLevels(threads, |comments| + 1);
    AllShownIffAcyclic(comments, nodes, threads, levels);
    forall i: nat | i < |comments| ensures nodes[i].comment == comments[i] {
      NodeOfComment(comments, nodes, threads, i);
    }
    ForestHasShape(comments, nodes, threads);
    assert levels[..|levels|] == levels;
    WholeFromNodes(ParentsOf(comments), nodes, threads, levels, |levels|);
  }

  // ---------------------------------------------------------------- what can be lost

  lemma {:induction false} NoThreads(comments: seq<Comment>, n: nat)
    requires n <= |comments| && forall i | 0 <= i < n :: comments[i].parent in Ids(comments)
    ensures Members(comments, Top, n) == []
  {
    if n > 0 {
      assert comments[n - 1].parent in Ids(comments);
      NoThreads(comments, n - 1);
    }
  }

  /** Comments that answer each other are in no thread at all. */
  lemma CycleIsLost(comments: seq<Comment>, nodes: seq<Node>, threads: seq<Node>)
    requires comments == [Comment("a", "b", "?"), Comment("b", "a", "!")]
    requires Forest(comments, nodes, threads)
    ensures |nodes| == 2 && threads == []
  {
    AnswerEachOther(comments);
    NoThreads(comments, 2);
    NodesArePicked(comments, nodes, Top, 2);
  }

  lemma AnswerEachOther(comments: seq<Comment>)
    requires comments == [Comment("a", "b", "?"), Comment("b", "a", "!")]
    ensures forall i | 0 <= i < 2 :: comments[i].parent in Ids(comments)
  {
    assert comments[0] in comments && comments[1] in comments;
    assert comments[0].id == comments[1].parent && comments[1].id == comments[0].parent;
  }

  lemma {:induction false} LastEntry(comments: seq<Comment>, i: nat) returns (j: nat)
    requires i < |comments|
    ensures i <= j < |comments| && Same(comments, i, j) && LastOfId(comments, j)
    decreases |comments| - i
  {
    if LastOfId(comments, i) { return i; }
    var k :| i < k < |comments| && comments[k].id == comments[i].id;
    j := LastEntry(comments, k);
  }

  /** Entries of one id share a node that has the content of the last of them, so the others' content is lost. */
  lemma SharedShowsLast(comments: seq<Comment>, nodes: seq<Node>, threads: seq<Node>, i: nat) returns (j: nat)
    requires Forest(comments, nodes, threads) && i < |comments|
    ensures i <= j < |comments| && Same(comments, i, j) && LastOfId(comments, j)
    ensures nodes[i] == nodes[j] && nodes[i].comment == comments[j]
    ensures nodes[i].comment == comments[i] <==> comments[i] == comments[j]
  {
    j := LastEntry(comments, i);
  }

  /** Two threads that share an id: the first one's text is gone. */
  lemma DuplicateLosesText(comments: seq<Comment>, nodes: seq<Node>, threads: seq<Node>)
    requires comments == [Comment("a", "", "first"), Comment("a", "", "second")]
    requires Forest(comments, nodes, threads)
    ensures forall node | node in nodes :: node.comment.text != "first"
  {
    var i := SharedShowsLast(comments, nodes, threads, 0);
    var j := SharedShowsLast(comments, nodes, threads, 1);
    assert comments[0].text != comments[1].text && i == 1;
  }

  // ---------------------------------------------------------------- what any input shows

  /** Some entry that shares i's node has a chain of k parents that ends in a thread. */
  ghost predicate Reaches(comments: seq<Comment>, i: nat, k: nat)
    requires i < |comments|
    decreases k
  {
    exists e: nat :: e < |comments| && Same(comments, i, e) && EntryReaches(comments, e, k)
  }

  ghost predicate EntryReaches(comments: seq<Comment>, e: nat, k: nat)
    requires e < |comments|
    decreases k, 0
  {
    if k == 0 then PlaceOf(comments, comments[e]) == Top
    else exists j: nat :: j < |comments| && PlaceOf(comments, comments[e]) == Under(comments[j].id)
                          && Reaches(comments, j, k - 1)
  }

  /** An entry is placed there, and this is its node. */
  predicate Placed(comments: seq<Comment>, nodes: seq<Node>, place: Place, node: Node, e: nat)
    requires e < |comments| && e < |nodes|
  {
    PlaceOf(comments, comments[e]) == place && nodes[e] == node
  }

  lemma {:induction false} InNodesAt(comments: seq<Comment>, nodes: seq<Node>, place: Place, n: nat, node: Node)
    requires n <= |comments| && n <= |nodes|
    ensures node in NodesAt(comments, nodes, place, n)
            <==> exists e: nat :: e < n && Placed(comments, nodes, place, node, e)
  {
    if n > 0 {
      InNodesAt(comments, nodes, place, n - 1, node);
      if Placed(comments, nodes, place, node, n - 1) { assert node in NodesAt(comments, nodes, place, n); }
    }
  }

  ghost predicate AnsweredBy(node: Node, reply: Node)
    reads node
  {
    reply in node.replies
  }

  lemma {:induction false} InRepliesOf(nodes: seq<Node>, reply: Node)
    ensures reply in RepliesOf(nodes) <==> exists node :: node in nodes && AnsweredBy(node, reply)
  {
    if nodes != [] {
      var front, last := nodes[..|nodes| - 1], nodes[|nodes| - 1];
      assert nodes == front + [last];
      InRepliesOf(front, reply);
      assert reply in last.replies <==> AnsweredBy(last, reply);
    }
  }

  /** A reply of a comment's node is the node of an entry that names it as parent. */
  lemma RepliesAreEntries(comments: seq<Comment>, nodes: seq<Node>, threads: seq<Node>, j: nat, reply: Node)
    requires Forest(comments, nodes, threads) && j < |comments|
    ensures AnsweredBy(nodes[j], reply) <==>
              exists e: nat :: e < |comments| && Placed(comments, nodes, Under(comments[j].id), reply, e)
  {
    InNodesAt(comments, nodes, Under(comments[j].id), |comments|, reply);
  }

  lemma {:induction false} LevelsFromNodes(
    comments: seq<Comment>, nodes: seq<Node>, threads: seq<Node>, levels: seq<seq<Node>>, k: nat, node: Node)
    requires Forest(comments, nodes, threads) && Levels(threads, levels) && k < |levels| && node in levels[k]
    ensures node in nodes
  {
    if k == 0 {
      InNodesAt(comments, nodes, Top, |comments|, node);
    } else {
      InRepliesOf(levels[k - 1], node);
      var parent :| parent in levels[k - 1] && AnsweredBy(parent, node);
      LevelsFromNodes(comments, nodes, threads, levels, k - 1, parent);
      var j: nat :| j < |nodes| && nodes[j] == parent;
      RepliesAreEntries(comments, nodes, threads, j, node);
    }
  }

  lemma SameNode(comments: seq<Comment>, nodes: seq<Node>, threads: seq<Node>, i: nat, e: nat)
    requires Forest(comments, nodes, threads) && i < |comments| && e < |comments|
    ensures nodes[i] == nodes[e] <==> Same(comments, i, e)
  {
  }

  lemma ParentIsMet(
    comments: seq<Comment>, nodes: seq<Node>, threads: seq<Node>, levels: seq<seq<Node>>, node: Node, k: nat)
    returns (j: nat)
    requires Forest(comments, nodes, threads) && Levels(threads, levels) && 0 < k < |levels| && node in levels[k]
    ensures j < |nodes| == |comments| && nodes[j] in levels[k - 1] && AnsweredBy(nodes[j], node)
  {
    InRepliesOf(levels[k - 1], node);
    var parent :| parent in levels[k - 1] && AnsweredBy(parent, node);
    LevelsFromNodes(comments, nodes, threads, levels, k - 1, parent);
    j :| j < |nodes| && nodes[j] == parent;
  }

  /** A reply that is met answers an entry that was met a level above. */
  lemma MetBelow(
    comments: seq<Comment>, nodes: seq<Node>, threads: seq<Node>, levels: seq<seq<Node>>, i: nat, k: nat)
    returns (e: nat, j: nat)
    requires Forest(comments, nodes, threads) && Levels(threads, levels) && i < |comments| && 0 < k < |levels|
    requires nodes[i] in levels[k]
    ensures e < |comments| && j < |comments| && Same(comments, i, e) && nodes[j] in levels[k - 1]
    ensures PlaceOf(comments, comments[e]) == Under(comments[j].id)
  {
    j := ParentIsMet(comments, nodes, threads, levels, nodes[i], k);
    RepliesAreEntries(comments, nodes, threads, j, nodes[i]);
    e :| e < |comments| && Placed(comments, nodes, Under(comments[j].id), nodes[i], e);
    SameNode(comments, nodes, threads, i, e);
  }

  /** An entry that answers one that is met is met a level below. */
  lemma BelowIsMet(
    comments: seq<Comment>, nodes: seq<Node>, threads: seq<Node>, levels: seq<seq<Node>>,
    i: nat, e: nat, j: nat, k: nat)
    requires Forest(comments, nodes, threads) && Levels(threads, levels) && 0 < k < |levels|
    requires i < |comments| && e < |comments| && j < |comments| && Same(comments, i, e) && nodes[j] in levels[k - 1]
    requires PlaceOf(comments, comments[e]) == Under(comments[j].id)
    ensures nodes[i] in levels[k]
  {
    SameNode(comments, nodes, threads, i, e);
    assert Placed(comments, nodes, Under(comments[j].id), nodes[i], e);
    RepliesAreEntries(comments, nodes, threads, j, nodes[i]);
    InRepliesOf(levels[k - 1], nodes[i]);
  }

  lemma ReachesBelow(comments: seq<Comment>, i: nat, e: nat, j: nat, k: nat)
    requires i < |comments| && e < |comments| && j < |comments| && k > 0
    requires Same(comments, i, e) && PlaceOf(comments, comments[e]) == Under(comments[j].id)
    requires Reaches(comments, j, k - 1)
    ensures Reaches(comments, i, k)
  {
    assert EntryReaches(comments, e, k);
  }

  lemma ReachesVia(comments: seq<Comment>, i: nat, k: nat) returns (e: nat, j: nat)
    requires i < |comments| && k > 0 && Reaches(comments, i, k)
    ensures e < |comments| && j < |comments| && Same(comments, i, e) && Reaches(comments, j, k - 1)
    ensures PlaceOf(comments, comments[e]) == Under(comments[j].id)
  {
    e :| e < |comments| && Same(comments, i, e) && EntryReaches(comments, e, k);
    j :| j < |comments| && PlaceOf(comments, comments[e]) == Under(comments[j].id) && Reaches(comments, j, k - 1);
  }

  lemma MetAtTop(
    comments: seq<Comment>, nodes: seq<Node>, threads: seq<Node>, levels: seq<seq<Node>>, i: nat)
    requires Forest(comments, nodes, threads) && Levels(threads, levels) && i < |comments|
    ensures nodes[i] in levels[0] <==> Reaches(comments, i, 0)
  {
    InNodesAt(comments, nodes, Top, |comments|, nodes[i]);
    ThreadIffReaches(comments, nodes, threads, i);
  }

  /** What is met at depth k is what reaches a thread in k steps. */
  ghost predicate MetAgrees(comments: seq<Comment>, nodes: seq<Node>, level: seq<Node>, k: nat) {
    |nodes| == |comments| && forall i: nat | i < |comments| :: nodes[i] in level <==> Reaches(comments, i, k)
  }

  lemma MetOneDeeper(
    comments: seq<Comment>, nodes: seq<Node>, threads: seq<Node>, levels: seq<seq<Node>>, i: nat, k: nat)
    requires Forest(comments, nodes, threads) && Levels(threads, levels) && i < |comments| && 0 < k < |levels|
    requires MetAgrees(comments, nodes, levels[k - 1], k - 1)
    ensures nodes[i] in levels[k] ==> Reaches(comments, i, k)
  {
    if nodes[i] in levels[k] {
      var e, j := MetBelow(comments, nodes, threads, levels, i, k);
      ReachesBelow(comments, i, e, j, k);
    }
  }

  lemma ReachedOneDeeper(
    comments: seq<Comment>, nodes: seq<Node>, threads: seq<Node>, levels: seq<seq<Node>>, i: nat, k: nat)
    requires Forest(comments, nodes, threads) && Levels(threads, levels) && i < |comments| && 0 < k < |levels|
    requires MetAgrees(comments, nodes, levels[k - 1], k - 1)
    ensures Reaches(comments, i, k) ==> nodes[i] in levels[k]
  {
    if Reaches(comments, i, k) {
      var e, j := ReachesVia(comments, i, k);
      BelowIsMet(comments, nodes, threads, levels, i, e, j, k);
    }
  }

  /** For any input, repeated and missing ids included: what is met at a depth. */
  lemma {:induction false} MetIffReaches(
    comments: seq<Comment>, nodes: seq<Node>, threads: seq<Node>, levels: seq<seq<Node>>, k: nat)
    requires Forest(comments, nodes, threads) && Levels(threads, levels) && k < |levels|
    ensures MetAgrees(comments, nodes, levels[k], k)
  {
    if k == 0 {
      forall i: nat | i < |comments| ensures nodes[i] in levels[0] <==> Reaches(comments, i, 0) {
        MetAtTop(comments, nodes, threads, levels, i);
      }
    } else {
      MetIffReaches(comments, nodes, threads, levels, k - 1);
      forall i: nat | i < |comments| ensures nodes[i] in levels[k] <==> Reaches(comments, i, k) {
        MetOneDeeper(comments, nodes, threads, levels, i, k);
        ReachedOneDeeper(comments, nodes, threads, levels, i, k);
      }
    }
  }

  lemma ThreadIffReaches(comments: seq<Comment>, nodes: seq<Node>, threads: seq<Node>, i: nat)
    requires Forest(comments, nodes, threads) && i < |comments|
    ensures (exists e: nat :: e < |comments| && Placed(comments, nodes, Top, nodes[i], e)) <==> Reaches(comments, i, 0)
  {
    if e: nat :| e < |comments| && Placed(comments, nodes, Top, nodes[i], e) {
      assert Same(comments, i, e) && EntryReaches(comments, e, 0);
    }
    if Reaches(comments, i, 0) {
      var e: nat :| e < |comments| && Same(comments, i, e) && EntryReaches(comments, e, 0);
      assert Placed(comments, nodes, Top, nodes[i], e);
    }
  }

  ghost predicate ReachesWithin(comments: seq<Comment>, i: nat, n: nat)
    requires i < |comments|
  {
    exists k: nat :: k < n && Reaches(comments, i, k)
  }

  lemma {:induction false} InWhole(levels: seq<seq<Node>>, node: Node)
    ensures node in Whole(levels) <==> exists k: nat :: k < |levels| && node in levels[k]
  {
    if levels != [] {
      var front := levels[..|levels| - 1];
      InWhole(front, node);
      assert forall k: nat | k < |front| :: front[k] == levels[k];
    }
  }

  /**
   For any input: an entry's content is met if and only if it is the last content of its
   id and some entry of that id has a chain of parents that reaches a thread.
   */
  lemma ContentMetIff(
    comments: seq<Comment>, nodes: seq<Node>, threads: seq<Node>, levels: seq<seq<Node>>, i: nat) returns (last: nat)
    requires Forest(comments, nodes, threads) && Levels(threads, levels)
    requires i < |comments| && comments[i].id != ""
    ensures last < |comments| && Same(comments, i, last) && LastOfId(comments, last)
    ensures (exists node :: node in Whole(levels) && node.comment == comments[i])
            <==> comments[last] == comments[i] && ReachesWithin(comments, i, |levels|)
  {
    last := SharedShowsLast(comments, nodes, threads, i);
    InWhole(levels, nodes[i]);
    forall k: nat | k < |levels| ensures nodes[i] in levels[k] <==> Reaches(comments, i, k) {
      MetIffReaches(comments, nodes, threads, levels, k);
    }
    if node :| node in Whole(levels) && node.comment == comments[i] {
      InWhole(levels, node);
      var k: nat :| k < |levels| && node in levels[k];
      LevelsFromNodes(comments, nodes, threads, levels, k, node);
      var j: nat :| j < |nodes| && nodes[j] == node;
      var l := SharedShowsLast(comments, nodes, threads, j);
      assert Same(comments, i, j);
    }
  }
}
