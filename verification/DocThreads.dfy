/**
 Nesting each reply under the comment it answers (internal/mcp/doc_comments.go:300-337).
 The result is a set of shared nodes on the heap: a node's replies are other nodes.
 */
module DocThreads {
  /** A comment as listed; an absent id or parent is the empty string. */
  datatype Comment = Comment(id: string, parent: string, text: string)

  class Node {
    const comment: Comment
    var replies: seq<Node>
    var orphaned: bool

    constructor (comment: Comment)
      ensures this.comment == comment && replies == [] && !orphaned
    {
      this.comment := comment;
      replies, orphaned := [], false;
    }
  }

  // ---------------------------------------------------------------- where each comment belongs

  function Ids(comments: seq<Comment>): set<string> {
    set c | c in comments && c.id != "" :: c.id
  }

  datatype Place = Top | Under(id: string)

  function PlaceOf(comments: seq<Comment>, c: Comment): Place {
    if c.parent in Ids(comments) then Under(c.parent) else Top
  }

  /** A reply to a comment that is not listed. */
  predicate Orphan(comments: seq<Comment>, c: Comment) {
    c.parent != "" && c.parent !in Ids(comments)
  }

  predicate Within(at: seq<nat>, n: nat) {
    forall k | 0 <= k < |at| :: at[k] < n
  }

  /** The comments among the first n that belong at a place, in input order. */
  function Members(comments: seq<Comment>, place: Place, n: nat): (members: seq<nat>)
    requires n <= |comments|
    ensures Within(members, n)
  {
    if n == 0 then []
    else if PlaceOf(comments, comments[n - 1]) == place then Members(comments, place, n - 1) + [n - 1]
    else Members(comments, place, n - 1)
  }

  /** Two entries share a node when they carry the same id. */
  predicate Same(comments: seq<Comment>, i: nat, j: nat)
    requires i < |comments| && j < |comments|
  {
    i == j || (comments[i].id != "" && comments[i].id == comments[j].id)
  }

  /** The last comment carrying an id gives its content. */
  predicate LastOfId(comments: seq<Comment>, i: nat)
    requires i < |comments|
  {
    comments[i].id == "" || forall j | i < j < |comments| :: comments[j].id != comments[i].id
  }

  /** The node carries the mark if an entry it stands for is an orphan. */
  predicate ShowsOrphan(comments: seq<Comment>, i: nat)
    requires i < |comments|
  {
    exists j | 0 <= j < |comments| :: Same(comments, i, j) && Orphan(comments, comments[j])
  }

  /** The nodes of a place's members, in input order. */
  function NodesAt(comments: seq<Comment>, nodes: seq<Node>, place: Place, n: nat): seq<Node>
    requires n <= |comments| && n <= |nodes|
  {
    if n == 0 then []
    else if PlaceOf(comments, comments[n - 1]) == place then NodesAt(comments, nodes, place, n - 1) + [nodes[n - 1]]
    else NodesAt(comments, nodes, place, n - 1)
  }

  /** The returned forest: every node's content, mark and replies, and the top level. */
  ghost predicate Forest(comments: seq<Comment>, nodes: seq<Node>, threads: seq<Node>)
    reads nodes
  {
    && |nodes| == |comments|
    && (forall i, j | 0 <= i < |nodes| && 0 <= j < |nodes| :: nodes[i] == nodes[j] <==> Same(comments, i, j))
    && (forall i | 0 <= i < |nodes| && LastOfId(comments, i) :: nodes[i].comment == comments[i])
    && threads == NodesAt(comments, nodes, Top, |comments|)
    && (forall i | 0 <= i < |nodes| ::
          nodes[i].replies == NodesAt(comments, nodes, Under(comments[i].id), |comments|))
    && (forall i | 0 <= i < |nodes| :: nodes[i].orphaned <==> ShowsOrphan(comments, i))
  }

  // ---------------------------------------------------------------- the code

  /** The node table: one fresh node for each id. */
  ghost predicate Table(comments: seq<Comment>, n: nat, nodes: map<string, Node>)
    requires n <= |comments|
  {
    && nodes.Keys == Ids(comments[..n])
    && (forall id, id' | id in nodes && id' in nodes && id != id' :: nodes[id] != nodes[id'])
    && (forall i | 0 <= i < n && comments[i].id != "" && LastOfId(comments[..n], i) ::
          nodes[comments[i].id].comment == comments[i])
  }

  method BuildTable(comments: seq<Comment>) returns (nodes: map<string, Node>)
    ensures Table(comments, |comments|, nodes)
    ensures forall id | id in nodes :: fresh(nodes[id]) && nodes[id].replies == [] && !nodes[id].orphaned
  {
    nodes := map[];
    for n := 0 to |comments|
      invariant Table(comments, n, nodes)
      invariant forall id | id in nodes :: fresh(nodes[id]) && nodes[id].replies == [] && !nodes[id].orphaned
    {
      var c := comments[n];
      var node := new Node(c);
      ghost var before := nodes;
      if c.id != "" { nodes := nodes[c.id := node]; }
      TableStep(comments, n, before, nodes, node);
    }
    assert comments[..|comments|] == comments;
  }

  lemma TableStep(comments: seq<Comment>, n: nat, before: map<string, Node>, nodes: map<string, Node>, node: Node)
    requires n < |comments| && Table(comments, n, before) && node.comment == comments[n]
    requires forall id | id in before :: before[id] != node
    requires nodes == if comments[n].id == "" then before else before[comments[n].id := node]
    ensures Table(comments, n + 1, nodes)
  {
    assert comments[..n + 1] == comments[..n] + [comments[n]];
    forall i | 0 <= i < n + 1 && comments[i].id != "" && LastOfId(comments[..n + 1], i)
      ensures nodes[comments[i].id].comment == comments[i]
    {
      if i < n {
        assert comments[..n + 1][n] == comments[n] && comments[n].id != comments[i].id;
        assert LastOfId(comments[..n], i) by {
          forall j | i < j < n ensures comments[..n][j].id != comments[i].id {
            assert comments[..n + 1][j] == comments[..n][j];
          }
        }
      }
    }
  }

  /** An orphan among the first n comments carries the id. */
  predicate Marked(comments: seq<Comment>, id: string, n: nat)
    requires n <= |comments|
  {
    n > 0 && (Marked(comments, id, n - 1) || (comments[n - 1].id == id && Orphan(comments, comments[n - 1])))
  }

  lemma {:induction false} MarkedExact(comments: seq<Comment>, id: string, n: nat)
    requires n <= |comments|
    ensures Marked(comments, id, n) <==> exists j | 0 <= j < n :: comments[j].id == id && Orphan(comments, comments[j])
  {
    if n > 0 { MarkedExact(comments, id, n - 1); }
  }

  lemma {:induction false} NothingUnderUnlisted(comments: seq<Comment>, nodes: seq<Node>, id: string, n: nat)
    requires n <= |comments| && n <= |nodes| && id !in Ids(comments)
    ensures NodesAt(comments, nodes, Under(id), n) == []
  {
    if n > 0 { NothingUnderUnlisted(comments, nodes, id, n - 1); }
  }

  /** Which node stands for which comment. */
  ghost predicate Identified(comments: seq<Comment>, table: map<string, Node>, nodes: seq<Node>) {
    var k := |nodes|;
    && k <= |comments|
    && (forall i | 0 <= i < k ::
          if comments[i].id in table then nodes[i] == table[comments[i].id] else nodes[i] !in table.Values)
    && (forall i, j | 0 <= i < j < k && (comments[i].id !in table || comments[j].id !in table) :: nodes[i] != nodes[j])
  }

  lemma IdentifiedSnoc(comments: seq<Comment>, table: map<string, Node>, nodes: seq<Node>, node: Node)
    requires Identified(comments, table, nodes) && |nodes| < |comments|
    requires var id := comments[|nodes|].id;
             if id in table then node == table[id] else node !in table.Values && node !in nodes
    ensures Identified(comments, table, nodes + [node])
  {
    var k, nodes' := |nodes|, nodes + [node];
    forall i, j | 0 <= i < j <= k && (comments[i].id !in table || comments[j].id !in table)
      ensures nodes'[i] != nodes'[j]
    {
      assert nodes'[i] == nodes[i] && nodes[i] in nodes;
      if j < k { assert nodes'[j] == nodes[j]; }
    }
  }

  /** After the first |nodes| comments have been placed. */
  ghost predicate Placed(comments: seq<Comment>, table: map<string, Node>, nodes: seq<Node>, threads: seq<Node>)
    reads table.Values, nodes
  {
    && Identified(comments, table, nodes)
    && threads == NodesAt(comments, nodes, Top, |nodes|)
    && (forall id | id in table :: table[id].replies == NodesAt(comments, nodes, Under(id), |nodes|))
    && (forall id | id in table :: table[id].orphaned <==> Marked(comments, id, |nodes|))
    && (forall i | 0 <= i < |nodes| && comments[i].id !in table :: Loose(comments, comments[i], nodes[i]))
  }

  /** A node without an id: nothing can answer it. */
  ghost predicate Loose(comments: seq<Comment>, c: Comment, node: Node)
    reads node
  {
    node.comment == c && node.replies == [] && (node.orphaned <==> Orphan(comments, c))
  }

  lemma {:induction false} NodesAtPrefix(comments: seq<Comment>, nodes: seq<Node>, node: Node, place: Place, n: nat)
    requires n <= |comments| && n <= |nodes|
    ensures NodesAt(comments, nodes + [node], place, n) == NodesAt(comments, nodes, place, n)
  {
    if n > 0 { NodesAtPrefix(comments, nodes, node, place, n - 1); }
  }

  lemma NodesAtSnoc(comments: seq<Comment>, nodes: seq<Node>, node: Node, place: Place)
    requires |nodes| < |comments|
    ensures var k := |nodes|;
            NodesAt(comments, nodes + [node], place, k + 1) ==
            NodesAt(comments, nodes, place, k) + if PlaceOf(comments, comments[k]) == place then [node] else []
  {
    NodesAtPrefix(comments, nodes, node, place, |nodes|);
  }

  /** A comment goes to the top unless its parent is listed, and below its parent if so. */
  lemma OnePlace(comments: seq<Comment>, nodes: seq<Node>, node: Node, id: string)
    requires |nodes| < |comments| && id in Ids(comments)
    ensures var k, parent := |nodes|, comments[|nodes|].parent;
            && NodesAt(comments, nodes + [node], Under(id), k + 1) ==
               NodesAt(comments, nodes, Under(id), k) + (if parent == id then [node] else [])
            && NodesAt(comments, nodes + [node], Top, k + 1) ==
               NodesAt(comments, nodes, Top, k) + (if parent in Ids(comments) then [] else [node])
            && (Orphan(comments, comments[k]) <==> parent != "" && parent !in Ids(comments))
  {
    NodesAtSnoc(comments, nodes, node, Under(id));
    NodesAtSnoc(comments, nodes, node, Top);
  }

  /** The body of the second loop: the node of one comment, and where it goes. */
  method PlaceOne(c: Comment, table: map<string, Node>, threads: seq<Node>) returns (node: Node, threads': seq<Node>)
    requires forall id, id' | id in table && id' in table && id != id' :: table[id] != table[id']
    requires "" !in table
    modifies table.Values
    ensures if c.id in table then node == table[c.id]
            else fresh(node) && node.comment == c && node.replies == []
                 && (node.orphaned <==> c.parent != "" && c.parent !in table)
    ensures threads' == threads + if c.parent in table then [] else [node]
    ensures forall id | id in table ::
              table[id].replies == old(table[id].replies) + if c.parent == id then [node] else []
    ensures forall id | id in table ::
              table[id].orphaned == (old(table[id].orphaned) || (c.id == id && c.parent != "" && c.parent !in table))
  {
    if c.id in table { node := table[c.id]; } else { node := new Node(c); }
    threads' := threads;
    if c.parent == "" || c.parent !in table {
      if c.parent != "" { node.orphaned := true; }
      threads' := threads + [node];
    } else {
      var parent := table[c.parent];
      parent.replies := parent.replies + [node];
    }
  }

  method PlaceNext(
    ghost comments: seq<Comment>, c: Comment, table: map<string, Node>, ghost nodes: seq<Node>, threads: seq<Node>)
    returns (node: Node, threads': seq<Node>)
    requires Table(comments, |comments|, table) && Placed(comments, table, nodes, threads)
    requires |nodes| < |comments| && c == comments[|nodes|]
    modifies table.Values
    ensures Placed(comments, table, nodes + [node], threads')
    ensures node in table.Values || fresh(node)
  {
    assert comments[..|comments|] == comments;
    ghost var k := |nodes|;
    node, threads' := PlaceOne(c, table, threads);
    ghost var nodes' := nodes + [node];
    NodesAtSnoc(comments, nodes, node, Top);
    forall id | id in table ensures table[id].replies == NodesAt(comments, nodes', Under(id), k + 1) {
      OnePlace(comments, nodes, node, id);
    }
    IdentifiedSnoc(comments, table, nodes, node);
    forall i | 0 <= i <= k && comments[i].id !in table ensures Loose(comments, comments[i], nodes'[i]) {
      if i < k { assert nodes'[i] == nodes[i] && nodes[i] !in table.Values; }
    }
  }

  method ThreadDocComments(comments: seq<Comment>) returns (threads: seq<Node>, ghost nodes: seq<Node>)
    ensures Forest(comments, nodes, threads)
    ensures forall node | node in nodes :: fresh(node)
  {
    var table := BuildTable(comments);
    threads, nodes := [], [];
    for k := 0 to |comments|
      invariant |nodes| == k && Placed(comments, table, nodes, threads)
      invariant forall id | id in table :: fresh(table[id])
      invariant forall node | node in nodes :: fresh(node)
    {
      var node;
      node, threads := PlaceNext(comments, comments[k], table, nodes, threads);
      nodes := nodes + [node];
    }
    AllPlaced(comments, table, nodes, threads);
  }

  lemma AllPlaced(comments: seq<Comment>, table: map<string, Node>, nodes: seq<Node>, threads: seq<Node>)
    requires Table(comments, |comments|, table) && Placed(comments, table, nodes, threads) && |nodes| == |comments|
    ensures Forest(comments, nodes, threads)
  {
    var k := |comments|;
    assert comments[..k] == comments;
    forall i | 0 <= i < k
      ensures nodes[i].replies == NodesAt(comments, nodes, Under(comments[i].id), k)
      ensures nodes[i].orphaned <==> ShowsOrphan(comments, i)
    {
      var id := comments[i].id;
      if id in table { MarkedExact(comments, id, k); } else { NothingUnderUnlisted(comments, nodes, id, k); }
    }
  }
}
