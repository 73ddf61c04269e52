/**
 The active-only selection of a task page (internal/mcp/my_tasks_snapshot.go:257-389):
 every in_progress and review card, the five best todo cards, and a count of
 what was left out per category.
 */
module ActiveTasks {
  import opened Wrappers
  import opened Json
  import MapSum
  import StableSort

  const COLD_TODO_CAP: nat := 5

  /** What a project's status listing answers: status id -> category, or an error text. */
  type Listing = Result<map<string, string>, string>

  /** Every project's listing. */
  type StatusTable = string -> Listing

  // ---------------------------------------------------------------- categories

  function CategoryOf(task: Value, table: StatusTable): Result<string, string> {
    if !task.Obj? then Err("task item is not an object")
    else
      var project, status := Text(task.fields, "project_id"), Text(task.fields, "status_id");
      if project == "" || status == "" then
        Err("task " + Text(task.fields, "id") + " has no project_id/status_id to resolve its category")
      else
        match table(project)
        case Err(e) => Err(e)
        case Ok(categories) =>
          if status !in categories || categories[status] == "" then
            Err("status " + status + " of project " + project + " has no category")
          else Ok(categories[status])
  }

  /** The category of every task, or the error of the first task without one. */
  function Categories(tasks: seq<Value>, table: StatusTable): (r: Result<seq<string>, string>)
    ensures r.Ok? ==> |r.value| == |tasks|
  {
    if tasks == [] then Ok([])
    else
      match Categories(tasks[..|tasks| - 1], table)
      case Err(e) => Err(e)
      case Ok(cs) =>
        match CategoryOf(tasks[|tasks| - 1], table)
        case Err(e) => Err(e)
        case Ok(c) => Ok(cs + [c])
  }

  /** An error in a prefix is the error of the whole page. */
  lemma {:induction false} FirstErrorWins(tasks: seq<Value>, n: nat, table: StatusTable)
    requires n <= |tasks| && Categories(tasks[..n], table).Err?
    ensures Categories(tasks, table) == Categories(tasks[..n], table)
  {
    if n == |tasks| {
      assert tasks[..n] == tasks;
    } else {
      var init := tasks[..|tasks| - 1];
      assert init[..n] == tasks[..n];
      FirstErrorWins(init, n, table);
    }
  }

  // ---------------------------------------------------------------- selection

  function PriorityRank(priority: string): nat {
    match priority
    case "urgent" => 0
    case "high" => 1
    case "medium" => 2
    case "low" => 3
    case _ => 4
  }

  function Rank(tasks: seq<Value>, i: nat): nat {
    if i < |tasks| && tasks[i].Obj? then PriorityRank(Text(tasks[i].fields, "priority")) else 4
  }

  /** Todo card j outranks card i: a better priority, or the same one earlier on the page. */
  predicate Outranks(tasks: seq<Value>, cats: seq<string>, j: nat, i: nat) {
    && j < |cats| && cats[j] == "todo"
    && (Rank(tasks, j) < Rank(tasks, i) || (Rank(tasks, j) == Rank(tasks, i) && j < i))
  }

  function Better(tasks: seq<Value>, cats: seq<string>, i: nat): set<nat> {
    set j | 0 <= j < |cats| && Outranks(tasks, cats, j, i)
  }

  predicate Active(category: string) {
    category == "in_progress" || category == "review"
  }

  predicate Kept(tasks: seq<Value>, cats: seq<string>, i: nat)
    requires i < |cats|
  {
    || Active(cats[i])
    || (cats[i] == "todo" && |Better(tasks, cats, i)| < COLD_TODO_CAP)
  }

  /** The kept indices below n, in page order. */
  function KeptIndices(tasks: seq<Value>, cats: seq<string>, n: nat): (ks: seq<nat>)
    requires n <= |cats| && n <= |tasks|
    ensures forall k | 0 <= k < |ks| :: ks[k] < n
  {
    if n == 0 then []
    else KeptIndices(tasks, cats, n - 1) + (if Kept(tasks, cats, n - 1) then [n - 1] else [])
  }

  function Pick(tasks: seq<Value>, ks: seq<nat>): seq<Value>
    requires forall k | 0 <= k < |ks| :: ks[k] < |tasks|
  {
    seq(|ks|, k requires 0 <= k < |ks| => tasks[ks[k]])
  }

  function Count(m: map<string, nat>, c: string): nat {
    if c in m then m[c] else 0
  }

  /** How many cards below n were left out, per category. */
  function Omitted(tasks: seq<Value>, cats: seq<string>, n: nat): map<string, nat>
    requires n <= |cats| && n <= |tasks|
  {
    if n == 0 then map[]
    else
      var m := Omitted(tasks, cats, n - 1);
      if Kept(tasks, cats, n - 1) then m else m[cats[n - 1] := Count(m, cats[n - 1]) + 1]
  }

  type Selection = (seq<Value>, map<string, nat>)

  function ActiveOnly(tasks: seq<Value>, table: StatusTable): Result<Selection, string> {
    match Categories(tasks, table)
    case Err(e) => Err(e)
    case Ok(cats) =>
      Ok((Pick(tasks, KeptIndices(tasks, cats, |tasks|)), Omitted(tasks, cats, |tasks|)))
  }

  // ---------------------------------------------------------------- properties of the selection

  ghost function TodoSet(cats: seq<string>): set<nat> {
    set i | 0 <= i < |cats| && cats[i] == "todo"
  }

  ghost function KeptTodo(tasks: seq<Value>, cats: seq<string>): set<nat> {
    set i | 0 <= i < |cats| && cats[i] == "todo" && Kept(tasks, cats, i)
  }

  function TodoIndices(cats: seq<string>, n: nat): (xs: seq<nat>)
    requires n <= |cats|
    ensures StableSort.Increasing(xs)
    ensures forall i: nat :: i in xs <==> i < n && cats[i] == "todo"
  {
    if n == 0 then []
    else
      var xs := TodoIndices(cats, n - 1);
      assert forall k | 0 <= k < |xs| :: xs[k] in xs;
      if cats[n - 1] == "todo" then xs + [n - 1] else xs
  }

  function ByRank(tasks: seq<Value>): (nat, nat) -> bool {
    (i: nat, j: nat) => Rank(tasks, i) < Rank(tasks, j)
  }

  lemma SortedTodo(tasks: seq<Value>, cats: seq<string>) returns (xs: seq<nat>)
    ensures StableSort.WeakOrder(ByRank(tasks))
    ensures xs == StableSort.Sort(ByRank(tasks), TodoIndices(cats, |cats|))
    ensures StableSort.Sorted(ByRank(tasks), xs)
    ensures StableSort.Elems(xs) == TodoSet(cats)
    ensures forall i | i in xs :: Better(tasks, cats, i) == StableSort.Ahead(ByRank(tasks), xs, i)
  {
    var before, todo := ByRank(tasks), TodoIndices(cats, |cats|);
    StableSort.SortIndices(before, todo);
    StableSort.SortPermutes(before, todo);
    xs := StableSort.Sort(before, todo);
    assert StableSort.Elems(todo) == TodoSet(cats);
    assert StableSort.Elems(xs) == TodoSet(cats);
    forall i | i in xs ensures Better(tasks, cats, i) == StableSort.Ahead(before, xs, i) {
      assert i in StableSort.Elems(xs);
      BetterIsAhead(tasks, cats, xs, i);
    }
  }

  lemma BetterIsAhead(tasks: seq<Value>, cats: seq<string>, xs: seq<nat>, i: nat)
    requires StableSort.Elems(xs) == TodoSet(cats) && i in TodoSet(cats)
    ensures Better(tasks, cats, i) == StableSort.Ahead(ByRank(tasks), xs, i)
  {
    assert forall j: nat :: j in xs <==> j in StableSort.Elems(xs);
  }

  /** A todo card is kept exactly when it is among the first five of the stable priority sort. */
  lemma {:induction false} KeptIsTopFive(tasks: seq<Value>, cats: seq<string>, xs: seq<nat>, a: nat)
    requires xs == StableSort.Sort(ByRank(tasks), TodoIndices(cats, |cats|))
    requires a < |xs|
    ensures xs[a] < |cats| && cats[xs[a]] == "todo"
    ensures Kept(tasks, cats, xs[a]) <==> a < COLD_TODO_CAP
  {
    var ys := SortedTodo(tasks, cats);
    assert xs[a] in StableSort.Elems(xs);
    StableSort.PositionCounts(ByRank(tasks), xs, a);
  }

  /** Exactly Min(5, number of todo cards) todo cards are kept. */
  lemma KeptTodoCount(tasks: seq<Value>, cats: seq<string>)
    ensures |KeptTodo(tasks, cats)| == Min(|TodoSet(cats)|, COLD_TODO_CAP)
  {
    var xs := SortedTodo(tasks, cats);
    var n := Min(|xs|, COLD_TODO_CAP);
    forall i ensures i in KeptTodo(tasks, cats) <==> i in StableSort.Elems(xs[..n]) {
      if i in StableSort.Elems(xs) {
        var a :| 0 <= a < |xs| && xs[a] == i;
        KeptIsTopFive(tasks, cats, xs, a);
        if a < n { assert xs[..n][a] == i; }
        if i in xs[..n] {
          var b :| 0 <= b < n && xs[..n][b] == i;
          KeptIsTopFive(tasks, cats, xs, b);
        }
      }
    }
    assert KeptTodo(tasks, cats) == StableSort.Elems(xs[..n]);
    StableSort.DistinctPrefix(ByRank(tasks), xs, n);
    StableSort.DistinctPrefix(ByRank(tasks), xs, |xs|);
    assert xs[..|xs|] == xs;
  }

  /** No omitted todo card beats a kept one on (priority rank, position). */
  lemma OmittedNeverBeatsKept(tasks: seq<Value>, cats: seq<string>, i: nat, j: nat)
    requires i < |cats| && j < |cats| && cats[i] == "todo" && cats[j] == "todo"
    requires Kept(tasks, cats, i) && !Kept(tasks, cats, j)
    ensures !Outranks(tasks, cats, j, i)
  {
    if Outranks(tasks, cats, j, i) {
      assert Better(tasks, cats, j) <= Better(tasks, cats, i);
      SubsetSize(Better(tasks, cats, j), Better(tasks, cats, i));
    }
  }

  /** The kept list is the in-order subsequence of the kept cards, none missing. */
  lemma {:induction false} KeptIndicesExact(tasks: seq<Value>, cats: seq<string>, n: nat)
    requires n <= |cats| && n <= |tasks|
    ensures StableSort.Increasing(KeptIndices(tasks, cats, n))
    ensures forall i: nat :: i in KeptIndices(tasks, cats, n) <==> i < n && Kept(tasks, cats, i)
  {
    if n > 0 { KeptIndicesExact(tasks, cats, n - 1); }
  }

  ghost function InCategory(cats: seq<string>, n: nat, c: string): set<nat>
    requires n <= |cats|
  {
    set i | 0 <= i < n && cats[i] == c
  }

  ghost function KeptIn(tasks: seq<Value>, cats: seq<string>, n: nat, c: string): set<nat>
    requires n <= |cats|
  {
    set i | 0 <= i < n && cats[i] == c && Kept(tasks, cats, i)
  }

  /** Per category, the kept cards and the omitted count add up to the input. */
  lemma {:induction false} CategoryConserved(tasks: seq<Value>, cats: seq<string>, n: nat, c: string)
    requires n <= |cats| && n <= |tasks|
    ensures |KeptIn(tasks, cats, n, c)| + Count(Omitted(tasks, cats, n), c) == |InCategory(cats, n, c)|
  {
    if n > 0 {
      CategoryConserved(tasks, cats, n - 1, c);
      CategorySnoc(cats, n - 1, c);
      KeptInSnoc(tasks, cats, n - 1, c);
    }
  }

  lemma CategorySnoc(cats: seq<string>, n: nat, c: string)
    requires n < |cats|
    ensures |InCategory(cats, n + 1, c)| == |InCategory(cats, n, c)| + if cats[n] == c then 1 else 0
  {
    assert n !in InCategory(cats, n, c);
    assert InCategory(cats, n + 1, c) == InCategory(cats, n, c) + if cats[n] == c then {n} else {};
  }

  lemma KeptInSnoc(tasks: seq<Value>, cats: seq<string>, n: nat, c: string)
    requires n < |cats|
    ensures |KeptIn(tasks, cats, n + 1, c)|
            == |KeptIn(tasks, cats, n, c)| + if cats[n] == c && Kept(tasks, cats, n) then 1 else 0
  {
    assert n !in KeptIn(tasks, cats, n, c);
    assert KeptIn(tasks, cats, n + 1, c)
           == KeptIn(tasks, cats, n, c) + if cats[n] == c && Kept(tasks, cats, n) then {n} else {};
  }

  /** Over the whole page, the kept cards and all omitted counts add up to the input. */
  lemma {:induction false} PageConserved(tasks: seq<Value>, cats: seq<string>, n: nat)
    requires n <= |cats| && n <= |tasks|
    ensures |KeptIndices(tasks, cats, n)| + MapSum.Sum(Omitted(tasks, cats, n)) == n
  {
    if n > 0 {
      PageConserved(tasks, cats, n - 1);
      var m, c := Omitted(tasks, cats, n - 1), cats[n - 1];
      if !Kept(tasks, cats, n - 1) {
        MapSum.SumPut(m, c, Count(m, c) + 1);
        if c in m { MapSum.SumSplit(m, c); } else { assert m - {c} == m; }
      }
    }
  }

  // ---------------------------------------------------------------- the lookups of one request

  ghost predicate Answers(table: StatusTable, cats: map<string, map<string, string>>, failed: map<string, string>) {
    && (forall p | p in cats :: table(p) == Ok(cats[p]))
    && (forall p | p in failed :: table(p) == Err(failed[p]))
  }

  /** A table that answers one more listing answers the earlier ones too. */
  lemma AnswersMore(
    table: StatusTable, cats: map<string, map<string, string>>, failed: map<string, string>,
    project: string, r: Listing)
    requires project !in cats && project !in failed
    requires if r.Ok? then Answers(table, cats[project := r.value], failed)
             else Answers(table, cats, failed[project := r.error])
    ensures Answers(table, cats, failed) && table(project) == r
  {
    forall p | p in cats ensures table(p) == Ok(cats[p]) {
      assert r.Ok? ==> cats[project := r.value][p] == cats[p];
    }
    forall p | p in failed ensures table(p) == Err(failed[p]) {
      assert r.Err? ==> failed[project := r.error][p] == failed[p];
    }
  }

  /**
   One request's memo of status listings. `fetch(n)` is the outcome of the n-th
   listing call this request makes (its own 403 fallback included); nothing is
   assumed about outcomes agreeing with one another.
   */
  class StatusMemo {
    const fetch: nat -> Listing
    var fetches: nat
    var cats: map<string, map<string, string>>
    var failed: map<string, string>

    constructor (fetch: nat -> Listing)
      ensures Valid() && cats == map[] && failed == map[] && fetches == 0
    {
      this.fetch := fetch;
      fetches, cats, failed := 0, map[], map[];
    }

    /** Each project is either memoised once or failed once, at the cost of one call. */
    ghost predicate Valid()
      reads this
    {
      cats.Keys !! failed.Keys && fetches == |cats| + |failed|
    }

    /** A table that answers what this request has seen. */
    ghost predicate Agrees(table: StatusTable)
      reads this
    {
      Answers(table, cats, failed)
    }

    /** One table that agrees; projects not looked up answer as if they had failed. */
    ghost function Table(): StatusTable
      reads this
    {
      var done, bad := cats, failed;
      (p: string) => if p in done then Ok(done[p]) else if p in bad then Err(bad[p]) else Err("")
    }

    lemma TableAgrees()
      requires Valid()
      ensures Agrees(Table())
    {
    }

    method Lookup(project: string) returns (r: Listing)
      requires Valid()
      modifies this
      ensures Valid() && fetches <= old(fetches) + 1
      ensures forall table | Agrees(table) :: old(Agrees(table)) && r == table(project)
    {
      if project in failed { return Err(failed[project]); }
      if project in cats { return Ok(cats[project]); }
      r := fetch(fetches);
      fetches := fetches + 1;
      match r
      case Err(e) =>
        var text := "status lookup for project " + project + ": " + e;
        AddKey(failed, project, text);
        forall table | Answers(table, cats, failed[project := text])
          ensures Answers(table, cats, failed) && table(project) == Err(text)
        {
          AnswersMore(table, cats, failed, project, Err(text));
        }
        failed := failed[project := text];
        r := Err(text);
      case Ok(categories) =>
        AddKey(cats, project, categories);
        forall table | Answers(table, cats[project := categories], failed)
          ensures Answers(table, cats, failed) && table(project) == Ok(categories)
        {
          AnswersMore(table, cats, failed, project, Ok(categories));
        }
        cats := cats[project := categories];
    }
  }

  lemma AddKey<V>(m: map<string, V>, k: string, v: V)
    requires k !in m
    ensures |m[k := v]| == |m| + 1
  {
    assert m[k := v].Keys == m.Keys + {k};
  }

  /** activeOnlyMyTasks: whatever the lookups answer, every call of one request sees the same table. */
  method ActiveOnlyMyTasks(memo: StatusMemo, tasks: seq<Value>) returns (r: Result<Selection, string>)
    requires memo.Valid()
    modifies memo
    ensures memo.Valid()
    ensures forall table | memo.Agrees(table) :: old(memo.Agrees(table)) && r == ActiveOnly(tasks, table)
  {
    var catOf: seq<string> := [];
    var n := 0;
    while n < |tasks|
      invariant 0 <= n <= |tasks| && memo.Valid()
      invariant forall table | memo.Agrees(table) ::
          old(memo.Agrees(table)) && Categories(tasks[..n], table) == Ok(catOf)
      invariant |catOf| == n
    {
      assert tasks[..n + 1][..n] == tasks[..n];
      var c := Category(memo, tasks[n]);
      if c.Err? {
        forall table | memo.Agrees(table) ensures Categories(tasks, table) == Err(c.error) {
          FirstErrorWins(tasks, n + 1, table);
        }
        return Err(c.error);
      }
      catOf := catOf + [c.value];
      n := n + 1;
    }
    assert tasks[..n] == tasks;

    var out, omitted := Select(tasks, catOf);
    return Ok((out, omitted));
  }

  /** The category of one card through the memo. */
  method Category(memo: StatusMemo, task: Value) returns (r: Result<string, string>)
    requires memo.Valid()
    modifies memo
    ensures memo.Valid()
    ensures forall table | memo.Agrees(table) :: old(memo.Agrees(table)) && r == CategoryOf(task, table)
  {
    if !task.Obj? { return Err("task item is not an object"); }
    var project, status := Text(task.fields, "project_id"), Text(task.fields, "status_id");
    if project == "" || status == "" {
      return Err("task " + Text(task.fields, "id") + " has no project_id/status_id to resolve its category");
    }
    var listing := memo.Lookup(project);
    match listing
    case Err(e) => return Err(e);
    case Ok(categories) =>
      if status !in categories || categories[status] == "" {
        return Err("status " + status + " of project " + project + " has no category");
      }
      return Ok(categories[status]);
  }

  /** The marking and collecting loops of activeOnlyMyTasks. */
  method Select(tasks: seq<Value>, catOf: seq<string>) returns (out: seq<Value>, omitted: map<string, nat>)
    requires |catOf| == |tasks|
    ensures out == Pick(tasks, KeptIndices(tasks, catOf, |tasks|))
    ensures omitted == Omitted(tasks, catOf, |tasks|)
  {
    var keep := Mark(tasks, catOf);
    out, omitted := [], map[];
    for i := 0 to |tasks|
      invariant out == Pick(tasks, KeptIndices(tasks, catOf, i))
      invariant omitted == Omitted(tasks, catOf, i)
    {
      if keep[i] {
        out := out + [tasks[i]];
      } else {
        omitted := omitted[catOf[i] := Count(omitted, catOf[i]) + 1];
      }
    }
  }

  /** Sorts the todo cards by priority and marks the cards to keep. */
  method Mark(tasks: seq<Value>, catOf: seq<string>) returns (keep: array<bool>)
    requires |catOf| == |tasks|
    ensures keep.Length == |tasks|
    ensures forall i: nat | i < |tasks| :: keep[i] == Kept(tasks, catOf, i)
  {
    keep := new bool[|tasks|](_ => false);
    var todo: seq<nat> := [];
    for i := 0 to |tasks|
      invariant todo == TodoIndices(catOf, i)
      invariant forall k: nat | k < |tasks| :: keep[k] == (k < i && Active(catOf[k]))
    {
      if Active(catOf[i]) {
        keep[i] := true;
      } else if catOf[i] == "todo" {
        todo := todo + [i];
      }
    }
    todo := SortTodo(tasks, catOf, todo);
    MarkTop(keep, todo);
  }

  /** Marks the first five todo cards. */
  method MarkTop(keep: array<bool>, todo: seq<nat>)
    requires forall a | 0 <= a < |todo| :: todo[a] < keep.Length
    modifies keep
    ensures forall k: nat | k < keep.Length :: keep[k] == (old(keep[k]) || k in todo[..Min(|todo|, COLD_TODO_CAP)])
  {
    var n := 0;
    while n < |todo|
      invariant 0 <= n <= |todo|
      invariant forall k: nat | k < keep.Length :: keep[k] == (old(keep[k]) || k in todo[..Min(n, COLD_TODO_CAP)])
    {
      if n < COLD_TODO_CAP {
        keep[todo[n]] := true;
        assert todo[..n + 1] == todo[..n] + [todo[n]];
      }
      n := n + 1;
    }
  }

  /** sort.SliceStable by priority rank: the first five are exactly the todo cards to keep. */
  method SortTodo(tasks: seq<Value>, cats: seq<string>, todo: seq<nat>) returns (xs: seq<nat>)
    requires |cats| == |tasks| && todo == TodoIndices(cats, |cats|)
    ensures forall a | 0 <= a < |xs| :: xs[a] < |cats|
    ensures forall k: nat | k < |cats| ::
        k in xs[..Min(|xs|, COLD_TODO_CAP)] <==> cats[k] == "todo" && Kept(tasks, cats, k)
  {
    xs := StableSort.Sort(ByRank(tasks), todo);
    ghost var n := Min(|xs|, COLD_TODO_CAP);
    forall a: nat | a < |xs|
      ensures xs[a] < |cats| && cats[xs[a]] == "todo" && (Kept(tasks, cats, xs[a]) <==> a < n)
    {
      KeptIsTopFive(tasks, cats, xs, a);
    }
    ghost var ys := SortedTodo(tasks, cats);
    forall k: nat | k < |cats| && cats[k] == "todo" && Kept(tasks, cats, k) ensures k in xs[..n] {
      assert k in TodoSet(cats);
      assert k in StableSort.Elems(xs);
      var a :| 0 <= a < |xs| && xs[a] == k;
      assert xs[..n][a] == k;
    }
  }
}
