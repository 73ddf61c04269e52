/**
 Reordering recall candidates: structural boosts first, then importance inside
 score bands (internal/mcp/tools.go:3145-3346). Scores are exact reals.
 */
module RecallRerank {
  import opened Wrappers
  import opened StableSort

  const BAND_EPS: real := 0.001
  const KEY_TOKEN_MIN_SHARED: nat := 3

  /** A recall item: an object with the fields read here ("" for a missing text), or anything else. */
  datatype Item =
    | Row(key: string, projectId: string, scope: string, score: Option<real>, importance: Option<real>, rest: string)
    | Opaque(rest: string)

  /** The caller's query, already lower-cased, and the lower-casing function. */
  datatype Query = Query(text: string, projectId: string, scope: string, lower: string -> string)

  // ---------------------------------------------------------------- boosts

  predicate OccursAt(s: string, part: string, i: nat) {
    i + |part| <= |s| && s[i..i + |part|] == part
  }

  predicate Contains(s: string, part: string) {
    exists i: nat :: i <= |s| && OccursAt(s, part, i)
  }

  predicate Separator(c: char) {
    c == '-' || c == '_'
  }

  /** strings.FieldsFunc on hyphens and underscores; `word` is the token being read. */
  function Tokens(s: string, word: string): seq<string> {
    if s == [] then (if word == "" then [] else [word])
    else if Separator(s[0]) then (if word == "" then [] else [word]) + Tokens(s[1..], "")
    else Tokens(s[1..], word + [s[0]])
  }

  /** The length of a string in bytes, as Go counts it. */
  function Utf8Size(s: string): nat {
    if s == [] then 0
    else
      var code := s[0] as int;
      (if code < 0x80 then 1 else if code < 0x800 then 2 else if code < 0x1_0000 then 3 else 4) + Utf8Size(s[1..])
  }

  /** The distinct tokens of the key, four bytes or more, that the query contains. */
  function Shared(tokens: seq<string>, query: string): set<string> {
    set t | t in tokens && Utf8Size(t) >= 4 && Contains(query, t)
  }

  lemma SharedSnoc(tokens: seq<string>, n: nat, query: string)
    requires n < |tokens|
    ensures Shared(tokens[..n + 1], query) ==
      Shared(tokens[..n], query) + (if Utf8Size(tokens[n]) >= 4 && Contains(query, tokens[n]) then {tokens[n]} else {})
  {
    var shorter := tokens[..n];
    assert tokens[..n + 1] == shorter + [tokens[n]];
  }

  function KeyBoost(key: string, query: string): nat {
    if key == query then 3
    else if Contains(query, key) || Contains(key, query) then 2
    else if |Shared(Tokens(key, ""), query)| >= KEY_TOKEN_MIN_SHARED then 1
    else 0
  }

  /** keyMatchBoost. */
  method KeyMatchBoost(key: string, query: string) returns (boost: nat)
    ensures boost == KeyBoost(key, query)
  {
    if key == query { return 3; }
    if Contains(query, key) || Contains(key, query) { return 2; }
    var tokens := Tokens(key, "");
    var shared, seen := 0, {};
    for n := 0 to |tokens|
      invariant seen == Shared(tokens[..n], query) && shared == |seen|
    {
      var t := tokens[n];
      SharedSnoc(tokens, n, query);
      if Utf8Size(t) >= 4 && t !in seen && Contains(query, t) {
        seen := seen + {t};
        shared := shared + 1;
      }
    }
    assert tokens[..|tokens|] == tokens;
    return if shared >= KEY_TOKEN_MIN_SHARED then 1 else 0;
  }

  function Boost(q: Query, it: Item): nat {
    if it.Opaque? then 0
    else
      (if it.key != "" then KeyBoost(q.lower(it.key), q.text) else 0)
      + (if q.projectId != "" && it.projectId == q.projectId then 1 else 0)
      + (if q.scope != "" && it.scope == q.scope then 1 else 0)
  }

  // ---------------------------------------------------------------- boosts, in plain terms

  /** `part` with something before and after it gives s. */
  ghost predicate Within(s: string, part: string) {
    exists pre: string, post: string :: s == pre + part + post
  }

  lemma ContainsMeans(s: string, part: string)
    ensures Contains(s, part) <==> Within(s, part)
  {
    if Contains(s, part) {
      var i: nat :| i <= |s| && OccursAt(s, part, i);
      assert s == s[..i] + part + s[i + |part|..];
    }
    if Within(s, part) {
      var pre, post :| s == pre + part + post;
      assert OccursAt(s, part, |pre|);
    }
  }

  /** t is a whole stretch of s between hyphens, underscores and the ends, at this place. */
  predicate TokenBetween(s: string, pre: string, t: string, post: string) {
    && s == pre + t + post
    && t != "" && '-' !in t && '_' !in t
    && (pre == "" || pre[|pre| - 1] == '-' || pre[|pre| - 1] == '_')
    && (post == "" || post[0] == '-' || post[0] == '_')
  }

  ghost predicate IsToken(s: string, t: string) {
    exists pre, post :: TokenBetween(s, pre, t, post)
  }

  /** Cut at its first separator, a text has the word before it and the tokens after it. */
  lemma TokenSplit(word: string, sep: char, s: string, t: string)
    requires '-' !in word && '_' !in word && (sep == '-' || sep == '_')
    ensures IsToken(word + [sep] + s, t) <==> (t == word && t != "") || IsToken(s, t)
  {
    var all := word + [sep] + s;
    if IsToken(all, t) {
      var pre, post :| TokenBetween(all, pre, t, post);
      TokenCut(word, sep, s, pre, t, post);
    }
    if t == word && t != "" { assert TokenBetween(all, "", t, [sep] + s); }
    if IsToken(s, t) {
      var pre, post :| TokenBetween(s, pre, t, post);
      assert all == (word + [sep] + pre) + t + post;
      assert TokenBetween(all, word + [sep] + pre, t, post);
    }
  }

  /** A word without separators is its own only token. */
  lemma WholeWord(word: string, pre: string, t: string, post: string)
    requires '-' !in word && '_' !in word && TokenBetween(word, pre, t, post)
    ensures t == word
  {
    assert forall c | c in pre :: c in word;
    assert forall c | c in post :: c in word;
  }

  lemma TokenCut(word: string, sep: char, s: string, pre: string, t: string, post: string)
    requires '-' !in word && '_' !in word && (sep == '-' || sep == '_')
    requires TokenBetween(word + [sep] + s, pre, t, post)
    ensures (t == word && t != "") || IsToken(s, t)
  {
    var all, n := word + [sep] + s, |word|;
    TokenStops(all, pre, t, post, n);
    if |pre| <= n {
      assert all[..n] == word;
      assert word == pre + t + post[..n - |pre| - |t|];
      WholeWord(word, pre, t, post[..n - |pre| - |t|]);
    } else {
      var rest := pre[n + 1..];
      assert s == all[n + 1..] == rest + t + post;
      assert TokenBetween(s, rest, t, post);
    }
  }

  /** No separator is inside a token. */
  lemma TokenStops(all: string, pre: string, t: string, post: string, n: nat)
    requires TokenBetween(all, pre, t, post) && n < |all| && Separator(all[n])
    ensures n < |pre| || |pre| + |t| <= n
  {
    forall k | |pre| <= k < |pre| + |t| ensures all[k] in t { assert all[k] == t[k - |pre|]; }
  }

  /** The tokens are exactly those stretches. */
  lemma {:induction false} TokensMean(s: string, word: string, t: string)
    requires '-' !in word && '_' !in word
    ensures t in Tokens(s, word) <==> IsToken(word + s, t)
  {
    if s == [] {
      assert word + s == word;
      if word != "" { assert TokenBetween(word, "", word, ""); }
      if IsToken(word, t) {
        var pre, post :| TokenBetween(word, pre, t, post);
        WholeWord(word, pre, t, post);
      }
    } else if Separator(s[0]) {
      assert word + s == word + [s[0]] + s[1..];
      assert "" + s[1..] == s[1..];
      TokenSplit(word, s[0], s[1..], t);
      TokensMean(s[1..], "", t);
    } else {
      assert word + s == word + [s[0]] + s[1..];
      TokensMean(s[1..], word + [s[0]], t);
    }
  }

  /** Bytes: one for each character, and one more for each at or beyond 0x80, 0x800 and 0x10000. */
  lemma {:induction false} SizeMeans(t: string)
    ensures Utf8Size(t) ==
      |t| + |Beyond(t, 0x80)| + |Beyond(t, 0x800)| + |Beyond(t, 0x1_0000)|
  {
    if t != [] { SizeMeans(t[1..]); }
  }

  function Beyond(t: string, code: nat): (found: string)
    ensures forall c :: c in found <==> c in t && c as int >= code
  {
    if t == [] then []
    else if t[0] as int >= code then [t[0]] + Beyond(t[1..], code)
    else Beyond(t[1..], code)
  }

  /**
   3 for the query itself; 2 if one contains the other; 1 if at least three different tokens of
   the key, each of four bytes or more, are in the query; 0 otherwise.
   */
  lemma KeyBoostMeans(key: string, query: string, shared: set<string>)
    requires forall t :: t in shared <==> IsToken(key, t) && Utf8Size(t) >= 4 && Within(query, t)
    ensures KeyBoost(key, query) ==
      if key == query then 3
      else if Within(query, key) || Within(key, query) then 2
      else if |shared| >= 3 then 1
      else 0
  {
    ContainsMeans(query, key);
    ContainsMeans(key, query);
    forall t ensures t in shared <==> t in Shared(Tokens(key, ""), query) {
      assert "" + key == key;
      TokensMean(key, "", t);
      ContainsMeans(query, t);
    }
    assert shared == Shared(Tokens(key, ""), query);
  }

  /** Any other key gains less than the query itself, and less from tokens than from being part of the query. */
  lemma ExactFirst(query: string, key: string, other: string)
    requires key != query
    ensures KeyBoost(query, query) > KeyBoost(key, query)
    ensures (Within(query, other) || Within(other, query)) && !Within(query, key) && !Within(key, query) ==>
      KeyBoost(other, query) > KeyBoost(key, query)
  {
    ContainsMeans(query, key);
    ContainsMeans(key, query);
    ContainsMeans(query, other);
    ContainsMeans(other, query);
  }

  /** One more for the caller's project and one for the scope, a name left out matching nothing. */
  lemma BoostMeans(q: Query, key: string, project: string, scope: string,
                   score: Option<real>, importance: Option<real>, rest: string)
    ensures var row := Row(key, project, scope, score, importance, rest);
            Boost(q, row) == (if key == "" then 0 else KeyBoost(q.lower(key), q.text))
              + (if project == q.projectId && project != "" then 1 else 0)
              + (if scope == q.scope && scope != "" then 1 else 0)
    ensures Boost(q, Opaque(rest)) == 0
  {
  }

  // ---------------------------------------------------------------- the three comparisons

  function Score(it: Item): Option<real> {
    if it.Row? then it.score else None
  }

  /** A missing importance counts as 0. */
  function Importance(it: Item): real {
    if it.Row? && it.importance.Some? then it.importance.value else 0.0
  }

  function ByBoost(q: Query): (Item, Item) -> bool {
    (x: Item, y: Item) => Boost(q, x) > Boost(q, y)
  }

  /** Higher scores first, unscored items last. */
  function ByScore(): (Item, Item) -> bool {
    (x: Item, y: Item) => Score(x).Some? && (Score(y).None? || Score(x).value > Score(y).value)
  }

  function ByImportance(): (Item, Item) -> bool {
    (x: Item, y: Item) => Importance(x) > Importance(y)
  }

  // ---------------------------------------------------------------- bands

  /** The item scores within the band epsilon of the band's head. */
  predicate Joins(head: Item, it: Item) {
    Score(head).Some? && Score(it).Some? && Score(head).value - Score(it).value <= BAND_EPS
  }

  /** Where the band headed by xs[0] ends, given that it reaches at least i. */
  function BandEnd(xs: seq<Item>, i: nat): (e: nat)
    requires 1 <= i <= |xs|
    ensures i <= e <= |xs|
    ensures forall k | i <= k < e :: Joins(xs[0], xs[k])
    ensures e < |xs| ==> !Joins(xs[0], xs[e])
    decreases |xs| - i
  {
    if i == |xs| || !Joins(xs[0], xs[i]) then i else BandEnd(xs, i + 1)
  }

  /** Every band sorted by importance. */
  function Bands(xs: seq<Item>): seq<Item> {
    if xs == [] then []
    else
      var e := BandEnd(xs, 1);
      Sort(ByImportance(), xs[..e]) + Bands(xs[e..])
  }

  function Banded(tail: seq<Item>): seq<Item> {
    Bands(Sort(ByScore(), tail))
  }

  /** The first unboosted position. */
  function TailStart(q: Query, xs: seq<Item>, i: nat): (t: nat)
    requires i <= |xs|
    ensures i <= t <= |xs|
    ensures forall k | i <= k < t :: Boost(q, xs[k]) != 0
    ensures t < |xs| ==> Boost(q, xs[t]) == 0
    decreases |xs| - i
  {
    if i == |xs| || Boost(q, xs[i]) == 0 then i else TailStart(q, xs, i + 1)
  }

  /** The boosted items, and the tail that stays in server order. */
  function Boosted(q: Query, items: seq<Item>): seq<Item> {
    var sorted := Sort(ByBoost(q), items);
    sorted[..TailStart(q, sorted, 0)]
  }

  function Tail(q: Query, items: seq<Item>): seq<Item> {
    var sorted := Sort(ByBoost(q), items);
    sorted[TailStart(q, sorted, 0)..]
  }

  function Rerank(q: Query, items: seq<Item>): seq<Item> {
    Boosted(q, items) + Banded(Tail(q, items))
  }

  // ---------------------------------------------------------------- safety of the bands

  lemma OrdersAreWeak(q: Query)
    ensures WeakOrder(ByBoost(q)) && WeakOrder(ByScore()) && WeakOrder(ByImportance())
  {
  }

  /**
   x may precede y in the tail: unscored items come last, a lower score goes
   first only within the epsilon and only on strictly higher importance.
   */
  predicate MayPrecede(x: Item, y: Item) {
    match (Score(x), Score(y))
    case (None, s) => s.None?
    case (Some(_), None) => true
    case (Some(sx), Some(sy)) =>
      sy - sx <= BAND_EPS && (sx < sy ==> Importance(x) > Importance(y))
  }

  ghost predicate Safe(xs: seq<Item>) {
    forall a, b | 0 <= a < b < |xs| :: MayPrecede(xs[a], xs[b])
  }

  lemma BandsPermute(xs: seq<Item>)
    ensures multiset(Bands(xs)) == multiset(xs)
    ensures forall x :: x in Bands(xs) <==> x in xs
  {
    BandsHoldAll(xs);
    SameMembers(Bands(xs), xs);
  }

  lemma {:induction false} BandsHoldAll(xs: seq<Item>)
    ensures multiset(Bands(xs)) == multiset(xs)
    decreases |xs|
  {
    if xs != [] {
      var e := BandEnd(xs, 1);
      BandsHoldAll(xs[e..]);
      SortedBandFirst(xs, e, Sort(ByImportance(), xs[..e]), Bands(xs[e..]));
    }
  }

  lemma SortedBandFirst(xs: seq<Item>, e: nat, sorted: seq<Item>, later: seq<Item>)
    requires e <= |xs| && sorted == Sort(ByImportance(), xs[..e]) && multiset(later) == multiset(xs[e..])
    ensures multiset(sorted + later) == multiset(xs)
  {
    SortPermutes(ByImportance(), xs[..e]);
    assert xs == xs[..e] + xs[e..];
  }

  /** Inside one band. */
  lemma BandSafe(xs: seq<Item>, e: nat)
    requires Ordered(ByScore(), xs) && xs != [] && e == BandEnd(xs, 1)
    ensures Safe(Sort(ByImportance(), xs[..e]))
  {
    var band := xs[..e];
    var rs := Sort(ByImportance(), band);
    OrdersAreWeak(Query("", "", "", s => s));
    SortPermutes(ByImportance(), band);
    SortOrders(ByImportance(), band);
    forall a, b | 0 <= a < b < |rs| ensures MayPrecede(rs[a], rs[b]) {
      assert rs[a] in band && rs[b] in band;
      var i :| 0 <= i < e && band[i] == rs[a];
      var j :| 0 <= j < e && band[j] == rs[b];
      assert i > 0 ==> !ByScore()(xs[i], xs[0]);
      assert j > 0 ==> !ByScore()(xs[j], xs[0]);
      assert !ByImportance()(rs[b], rs[a]);
      if Importance(rs[a]) == Importance(rs[b]) { EqualImportanceInBand(band, rs, a, b); }
    }
  }

  /** Equal importance keeps score order. */
  lemma EqualImportanceInBand(band: seq<Item>, rs: seq<Item>, a: nat, b: nat)
    requires Ordered(ByScore(), band) && rs == Sort(ByImportance(), band)
    requires a < b < |rs| && Importance(rs[a]) == Importance(rs[b])
    ensures !ByScore()(rs[b], rs[a])
  {
    var v := Importance(rs[a]);
    var p := (x: Item) => Importance(x) == v;
    OrdersAreWeak(Query("", "", "", s => s));
    SortKeepsTies(ByImportance(), band, p);
    FilterOrdered(ByScore(), band, p);
    var i, j := FilterPair(p, rs, a, b);
  }

  lemma {:induction false} FilterOrdered<T(!new)>(before: (T, T) -> bool, xs: seq<T>, p: T -> bool)
    requires Ordered(before, xs)
    ensures Ordered(before, Filter(p, xs))
    ensures forall x | x in Filter(p, xs) :: x in xs
  {
    if xs != [] {
      var init, last := xs[..|xs| - 1], xs[|xs| - 1];
      FilterOrdered(before, init, p);
      forall x | x in Filter(p, init) ensures !before(last, x) && x in xs {
        var a :| 0 <= a < |init| && init[a] == x;
        assert xs[a] == x;
      }
    }
  }

  /** Two elements of xs that pass the filter appear in it in the same order. */
  lemma {:induction false} FilterPair<T>(p: T -> bool, xs: seq<T>, a: nat, b: nat) returns (i: nat, j: nat)
    requires a < b < |xs| && p(xs[a]) && p(xs[b])
    ensures i < j < |Filter(p, xs)| && Filter(p, xs)[i] == xs[a] && Filter(p, xs)[j] == xs[b]
  {
    var left, mid, right := xs[..a], xs[a + 1..b], xs[b + 1..];
    assert xs == left + [xs[a]] + mid + [xs[b]] + right;
    FilterConcat(p, left + [xs[a]] + mid + [xs[b]], right);
    FilterConcat(p, left + [xs[a]] + mid, [xs[b]]);
    FilterConcat(p, left + [xs[a]], mid);
    FilterConcat(p, left, [xs[a]]);
    i := |Filter(p, left)|;
    j := |Filter(p, left + [xs[a]] + mid)|;
  }

  /** Bands are safe, one after another. */
  lemma {:induction false} BandsSafe(xs: seq<Item>)
    requires Ordered(ByScore(), xs)
    ensures Safe(Bands(xs))
    decreases |xs|
  {
    if xs != [] {
      var e := BandEnd(xs, 1);
      var first, later := Sort(ByImportance(), xs[..e]), Bands(xs[e..]);
      BandSafe(xs, e);
      BandsSafe(xs[e..]);
      SortPermutes(ByImportance(), xs[..e]);
      BandsPermute(xs[e..]);
      forall x, y | x in first && y in later ensures MayPrecede(x, y) {
        var i :| 0 <= i < e && xs[..e][i] == x;
        var j :| 0 <= j < |xs| - e && xs[e..][j] == y;
        assert !ByScore()(xs[e + j], xs[i]);
      }
      BandThenBands(first, later);
    }
  }

  lemma BandThenBands(first: seq<Item>, later: seq<Item>)
    requires Safe(first) && Safe(later) && forall x, y | x in first && y in later :: MayPrecede(x, y)
    ensures Safe(first + later)
  {
    var all := first + later;
    forall a, b | 0 <= a < b < |all| ensures MayPrecede(all[a], all[b]) {
      if a < |first| <= b { assert first[a] in first && later[b - |first|] in later; }
    }
  }

  /**
   y may stay behind x, though more important, only because a head h of x's
   band outscores y by more than the epsilon.
   */
  ghost predicate StaysBehind(all: seq<Item>, x: Item, y: Item) {
    Score(x).Some? && Score(y).Some? && Importance(x) < Importance(y) ==>
      exists h :: h in all && Joins(h, x) && Score(h).value - Score(y).value > BAND_EPS
  }

  /** Inside a band the more important item always goes first. */
  lemma {:induction false} BandsPutImportantFirst(xs: seq<Item>)
    requires Ordered(ByScore(), xs)
    ensures forall a, b | 0 <= a < b < |Bands(xs)| :: StaysBehind(xs, Bands(xs)[a], Bands(xs)[b])
    decreases |xs|
  {
    if xs != [] {
      var e := BandEnd(xs, 1);
      var first, later := Sort(ByImportance(), xs[..e]), Bands(xs[e..]);
      BandsPutImportantFirst(xs[e..]);
      OrdersAreWeak(Query("", "", "", s => s));
      SortPermutes(ByImportance(), xs[..e]);
      SortOrders(ByImportance(), xs[..e]);
      BandsPermute(xs[e..]);
      forall x, y | x in first && y in later ensures StaysBehind(xs, x, y) {
        LaterBandIsFar(xs, e, x, y);
      }
      var rs := Bands(xs);
      forall a, b | 0 <= a < b < |rs| ensures StaysBehind(xs, rs[a], rs[b]) {
        if b < |first| {
          assert !ByImportance()(first[b], first[a]);
        } else if a < |first| {
          assert first[a] in first && later[b - |first|] in later;
        } else {
          assert StaysBehind(xs[e..], later[a - |first|], later[b - |first|]);
        }
      }
    }
  }

  lemma LaterBandIsFar(xs: seq<Item>, e: nat, x: Item, y: Item)
    requires Ordered(ByScore(), xs) && xs != [] && e == BandEnd(xs, 1)
    requires x in xs[..e] && y in xs[e..]
    ensures StaysBehind(xs, x, y)
  {
    if Score(x).Some? && Score(y).Some? {
      var i :| 0 <= i < e && xs[..e][i] == x;
      var j :| 0 <= j < |xs| - e && xs[e..][j] == y;
      assert xs[0] in xs;
      assert i > 0 ==> Joins(xs[0], xs[i]);
      assert j > 0 ==> !ByScore()(xs[e + j], xs[e]);
      assert !ByScore()(xs[e + j], xs[0]);
    }
  }

  /** Mutually equal in score and, when scored, in importance. */
  ghost predicate Ties(p: Item -> bool) {
    forall x, y | p(x) && p(y) :: Score(x) == Score(y) && (Score(x).None? || Importance(x) == Importance(y))
  }

  lemma OneBandKeepsTies(xs: seq<Item>, e: nat, p: Item -> bool)
    requires xs != [] && e == BandEnd(xs, 1) && Ties(p)
    ensures Filter(p, Sort(ByImportance(), xs[..e])) == Filter(p, xs[..e])
  {
    var band := xs[..e];
    if e == 1 {
      SortOne(ByImportance(), band);
    } else {
      assert Joins(xs[0], xs[1]);
      assert forall x | x in band :: Score(x).Some?;
      OrdersAreWeak(Query("", "", "", s => s));
      var scored := (x: Item) => p(x) && Score(x).Some?;
      SortKeepsTies(ByImportance(), band, scored);
      SortPermutes(ByImportance(), band);
      FilterSame(p, scored, band);
      FilterSame(p, scored, Sort(ByImportance(), band));
    }
  }

  /** Items equal in score and importance, and unscored items, keep their order through the bands. */
  lemma {:induction false} BandsKeepTies(xs: seq<Item>, p: Item -> bool)
    requires Ties(p)
    ensures Filter(p, Bands(xs)) == Filter(p, xs)
    decreases |xs|
  {
    if xs != [] {
      var e := BandEnd(xs, 1);
      OneBandKeepsTies(xs, e, p);
      BandsKeepTies(xs[e..], p);
      FilterConcat(p, Sort(ByImportance(), xs[..e]), Bands(xs[e..]));
      FilterConcat(p, xs[..e], xs[e..]);
      assert xs == xs[..e] + xs[e..];
    }
  }

  lemma {:induction false} FilterSame<T>(p: T -> bool, r: T -> bool, xs: seq<T>)
    requires forall x | x in xs :: p(x) == r(x)
    ensures Filter(p, xs) == Filter(r, xs)
  {
    if xs != [] { FilterSame(p, r, xs[..|xs| - 1]); }
  }

  // ---------------------------------------------------------------- the whole reordering

  lemma BoostSplit(q: Query, items: seq<Item>)
    ensures Sort(ByBoost(q), items) == Boosted(q, items) + Tail(q, items)
    ensures Ordered(ByBoost(q), Boosted(q, items))
    ensures forall x | x in Boosted(q, items) :: Boost(q, x) > 0
    ensures forall x | x in Tail(q, items) :: Boost(q, x) == 0
  {
    OrdersAreWeak(q);
    SortOrders(ByBoost(q), items);
    SplitOrdered(q, Sort(ByBoost(q), items));
  }

  lemma SplitOrdered(q: Query, sorted: seq<Item>)
    requires Ordered(ByBoost(q), sorted)
    ensures var t := TailStart(q, sorted, 0);
            && sorted == sorted[..t] + sorted[t..]
            && Ordered(ByBoost(q), sorted[..t])
            && (forall x | x in sorted[..t] :: Boost(q, x) > 0)
            && (forall x | x in sorted[t..] :: Boost(q, x) == 0)
  {
    var t := TailStart(q, sorted, 0);
    forall x | x in sorted[t..] ensures Boost(q, x) == 0 {
      var k :| 0 <= k < |sorted| - t && sorted[t..][k] == x;
      assert sorted[t + k] == x;
      if k > 0 { assert !ByBoost(q)(sorted[t + k], sorted[t]); }
    }
    forall x | x in sorted[..t] ensures Boost(q, x) > 0 {
      var k :| 0 <= k < t && sorted[..t][k] == x;
    }
  }

  lemma BandedPermutes(tail: seq<Item>)
    ensures multiset(Banded(tail)) == multiset(tail) && |Banded(tail)| == |tail|
    ensures forall x :: x in Banded(tail) <==> x in tail
  {
    SortPermutes(ByScore(), tail);
    BandsPermute(Sort(ByScore(), tail));
    assert |multiset(Banded(tail))| == |multiset(tail)|;
  }

  /** Nothing is added or lost. */
  lemma RerankPermutes(q: Query, items: seq<Item>)
    ensures multiset(Rerank(q, items)) == multiset(items)
  {
    BoostSplit(q, items);
    SortPermutes(ByBoost(q), items);
    BandedPermutes(Tail(q, items));
  }

  lemma BandedSafe(tail: seq<Item>)
    ensures Safe(Banded(tail))
  {
    OrdersAreWeak(Query("", "", "", s => s));
    SortOrders(ByScore(), tail);
    BandsSafe(Sort(ByScore(), tail));
  }

  /** Boosts never increase along the result, and its unboosted tail is safe. */
  lemma RerankSafe(q: Query, items: seq<Item>)
    ensures var r := Rerank(q, items);
            forall a, b | 0 <= a < b < |r| ::
              && Boost(q, r[a]) >= Boost(q, r[b])
              && (Boost(q, r[a]) == 0 ==> MayPrecede(r[a], r[b]))
  {
    BoostSplit(q, items);
    BandedPermutes(Tail(q, items));
    BandedSafe(Tail(q, items));
    JoinSafe(q, Boosted(q, items), Banded(Tail(q, items)));
  }

  lemma JoinSafe(q: Query, boosted: seq<Item>, tail: seq<Item>)
    requires Ordered(ByBoost(q), boosted) && Safe(tail)
    requires forall x | x in boosted :: Boost(q, x) > 0
    requires forall x | x in tail :: Boost(q, x) == 0
    ensures var r := boosted + tail;
            forall a, b | 0 <= a < b < |r| ::
              && Boost(q, r[a]) >= Boost(q, r[b])
              && (Boost(q, r[a]) == 0 ==> MayPrecede(r[a], r[b]))
  {
    var r, t := boosted + tail, |boosted|;
    forall a, b | 0 <= a < b < |r|
      ensures Boost(q, r[a]) >= Boost(q, r[b]) && (Boost(q, r[a]) == 0 ==> MayPrecede(r[a], r[b]))
    {
      if b < t {
        assert !ByBoost(q)(boosted[b], boosted[a]);
        assert boosted[a] in boosted;
      } else {
        assert tail[b - t] in tail;
        if a < t {
          assert boosted[a] in boosted;
        } else {
          assert MayPrecede(tail[a - t], tail[b - t]);
        }
      }
    }
  }

  /** In the tail, a more important item stays behind only across a real score gap. */
  lemma TailPutsImportantFirst(q: Query, items: seq<Item>, a: nat, b: nat)
    requires a < b < |Rerank(q, items)| && Boost(q, Rerank(q, items)[a]) == 0
    ensures StaysBehind(items, Rerank(q, items)[a], Rerank(q, items)[b])
  {
    var boosted, tail := Boosted(q, items), Tail(q, items);
    BoostSplit(q, items);
    assert a >= |boosted|;
    OrdersAreWeak(q);
    SortOrders(ByScore(), tail);
    BandsPutImportantFirst(Sort(ByScore(), tail));
    var x, y := Banded(tail)[a - |boosted|], Banded(tail)[b - |boosted|];
    assert StaysBehind(Sort(ByScore(), tail), x, y);
    SortPermutes(ByScore(), tail);
    SortPermutes(ByBoost(q), items);
    assert forall h | h in tail :: h in Sort(ByBoost(q), items);
  }

  /** A higher importance, 0 standing for a missing one. */
  predicate MoreImportant(x: Item, y: Item)
    requires x.Row? && y.Row?
  {
    match (x.importance, y.importance)
    case (Some(ix), Some(iy)) => ix > iy
    case (Some(ix), None) => ix > 0.0
    case (None, Some(iy)) => 0.0 > iy
    case (None, None) => false
  }

  /**
   The same on the fields themselves: unscored items close the tail, and a row goes ahead of
   one that scored higher only if the scores differ by at most 0.001 and it is more important.
   */
  lemma TailOrder(q: Query, items: seq<Item>, a: nat, b: nat)
    requires a < b < |Rerank(q, items)| && Boost(q, Rerank(q, items)[a]) == 0
    ensures var x, y := Rerank(q, items)[a], Rerank(q, items)[b];
            && Boost(q, y) == 0
            && (x.Opaque? || x.score.None? ==> y.Opaque? || y.score.None?)
            && (x.Row? && y.Row? && x.score.Some? && y.score.Some? && x.score.value < y.score.value ==>
                  y.score.value - x.score.value <= 0.001 && MoreImportant(x, y))
  {
    RerankSafe(q, items);
  }

  /** A row that scored at most 0.001 above x, but more than that above y. */
  predicate Leads(h: Item, x: real, y: real) {
    h.Row? && h.score.Some? && h.score.value - x <= 0.001 && h.score.value - y > 0.001
  }

  /**
   A more important row stays behind only if some row of the page leads the two scores; so of
   two rows with one score the more important one goes first.
   */
  lemma TailLead(q: Query, items: seq<Item>, a: nat, b: nat)
    requires a < b < |Rerank(q, items)| && Boost(q, Rerank(q, items)[a]) == 0
    ensures var x, y := Rerank(q, items)[a], Rerank(q, items)[b];
            x.Row? && y.Row? && x.score.Some? && y.score.Some? && MoreImportant(y, x) ==>
              x.score != y.score && exists h :: h in items && Leads(h, x.score.value, y.score.value)
  {
    TailPutsImportantFirst(q, items, a, b);
    var x, y := Rerank(q, items)[a], Rerank(q, items)[b];
    if x.Row? && y.Row? && x.score.Some? && y.score.Some? && MoreImportant(y, x) {
      var h :| h in items && Joins(h, x) && Score(h).value - Score(y).value > BAND_EPS;
      assert Leads(h, x.score.value, y.score.value);
    }
  }

  /** Items of one nonzero boost keep their input order. */
  lemma BoostTierKeepsOrder(q: Query, items: seq<Item>, boost: nat)
    requires boost > 0
    ensures var tier := (x: Item) => Boost(q, x) == boost;
            Filter(tier, Rerank(q, items)) == Filter(tier, items)
  {
    var tier := (x: Item) => Boost(q, x) == boost;
    var boosted, tail := Boosted(q, items), Tail(q, items);
    OrdersAreWeak(q);
    SortKeepsTies(ByBoost(q), items, tier);
    BoostSplit(q, items);
    BandedPermutes(tail);
    FilterConcat(tier, boosted, tail);
    FilterConcat(tier, boosted, Banded(tail));
    FilterNone(tier, tail);
    FilterNone(tier, Banded(tail));
  }

  lemma BandedKeepsTies(tail: seq<Item>, p: Item -> bool)
    requires Ties(p)
    ensures Filter(p, Banded(tail)) == Filter(p, tail)
  {
    OrdersAreWeak(Query("", "", "", s => s));
    SortKeepsTies(ByScore(), tail, p);
    BandsKeepTies(Sort(ByScore(), tail), p);
  }

  /** In the tail, unscored items keep their input order, and so do items tied in score and importance. */
  lemma TailTiesKeepOrder(q: Query, items: seq<Item>, p: Item -> bool)
    requires forall x | p(x) :: Boost(q, x) == 0
    requires Ties(p)
    ensures Filter(p, Rerank(q, items)) == Filter(p, items)
  {
    var boosted, tail := Boosted(q, items), Tail(q, items);
    OrdersAreWeak(q);
    SortKeepsTies(ByBoost(q), items, p);
    BoostSplit(q, items);
    BandedKeepsTies(tail, p);
    FilterConcat(p, boosted, tail);
    FilterConcat(p, boosted, Banded(tail));
  }

  // ---------------------------------------------------------------- in place

  method CopyInto(a: array<Item>, lo: nat, s: seq<Item>)
    requires lo + |s| <= a.Length
    modifies a
    ensures a[..] == old(a[..lo]) + s + old(a[lo + |s|..])
  {
    ghost var before := a[..];
    for k := 0 to |s|
      invariant a[..] == before[..lo] + s[..k] + before[lo + k..]
    {
      a[lo + k] := s[k];
    }
  }

  /** sort.SliceStable on a[lo..hi]. */
  method SortRange(a: array<Item>, lo: nat, hi: nat, before: (Item, Item) -> bool)
    requires lo <= hi <= a.Length
    modifies a
    ensures a[..] == old(a[..lo]) + Sort(before, old(a[lo..hi])) + old(a[hi..])
  {
    SortPermutes(before, a[lo..hi]);
    CopyInto(a, lo, Sort(before, a[lo..hi]));
  }

  /** bandUnboostedByImportance on the tail a[lo..]. */
  method BandUnboostedByImportance(a: array<Item>, lo: nat)
    requires lo <= a.Length
    modifies a
    ensures a[..] == old(a[..lo]) + Banded(old(a[lo..]))
  {
    ghost var front, tail := a[..lo], a[lo..];
    assert a[..] == front + tail;
    if a.Length - lo < 2 {
      SmallTail(tail);
      return;
    }
    ghost var pre := Sort(ByScore(), tail);
    SortPermutes(ByScore(), tail);
    assert a[lo..a.Length] == tail && a[a.Length..] == [];
    SortRange(a, lo, a.Length, ByScore());
    assert a[..] == front + pre;
    FlushBands(a, lo, front, pre);
  }

  /** One finished band, sorted in place. */
  method Flush(a: array<Item>, start: nat, end: nat, ghost done: seq<Item>, ghost rest: seq<Item>)
    requires start <= end <= a.Length && |done| == start && a[..] == done + rest
    modifies a
    ensures a[..] == done + Sort(ByImportance(), rest[..end - start]) + rest[end - start..]
    ensures |Sort(ByImportance(), rest[..end - start])| == end - start
  {
    assert a[..start] == done && a[start..end] == rest[..end - start] && a[end..] == rest[end - start..];
    SortPermutes(ByImportance(), rest[..end - start]);
    SortRange(a, start, end, ByImportance());
  }

  lemma NextBand(prefix: seq<Item>, rest: seq<Item>, n: nat)
    requires 1 <= n <= |rest| && BandEnd(rest, 1) == n
    ensures prefix + Bands(rest) == prefix + Sort(ByImportance(), rest[..n]) + Bands(rest[n..])
  {
    assert Bands(rest) == Sort(ByImportance(), rest[..n]) + Bands(rest[n..]);
  }

  /** The band loop: `pre` is the tail in score order. */
  method FlushBands(a: array<Item>, lo: nat, ghost front: seq<Item>, ghost pre: seq<Item>)
    requires lo + 2 <= a.Length && |front| == lo && a[..] == front + pre
    modifies a
    ensures a[..] == front + Bands(pre)
  {
    var start, head, i := lo, a[lo], lo + 1;
    ghost var done, rest := front, pre;
    while i < a.Length
      invariant lo <= start < i <= a.Length
      invariant |done| == start && a[..] == done + rest
      invariant done + Bands(rest) == front + Bands(pre)
      invariant |rest| == a.Length - start && head == rest[0]
      invariant BandEnd(rest, 1) == BandEnd(rest, i - start)
    {
      assert a[i] == a[..][i] == rest[i - start];
      if !Joins(head, a[i]) {
        NextBand(done, rest, i - start);
        Flush(a, start, i, done, rest);
        done, rest := done + Sort(ByImportance(), rest[..i - start]), rest[i - start..];
        start := i;
        head := a[i];
        assert head == a[..][i] == rest[0];
      }
      i := i + 1;
    }
    NextBand(done, rest, |rest|);
    Flush(a, start, a.Length, done, rest);
    assert rest[|rest|..] == [] && Bands([]) == [];
  }

  lemma SmallTail(tail: seq<Item>)
    requires |tail| < 2
    ensures Banded(tail) == tail
  {
    SortOne(ByScore(), tail);
    if |tail| == 1 {
      assert BandEnd(tail, 1) == 1 && tail[..1] == tail && tail[1..] == [];
      SortOne(ByImportance(), tail);
      assert Bands(tail[1..]) == [];
      assert Bands(tail) == Sort(ByImportance(), tail[..1]) + Bands(tail[1..]);
    }
  }

  /** rerankRecallItems. */
  method RerankRecallItems(q: Query, items: seq<Item>) returns (result: seq<Item>)
    ensures result == Rerank(q, items)
  {
    if |items| == 0 { return items; }
    var sorted := Sort(ByBoost(q), items);
    SortPermutes(ByBoost(q), items);
    var tailStart := 0;
    while tailStart < |sorted| && Boost(q, sorted[tailStart]) != 0
      invariant 0 <= tailStart <= |sorted|
      invariant TailStart(q, sorted, 0) == TailStart(q, sorted, tailStart)
    {
      tailStart := tailStart + 1;
    }
    var out := new Item[|sorted|](k requires 0 <= k < |sorted| => sorted[k]);
    assert out[..] == sorted;
    if tailStart < out.Length {
      BandUnboostedByImportance(out, tailStart);
    } else {
      SmallTail(sorted[tailStart..]);
      assert sorted[..tailStart] + sorted[tailStart..] == sorted;
    }
    result := out[..];
  }
}
