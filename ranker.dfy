/** `ask`: scores every row of the embedding table by the absolute value of
    its dot product with the query embedding, orders the row labels by
    non-increasing score, looks the articles up under those labels and
    returns the first `n`. The query embedding is an input: computing it is
    a call into a sentence-embedding model. Vectors hold integers, so scores
    are exact. */
module Ranker {
  import opened Segmenter

  /** One row of the embedding table: its index label and its vector. */
  datatype Row = Row(key: nat, embedding: seq<int>)

  function Dot(u: seq<int>, v: seq<int>): int
    requires |u| == |v|
    decreases |u|
  {
    if u == [] then 0 else u[0] * v[0] + Dot(u[1..], v[1..])
  }

  function Abs(x: int): nat {
    if x < 0 then -x else x
  }

  /** Every row has the query's dimension (`np.dot` raises otherwise). */
  predicate SameDimension(table: seq<Row>, query: seq<int>) {
    forall i :: 0 <= i < |table| ==> |table[i].embedding| == |query|
  }

  /** Every row label has an article (`s.loc` raises otherwise). */
  predicate LabelsHaveArticles(table: seq<Row>, s: map<nat, string>) {
    forall i :: 0 <= i < |table| ==> table[i].key in s
  }

  /** The article series as `s.loc` reads it: label to text. */
  function ByLabel(xs: seq<Article>): (m: map<nat, string>)
    ensures forall i :: 0 <= i < |xs| ==> xs[i].key in m
    ensures forall k :: k in m ==>
      exists i :: 0 <= i < |xs| && xs[i].key == k && m[k] == xs[i].text
  {
    if xs == [] then map[]
    else
      var init := xs[..|xs| - 1];
      var m := ByLabel(init);
      assert forall i :: 0 <= i < |init| ==> init[i] == xs[i];
      m[xs[|xs| - 1].key := xs[|xs| - 1].text]
  }

  /** With labels ascending, each article is found under its own label. */
  lemma ByLabelFindsEach(xs: seq<Article>, a: Article)
    requires Ascending(xs) && a in xs
    ensures a.key in ByLabel(xs) && ByLabel(xs)[a.key] == a.text
  {
    var i :| 0 <= i < |xs| && xs[i] == a;
    var m := ByLabel(xs);
    var j :| 0 <= j < |xs| && xs[j].key == a.key && m[a.key] == xs[j].text;
    assert i == j;
  }

  /** The score of row `i`: the absolute value of `np.dot` of its vector
      with the query. */
  function Score(table: seq<Row>, query: seq<int>, i: nat): nat
    requires SameDimension(table, query) && i < |table|
  {
    Abs(Dot(table[i].embedding, query))
  }

  /** `X.apply(lambda row: np.dot(row, embedding), axis=1).abs()`. */
  function Scores(table: seq<Row>, query: seq<int>): (r: seq<nat>)
    requires SameDimension(table, query)
    ensures |r| == |table|
    ensures forall i :: 0 <= i < |r| ==> r[i] == Score(table, query, i)
  {
    seq(|table|, i requires 0 <= i < |table| => Score(table, query, i))
  }

  // ---------------------------------------------------------------------
  // Positions ordered by score

  predicate InRange(order: seq<nat>, n: nat) {
    forall k :: 0 <= k < |order| ==> order[k] < n
  }

  predicate Distinct(order: seq<nat>) {
    forall i, j :: 0 <= i < j < |order| ==> order[i] != order[j]
  }

  predicate NonIncreasing(scores: seq<nat>, order: seq<nat>)
    requires InRange(order, |scores|)
  {
    forall i, j :: 0 <= i < j < |order| ==> scores[order[i]] >= scores[order[j]]
  }

  /** Puts position `p` ahead of the first entry that scores no more. */
  function Insert(scores: seq<nat>, p: nat, order: seq<nat>): (r: seq<nat>)
    requires p < |scores| && InRange(order, |scores|)
    ensures |r| == |order| + 1
    ensures forall x :: x in r <==> x == p || x in order
  {
    if order == [] then [p]
    else if scores[p] >= scores[order[0]] then [p] + order
    else
      var rest := Insert(scores, p, order[1..]);
      assert order == [order[0]] + order[1..];
      [order[0]] + rest
  }

  /** Inserting into a ranking by non-increasing score keeps it one. */
  lemma {:induction false} InsertKeepsOrder(scores: seq<nat>, p: nat, order: seq<nat>)
    requires p < |scores| && InRange(order, |scores|) && NonIncreasing(scores, order)
    ensures InRange(Insert(scores, p, order), |scores|)
    ensures NonIncreasing(scores, Insert(scores, p, order))
  {
    var r := Insert(scores, p, order);
    assert forall i :: 0 <= i < |r| ==> r[i] in r;
    if order != [] {
      var x := order[0];
      var tail := order[1..];
      assert forall y :: y in tail ==> scores[y] <= scores[x] by {
        forall y | y in tail ensures scores[y] <= scores[x] {
          var k :| 0 <= k < |tail| && tail[k] == y;
          assert order[k + 1] == y;
        }
      }
      if scores[p] >= scores[x] {
        ConsKeepsOrder(scores, p, order);
      } else {
        InsertKeepsOrder(scores, p, tail);
        ConsKeepsOrder(scores, x, Insert(scores, p, tail));
      }
    }
  }

  /** A position scoring at least as much as every entry of a ranking may
      go in front of it. */
  lemma ConsKeepsOrder(scores: seq<nat>, x: nat, rest: seq<nat>)
    requires x < |scores| && InRange(rest, |scores|) && NonIncreasing(scores, rest)
    requires forall y :: y in rest ==> scores[y] <= scores[x]
    ensures InRange([x] + rest, |scores|) && NonIncreasing(scores, [x] + rest)
  {
    var r := [x] + rest;
    assert forall i :: 0 < i < |r| ==> r[i] == rest[i - 1] && rest[i - 1] in rest;
  }

  /** Inserting a new position into a list of distinct ones keeps them
      distinct. */
  lemma {:induction false} InsertKeepsDistinct(scores: seq<nat>, p: nat, order: seq<nat>)
    requires p < |scores| && InRange(order, |scores|) && Distinct(order) && p !in order
    ensures Distinct(Insert(scores, p, order))
  {
    if order != [] && scores[p] < scores[order[0]] {
      var rest := Insert(scores, p, order[1..]);
      InsertKeepsDistinct(scores, p, order[1..]);
      var r := [order[0]] + rest;
      forall i, j | 0 <= i < j < |r| ensures r[i] != r[j] {
        assert r[j] == rest[j - 1];
        if i > 0 {
          assert r[i] == rest[i - 1];
        } else if r[j] != p {
          assert rest[j - 1] in rest;
          var k :| 0 <= k < |order[1..]| && order[1..][k] == r[j];
          assert order[k + 1] == r[j];
        }
      }
    }
  }

  /** `sort_values(ascending=False)` over the first `k` scores: the
      positions `0..k`, each once, by non-increasing score. Ties come out in
      some order; the source promises none. */
  function SortDescending(scores: seq<nat>, k: nat): (order: seq<nat>)
    requires k <= |scores|
    ensures |order| == k && InRange(order, k) && Distinct(order)
    ensures forall p: nat :: p < k ==> p in order
    ensures NonIncreasing(scores, order)
  {
    if k == 0 then []
    else
      var rest := SortDescending(scores, k - 1);
      InsertKeepsOrder(scores, k - 1, rest);
      InsertKeepsDistinct(scores, k - 1, rest);
      var r := Insert(scores, k - 1, rest);
      assert forall i :: 0 <= i < |r| ==> r[i] in r;
      r
  }

  function Ranking(table: seq<Row>, query: seq<int>): seq<nat>
    requires SameDimension(table, query)
  {
    SortDescending(Scores(table, query), |table|)
  }

  // ---------------------------------------------------------------------
  // ask

  /** `.head(n)`: the first `n` entries, or all but the last `-n` when `n`
      is negative. */
  function Head<T>(xs: seq<T>, n: int): (r: seq<T>)
    ensures |r| == if n >= 0 then (if n < |xs| then n else |xs|)
                   else (if |xs| + n > 0 then |xs| + n else 0)
    ensures r == xs[..|r|]
  {
    if n >= 0 then xs[..if n < |xs| then n else |xs|]
    else xs[..if |xs| + n > 0 then |xs| + n else 0]
  }

  /** `s.loc[sorted_index.index]`: the articles under the row labels,
      best row first. There is one per row, and each is the text the
      series holds under that row's label. */
  function RankedArticles(table: seq<Row>, query: seq<int>, s: map<nat, string>): (r: seq<Article>)
    requires SameDimension(table, query) && LabelsHaveArticles(table, s)
    ensures |r| == |table|
    ensures forall i :: 0 <= i < |table| ==> Article(table[i].key, s[table[i].key]) in r
    ensures forall a :: a in r ==>
      a.key in s && a.text == s[a.key] && exists i :: 0 <= i < |table| && table[i].key == a.key
  {
    var order := Ranking(table, query);
    var r := seq(|order|, k requires 0 <= k < |order| => Article(table[order[k]].key, s[table[order[k]].key]));
    ArticlesUnderRows(table, s, order, r);
    r
  }

  /** Listing the article under the label of each row of an ordering that
      holds every row gives every row's article and nothing else. */
  lemma ArticlesUnderRows(table: seq<Row>, s: map<nat, string>, order: seq<nat>, r: seq<Article>)
    requires LabelsHaveArticles(table, s) && InRange(order, |table|)
    requires forall p: nat :: p < |table| ==> p in order
    requires |r| == |order|
    requires forall k :: 0 <= k < |r| ==> r[k] == Article(table[order[k]].key, s[table[order[k]].key])
    ensures forall i :: 0 <= i < |table| ==> Article(table[i].key, s[table[i].key]) in r
    ensures forall a :: a in r ==>
      a.key in s && a.text == s[a.key] && exists i :: 0 <= i < |table| && table[i].key == a.key
  {
    forall i | 0 <= i < |table| ensures Article(table[i].key, s[table[i].key]) in r {
      assert i in order;
      var k :| 0 <= k < |order| && order[k] == i;
      assert r[k] == Article(table[i].key, s[table[i].key]);
    }
    forall a | a in r ensures a.key in s && a.text == s[a.key] && exists i :: 0 <= i < |table| && table[i].key == a.key {
      var k :| 0 <= k < |r| && r[k] == a;
      assert table[order[k]].key == a.key;
    }
  }

  /** `s.loc[sorted_index.index].head(n)`. pandas cannot sort the scores
      of an empty table (`apply` then returns a frame, whose
      `sort_values` needs a column), so the table must have a row. */
  function Ask(table: seq<Row>, query: seq<int>, s: map<nat, string>, n: int): (r: seq<Article>)
    requires SameDimension(table, query) && LabelsHaveArticles(table, s) && table != []
    ensures |r| == if n >= 0 then (if n < |table| then n else |table|)
                   else (if |table| + n > 0 then |table| + n else 0)
    ensures forall a :: a in r ==> a.key in s && a.text == s[a.key]
  {
    var ranked := RankedArticles(table, query, s);
    var r := Head(ranked, n);
    assert forall k :: 0 <= k < |r| ==> r[k] == ranked[k] && ranked[k] in ranked;
    r
  }

  /** `rows` lists distinct row positions by non-increasing score, and no
      row left out scores more than a listed one. */
  ghost predicate TopRows(table: seq<Row>, query: seq<int>, rows: seq<nat>)
    requires SameDimension(table, query)
  {
    && InRange(rows, |table|) && Distinct(rows)
    && NonIncreasing(Scores(table, query), rows)
    && forall p: nat, k :: p < |table| && p !in rows && 0 <= k < |rows| ==>
         Score(table, query, p) <= Score(table, query, rows[k])
  }

  /** Every prefix of a full ranking lists top rows. */
  lemma RankingPrefixIsTop(table: seq<Row>, query: seq<int>, m: nat)
    requires SameDimension(table, query) && m <= |table|
    ensures TopRows(table, query, Ranking(table, query)[..m])
  {
    var order := Ranking(table, query);
    var scores := Scores(table, query);
    var rows := order[..m];
    forall p: nat, k | p < |table| && p !in rows && 0 <= k < |rows|
      ensures Score(table, query, p) <= Score(table, query, rows[k])
    {
      assert p in order;
      var q :| 0 <= q < |order| && order[q] == p;
      assert q >= m;
      assert scores[order[k]] >= scores[order[q]];
    }
  }

  /** `ask` returns as many articles as `.head(n)` keeps of the table's
      rows, and those are the articles filed under the labels of
      top-scoring, pairwise-distinct rows, best first. */
  lemma AskReturnsTopRows(table: seq<Row>, query: seq<int>, s: map<nat, string>, n: int)
    requires SameDimension(table, query) && LabelsHaveArticles(table, s) && table != []
    ensures var r := Ask(table, query, s, n);
      && |r| == (if n >= 0 then (if n < |table| then n else |table|)
                 else (if |table| + n > 0 then |table| + n else 0))
      && exists rows :: |rows| == |r| && TopRows(table, query, rows) &&
           forall k :: 0 <= k < |r| ==> r[k] == Article(table[rows[k]].key, s[table[rows[k]].key])
  {
    var ranked := RankedArticles(table, query, s);
    var r := Ask(table, query, s, n);
    var rows := Ranking(table, query)[..|r|];
    RankingPrefixIsTop(table, query, |r|);
    assert forall k :: 0 <= k < |r| ==> r[k] == ranked[k];
  }

  /** Over the series `get_articles` builds, every answer of `ask` is one
      of its articles, label and text together. */
  lemma AskAnswersAreArticles(xs: seq<Article>, table: seq<Row>, query: seq<int>, n: int)
    requires SameDimension(table, query) && LabelsHaveArticles(table, ByLabel(xs)) && table != []
    ensures forall a :: a in Ask(table, query, ByLabel(xs), n) ==> a in xs
  {
    var m := ByLabel(xs);
    forall a | a in Ask(table, query, m, n) ensures a in xs {
      var i :| 0 <= i < |xs| && xs[i].key == a.key && m[a.key] == xs[i].text;
      assert a == xs[i];
    }
  }

  // ---------------------------------------------------------------------
  // The answer is fixed up to the order of ties

  /** The first `n` entries of a list without repeats are `n` different
      positions. */
  lemma {:induction false} DistinctPrefixSetSize(xs: seq<nat>, n: nat)
    requires Distinct(xs) && n <= |xs|
    ensures |set i | 0 <= i < n :: xs[i]| == n
  {
    if n > 0 {
      DistinctPrefixSetSize(xs, n - 1);
      var smaller := set i | 0 <= i < n - 1 :: xs[i];
      assert (set i | 0 <= i < n :: xs[i]) == smaller + {xs[n - 1]};
      assert xs[n - 1] !in smaller;
    }
  }

  lemma {:induction false} PrefixSetSize(xs: seq<nat>, n: nat)
    requires n <= |xs|
    ensures |set i | 0 <= i < n :: xs[i]| <= n
  {
    if n > 0 {
      PrefixSetSize(xs, n - 1);
      assert (set i | 0 <= i < n :: xs[i]) == (set i | 0 <= i < n - 1 :: xs[i]) + {xs[n - 1]};
    }
  }

  lemma SubsetSize(a: set<nat>, b: set<nat>)
    requires a <= b
    ensures |a| <= |b|
  {
    assert b == a + (b - a);
  }

  /** A row scoring above place `k` of a list of top rows is listed
      before place `k`. */
  lemma HighScoreListedEarlier(table: seq<Row>, query: seq<int>, rows: seq<nat>, k: nat, x: nat)
    requires SameDimension(table, query) && TopRows(table, query, rows)
    requires k < |rows| && x < |table|
    ensures Score(table, query, x) > Score(table, query, rows[k]) ==>
      x in (set j | 0 <= j < k :: rows[j])
  {
    var scores := Scores(table, query);
    if Score(table, query, x) > Score(table, query, rows[k]) {
      assert x in rows;
      var j :| 0 <= j < |rows| && rows[j] == x;
      assert scores[rows[j]] > scores[rows[k]];
      assert j < k;
    }
  }

  /** Place `k` of one list of top rows scores no higher than place `k`
      of another of the same length: of the `k + 1` rows listed up to
      place `k` in the first, one is missing from the first `k` of the
      second, and so scores no higher than place `k` there. */
  lemma ScoreNoHigherAtSamePlace(table: seq<Row>, query: seq<int>, rows1: seq<nat>, rows2: seq<nat>, k: nat)
    requires SameDimension(table, query)
    requires TopRows(table, query, rows1) && TopRows(table, query, rows2)
    requires |rows1| == |rows2| && k < |rows1|
    ensures Score(table, query, rows1[k]) <= Score(table, query, rows2[k])
  {
    var i := NewEntryUpTo(rows1, rows2, k);
    var x := rows1[i];
    assert Score(table, query, x) >= Score(table, query, rows1[k]) by {
      var scores := Scores(table, query);
      assert scores[rows1[i]] >= scores[rows1[k]];
    }
    HighScoreListedEarlier(table, query, rows2, k, x);
  }

  /** Of the first `k + 1` entries of a list without repeats, one is
      missing from the first `k` entries of any other list. */
  lemma NewEntryUpTo(rows1: seq<nat>, rows2: seq<nat>, k: nat) returns (i: nat)
    requires Distinct(rows1) && |rows1| == |rows2| && k < |rows1|
    ensures i <= k && rows1[i] !in (set j | 0 <= j < k :: rows2[j])
  {
    var upTo := set i | 0 <= i < k + 1 :: rows1[i];
    var before := set j | 0 <= j < k :: rows2[j];
    DistinctPrefixSetSize(rows1, k + 1);
    PrefixSetSize(rows2, k);
    assert !(upTo <= before) by {
      if upTo <= before {
        SubsetSize(upTo, before);
      }
    }
    var x :| x in upTo && x !in before;
    i :| 0 <= i < k + 1 && rows1[i] == x;
  }


  /** Any two lists of top rows of one length score the same place by
      place: `ask` is determined except for the order among equal scores. */
  lemma TopScoresDetermined(table: seq<Row>, query: seq<int>, rows1: seq<nat>, rows2: seq<nat>)
    requires SameDimension(table, query)
    requires TopRows(table, query, rows1) && TopRows(table, query, rows2)
    requires |rows1| == |rows2|
    ensures forall k :: 0 <= k < |rows1| ==>
      Score(table, query, rows1[k]) == Score(table, query, rows2[k])
  {
    forall k | 0 <= k < |rows1|
      ensures Score(table, query, rows1[k]) == Score(table, query, rows2[k])
    {
      ScoreNoHigherAtSamePlace(table, query, rows1, rows2, k);
      ScoreNoHigherAtSamePlace(table, query, rows2, rows1, k);
    }
  }
}
