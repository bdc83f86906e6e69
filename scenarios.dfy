/** Worked instances of the pipeline: a piece that passes the length filter
    only because its whitespace has not been collapsed yet, and a small
    ranking whose answer is fixed by the ranking contract alone. */
module Scenarios {
  import opened PyStrings
  import opened Segmenter
  import opened Ranker

  lemma LettersAreNotSpace()
    ensures !IsSpace('a') && !IsSpace('b')
  {
  }

  /** Two letters around a whitespace run collapse to the letters around
      one space. */
  lemma LettersAroundRun(x: char, run: string, y: char)
    requires !IsSpace(x) && !IsSpace(y) && run != [] && AllSpace(run)
    ensures CollapseSpace([x] + run + [y]) == [x, ' ', y]
  {
    var q := run + [y];
    assert ([x] + run + [y]) == [x] + q;
    assert ([x] + q)[1..] == q;
    CollapseSpaceRun(run, [y]);
    assert [y][1..] == [];
  }

  lemma SpacedLettersCollapse(p: string)
    requires p == "a         b"
    ensures CollapseSpace(p) == "a b"
  {
    var run := p[1..10];
    assert p == ['a'] + run + ['b'];
    assert AllSpace(run) by {
      assert forall i :: 0 <= i < |run| ==> run[i] == ' ';
      PlainSpaceIsSpace();
    }
    LettersAreNotSpace();
    LettersAroundRun('a', run, 'b');
  }

  /** The length filter looks at the stripped piece, before whitespace runs
      are collapsed: an eleven-character piece `a`, nine spaces, `b` passes
      it and becomes the three-character article `a b`, shorter than the
      minimum the filter demands. */
  lemma ShortArticleAfterCollapse(text: string, p: string)
    requires p == "a         b"
    requires var pieces := SplitOn(text, Delimiter); |pieces| > FirstLabel && pieces[FirstLabel] == p
    ensures Article(FirstLabel, "a b") in GetArticles(text)
    ensures |"a b"| <= MinLength < |p|
  {
    LettersAreNotSpace();
    assert p[0] == 'a' && p[|p| - 1] == 'b';
    StripKeepsStripped(p);
    SpacedLettersCollapse(p);
    FirstPieceSurvives(text);
  }

  /** The first piece that may become an article does, once it passes the
      emptiness and length filters: no piece before it can share its text. */
  lemma FirstPieceSurvives(text: string)
    requires var pieces := SplitOn(text, Delimiter); Substantial(pieces, FirstLabel)
    ensures var pieces := SplitOn(text, Delimiter);
      Article(FirstLabel, Normalize(pieces[FirstLabel])) in GetArticles(text)
  {
    var pieces := SplitOn(text, Delimiter);
    assert Kept(pieces, FirstLabel);
    GetArticlesAre(text);
  }

  lemma ExampleOrder(scores: seq<nat>, rows: seq<nat>)
    requires scores == [10, 0, 9] && |rows| == 2
    requires InRange(rows, 3) && Distinct(rows) && NonIncreasing(scores, rows)
    requires forall p: nat, k :: p < 3 && p !in rows && 0 <= k < 2 ==> scores[p] <= scores[rows[k]]
    ensures rows == [0, 2]
  {
    var a, b := rows[0], rows[1];
    assert rows == [a, b];
    assert a < 3 && b < 3 && a != b && scores[a] >= scores[b];
    var p: nat := 3 - a - b;
    assert p < 3 && p != a && p != b && p !in rows;
    assert scores[p] <= scores[b];
    assert p == 1;
  }

  /** Three rows scoring 10, 0 and 9: the two best, in order, are the
      first and the last. */
  lemma ExampleTopRows(table: seq<Row>, query: seq<int>, rows: seq<nat>)
    requires SameDimension(table, query) && |table| == 3 && Scores(table, query) == [10, 0, 9]
    requires |rows| == 2 && TopRows(table, query, rows)
    ensures rows == [0, 2]
  {
    var scores := Scores(table, query);
    forall p: nat, k | p < 3 && p !in rows && 0 <= k < 2
      ensures scores[p] <= scores[rows[k]]
    {
      assert Score(table, query, p) <= Score(table, query, rows[k]);
    }
    ExampleOrder(scores, rows);
  }

  /** With those scores, asking for two answers gives the articles under
      the labels of the first and the last row. */
  lemma ExampleAnswer(table: seq<Row>, query: seq<int>, s: map<nat, string>)
    requires SameDimension(table, query) && LabelsHaveArticles(table, s)
    requires |table| == 3 && Scores(table, query) == [10, 0, 9]
    requires table[0].key == 0 && table[2].key == 2 && s[0] == "A" && s[2] == "C"
    ensures Ask(table, query, s, 2) == [Article(0, "A"), Article(2, "C")]
  {
    AskReturnsTopRows(table, query, s, 2);
    var r := Ask(table, query, s, 2);
    var rows :| |rows| == |r| && TopRows(table, query, rows) &&
      forall k :: 0 <= k < |r| ==> r[k] == Article(table[rows[k]].key, s[table[rows[k]].key]);
    ExampleTopRows(table, query, rows);
    ArticlesOfRows(table, s, rows, r);
  }

  /** The articles listed under the labels of rows 0 and 2. */
  lemma ArticlesOfRows(table: seq<Row>, s: map<nat, string>, rows: seq<nat>, r: seq<Article>)
    requires |table| == 3 && table[0].key == 0 && table[2].key == 2
    requires 0 in s && 2 in s && s[0] == "A" && s[2] == "C"
    requires rows == [0, 2] && |r| == 2
    requires forall k :: 0 <= k < |r| ==> r[k] == Article(table[rows[k]].key, s[table[rows[k]].key])
    ensures r == [Article(0, "A"), Article(2, "C")]
  {
    assert r[0] == Article(0, "A") && r[1] == Article(2, "C");
  }

  /** Rows `[10, 0]`, `[0, 10]` and `[9, 1]` labelled 0, 1 and 2, query
      `[1, 0]`: the scores are 10, 0 and 9, and the two best articles are
      those labelled 0 and 2, in that order. */
  lemma TwoBestOfThree(table: seq<Row>, query: seq<int>, s: map<nat, string>)
    requires table == [Row(0, [10, 0]), Row(1, [0, 10]), Row(2, [9, 1])]
    requires query == [1, 0] && s == map[0 := "A", 1 := "B", 2 := "C"]
    ensures SameDimension(table, query) && LabelsHaveArticles(table, s)
    ensures Ask(table, query, s, 2) == [Article(0, "A"), Article(2, "C")]
  {
    assert Scores(table, query) == [10, 0, 9];
    ExampleAnswer(table, query, s);
  }
}
