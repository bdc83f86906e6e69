/** `get_articles`: cuts the text extracted from the agreement into
    articles. The text is split on the literal "\n\nARTICLE"; every piece is
    stripped; the pieces labelled before 46 (front matter) are dropped, and
    so are the empty ones and those of at most 10 characters; whitespace
    runs are collapsed to one space; and repeated texts are dropped, keeping
    the first. Each surviving article keeps the label its piece had in the
    split. */
module Segmenter {
  import opened PyStrings

  /** The literal the document text is split on. */
  const Delimiter: string := "\n\nARTICLE"

  /** Label of the first piece that can become an article. */
  const FirstLabel: nat := 46

  /** A stripped piece must be longer than this to be kept. */
  const MinLength: nat := 10

  /** One entry of a pandas Series of strings: its index label and its value. */
  datatype Article = Article(key: nat, text: string)

  /** Labels strictly increase along the series. */
  predicate Ascending(xs: seq<Article>) {
    forall i, j :: 0 <= i < j < |xs| ==> xs[i].key < xs[j].key
  }

  /** No text occurs twice in the series. */
  predicate DistinctTexts(xs: seq<Article>) {
    forall i, j :: 0 <= i < j < |xs| ==> xs[i].text != xs[j].text
  }

  // ---------------------------------------------------------------------
  // The steps of the method chain

  /** `pd.Series(pieces).str.strip()`: a RangeIndex labels the pieces
      0, 1, 2, ... and every value is stripped. */
  function StrippedSeries(pieces: seq<string>): (r: seq<Article>)
    ensures |r| == |pieces| && Ascending(r)
    ensures forall a :: a in r <==> a.key < |pieces| && a.text == Strip(pieces[a.key])
  {
    var r := seq(|pieces|, i requires 0 <= i < |pieces| => Article(i, Strip(pieces[i])));
    assert forall a: Article :: a in r <==> a.key < |pieces| && a.text == Strip(pieces[a.key]) by {
      forall a: Article ensures a in r <==> a.key < |pieces| && a.text == Strip(pieces[a.key]) {
        if a.key < |pieces| && a.text == Strip(pieces[a.key]) {
          assert r[a.key] == a;
        }
      }
    }
    r
  }

  /** `.loc[mask]`: the entries the mask selects, in order, labels kept. */
  function Where(xs: seq<Article>, keep: Article -> bool): (r: seq<Article>)
    ensures forall a :: a in r <==> a in xs && keep(a)
    ensures Ascending(xs) ==> Ascending(r)
  {
    if xs == [] then []
    else
      var rest := Where(xs[1..], keep);
      assert Ascending(xs) ==> forall a :: a in rest ==> xs[0].key < a.key by {
        if Ascending(xs) {
          forall a | a in rest ensures xs[0].key < a.key {
            var k :| 1 <= k < |xs| && xs[k] == a;
          }
        }
      }
      if keep(xs[0]) then [xs[0]] + rest else rest
  }

  /** `.str.replace('\s+', ' ')` with regular-expression matching. */
  function CollapseAll(xs: seq<Article>): (r: seq<Article>)
    ensures |r| == |xs|
    ensures forall i :: 0 <= i < |r| ==> r[i].key == xs[i].key
    ensures forall i :: 0 <= i < |r| ==> r[i].text == CollapseSpace(xs[i].text)
  {
    seq(|xs|, i requires 0 <= i < |xs| => Article(xs[i].key, CollapseSpace(xs[i].text)))
  }

  /** No earlier entry has the same text as entry `i`. */
  predicate FirstOfText(xs: seq<Article>, i: int)
    requires 0 <= i < |xs|
  {
    forall j :: 0 <= j < i ==> xs[j].text != xs[i].text
  }

  /** `.drop_duplicates()`: keeps exactly the entries whose text has not
      occurred before, in order. */
  function DropDuplicates(xs: seq<Article>): (r: seq<Article>)
    ensures forall i :: 0 <= i < |xs| && FirstOfText(xs, i) ==> xs[i] in r
    ensures forall a :: a in r ==> exists i :: 0 <= i < |xs| && xs[i] == a && FirstOfText(xs, i)
    ensures DistinctTexts(r)
    ensures Ascending(xs) ==> Ascending(r)
    decreases |xs|
  {
    if xs == [] then []
    else
      var n := |xs| - 1;
      var init := DropDuplicates(xs[..n]);
      assert DeDuplicates(xs[..n], init);
      FirstOfTextInPrefix(xs, n, init);
      if FirstOfText(xs, n) then
        KeepLast(xs, n, init);
        init + [xs[n]]
      else
        DropLast(xs, n, init);
        init
  }

  /** The four properties `drop_duplicates` promises of its result `r`. */
  predicate DeDuplicates(xs: seq<Article>, r: seq<Article>) {
    && (forall i :: 0 <= i < |xs| && FirstOfText(xs, i) ==> xs[i] in r)
    && (forall a :: a in r ==> exists i :: 0 <= i < |xs| && xs[i] == a && FirstOfText(xs, i))
    && DistinctTexts(r)
    && (Ascending(xs) ==> Ascending(r))
  }

  /** A last entry that is first with its text is appended. */
  lemma KeepLast(xs: seq<Article>, n: nat, init: seq<Article>)
    requires n == |xs| - 1 && FirstOfText(xs, n) && DeDuplicates(xs[..n], init)
    requires forall i :: 0 <= i < n ==> (FirstOfText(xs[..n], i) <==> FirstOfText(xs, i))
    requires forall a :: a in init ==> exists i :: 0 <= i < n && xs[i] == a && FirstOfText(xs, i)
    ensures DeDuplicates(xs, init + [xs[n]])
  {
    var r := init + [xs[n]];
    forall i | 0 <= i < |xs| && FirstOfText(xs, i) ensures xs[i] in r {
      if i < n {
        assert xs[..n][i] == xs[i];
      }
    }
    AppendNewText(xs, n, init);
  }

  /** A last entry whose text occurred before is dropped. */
  lemma DropLast(xs: seq<Article>, n: nat, init: seq<Article>)
    requires n == |xs| - 1 && !FirstOfText(xs, n) && DeDuplicates(xs[..n], init)
    requires forall i :: 0 <= i < n ==> (FirstOfText(xs[..n], i) <==> FirstOfText(xs, i))
    requires forall a :: a in init ==> exists i :: 0 <= i < n && xs[i] == a && FirstOfText(xs, i)
    ensures DeDuplicates(xs, init)
  {
    forall i | 0 <= i < |xs| && FirstOfText(xs, i) ensures xs[i] in init {
      assert i != n;
      assert xs[..n][i] == xs[i];
    }
    PrefixAscending(xs, n);
  }

  /** A prefix of an ascending series is ascending. */
  lemma PrefixAscending(xs: seq<Article>, n: nat)
    requires n <= |xs|
    ensures Ascending(xs) ==> Ascending(xs[..n])
  {
    assert forall i :: 0 <= i < n ==> xs[..n][i] == xs[i];
  }

  /** Entry `i` of a prefix is first with its text there exactly when it is
      in the whole series; so what de-duplicating the prefix keeps is kept
      from the whole series. */
  lemma FirstOfTextInPrefix(xs: seq<Article>, n: nat, init: seq<Article>)
    requires n < |xs|
    requires forall a :: a in init ==> exists i :: 0 <= i < n && xs[..n][i] == a && FirstOfText(xs[..n], i)
    ensures forall i :: 0 <= i < n ==> (FirstOfText(xs[..n], i) <==> FirstOfText(xs, i))
    ensures forall a :: a in init ==> exists i :: 0 <= i < n && xs[i] == a && FirstOfText(xs, i)
  {
    forall i | 0 <= i < n ensures FirstOfText(xs[..n], i) <==> FirstOfText(xs, i) {
      assert forall j :: 0 <= j < i ==> xs[..n][j] == xs[j];
    }
    forall a | a in init ensures exists i :: 0 <= i < n && xs[i] == a && FirstOfText(xs, i) {
      var i :| 0 <= i < n && xs[..n][i] == a && FirstOfText(xs[..n], i);
      assert xs[i] == a && FirstOfText(xs, i);
    }
  }

  /** Appending the last entry, first with its text, to the kept entries of
      the earlier ones keeps the texts distinct and the labels ascending. */
  lemma AppendNewText(xs: seq<Article>, n: nat, init: seq<Article>)
    requires n == |xs| - 1 && FirstOfText(xs, n) && DistinctTexts(init)
    requires Ascending(xs[..n]) ==> Ascending(init)
    requires forall a :: a in init ==> exists i :: 0 <= i < n && xs[i] == a && FirstOfText(xs, i)
    ensures DistinctTexts(init + [xs[n]])
    ensures Ascending(xs) ==> Ascending(init + [xs[n]])
  {
    var r := init + [xs[n]];
    forall a | a in init ensures a.text != xs[n].text {
      var i :| 0 <= i < n && xs[i] == a && FirstOfText(xs, i);
    }
    assert forall k :: 0 <= k < |init| ==> r[k] == init[k] && init[k] in init;
    if Ascending(xs) {
      PrefixAscending(xs, n);
      forall a | a in init ensures a.key < xs[n].key {
        var i :| 0 <= i < n && xs[i] == a && FirstOfText(xs, i);
      }
    }
  }

  // ---------------------------------------------------------------------
  // get_articles

  /** The entries that survive every step before `drop_duplicates`. */
  function Candidates(pieces: seq<string>): seq<Article> {
    var stripped := StrippedSeries(pieces);
    var fromFirst := Where(stripped, (a: Article) => a.key >= FirstLabel);
    var nonEmpty := Where(fromFirst, (a: Article) => a.text != []);
    var long := Where(nonEmpty, (a: Article) => |a.text| > MinLength);
    CollapseAll(long)
  }

  /** `get_articles(text)`: labels come out ascending and texts without
      repeats; which pieces survive is `GetArticlesAre`. */
  function GetArticles(text: string): (r: seq<Article>)
    ensures Ascending(r) && DistinctTexts(r)
  {
    CandidatesAre(SplitOn(text, Delimiter));
    DropDuplicates(Candidates(SplitOn(text, Delimiter)))
  }

  // ---------------------------------------------------------------------
  // What get_articles promises, stated on the split pieces

  /** The text a piece becomes: stripped, then whitespace runs collapsed. */
  function Normalize(piece: string): string {
    CollapseSpace(Strip(piece))
  }

  /** Piece `i` passes the position, emptiness and length filters. */
  predicate Substantial(pieces: seq<string>, i: nat) {
    FirstLabel <= i < |pieces| && Strip(pieces[i]) != [] && |Strip(pieces[i])| > MinLength
  }

  /** Piece `i` passes the filters and no earlier piece that passes them
      normalizes to the same text. */
  predicate Kept(pieces: seq<string>, i: nat) {
    && Substantial(pieces, i)
    && forall j: nat :: j < i && Substantial(pieces, j) ==> Normalize(pieces[j]) != Normalize(pieces[i])
  }

  /** The article piece `i` would become. */
  predicate IsCandidate(pieces: seq<string>, a: Article) {
    Substantial(pieces, a.key) && a.text == Normalize(pieces[a.key])
  }

  /** The entries before de-duplication are exactly the normalized
      substantial pieces, in label order. */
  lemma CandidatesAre(pieces: seq<string>)
    ensures Ascending(Candidates(pieces))
    ensures forall a :: a in Candidates(pieces) <==> IsCandidate(pieces, a)
  {
    var stripped := StrippedSeries(pieces);
    var fromFirst := Where(stripped, (a: Article) => a.key >= FirstLabel);
    var nonEmpty := Where(fromFirst, (a: Article) => a.text != []);
    var long := Where(nonEmpty, (a: Article) => |a.text| > MinLength);
    assert forall a: Article :: a in long <==> a.key < |pieces| && a.text == Strip(pieces[a.key]) && Substantial(pieces, a.key);
    CollapsedCandidates(pieces, long);
  }

  /** Collapsing the stripped substantial pieces gives the candidates. */
  lemma CollapsedCandidates(pieces: seq<string>, long: seq<Article>)
    requires forall a: Article :: a in long <==> a.key < |pieces| && a.text == Strip(pieces[a.key]) && Substantial(pieces, a.key)
    ensures forall a :: a in CollapseAll(long) <==> IsCandidate(pieces, a)
  {
    var c := CollapseAll(long);
    forall a: Article ensures a in c <==> IsCandidate(pieces, a) {
      if a in c {
        var k :| 0 <= k < |c| && c[k] == a;
        assert long[k] in long;
      }
      if IsCandidate(pieces, a) {
        var b := Article(a.key, Strip(pieces[a.key]));
        assert b in long;
        var k :| 0 <= k < |long| && long[k] == b;
        assert c[k] == a;
      }
    }
  }

  ghost predicate CandidateSeries(pieces: seq<string>, c: seq<Article>) {
    Ascending(c) && forall a :: a in c <==> IsCandidate(pieces, a)
  }

  /** In the candidate series, the first entry with its text is a kept
      piece. */
  lemma FirstOfTextIsKept(pieces: seq<string>, c: seq<Article>, i: nat)
    requires CandidateSeries(pieces, c) && i < |c| && FirstOfText(c, i)
    ensures Kept(pieces, c[i].key)
  {
    var a := c[i];
    assert IsCandidate(pieces, a);
    forall j: nat | j < a.key && Substantial(pieces, j)
      ensures Normalize(pieces[j]) != Normalize(pieces[a.key])
    {
      var b := Article(j, Normalize(pieces[j]));
      assert IsCandidate(pieces, b);
      var p :| 0 <= p < |c| && c[p] == b;
      assert p < i;
    }
  }

  /** In the candidate series, the entry of a kept piece is the first with
      its text. */
  lemma KeptIsFirstOfText(pieces: seq<string>, c: seq<Article>, i: nat)
    requires CandidateSeries(pieces, c) && i < |c| && Kept(pieces, c[i].key)
    ensures FirstOfText(c, i)
  {
    var a := c[i];
    assert IsCandidate(pieces, a);
    forall j | 0 <= j < i ensures c[j].text != a.text {
      assert c[j] in c;
      assert IsCandidate(pieces, c[j]);
    }
  }

  /** De-duplicating the candidate series leaves exactly the kept pieces. */
  lemma DropDuplicatesKeepsKept(pieces: seq<string>, c: seq<Article>)
    requires CandidateSeries(pieces, c)
    ensures forall a :: a in DropDuplicates(c) <==> IsCandidate(pieces, a) && Kept(pieces, a.key)
  {
    var r := DropDuplicates(c);
    forall a ensures a in r <==> IsCandidate(pieces, a) && Kept(pieces, a.key) {
      if a in r {
        var i :| 0 <= i < |c| && c[i] == a && FirstOfText(c, i);
        FirstOfTextIsKept(pieces, c, i);
        assert IsCandidate(pieces, a);
      }
      if IsCandidate(pieces, a) && Kept(pieces, a.key) {
        var i :| 0 <= i < |c| && c[i] == a;
        KeptIsFirstOfText(pieces, c, i);
      }
    }
  }

  /** The articles are exactly the kept pieces, normalized, each under the
      label it had in the split, in label order, texts pairwise distinct. */
  lemma GetArticlesAre(text: string)
    ensures var pieces := SplitOn(text, Delimiter);
      var r := GetArticles(text);
      && Ascending(r)
      && DistinctTexts(r)
      && forall a :: a in r <==> a.key < |pieces| && Kept(pieces, a.key) && a.text == Normalize(pieces[a.key])
  {
    var pieces := SplitOn(text, Delimiter);
    CandidatesAre(pieces);
    DropDuplicatesKeepsKept(pieces, Candidates(pieces));
  }

  /** Keys that strictly increase within `lo..hi` number at most `hi - lo`. */
  lemma {:induction false} AscendingKeysBound(xs: seq<Article>, lo: int, hi: int)
    requires Ascending(xs)
    requires forall a :: a in xs ==> lo <= a.key < hi
    ensures xs == [] || lo + |xs| <= hi
  {
    if xs != [] {
      var rest := xs[1..];
      assert forall a :: a in rest ==> xs[0].key + 1 <= a.key < hi by {
        forall a | a in rest ensures xs[0].key + 1 <= a.key {
          var k :| 1 <= k < |xs| && xs[k] == a;
        }
      }
      AscendingKeysBound(rest, xs[0].key + 1, hi);
      assert xs[0] in xs;
    }
  }

  /** There are at most as many articles as pieces from label 46 on; in
      particular a document that splits into 46 pieces or fewer has none. */
  lemma ArticleCountBound(text: string)
    ensures var pieces := SplitOn(text, Delimiter);
      |GetArticles(text)| <= if |pieces| > FirstLabel then |pieces| - FirstLabel else 0
  {
    GetArticlesAre(text);
    var pieces := SplitOn(text, Delimiter);
    AscendingKeysBound(GetArticles(text), FirstLabel, |pieces|);
  }

  /** A normalized piece has no whitespace at either end and no whitespace
      but single plain spaces; unless the piece is all whitespace it has a
      first word. */
  lemma NormalizeIsClean(piece: string)
    ensures var t := Normalize(piece);
      && NoEdgeSpace(t) && SingleSpaced(t)
      && (Strip(piece) != [] ==> Words(t) != [])
  {
    var s := Strip(piece);
    var t := CollapseSpace(s);
    StripShape(piece);
    CollapseSpaceEdges(s);
    CollapseSpaceSingleSpaced(s);
    WordsShape(t);
    if s != [] {
      assert t != [] && !IsSpace(t[0]);
    }
  }

  /** Every article was a piece that, once stripped, had more than 10
      characters, and its text has no whitespace at either end, no
      whitespace but single plain spaces, and at least one word. */
  lemma ArticleTextsAreClean(text: string)
    ensures var pieces := SplitOn(text, Delimiter);
      forall a :: a in GetArticles(text) ==>
        && |Strip(pieces[a.key])| > MinLength
        && NoEdgeSpace(a.text) && SingleSpaced(a.text) && Words(a.text) != []
  {
    GetArticlesAre(text);
    var pieces := SplitOn(text, Delimiter);
    forall a | a in GetArticles(text)
      ensures NoEdgeSpace(a.text) && SingleSpaced(a.text) && Words(a.text) != []
    {
      NormalizeIsClean(pieces[a.key]);
    }
  }
}
