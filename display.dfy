/** The two tests the page applies to each answer before showing it: whether
    the article is long enough to be sent to the summariser, and the title of
    the expander that holds it. The summariser itself is a call into a
    language model and is not modelled. */
module Display {
  import opened PyStrings
  import opened Segmenter
  import opened Ranker

  /** The sentence break the length test splits on. */
  const SentenceBreak: string := ". "

  /** More pieces than this and the article is summarised. */
  const SummaryThreshold: nat := 3

  /** `len(t.split('. ')) > 3`: an article is summarised exactly when it
      holds at least three sentence breaks. */
  function ShouldSummarise(t: string): (r: bool)
    ensures r <==> Occurrences(t, SentenceBreak) >= 3
  {
    SplitCountsBreaks(t);
    |SplitOn(t, SentenceBreak)| > SummaryThreshold
  }

  /** Splitting on the sentence break gives one piece more than there are
      breaks: an occurrence of `". "` cannot overlap another. */
  lemma {:induction false} SplitCountsBreaks(t: string)
    ensures |SplitOn(t, SentenceBreak)| == Occurrences(t, SentenceBreak) + 1
    decreases |t|
  {
    if |t| < 2 {
      if t != [] {
        assert !StartsWith(t, SentenceBreak);
        assert t[1..] == [];
      }
    } else if t[..2] == SentenceBreak {
      SplitCountsBreaks(t[2..]);
      assert t[1..][1..] == t[2..];
      assert !StartsWith(t[1..], SentenceBreak) by {
        assert t[1..][0] == ' ';
      }
    } else {
      SplitCountsBreaks(t[1..]);
      assert !StartsWith(t, SentenceBreak);
    }
  }

  /** `t.split()[0]`, or `None` where Python raises `IndexError` because
      the text has no word. */
  function FirstToken(t: string): (r: Option<string>)
    ensures r == None <==> AllSpace(t)
    ensures r.Some? ==> r.value != [] && NoSpace(r.value)
  {
    WordsShape(t);
    var ws := Words(t);
    if ws == [] then None else Some(ws[0])
  }

  /** `f'ARTICLE {t.split()[0]}'`: missing exactly when the text has no
      token, and otherwise `"ARTICLE "` followed by the first token. */
  function ExpanderTitle(t: string): (r: Option<string>)
    ensures r.Some? <==> !AllSpace(t)
    ensures r.Some? ==> |r.value| > 8 && r.value[..8] == "ARTICLE " && FirstToken(t) == Some(r.value[8..])
  {
    match FirstToken(t)
    case None => None
    case Some(w) => Some("ARTICLE " + w)
  }

  /** The first token is the whitespace-free run that follows the leading
      whitespace, ending at whitespace or at the end of the text. */
  lemma FirstTokenIsLeadingWord(t: string)
    ensures FirstToken(t).Some? ==>
      var w := FirstToken(t).value;
      exists i: nat :: i + |w| <= |t| && AllSpace(t[..i]) && t[i..][..|w|] == w
                       && (i + |w| == |t| || IsSpace(t[i + |w|]))
  {
    var i := LeadingSpace(t);
    var u := t[i..];
    if u != [] {
      var n := WordEnd(u);
      LeadingWord(t, u, n);
      assert AllSpace(t[..i]) by {
        assert forall k :: 0 <= k < i ==> t[..i][k] == t[k];
      }
      assert n < |u| ==> u[n] == t[i + n];
      assert i + n <= |t| && t[i..][..n] == u[..n];
    }
  }

  /** After the leading whitespace of `t` starts its first word. */
  lemma LeadingWord(t: string, u: string, n: nat)
    requires u == TrimStart(t) && u != [] && n == WordEnd(u)
    ensures Words(t) != [] && Words(t)[0] == u[..n]
  {
  }

  /** Every answer `ask` gives over the series `get_articles` builds is an
      article of that series and has an expander title: normalised article
      texts always hold a word, so the page never hits the `IndexError`. */
  lemma AnswersHaveTitles(text: string, table: seq<Row>, query: seq<int>, n: int)
    requires SameDimension(table, query) && table != []
    requires LabelsHaveArticles(table, ByLabel(GetArticles(text)))
    ensures forall a :: a in Ask(table, query, ByLabel(GetArticles(text)), n) ==>
      a in GetArticles(text) && ExpanderTitle(a.text).Some?
  {
    var xs := GetArticles(text);
    AskAnswersAreArticles(xs, table, query, n);
    ArticleTextsAreClean(text);
  }
}
