# BERT passage ranking: segmentation and ranking core

This project models the core of the passage-ranking demo app (`app_demo.py`) in Dafny and proves properties of the model:

- **Segmentation** (`get_articles`). The document text is cut at every `"\n\nARTICLE"` and each piece is stripped. Pieces labelled below 46 are dropped, then empty pieces, then pieces of 10 characters or fewer. Whitespace runs are collapsed to one space, and later repeats of an already seen text are dropped.
- **Ranking** (`ask`). Every row of the embedding table is scored by the absolute dot product of its vector with the query vector. Row labels are ordered by non-increasing score, the articles filed under those labels are looked up, and the first `n` are kept.
- **Display tests**. An answer is sent to the summariser when splitting it on `". "` gives more than three pieces. Its expander is titled `ARTICLE` followed by its first whitespace-separated token.

The modules:

| module | file | contents |
|---|---|---|
| `PyStrings` | `pystrings.dfy` | The Python string operations the core uses: `str.isspace`, `strip()`, `split(sep)`, `split()`, and the regular-expression replacement of `\s+` by one space. |
| `Segmenter` | `segmenter.dfy` | The series pipeline of `get_articles`, step by step. Also an independent definition of which piece survives under which label (`Substantial`, `Kept`, `Normalize`). |
| `Ranker` | `ranker.dfy` | Scores, the descending ordering, `.head(n)` and the label lookup. Also `TopRows`, the property any correct descending order has, however it breaks ties. |
| `Display` | `display.dfy` | The summarise test, the first token and the expander title. |
| `Scenarios` | `scenarios.dfy` | Two worked instances, proved from the general contracts. |

Modelling decisions:

- A pandas series of articles is a sequence of `Article(key, text)`, where `key` is the index label.
- The embedding table `X` is a sequence of `Row(key, embedding)`.
- The series `s`, as `s.loc` reads it, is a `map` from label to text (`Ranker.ByLabel`).
- Vectors hold integers, so scores are exact.
- `np.dot` raises on a dimension mismatch, and `s.loc` raises `KeyError` on a missing label. These two failures are preconditions (`SameDimension`, `LabelsHaveArticles`).
- On an embedding table with no rows, `X.apply(...)` returns a frame rather than a series of scores, and its `sort_values(ascending=False)` raises `TypeError` because no column is named. A non-empty table is therefore a precondition of `Ask`, like the two failures above.
- `t.split()[0]` raises `IndexError` on a text with no word. That failure is the `None` result of `FirstToken`.
- `.head(n)` follows pandas for every `n`, including a negative one, which keeps all but the last `-n` rows. The page itself always passes 3.
- The length filter at line 80 measures the stripped piece before its whitespace is collapsed at line 81. So an article can end up with 10 characters or fewer: `Scenarios.ShortArticleAfterCollapse` exhibits one. The model follows the code here. So a final article text is not guaranteed to be longer than 10 characters; only the stripped piece it came from is (`Segmenter.ArticleTextsAreClean`).
- `.str.replace('\s+', ' ')` is modelled as a regular-expression replacement. That was the pandas default when the app was written; pandas 2 made literal replacement the default.

## Model

| member | source | states |
|---|---|---|
| PyStrings.LeadingSpace | app_demo.py:77 | `lstrip()` cuts exactly the leading whitespace run: every character before the cut is whitespace, and the character at the cut, if any, is not. |
| PyStrings.TrailingSpace | app_demo.py:77 | `rstrip()` cuts exactly the trailing whitespace run: every character from the cut on is whitespace, and the character just before it, if any, is not. |
| PyStrings.Strip | app_demo.py:77 | `strip()` never lengthens the text and leaves no whitespace at either edge. Its result is empty exactly when the input is all whitespace. |
| PyStrings.StripShape | app_demo.py:77 | `strip()` gives a contiguous slice of the input with only whitespace cut from either end. |
| PyStrings.StripKeepsStripped | app_demo.py:77 | A text with no whitespace at either edge is its own `strip()`. |
| PyStrings.TrimStartSkipsRun | app_demo.py:77 | Stripping the front skips a whole leading whitespace run and stops at the first non-whitespace character. |
| PyStrings.SplitOn | app_demo.py:74 | `split(sep)` always yields at least one piece. |
| PyStrings.SplitJoin | app_demo.py:74 | Joining the pieces of `split(sep)` with `sep` gives back the original text. |
| PyStrings.SplitPiecesExcludeSeparator | app_demo.py:74 | No piece of `split(sep)` contains `sep`. |
| PyStrings.CollapseSpace | app_demo.py:81 | The replacement never lengthens the text and is empty exactly when the input is. What it does to whitespace is stated by `CollapseSpaceEdges`, `CollapseSpaceSingleSpaced`, `CollapseSpaceRun` and `CollapseIsJoinedWords`. |
| PyStrings.CollapseSpaceEdges | app_demo.py:81 | The replacement is empty exactly when the input is. It keeps whether the first and the last character are whitespace. It never lengthens the text. |
| PyStrings.CollapseSpaceSingleSpaced | app_demo.py:81 | After the replacement, every whitespace character is a plain space and no two are adjacent. |
| PyStrings.CollapseSpaceRun | app_demo.py:81 | A whitespace run of any length before a word becomes one space. |
| PyStrings.CollapseIsJoinedWords | app_demo.py:81 | For a text with no whitespace at its edges, the replacement equals its words, as `split()` gives them, joined by single spaces. |
| PyStrings.Words | app_demo.py:144 | Every word of `split()` is non-empty and free of whitespace. |
| PyStrings.WordsShape | app_demo.py:144 | `split()` gives no words exactly when the text is all whitespace. |
| Segmenter.StrippedSeries | app_demo.py:74-77 | The series has one entry per piece, labelled 0, 1, … in order. The entry under label `k` is piece `k` stripped. |
| Segmenter.Where | app_demo.py:78-80 | A boolean `.loc` keeps exactly the entries the mask accepts and keeps labels ascending. |
| Segmenter.CollapseAll | app_demo.py:81 | `.str.replace` keeps every label and replaces each text by its collapsed form. |
| Segmenter.DropDuplicates | app_demo.py:82 | `drop_duplicates` keeps exactly the first entry with each text. The texts kept are pairwise distinct, and label order is preserved. |
| Segmenter.CandidatesAre | app_demo.py:74-81 | Before de-duplication, the series holds exactly the pieces labelled 46 or more whose stripped text is non-empty and longer than 10 characters, each with its normalised text, in label order. |
| Segmenter.FirstOfTextIsKept | app_demo.py:82 | A candidate that is the first with its text is a kept piece. |
| Segmenter.KeptIsFirstOfText | app_demo.py:82 | A kept piece is the first candidate with its text. |
| Segmenter.DropDuplicatesKeepsKept | app_demo.py:82 | After de-duplication, an article is present exactly when its piece is kept. |
| Segmenter.GetArticles | app_demo.py:72-85 | `get_articles` returns labels in ascending order and texts without repeats. Which pieces survive is stated by `GetArticlesAre`. |
| Segmenter.GetArticlesAre | app_demo.py:72-85 | `get_articles` returns labels in ascending order and texts without repeats. Label `k` is present exactly when piece `k` is labelled 46 or more, its stripped text is non-empty and longer than 10 characters, and no earlier such piece normalises to the same text. Its text is then the piece stripped and collapsed. |
| Segmenter.ArticleCountBound | app_demo.py:74-78 | There are no more articles than pieces labelled 46 or more. In particular, a document with 46 pieces or fewer has none. |
| Segmenter.NormalizeIsClean | app_demo.py:77-81 | A stripped and collapsed piece has no whitespace at its edges and is single-spaced. If the stripped piece was non-empty, it has a word. |
| Segmenter.ArticleTextsAreClean | app_demo.py:72-85 | Every article's stripped piece is longer than 10 characters. Every article's text has no edge whitespace, is single-spaced and holds a word. |
| Ranker.ByLabel | app_demo.py:103 | Every article's label is in the lookup table. Every label there maps to the text of an article with that label. |
| Ranker.ByLabelFindsEach | app_demo.py:103 | With ascending labels, looking up an article's label gives its own text. |
| Ranker.Scores | app_demo.py:97-99 | There is one score per row of the table, and entry `i` is the absolute dot product of row `i` with the query (`Score`). |
| Ranker.Insert | app_demo.py:100 | Insertion adds one position to the order and loses none. |
| Ranker.InsertKeepsOrder | app_demo.py:100 | Insertion keeps the positions in range and the scores non-increasing. |
| Ranker.InsertKeepsDistinct | app_demo.py:100 | Inserting a new position keeps positions pairwise distinct. |
| Ranker.SortDescending | app_demo.py:100 | `sort_values(ascending=False)` orders every position exactly once, by non-increasing score. |
| Ranker.Head | app_demo.py:103 | `.head(n)` is a prefix of the series: `n` entries, or all when fewer, or all but the last `-n` for a negative `n`. |
| Ranker.RankedArticles | app_demo.py:103 | `s.loc[sorted_index.index]` has one entry per row of the table. The entry under each row's label is there, and every entry holds the text the series has under its label. |
| Ranker.Ask | app_demo.py:97-103 | On a non-empty table, `ask` returns as many entries as `.head(n)` keeps, each holding the text the series has under its label. The order is stated by `AskReturnsTopRows`. |
| Ranker.RankingPrefixIsTop | app_demo.py:97-103 | Every prefix of the ordering lists distinct rows by non-increasing score. No row left out scores above a listed one. |
| Ranker.AskReturnsTopRows | app_demo.py:97-103 | On a table with at least one row, `ask` returns as many articles as `.head(n)` keeps of the table. They are the articles under the labels of top-scoring distinct rows, best first. |
| Ranker.AskAnswersAreArticles | app_demo.py:103 | Over a series built by `get_articles`, every answer is one of its articles, with its label and text. |
| Ranker.TopScoresDetermined | app_demo.py:100 | Any two lists of top rows of the same length have equal scores place by place. So the answer is fixed up to the order among equal scores. |
| Display.SplitCountsBreaks | app_demo.py:145 | `t.split('. ')` gives one piece more than `t` has occurrences of `". "`. |
| Display.ShouldSummarise | app_demo.py:145 | An answer is summarised exactly when it has at least three occurrences of `". "`. |
| Display.FirstToken | app_demo.py:144 | `t.split()[0]` fails exactly on an all-whitespace text. Otherwise it is non-empty and free of whitespace. |
| Display.FirstTokenIsLeadingWord | app_demo.py:144 | The first token is the run that follows the leading whitespace and ends at whitespace or at the end of the text. |
| Display.ExpanderTitle | app_demo.py:144 | The title exists exactly when the text is not all whitespace. It is `"ARTICLE "` followed by the first token. |
| Display.AnswersHaveTitles | app_demo.py:142-144 | Every answer of `ask` over the series of `get_articles` is one of its articles and has an expander title. So the page never hits `IndexError`. |
| Scenarios.ShortArticleAfterCollapse | app_demo.py:80-81 | A piece `a`, nine spaces, `b` passes the length filter and becomes the 3-character article `a b`. |
| Scenarios.TwoBestOfThree | app_demo.py:97-103 | Rows `[10, 0]`, `[0, 10]` and `[9, 1]` with query `[1, 0]` and `n = 2` give the articles labelled 0 and 2, in that order. |

## Left out

- Model loading (`app_demo.py:33-43`): calls into TensorFlow Hub and sentence-transformers.
- PDF extraction (`app_demo.py:45-69`): file and library I/O. The document text is an input of `GetArticles`.
- The query embedding (`app_demo.py:92-95`): a call into the selected model. The query vector is an input of `Ask`.
- The summariser (`app_demo.py:106-108`): a call into an extractive summarisation model. Only the test that decides whether to call it is modelled.
- Loading the embedding table (`app_demo.py:110-111`): reading a pickle file. The table is an input.
- The Streamlit page (`app_demo.py:114-148`), except the two tests at lines 144-145: widgets, layout and caching have no logic to verify.
- Floating point: embeddings are integer vectors, so rounding in `np.dot` is not modelled.
- Ranker.SortDescending: pandas sorts with an unstable quicksort, while the model uses an insertion sort. The model promises no order among equal scores. Everything stated about `ask` goes through `TopRows`, which any correct descending order satisfies.
- The skip count 46 is the constant `FirstLabel`, as the code hard-codes it. It is not a parameter.
