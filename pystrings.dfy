/** The few Python string operations the demo relies on: `str.isspace`,
    `str.strip()`, `str.split(sep)`, `str.split()` and the regular-expression
    substitution of `\s+` by a single space. Strings are `seq<char>`, so
    the model restricts them to Unicode scalar values; a Python `str` may
    also hold lone surrogates. */
module PyStrings {

  datatype Option<T> = None | Some(value: T)

  /** Python's whitespace characters: the set shared by `str.isspace`,
      `str.strip()`, `str.split()` and the `\s` class of a `str` regular
      expression. */
  const Whitespace: set<char> := {
    ' ', '\t', '\n', '\U{0B}', '\U{0C}', '\r', '\U{1C}', '\U{1D}', '\U{1E}', '\U{1F}',
    '\U{85}', '\U{A0}', '\U{1680}', '\U{2000}', '\U{2001}', '\U{2002}', '\U{2003}',
    '\U{2004}', '\U{2005}', '\U{2006}', '\U{2007}', '\U{2008}', '\U{2009}', '\U{200A}',
    '\U{2028}', '\U{2029}', '\U{202F}', '\U{205F}', '\U{3000}'
  }

  predicate IsSpace(c: char) {
    c in Whitespace
  }

  /** The plain space is whitespace (stated once, so that proofs need not
      search the whitespace set for it). */
  lemma PlainSpaceIsSpace()
    ensures IsSpace(' ')
  {
  }

  predicate AllSpace(s: string) {
    forall i :: 0 <= i < |s| ==> IsSpace(s[i])
  }

  predicate NoSpace(s: string) {
    forall i :: 0 <= i < |s| ==> !IsSpace(s[i])
  }

  /** Neither the first nor the last character is whitespace. */
  predicate NoEdgeSpace(s: string) {
    s == [] || (!IsSpace(s[0]) && !IsSpace(s[|s| - 1]))
  }

  /** Every whitespace character is a plain space and no two whitespace
      characters are adjacent. */
  predicate SingleSpaced(s: string) {
    && (forall i :: 0 <= i < |s| && IsSpace(s[i]) ==> s[i] == ' ')
    && (forall i, j :: 0 <= i < |s| && 0 <= j < |s| && j == i + 1 && IsSpace(s[i]) ==> !IsSpace(s[j]))
  }

  // ---------------------------------------------------------------------
  // str.strip()

  /** The length of the leading whitespace run: everything before it is
      whitespace, and the character at it, if any, is not. */
  function LeadingSpace(s: string): (n: nat)
    ensures n <= |s|
    ensures forall i :: 0 <= i < n ==> IsSpace(s[i])
    ensures n == |s| || !IsSpace(s[n])
    decreases |s|
  {
    if s != [] && IsSpace(s[0]) then
      var m := LeadingSpace(s[1..]);
      assert forall i :: 1 <= i < m + 1 ==> s[i] == s[1..][i - 1];
      m + 1
    else 0
  }

  /** Where the trailing whitespace run starts: everything from it on is
      whitespace, and the character just before it, if any, is not. */
  function TrailingSpace(s: string): (n: nat)
    ensures n <= |s|
    ensures forall i :: n <= i < |s| ==> IsSpace(s[i])
    ensures n == 0 || !IsSpace(s[n - 1])
    decreases |s|
  {
    if s != [] && IsSpace(s[|s| - 1]) then
      var m := TrailingSpace(s[..|s| - 1]);
      assert forall i :: m <= i < |s| - 1 ==> s[i] == s[..|s| - 1][i];
      m
    else |s|
  }

  /** `str.lstrip()`. */
  function TrimStart(s: string): string {
    s[LeadingSpace(s)..]
  }

  /** `str.rstrip()`. */
  function TrimEnd(s: string): string {
    s[..TrailingSpace(s)]
  }

  /** `str.strip()`. */
  function Strip(s: string): (r: string)
    ensures |r| <= |s| && NoEdgeSpace(r)
    ensures r == [] <==> AllSpace(s)
  {
    var i := LeadingSpace(s);
    var j := TrailingSpace(s[i..]);
    StrippedEdges(s, i, j);
    StrippedEmpty(s, i, j);
    TrimEnd(TrimStart(s))
  }

  /** `str.strip()` returns the part of `s` left between a maximal leading
      and a maximal trailing whitespace run: it is a slice of `s`, and only
      whitespace is cut off. */
  lemma StripShape(s: string)
    ensures exists i :: 0 <= i <= |s| - |Strip(s)| && Strip(s) == s[i..i + |Strip(s)|]
                        && AllSpace(s[..i]) && AllSpace(s[i + |Strip(s)|..])
  {
    var i := LeadingSpace(s);
    var j := TrailingSpace(s[i..]);
    assert Strip(s) == s[i..][..j] == s[i..i + j];
    StrippedCutOffs(s, i, j);
  }

  lemma StrippedEdges(s: string, i: nat, j: nat)
    requires i == LeadingSpace(s) && j == TrailingSpace(s[i..])
    ensures NoEdgeSpace(s[i..][..j])
  {
    var t := s[i..];
    if j > 0 {
      assert t[0] == s[i];
      assert t[..j][j - 1] == t[j - 1];
    }
  }

  lemma StrippedCutOffs(s: string, i: nat, j: nat)
    requires i == LeadingSpace(s) && j == TrailingSpace(s[i..])
    ensures AllSpace(s[..i]) && AllSpace(s[i + j..])
  {
    var t := s[i..];
    assert forall k :: 0 <= k < i ==> s[..i][k] == s[k];
    var u := s[i + j..];
    assert forall k :: 0 <= k < |u| ==> u[k] == t[j + k];
  }

  lemma StrippedEmpty(s: string, i: nat, j: nat)
    requires i == LeadingSpace(s) && j == TrailingSpace(s[i..])
    ensures j == 0 <==> AllSpace(s)
  {
    var t := s[i..];
    assert t != [] ==> t[0] == s[i];
    assert forall k :: i <= k < |s| ==> s[k] == t[k - i];
  }

  /** A text with no whitespace at either edge is its own `strip()`. */
  lemma StripKeepsStripped(s: string)
    requires NoEdgeSpace(s)
    ensures Strip(s) == s
  {
    assert LeadingSpace(s) == 0;
    assert s[0..] == s;
    assert TrailingSpace(s) == |s|;
  }

  // ---------------------------------------------------------------------
  // str.split(sep) with a non-empty separator

  predicate StartsWith(s: string, d: string) {
    |d| <= |s| && s[..|d|] == d
  }

  /** `d in s`: some position of `s` starts an occurrence of `d`. */
  predicate Contains(s: string, d: string)
    decreases |s|
  {
    StartsWith(s, d) || (s != [] && Contains(s[1..], d))
  }

  /** `str.split(d)`: cuts `s` at the occurrences of `d` found scanning
      left to right, each occurrence consumed whole. */
  function SplitOn(s: string, d: string): (r: seq<string>)
    requires d != []
    ensures |r| >= 1
    decreases |s|
  {
    if |s| < |d| then [s]
    else if s[..|d|] == d then [[]] + SplitOn(s[|d|..], d)
    else
      var rest := SplitOn(s[1..], d);
      [[s[0]] + rest[0]] + rest[1..]
  }

  /** `d.join(pieces)`. */
  function JoinOn(pieces: seq<string>, d: string): string
  {
    if pieces == [] then []
    else if |pieces| == 1 then pieces[0]
    else pieces[0] + d + JoinOn(pieces[1..], d)
  }

  /** Joining the pieces of a split with the same separator gives back the
      original string. */
  lemma {:induction false} SplitJoin(s: string, d: string)
    requires d != []
    ensures JoinOn(SplitOn(s, d), d) == s
    decreases |s|
  {
    if |s| < |d| {
    } else if s[..|d|] == d {
      var rest := SplitOn(s[|d|..], d);
      assert SplitOn(s, d) == [[]] + rest;
      SplitJoin(s[|d|..], d);
      JoinCons([], rest, d);
      assert s == d + s[|d|..];
    } else {
      var rest := SplitOn(s[1..], d);
      assert SplitOn(s, d) == [[s[0]] + rest[0]] + rest[1..];
      SplitJoin(s[1..], d);
      JoinOntoFirst(s[0], rest, d);
      assert s == [s[0]] + s[1..];
    }
  }

  /** Prefixing the first piece prefixes the joined text. */
  lemma JoinOntoFirst(c: char, pieces: seq<string>, d: string)
    requires pieces != []
    ensures JoinOn([[c] + pieces[0]] + pieces[1..], d) == [c] + JoinOn(pieces, d)
  {
    if |pieces| > 1 {
      JoinCons([c] + pieces[0], pieces[1..], d);
      JoinCons(pieces[0], pieces[1..], d);
      assert pieces == [pieces[0]] + pieces[1..];
    }
  }

  /** The first piece of a split is a prefix of the joined text. */
  lemma {:induction false} FirstPieceIsPrefix(pieces: seq<string>, d: string)
    requires pieces != []
    ensures StartsWith(JoinOn(pieces, d), pieces[0])
  {
  }

  /** No piece of a split contains the separator. */
  lemma {:induction false} SplitPiecesExcludeSeparator(s: string, d: string)
    requires d != []
    ensures forall p :: p in SplitOn(s, d) ==> !Contains(p, d)
    decreases |s|
  {
    if |s| < |d| {
      NotContainsShort(s, d);
    } else if s[..|d|] == d {
      SplitPiecesExcludeSeparator(s[|d|..], d);
      assert !Contains([], d);
    } else {
      var rest := SplitOn(s[1..], d);
      SplitPiecesExcludeSeparator(s[1..], d);
      var first := [s[0]] + rest[0];
      SplitJoin(s[1..], d);
      FirstPieceIsPrefix(rest, d);
      assert first == s[..|first|];
      assert !StartsWith(first, d) by {
        if |d| <= |first| {
          assert first[..|d|] == s[..|d|];
        }
      }
      assert first[1..] == rest[0];
      assert !Contains(first, d);
      forall p | p in SplitOn(s, d) ensures !Contains(p, d) {
        if p != first {
          assert p in rest[1..];
        }
      }
    }
  }

  lemma {:induction false} NotContainsShort(s: string, d: string)
    requires |s| < |d|
    ensures !Contains(s, d)
    decreases |s|
  {
    if s != [] {
      NotContainsShort(s[1..], d);
    }
  }

  // ---------------------------------------------------------------------
  // Counting occurrences

  /** Number of positions of `s` at which an occurrence of `d` starts. */
  function Occurrences(s: string, d: string): nat
    decreases |s|
  {
    if s == [] then 0
    else (if StartsWith(s, d) then 1 else 0) + Occurrences(s[1..], d)
  }

  // ---------------------------------------------------------------------
  // re.sub(r'\s+', ' ', s)

  /** Replaces every maximal whitespace run by one plain space: a
      whitespace character followed by another is dropped, and the one that
      ends a run becomes a plain space. */
  function CollapseSpace(s: string): (r: string)
    ensures |r| <= |s| && (r == [] <==> s == [])
    decreases |s|
  {
    if s == [] then []
    else if IsSpace(s[0]) && |s| > 1 && IsSpace(s[1]) then CollapseSpace(s[1..])
    else if IsSpace(s[0]) then [' '] + CollapseSpace(s[1..])
    else [s[0]] + CollapseSpace(s[1..])
  }

  /** Trimming skips a whole leading whitespace run and stops at the
      first non-whitespace character. */
  lemma TrimStartSkipsRun(run: string, w: string)
    requires AllSpace(run) && (w == [] || !IsSpace(w[0]))
    ensures TrimStart(run + w) == w
  {
    var s := run + w;
    var n := LeadingSpace(s);
    assert forall i :: 0 <= i < |run| ==> s[i] == run[i];
    assert n < |s| ==> n >= |run|;
    assert |run| < |s| ==> s[|run|] == w[0];
    assert n == |run|;
    assert s[|run|..] == w;
  }

  /** A whitespace run, however long, collapses to one space. */
  lemma {:induction false} CollapseSpaceRun(run: string, w: string)
    requires run != [] && AllSpace(run) && (w == [] || !IsSpace(w[0]))
    ensures CollapseSpace(run + w) == " " + CollapseSpace(w)
  {
    var s := run + w;
    assert s[1..] == run[1..] + w;
    if |run| == 1 {
      assert s[1..] == w;
      assert IsSpace(s[0]) && (|s| == 1 || !IsSpace(s[1]));
    } else {
      assert IsSpace(s[0]) && IsSpace(s[1]);
      CollapseSpaceRun(run[1..], w);
    }
  }

  /** `r` is empty exactly when `s` is, has whitespace at either end
      exactly where `s` has, and is no longer than `s`. */
  predicate SameEdges(s: string, r: string) {
    && (r == [] <==> s == [])
    && (r != [] ==> (IsSpace(r[0]) <==> IsSpace(s[0])))
    && (r != [] ==> (IsSpace(r[|r| - 1]) <==> IsSpace(s[|s| - 1])))
    && |r| <= |s|
  }

  /** The collapse keeps whitespace at either end exactly where the input
      had it and never lengthens the text. */
  lemma {:induction false} CollapseSpaceEdges(s: string)
    ensures SameEdges(s, CollapseSpace(s))
    decreases |s|
  {
    if s != [] {
      CollapseSpaceEdges(s[1..]);
      PlainSpaceIsSpace();
      if IsSpace(s[0]) && |s| > 1 && IsSpace(s[1]) {
        EdgesDroppingSpace(s);
      } else {
        EdgesKeepingFirst(s);
      }
    }
  }

  lemma EdgesDroppingSpace(s: string)
    requires |s| > 1 && IsSpace(s[0]) && IsSpace(s[1])
    requires SameEdges(s[1..], CollapseSpace(s[1..]))
    ensures SameEdges(s, CollapseSpace(s))
  {
    assert s[1..][0] == s[1];
    assert s[1..][|s| - 2] == s[|s| - 1];
  }

  lemma EdgesKeepingFirst(s: string)
    requires s != [] && !(IsSpace(s[0]) && |s| > 1 && IsSpace(s[1]))
    requires SameEdges(s[1..], CollapseSpace(s[1..])) && IsSpace(' ')
    ensures SameEdges(s, CollapseSpace(s))
  {
    var c := CollapseSpace(s[1..]);
    var first := if IsSpace(s[0]) then ' ' else s[0];
    assert CollapseSpace(s) == [first] + c;
    if c != [] {
      assert ([first] + c)[|c|] == c[|c| - 1];
      assert s[1..][|s| - 2] == s[|s| - 1];
    }
  }

  /** The collapse leaves no whitespace other than single plain spaces. */
  lemma {:induction false} CollapseSpaceSingleSpaced(s: string)
    ensures SingleSpaced(CollapseSpace(s))
    decreases |s|
  {
    if s != [] {
      CollapseSpaceSingleSpaced(s[1..]);
      if !(IsSpace(s[0]) && |s| > 1 && IsSpace(s[1])) {
        CollapseSpaceEdges(s[1..]);
        SingleSpacedKeepingFirst(s);
      }
    }
  }

  lemma SingleSpacedKeepingFirst(s: string)
    requires s != [] && !(IsSpace(s[0]) && |s| > 1 && IsSpace(s[1]))
    requires var c := CollapseSpace(s[1..]);
      SingleSpaced(c) && SameEdges(s[1..], c)
    ensures SingleSpaced(CollapseSpace(s))
  {
    var c := CollapseSpace(s[1..]);
    var first := if IsSpace(s[0]) then ' ' else s[0];
    assert CollapseSpace(s) == [first] + c;
    PlainSpaceIsSpace();
    assert c != [] ==> s[1..][0] == s[1];
    SingleSpacedCons(first, c);
  }

  /** A character may go in front of a single-spaced text when it is not
      whitespace, or is a plain space followed by no whitespace. */
  lemma SingleSpacedCons(x: char, c: string)
    requires SingleSpaced(c)
    requires IsSpace(x) ==> x == ' ' && (c == [] || !IsSpace(c[0]))
    ensures SingleSpaced([x] + c)
  {
    var r := [x] + c;
    assert forall i :: 0 < i < |r| ==> r[i] == c[i - 1];
  }

  // ---------------------------------------------------------------------
  // str.split() with no separator

  /** Length of the longest prefix of `s` free of whitespace. */
  function WordEnd(s: string): (n: nat)
    ensures n <= |s| && NoSpace(s[..n])
    ensures n == |s| || IsSpace(s[n])
    decreases |s|
  {
    if s != [] && !IsSpace(s[0]) then
      var m := WordEnd(s[1..]);
      assert s[..m + 1] == [s[0]] + s[1..][..m];
      m + 1
    else 0
  }

  /** `str.split()`: the maximal whitespace-free runs of `s`, in order. */
  function Words(s: string): (r: seq<string>)
    ensures forall w :: w in r ==> w != [] && NoSpace(w)
    decreases |s|
  {
    var t := TrimStart(s);
    if t == [] then []
    else
      var n := WordEnd(t);
      assert n > 0;
      [t[..n]] + Words(t[n..])
  }

  /** There are no words exactly when the text is all whitespace. */
  lemma WordsShape(s: string)
    ensures Words(s) == [] <==> AllSpace(s)
  {
    var i := LeadingSpace(s);
    assert i < |s| ==> s[i..][0] == s[i];
  }


  /** Collapsing the whitespace of a stripped string is the same as
      `" ".join(s.split())`. */
  lemma {:induction false} CollapseIsJoinedWords(s: string)
    requires NoEdgeSpace(s)
    ensures CollapseSpace(s) == JoinOn(Words(s), " ")
    decreases |s|
  {
    if s != [] {
      var n := WordEnd(s);
      if n == |s| {
        CollapseOneWord(s);
      } else {
        var t := TrimStart(s[n..]);
        SpaceRunBeforeWord(s, n);
        CollapseIsJoinedWords(t);
        CollapseWordThenRest(s, n, t);
      }
    }
  }

  /** A stripped text that is one word collapses to itself. */
  lemma CollapseOneWord(s: string)
    requires s != [] && !IsSpace(s[0]) && WordEnd(s) == |s|
    ensures CollapseSpace(s) == JoinOn(Words(s), " ")
  {
    CollapseWord(s);
    WordsOfWordStart(s);
    assert s[..|s|] == s && s[|s|..] == [];
    assert Words(s) == [s];
  }

  /** The first word, one space, and the collapse of the rest. */
  lemma CollapseWordThenRest(s: string, n: nat, t: string)
    requires NoEdgeSpace(s) && s != [] && n == WordEnd(s) && n < |s|
    requires t == TrimStart(s[n..]) && t != [] && Words(t) != []
    requires Words(s[n..]) == Words(t) && CollapseSpace(s[n..]) == [' '] + CollapseSpace(t)
    requires CollapseSpace(t) == JoinOn(Words(t), " ")
    ensures CollapseSpace(s) == JoinOn(Words(s), " ")
  {
    var w := s[..n];
    CollapseWord(s);
    WordsOfWordStart(s);
    JoinCons(w, Words(t), " ");
    ConcatAssoc(w, " ", CollapseSpace(t));
  }

  /** Splitting a text that starts with a word yields that word first. */
  lemma WordsOfWordStart(s: string)
    requires s != [] && !IsSpace(s[0])
    ensures Words(s) == [s[..WordEnd(s)]] + Words(s[WordEnd(s)..])
  {
    assert TrimStart(s) == s;
  }

  /** After the first word of a stripped text comes a whitespace run and
      then another stripped text with at least one word. */
  lemma SpaceRunBeforeWord(s: string, n: nat)
    requires NoEdgeSpace(s) && s != [] && n == WordEnd(s) && n < |s|
    ensures var t := TrimStart(s[n..]);
      && t != [] && NoEdgeSpace(t) && |t| < |s|
      && Words(s[n..]) == Words(t) && Words(t) != []
      && CollapseSpace(s[n..]) == [' '] + CollapseSpace(t)
  {
    var rest := s[n..];
    var t := TrimStart(rest);
    assert rest[|rest| - 1] == s[|s| - 1];
    assert t != [] && t[|t| - 1] == s[|s| - 1];
    assert TrimStart(t) == t;
    WordsShape(t);
    LeadingRun(rest);
    CollapseSpaceRun(rest[..|rest| - |t|], t);
  }

  /** A text that starts with whitespace is its leading run followed by
      what `lstrip()` leaves. */
  lemma LeadingRun(s: string)
    requires s != [] && IsSpace(s[0])
    ensures var t := TrimStart(s); var run := s[..|s| - |t|];
      && s == run + t && run != [] && AllSpace(run)
  {
    var t := TrimStart(s);
    assert t == s[|s| - |t|..];
    assert t != [] ==> t[0] == s[|s| - |t|];
  }

  lemma ConcatAssoc(a: string, b: string, c: string)
    ensures a + (b + c) == a + b + c
  {
  }

  lemma JoinCons(w: string, ws: seq<string>, d: string)
    requires ws != []
    ensures JoinOn([w] + ws, d) == w + d + JoinOn(ws, d)
  {
    assert ([w] + ws)[1..] == ws;
  }

  /** The collapse copies a leading word unchanged. */
  lemma {:induction false} CollapseWord(s: string)
    ensures CollapseSpace(s) == s[..WordEnd(s)] + CollapseSpace(s[WordEnd(s)..])
    decreases |s|
  {
    if s != [] && !IsSpace(s[0]) {
      CollapseWord(s[1..]);
      CollapseWordStep(s);
    } else {
      assert s[0..] == s;
    }
  }

  lemma CollapseWordStep(s: string)
    requires s != [] && !IsSpace(s[0])
    requires var m := WordEnd(s[1..]);
      CollapseSpace(s[1..]) == s[1..][..m] + CollapseSpace(s[1..][m..])
    ensures CollapseSpace(s) == s[..WordEnd(s)] + CollapseSpace(s[WordEnd(s)..])
  {
    var m := WordEnd(s[1..]);
    assert WordEnd(s) == m + 1;
    CollapseAtCharacter(s);
    ShiftIntoPrefix(s, m, CollapseSpace(s[1..][m..]));
    assert s[1..][m..] == s[m + 1..];
  }

  lemma CollapseAtCharacter(s: string)
    requires s != [] && !IsSpace(s[0])
    ensures CollapseSpace(s) == [s[0]] + CollapseSpace(s[1..])
  {
  }

  lemma ShiftIntoPrefix(s: string, m: nat, c: string)
    requires m < |s|
    ensures [s[0]] + (s[1..][..m] + c) == s[..m + 1] + c
  {
    assert s[..m + 1] == [s[0]] + s[1..][..m];
  }
}
