/** Word, character and line counts of a document
    (apps/desktop/src/workspace/viewModel.ts). */
module ViewModel {
  import opened Text

  datatype DocumentStats = DocumentStats(words: nat, characters: nat, lines: nat)

  /** `s.split(/\s+/u)`: the pieces between maximal runs of white space. */
  function SplitSpaces(s: string): (r: seq<string>)
    ensures |r| >= 1
    decreases |s|
  {
    if s == [] then [""]
    else if IsSpace(s[0]) then [""] + SplitSpaces(TrimStart(s))
    else
      var rest := SplitSpaces(s[1..]);
      [[s[0]] + rest[0]] + rest[1..]
  }

  /** `.filter(Boolean)` on strings: drop the empty pieces. */
  function NonEmpty(pieces: seq<string>): (r: seq<string>)
    ensures |r| <= |pieces|
  {
    if pieces == [] then []
    else (if pieces[0] != "" then [pieces[0]] else []) + NonEmpty(pieces[1..])
  }

  /** `words` of `calculateDocumentStats`. */
  function WordCount(markdown: string): nat {
    var trimmed := Trim(markdown);
    if trimmed == "" then 0 else |NonEmpty(SplitSpaces(trimmed))|
  }

  /** `markdown.split(/\r?\n/u)`: the pieces between line breaks, a carriage
      return directly before a line feed belonging to the break. */
  function SplitLines(s: string): (r: seq<string>)
    ensures |r| >= 1
  {
    if s == [] then [""]
    else if s[0] == '\n' then [""] + SplitLines(s[1..])
    else if s[0] == '\r' && |s| >= 2 && s[1] == '\n' then [""] + SplitLines(s[2..])
    else
      var rest := SplitLines(s[1..]);
      [[s[0]] + rest[0]] + rest[1..]
  }

  /** `lines` of `calculateDocumentStats`. */
  function LineTotal(markdown: string): nat {
    if markdown == "" then 1 else |SplitLines(markdown)|
  }

  /** `calculateDocumentStats`. */
  function CalculateDocumentStats(markdown: string): (r: DocumentStats)
    ensures r.lines >= 1
    ensures r.characters == |markdown|
  {
    DocumentStats(WordCount(markdown), |markdown|, LineTotal(markdown))
  }

  /** The number of maximal runs of non-white-space characters, counted at the
      position where each run ends. */
  function Runs(s: string): nat {
    if s == [] then 0
    else (if !IsSpace(s[0]) && (|s| == 1 || IsSpace(s[1])) then 1 else 0) + Runs(s[1..])
  }

  /** The number of line feeds. */
  function LineFeeds(s: string): nat {
    if s == [] then 0 else (if s[0] == '\n' then 1 else 0) + LineFeeds(s[1..])
  }

  lemma {:induction false} RunsBound(s: string)
    ensures Runs(s) <= |s|
  {
    if s != [] {
      RunsBound(s[1..]);
    }
  }

  /** Leading white space ends no run. */
  lemma {:induction false} RunsTrimStart(s: string)
    ensures Runs(TrimStart(s)) == Runs(s)
  {
    if |s| > 0 && IsSpace(s[0]) {
      RunsTrimStart(s[1..]);
    }
  }

  /** Trailing white space ends no run either. */
  lemma {:induction false} RunsAppendSpaces(a: string, b: string)
    requires IsBlank(b)
    ensures Runs(a + b) == Runs(a)
  {
    if a == [] {
      assert a + b == b;
      RunsOfBlank(b);
    } else {
      assert (a + b)[1..] == a[1..] + b;
      RunsAppendSpaces(a[1..], b);
    }
  }

  lemma {:induction false} RunsOfBlank(b: string)
    requires IsBlank(b)
    ensures Runs(b) == 0
  {
    if b != [] {
      RunsOfBlank(b[1..]);
    }
  }

  lemma RunsTrimEnd(s: string)
    ensures Runs(TrimEnd(s)) == Runs(s)
  {
    TrimEndSpaces(s);
    var t := TrimEnd(s);
    assert s == t + s[|t|..];
    RunsAppendSpaces(t, s[|t|..]);
  }

  /** The first piece of a split is empty exactly when the text starts with white space (or is empty). */
  lemma FirstPiece(s: string)
    ensures SplitSpaces(s)[0] == "" <==> s == [] || IsSpace(s[0])
  {
  }

  /** Each non-empty piece of the split is one run. */
  lemma {:induction false} PiecesAreRuns(s: string)
    ensures |NonEmpty(SplitSpaces(s))| == Runs(s)
    decreases |s|
  {
    if s == [] {
    } else if IsSpace(s[0]) {
      PiecesAreRuns(TrimStart(s));
      RunsTrimStart(s);
      var tail := SplitSpaces(TrimStart(s));
      assert ([""] + tail)[1..] == tail;
    } else {
      var rest := SplitSpaces(s[1..]);
      PiecesAreRuns(s[1..]);
      FirstPiece(s[1..]);
      var first := [s[0]] + rest[0];
      assert ([first] + rest[1..])[1..] == rest[1..];
      assert NonEmpty(rest) == (if rest[0] != "" then [rest[0]] else []) + NonEmpty(rest[1..]);
    }
  }

  /** `words` counts the maximal runs of non-white-space characters. */
  lemma WordsAreRuns(markdown: string)
    ensures WordCount(markdown) == Runs(markdown)
  {
    var t := Trim(markdown);
    RunsTrimStart(markdown);
    RunsTrimEnd(TrimStart(markdown));
    if t == "" {
      assert Runs(t) == 0;
    } else {
      PiecesAreRuns(t);
    }
  }

  /** White-space-only input has no words. */
  lemma BlankHasNoWords(markdown: string)
    requires IsBlank(markdown)
    ensures CalculateDocumentStats(markdown).words == 0
  {
    TrimEmptyIffBlank(markdown);
  }

  /** There are never more words than characters. */
  lemma WordsBound(markdown: string)
    ensures CalculateDocumentStats(markdown).words <= CalculateDocumentStats(markdown).characters
  {
    WordsAreRuns(markdown);
    RunsBound(markdown);
  }

  /** Splitting on line breaks gives one more piece than there are line feeds. */
  lemma {:induction false} SplitLinesCount(s: string)
    ensures |SplitLines(s)| == LineFeeds(s) + 1
  {
    if s == [] {
    } else if s[0] == '\n' {
      SplitLinesCount(s[1..]);
    } else if s[0] == '\r' && |s| >= 2 && s[1] == '\n' {
      SplitLinesCount(s[2..]);
      assert s[1..][1..] == s[2..];
    } else {
      SplitLinesCount(s[1..]);
    }
  }

  /** `lines` is the number of line feeds plus one, for the empty document too;
      a carriage return before a line feed does not add a line. */
  lemma LinesAreLineFeeds(markdown: string)
    ensures CalculateDocumentStats(markdown).lines == LineFeeds(markdown) + 1
  {
    SplitLinesCount(markdown);
  }

  lemma CrLfCountsOnce()
    ensures CalculateDocumentStats("a\r\nb").lines == 2
  {
    LinesAreLineFeeds("a\r\nb");
    assert "a\r\nb"[1..] == "\r\nb" && "\r\nb"[1..] == "\nb" && "\nb"[1..] == "b";
  }

  /** Runs and line feeds add up over a concatenation whose halves meet at white space. */
  lemma {:induction false} RunsAppend(a: string, b: string)
    requires a == [] || b == [] || IsSpace(a[|a| - 1]) || IsSpace(b[0])
    ensures Runs(a + b) == Runs(a) + Runs(b)
  {
    if a == [] {
      assert a + b == b;
    } else {
      assert (a + b)[1..] == a[1..] + b;
      RunsAppend(a[1..], b);
    }
  }

  lemma {:induction false} LineFeedsAppend(a: string, b: string)
    ensures LineFeeds(a + b) == LineFeeds(a) + LineFeeds(b)
  {
    if a == [] {
      assert a + b == b;
    } else {
      assert (a + b)[1..] == a[1..] + b;
      LineFeedsAppend(a[1..], b);
    }
  }

  /** A word is a single run. */
  lemma {:induction false} WordIsOneRun(w: string)
    requires w != [] && forall i :: 0 <= i < |w| ==> !IsSpace(w[i])
    ensures Runs(w) == 1
  {
    if |w| > 1 {
      WordIsOneRun(w[1..]);
    }
  }

  lemma {:induction false} NoLineFeeds(w: string)
    requires forall i :: 0 <= i < |w| ==> w[i] != '\n'
    ensures LineFeeds(w) == 0
  {
    if w != [] {
      NoLineFeeds(w[1..]);
    }
  }

  /** Two words with white space between them are two runs. */
  lemma TwoWords(d: string, a: string, sp: string, b: string)
    requires d == a + sp + b
    requires a != [] && forall i :: 0 <= i < |a| ==> !IsSpace(a[i])
    requires b != [] && forall i :: 0 <= i < |b| ==> !IsSpace(b[i])
    requires sp != [] && IsBlank(sp)
    ensures Runs(d) == 2
  {
    WordIsOneRun(a);
    WordIsOneRun(b);
    RunsOfBlank(sp);
    RunsAppend(sp, b);
    RunsAppend(a, sp + b);
    assert a + sp + b == a + (sp + b);
  }

  /** Two paragraphs separated by blank text: their runs add up... */
  lemma ParagraphRuns(d: string, x: string, z: string, gap: string, y: string)
    requires d == x + z && z == gap + y && gap != [] && IsBlank(gap)
    ensures Runs(d) == Runs(x) + Runs(y)
  {
    RunsOfBlank(gap);
    RunsAppend(gap, y);
    RunsAppend(x, z);
  }

  /** ...and so do their line feeds. */
  lemma ParagraphLineFeeds(d: string, x: string, z: string, gap: string, y: string)
    requires d == x + z && z == gap + y
    ensures LineFeeds(d) == LineFeeds(x) + LineFeeds(gap) + LineFeeds(y)
  {
    LineFeedsAppend(gap, y);
    LineFeedsAppend(x, z);
  }

  lemma TitleRuns()
    ensures Runs("# Title") == 2
  {
    TwoWords("# Title", "#", " ", "Title");
  }

  lemma BodyRuns()
    ensures Runs("Hello FerrumNote") == 2
  {
    TwoWords("Hello FerrumNote", "Hello", " ", "FerrumNote");
  }

  lemma TitleLineFeeds()
    ensures LineFeeds("# Title") == 0
  {
    NoLineFeeds("# Title");
  }

  lemma BodyLineFeeds()
    ensures LineFeeds("Hello FerrumNote") == 0
  {
    NoLineFeeds("Hello FerrumNote");
  }

  lemma SampleSplits()
    ensures "# Title\n\nHello FerrumNote" == "# Title" + "\n\nHello FerrumNote"
  {
  }

  lemma SampleTail()
    ensures "\n\nHello FerrumNote" == "\n\n" + "Hello FerrumNote"
  {
  }

  lemma BlankGap()
    ensures IsBlank("\n\n") && LineFeeds("\n\n") == 2
  {
  }

  lemma SampleRuns()
    ensures Runs("# Title\n\nHello FerrumNote") == 4
  {
    TitleRuns();
    BodyRuns();
    SampleSplits();
    SampleTail();
    BlankGap();
    ParagraphRuns("# Title\n\nHello FerrumNote", "# Title", "\n\nHello FerrumNote", "\n\n", "Hello FerrumNote");
  }

  lemma SampleLineFeeds()
    ensures LineFeeds("# Title\n\nHello FerrumNote") == 2
  {
    TitleLineFeeds();
    BodyLineFeeds();
    SampleSplits();
    SampleTail();
    BlankGap();
    ParagraphLineFeeds("# Title\n\nHello FerrumNote", "# Title", "\n\nHello FerrumNote", "\n\n", "Hello FerrumNote");
  }

  /** The example document: four words, 25 characters, three lines. */
  lemma StatsExample()
    ensures CalculateDocumentStats("# Title\n\nHello FerrumNote") == DocumentStats(4, 25, 3)
  {
    SampleRuns();
    SampleLineFeeds();
    WordsAreRuns("# Title\n\nHello FerrumNote");
    LinesAreLineFeeds("# Title\n\nHello FerrumNote");
  }
}
