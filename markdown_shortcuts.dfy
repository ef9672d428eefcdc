/** Markdown shortcut commands and the Enter-after-fence rule of the source
    editor (apps/desktop/src/editor/markdownShortcuts.ts). Each command reads
    the document and the main selection and yields the `Edit` it passes to
    `state.update`; `Update` gives the resulting state. */
module MarkdownShortcuts {
  import opened Wrappers
  import opened Text
  import opened EditorDoc
  import CodeLanguage

  /** `MarkdownShortcutCommand`. */
  datatype Command =
    | ToggleBold
    | ToggleItalic
    | ToggleInlineCode
    | ToggleHeading2
    | ToggleBlockquote
    | ToggleBulletList
    | ToggleOrderedList
    | ToggleCodeFence

  // ---------------------------------------------------------------------------
  // Word range around a position

  /** Where a backward scan over word characters from `off` stops. */
  function WordStart(text: string, off: nat): (r: nat)
    requires off <= |text|
    ensures r <= off
  {
    if off > 0 && IsWordChar(text[off - 1]) then WordStart(text, off - 1) else off
  }

  /** Where a forward scan over word characters from `off` stops. */
  function WordEnd(text: string, off: nat): (r: nat)
    requires off <= |text|
    ensures off <= r <= |text|
    decreases |text| - off
  {
    if off < |text| && IsWordChar(text[off]) then WordEnd(text, off + 1) else off
  }

  /** The backward scan passes over word characters only and stops after a
      non-word character or at the start. */
  lemma {:induction false} WordStartScan(text: string, off: nat)
    requires off <= |text|
    ensures var r := WordStart(text, off);
      (r == 0 || !IsWordChar(text[r - 1])) && forall i :: r <= i < off ==> IsWordChar(text[i])
    decreases off
  {
    if off > 0 && IsWordChar(text[off - 1]) {
      WordStartScan(text, off - 1);
    }
  }

  /** The forward scan passes over word characters only and stops before a
      non-word character or at the end. */
  lemma {:induction false} WordEndScan(text: string, off: nat)
    requires off <= |text|
    ensures var r := WordEnd(text, off);
      (r == |text| || !IsWordChar(text[r])) && forall i :: off <= i < r ==> IsWordChar(text[i])
    decreases |text| - off
  {
    if off < |text| && IsWordChar(text[off]) {
      WordEndScan(text, off + 1);
    }
  }

  /** The value `wordRangeAt` returns. */
  function WordRange(doc: string, pos: nat): (r: Option<(nat, nat)>)
    requires pos <= |doc|
    ensures r.Some? ==> r.value.0 <= pos <= r.value.1 <= |doc| && r.value.0 < r.value.1
  {
    var line := LineAt(doc, pos);
    var start := WordStart(line.text, pos - line.from);
    var end := WordEnd(line.text, pos - line.from);
    if start == end then None else Some((line.from + start, line.from + end))
  }

  /** The range is the maximal run of `[A-Za-z0-9_]` around the position, and
      there is none exactly when neither neighbour is a word character. */
  lemma WordRangeMaximal(doc: string, pos: nat)
    requires pos <= |doc|
    ensures WordRange(doc, pos).None? <==>
      (pos == 0 || !IsWordChar(doc[pos - 1])) && (pos == |doc| || !IsWordChar(doc[pos]))
    ensures WordRange(doc, pos).Some? ==>
      var (from, to) := WordRange(doc, pos).value;
      (forall i :: from <= i < to ==> IsWordChar(doc[i])) &&
      (from == 0 || !IsWordChar(doc[from - 1])) && (to == |doc| || !IsWordChar(doc[to]))
  {
    WordScanInDoc(doc, pos);
  }

  /** The two scans, read as positions of the document: they cover a run of
      word characters with no word character on either side. */
  lemma WordScanInDoc(doc: string, pos: nat)
    requires pos <= |doc|
    ensures var line := LineAt(doc, pos);
      var a := line.from + WordStart(line.text, pos - line.from);
      var b := line.from + WordEnd(line.text, pos - line.from);
      a <= pos <= b <= |doc| && (forall i :: a <= i < b ==> IsWordChar(doc[i])) &&
      (a == 0 || !IsWordChar(doc[a - 1])) && (b == |doc| || !IsWordChar(doc[b]))
  {
    var line := LineAt(doc, pos);
    var off := pos - line.from;
    var start := WordStart(line.text, off);
    var end := WordEnd(line.text, off);
    WordStartScan(line.text, off);
    WordEndScan(line.text, off);
    forall i | line.from + start <= i < line.from + end
      ensures IsWordChar(doc[i])
    {
      assert doc[i] == line.text[i - line.from];
    }
    if start > 0 {
      assert doc[line.from + start - 1] == line.text[start - 1];
    }
    if end < |line.text| {
      assert doc[line.from + end] == line.text[end];
    }
  }

  /** `wordRangeAt`: two scans outward from the position within its line. */
  method WordRangeAt(doc: string, position: nat) returns (r: Option<(nat, nat)>)
    requires position <= |doc|
    ensures r == WordRange(doc, position)
  {
    var line := LineAt(doc, position);
    var offset: nat := position - line.from;
    var start: nat := offset;
    var end: nat := offset;
    while start > 0 && IsWordChar(line.text[start - 1])
      invariant start <= offset
      invariant WordStart(line.text, start) == WordStart(line.text, offset)
      decreases start
    {
      start := start - 1;
    }
    while end < |line.text| && IsWordChar(line.text[end])
      invariant offset <= end <= |line.text|
      invariant WordEnd(line.text, end) == WordEnd(line.text, offset)
      decreases |line.text| - end
    {
      end := end + 1;
    }
    if start == end {
      return None;
    }
    return Some((line.from + start, line.from + end));
  }

  // ---------------------------------------------------------------------------
  // Wrap toggles

  predicate NoWordChars(s: string) {
    forall i :: 0 <= i < |s| ==> !IsWordChar(s[i])
  }

  /** The range `toggleWrap` works on: the selection, or for an empty
      selection the word around the cursor when there is one. */
  function WrapRange(s: EditorState): (r: (nat, nat))
    requires ValidState(s)
    ensures r.0 <= r.1 <= |s.doc|
  {
    if s.selection.Empty() && WordRange(s.doc, s.selection.head).Some? then
      WordRange(s.doc, s.selection.head).value
    else
      (s.selection.From(), s.selection.To())
  }

  /** `hasWrapper`: `open` ends right at `from` and `close` starts right at `to`. */
  predicate HasWrapper(doc: string, from: nat, to: nat, open: string, close: string)
    requires from <= to <= |doc|
  {
    from >= |open| && to + |close| <= |doc| &&
    doc[from - |open|..from] == open && doc[to..to + |close|] == close
  }

  /** `toggleWrap` from the point where it knows its range on. */
  function WrapEdit(doc: string, from: nat, to: nat, open: string, close: string): (e: Edit)
    requires from <= to <= |doc|
  {
    if HasWrapper(doc, from, to, open, close) then
      Edit([Change(from - |open|, from, ""), Change(to, to + |close|, "")],
           Selection(from - |open|, to - |open|))
    else if from == to then
      Edit([Change(from, to, open + close)], Cursor(from + |open|))
    else
      Edit([Change(from, from, open), Change(to, to, close)],
           Selection(from + |open|, to + |open|))
  }

  /** `toggleWrap`. */
  function ToggleWrap(s: EditorState, open: string, close: string): (e: Edit)
    requires ValidState(s)
  {
    WrapEdit(s.doc, WrapRange(s).0, WrapRange(s).1, open, close)
  }

  lemma WrapEditInserts(s: EditorState, from: nat, to: nat, open: string, close: string)
    requires from <= to <= |s.doc| && !HasWrapper(s.doc, from, to, open, close)
    ensures ValidChanges(s.doc, WrapEdit(s.doc, from, to, open, close).changes)
    ensures Update(s, WrapEdit(s.doc, from, to, open, close)) ==
      Ok(EditorState(s.doc[..from] + open + s.doc[from..to] + close + s.doc[to..],
                     Selection(from + |open|, to + |open|)))
  {
    if from == to {
      ApplyOne(s.doc, Change(from, to, open + close));
      assert s.doc[from..to] == [];
      assert s.doc[..from] + (open + close) + s.doc[to..] == s.doc[..from] + open + s.doc[from..to] + close + s.doc[to..];
    } else {
      ApplyTwo(s.doc, Change(from, from, open), Change(to, to, close));
    }
  }

  lemma WrapEditRemoves(s: EditorState, from: nat, to: nat, open: string, close: string)
    requires from <= to <= |s.doc| && HasWrapper(s.doc, from, to, open, close)
    ensures ValidChanges(s.doc, WrapEdit(s.doc, from, to, open, close).changes)
    ensures Update(s, WrapEdit(s.doc, from, to, open, close)) ==
      Ok(EditorState(s.doc[..from - |open|] + s.doc[from..to] + s.doc[to + |close|..],
                     Selection(from - |open|, to - |open|)))
  {
    ApplyTwoDeletions(s.doc, Change(from - |open|, from, ""), Change(to, to + |close|, ""));
  }

  /** Without markers around it, the range is wrapped and stays selected
      between the new markers (for an empty range: the cursor between them). */
  lemma WrapInserts(s: EditorState, open: string, close: string)
    requires ValidState(s)
    requires !HasWrapper(s.doc, WrapRange(s).0, WrapRange(s).1, open, close)
    ensures ValidChanges(s.doc, ToggleWrap(s, open, close).changes)
    ensures var w := WrapRange(s);
      Update(s, ToggleWrap(s, open, close)) ==
      Ok(EditorState(s.doc[..w.0] + open + s.doc[w.0..w.1] + close + s.doc[w.1..],
                     Selection(w.0 + |open|, w.1 + |open|)))
  {
    WrapEditInserts(s, WrapRange(s).0, WrapRange(s).1, open, close);
  }

  /** With markers around it, both are deleted, the text between them is kept
      and the selection moves back by the opening marker's length. */
  lemma WrapRemoves(s: EditorState, open: string, close: string)
    requires ValidState(s)
    requires HasWrapper(s.doc, WrapRange(s).0, WrapRange(s).1, open, close)
    ensures ValidChanges(s.doc, ToggleWrap(s, open, close).changes)
    ensures var w := WrapRange(s);
      Update(s, ToggleWrap(s, open, close)) ==
      Ok(EditorState(s.doc[..w.0 - |open|] + s.doc[w.0..w.1] + s.doc[w.1 + |close|..],
                     Selection(w.0 - |open|, w.1 - |open|)))
  {
    WrapEditRemoves(s, WrapRange(s).0, WrapRange(s).1, open, close);
  }

  /** `d` is `doc` with `open` inserted at `from` and `close` at `to`. */
  predicate IsWrapped(d: string, doc: string, from: nat, to: nat, open: string, close: string)
    requires from <= to <= |doc|
  {
    |d| == |doc| + |open| + |close| &&
    d[..from] == doc[..from] && d[from..from + |open|] == open &&
    d[from + |open|..to + |open|] == doc[from..to] &&
    d[to + |open|..to + |open| + |close|] == close &&
    d[to + |open| + |close|..] == doc[to..]
  }

  lemma WrappedText(doc: string, from: nat, to: nat, open: string, close: string)
    requires from <= to <= |doc|
    ensures IsWrapped(doc[..from] + open + doc[from..to] + close + doc[to..], doc, from, to, open, close)
  {
  }

  lemma Splice(doc: string, a: nat, b: nat)
    requires a <= b <= |doc|
    ensures doc[..a] + doc[a..b] + doc[b..] == doc
  {
  }

  /** Empty markers without word characters put no word around the cursor between them. */
  lemma NoWordBetweenMarkers(doc: string, d: string, p: nat, open: string, close: string)
    requires p <= |doc| && IsWrapped(d, doc, p, p, open, close)
    requires WordRange(doc, p).None? && NoWordChars(open) && NoWordChars(close)
    ensures WordRange(d, p + |open|).None?
  {
    var q := p + |open|;
    WordRangeMaximal(doc, p);
    if q > 0 {
      if |open| > 0 {
        assert d[q - 1] == d[p..p + |open|][|open| - 1] == open[|open| - 1];
      } else {
        assert d[q - 1] == d[..p][p - 1] == doc[p - 1];
      }
    }
    if q < |d| {
      if |close| > 0 {
        assert d[q] == d[q..q + |close|][0] == close[0];
      } else {
        assert d[q] == d[q..][0] == doc[p..][0];
      }
    }
    WordRangeMaximal(d, q);
  }

  /** Unwrapping a wrapped range gives the text back with the range selected. */
  lemma UnwrapWrapped(doc: string, s1: EditorState, from: nat, to: nat, open: string, close: string, e: Edit)
    requires from <= to <= |doc| && IsWrapped(s1.doc, doc, from, to, open, close)
    requires s1.selection == Selection(from + |open|, to + |open|)
    requires e == WrapEdit(s1.doc, from + |open|, to + |open|, open, close)
    ensures ValidChanges(s1.doc, e.changes)
    ensures Update(s1, e) == Ok(EditorState(doc, Selection(from, to)))
  {
    var d1 := s1.doc;
    assert HasWrapper(d1, from + |open|, to + |open|, open, close);
    WrapEditRemoves(s1, from + |open|, to + |open|, open, close);
    assert d1[..from] + d1[from + |open|..to + |open|] + d1[to + |open| + |close|..] == doc[..from] + doc[from..to] + doc[to..];
    Splice(doc, from, to);
  }

  /** Toggling the same markers again on the result of a wrap restores the
      text and selects the range that was wrapped. */
  lemma WrapRoundTrip(s: EditorState, open: string, close: string)
    requires ValidState(s) && NoWordChars(open) && NoWordChars(close)
    requires !HasWrapper(s.doc, WrapRange(s).0, WrapRange(s).1, open, close)
    ensures Update(s, ToggleWrap(s, open, close)).Ok?
    ensures var s1 := Update(s, ToggleWrap(s, open, close)).value;
      ValidState(s1) &&
      Update(s1, ToggleWrap(s1, open, close)) ==
      Ok(EditorState(s.doc, Selection(WrapRange(s).0, WrapRange(s).1)))
  {
    var w := WrapRange(s);
    var d1 := WrappedResult(s, open, close);
    if w.0 == w.1 {
      // The first toggle found no word here.
      assert s.selection.Empty() && WordRange(s.doc, s.selection.head).None? && w.0 == s.selection.head;
    }
    SecondToggle(s.doc, Update(s, ToggleWrap(s, open, close)).value, WrapRange(s).0, WrapRange(s).1, open, close);
  }

  /** `toggleWrap` once its range is known. */
  lemma ToggleWrapAt(s: EditorState, from: nat, to: nat, open: string, close: string)
    requires ValidState(s) && WrapRange(s) == (from, to)
    ensures ToggleWrap(s, open, close) == WrapEdit(s.doc, from, to, open, close)
  {
  }

  /** The second toggle on a wrapped range: the range it works on is the one
      the first toggle selected (a non-empty range is selected, and an empty
      one has markers without word characters around it), and it unwraps. */
  lemma SecondToggle(doc: string, s1: EditorState, from: nat, to: nat, open: string, close: string)
    requires from <= to <= |doc| && IsWrapped(s1.doc, doc, from, to, open, close)
    requires s1.selection == Selection(from + |open|, to + |open|)
    requires NoWordChars(open) && NoWordChars(close)
    requires from == to ==> WordRange(doc, from).None?
    ensures ValidState(s1)
    ensures Update(s1, ToggleWrap(s1, open, close)) == Ok(EditorState(doc, Selection(from, to)))
  {
    if from == to {
      NoWordBetweenMarkers(doc, s1.doc, from, open, close);
    }
    ToggleWrapAt(s1, from + |open|, to + |open|, open, close);
    UnwrapWrapped(doc, s1, from, to, open, close, ToggleWrap(s1, open, close));
  }

  /** The wrapped document, named so that only its pieces are visible. */
  lemma WrappedResult(s: EditorState, open: string, close: string) returns (d1: string)
    requires ValidState(s)
    requires !HasWrapper(s.doc, WrapRange(s).0, WrapRange(s).1, open, close)
    ensures IsWrapped(d1, s.doc, WrapRange(s).0, WrapRange(s).1, open, close)
    ensures Update(s, ToggleWrap(s, open, close)) ==
      Ok(EditorState(d1, Selection(WrapRange(s).0 + |open|, WrapRange(s).1 + |open|)))
  {
    var w := WrapRange(s);
    d1 := s.doc[..w.0] + open + s.doc[w.0..w.1] + close + s.doc[w.1..];
    WrapInserts(s, open, close);
    WrappedText(s.doc, w.0, w.1, open, close);
  }

  /** When no word expansion happens and the selection runs forward, the
      round trip restores the state exactly. */
  lemma WrapRoundTripRestores(s: EditorState, open: string, close: string)
    requires ValidState(s) && NoWordChars(open) && NoWordChars(close)
    requires !HasWrapper(s.doc, WrapRange(s).0, WrapRange(s).1, open, close)
    requires s.selection.anchor <= s.selection.head
    requires !s.selection.Empty() || WordRange(s.doc, s.selection.head).None?
    ensures Update(s, ToggleWrap(s, open, close)).Ok?
    ensures var s1 := Update(s, ToggleWrap(s, open, close)).value;
      ValidState(s1) && Update(s1, ToggleWrap(s1, open, close)) == Ok(s)
  {
    WrapRoundTrip(s, open, close);
  }

  // ---------------------------------------------------------------------------
  // Line prefixes

  /** The end of the run of '#' starting at `i`. */
  function HashRun(text: string, i: nat): (r: nat)
    requires i <= |text|
    ensures i <= r <= |text| && (r == |text| || text[r] != '#')
    decreases |text| - i
  {
    if i < |text| && text[i] == '#' then HashRun(text, i + 1) else i
  }

  lemma {:induction false} HashRunScan(text: string, i: nat)
    requires i <= |text|
    ensures forall j :: i <= j < HashRun(text, i) ==> text[j] == '#'
    decreases |text| - i
  {
    if i < |text| && text[i] == '#' {
      HashRunScan(text, i + 1);
    }
  }

  /** The end of the run of white space starting at `i`. */
  function SpaceRun(text: string, i: nat): (r: nat)
    requires i <= |text|
    ensures i <= r <= |text| && (r == |text| || !IsSpace(text[r]))
    decreases |text| - i
  {
    if i < |text| && IsSpace(text[i]) then SpaceRun(text, i + 1) else i
  }

  lemma {:induction false} SpaceRunScan(text: string, i: nat)
    requires i <= |text|
    ensures forall j :: i <= j < SpaceRun(text, i) ==> IsSpace(text[j])
    decreases |text| - i
  {
    if i < |text| && IsSpace(text[i]) {
      SpaceRunScan(text, i + 1);
    }
  }

  /** The length of the text `^#{1,6}\s+` matches at the start of `text`, or
      0 when it does not match. */
  function HeadingMarkLength(text: string): (k: nat)
    ensures k <= |text|
  {
    var h := HashRun(text, 0);
    if 1 <= h <= 6 && h < |text| && IsSpace(text[h]) then SpaceRun(text, h) else 0
  }

  /** The regular expression matches exactly when one to six '#' are followed
      by white space, and then it takes those '#' and the whole run of white
      space after them. */
  lemma HeadingMarkMatches(text: string)
    ensures HeadingMarkLength(text) > 0 <==>
      exists h :: 1 <= h <= 6 && h < |text| && IsSpace(text[h]) && forall i :: 0 <= i < h ==> text[i] == '#'
    ensures HeadingMarkLength(text) > 0 ==>
      var k := HeadingMarkLength(text);
      var h := HashRun(text, 0);
      1 <= h <= 6 && h < k && (forall i :: 0 <= i < h ==> text[i] == '#') &&
      (forall i :: h <= i < k ==> IsSpace(text[i])) && (k == |text| || !IsSpace(text[k]))
  {
    var h := HashRun(text, 0);
    HashRunScan(text, 0);
    if 1 <= h <= 6 && h < |text| && IsSpace(text[h]) {
      SpaceRunScan(text, h);
    }
    if HeadingMarkLength(text) > 0 {
      assert 1 <= h <= 6 && h < |text| && IsSpace(text[h]);
    }
    if exists j :: 1 <= j <= 6 && j < |text| && IsSpace(text[j]) && forall i :: 0 <= i < j ==> text[i] == '#' {
      var j :| 1 <= j <= 6 && j < |text| && IsSpace(text[j]) && forall i :: 0 <= i < j ==> text[i] == '#';
      assert text[j] != '#';
      assert h == j;
    }
  }

  /** The cursor after a heading rewrite: as far into the new "## " line as it
      was into the text after the old marks, and at its start when it was
      inside them. */
  function HeadingCursor(lineFrom: nat, head: nat, markLength: nat): nat {
    if head >= lineFrom + markLength then head - markLength + 3 else lineFrom + 3
  }

  /** `toggleLinePrefix`, with the cursor of the heading rewrite placed by
      `HeadingCursor` (see `ToggleLinePrefixAsWritten`). */
  function ToggleLinePrefix(s: EditorState, prefix: string): (e: Edit)
    requires ValidState(s)
  {
    var head := s.selection.head;
    var line := LineAt(s.doc, head);
    if StartsWith(line.text, prefix) then
      Edit([Change(line.from, line.from + |prefix|, "")],
           Cursor(if head >= line.from + |prefix| then head - |prefix| else line.from))
    else if prefix == "## " then
      var k := HeadingMarkLength(line.text);
      Edit([Change(line.from, line.to, prefix + line.text[k..])], Cursor(HeadingCursor(line.from, head, k)))
    else
      Edit([Change(line.from, line.from, prefix)], Cursor(head + |prefix|))
  }

  /** `toggleLinePrefix` as written: the heading rewrite moves the cursor by
      three even when it removed an older, shorter or longer heading mark. */
  function ToggleLinePrefixAsWritten(s: EditorState, prefix: string): (e: Edit)
    requires ValidState(s)
  {
    var head := s.selection.head;
    var line := LineAt(s.doc, head);
    if !StartsWith(line.text, prefix) && prefix == "## " then
      Edit([Change(line.from, line.to, prefix + line.text[HeadingMarkLength(line.text)..])], Cursor(head + |prefix|))
    else
      ToggleLinePrefix(s, prefix)
  }

  /** The line's prefix is deleted and the cursor moves back by its length,
      but not before the line start. */
  lemma PrefixRemoved(s: EditorState, prefix: string)
    requires ValidState(s)
    requires StartsWith(LineAt(s.doc, s.selection.head).text, prefix)
    ensures ValidChanges(s.doc, ToggleLinePrefix(s, prefix).changes)
    ensures var line := LineAt(s.doc, s.selection.head);
      var head := s.selection.head;
      Update(s, ToggleLinePrefix(s, prefix)) ==
      Ok(EditorState(s.doc[..line.from] + s.doc[line.from + |prefix|..],
                     Cursor(if head >= line.from + |prefix| then head - |prefix| else line.from)))
  {
    var line := LineAt(s.doc, s.selection.head);
    ApplyOneDeletion(s.doc, Change(line.from, line.from + |prefix|, ""));
  }

  /** Any other prefix is inserted at the line start and the cursor moves with the text. */
  lemma PrefixInserted(s: EditorState, prefix: string)
    requires ValidState(s)
    requires !StartsWith(LineAt(s.doc, s.selection.head).text, prefix) && prefix != "## "
    ensures ValidChanges(s.doc, ToggleLinePrefix(s, prefix).changes)
    ensures var line := LineAt(s.doc, s.selection.head);
      Update(s, ToggleLinePrefix(s, prefix)) ==
      Ok(EditorState(s.doc[..line.from] + prefix + s.doc[line.from..], Cursor(s.selection.head + |prefix|)))
  {
    var line := LineAt(s.doc, s.selection.head);
    ApplyOne(s.doc, Change(line.from, line.from, prefix));
  }

  /** "## " replaces an existing `#{1,6}\s+` mark instead of stacking on it,
      and the cursor keeps its place in the heading text. */
  lemma HeadingReplaced(s: EditorState)
    requires ValidState(s)
    requires !StartsWith(LineAt(s.doc, s.selection.head).text, "## ")
    ensures ValidChanges(s.doc, ToggleLinePrefix(s, "## ").changes)
    ensures var line := LineAt(s.doc, s.selection.head);
      var k := HeadingMarkLength(line.text);
      var r := Update(s, ToggleLinePrefix(s, "## "));
      r.Ok? && r.value.doc == s.doc[..line.from] + ("## " + line.text[k..]) + s.doc[line.to..] &&
      r.value.selection.Empty() &&
      line.from + 3 <= r.value.selection.head <= line.from + 3 + |line.text| - k &&
      (s.selection.head >= line.from + k ==>
        r.value.doc[r.value.selection.head..line.from + 3 + |line.text| - k] == s.doc[s.selection.head..line.to])
  {
    var line, k := HeadingEdit(s);
    var c := HeadingCursor(line.from, s.selection.head, k);
    HeadingText(s.doc, line.from, line.to, s.selection.head, k);
    UpdateOne(s, Change(line.from, line.to, "## " + line.text[k..]), Cursor(c));
  }

  /** The edit of the heading rewrite. */
  lemma HeadingEdit(s: EditorState) returns (line: Line, k: nat)
    requires ValidState(s)
    requires !StartsWith(LineAt(s.doc, s.selection.head).text, "## ")
    ensures line == LineAt(s.doc, s.selection.head) && k == HeadingMarkLength(line.text)
    ensures line.from <= s.selection.head <= line.to <= |s.doc| && line.text == s.doc[line.from..line.to]
    ensures ToggleLinePrefix(s, "## ") ==
      Edit([Change(line.from, line.to, "## " + line.text[k..])], Cursor(HeadingCursor(line.from, s.selection.head, k)))
  {
    line := LineAt(s.doc, s.selection.head);
    k := HeadingMarkLength(line.text);
  }

  /** Where the cursor of the heading rewrite lands in the rewritten document. */
  lemma HeadingText(doc: string, from: nat, to: nat, head: nat, k: nat)
    requires from <= head <= to <= |doc| && k <= to - from
    ensures var d := doc[..from] + ("## " + doc[from..to][k..]) + doc[to..];
      var c := HeadingCursor(from, head, k);
      |d| == |doc| + 3 - k && from + 3 <= c <= from + 3 + (to - from) - k &&
      (head >= from + k ==> d[c..from + 3 + (to - from) - k] == doc[head..to])
  {
    var d := doc[..from] + ("## " + doc[from..to][k..]) + doc[to..];
    var c := HeadingCursor(from, head, k);
    if head >= from + k {
      assert d[c..from + 3 + (to - from) - k] == doc[from..to][head - from..];
    }
  }

  /** Text without line breaks inserted into a stretch without line breaks leaves none. */
  lemma NoBreakAfterInsert(doc: string, at: nat, hi: nat, ins: string)
    requires at <= hi <= |doc| && NoBreakBetween(doc, at, hi)
    requires forall i :: 0 <= i < |ins| ==> ins[i] != '\n'
    ensures NoBreakBetween(doc[..at] + ins + doc[at..], at, hi + |ins|)
  {
    var d := doc[..at] + ins + doc[at..];
    forall i | at <= i < hi + |ins|
      ensures d[i] != '\n'
    {
      if i < at + |ins| {
        assert d[i] == ins[i - at];
      } else {
        assert d[i] == doc[i - |ins|];
      }
    }
  }

  /** The line a position lies on after text without line breaks was inserted at its line start. */
  lemma LineAfterPrefix(doc: string, p: nat, prefix: string)
    requires p <= |doc| && forall i :: 0 <= i < |prefix| ==> prefix[i] != '\n'
    ensures var line := LineAt(doc, p);
      var d := doc[..line.from] + prefix + doc[line.from..];
      LineAt(d, p + |prefix|).from == line.from && LineAt(d, p + |prefix|).text == prefix + line.text
  {
    var line := LineAt(doc, p);
    var d := doc[..line.from] + prefix + doc[line.from..];
    var q := p + |prefix|;
    var e := line.to + |prefix|;
    LineAtNoBreak(doc, p);
    NoBreakAfterInsert(doc, line.from, line.to, prefix);
    InsertSlices(doc, line.from, line.to, prefix);
    LineBetween(d, q, line.from, e);
  }

  /** Where the text around an insertion point ends up. */
  lemma InsertSlices(doc: string, at: nat, hi: nat, ins: string)
    requires at <= hi <= |doc|
    ensures var d := doc[..at] + ins + doc[at..];
      |d| == |doc| + |ins| && d[at..hi + |ins|] == ins + doc[at..hi] &&
      (at > 0 ==> d[at - 1] == doc[at - 1]) && (hi < |doc| ==> d[hi + |ins|] == doc[hi])
  {
    var d := doc[..at] + ins + doc[at..];
    assert d[at..hi + |ins|] == ins + doc[at..hi];
  }

  /** Toggling a prefix on and off again restores the document and leaves the
      cursor where the head was. */
  lemma PrefixRoundTrip(s: EditorState, prefix: string)
    requires ValidState(s) && forall i :: 0 <= i < |prefix| ==> prefix[i] != '\n'
    requires !StartsWith(LineAt(s.doc, s.selection.head).text, prefix)
    requires prefix != "## " || HeadingMarkLength(LineAt(s.doc, s.selection.head).text) == 0
    ensures Update(s, ToggleLinePrefix(s, prefix)).Ok?
    ensures var s1 := Update(s, ToggleLinePrefix(s, prefix)).value;
      ValidState(s1) && ValidChanges(s1.doc, ToggleLinePrefix(s1, prefix).changes) &&
      Update(s1, ToggleLinePrefix(s1, prefix)) == Ok(EditorState(s.doc, Cursor(s.selection.head)))
  {
    var s1 := PrefixAdded(s, prefix);
    PrefixDropped(s, prefix, Update(s, ToggleLinePrefix(s, prefix)).value);
  }

  /** The second toggle finds the inserted prefix at the line start and deletes it. */
  lemma PrefixDropped(s: EditorState, prefix: string, s1: EditorState)
    requires ValidState(s) && forall i :: 0 <= i < |prefix| ==> prefix[i] != '\n'
    requires var from := LineAt(s.doc, s.selection.head).from;
      s1 == EditorState(s.doc[..from] + prefix + s.doc[from..], Cursor(s.selection.head + |prefix|))
    ensures ValidState(s1) && ValidChanges(s1.doc, ToggleLinePrefix(s1, prefix).changes)
    ensures Update(s1, ToggleLinePrefix(s1, prefix)) == Ok(EditorState(s.doc, Cursor(s.selection.head)))
  {
    var head := s.selection.head;
    var line := LineAt(s.doc, head);
    LineAfterPrefix(s.doc, head, prefix);
    var line1 := LineAt(s1.doc, s1.selection.head);
    assert line1.from == line.from && StartsWith(line1.text, prefix);
    assert (if s1.selection.head >= line1.from + |prefix| then s1.selection.head - |prefix| else line1.from) == head;
    PrefixDeleted(s.doc, line.from, prefix);
    PrefixRemoved(s1, prefix);
  }

  /** Deleting an inserted prefix gives back the text. */
  lemma PrefixDeleted(doc: string, from: nat, prefix: string)
    requires from <= |doc|
    ensures var d := doc[..from] + prefix + doc[from..];
      from + |prefix| <= |d| && d[..from] + d[from + |prefix|..] == doc
  {
    var d := doc[..from] + prefix + doc[from..];
    assert d[..from] == doc[..from];
    assert d[from + |prefix|..] == doc[from..];
  }

  /** The first toggle of a prefix absent from the line, "## " included when
      the line has no heading mark, inserts it at the line start. */
  lemma PrefixAdded(s: EditorState, prefix: string) returns (s1: EditorState)
    requires ValidState(s)
    requires !StartsWith(LineAt(s.doc, s.selection.head).text, prefix)
    requires prefix != "## " || HeadingMarkLength(LineAt(s.doc, s.selection.head).text) == 0
    ensures var line := LineAt(s.doc, s.selection.head);
      s1 == EditorState(s.doc[..line.from] + prefix + s.doc[line.from..], Cursor(s.selection.head + |prefix|))
    ensures Update(s, ToggleLinePrefix(s, prefix)) == Ok(s1)
  {
    var line := LineAt(s.doc, s.selection.head);
    s1 := EditorState(s.doc[..line.from] + prefix + s.doc[line.from..], Cursor(s.selection.head + |prefix|));
    if prefix == "## " {
      var line, k := HeadingEdit(s);
      UpdateOne(s, Change(line.from, line.to, "## " + line.text[0..]), Cursor(s.selection.head + 3));
      assert line.text[0..] == s.doc[line.from..line.to];
      PrefixSplice(s.doc, line.from, line.to, "## ");
    } else {
      PrefixInserted(s, prefix);
    }
  }

  /** Replacing a range by itself behind a prefix only inserts the prefix. */
  lemma PrefixSplice(doc: string, from: nat, to: nat, p: string)
    requires from <= to <= |doc|
    ensures doc[..from] + (p + doc[from..to]) + doc[to..] == doc[..from] + p + doc[from..]
  {
    assert doc[from..] == doc[from..to] + doc[to..];
  }

  // ---------------------------------------------------------------------------
  // Code fences around the selection

  /** `[a-z0-9_+.#-]` under the case-insensitive flag. */
  predicate IsFenceInfoChar(c: char) {
    IsWordChar(c) || c == '+' || c == '.' || c == '#' || c == '-'
  }

  /** The end of the run of info-string characters starting at `i`. */
  function InfoRun(t: string, i: nat): (r: nat)
    requires i <= |t|
    ensures i <= r <= |t| && (r == |t| || !IsFenceInfoChar(t[r]))
    decreases |t| - i
  {
    if i < |t| && IsFenceInfoChar(t[i]) then InfoRun(t, i + 1) else i
  }

  lemma {:induction false} InfoRunScan(t: string, i: nat)
    requires i <= |t|
    ensures forall j :: i <= j < InfoRun(t, i) ==> IsFenceInfoChar(t[j])
    decreases |t| - i
  {
    if i < |t| && IsFenceInfoChar(t[i]) {
      InfoRunScan(t, i + 1);
    }
  }

  /** `.replace(/^```[a-z0-9_+.#-]*\n?/iu, "")`. */
  function StripOpeningFence(t: string): (r: string)
    ensures |r| <= |t| && r == t[|t| - |r|..]
  {
    if StartsWith(t, "```") then
      var j := InfoRun(t, 3);
      if j < |t| && t[j] == '\n' then t[j + 1..] else t[j..]
    else t
  }

  /** `.replace(/\n?```$/u, "")`. */
  function StripClosingFence(t: string): (r: string)
    ensures |r| <= |t| && r == t[..|r|]
  {
    if EndsWith(t, "\n```") then t[..|t| - 4]
    else if EndsWith(t, "```") then t[..|t| - 3]
    else t
  }

  /** `toggleCodeFence`. */
  function ToggleCodeFence(s: EditorState): (e: Edit)
    requires ValidState(s)
  {
    var from := s.selection.From();
    var to := s.selection.To();
    var selected := s.doc[from..to];
    if StartsWith(selected, "```") && EndsWith(selected, "```") then
      var stripped := StripClosingFence(StripOpeningFence(selected));
      Edit([Change(from, to, stripped)], Selection(from, from + |stripped|))
    else
      Edit([Change(from, to, "```\n" + selected + "\n```")], Selection(from + 4, from + 4 + |selected|))
  }

  /** Fencing puts the selected text X between "```\n" and "\n```" and keeps X selected. */
  lemma FenceWraps(s: EditorState)
    requires ValidState(s)
    requires var x := s.doc[s.selection.From()..s.selection.To()]; !(StartsWith(x, "```") && EndsWith(x, "```"))
    ensures ValidChanges(s.doc, ToggleCodeFence(s).changes)
    ensures var from := s.selection.From();
      var x := s.doc[from..s.selection.To()];
      var r := Update(s, ToggleCodeFence(s));
      r == Ok(EditorState(s.doc[..from] + ("```\n" + x + "\n```") + s.doc[s.selection.To()..],
                          Selection(from + 4, from + 4 + |x|))) &&
      r.value.doc[from + 4..from + 4 + |x|] == x
  {
    var from := s.selection.From();
    var x := s.doc[from..s.selection.To()];
    UpdateOne(s, Change(from, s.selection.To(), "```\n" + x + "\n```"), Selection(from + 4, from + 4 + |x|));
    FencedSlice(s.doc, from, s.selection.To());
  }

  /** The selected text sits 4 characters further on inside the new fence. */
  lemma FencedSlice(doc: string, from: nat, to: nat)
    requires from <= to <= |doc|
    ensures var x := doc[from..to];
      var d := doc[..from] + ("```\n" + x + "\n```") + doc[to..];
      |d| == |doc| + 8 && d[from + 4..from + 4 + |x|] == x && d[from..from + |x| + 8] == "```\n" + x + "\n```" &&
      d[..from] == doc[..from] && d[from + |x| + 8..] == doc[to..]
  {
    var x := doc[from..to];
    var d := doc[..from] + ("```\n" + x + "\n```") + doc[to..];
    assert d[from..from + |x| + 8] == "```\n" + x + "\n```";
    assert d[from + 4..from + 4 + |x|] == ("```\n" + x + "\n```")[4..4 + |x|];
  }

  /** A selection that starts and ends with "```" loses its fences and the remaining text is selected. */
  lemma FenceUnwraps(s: EditorState)
    requires ValidState(s)
    requires var x := s.doc[s.selection.From()..s.selection.To()]; StartsWith(x, "```") && EndsWith(x, "```")
    ensures ValidChanges(s.doc, ToggleCodeFence(s).changes)
    ensures var from := s.selection.From();
      var stripped := StripClosingFence(StripOpeningFence(s.doc[from..s.selection.To()]));
      Update(s, ToggleCodeFence(s)) ==
      Ok(EditorState(s.doc[..from] + stripped + s.doc[s.selection.To()..], Selection(from, from + |stripped|)))
  {
    var from := s.selection.From();
    var stripped := StripClosingFence(StripOpeningFence(s.doc[from..s.selection.To()]));
    ApplyOne(s.doc, Change(from, s.selection.To(), stripped));
  }

  /** Stripping the fences of a fenced X gives X back, whatever X holds. */
  lemma StripFencedText(x: string)
    ensures StripClosingFence(StripOpeningFence("```\n" + x + "\n```")) == x
  {
    var t := "```\n" + x + "\n```";
    assert t[..3] == "```";
    assert t[3] == '\n';
    assert InfoRun(t, 3) == 3;
    var u := t[4..];
    assert u == x + "\n```";
    assert u[|u| - 4..] == "\n```";
    assert u[..|u| - 4] == x;
  }

  /** Running the command on exactly the block a fencing produced restores the
      document and selects the original text again. */
  lemma FenceRoundTrip(s: EditorState)
    requires ValidState(s)
    requires var x := s.doc[s.selection.From()..s.selection.To()]; !(StartsWith(x, "```") && EndsWith(x, "```"))
    ensures Update(s, ToggleCodeFence(s)).Ok?
    ensures var from := s.selection.From();
      var x := s.doc[from..s.selection.To()];
      var s2 := EditorState(Update(s, ToggleCodeFence(s)).value.doc, Selection(from, from + |x| + 8));
      ValidState(s2) && ValidChanges(s2.doc, ToggleCodeFence(s2).changes) &&
      Update(s2, ToggleCodeFence(s2)) == Ok(EditorState(s.doc, Selection(from, s.selection.To())))
  {
    var from := s.selection.From();
    var to := s.selection.To();
    var x := s.doc[from..to];
    FenceWraps(s);
    var d := s.doc[..from] + ("```\n" + x + "\n```") + s.doc[to..];
    FenceUnwrapsBlock(s.doc, EditorState(d, Selection(from, from + |x| + 8)), from, to);
  }

  /** The command on a block just fenced around `doc[from..to]`. */
  lemma FenceUnwrapsBlock(doc: string, s2: EditorState, from: nat, to: nat)
    requires from <= to <= |doc|
    requires s2 == EditorState(doc[..from] + ("```\n" + doc[from..to] + "\n```") + doc[to..],
                               Selection(from, to + 8))
    ensures ValidState(s2) && ValidChanges(s2.doc, ToggleCodeFence(s2).changes)
    ensures Update(s2, ToggleCodeFence(s2)) == Ok(EditorState(doc, Selection(from, to)))
  {
    var x := doc[from..to];
    FencedSlice(doc, from, to);
    FenceBlockEnds(x);
    FenceUnwraps(s2);
    StripFencedText(x);
    Splice(doc, from, to);
  }

  lemma FenceBlockEnds(x: string)
    ensures var block := "```\n" + x + "\n```";
      StartsWith(block, "```") && EndsWith(block, "```")
  {
    var block := "```\n" + x + "\n```";
    assert block[..3] == "```" && block[|block| - 3..] == "```";
  }

  // ---------------------------------------------------------------------------
  // Enter after an opening fence

  /** `/^`[^`\n]+`$/u`: a single inline code span. */
  predicate IsInlineCodeSpan(t: string) {
    |t| >= 3 && t[0] == '`' && t[|t| - 1] == '`' &&
    forall i :: 1 <= i < |t| - 1 ==> t[i] != '`' && t[i] != '\n'
  }

  /** `text.match(/^```([a-z0-9_+.#-]+)?$/i)`: `None` when the line does not
      match, otherwise the capture group, itself `None` when nothing follows
      the three backticks. */
  function FenceOpening(text: string): (m: Option<Option<string>>)
    ensures m == Some(None) <==> text == "```"
    ensures m.Some? && m.value.Some? ==> text == "```" + m.value.value && m.value.value != []
  {
    if StartsWith(text, "```") && InfoRun(text, 3) == |text| then
      if |text| == 3 then Some(None) else Some(Some(text[3..]))
    else None
  }

  /** The pattern matches exactly the lines of three backticks followed by
      info-string characters only. */
  lemma FenceOpeningMatches(text: string)
    ensures FenceOpening(text).Some? <==>
      StartsWith(text, "```") && forall i :: 3 <= i < |text| ==> IsFenceInfoChar(text[i])
  {
    if StartsWith(text, "```") {
      InfoRunScan(text, 3);
    }
  }

  /** The names a plain object inherits are valid info strings, so the
      Enter rewrite can look them up. */
  lemma InheritedNameOpensFence(name: string)
    requires name in CodeLanguage.InheritedKeys
    ensures FenceOpening("```" + name) == Some(Some(name))
  {
    var text := "```" + name;
    assert forall i :: 0 <= i < |name| ==> IsFenceInfoChar(name[i]);
    assert forall i :: 3 <= i < |text| ==> text[i] == name[i - 3];
    assert text[..3] == "```";
    FenceOpeningMatches(text);
    assert text[3..] == name;
  }

  /** Line `k` trims to exactly "```". */
  predicate IsClosingFenceLine(doc: string, k: nat)
    requires 1 <= k <= LineCount(doc)
  {
    Trim(DocLine(doc, k).text) == "```"
  }

  /** What `hasClosingFenceBelow` decides: some later line trims to exactly "```". */
  predicate ClosingFenceBelow(doc: string, lineNumber: nat) {
    exists k :: lineNumber < k <= LineCount(doc) && IsClosingFenceLine(doc, k)
  }

  /** `hasClosingFenceBelow`: scans the later lines, skipping blank ones. */
  method HasClosingFenceBelow(doc: string, lineNumber: nat) returns (found: bool)
    ensures found <==> ClosingFenceBelow(doc, lineNumber)
  {
    var index := lineNumber + 1;
    while index <= LineCount(doc)
      invariant lineNumber + 1 <= index
      invariant forall k :: lineNumber < k < index && k <= LineCount(doc) ==> !IsClosingFenceLine(doc, k)
      decreases LineCount(doc) + 1 - index
    {
      var text := Trim(DocLine(doc, index).text);
      if text == "" {
        index := index + 1;
        continue;
      }
      if text == "```" {
        assert IsClosingFenceLine(doc, index);
        return true;
      }
      index := index + 1;
    }
    return false;
  }

  /** The same condition stated with positions: some position after the end of
      the line lies on a line that trims to "```". */
  lemma ClosingFenceBelowAt(doc: string, p: nat)
    requires p <= |doc|
    ensures ClosingFenceBelow(doc, LineAt(doc, p).number) <==>
      exists q :: LineAt(doc, p).to < q <= |doc| && Trim(LineAt(doc, q).text) == "```"
  {
    var l := LineAt(doc, p);
    if ClosingFenceBelow(doc, l.number) {
      var k :| l.number < k <= LineCount(doc) && IsClosingFenceLine(doc, k);
      var q := LaterLineStart(doc, p, k);
      assert Trim(LineAt(doc, q).text) == "```";
    }
    if exists q :: l.to < q <= |doc| && Trim(LineAt(doc, q).text) == "```" {
      var q :| l.to < q <= |doc| && Trim(LineAt(doc, q).text) == "```";
      var k := LaterLineNumber(doc, p, q);
      assert l.number < k <= LineCount(doc) && IsClosingFenceLine(doc, k);
    }
  }

  /** A later line that trims to "```" is a closing fence below. */
  lemma ClosingFenceAt(doc: string, p: nat, q: nat)
    requires p <= |doc| && LineAt(doc, p).to < q <= |doc| && Trim(LineAt(doc, q).text) == "```"
    ensures ClosingFenceBelow(doc, LineAt(doc, p).number)
  {
    var k := LaterLineNumber(doc, p, q);
    assert IsClosingFenceLine(doc, k);
  }

  /** A line numbered after the line of `p` starts after its end. */
  lemma LaterLineStart(doc: string, p: nat, k: nat) returns (q: nat)
    requires p <= |doc| && LineAt(doc, p).number < k <= LineCount(doc)
    ensures LineAt(doc, p).to < q <= |doc| && LineAt(doc, q) == DocLine(doc, k)
  {
    var l := LineAt(doc, p);
    q := StartOfLine(doc, k);
    LineStartUnique(doc, q, q);
    if q <= p {
      LineOrder(doc, q, p);
    } else if q <= l.to {
      LineAtSame(doc, p, q);
    }
  }

  /** A position after the end of the line of `p` lies on a later line. */
  lemma LaterLineNumber(doc: string, p: nat, q: nat) returns (k: nat)
    requires p <= |doc| && LineAt(doc, p).to < q <= |doc|
    ensures LineAt(doc, p).number < k <= LineCount(doc) && DocLine(doc, k) == LineAt(doc, q)
  {
    var l := LineAt(doc, p);
    k := LineAt(doc, q).number;
    DocLineOfLineAt(doc, q);
    LineAtNoBreak(doc, q);
    assert doc[l.to] == '\n';
    LineOrder(doc, p, q);
  }

  /** The language the Enter rewrite writes after "```": the normalized info
      string, with plain text written as nothing. */
  function FenceLanguage(info: Option<string>): (language: string)
    ensures language != "plaintext"
    ensures language == "" || language == CodeLanguage.Normalize(info)
    ensures language == "" <==> CodeLanguage.Normalize(info) == "plaintext"
    ensures CodeLanguage.Normalize(info) != "plaintext" ==> language == CodeLanguage.Normalize(info)
  {
    var normalized := CodeLanguage.Normalize(info);
    if normalized == "plaintext" then "" else normalized
  }

  /** `applyEnterBehavior`. */
  function ApplyEnterBehavior(s: EditorState): (r: Option<Edit>)
    requires ValidState(s)
  {
    if !s.selection.Empty() then None
    else
      var line := LineAt(s.doc, s.selection.head);
      if s.selection.head != line.to then None
      else if IsInlineCodeSpan(Trim(line.text)) then None
      else if StartsWith(line.text, "````") then None
      else match FenceOpening(line.text)
        case None => None
        case Some(info) =>
          var replacement := "```" + FenceLanguage(info);
          if ClosingFenceBelow(s.doc, line.number) then None
          else Some(Edit([Change(line.from, line.to, replacement + "\n\n```")], Cursor(line.from + |replacement| + 1)))
  }

  /** A line that opens a fence is neither an inline code span nor a run of four backticks. */
  lemma FenceOpeningExcludesOtherForms(text: string)
    requires FenceOpening(text).Some?
    ensures !IsInlineCodeSpan(Trim(text)) && !StartsWith(text, "````")
  {
    FenceOpeningShape(text);
    TrimIdentity(text);
    if |text| == 3 {
      assert text[1] == '`';
    } else {
      assert text[|text| - 1] != '`';
      assert text[..4][3] != '`';
    }
  }

  /** The characters a fence opening begins and ends with. */
  lemma FenceOpeningShape(text: string)
    requires FenceOpening(text).Some?
    ensures |text| >= 3 && text[0] == '`' && text[1] == '`' && text[2] == '`'
    ensures |text| > 3 ==> IsFenceInfoChar(text[3]) && IsFenceInfoChar(text[|text| - 1])
  {
    FenceOpeningMatches(text);
    assert text[..3] == "```";
  }

  /** Enter does something exactly when the selection is a cursor at the end
      of a line that opens a fence and no later line closes one. */
  lemma EnterCondition(s: EditorState)
    requires ValidState(s)
    ensures var line := LineAt(s.doc, s.selection.head);
      ApplyEnterBehavior(s).Some? <==>
        s.selection.Empty() && s.selection.head == line.to && FenceOpening(line.text).Some? &&
        !ClosingFenceBelow(s.doc, line.number)
  {
    var line := LineAt(s.doc, s.selection.head);
    if FenceOpening(line.text).Some? {
      FenceOpeningExcludesOtherForms(line.text);
    }
  }

  /** The edit Enter makes, with the line it rewrites and the new opening fence. */
  lemma EnterEdit(s: EditorState) returns (line: Line, replacement: string)
    requires ValidState(s) && ApplyEnterBehavior(s).Some?
    ensures line == LineAt(s.doc, s.selection.head) && s.selection == Cursor(line.to)
    ensures line.from <= line.to <= |s.doc| && (line.to == |s.doc| || s.doc[line.to] == '\n')
    ensures FenceOpening(line.text).Some? && !ClosingFenceBelow(s.doc, line.number)
    ensures replacement == "```" + FenceLanguage(FenceOpening(line.text).value)
    ensures ApplyEnterBehavior(s).value ==
      Edit([Change(line.from, line.to, replacement + "\n\n```")], Cursor(line.from + |replacement| + 1))
  {
    line := LineAt(s.doc, s.selection.head);
    replacement := "```" + FenceLanguage(FenceOpening(line.text).value);
  }

  /** The opening line becomes "```lang\n\n```" and the cursor lands on the
      empty line inside the new block. */
  lemma EnterRewrite(s: EditorState) returns (line: Line, replacement: string)
    requires ValidState(s) && ApplyEnterBehavior(s).Some?
    ensures line == LineAt(s.doc, s.selection.head)
    ensures replacement == "```" + FenceLanguage(FenceOpening(line.text).value)
    ensures ValidChanges(s.doc, ApplyEnterBehavior(s).value.changes)
    ensures var c := line.from + |replacement| + 1;
      var r := Update(s, ApplyEnterBehavior(s).value);
      r == Ok(EditorState(s.doc[..line.from] + (replacement + "\n\n```") + s.doc[line.to..], Cursor(c))) &&
      r.value.doc[c - 1] == '\n' && r.value.doc[c] == '\n'
  {
    line, replacement := EnterEdit(s);
    EnterUpdate(s, line.from, line.to, replacement);
  }

  /** The update a rewrite of the line `from..to` into an opening fence, an
      empty line and a closing fence makes. */
  lemma EnterUpdate(s: EditorState, from: nat, to: nat, replacement: string)
    requires from <= to <= |s.doc|
    ensures var c := from + |replacement| + 1;
      var d := s.doc[..from] + (replacement + "\n\n```") + s.doc[to..];
      ValidChanges(s.doc, [Change(from, to, replacement + "\n\n```")]) &&
      Update(s, Edit([Change(from, to, replacement + "\n\n```")], Cursor(c))) == Ok(EditorState(d, Cursor(c))) &&
      d[c - 1] == '\n' && d[c] == '\n'
  {
    var c := from + |replacement| + 1;
    RewriteSlices(s.doc, from, to, replacement);
    UpdateOne(s, Change(from, to, replacement + "\n\n```"), Cursor(c));
  }

  /** The pieces of a rewritten opening line. */
  lemma RewriteSlices(doc: string, from: nat, to: nat, replacement: string)
    requires from <= to <= |doc|
    ensures var d := doc[..from] + (replacement + "\n\n```") + doc[to..];
      var h := from + |replacement|;
      |d| == h + 5 + |doc| - to && d[h] == '\n' && d[h + 1] == '\n' && d[h + 2..h + 5] == "```" &&
      (to < |doc| ==> d[h + 5] == doc[to])
  {
    var d := doc[..from] + (replacement + "\n\n```") + doc[to..];
    var h := from + |replacement|;
    assert d[h..h + 5] == "\n\n```";
    assert d[h + 2..h + 5] == d[h..h + 5][2..];
  }

  /** After the rewrite, the line below the cursor's line is a closing fence. */
  lemma ClosingFenceAfterRewrite(doc: string, from: nat, to: nat, replacement: string) returns (q: nat)
    requires from <= to <= |doc| && (to == |doc| || doc[to] == '\n')
    ensures var d := doc[..from] + (replacement + "\n\n```") + doc[to..];
      var h := from + |replacement|;
      h <= |d| && LineAt(d, h).to < q <= |d| && Trim(LineAt(d, q).text) == "```"
  {
    var d := doc[..from] + (replacement + "\n\n```") + doc[to..];
    var h := from + |replacement|;
    q := h + 2;
    RewriteSlices(doc, from, to, replacement);
    LineEndUnique(d, h, h);
    assert NoBreakBetween(d, q, q + 3) by {
      assert forall i :: q <= i < q + 3 ==> d[i] == d[q..q + 3][i - q];
    }
    LineBetween(d, q, q, q + 3);
    TrimIdentity("```");
  }

  /** A second Enter at the end of the rewritten opening line does nothing:
      the block now has its closing fence. */
  lemma SecondEnterIsNull(s: EditorState) returns (line: Line, replacement: string)
    requires ValidState(s) && ApplyEnterBehavior(s).Some?
    ensures line == LineAt(s.doc, s.selection.head)
    ensures replacement == "```" + FenceLanguage(FenceOpening(line.text).value)
    ensures var s1 := Update(s, ApplyEnterBehavior(s).value);
      s1.Ok? && line.from + |replacement| <= |s1.value.doc| &&
      ApplyEnterBehavior(EditorState(s1.value.doc, Cursor(line.from + |replacement|))).None?
  {
    line, replacement := EnterRewrite(s);
    var s1 := Update(s, ApplyEnterBehavior(s).value);
    var s2 := EditorState(s1.value.doc, Cursor(line.from + |replacement|));
    EnterOnRewritten(s.doc, line.from, line.to, replacement, s2);
    assert s2.selection.head <= |s2.doc|;
  }

  /** Enter at the end of a rewritten opening line finds the closing fence below. */
  lemma EnterOnRewritten(doc: string, from: nat, to: nat, replacement: string, s2: EditorState)
    requires from <= to <= |doc| && (to == |doc| || doc[to] == '\n')
    requires s2 == EditorState(doc[..from] + (replacement + "\n\n```") + doc[to..], Cursor(from + |replacement|))
    ensures ValidState(s2) && ApplyEnterBehavior(s2).None?
  {
    var q := ClosingFenceAfterRewrite(doc, from, to, replacement);
    ClosingFenceAt(s2.doc, s2.selection.head, q);
    EnterNullWhenClosed(s2);
  }

  /** Enter does nothing on a line with a closing fence below it. */
  lemma EnterNullWhenClosed(s: EditorState)
    requires ValidState(s) && ClosingFenceBelow(s.doc, LineAt(s.doc, s.selection.head).number)
    ensures ApplyEnterBehavior(s).None?
  {
  }

  // ---------------------------------------------------------------------------
  // Dispatcher

  /** `applyMarkdownShortcut` over the eight commands (its `default` branch
      cannot be reached with a `MarkdownShortcutCommand`). */
  function ApplyMarkdownShortcut(cmd: Command, s: EditorState): (e: Edit)
    requires ValidState(s)
  {
    match cmd
    case ToggleBold => ToggleWrap(s, "**", "**")
    case ToggleItalic => ToggleWrap(s, "*", "*")
    case ToggleInlineCode => ToggleWrap(s, "`", "`")
    case ToggleHeading2 => ToggleLinePrefix(s, "## ")
    case ToggleBlockquote => ToggleLinePrefix(s, "> ")
    case ToggleBulletList => ToggleLinePrefix(s, "- ")
    case ToggleOrderedList => ToggleLinePrefix(s, "1. ")
    case ToggleCodeFence => ToggleCodeFence(s)
  }

  lemma WrapApplies(s: EditorState, open: string, close: string)
    requires ValidState(s)
    ensures ValidChanges(s.doc, ToggleWrap(s, open, close).changes)
    ensures Update(s, ToggleWrap(s, open, close)).Ok?
  {
    var (from, to) := WrapRange(s);
    if HasWrapper(s.doc, from, to, open, close) { WrapRemoves(s, open, close); } else { WrapInserts(s, open, close); }
  }

  lemma LinePrefixApplies(s: EditorState, prefix: string)
    requires ValidState(s)
    ensures ValidChanges(s.doc, ToggleLinePrefix(s, prefix).changes)
    ensures Update(s, ToggleLinePrefix(s, prefix)).Ok?
  {
    var line := LineAt(s.doc, s.selection.head);
    if StartsWith(line.text, prefix) { PrefixRemoved(s, prefix); }
    else if prefix == "## " { HeadingReplaced(s); }
    else { PrefixInserted(s, prefix); }
  }

  lemma FenceApplies(s: EditorState)
    requires ValidState(s)
    ensures ValidChanges(s.doc, ToggleCodeFence(s).changes)
    ensures Update(s, ToggleCodeFence(s)).Ok?
  {
    var x := s.doc[s.selection.From()..s.selection.To()];
    if StartsWith(x, "```") && EndsWith(x, "```") { FenceUnwraps(s); } else { FenceWraps(s); }
  }

  /** Every command yields changes inside the document and a selection inside
      the new document, so `state.update` never raises. */
  lemma ShortcutApplies(cmd: Command, s: EditorState)
    requires ValidState(s)
    ensures ValidChanges(s.doc, ApplyMarkdownShortcut(cmd, s).changes)
    ensures Update(s, ApplyMarkdownShortcut(cmd, s)).Ok?
    ensures ValidState(Update(s, ApplyMarkdownShortcut(cmd, s)).value)
  {
    match cmd
    case ToggleBold => WrapApplies(s, "**", "**");
    case ToggleItalic => WrapApplies(s, "*", "*");
    case ToggleInlineCode => WrapApplies(s, "`", "`");
    case ToggleHeading2 => LinePrefixApplies(s, "## ");
    case ToggleBlockquote => LinePrefixApplies(s, "> ");
    case ToggleBulletList => LinePrefixApplies(s, "- ");
    case ToggleOrderedList => LinePrefixApplies(s, "1. ");
    case ToggleCodeFence => FenceApplies(s);
  }

  /** The three wrap commands round-trip: their markers hold no word characters. */
  lemma ShortcutWrapRoundTrip(cmd: Command, s: EditorState)
    requires ValidState(s) && cmd in {ToggleBold, ToggleItalic, ToggleInlineCode}
    requires var m := if cmd == ToggleBold then "**" else if cmd == ToggleItalic then "*" else "`";
      !HasWrapper(s.doc, WrapRange(s).0, WrapRange(s).1, m, m)
    ensures Update(s, ApplyMarkdownShortcut(cmd, s)).Ok?
    ensures var s1 := Update(s, ApplyMarkdownShortcut(cmd, s)).value;
      ValidState(s1) && ValidChanges(s1.doc, ApplyMarkdownShortcut(cmd, s1).changes) &&
      Update(s1, ApplyMarkdownShortcut(cmd, s1)) == Ok(EditorState(s.doc, Selection(WrapRange(s).0, WrapRange(s).1)))
  {
    var m := if cmd == ToggleBold then "**" else if cmd == ToggleItalic then "*" else "`";
    WrapRoundTrip(s, m, m);
  }

  /** Enter's rewrite always applies. */
  lemma EnterApplies(s: EditorState)
    requires ValidState(s) && ApplyEnterBehavior(s).Some?
    ensures ValidChanges(s.doc, ApplyEnterBehavior(s).value.changes)
    ensures Update(s, ApplyEnterBehavior(s).value).Ok?
  {
    var line0, replacement0 := EnterRewrite(s);
  }

  // ---------------------------------------------------------------------------
  // The heading cursor as written

  /** As written, toggling "## " on "# T" with the cursor at its end asks for
      a cursor at 6 in a four-character document, and CodeMirror rejects the
      transaction. */
  lemma HeadingCursorAsWrittenFails()
    ensures var s := EditorState("# T", Cursor(3));
      ValidChanges(s.doc, ToggleLinePrefixAsWritten(s, "## ").changes) &&
      Update(s, ToggleLinePrefixAsWritten(s, "## ")).Err?
  {
    var s := EditorState("# T", Cursor(3));
    LineOfHashT();
    HeadingMarkOfHashT();
    ApplyOne("# T", Change(0, 3, "## T"));
  }

  /** The corrected cursor stays in the heading text. */
  lemma HeadingCursorCorrected()
    ensures var s := EditorState("# T", Cursor(3));
      ValidChanges(s.doc, ToggleLinePrefix(s, "## ").changes) &&
      Update(s, ToggleLinePrefix(s, "## ")) == Ok(EditorState("## T", Cursor(4)))
  {
    var s := EditorState("# T", Cursor(3));
    LineOfHashT();
    HeadingMarkOfHashT();
    assert "# T"[..3][1] != "## "[1];
    assert !StartsWith("# T", "## ");
    assert "## " + "# T"[2..] == "## T";
    assert ToggleLinePrefix(s, "## ") == Edit([Change(0, 3, "## T")], Cursor(4));
    UpdateOne(s, Change(0, 3, "## T"), Cursor(4));
    assert "# T"[..0] + "## T" + "# T"[3..] == "## T";
  }

  lemma LineOfHashT()
    ensures LineAt("# T", 3) == Line(1, 0, 3, "# T")
  {
    LineStartUnique("# T", 3, 0);
    LineEndUnique("# T", 3, 3);
    assert "# T"[..0] == [];
  }

  lemma HeadingMarkOfHashT()
    ensures HeadingMarkLength("# T") == 2 && "# T"[2..] == "T"
  {
    assert HashRun("# T", 1) == 1;
    assert SpaceRun("# T", 2) == 2;
  }

  // ---------------------------------------------------------------------------
  // Examples

  /** "hello world" with "world" selected becomes "hello **world**". */
  lemma BoldExample()
    ensures var s := EditorState("hello world", Selection(6, 11));
      ValidChanges(s.doc, ApplyMarkdownShortcut(ToggleBold, s).changes) &&
      Update(s, ApplyMarkdownShortcut(ToggleBold, s)) == Ok(EditorState("hello **world**", Selection(8, 13)))
  {
    var s := EditorState("hello world", Selection(6, 11));
    assert WrapRange(s) == (6, 11);
    WrapInserts(s, "**", "**");
    BoldText();
  }

  lemma BoldText()
    ensures var t := "hello world";
      t[..6] + "**" + t[6..11] + "**" + t[11..] == "hello **world**"
  {
  }

  /** An empty selection away from any word gives the cursor between empty markers. */
  lemma EmptyBoldExample()
    ensures var s := EditorState("", Cursor(0));
      ValidChanges(s.doc, ApplyMarkdownShortcut(ToggleBold, s).changes) &&
      Update(s, ApplyMarkdownShortcut(ToggleBold, s)) == Ok(EditorState("****", Cursor(2)))
  {
    var s := EditorState("", Cursor(0));
    WordRangeMaximal("", 0);
    assert WrapRange(s) == (0, 0);
    WrapInserts(s, "**", "**");
    assert ""[..0] + "**" + ""[0..0] + "**" + ""[0..] == "****";
  }

  /** "Title" with the cursor at 2 becomes "## Title". */
  lemma HeadingExample()
    ensures var s := EditorState("Title", Cursor(2));
      ValidChanges(s.doc, ApplyMarkdownShortcut(ToggleHeading2, s).changes) &&
      Update(s, ApplyMarkdownShortcut(ToggleHeading2, s)).Ok? &&
      Update(s, ApplyMarkdownShortcut(ToggleHeading2, s)).value.doc == "## Title"
  {
    var s := EditorState("Title", Cursor(2));
    LineStartUnique("Title", 2, 0);
    LineEndUnique("Title", 2, 5);
    assert "Title"[0..5] == "Title";
    assert HeadingMarkLength("Title") == 0;
    HeadingReplaced(s);
    assert "Title"[..0] + "## " + "Title"[0..] + "Title"[5..] == "## Title";
  }

  /** Enter after "```py" writes "```python\n\n```" with the cursor at 10. */
  lemma EnterPythonExample()
    ensures var s := EditorState("```py", Cursor(5));
      ApplyEnterBehavior(s).Some? &&
      ValidChanges(s.doc, ApplyEnterBehavior(s).value.changes) &&
      Update(s, ApplyEnterBehavior(s).value) == Ok(EditorState("```python\n\n```", Cursor(10)))
  {
    var s := EditorState("```py", Cursor(5));
    LineStartUnique("```py", 5, 0);
    LineEndUnique("```py", 5, 5);
    assert "```py"[..0] == [] && "```py"[0..5] == "```py";
    var line := LineAt("```py", 5);
    assert line == Line(1, 0, 5, "```py");
    assert "```py"[..3] == "```";
    assert InfoRun("```py", 3) == 5;
    assert FenceOpening("```py") == Some(Some("py"));
    PythonFence();
    assert LineCount("```py") == 1;
    assert !ClosingFenceBelow("```py", 1);
    EnterCondition(s);
    var line0, replacement0 := EnterRewrite(s);
    assert replacement0 == "```python";
    PythonBlock();
  }

  lemma PythonBlock()
    ensures "```py"[..0] + ("```python" + "\n\n```") + "```py"[5..] == "```python\n\n```"
  {
  }

  lemma PythonFence()
    ensures "```" + FenceLanguage(Some("py")) == "```python"
  {
    NormalizePy();
  }

  lemma NormalizePy()
    ensures CodeLanguage.Normalize(Some("py")) == "python"
  {
    CodeLanguage.TrimOfPlainWord("py");
    CodeLanguage.LowerOfPy();
  }

  /** Enter after a whole inline code span does nothing. */
  lemma EnterInlineCodeExample()
    ensures ApplyEnterBehavior(EditorState("`test`", Cursor(6))).None?
  {
    LineStartUnique("`test`", 6, 0);
    LineEndUnique("`test`", 6, 6);
    assert "`test`"[0..6] == "`test`";
    CodeLanguage.TrimOfPlainWord("`test`");
    assert IsInlineCodeSpan("`test`");
  }

  /** Enter after "```python" does nothing when a later line closes the block. */
  lemma EnterClosedFenceExample()
    ensures ApplyEnterBehavior(EditorState("```python\nprint(1)\n```", Cursor(9))).None?
  {
    var d := "```python\nprint(1)\n```";
    LineEndUnique(d, 9, 9);
    LineStartUnique(d, 19, 19);
    LineEndUnique(d, 19, 22);
    assert d[19..22] == "```";
    TrimIdentity("```");
    ClosingFenceAt(d, 9, 19);
    EnterNullWhenClosed(EditorState(d, Cursor(9)));
  }

  /** A later line that merely starts with "```" does not stop the scan. */
  lemma EnterNestedFenceExample()
    ensures ApplyEnterBehavior(EditorState("```python\n```javascript\nprint(1)\n```", Cursor(9))).None?
  {
    var d := "```python\n```javascript\nprint(1)\n```";
    LineEndUnique(d, 9, 9);
    LineStartUnique(d, 33, 33);
    LineEndUnique(d, 33, 36);
    assert d[33..36] == "```";
    TrimIdentity("```");
    ClosingFenceAt(d, 9, 33);
    EnterNullWhenClosed(EditorState(d, Cursor(9)));
  }
}
