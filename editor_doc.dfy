/** The document model of the CodeMirror editor surface as the editor code
    uses it: a string whose lines are separated by '\n', `lineAt(pos)`,
    `line(n)`, `lines` and `sliceString`. */
module EditorDoc {
  import opened Wrappers

  /** `state.doc.lineAt(pos)`: the 1-based line number, the offset of the
      line's first character, the offset of its end (the '\n' or the end of
      the document) and its text. */
  datatype Line = Line(number: nat, from: nat, to: nat, text: string)

  /** The number of line breaks before position `p`. */
  function BreaksBefore(doc: string, p: nat): (n: nat)
    requires p <= |doc|
    ensures n <= p
  {
    if p == 0 then 0 else BreaksBefore(doc, p - 1) + (if doc[p - 1] == '\n' then 1 else 0)
  }

  /** `state.doc.lines`. */
  function LineCount(doc: string): nat {
    BreaksBefore(doc, |doc|) + 1
  }

  predicate IsLineStart(doc: string, p: nat) {
    p <= |doc| && (p == 0 || doc[p - 1] == '\n')
  }

  predicate NoBreakBetween(doc: string, lo: nat, hi: nat)
    requires lo <= hi <= |doc|
  {
    forall i :: lo <= i < hi ==> doc[i] != '\n'
  }

  function LineStart(doc: string, pos: nat): (r: nat)
    requires pos <= |doc|
    ensures r <= pos && IsLineStart(doc, r)
  {
    if pos == 0 || doc[pos - 1] == '\n' then pos else LineStart(doc, pos - 1)
  }

  function LineEnd(doc: string, pos: nat): (r: nat)
    requires pos <= |doc|
    ensures pos <= r <= |doc| && (r == |doc| || doc[r] == '\n')
    decreases |doc| - pos
  {
    if pos == |doc| || doc[pos] == '\n' then pos else LineEnd(doc, pos + 1)
  }

  /** The backward and forward scans pass no line break. */
  lemma {:induction false} LineStartNoBreak(doc: string, pos: nat)
    requires pos <= |doc|
    ensures NoBreakBetween(doc, LineStart(doc, pos), pos)
  {
    if !(pos == 0 || doc[pos - 1] == '\n') {
      LineStartNoBreak(doc, pos - 1);
    }
  }

  lemma {:induction false} LineEndNoBreak(doc: string, pos: nat)
    requires pos <= |doc|
    ensures NoBreakBetween(doc, pos, LineEnd(doc, pos))
    decreases |doc| - pos
  {
    if !(pos == |doc| || doc[pos] == '\n') {
      LineEndNoBreak(doc, pos + 1);
    }
  }

  /** `state.doc.lineAt(pos)`. */
  function LineAt(doc: string, pos: nat): (l: Line)
    requires pos <= |doc|
    ensures l.from <= pos <= l.to <= |doc|
    ensures IsLineStart(doc, l.from) && (l.to == |doc| || doc[l.to] == '\n')
    ensures l.text == doc[l.from..l.to]
    ensures l.number == BreaksBefore(doc, l.from) + 1
  {
    var from := LineStart(doc, pos);
    var to := LineEnd(doc, pos);
    Line(BreaksBefore(doc, from) + 1, from, to, doc[from..to])
  }

  /** A line holds no line break. */
  lemma LineAtNoBreak(doc: string, pos: nat)
    requires pos <= |doc|
    ensures NoBreakBetween(doc, LineAt(doc, pos).from, LineAt(doc, pos).to)
    ensures forall i :: 0 <= i < |LineAt(doc, pos).text| ==> LineAt(doc, pos).text[i] != '\n'
  {
    LineStartNoBreak(doc, pos);
    LineEndNoBreak(doc, pos);
  }

  /** `state.doc.sliceString(from, to)`, which clamps to the document. */
  function Slice(doc: string, from: nat, to: nat): (r: string)
    ensures |r| <= |doc|
  {
    var a := if from <= |doc| then from else |doc|;
    var b := if to <= |doc| then (if to >= a then to else a) else |doc|;
    doc[a..b]
  }

  /** A stretch without breaks from a line start to a break or the end of the
      document is the line of every position in it. */
  lemma LineBetween(doc: string, q: nat, a: nat, b: nat)
    requires a <= q <= b <= |doc| && IsLineStart(doc, a) && NoBreakBetween(doc, a, b)
    requires b == |doc| || doc[b] == '\n'
    ensures LineAt(doc, q).from == a && LineAt(doc, q).to == b && LineAt(doc, q).text == doc[a..b]
  {
    LineStartUnique(doc, q, a);
    LineEndUnique(doc, q, b);
  }

  /** Every position of a line, its end included, lies on that same line. */
  lemma {:induction false} LineAtSame(doc: string, p: nat, q: nat)
    requires p <= |doc|
    requires LineAt(doc, p).from <= q <= LineAt(doc, p).to
    ensures LineAt(doc, q) == LineAt(doc, p)
  {
    var l := LineAt(doc, p);
    LineAtNoBreak(doc, p);
    LineStartUnique(doc, q, l.from);
    LineEndUnique(doc, q, l.to);
  }

  /** The start of a line is the only line start with no break between it and the position. */
  lemma {:induction false} LineStartUnique(doc: string, pos: nat, r: nat)
    requires r <= pos <= |doc| && IsLineStart(doc, r) && NoBreakBetween(doc, r, pos)
    ensures LineStart(doc, pos) == r
    decreases pos
  {
    if pos != r {
      LineStartUnique(doc, pos - 1, r);
    }
  }

  lemma {:induction false} LineEndUnique(doc: string, pos: nat, r: nat)
    requires pos <= r <= |doc| && (r == |doc| || doc[r] == '\n') && NoBreakBetween(doc, pos, r)
    ensures LineEnd(doc, pos) == r
    decreases r - pos
  {
    if pos != r {
      LineEndUnique(doc, pos + 1, r);
    }
  }

  /** Break counts of prefixes grow with the prefix and stay put across a stretch without breaks. */
  lemma {:induction false} BreaksMonotone(doc: string, lo: nat, hi: nat)
    requires lo <= hi <= |doc|
    ensures BreaksBefore(doc, lo) <= BreaksBefore(doc, hi)
    ensures NoBreakBetween(doc, lo, hi) ==> BreaksBefore(doc, lo) == BreaksBefore(doc, hi)
    decreases hi - lo
  {
    if lo < hi {
      BreaksMonotone(doc, lo, hi - 1);
    }
  }

  /** The line after a line begins just past its break and has the next number. */
  lemma NextLine(doc: string, p: nat)
    requires p <= |doc| && LineAt(doc, p).to < |doc|
    ensures LineAt(doc, LineAt(doc, p).to + 1).from == LineAt(doc, p).to + 1
    ensures LineAt(doc, LineAt(doc, p).to + 1).number == LineAt(doc, p).number + 1
  {
    var l := LineAt(doc, p);
    var n := LineAt(doc, l.to + 1);
    LineAtNoBreak(doc, p);
    LineStartUnique(doc, l.to + 1, l.to + 1);
    BreaksMonotone(doc, l.from, l.to);
  }

  /** A line is the last line exactly when it ends at the end of the document. */
  lemma LastLine(doc: string, p: nat)
    requires p <= |doc|
    ensures LineAt(doc, p).number <= LineCount(doc)
    ensures LineAt(doc, p).to == |doc| <==> LineAt(doc, p).number == LineCount(doc)
  {
    var l := LineAt(doc, p);
    LineAtNoBreak(doc, p);
    BreaksMonotone(doc, l.from, l.to);
    if l.to < |doc| {
      BreaksMonotone(doc, l.to + 1, |doc|);
    }
  }

  /** Of two positions, the one on a later line has the larger line number, and conversely. */
  lemma LineOrder(doc: string, p: nat, q: nat)
    requires p <= q <= |doc|
    ensures LineAt(doc, p).number <= LineAt(doc, q).number
    ensures LineAt(doc, p).from < LineAt(doc, q).from ==> LineAt(doc, p).number < LineAt(doc, q).number
    ensures LineAt(doc, p).from == LineAt(doc, q).from <==> LineAt(doc, p).number == LineAt(doc, q).number
  {
    var lp := LineAt(doc, p);
    var lq := LineAt(doc, q);
    if lq.from <= lp.to {
      LineAtNoBreak(doc, q);
      LineAtSame(doc, p, q);
    } else {
      LineAtNoBreak(doc, p);
      BreaksMonotone(doc, lp.from, lp.to);
      BreaksMonotone(doc, lp.to + 1, lq.from);
    }
  }

  /** The offset where line `n` (1-based) begins. */
  function StartOfLine(doc: string, n: nat): (p: nat)
    requires 1 <= n <= LineCount(doc)
    ensures p <= |doc| && IsLineStart(doc, p) && BreaksBefore(doc, p) + 1 == n
    decreases n
  {
    if n == 1 then
      0
    else
      var q := StartOfLine(doc, n - 1);
      NextLineStart(doc, q);
      LineEnd(doc, q) + 1
  }

  /** Past the end of a line that is not the last, the next line begins. */
  lemma NextLineStart(doc: string, q: nat)
    requires IsLineStart(doc, q) && BreaksBefore(doc, q) + 1 < LineCount(doc)
    ensures LineEnd(doc, q) + 1 <= |doc| && IsLineStart(doc, LineEnd(doc, q) + 1)
    ensures BreaksBefore(doc, LineEnd(doc, q) + 1) == BreaksBefore(doc, q) + 1
  {
    LastLine(doc, q);
    NextLine(doc, q);
  }

  /** `state.doc.line(n)`. */
  function DocLine(doc: string, n: nat): (l: Line)
    requires 1 <= n <= LineCount(doc)
    ensures l == LineAt(doc, StartOfLine(doc, n)) && l.number == n
  {
    LineAt(doc, StartOfLine(doc, n))
  }

  /** Looking a line up by its number gives the line `lineAt` finds. */
  lemma DocLineOfLineAt(doc: string, p: nat)
    requires p <= |doc|
    ensures 1 <= LineAt(doc, p).number <= LineCount(doc)
    ensures DocLine(doc, LineAt(doc, p).number) == LineAt(doc, p)
  {
    var l := LineAt(doc, p);
    LastLine(doc, p);
    var q := StartOfLine(doc, l.number);
    if q <= p {
      LineOrder(doc, q, p);
    } else {
      LineOrder(doc, p, q);
    }
    LineAtSame(doc, p, q);
  }

  /** A selection range: `from`/`to` are the smaller/larger of anchor and head. */
  datatype Selection = Selection(anchor: nat, head: nat) {
    function From(): nat { if anchor <= head then anchor else head }
    function To(): nat { if anchor <= head then head else anchor }
    predicate Empty() { anchor == head }
  }

  function Cursor(p: nat): Selection {
    Selection(p, p)
  }

  /** The document and its main selection. */
  datatype EditorState = EditorState(doc: string, selection: Selection)

  predicate ValidState(s: EditorState) {
    s.selection.anchor <= |s.doc| && s.selection.head <= |s.doc|
  }

  /** One `{from, to, insert}` change, in the coordinates of the document before the transaction. */
  datatype Change = Change(from: nat, to: nat, insert: string)

  /** What a command passes to `state.update`: the changes and the selection
      afterwards, the latter in the coordinates of the new document. */
  datatype Edit = Edit(changes: seq<Change>, selection: Selection)

  /** The change lists these commands build: each change inside the document,
      in order and not overlapping. */
  predicate ValidChanges(doc: string, cs: seq<Change>) {
    (forall i :: 0 <= i < |cs| ==> cs[i].from <= cs[i].to <= |doc|) &&
    (forall i, j :: 0 <= i < j < |cs| ==> cs[i].to <= cs[j].from)
  }

  /** The text from `pos` on after the changes `cs`, which all lie after `pos`. */
  function ApplyFrom(doc: string, cs: seq<Change>, pos: nat): (r: string)
    requires pos <= |doc| && ValidChanges(doc, cs) && (cs != [] ==> pos <= cs[0].from)
    decreases |cs|
  {
    if cs == [] then doc[pos..]
    else doc[pos..cs[0].from] + cs[0].insert + ApplyFrom(doc, cs[1..], cs[0].to)
  }

  /** The new document: the text between the changes, with each change's
      range replaced by its insert. */
  function ApplyChanges(doc: string, cs: seq<Change>): (r: string)
    requires ValidChanges(doc, cs)
  {
    ApplyFrom(doc, cs, 0)
  }

  lemma ApplyOne(doc: string, c: Change)
    requires c.from <= c.to <= |doc|
    ensures ValidChanges(doc, [c])
    ensures ApplyChanges(doc, [c]) == doc[..c.from] + c.insert + doc[c.to..]
  {
    assert [c][1..] == [];
    assert doc[0..c.from] == doc[..c.from];
    assert ApplyFrom(doc, [c], 0) == doc[0..c.from] + c.insert + ApplyFrom(doc, [], c.to);
  }

  lemma ApplyOneDeletion(doc: string, c: Change)
    requires c.from <= c.to <= |doc| && c.insert == []
    ensures ValidChanges(doc, [c])
    ensures ApplyChanges(doc, [c]) == doc[..c.from] + doc[c.to..]
  {
    ApplyOne(doc, c);
    assert doc[..c.from] + c.insert == doc[..c.from];
  }

  lemma ApplyTwo(doc: string, c1: Change, c2: Change)
    requires c1.from <= c1.to <= c2.from <= c2.to <= |doc|
    ensures ValidChanges(doc, [c1, c2])
    ensures ApplyChanges(doc, [c1, c2])
      == doc[..c1.from] + c1.insert + doc[c1.to..c2.from] + c2.insert + doc[c2.to..]
  {
    var cs := [c1, c2];
    assert cs[1..] == [c2] && cs[1..][1..] == [];
    assert doc[0..c1.from] == doc[..c1.from];
    assert ApplyFrom(doc, [c2], c1.to) == doc[c1.to..c2.from] + c2.insert + ApplyFrom(doc, [], c2.to);
    assert ApplyFrom(doc, cs, 0) == doc[0..c1.from] + c1.insert + ApplyFrom(doc, [c2], c1.to);
  }

  /** Two deletions keep the text before, between and after them. */
  lemma ApplyTwoDeletions(doc: string, c1: Change, c2: Change)
    requires c1.from <= c1.to <= c2.from <= c2.to <= |doc| && c1.insert == [] && c2.insert == []
    ensures ValidChanges(doc, [c1, c2])
    ensures ApplyChanges(doc, [c1, c2]) == doc[..c1.from] + doc[c1.to..c2.from] + doc[c2.to..]
  {
    ApplyTwo(doc, c1, c2);
    assert doc[..c1.from] + c1.insert == doc[..c1.from];
    assert doc[c1.to..c2.from] + c2.insert == doc[c1.to..c2.from];
  }

  /** `state.update(...)`: the new state, or the `RangeError` CodeMirror
      raises for a change outside the document or a selection outside the
      new document. */
  function Update(s: EditorState, e: Edit): (r: Result<EditorState, string>)
    ensures r.Ok? ==> ValidChanges(s.doc, e.changes) && ValidState(r.value) && r.value.selection == e.selection
  {
    if !ValidChanges(s.doc, e.changes) then Err("Invalid change range")
    else
    var doc := ApplyChanges(s.doc, e.changes);
    if e.selection.anchor <= |doc| && e.selection.head <= |doc| then Ok(EditorState(doc, e.selection))
    else Err("Selection points outside of document")
  }

  /** A single change inside the document: the new state, or the error for a
      selection outside the new document. */
  lemma UpdateOne(s: EditorState, c: Change, sel: Selection)
    requires c.from <= c.to <= |s.doc|
    ensures var d := s.doc[..c.from] + c.insert + s.doc[c.to..];
      Update(s, Edit([c], sel)) ==
      if sel.anchor <= |d| && sel.head <= |d| then Ok(EditorState(d, sel))
      else Err("Selection points outside of document")
  {
    ApplyOne(s.doc, c);
  }
}
