/** Writer presentation decorations
    (apps/desktop/src/editor/writerPresentationDecorations.ts): a pre-order
    walk over the syntax tree that gives heading lines a level and a scale,
    gives each line of a fenced code block an open, body or close role, and
    marks code info strings; the entries are then sorted by position. */
module PresentationDecorations {
  import opened Wrappers
  import opened EditorDoc
  import opened SyntaxTree
  import opened Sorting

  /** The parts of the writer render policy this engine reads: the scale of
      each heading level, whether code blocks are styled and whether their
      info string gets a badge. */
  datatype RenderPolicy = RenderPolicy(
    headingScale: map<nat, real>,
    codeBlockStyleEnabled: bool,
    showCodeInfoBadge: bool)

  /** A heading line carries its level and the policy's scale for it (`None`
      where the policy has no scale for the level). */
  datatype Decoration =
    | HeadingLine(level: nat, scale: Option<real>)
    | FencedOpen
    | FencedBody
    | FencedClose
    | CodeInfoMark

  datatype Entry = Entry(from: nat, to: nat, decoration: Decoration)

  /** `headingLevels`: the level of a heading node type. */
  function HeadingLevel(name: string): (r: Option<nat>)
    ensures r.Some? ==> 1 <= r.value <= 6
  {
    if name == "ATXHeading1" || name == "SetextHeading1" then Some(1)
    else if name == "ATXHeading2" || name == "SetextHeading2" then Some(2)
    else if name == "ATXHeading3" then Some(3)
    else if name == "ATXHeading4" then Some(4)
    else if name == "ATXHeading5" then Some(5)
    else if name == "ATXHeading6" then Some(6)
    else None
  }

  function Scale(policy: RenderPolicy, level: nat): Option<real> {
    if level in policy.headingScale then Some(policy.headingScale[level]) else None
  }

  // ----- Fenced code lines -----

  /** The role of line `number` in a block spanning lines `first` to `last`. */
  function FencedRole(number: nat, first: nat, last: nat): Decoration {
    if number == first then FencedOpen else if number == last then FencedClose else FencedBody
  }

  /** Where line `number` starts (`state.doc.line(number).from`); 0 for a
      number outside the document, which the walk never asks for. */
  function LineFrom(doc: string, number: nat): nat {
    if 1 <= number <= LineCount(doc) then StartOfLine(doc, number) else 0
  }

  /** The start of every line, as the block's line loop looks them up. */
  function LineStarts(doc: string): nat -> nat {
    number => LineFrom(doc, number)
  }

  function LineEntry(lineFrom: nat -> nat, number: nat, first: nat, last: nat): Entry {
    Entry(lineFrom(number), lineFrom(number), FencedRole(number, first, last))
  }

  /** The entries of lines `first` up to and excluding `upTo`, each line
      starting where `lineFrom` says. */
  function FencedLines(lineFrom: nat -> nat, first: nat, last: nat, upTo: nat): seq<Entry>
    decreases upTo - first
  {
    if upTo <= first then [] else FencedLines(lineFrom, first, last, upTo - 1) + [LineEntry(lineFrom, upTo - 1, first, last)]
  }

  /** The last position of a range that still belongs to it (`Math.max(from, to - 1)`). */
  function InclusiveEnd(from: nat, to: nat): (r: nat)
    ensures r >= from && (to > from ==> r == to - 1) && (to <= from ==> r == from)
  {
    if to >= from + 1 then to - 1 else from
  }

  /** The line entries `addFencedLineDecorations` adds for a block at `from`..`to`. */
  function FencedEntries(doc: string, from: nat, to: nat): seq<Entry>
    requires from <= |doc| && to <= |doc|
  {
    var first := LineAt(doc, from).number;
    var last := LineAt(doc, InclusiveEnd(from, to)).number;
    FencedLines(LineStarts(doc), first, last, last + 1)
  }

  lemma {:induction false} FencedLinesShape(lineFrom: nat -> nat, first: nat, last: nat, upTo: nat)
    requires first <= upTo
    ensures |FencedLines(lineFrom, first, last, upTo)| == upTo - first
    ensures forall k :: 0 <= k < upTo - first ==> FencedLines(lineFrom, first, last, upTo)[k] == LineEntry(lineFrom, first + k, first, last)
    decreases upTo - first
  {
    if upTo > first {
      FencedLinesShape(lineFrom, first, last, upTo - 1);
    }
  }

  /** The block's first and last line numbers are lines of the document, in order. */
  lemma FencedBounds(doc: string, from: nat, to: nat)
    requires from <= |doc| && to <= |doc|
    ensures var first := LineAt(doc, from);
      var last := LineAt(doc, InclusiveEnd(from, to));
      1 <= first.number <= last.number <= LineCount(doc)
  {
    DocLineOfLineAt(doc, from);
    DocLineOfLineAt(doc, InclusiveEnd(from, to));
    LineOrder(doc, from, InclusiveEnd(from, to));
  }

  /** The block's first and last lines start where `LineStarts` places them. */
  lemma FencedEnds(doc: string, from: nat, to: nat)
    requires from <= |doc| && to <= |doc|
    ensures var first := LineAt(doc, from);
      var last := LineAt(doc, InclusiveEnd(from, to));
      1 <= first.number <= LineCount(doc) && 1 <= last.number <= LineCount(doc) &&
      LineStarts(doc)(first.number) == first.from && LineStarts(doc)(last.number) == last.from
  {
    DocLineOfLineAt(doc, from);
    DocLineOfLineAt(doc, InclusiveEnd(from, to));
  }

  /** Each line number of the document is placed at a line start. */
  lemma LineFromStart(doc: string, n: nat)
    requires 1 <= n <= LineCount(doc)
    ensures LineStarts(doc)(n) <= |doc| && IsLineStart(doc, LineStarts(doc)(n))
  {
  }

  /** `state.doc.line(n).from` is where `LineStarts` places line `n`. */
  lemma DocLineFrom(doc: string, n: nat)
    requires 1 <= n <= LineCount(doc)
    ensures DocLine(doc, n).from == LineStarts(doc)(n)
  {
  }

  /** Line starts come in the order of the line numbers. */
  lemma LineStartsIncrease(doc: string, m: nat, n: nat)
    requires 1 <= m < n <= LineCount(doc)
    ensures LineStarts(doc)(m) < LineStarts(doc)(n)
  {
    var p := StartOfLine(doc, m);
    var q := StartOfLine(doc, n);
    assert LineAt(doc, p).from == p && LineAt(doc, q).from == q;
    if q <= p {
      LineOrder(doc, q, p);
    }
  }

  /** `lineFrom` places lines `first` to `last` at line starts of `doc`, in order. */
  ghost predicate PlacesLines(doc: string, lineFrom: nat -> nat, first: nat, last: nat) {
    forall n :: first <= n <= last ==> IsLineStart(doc, lineFrom(n)) && (n < last ==> lineFrom(n) < lineFrom(n + 1))
  }

  lemma LineStartsPlaceLines(doc: string, first: nat, last: nat)
    requires 1 <= first && last <= LineCount(doc)
    ensures PlacesLines(doc, LineStarts(doc), first, last)
  {
    forall n | first <= n <= last
      ensures IsLineStart(doc, LineStarts(doc)(n)) && (n < last ==> LineStarts(doc)(n) < LineStarts(doc)(n + 1))
    {
      LineFromStart(doc, n);
      if n < last {
        LineStartsIncrease(doc, n, n + 1);
      }
    }
  }

  /** The block's lines get one entry each, zero width at the start of the
      line: the first opens, the last of several closes, the others are body
      lines. */
  lemma {:induction false} FencedLinesRoles(doc: string, lineFrom: nat -> nat, first: nat, last: nat)
    requires first <= last && PlacesLines(doc, lineFrom, first, last)
    ensures var r := FencedLines(lineFrom, first, last, last + 1);
      |r| == last - first + 1 &&
      r[0] == Entry(lineFrom(first), lineFrom(first), FencedOpen) &&
      (|r| > 1 ==> r[|r| - 1] == Entry(lineFrom(last), lineFrom(last), FencedClose)) &&
      (forall k :: 0 < k < |r| - 1 ==> r[k].decoration == FencedBody) &&
      (forall k :: 0 <= k < |r| ==> r[k].from == r[k].to && IsLineStart(doc, r[k].from)) &&
      (forall k :: 0 < k < |r| ==> r[k - 1].from < r[k].from)
  {
    FencedLinesShape(lineFrom, first, last, last + 1);
    var r := FencedLines(lineFrom, first, last, last + 1);
    forall k | 0 < k < |r| ensures r[k - 1].from < r[k].from {
      assert r[k - 1].from == lineFrom(first + k - 1);
    }
  }

  /** A block gets one entry per line it touches, in order: the first line
      opens, the last of several closes, the lines between are body lines;
      every entry is zero-width at the start of its line. */
  lemma FencedShape(doc: string, from: nat, to: nat)
    requires from <= |doc| && to <= |doc|
    ensures var r := FencedEntries(doc, from, to);
      var first := LineAt(doc, from);
      var last := LineAt(doc, InclusiveEnd(from, to));
      first.number <= last.number &&
      |r| == last.number - first.number + 1 &&
      r[0] == Entry(first.from, first.from, FencedOpen) &&
      (|r| > 1 ==> r[|r| - 1] == Entry(last.from, last.from, FencedClose)) &&
      (forall k :: 0 < k < |r| - 1 ==> r[k].decoration == FencedBody) &&
      (forall k :: 0 <= k < |r| ==> r[k].from == r[k].to && IsLineStart(doc, r[k].from)) &&
      (forall k :: 0 < k < |r| ==> r[k - 1].from < r[k].from)
  {
    FencedBounds(doc, from, to);
    FencedEnds(doc, from, to);
    var first := LineAt(doc, from).number;
    var last := LineAt(doc, InclusiveEnd(from, to)).number;
    LineStartsPlaceLines(doc, first, last);
    FencedLinesRoles(doc, LineStarts(doc), first, last);
  }

  /** A block within one line gets only the open entry. */
  lemma FencedSingleLine(doc: string, from: nat, to: nat)
    requires from <= to <= |doc| && NoBreakBetween(doc, from, to)
    ensures FencedEntries(doc, from, to) == [Entry(LineAt(doc, from).from, LineAt(doc, from).from, FencedOpen)]
  {
    LineAtNoBreak(doc, from);
    LineEndUnique(doc, from, LineAt(doc, from).to);
    var e := InclusiveEnd(from, to);
    assert LineAt(doc, from).from <= e <= LineAt(doc, from).to;
    LineAtSame(doc, from, e);
    FencedShape(doc, from, to);
  }

  /** A sequence holding `entries` and then one entry per line, each at
      `lineFrom` of its number with its role, is `entries` followed by the
      block's lines. */
  lemma FencedLinesMatch(lineFrom: nat -> nat, first: nat, last: nat, entries: seq<Entry>, out: seq<Entry>)
    requires first <= last
    requires |out| == |entries| + last + 1 - first && out[..|entries|] == entries
    requires forall n :: first <= n <= last ==>
      out[|entries| + (n - first)] == Entry(lineFrom(n), lineFrom(n), FencedRole(n, first, last))
    ensures out == entries + FencedLines(lineFrom, first, last, last + 1)
  {
    var r := FencedLines(lineFrom, first, last, last + 1);
    FencedLinesShape(lineFrom, first, last, last + 1);
    forall k | 0 <= k < |r| ensures out[|entries| + k] == r[k] {
      assert out[|entries| + (first + k - first)] == Entry(lineFrom(first + k), lineFrom(first + k), FencedRole(first + k, first, last));
    }
    assert out == entries + r;
  }

  /** `out` holds `entries` and then one entry for each of lines `first` to
      `upTo - 1` of the block, at `state.doc.line(n).from` with its role. */
  ghost predicate PushedLines(doc: string, entries: seq<Entry>, out: seq<Entry>, first: nat, last: nat, upTo: nat)
    requires 1 <= first && last <= LineCount(doc)
  {
    first <= upTo <= last + 1 &&
    |out| == |entries| + upTo - first && out[..|entries|] == entries &&
    forall n :: first <= n < upTo ==>
      out[|entries| + (n - first)] == Entry(DocLine(doc, n).from, DocLine(doc, n).from, FencedRole(n, first, last))
  }

  /** Pushing the entry of the next line extends what has been pushed by that line. */
  lemma PushLine(doc: string, entries: seq<Entry>, out: seq<Entry>, first: nat, last: nat, number: nat)
    requires 1 <= first && last <= LineCount(doc) && number <= last
    requires PushedLines(doc, entries, out, first, last, number)
    ensures var line := DocLine(doc, number);
      PushedLines(doc, entries, out + [Entry(line.from, line.from, FencedRole(number, first, last))], first, last, number + 1)
  {
    var line := DocLine(doc, number);
    var next := out + [Entry(line.from, line.from, FencedRole(number, first, last))];
    assert next[..|entries|] == out[..|entries|];
    forall n | first <= n < number + 1
      ensures next[|entries| + (n - first)] == Entry(DocLine(doc, n).from, DocLine(doc, n).from, FencedRole(n, first, last))
    {
      if n < number {
        assert next[|entries| + (n - first)] == out[|entries| + (n - first)];
      }
    }
  }

  /** Pushing one entry per line of the block, each at `state.doc.line(n).from`
      with its role, appends exactly the block's entries. */
  lemma FencedPushed(doc: string, entries: seq<Entry>, out: seq<Entry>, from: nat, to: nat)
    requires from <= |doc| && to <= |doc|
    requires var first := LineAt(doc, from).number;
      var last := LineAt(doc, InclusiveEnd(from, to)).number;
      1 <= first <= last <= LineCount(doc) &&
      PushedLines(doc, entries, out, first, last, last + 1)
    ensures out == entries + FencedEntries(doc, from, to)
  {
    var first := LineAt(doc, from).number;
    var last := LineAt(doc, InclusiveEnd(from, to)).number;
    var starts := LineStarts(doc);
    forall n | first <= n <= last
      ensures out[|entries| + (n - first)] == Entry(starts(n), starts(n), FencedRole(n, first, last))
    {
      DocLineFrom(doc, n);
    }
    FencedLinesMatch(starts, first, last, entries, out);
  }

  /** `addFencedLineDecorations`: pushes one entry per line of the block. */
  method AddFencedLineDecorations(doc: string, entries: seq<Entry>, from: nat, to: nat) returns (out: seq<Entry>)
    requires from <= |doc| && to <= |doc|
    ensures out == entries + FencedEntries(doc, from, to)
  {
    var firstLine := LineAt(doc, from);
    var inclusiveEnd := if to >= from + 1 then to - 1 else from;
    var lastLine := LineAt(doc, inclusiveEnd);
    assert inclusiveEnd == InclusiveEnd(from, to);
    FencedBounds(doc, from, to);
    out := entries;
    var number := firstLine.number;
    while number <= lastLine.number
      invariant PushedLines(doc, entries, out, firstLine.number, lastLine.number, number)
      decreases lastLine.number + 1 - number
    {
      var line := DocLine(doc, number);
      PushLine(doc, entries, out, firstLine.number, lastLine.number, number);
      if number == firstLine.number {
        out := out + [Entry(line.from, line.from, FencedOpen)];
      } else if number == lastLine.number {
        out := out + [Entry(line.from, line.from, FencedClose)];
      } else {
        out := out + [Entry(line.from, line.from, FencedBody)];
      }
      number := number + 1;
    }
    FencedPushed(doc, entries, out, from, to);
  }

  // ----- The walk -----

  /** The entries one node contributes where the cursor stands on it. */
  function NodeEntries(doc: string, policy: RenderPolicy, node: NodeContext): seq<Entry>
    requires node.from <= |doc| && node.to <= |doc|
  {
    HeadingEntries(doc, policy, node) + BlockEntries(doc, policy, node) + InfoEntries(policy, node)
  }

  /** A heading node's line, zero-width at its start, with the level and the scale. */
  function HeadingEntries(doc: string, policy: RenderPolicy, node: NodeContext): seq<Entry>
    requires node.from <= |doc|
  {
    match HeadingLevel(node.name)
    case Some(level) =>
      var line := LineAt(doc, node.from);
      [Entry(line.from, line.from, HeadingLine(level, Scale(policy, level)))]
    case None => []
  }

  /** A fenced block's lines, when code blocks are styled. */
  function BlockEntries(doc: string, policy: RenderPolicy, node: NodeContext): seq<Entry>
    requires node.from <= |doc| && node.to <= |doc|
  {
    if node.name == "FencedCode" && policy.codeBlockStyleEnabled then FencedEntries(doc, node.from, node.to) else []
  }

  /** An info string's badge, when badges are shown. */
  function InfoEntries(policy: RenderPolicy, node: NodeContext): seq<Entry> {
    if node.name == "CodeInfo" && policy.showCodeInfoBadge then [Entry(node.from, node.to, CodeInfoMark)] else []
  }

  predicate InDocument(nodes: seq<Node>, len: nat) {
    forall i :: 0 <= i < |nodes| ==> nodes[i].from <= len && nodes[i].to <= len
  }

  /** What visiting a node pushes; nothing for a node outside the document,
      which the document's own tree does not have. */
  function Contribution(doc: string, policy: RenderPolicy): NodeContext -> seq<Entry> {
    (node: NodeContext) => if node.from <= |doc| && node.to <= |doc| then NodeEntries(doc, policy, node) else []
  }

  /** The entries pushed while visiting `nodes` in order. */
  function Collected(contribute: NodeContext -> seq<Entry>, nodes: seq<Node>): seq<Entry> {
    if nodes == [] then []
    else Collected(contribute, nodes[..|nodes| - 1]) + contribute(Context(nodes[|nodes| - 1]))
  }

  /** Entries compare by start, then by end (the comparator of `entries.sort`). */
  function EntryLe(a: Entry, b: Entry): bool {
    a.from < b.from || (a.from == b.from && a.to <= b.to)
  }

  lemma EntryOrder()
    ensures TotalPreorder(EntryLe)
  {
  }

  lemma PreOrderInDocument(tree: Node, len: nat)
    requires WellFormed(tree, len)
    ensures InDocument(PreOrder(tree), len)
  {
    PreOrderWellFormed(tree, len);
    var nodes := PreOrder(tree);
    forall i | 0 <= i < |nodes| ensures nodes[i].from <= len && nodes[i].to <= len {
      assert nodes[i] in nodes;
    }
  }

  /** What `buildWriterPresentationDecorations` hands to the builder. */
  function PresentationDecorationsOf(state: EditorState, tree: Node, policy: RenderPolicy): seq<Entry> {
    Sort(Collected(Contribution(state.doc, policy), PreOrder(tree)), EntryLe)
  }

  /** The body of the walk for the node the cursor stands on: its heading
      line, its fenced lines and its info badge, in that order. */
  method AddNodeDecorations(doc: string, policy: RenderPolicy, current: NodeContext) returns (step: seq<Entry>)
    requires current.from <= |doc| && current.to <= |doc|
    ensures step == NodeEntries(doc, policy, current)
  {
    var headingLevel := HeadingLevel(current.name);
    step := [];
    if headingLevel.Some? {
      var line := LineAt(doc, current.from);
      step := step + [Entry(line.from, line.from, HeadingLine(headingLevel.value, Scale(policy, headingLevel.value)))];
    }
    assert step == HeadingEntries(doc, policy, current);
    if current.name == "FencedCode" && policy.codeBlockStyleEnabled {
      step := AddFencedLineDecorations(doc, step, current.from, current.to);
    }
    assert step == HeadingEntries(doc, policy, current) + BlockEntries(doc, policy, current);
    if current.name == "CodeInfo" && policy.showCodeInfoBadge {
      step := step + [Entry(current.from, current.to, CodeInfoMark)];
    }
  }

  /** `buildWriterPresentationDecorations`: the `do ... while (cursor.next())`
      walk, visiting the nodes in pre-order, then the sort. */
  method BuildPresentationDecorations(state: EditorState, tree: Node, policy: RenderPolicy) returns (decorations: seq<Entry>)
    requires WellFormed(tree, |state.doc|)
    ensures decorations == PresentationDecorationsOf(state, tree, policy)
  {
    var doc := state.doc;
    PreOrderInDocument(tree, |doc|);
    var nodes := PreOrder(tree);
    var entries: seq<Entry> := [];
    var i := 0;
    while i < |nodes|
      invariant i <= |nodes|
      invariant entries == Collected(Contribution(doc, policy), nodes[..i])
    {
      var step := AddNodeDecorations(doc, policy, Context(nodes[i]));
      CollectedNext(doc, policy, nodes, i);
      entries := entries + step;
      i := i + 1;
    }
    assert nodes[..i] == nodes;
    decorations := Sort(entries, EntryLe);
  }

  // ----- Properties -----

  lemma CollectedStep(contribute: NodeContext -> seq<Entry>, nodes: seq<Node>, i: nat)
    requires i < |nodes|
    ensures Collected(contribute, nodes[..i + 1]) == Collected(contribute, nodes[..i]) + contribute(Context(nodes[i]))
  {
    assert nodes[..i + 1][..i] == nodes[..i];
  }

  /** One more node of the walk adds its entries. */
  lemma CollectedNext(doc: string, policy: RenderPolicy, nodes: seq<Node>, i: nat)
    requires i < |nodes| && nodes[i].from <= |doc| && nodes[i].to <= |doc|
    ensures Collected(Contribution(doc, policy), nodes[..i + 1]) ==
      Collected(Contribution(doc, policy), nodes[..i]) + NodeEntries(doc, policy, Context(nodes[i]))
  {
    CollectedStep(Contribution(doc, policy), nodes, i);
    ContributionOf(doc, policy, Context(nodes[i]));
  }

  lemma ContributionOf(doc: string, policy: RenderPolicy, node: NodeContext)
    ensures Contribution(doc, policy)(node) ==
      if node.from <= |doc| && node.to <= |doc| then NodeEntries(doc, policy, node) else []
  {
  }

  /** A node that is no heading, no fenced block and no info string pushes nothing. */
  lemma PlainContribution(doc: string, policy: RenderPolicy, node: NodeContext)
    requires HeadingLevel(node.name).None? && node.name != "FencedCode" && node.name != "CodeInfo"
    ensures Contribution(doc, policy)(node) == []
  {
  }

  /** A heading pushes its line's entry and nothing else. */
  lemma HeadingContribution(doc: string, policy: RenderPolicy, node: NodeContext, level: nat)
    requires node.from <= |doc| && node.to <= |doc| && HeadingLevel(node.name) == Some(level)
    ensures var line := LineAt(doc, node.from);
      Contribution(doc, policy)(node) == [Entry(line.from, line.from, HeadingLine(level, Scale(policy, level)))]
  {
    assert HeadingLevel("FencedCode").None? && HeadingLevel("CodeInfo").None?;
  }

  /** A styled fenced block pushes its lines. */
  lemma BlockContribution(doc: string, policy: RenderPolicy, node: NodeContext)
    requires node.from <= |doc| && node.to <= |doc| && node.name == "FencedCode" && policy.codeBlockStyleEnabled
    ensures Contribution(doc, policy)(node) == FencedEntries(doc, node.from, node.to)
  {
    assert NodeEntries(doc, policy, node) == FencedEntries(doc, node.from, node.to) by {
      assert HeadingLevel("FencedCode").None?;
    }
    ContributionOf(doc, policy, node);
  }

  /** An info string pushes its badge when badges are shown. */
  lemma InfoContribution(doc: string, policy: RenderPolicy, node: NodeContext)
    requires node.from <= |doc| && node.to <= |doc| && node.name == "CodeInfo" && policy.showCodeInfoBadge
    ensures Contribution(doc, policy)(node) == [Entry(node.from, node.to, CodeInfoMark)]
  {
    assert HeadingLevel("CodeInfo").None?;
  }

  lemma {:induction false} CollectedMember(contribute: NodeContext -> seq<Entry>, nodes: seq<Node>, x: Entry)
    ensures x in Collected(contribute, nodes) <==>
      exists i :: 0 <= i < |nodes| && x in contribute(Context(nodes[i]))
  {
    if nodes != [] {
      var init := nodes[..|nodes| - 1];
      CollectedMember(contribute, init, x);
      if x in Collected(contribute, init) {
        var i :| 0 <= i < |init| && x in contribute(Context(init[i]));
        assert nodes[i] == init[i];
      }
      if exists i :: 0 <= i < |nodes| && x in contribute(Context(nodes[i])) {
        var i :| 0 <= i < |nodes| && x in contribute(Context(nodes[i]));
        if i < |init| {
          assert init[i] == nodes[i];
        }
      }
    }
  }

  /** Visiting `a` and then `b` collects what the two walks collect, in that order. */
  lemma {:induction false} CollectedAppend(contribute: NodeContext -> seq<Entry>, a: seq<Node>, b: seq<Node>)
    ensures Collected(contribute, a + b) == Collected(contribute, a) + Collected(contribute, b)
  {
    if b == [] {
      assert a + b == a;
    } else {
      assert (a + b)[..|a + b| - 1] == a + b[..|b| - 1];
      CollectedAppend(contribute, a, b[..|b| - 1]);
    }
  }

  lemma CollectedCons(contribute: NodeContext -> seq<Entry>, n: Node, rest: seq<Node>)
    ensures Collected(contribute, [n] + rest) == contribute(Context(n)) + Collected(contribute, rest)
  {
    CollectedAppend(contribute, [n], rest);
    assert [n][..0] == [];
  }

  /** The result is ordered by position, holds exactly the collected entries,
      and keeps the walk order of entries at the same position. */
  lemma PresentationOrdered(state: EditorState, tree: Node, policy: RenderPolicy, k: Entry)
    ensures var collected := Collected(Contribution(state.doc, policy), PreOrder(tree));
      var r := PresentationDecorationsOf(state, tree, policy);
      Sorted(r, EntryLe) && multiset(r) == multiset(collected) &&
      Same(r, k, EntryLe) == Same(collected, k, EntryLe)
  {
    var collected := Collected(Contribution(state.doc, policy), PreOrder(tree));
    EntryOrder();
    SortSorted(collected, EntryLe);
    SortPermutes(collected, EntryLe);
    SortStable(collected, k, EntryLe);
  }

  /** An entry is in the result exactly when some node of the tree contributes it. */
  lemma PresentationMember(state: EditorState, tree: Node, policy: RenderPolicy, x: Entry)
    ensures x in PresentationDecorationsOf(state, tree, policy) <==>
      exists m :: m in PreOrder(tree) && x in Contribution(state.doc, policy)(Context(m))
  {
    var nodes := PreOrder(tree);
    var contribute := Contribution(state.doc, policy);
    var collected := Collected(contribute, nodes);
    SortPermutes(collected, EntryLe);
    assert x in PresentationDecorationsOf(state, tree, policy) <==> x in multiset(collected);
    CollectedMember(contribute, nodes, x);
    if exists m :: m in nodes && x in contribute(Context(m)) {
      var m :| m in nodes && x in contribute(Context(m));
      var i :| 0 <= i < |nodes| && nodes[i] == m;
    }
  }

  /** A heading node's entry is zero-width at the start of its line and
      carries the node's level and the policy's scale for it. */
  lemma HeadingEntryIff(doc: string, policy: RenderPolicy, node: NodeContext, from: nat, to: nat, level: nat, scale: Option<real>)
    requires node.from <= |doc| && node.to <= |doc|
    ensures Entry(from, to, HeadingLine(level, scale)) in NodeEntries(doc, policy, node) <==>
      HeadingLevel(node.name) == Some(level) && scale == Scale(policy, level) &&
      from == to == LineAt(doc, node.from).from
  {
    if node.name == "FencedCode" && policy.codeBlockStyleEnabled {
      FencedShape(doc, node.from, node.to);
      var f := FencedEntries(doc, node.from, node.to);
      assert forall k :: 0 <= k < |f| ==> !f[k].decoration.HeadingLine?;
    }
  }

  /** Line entries sit at line starts and have no width; only code info marks span text. */
  lemma NodeEntriesShape(doc: string, policy: RenderPolicy, node: NodeContext)
    requires node.from <= |doc| && node.to <= |doc|
    ensures forall x :: x in NodeEntries(doc, policy, node) && x.decoration != CodeInfoMark ==>
      x.from == x.to && IsLineStart(doc, x.from)
    ensures forall x :: x in NodeEntries(doc, policy, node) && x.decoration == CodeInfoMark ==>
      node.name == "CodeInfo" && x.from == node.from && x.to == node.to
    ensures !policy.codeBlockStyleEnabled ==> forall x :: x in NodeEntries(doc, policy, node) ==>
      x.decoration !in {FencedOpen, FencedBody, FencedClose}
    ensures !policy.showCodeInfoBadge ==> forall x :: x in NodeEntries(doc, policy, node) ==> x.decoration != CodeInfoMark
  {
    if node.name == "FencedCode" && policy.codeBlockStyleEnabled {
      FencedShape(doc, node.from, node.to);
      var f := FencedEntries(doc, node.from, node.to);
      assert forall x :: x in f ==> x.decoration != CodeInfoMark && x.from == x.to && IsLineStart(doc, x.from);
    }
  }

  /** Over the whole tree: line decorations are zero-width at line starts,
      and the policy switches the fenced lines and the info badges off. */
  lemma PresentationShape(state: EditorState, tree: Node, policy: RenderPolicy)
    ensures forall x :: x in PresentationDecorationsOf(state, tree, policy) && x.decoration != CodeInfoMark ==>
      x.from == x.to && IsLineStart(state.doc, x.from)
    ensures !policy.codeBlockStyleEnabled ==> forall x :: x in PresentationDecorationsOf(state, tree, policy) ==>
      x.decoration !in {FencedOpen, FencedBody, FencedClose}
    ensures !policy.showCodeInfoBadge ==> forall x :: x in PresentationDecorationsOf(state, tree, policy) ==>
      x.decoration != CodeInfoMark
  {
    forall x | x in PresentationDecorationsOf(state, tree, policy)
      ensures x.decoration != CodeInfoMark ==> x.from == x.to && IsLineStart(state.doc, x.from)
      ensures !policy.codeBlockStyleEnabled ==> x.decoration !in {FencedOpen, FencedBody, FencedClose}
      ensures !policy.showCodeInfoBadge ==> x.decoration != CodeInfoMark
    {
      PresentationMember(state, tree, policy, x);
      var m :| m in PreOrder(tree) && x in Contribution(state.doc, policy)(Context(m));
      ContributionOf(state.doc, policy, Context(m));
      NodeEntriesShape(state.doc, policy, Context(m));
    }
  }

  /** The selection plays no part: only the document and the tree do. */
  lemma SelectionIrrelevant(doc: string, s1: Selection, s2: Selection, tree: Node, policy: RenderPolicy)
    ensures PresentationDecorationsOf(EditorState(doc, s1), tree, policy) ==
            PresentationDecorationsOf(EditorState(doc, s2), tree, policy)
  {
  }

  /** The view plugin of `createWriterPresentationDecorations`. */
  class PresentationPlugin {
    var decorations: seq<Entry>
    const policy: RenderPolicy

    constructor(state: EditorState, tree: Node, policy: RenderPolicy)
      ensures this.policy == policy
      ensures decorations == PresentationDecorationsOf(state, tree, policy)
    {
      this.policy := policy;
      decorations := PresentationDecorationsOf(state, tree, policy);
    }

    /** Rebuilds when the document, the selection or the viewport changed. */
    method Update(update: ViewUpdate)
      requires WellFormed(update.tree, |update.state.doc|)
      modifies this
      ensures update.docChanged || update.selectionSet || update.viewportChanged ==>
        decorations == PresentationDecorationsOf(update.state, update.tree, policy)
      ensures !(update.docChanged || update.selectionSet || update.viewportChanged) ==> decorations == old(decorations)
    {
      if update.docChanged || update.selectionSet || update.viewportChanged {
        decorations := BuildPresentationDecorations(update.state, update.tree, policy);
      }
    }
  }

  // ----- The examples of the tests -----

  /** Line `n` of the document starts at `a` when `a` begins a line with `n - 1` breaks before it. */
  lemma LineNumbered(doc: string, n: nat, a: nat, b: nat)
    requires a <= b <= |doc| && IsLineStart(doc, a) && NoBreakBetween(doc, a, b) && (b == |doc| || doc[b] == '\n')
    requires BreaksBefore(doc, a) + 1 == n
    ensures LineAt(doc, a).from == a && LineAt(doc, a).number == n
    ensures 1 <= n <= LineCount(doc) && DocLine(doc, n).from == a
  {
    LineBetween(doc, a, a, b);
    DocLineOfLineAt(doc, a);
  }

  function HeadingsTree(): Node {
    Node("Document", 0, 20, [
      Node("ATXHeading1", 0, 7, [Node("HeaderMark", 0, 1, [])]),
      Node("ATXHeading2", 9, 20, [Node("HeaderMark", 9, 11, [])])])
  }

  lemma HeadingsWellFormed()
    ensures WellFormed(HeadingsTree(), 20)
  {
    var tree := HeadingsTree();
    WellFormedOverLeaves(tree.children[0], 20);
    WellFormedOverLeaves(tree.children[1], 20);
  }

  lemma HeadingsLines(doc: string)
    requires doc == "# Title\n\n## Subtitle"
    ensures |doc| == 20 && LineAt(doc, 0).from == 0 && LineAt(doc, 9).from == 9
  {
    assert |doc| == 20;
    assert doc[8] == '\n';
    assert NoBreakBetween(doc, 9, 20);
    LineBetween(doc, 9, 9, 20);
    LineStartUnique(doc, 0, 0);
  }

  /** The walk visits the document, each heading and each heading's mark. */
  lemma HeadingsPreOrder()
    ensures var tree := HeadingsTree(); var h1 := tree.children[0]; var h2 := tree.children[1];
      PreOrder(tree) == [tree, h1, h1.children[0], h2, h2.children[0]]
  {
    var tree := HeadingsTree();
    var h1 := tree.children[0];
    var h2 := tree.children[1];
    assert tree.children == [h1, h2];
    PreOrderOfLeaves(h1);
    PreOrderOfLeaves(h2);
    PreOrderAllPair(h1, h2);
  }

  lemma CollectedSix(contribute: NodeContext -> seq<Entry>, a: Node, b: Node, c: Node, d: Node, e: Node, g: Node)
    ensures Collected(contribute, [a, b, c, d, e, g]) ==
      contribute(Context(a)) + contribute(Context(b)) + contribute(Context(c)) + contribute(Context(d)) +
      contribute(Context(e)) + contribute(Context(g))
  {
    CollectedFive(contribute, a, b, c, d, e);
    assert [a, b, c, d, e, g][..5] == [a, b, c, d, e];
  }

  lemma SortPair(a: Entry, b: Entry)
    requires a.from < b.from
    ensures Sort([a, b], EntryLe) == [a, b]
  {
    assert Sorted([a, b], EntryLe);
    SortSortedIdentity([a, b], EntryLe);
  }

  /** The decorations are the collected entries, sorted. */
  lemma DecorationsFromCollected(state: EditorState, tree: Node, policy: RenderPolicy, collected: seq<Entry>, sorted: seq<Entry>)
    requires Collected(Contribution(state.doc, policy), PreOrder(tree)) == collected
    requires Sort(collected, EntryLe) == sorted
    ensures PresentationDecorationsOf(state, tree, policy) == sorted
  {
  }

  /** An entry collected last moves to its place among three that start before and after it. */
  lemma SortLastIntoPlace(a: Entry, b: Entry, c: Entry, x: Entry)
    requires a.from < x.from < b.from < c.from
    ensures Sort([a, b, c, x], EntryLe) == [a, x, b, c]
  {
    assert [a, b, c, x][1..] == [b, c, x] && [b, c, x][1..] == [c, x] && [c, x][1..] == [x];
    assert Sort([x], EntryLe) == [x];
    assert Insert(c, [x], EntryLe) == [x, c];
    assert Sort([c, x], EntryLe) == [x, c];
    assert Insert(b, [c], EntryLe) == [b, c];
    assert Insert(b, [x, c], EntryLe) == [x, b, c];
    assert Sort([b, c, x], EntryLe) == [x, b, c];
  }

  lemma CollectedFive(contribute: NodeContext -> seq<Entry>, a: Node, b: Node, c: Node, d: Node, e: Node)
    ensures Collected(contribute, [a, b, c, d, e]) ==
      contribute(Context(a)) + contribute(Context(b)) + contribute(Context(c)) + contribute(Context(d)) + contribute(Context(e))
  {
    var f := contribute;
    assert [a, b][..1] == [a] && [a][..0] == [];
    assert Collected(f, [a]) == Collected(f, []) + f(Context(a));
    assert Collected(f, [a]) == f(Context(a));
    assert Collected(f, [a, b]) == f(Context(a)) + f(Context(b));
    assert [a, b, c][..2] == [a, b];
    assert Collected(f, [a, b, c]) == f(Context(a)) + f(Context(b)) + f(Context(c));
    assert [a, b, c, d][..3] == [a, b, c];
    assert Collected(f, [a, b, c, d]) == f(Context(a)) + f(Context(b)) + f(Context(c)) + f(Context(d));
    assert [a, b, c, d, e][..4] == [a, b, c, d];
  }

  /** The walk over the headings tree, for any contribution: the two headings' entries. */
  lemma HeadingsWalk(contribute: NodeContext -> seq<Entry>, t1: seq<Entry>, t2: seq<Entry>)
    requires var tree := HeadingsTree(); var h1 := tree.children[0]; var h2 := tree.children[1];
      contribute(Context(tree)) == [] && contribute(Context(h1)) == t1 &&
      contribute(Context(h1.children[0])) == [] && contribute(Context(h2)) == t2 &&
      contribute(Context(h2.children[0])) == []
    ensures Collected(contribute, PreOrder(HeadingsTree())) == t1 + t2
  {
    var tree := HeadingsTree();
    var h1 := tree.children[0];
    var h2 := tree.children[1];
    HeadingsPreOrder();
    CollectedFive(contribute, tree, h1, h1.children[0], h2, h2.children[0]);
  }

  /** The headings tree over any document of its length whose lines start at 0 and 9. */
  lemma HeadingsDecorations(doc: string, selection: Selection, policy: RenderPolicy)
    requires |doc| == 20 && LineAt(doc, 0).from == 0 && LineAt(doc, 9).from == 9
    ensures PresentationDecorationsOf(EditorState(doc, selection), HeadingsTree(), policy) ==
      [Entry(0, 0, HeadingLine(1, Scale(policy, 1))), Entry(9, 9, HeadingLine(2, Scale(policy, 2)))]
  {
    var tree := HeadingsTree();
    var h1 := tree.children[0];
    var h2 := tree.children[1];
    var e1 := Entry(0, 0, HeadingLine(1, Scale(policy, 1)));
    var e2 := Entry(9, 9, HeadingLine(2, Scale(policy, 2)));
    PlainContribution(doc, policy, Context(tree));
    HeadingContribution(doc, policy, Context(h1), 1);
    PlainContribution(doc, policy, Context(h1.children[0]));
    HeadingContribution(doc, policy, Context(h2), 2);
    PlainContribution(doc, policy, Context(h2.children[0]));
    HeadingsWalk(Contribution(doc, policy), [e1], [e2]);
    SortPair(e1, e2);
    DecorationsFromCollected(EditorState(doc, selection), tree, policy, [e1, e2], [e1, e2]);
  }

  /** Two headings give two heading lines, of levels 1 and 2. */
  lemma HeadingsExample(doc: string, selection: Selection, policy: RenderPolicy)
    requires doc == "# Title\n\n## Subtitle"
    ensures WellFormed(HeadingsTree(), |doc|)
    ensures PresentationDecorationsOf(EditorState(doc, selection), HeadingsTree(), policy) ==
      [Entry(0, 0, HeadingLine(1, Scale(policy, 1))), Entry(9, 9, HeadingLine(2, Scale(policy, 2)))]
  {
    HeadingsWellFormed();
    HeadingsLines(doc);
    HeadingsDecorations(doc, selection, policy);
  }

  function FencedTree(): Node {
    Node("Document", 0, 22, [
      Node("FencedCode", 0, 22, [
        Node("CodeMark", 0, 3, []),
        Node("CodeInfo", 3, 9, []),
        Node("CodeText", 10, 18, []),
        Node("CodeMark", 19, 22, [])])])
  }

  lemma FencedWellFormed()
    ensures WellFormed(FencedTree(), 22)
  {
    var tree := FencedTree();
    WellFormedOverLeaves(tree.children[0], 22);
  }

  /** The block's three lines: it opens at 0, continues at 10 and closes at 19. */
  lemma FencedExampleLines(doc: string)
    requires doc == "```python\nprint(1)\n```"
    ensures |doc| == 22
    ensures FencedEntries(doc, 0, 22) == [Entry(0, 0, FencedOpen), Entry(10, 10, FencedBody), Entry(19, 19, FencedClose)]
  {
    assert |doc| == 22;
    assert doc[9] == '\n' && doc[18] == '\n';
    assert NoBreakBetween(doc, 0, 9);
    assert NoBreakBetween(doc, 10, 18);
    assert NoBreakBetween(doc, 19, 22);
    BreaksMonotone(doc, 0, 9);
    assert BreaksBefore(doc, 10) == 1;
    BreaksMonotone(doc, 10, 18);
    assert BreaksBefore(doc, 19) == 2;
    LineNumbered(doc, 1, 0, 9);
    LineNumbered(doc, 2, 10, 18);
    LineNumbered(doc, 3, 19, 22);
    LineBetween(doc, 21, 19, 22);
    FencedShape(doc, 0, 22);
  }

  lemma FencedPreOrder()
    ensures var tree := FencedTree(); var block := tree.children[0]; var cs := block.children;
      PreOrder(tree) == [tree, block, cs[0], cs[1], cs[2], cs[3]]
  {
    var tree := FencedTree();
    var block := tree.children[0];
    assert tree.children == [block];
    PreOrderOfLeaves(block);
    PreOrderAllOne(block);
  }

  /** The walk over the fenced tree, for any contribution: the block's entries, then the info string's. */
  lemma FencedWalk(contribute: NodeContext -> seq<Entry>, lines: seq<Entry>, info: seq<Entry>)
    requires var tree := FencedTree(); var block := tree.children[0]; var cs := block.children;
      contribute(Context(tree)) == [] && contribute(Context(block)) == lines &&
      contribute(Context(cs[0])) == [] && contribute(Context(cs[1])) == info &&
      contribute(Context(cs[2])) == [] && contribute(Context(cs[3])) == []
    ensures Collected(contribute, PreOrder(FencedTree())) == lines + info
  {
    var tree := FencedTree();
    var block := tree.children[0];
    var cs := block.children;
    FencedPreOrder();
    CollectedSix(contribute, tree, block, cs[0], cs[1], cs[2], cs[3]);
  }

  /** What each node of the fenced tree pushes, in a document of its length. */
  lemma FencedNodeContributions(doc: string, policy: RenderPolicy)
    requires |doc| == 22 && policy.codeBlockStyleEnabled && policy.showCodeInfoBadge
    ensures var f := Contribution(doc, policy); var tree := FencedTree();
      var block := tree.children[0]; var cs := block.children;
      f(Context(tree)) == [] && f(Context(block)) == FencedEntries(doc, 0, 22) &&
      f(Context(cs[0])) == [] && f(Context(cs[1])) == [Entry(3, 9, CodeInfoMark)] &&
      f(Context(cs[2])) == [] && f(Context(cs[3])) == []
  {
    var tree := FencedTree();
    var block := tree.children[0];
    var cs := block.children;
    PlainContribution(doc, policy, Context(tree));
    BlockContribution(doc, policy, Context(block));
    PlainContribution(doc, policy, Context(cs[0]));
    InfoContribution(doc, policy, Context(cs[1]));
    PlainContribution(doc, policy, Context(cs[2]));
    PlainContribution(doc, policy, Context(cs[3]));
  }

  /** What the walk over the fenced tree collects from a document of its length. */
  lemma FencedNodes(doc: string, policy: RenderPolicy)
    requires |doc| == 22 && policy.codeBlockStyleEnabled && policy.showCodeInfoBadge
    ensures Collected(Contribution(doc, policy), PreOrder(FencedTree())) ==
      FencedEntries(doc, 0, 22) + [Entry(3, 9, CodeInfoMark)]
  {
    FencedNodeContributions(doc, policy);
    FencedWalk(Contribution(doc, policy), FencedEntries(doc, 0, 22), [Entry(3, 9, CodeInfoMark)]);
  }

  /** What the walk over the fenced example collects, before sorting. */
  lemma FencedCollected(doc: string, policy: RenderPolicy)
    requires doc == "```python\nprint(1)\n```"
    requires policy.codeBlockStyleEnabled && policy.showCodeInfoBadge
    ensures Collected(Contribution(doc, policy), PreOrder(FencedTree())) ==
      [Entry(0, 0, FencedOpen), Entry(10, 10, FencedBody), Entry(19, 19, FencedClose), Entry(3, 9, CodeInfoMark)]
  {
    FencedExampleLines(doc);
    FencedNodes(doc, policy);
  }


  /** The block's three lines open, continue and close it, and the info
      string `python` gets its badge. */
  lemma FencedExample(doc: string, selection: Selection, policy: RenderPolicy)
    requires doc == "```python\nprint(1)\n```"
    requires policy.codeBlockStyleEnabled && policy.showCodeInfoBadge
    ensures WellFormed(FencedTree(), |doc|)
    ensures PresentationDecorationsOf(EditorState(doc, selection), FencedTree(), policy) ==
      [Entry(0, 0, FencedOpen), Entry(3, 9, CodeInfoMark), Entry(10, 10, FencedBody), Entry(19, 19, FencedClose)]
  {
    FencedWellFormed();
    FencedCollected(doc, policy);
    var open, body, close, info := Entry(0, 0, FencedOpen), Entry(10, 10, FencedBody), Entry(19, 19, FencedClose), Entry(3, 9, CodeInfoMark);
    SortLastIntoPlace(open, body, close, info);
    DecorationsFromCollected(EditorState(doc, selection), FencedTree(), policy, [open, body, close, info], [open, info, body, close]);
  }
}
