/** Hiding Markdown markers in the writer view
    (apps/desktop/src/editor/markerDecorations.ts): a walk over the syntax
    tree that hides the marker nodes (heading hashes, emphasis marks, ...)
    whose parent construct does not hold the cursor head, and marks the info
    string of a fenced block the head is outside of. */
module MarkerDecorations {
  import opened Wrappers
  import opened EditorDoc
  import opened SyntaxTree

  /** The writer's marker policy: which node types are markers, and whether
      the backtick fences of code blocks are hidden too. */
  datatype MarkerPolicy = MarkerPolicy(markerNodeNames: set<string>, hideFenceCodeMarks: bool)

  datatype MarkKind = HiddenMarker | CodeInfoMark

  /** A decoration: the range it covers and what it does there. */
  datatype DecoRange = DecoRange(from: nat, to: nat, kind: MarkKind)

  /** `isSelectionInside`: the position lies in the closed range. */
  predicate IsSelectionInside(position: nat, from: nat, to: nat) {
    from <= position <= to
  }

  /** Marker types whose hidden range swallows one following space. */
  predicate TakesSpace(name: string) {
    name == "HeaderMark" || name == "ListMark" || name == "QuoteMark"
  }

  /** `markerHideRange`: the node's range, one position longer when the node
      takes a space and a space follows it. */
  function MarkerHideRange(doc: string, node: NodeContext): (r: (nat, nat))
    ensures r.0 == node.from
    ensures r.1 == node.to || r.1 == node.to + 1
    ensures r.1 == node.to + 1 <==> TakesSpace(node.name) && Slice(doc, node.to, node.to + 1) == " "
  {
    var hideTo := if TakesSpace(node.name) && Slice(doc, node.to, node.to + 1) == " " then node.to + 1 else node.to;
    (node.from, hideTo)
  }

  /** The range is extended only over a space that is really there. */
  lemma HideRangeOverSpace(doc: string, node: NodeContext)
    requires MarkerHideRange(doc, node).1 == node.to + 1
    ensures node.to < |doc| && doc[node.to] == ' '
  {
  }

  /** A fence's backtick mark, which the policy may keep visible. */
  predicate IsFenceCodeMark(parent: NodeContext, node: NodeContext) {
    node.name == "CodeMark" && parent.name == "FencedCode"
  }

  /** The decorations one node gets, judged against its parent. */
  function OwnDecorations(doc: string, head: nat, policy: MarkerPolicy,
                          parent: Option<NodeContext>, node: NodeContext): (r: seq<DecoRange>)
    ensures |r| <= 2
  {
    match parent
    case None => []
    case Some(p) =>
      var inside := IsSelectionInside(head, p.from, p.to);
      var hidden :=
        if node.name in policy.markerNodeNames && !inside && !(IsFenceCodeMark(p, node) && !policy.hideFenceCodeMarks) then
          var (hideFrom, hideTo) := MarkerHideRange(doc, node);
          if hideFrom < hideTo then [DecoRange(hideFrom, hideTo, HiddenMarker)] else []
        else [];
      var info :=
        if node.name == "CodeInfo" && p.name == "FencedCode" && !inside then [DecoRange(node.from, node.to, CodeInfoMark)]
        else [];
      hidden + info
  }

  /** A node's range is hidden exactly when it is a marker with a parent that
      does not hold the head, it is not a kept fence mark, and the range is
      not empty. */
  lemma HiddenIff(doc: string, head: nat, policy: MarkerPolicy, parent: Option<NodeContext>,
                  node: NodeContext, from: nat, to: nat)
    ensures DecoRange(from, to, HiddenMarker) in OwnDecorations(doc, head, policy, parent, node) <==>
      parent.Some? && node.name in policy.markerNodeNames &&
      !IsSelectionInside(head, parent.value.from, parent.value.to) &&
      !(IsFenceCodeMark(parent.value, node) && !policy.hideFenceCodeMarks) &&
      (from, to) == MarkerHideRange(doc, node) && from < to
  {
  }

  /** A fenced block's info string is marked exactly when the head is outside the block. */
  lemma CodeInfoIff(doc: string, head: nat, policy: MarkerPolicy, parent: Option<NodeContext>,
                    node: NodeContext, from: nat, to: nat)
    ensures DecoRange(from, to, CodeInfoMark) in OwnDecorations(doc, head, policy, parent, node) <==>
      parent.Some? && node.name == "CodeInfo" && parent.value.name == "FencedCode" &&
      !IsSelectionInside(head, parent.value.from, parent.value.to) &&
      from == node.from && to == node.to
  {
  }

  /** A head on either end of the parent counts as inside and keeps the
      node's markers visible. */
  lemma BoundaryKeepsVisible(doc: string, policy: MarkerPolicy, p: NodeContext, node: NodeContext, head: nat)
    requires p.from <= p.to && (head == p.from || head == p.to)
    ensures OwnDecorations(doc, head, policy, Some(p), node) == []
  {
  }

  /** The `do ... while (cursor.nextSibling())` loop over `siblings`, each
      visited after its children. */
  function Visit(doc: string, head: nat, policy: MarkerPolicy, parent: Option<NodeContext>, siblings: seq<Node>): seq<DecoRange>
    decreases siblings
  {
    if siblings == [] then []
    else Visit(doc, head, policy, parent, siblings[..|siblings| - 1]) +
         VisitNode(doc, head, policy, parent, siblings[|siblings| - 1])
  }

  function VisitNode(doc: string, head: nat, policy: MarkerPolicy, parent: Option<NodeContext>, node: Node): seq<DecoRange>
    decreases node
  {
    Visit(doc, head, policy, Some(Context(node)), node.children) + OwnDecorations(doc, head, policy, parent, Context(node))
  }

  /** The decorations of `buildMarkdownMarkerDecorations`, in the order they
      are handed to the builder. */
  function MarkerDecorationsOf(state: EditorState, tree: Node, policy: MarkerPolicy): seq<DecoRange> {
    Visit(state.doc, state.selection.head, policy, None, [tree])
  }

  /** Every node of the walk paired with its immediate parent (`None` for the root). */
  function Pairs(parent: Option<NodeContext>, siblings: seq<Node>): set<(Option<NodeContext>, NodeContext)>
    decreases siblings
  {
    if siblings == [] then {}
    else
      var last := siblings[|siblings| - 1];
      Pairs(parent, siblings[..|siblings| - 1]) + {(parent, Context(last))} + Pairs(Some(Context(last)), last.children)
  }

  /** The walk decorates each node by its own rule against its immediate
      parent, and nothing else. */
  lemma {:induction false} VisitDecorates(doc: string, head: nat, policy: MarkerPolicy,
                                          parent: Option<NodeContext>, siblings: seq<Node>)
    ensures forall x :: x in Visit(doc, head, policy, parent, siblings) <==>
      exists pr :: pr in Pairs(parent, siblings) && x in OwnDecorations(doc, head, policy, pr.0, pr.1)
    decreases siblings
  {
    if siblings != [] {
      var init := siblings[..|siblings| - 1];
      var last := siblings[|siblings| - 1];
      VisitDecorates(doc, head, policy, parent, init);
      VisitDecorates(doc, head, policy, Some(Context(last)), last.children);
      assert Visit(doc, head, policy, parent, siblings) ==
        Visit(doc, head, policy, parent, init) +
        (Visit(doc, head, policy, Some(Context(last)), last.children) + OwnDecorations(doc, head, policy, parent, Context(last)));
      forall x | x in OwnDecorations(doc, head, policy, parent, Context(last))
        ensures exists pr :: pr in Pairs(parent, siblings) && x in OwnDecorations(doc, head, policy, pr.0, pr.1)
      {
        assert (parent, Context(last)) in Pairs(parent, siblings);
      }
    }
  }

  /** Every hidden range is non-empty, and nothing is hidden or marked
      without a parent: the root is never decorated. */
  lemma DecorationsOfTree(state: EditorState, tree: Node, policy: MarkerPolicy)
    ensures forall x :: x in MarkerDecorationsOf(state, tree, policy) && x.kind == HiddenMarker ==> x.from < x.to
    ensures forall x :: x in MarkerDecorationsOf(state, tree, policy) ==>
      exists pr :: pr in Pairs(None, [tree]) && pr.0.Some? && x in OwnDecorations(state.doc, state.selection.head, policy, pr.0, pr.1)
  {
    VisitDecorates(state.doc, state.selection.head, policy, None, [tree]);
  }

  /** Only the head of the selection matters, not its anchor. */
  lemma AnchorIrrelevant(doc: string, a1: nat, a2: nat, head: nat, tree: Node, policy: MarkerPolicy)
    ensures MarkerDecorationsOf(EditorState(doc, Selection(a1, head)), tree, policy) ==
            MarkerDecorationsOf(EditorState(doc, Selection(a2, head)), tree, policy)
  {
  }

  /** The recursive `visit`, appending to the builder as it goes. */
  method VisitSiblings(doc: string, head: nat, policy: MarkerPolicy, parent: Option<NodeContext>, siblings: seq<Node>)
    returns (out: seq<DecoRange>)
    ensures out == Visit(doc, head, policy, parent, siblings)
    decreases siblings
  {
    out := [];
    var i := 0;
    while i < |siblings|
      invariant i <= |siblings|
      invariant out == Visit(doc, head, policy, parent, siblings[..i])
    {
      var current := siblings[i];
      var below := VisitSiblings(doc, head, policy, Some(Context(current)), current.children);
      assert siblings[..i + 1][..i] == siblings[..i];
      out := out + (below + OwnDecorations(doc, head, policy, parent, Context(current)));
      i := i + 1;
    }
    assert siblings[..i] == siblings;
  }

  /** `buildMarkdownMarkerDecorations`. */
  method BuildMarkerDecorations(state: EditorState, tree: Node, policy: MarkerPolicy) returns (decorations: seq<DecoRange>)
    ensures decorations == MarkerDecorationsOf(state, tree, policy)
  {
    decorations := VisitSiblings(state.doc, state.selection.head, policy, None, [tree]);
  }

  /** The view plugin of `createWriterMarkerDecorations`. */
  class MarkerPlugin {
    var decorations: seq<DecoRange>
    const policy: MarkerPolicy

    constructor(state: EditorState, tree: Node, policy: MarkerPolicy)
      ensures this.policy == policy
      ensures decorations == MarkerDecorationsOf(state, tree, policy)
    {
      this.policy := policy;
      decorations := MarkerDecorationsOf(state, tree, policy);
    }

    /** Rebuilds when the document or the selection changed, and keeps the
        decorations otherwise. */
    method Update(update: ViewUpdate)
      modifies this
      ensures update.docChanged || update.selectionSet ==>
        decorations == MarkerDecorationsOf(update.state, update.tree, policy)
      ensures !(update.docChanged || update.selectionSet) ==> decorations == old(decorations)
    {
      if update.docChanged || update.selectionSet {
        decorations := BuildMarkerDecorations(update.state, update.tree, policy);
      }
    }
  }

  // ----- The examples of the tests -----

  const HeadingDoc := "# Title\n\nParagraph"

  /** `# Title`, a blank line and a paragraph. */
  function HeadingTree(): Node {
    Node("Document", 0, 18, [
      Node("ATXHeading1", 0, 7, [Node("HeaderMark", 0, 1, [])]),
      Node("Paragraph", 9, 18, [])])
  }

  lemma HeadingMarkSpace()
    ensures Slice(HeadingDoc, 1, 2) == " "
  {
  }

  /** With the head at the end of the document the heading's `# ` is hidden;
      with the head in the heading nothing is. */
  lemma HeadingExample(policy: MarkerPolicy)
    requires "HeaderMark" in policy.markerNodeNames
    ensures DecoRange(0, 2, HiddenMarker) in MarkerDecorationsOf(EditorState(HeadingDoc, Cursor(18)), HeadingTree(), policy)
    ensures MarkerDecorationsOf(EditorState(HeadingDoc, Cursor(3)), HeadingTree(), policy) == []
  {
    HeadingMarkSpace();
    var root := HeadingTree();
    var h1 := root.children[0];
    var mark := h1.children[0];
    var outside := OwnDecorations(HeadingDoc, 18, policy, Some(Context(h1)), Context(mark));
    assert DecoRange(0, 2, HiddenMarker) in outside;
    VisitDecorates(HeadingDoc, 18, policy, None, [root]);
    assert (Some(Context(h1)), Context(mark)) in Pairs(None, [root]) by {
      assert [root][..0] == [] && root.children[..1] == [h1] && h1.children[..0] == [];
      assert (Some(Context(h1)), Context(mark)) in Pairs(Some(Context(h1)), h1.children);
      assert Pairs(Some(Context(h1)), h1.children) <= Pairs(Some(Context(root)), root.children[..1]);
    }
    assert Cursor(3).head == 3;
    InsideEverywhere(HeadingDoc, 3, policy, None, [root]);
  }

  /** A head inside every node's range hides and marks nothing. */
  lemma {:induction false} InsideEverywhere(doc: string, head: nat, policy: MarkerPolicy,
                                            parent: Option<NodeContext>, siblings: seq<Node>)
    requires parent.Some? && siblings != [] ==> IsSelectionInside(head, parent.value.from, parent.value.to)
    requires forall i :: 0 <= i < |siblings| ==> Holds(siblings[i], head)
    ensures Visit(doc, head, policy, parent, siblings) == []
    decreases siblings
  {
    if siblings != [] {
      var last := siblings[|siblings| - 1];
      InsideEverywhere(doc, head, policy, parent, siblings[..|siblings| - 1]);
      InsideEverywhere(doc, head, policy, Some(Context(last)), last.children);
    }
  }

  /** `head` lies in the node and in each of its descendants that has children. */
  predicate Holds(n: Node, head: nat) {
    (n.children != [] ==> IsSelectionInside(head, n.from, n.to)) &&
    forall i :: 0 <= i < |n.children| ==> Holds(n.children[i], head)
  }

  const BoldDoc := "Text **bold** end"

  /** A paragraph with strong emphasis over `**bold**`. */
  function BoldTree(): Node {
    Node("Document", 0, 17, [
      Node("Paragraph", 0, 17, [
        Node("StrongEmphasis", 5, 13, [Node("EmphasisMark", 5, 7, []), Node("EmphasisMark", 11, 13, [])])])])
  }

  lemma BoldMarks()
    ensures BoldDoc[5..7] == "**" && BoldDoc[11..13] == "**"
  {
  }

  /** With the head before the bold text its `**` are hidden; with the head in
      the bold text nothing is. */
  lemma BoldExample(policy: MarkerPolicy)
    requires "EmphasisMark" in policy.markerNodeNames
    ensures DecoRange(5, 7, HiddenMarker) in MarkerDecorationsOf(EditorState(BoldDoc, Cursor(0)), BoldTree(), policy)
    ensures MarkerDecorationsOf(EditorState(BoldDoc, Cursor(8)), BoldTree(), policy) == []
  {
    var root := BoldTree();
    var para := root.children[0];
    var strong := para.children[0];
    var mark := strong.children[0];
    assert DecoRange(5, 7, HiddenMarker) in OwnDecorations(BoldDoc, 0, policy, Some(Context(strong)), Context(mark));
    VisitDecorates(BoldDoc, 0, policy, None, [root]);
    assert (Some(Context(strong)), Context(mark)) in Pairs(None, [root]) by {
      assert [root][..0] == [] && root.children[..0] == [] && para.children[..0] == [] && strong.children[..1] == [mark];
      assert (Some(Context(strong)), Context(mark)) in Pairs(Some(Context(strong)), strong.children[..1]);
      assert Pairs(Some(Context(strong)), strong.children[..1]) <= Pairs(Some(Context(strong)), strong.children);
      assert Pairs(Some(Context(strong)), strong.children) <= Pairs(Some(Context(para)), para.children);
      assert Pairs(Some(Context(para)), para.children) <= Pairs(Some(Context(root)), root.children);
    }
    assert Cursor(8).head == 8;
    InsideEverywhere(BoldDoc, 8, policy, None, [root]);
  }
}
