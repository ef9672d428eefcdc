/** The Lezer syntax tree of a Markdown document as the decoration engines
    walk it: every node has a type name, a start and an end offset, and its
    children in document order. Parsing the document into the tree
    (`syntaxTree(state)`) is not part of this model; the tree is an input. */
module SyntaxTree {
  import opened EditorDoc

  datatype Node = Node(name: string, from: nat, to: nat, children: seq<Node>)

  /** What the tree cursor reports of the node it stands on. */
  datatype NodeContext = NodeContext(name: string, from: nat, to: nat)

  function Context(n: Node): NodeContext {
    NodeContext(n.name, n.from, n.to)
  }

  /** The node's range lies in a document of length `len`, and so do those of
      all its descendants; each child lies within its parent, and siblings
      follow each other without overlapping. */
  predicate WellFormed(n: Node, len: nat) {
    n.from <= n.to <= len &&
    forall i :: 0 <= i < |n.children| ==>
      n.from <= n.children[i].from && n.children[i].to <= n.to &&
      (i > 0 ==> n.children[i - 1].to <= n.children[i].from) &&
      WellFormed(n.children[i], len)
  }

  /** A node whose children lie in it in order and have no children of their own is well formed. */
  lemma WellFormedOverLeaves(n: Node, len: nat)
    requires n.from <= n.to <= len
    requires forall i :: 0 <= i < |n.children| ==>
      n.children[i].children == [] && n.from <= n.children[i].from <= n.children[i].to <= n.to &&
      (i > 0 ==> n.children[i - 1].to <= n.children[i].from)
    ensures WellFormed(n, len)
  {
    forall i | 0 <= i < |n.children| ensures WellFormed(n.children[i], len) {
      assert n.children[i].children == [];
    }
  }

  /** The nodes in the order `cursor.next()` visits them: each node before
      its children, the children in order. */
  function PreOrder(n: Node): (r: seq<Node>)
    ensures r != [] && r[0] == n
  {
    [n] + PreOrderAll(n.children)
  }

  function PreOrderAll(ns: seq<Node>): seq<Node> {
    if ns == [] then [] else PreOrderAll(ns[..|ns| - 1]) + PreOrder(ns[|ns| - 1])
  }

  /** Every node a well-formed tree's walk visits lies in the document. */
  lemma {:induction false} PreOrderWellFormed(n: Node, len: nat)
    requires WellFormed(n, len)
    ensures forall m :: m in PreOrder(n) ==> WellFormed(m, len)
    decreases n, 1
  {
    PreOrderAllWellFormed(n.children, len);
  }

  lemma {:induction false} PreOrderAllWellFormed(ns: seq<Node>, len: nat)
    requires forall i :: 0 <= i < |ns| ==> WellFormed(ns[i], len)
    ensures forall m :: m in PreOrderAll(ns) ==> WellFormed(m, len)
    decreases ns, 0
  {
    if ns != [] {
      PreOrderAllWellFormed(ns[..|ns| - 1], len);
      PreOrderWellFormed(ns[|ns| - 1], len);
    }
  }

  /** Nodes without children are walked as they are. */
  lemma {:induction false} PreOrderAllLeaves(ns: seq<Node>)
    requires forall i :: 0 <= i < |ns| ==> ns[i].children == []
    ensures PreOrderAll(ns) == ns
  {
    if ns != [] {
      var init := ns[..|ns| - 1];
      PreOrderAllLeaves(init);
      assert PreOrderAll(ns[|ns| - 1].children) == [];
      assert init + [ns[|ns| - 1]] == ns;
    }
  }

  lemma PreOrderAllOne(a: Node)
    ensures PreOrderAll([a]) == PreOrder(a)
  {
    assert [a][..0] == [];
  }

  lemma PreOrderAllPair(a: Node, b: Node)
    ensures PreOrderAll([a, b]) == PreOrder(a) + PreOrder(b)
  {
    assert [a, b][..1] == [a];
    PreOrderAllOne(a);
  }

  /** A node whose children have no children of their own is walked before them. */
  lemma PreOrderOfLeaves(n: Node)
    requires forall i :: 0 <= i < |n.children| ==> n.children[i].children == []
    ensures PreOrder(n) == [n] + n.children
  {
    PreOrderAllLeaves(n.children);
  }

  /** What a view plugin is told on each update: the new state with its
      syntax tree, and what changed. */
  datatype ViewUpdate = ViewUpdate(
    state: EditorState,
    tree: Node,
    docChanged: bool,
    selectionSet: bool,
    viewportChanged: bool)
}
