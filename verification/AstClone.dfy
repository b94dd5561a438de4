/** `ast_clone_tree`: a fresh copy of a whole tree, parents included. */
module AstClone {
  import opened AstSplice

  /** A tree of nodes. */
  datatype Tree = Nil | At(node: Node, l: Tree, r: Tree)

  function Nodes(t: Tree): (ns: set<Node>)
  {
    match t
    case Nil => {}
    case At(n, l, r) => {n} + Nodes(l) + Nodes(r)
  }

  /** The pointers at `n` form the tree: no node is shared, children know their parents, and
      leaves have no children. */
  ghost predicate Holds(n: Node?, t: Tree)
    reads Nodes(t)
    decreases t
  {
    match t
    case Nil => n == null
    case At(x, l, r) =>
      && n == x && Holds(x.left, l) && Holds(x.right, r)
      && x !in Nodes(l) && x !in Nodes(r) && Nodes(l) !! Nodes(r)
      && (l.At? ==> l.node.parent == x) && (r.At? ==> r.node.parent == x)
      && (x.kind.Leaf? ==> l.Nil? && r.Nil?)
  }

  /** The same tree but for the nodes' identities. */
  predicate Copies(t: Tree, t': Tree)
  {
    match t
    case Nil => t'.Nil?
    case At(x, l, r) => t'.At? && t'.node.kind == x.kind && t'.node.text == x.text && Copies(l, t'.l) && Copies(r, t'.r)
  }

  /** A tree without identities. */
  datatype Outline = Blank | Mark(kind: Kind, text: string, l: Outline, r: Outline)

  function OutlineOf(t: Tree): (o: Outline)
  {
    match t
    case Nil => Blank
    case At(n, l, r) => Mark(n.kind, n.text, OutlineOf(l), OutlineOf(r))
  }

  /** Copies are the trees with the same types and texts in the same places. */
  lemma {:induction false} CopiesIff(t: Tree, t': Tree)
    ensures Copies(t, t') <==> OutlineOf(t) == OutlineOf(t')
  {
    if t.At? && t'.At? {
      CopiesIff(t.l, t'.l);
      CopiesIff(t.r, t'.r);
    }
  }

  lemma {:induction false} Children(n: Node?, t: Tree)
    requires Holds(n, t)
    ensures n == null <==> t.Nil?
    ensures n != null ==> t.node == n && n in Nodes(t) && Holds(n.left, t.l) && Holds(n.right, t.r) && Nodes(t.l) <= Nodes(t) && Nodes(t.r) <= Nodes(t)
    ensures n != null && n.kind.Leaf? ==> t.l.Nil? && t.r.Nil? && n.left == null && n.right == null
  {
  }

  lemma {:induction false} Whole(c: Node, l: Tree, r: Tree)
    requires Holds(c.left, l) && Holds(c.right, r) && c !in Nodes(l) && c !in Nodes(r) && Nodes(l) !! Nodes(r)
    requires (c.left != null ==> c.left.parent == c) && (c.right != null ==> c.right.parent == c)
    requires c.kind.Leaf? ==> l.Nil? && r.Nil?
    ensures Holds(c, At(c, l, r)) && Nodes(At(c, l, r)) == {c} + Nodes(l) + Nodes(r)
  {
  }

  /** The copy is made of new nodes, its parents are right, and its root still names the
      original's parent, for the caller to hang it elsewhere. */
  method Clone(n: Node?, ghost t: Tree, ghost all: set<Node>) returns (c: Node?, ghost t': Tree, ghost made: set<Node>)
    requires Holds(n, t) && Nodes(t) <= all
    ensures Holds(c, t') && Copies(t, t') && made == Nodes(t') && fresh(made) && made !! all
    ensures c != null ==> c.parent == n.parent
    decreases t, 1
  {
    hide Holds, Nodes, Copies;
    Children(n, t);
    if n == null {
      Empty();
      return null, Nil, {};
    }
    c := new Node(n.kind, n.text, n.left, n.right, n.parent);
    ghost var tl, tr, ls, rs := Nil, Nil, {}, {};
    Empty();
    if !n.kind.Leaf? {
      tl, tr, ls, rs := CloneChildren(n, c, t, all + {c});
    }
    Whole(c, tl, tr);
    made := {c} + ls + rs;
    t' := At(c, tl, tr);
    Copied(n, t, t');
  }

  method CloneChildren(n: Node, c: Node, ghost t: Tree, ghost all: set<Node>)
    returns (ghost tl: Tree, ghost tr: Tree, ghost ls: set<Node>, ghost rs: set<Node>)
    requires t.At? && Holds(n.left, t.l) && Holds(n.right, t.r) && Nodes(t) <= all && Nodes(t.l) <= Nodes(t) && Nodes(t.r) <= Nodes(t)
    requires n in all && c in all && c !in Nodes(t) && c != n
    modifies c`left, c`right
    ensures Holds(c.left, tl) && Holds(c.right, tr) && Copies(t.l, tl) && Copies(t.r, tr)
    ensures ls == Nodes(tl) && rs == Nodes(tr) && fresh(ls) && fresh(rs) && ls !! all && rs !! all && ls !! rs
    ensures (c.left != null ==> c.left.parent == c) && (c.right != null ==> c.right.parent == c)
    decreases t, 0
  {
    hide Holds, Nodes, Copies;
    var l, r;
    l, tl, ls := Clone(n.left, t.l, all);
    Children(l, tl);
    Adopt(c, l, tl, true, ls);
    assert Holds(n.right, t.r);
    r, tr, rs := Clone(n.right, t.r, all + ls);
    assert Holds(l, tl);
    Children(r, tr);
    Adopt(c, r, tr, false, rs);
    assert Holds(l, tl);
  }

  lemma {:induction false} Copied(n: Node, t: Tree, t': Tree)
    requires t.At? && t'.At? && t.node == n && t'.node.kind == n.kind && t'.node.text == n.text
    requires Copies(t.l, t'.l) && Copies(t.r, t'.r)
    ensures Copies(t, t')
  {
  }

  lemma {:induction false} Empty()
    ensures Holds(null, Nil) && Nodes(Nil) == {} && Copies(Nil, Nil)
  {
  }

  /** A subtree is hung under a node. */
  method Adopt(c: Node, sub: Node?, ghost t: Tree, isLeft: bool, ghost ns: set<Node>)
    requires Holds(sub, t) && ns == Nodes(t) && c !in ns
    modifies c`left, c`right, Self(sub)`parent
    ensures Holds(sub, t) && (sub != null ==> sub.parent == c)
    ensures isLeft ==> c.left == sub && c.right == old(c.right)
    ensures !isLeft ==> c.right == sub && c.left == old(c.left)
  {
    ghost var x, y := if sub == null then null else sub.left, if sub == null then null else sub.right;
    assert sub != null ==> Holds(x, t.l) && Holds(y, t.r) && Nodes(t.l) <= ns && Nodes(t.r) <= ns;
    if isLeft {
      SetLeft(c, sub);
    } else {
      SetRight(c, sub);
    }
    assert sub != null ==> Holds(x, t.l) && Holds(y, t.r);
  }
}
