/** The tree surgery of macro expansion: a list that stands where one item belongs is threaded
    into the list around it, by three pointers and the parents they imply. */
module AstSplice {

  /** The node types that matter here: the four list types, macro arguments, leaves, and the rest. */
  datatype Kind = StmtList | CteTables | SelectCoreList | SelectExprList | MacroArg | Leaf | Other

  class Node {
    const kind: Kind
    const text: string
    var left: Node?
    var right: Node?
    var parent: Node?

    constructor (kind: Kind, text: string, left: Node?, right: Node?, parent: Node?)
      ensures this.kind == kind && this.text == text && this.left == left && this.right == right && this.parent == parent
    {
      this.kind, this.text, this.left, this.right, this.parent := kind, text, left, right, parent;
    }
  }

  predicate IsList(k: Kind)
  {
    k.StmtList? || k.CteTables? || k.SelectCoreList? || k.SelectExprList?
  }

  function Self(n: Node?): (s: set<Node>)
  {
    if n == null then {} else {n}
  }

  /** `ast_set_left`. */
  method SetLeft(parent: Node, left: Node?)
    modifies parent`left, Self(left)`parent
    ensures parent.left == left && (left != null ==> left.parent == parent)
  {
    parent.left := left;
    if left != null {
      left.parent := parent;
    }
  }

  /** `ast_set_right`. */
  method SetRight(parent: Node, right: Node?)
    modifies parent`right, Self(right)`parent
    ensures parent.right == right && (right != null ==> right.parent == parent)
  {
    parent.right := right;
    if right != null {
      right.parent := parent;
    }
  }

  /** `replace_node`: the new node takes the old one's place under its parent. */
  method ReplaceNode(was: Node, now: Node)
    requires was.parent != null && (was.parent.left == was || was.parent.right == was)
    modifies was.parent`left, was.parent`right, now`parent
    ensures now.parent == old(was.parent)
    ensures old(was.parent).left == if old(was.parent.left) == was then now else old(was.parent.left)
    ensures old(was.parent).right == if old(was.parent.left) == was then old(was.parent.right) else now
  {
    if was.parent.left == was {
      SetLeft(was.parent, now);
    } else {
      SetRight(was.parent, now);
    }
  }

  // ---------- lists ----------

  function First(nodes: seq<Node>): (n: Node?)
  {
    if nodes == [] then null else nodes[0]
  }

  /** What follows position `i` when `tail` comes after the nodes. */
  function Next(nodes: seq<Node>, i: nat, tail: seq<Node>): (n: Node?)
    requires i < |nodes|
  {
    if i + 1 < |nodes| then nodes[i + 1] else First(tail)
  }

  function Prev(parent: Node?, nodes: seq<Node>, i: nat): (n: Node?)
    requires i <= |nodes|
  {
    if i == 0 then parent else nodes[i - 1]
  }

  /** The nodes are one list: a chain of right pointers that ends, with parents to match, and
      with every element's parent its list node. */
  ghost predicate Chain(nodes: seq<Node>)
    reads nodes, set i | 0 <= i < |nodes| :: nodes[i].left
  {
    && (forall i :: 0 <= i < |nodes| ==> nodes[i].right == Next(nodes, i, []))
    && (forall i :: 0 < i < |nodes| ==> nodes[i].parent == Prev(null, nodes, i))
    && (forall i :: 0 <= i < |nodes| && nodes[i].left != null ==> nodes[i].left.parent == nodes[i])
  }

  /** The list's elements, in order. */
  ghost function Elements(nodes: seq<Node>): (items: seq<Node?>)
    reads nodes
    ensures |items| == |nodes| && forall i :: 0 <= i < |nodes| ==> items[i] == nodes[i].left
  {
    seq(|nodes|, i requires 0 <= i < |nodes| reads nodes => nodes[i].left)
  }

  /** The tree is a tree: list nodes are distinct, elements are no list nodes, and the first new
      element occurs once. */
  ghost predicate Separate(parent: Node, news: seq<Node>, tail: seq<Node>)
    requires news != []
    reads news, tail
  {
    && parent !in news && parent !in tail && (forall i :: 0 <= i < |news| ==> news[i] !in tail)
    && (forall i :: 0 <= i < |news| - 1 ==> news[i] != news[|news| - 1])
    && (forall i :: 1 < i < |news| ==> news[i] != news[1])
    && (forall i :: 0 < i < |tail| ==> tail[i] != tail[0])
    && (forall i :: 0 <= i < |news| ==> NoListNode(news[i].left, parent, news, tail))
    && (forall i :: 0 <= i < |tail| ==> NoListNode(tail[i].left, parent, news, tail))
    && (forall i :: 0 < i < |news| && news[i].left != null ==> news[i].left != news[0].left)
    && (forall i :: 0 <= i < |tail| && tail[i].left != null ==> tail[i].left != news[0].left)
  }

  ghost predicate NoListNode(item: Node?, parent: Node, news: seq<Node>, tail: seq<Node>)
  {
    item != parent && (item != null ==> item !in news && item !in tail)
  }

  /** None of the three nodes whose parents are set anew. */
  predicate Kept(n: Node?, a: Node?, b: Node?, c: Node?)
  {
    n != null ==> n != a && n != b && n != c
  }

  /** What the surgery needs of a tree: `a`, `b` and `c` are the first new element, the second
      new list node and the first node of the tail. */
  ghost predicate Clear(parent: Node, news: seq<Node>, tail: seq<Node>, a: Node?, b: Node?, c: Node?)
    requires news != []
    reads news, tail
  {
    && a == news[0].left && b == Next(news, 0, []) && c == First(tail)
    && (a != null ==> a != b && a != c) && (b != null ==> b != c) && Kept(parent, a, b, c)
    && (forall i :: 0 <= i < |news| ==> news[i] != parent)
    && (forall i :: 0 <= i < |news| - 1 ==> news[i] != news[|news| - 1])
    && (forall i :: 1 < i < |news| ==> Kept(news[i], a, b, c))
    && (forall i :: 0 < i < |news| ==> Kept(news[i].left, a, b, c))
    && (forall i :: 0 <= i < |tail| ==> tail[i] != parent && tail[i] != news[|news| - 1])
    && (forall i :: 0 < i < |tail| ==> Kept(tail[i], a, b, c))
    && (forall i :: 0 <= i < |tail| ==> Kept(tail[i].left, a, b, c))
  }

  lemma {:induction false} SeparateIsClear(parent: Node, news: seq<Node>, tail: seq<Node>)
    requires news != [] && Separate(parent, news, tail)
    ensures Clear(parent, news, tail, news[0].left, Next(news, 0, []), First(tail))
  {
    assert NoListNode(news[0].left, parent, news, tail);
  }

  /** What a list is: each node's right is the next one and the next one's parent, the last has no
      right, and every element's parent is its node. */
  lemma {:induction false} ChainIs(nodes: seq<Node>, i: nat)
    requires Chain(nodes) && i < |nodes|
    ensures i + 1 < |nodes| ==> nodes[i].right == nodes[i + 1] && nodes[i + 1].parent == nodes[i]
    ensures i + 1 == |nodes| ==> nodes[i].right == null
    ensures nodes[i].left != null ==> nodes[i].left.parent == nodes[i]
  {
    assert nodes[i].right == Next(nodes, i, []);
    assert i + 1 < |nodes| ==> nodes[i + 1].parent == Prev(null, nodes, i + 1);
  }

  /** Three lists in a row are one when their ends meet. */
  lemma {:induction false} ChainJoin(parent: Node, mid: seq<Node>, tail: seq<Node>, all: seq<Node>)
    requires all == [parent] + mid + tail && Chain(tail)
    requires parent.right == First(mid + tail)
    requires parent.left != null ==> parent.left.parent == parent
    requires forall i :: 0 <= i < |mid| ==> mid[i].right == Next(mid, i, tail)
    requires forall i :: 0 <= i < |mid| ==> mid[i].parent == Prev(parent, mid, i)
    requires forall i :: 0 <= i < |mid| && mid[i].left != null ==> mid[i].left.parent == mid[i]
    requires tail != [] ==> tail[0].parent == Prev(parent, mid, |mid|)
    ensures Chain(all)
  {
    forall i | 0 <= i < |all|
      ensures all[i] == At(parent, mid, tail, i)
      ensures all[i].right == Next(all, i, [])
      ensures i > 0 ==> all[i].parent == Prev(null, all, i)
      ensures all[i].left != null ==> all[i].left.parent == all[i]
    {
      if i + 1 < |all| {
        assert all[i + 1] == At(parent, mid, tail, i + 1);
      }
      if i > 0 {
        assert all[i - 1] == At(parent, mid, tail, i - 1);
      }
    }
  }

  function At(parent: Node, mid: seq<Node>, tail: seq<Node>, i: nat): (n: Node)
    requires i <= |mid| + |tail|
    ensures n == ([parent] + mid + tail)[i]
  {
    if i == 0 then parent else if i <= |mid| then mid[i - 1] else tail[i - 1 - |mid|]
  }

  /** March to the end of a list. */
  method FindEnd(body: Node, ghost news: seq<Node>) returns (end: Node)
    requires news != [] && news[0] == body
    requires Chain(news)
    ensures end == news[|news| - 1]
  {
    end := body;
    ghost var i := 0;
    while end.right != null
      invariant 0 <= i < |news| && end == news[i]
      decreases |news| - i
    {
      i := i + 1;
      end := end.right;
    }
  }

  /** The three pointers: the first new element, the end of the new list, and what follows. */
  method Thread(parent: Node, body: Node, end: Node)
    requires parent != end && parent != body && end.right == null && (body.right == null <==> end == body)
    requires parent.right != null ==> parent.right != body.right && parent.right != body.left
    requires body.left != null ==> body.left != body.right
    modifies parent`left, parent`right, end`right, Self(body.left)`parent, Self(body.right)`parent, Self(parent.right)`parent
    ensures parent.left == old(body.left) && end.right == old(parent.right)
    ensures parent.right == if end == body then old(parent.right) else old(body.right)
    ensures old(body.left) != null ==> old(body.left).parent == parent
    ensures old(body.right) != null ==> old(body.right).parent == parent
    ensures old(parent.right) != null ==> old(parent.right).parent == if end == body then parent else end
  {
    SetLeft(parent, body.left);
    SetRight(end, parent.right);
    SetRight(parent, body.right);
  }

  /** `spliced_macro_into_list`.  Given a list `news` at `body` and the list `[parent] + tail`, the
      nodes `[parent] + news[1..] + tail` become one list with the elements of `news` and then of
      `tail`, every parent pointer right; no list, or a macro argument, is left alone. */
  method SpliceIntoList(parent: Node, body: Node, ghost news: seq<Node>, ghost tail: seq<Node>) returns (spliced: bool)
    requires news != [] && news[0] == body && Chain(news) && Chain(tail)
    requires parent.right == First(tail) && (tail != [] ==> tail[0].parent == parent)
    requires Separate(parent, news, tail)
    modifies parent, news, tail, Self(body.left)
    ensures spliced == (parent.kind != MacroArg &&
              (body.kind == StmtList || body.kind == CteTables || body.kind == SelectCoreList || body.kind == SelectExprList))
    ensures !spliced ==> unchanged(parent) && unchanged(news) && unchanged(tail) && unchanged(Self(old(body.left)))
    ensures spliced ==>
              && Chain([parent] + news[1..] + tail)
              && Elements([parent] + news[1..] + tail) == old(Elements(news) + Elements(tail))
    ensures parent.parent == old(parent.parent)
  {
    hide Chain, Separate, Clear, Next, Prev;
    if !IsList(body.kind) {
      return false;
    }
    if parent.kind.MacroArg? {
      return false;
    }
    var end := FindEnd(body, news);
    ghost var items := Elements(news) + Elements(tail);
    SeparateIsClear(parent, news, tail);
    ThreadLists(parent, body, end, news, tail);
    ghost var all := [parent] + news[1..] + tail;
    Threaded(parent, news, tail, end, all);
    SameElements(parent, news, tail, all, items);
    return true;
  }

  /** Threading two separate lists: which of their pointers change, and which stay. */
  method ThreadLists(parent: Node, body: Node, end: Node, ghost news: seq<Node>, ghost tail: seq<Node>)
    requires news != [] && news[0] == body && end == news[|news| - 1] && Chain(news) && Chain(tail)
    requires parent.right == First(tail) && Clear(parent, news, tail, news[0].left, Next(news, 0, []), First(tail))
    modifies parent, news, tail, Self(body.left)
    ensures parent.parent == old(parent.parent) && parent.left == old(body.left)
    ensures parent.left != null ==> parent.left.parent == parent
    ensures parent.right == First(news[1..] + tail) && end.right == First(tail)
    ensures |news| > 1 ==> news[1].parent == parent
    ensures tail != [] ==> tail[0].parent == Prev(parent, news[1..], |news| - 1)
    ensures forall i :: 0 <= i < |news| ==> news[i].left == old(news[i].left)
    ensures forall i :: 0 <= i < |tail| ==> tail[i].left == old(tail[i].left)
    ensures forall i :: 0 <= i < |news| - 1 ==> news[i].right == Next(news, i, [])
    ensures forall i :: 1 < i < |news| ==> news[i].parent == Prev(null, news, i)
    ensures forall i :: 0 < i < |news| && news[i].left != null ==> news[i].left.parent == news[i]
    ensures Chain(tail)
  {
    hide Next, Prev, First;
    Ends(parent, news, tail);
    ghost var a, b, c := body.left, body.right, parent.right;
    Thread(parent, body, end);
    forall i | 1 < i < |news|
      ensures news[i].parent == Prev(null, news, i)
    {
      assert Kept(news[i], a, b, c);
    }
    forall i | 0 < i < |news| && news[i].left != null
      ensures news[i].left.parent == news[i]
    {
      assert Kept(news[i].left, a, b, c);
    }
    forall i | 0 < i < |tail|
      ensures tail[i].parent == Prev(null, tail, i)
    {
      assert Kept(tail[i], a, b, c);
    }
    forall i | 0 <= i < |tail|
      ensures tail[i].right == Next(tail, i, []) && (tail[i].left != null ==> tail[i].left.parent == tail[i])
    {
      assert Kept(tail[i].left, a, b, c);
    }
  }

  lemma {:induction false} Ends(parent: Node, news: seq<Node>, tail: seq<Node>)
    requires news != [] && Chain(news)
    ensures news[|news| - 1].right == null && news[0].right == Next(news, 0, [])
    ensures Next(news, 0, []) == if |news| == 1 then null else news[1]
    ensures First(tail) == if |tail| == 0 then null else tail[0]
    ensures First(news[1..] + tail) == if |news| == 1 then First(tail) else news[1]
    ensures Prev(parent, news[1..], |news| - 1) == if |news| == 1 then parent else news[|news| - 1]
  {
    assert news[|news| - 1].right == Next(news, |news| - 1, []);
    assert news[0].right == Next(news, 0, []);
  }

  /** The pointers of the joined list, put together. */
  lemma {:induction false} Threaded(parent: Node, news: seq<Node>, tail: seq<Node>, end: Node, all: seq<Node>)
    requires news != [] && end == news[|news| - 1] && all == [parent] + news[1..] + tail && Chain(tail)
    requires parent.right == First(news[1..] + tail) && (parent.left != null ==> parent.left.parent == parent)
    requires end.right == First(tail) && (|news| > 1 ==> news[1].parent == parent)
    requires tail != [] ==> tail[0].parent == Prev(parent, news[1..], |news| - 1)
    requires forall i :: 0 <= i < |news| - 1 ==> news[i].right == Next(news, i, [])
    requires forall i :: 1 < i < |news| ==> news[i].parent == Prev(null, news, i)
    requires forall i :: 0 < i < |news| && news[i].left != null ==> news[i].left.parent == news[i]
    ensures Chain(all)
  {
    hide Chain;
    var mid := news[1..];
    forall i | 0 <= i < |mid|
      ensures mid[i].right == Next(mid, i, tail) && mid[i].parent == Prev(parent, mid, i)
      ensures mid[i].left != null ==> mid[i].left.parent == mid[i]
    {
      assert mid[i] == news[i + 1] && (i > 0 ==> mid[i - 1] == news[i]);
    }
    ChainJoin(parent, mid, tail, all);
  }

  lemma {:induction false} SameElements(parent: Node, news: seq<Node>, tail: seq<Node>, all: seq<Node>, items: seq<Node?>)
    requires news != [] && all == [parent] + news[1..] + tail && |items| == |all| && parent.left == items[0]
    requires forall i :: 0 < i < |news| ==> news[i].left == items[i]
    requires forall i :: 0 <= i < |tail| ==> tail[i].left == items[|news| + i]
    ensures Elements(all) == items
  {
    forall j | 0 <= j < |all|
      ensures all[j].left == items[j]
    {
      if j >= |news| {
        assert all[j] == tail[j - |news|];
      } else if j > 0 {
        assert all[j] == news[j];
      }
    }
  }
}
