// The nodes of a sparse array and the ghost shapes that describe how they are
// linked.  A `Tree` says which node sits where; `Links` ties it to the heap.
// A `Path` is a tree with one subtree cut out, seen from the hole upwards: it
// is what the two rebalancing loops walk along.
module SparseArrayTree {

  class Node {
    const key: int
    var value: object?
    var balance: int
    var parent: Node?
    var left: Node?
    var right: Node?

    constructor (key: int, value: object?)
      ensures this.key == key && this.value == value && balance == 0
      ensures parent == null && left == null && right == null
    {
      this.key, this.value, balance := key, value, 0;
      parent, left, right := null, null, null;
    }

    method SetValue(value: object?) returns (was: object?)
      modifies this`value
      ensures was == old(this.value) && this.value == value
    {
      was := this.value;
      this.value := value;
    }

    method Adopt(child: Node?, onLeft: bool)
      requires child != this
      modifies this, Opt(child)
      ensures left == if onLeft then child else old(left)
      ensures right == if onLeft then old(right) else child
      ensures child != null ==> child.parent == this && child.left == old(child.left) && child.right == old(child.right)
      ensures parent == old(parent) && SameData(this) && SameData(child)
    {
      if onLeft {
        left := child;
      } else {
        right := child;
      }
      if child != null {
        child.parent := this;
      }
    }

    predicate IsLinked()
      reads this
    {
      parent != null || left != null || right != null
    }
  }

  ghost function Opt(n: Node?): set<Node> {
    if n == null then {} else {n}
  }

  // A change of links leaves the rest of the node alone.
  twostate predicate SameData(n: Node?)
    reads Opt(n)
  {
    n != null ==> n.balance == old(n.balance) && n.value == old(n.value)
  }

  // ----- trees ---------------------------------------------------------------

  datatype Tree = Nil | Bin(left: Tree, node: Node, right: Tree)

  // `Bin`, with the sides exchanged when `onLeft` is false.
  ghost function Join(onLeft: bool, t: Tree, n: Node, u: Tree): Tree {
    if onLeft then Bin(t, n, u) else Bin(u, n, t)
  }

  ghost function Root(t: Tree): Node? {
    if t.Nil? then null else t.node
  }

  ghost function Nodes(t: Tree): set<Node> {
    if t.Nil? then {} else Nodes(t.left) + {t.node} + Nodes(t.right)
  }

  ghost function InOrder(t: Tree): seq<Node> {
    if t.Nil? then [] else InOrder(t.left) + [t.node] + InOrder(t.right)
  }

  ghost function Max(a: nat, b: nat): nat {
    if a < b then b else a
  }

  ghost function Height(t: Tree): nat {
    if t.Nil? then 0 else 1 + Max(Height(t.left), Height(t.right))
  }

  // No node occurs twice.
  ghost predicate Distinct(t: Tree) {
    t.Bin? ==>
      && t.node !in Nodes(t.left) && t.node !in Nodes(t.right)
      && Nodes(t.left) !! Nodes(t.right)
      && Distinct(t.left) && Distinct(t.right)
  }

  // The heap links the nodes the way `t` says, below `parent`.
  ghost predicate Links(t: Tree, parent: Node?)
    reads Nodes(t)`left, Nodes(t)`right, Nodes(t)`parent
  {
    t.Bin? ==>
      && t.node.left == Root(t.left) && t.node.right == Root(t.right)
      && t.node.parent == parent
      && Links(t.left, t.node) && Links(t.right, t.node)
  }

  lemma LinksJoin(onLeft: bool, t: Tree, n: Node, u: Tree, parent: Node?)
    ensures Links(Join(onLeft, t, n, u), parent) <==>
            && n.left == (if onLeft then Root(t) else Root(u))
            && n.right == (if onLeft then Root(u) else Root(t))
            && n.parent == parent && Links(t, n) && Links(u, n)
  {
  }

  // Every stored balance is the height difference, and is -1, 0 or 1.
  ghost predicate Balances(t: Tree)
    reads Nodes(t)`balance
  {
    t.Bin? ==>
      && t.node.balance == Height(t.right) - Height(t.left)
      && -1 <= t.node.balance <= 1
      && Balances(t.left) && Balances(t.right)
  }

  ghost predicate Sorted(s: seq<Node>) {
    forall i, j :: 0 <= i < j < |s| ==> s[i].key < s[j].key
  }

  // ----- paths ---------------------------------------------------------------

  // A tree around a hole.  `node` is the parent of the hole, which is its left
  // child exactly when `wentLeft`; `sibling` is the other child.
  datatype Path = Top | Down(up: Path, node: Node, wentLeft: bool, sibling: Tree)

  ghost function Parent(p: Path): Node? {
    if p.Top? then null else p.node
  }

  ghost function PathNodes(p: Path): set<Node> {
    if p.Top? then {} else PathNodes(p.up) + {p.node} + Nodes(p.sibling)
  }

  ghost function Plug(p: Path, t: Tree): Tree {
    if p.Top? then t else Plug(p.up, Join(p.wentLeft, t, p.node, p.sibling))
  }

  // The in-order nodes on either side of the hole.
  ghost function Before(p: Path): seq<Node> {
    if p.Top? then []
    else if p.wentLeft then Before(p.up)
    else Before(p.up) + InOrder(p.sibling) + [p.node]
  }

  ghost function After(p: Path): seq<Node> {
    if p.Top? then []
    else if p.wentLeft then [p.node] + InOrder(p.sibling) + After(p.up)
    else After(p.up)
  }

  ghost predicate PathDistinct(p: Path) {
    p.Down? ==>
      && p.node !in PathNodes(p.up) && p.node !in Nodes(p.sibling)
      && PathNodes(p.up) !! Nodes(p.sibling)
      && PathDistinct(p.up) && Distinct(p.sibling)
  }

  // The heap links the path the way `p` says, with `hole` where the hole is.
  ghost predicate PathLinks(p: Path, hole: Node?, head: Node?)
    reads PathNodes(p)`left, PathNodes(p)`right, PathNodes(p)`parent
  {
    if p.Top? then
      head == hole
    else
      && p.node.left == (if p.wentLeft then hole else Root(p.sibling))
      && p.node.right == (if p.wentLeft then Root(p.sibling) else hole)
      && p.node.parent == Parent(p.up)
      && Links(p.sibling, p.node)
      && PathLinks(p.up, p.node, head)
  }

  // Every stored balance on the path is right for a hole of height `h`.
  ghost predicate PathBalances(p: Path, h: nat)
    reads PathNodes(p)`balance
  {
    p.Down? ==>
      && p.node.balance == (if p.wentLeft then Height(p.sibling) - h else h - Height(p.sibling))
      && -1 <= p.node.balance <= 1
      && Balances(p.sibling)
      && PathBalances(p.up, 1 + Max(h, Height(p.sibling)))
  }

  // `t` below `p`, with nothing shared between them.
  ghost predicate Apart(p: Path, t: Tree) {
    PathDistinct(p) && Distinct(t) && PathNodes(p) !! Nodes(t)
  }

  // ----- plugging ------------------------------------------------------------

  lemma {:induction false} PlugInOrder(p: Path, t: Tree)
    ensures InOrder(Plug(p, t)) == Before(p) + InOrder(t) + After(p)
  {
    if p.Down? {
      PlugInOrder(p.up, Join(p.wentLeft, t, p.node, p.sibling));
    }
  }

  lemma {:induction false} PlugDistinct(p: Path, t: Tree)
    requires Apart(p, t)
    ensures Nodes(Plug(p, t)) == PathNodes(p) + Nodes(t)
    ensures Distinct(Plug(p, t))
  {
    if p.Down? {
      PlugDistinct(p.up, Join(p.wentLeft, t, p.node, p.sibling));
    }
  }

  lemma {:induction false} PlugLinks(p: Path, t: Tree, head: Node?)
    requires Links(t, Parent(p)) && PathLinks(p, Root(t), head)
    ensures Links(Plug(p, t), null) && head == Root(Plug(p, t))
  {
    if p.Down? {
      PlugLinks(p.up, Join(p.wentLeft, t, p.node, p.sibling), head);
    }
  }

  lemma {:induction false} PlugBalances(p: Path, t: Tree)
    requires Balances(t) && PathBalances(p, Height(t))
    ensures Balances(Plug(p, t))
  {
    hide Height;
    if p.Down? {
      BalancesJoin(p.wentLeft, t, p.node, p.sibling);
      PlugBalances(p.up, Join(p.wentLeft, t, p.node, p.sibling));
    }
  }

  lemma PathLinksDown(p: Path, n: Node, onLeft: bool, sibling: Tree, hole: Node?, head: Node?)
    ensures PathLinks(Down(p, n, onLeft, sibling), hole, head) <==>
            && n.left == (if onLeft then hole else Root(sibling))
            && n.right == (if onLeft then Root(sibling) else hole)
            && n.parent == Parent(p)
            && Links(sibling, n) && PathLinks(p, n, head)
  {
  }

  // ----- rotation ------------------------------------------------------------

  // What being distinct means for the pieces that a rotation moves.
  lemma RotateParts(onLeft: bool, a: Tree, n: Node, b: Tree, child: Node, c: Tree)
    requires Distinct(Join(onLeft, a, n, Join(onLeft, b, child, c)))
    ensures Distinct(a) && Distinct(b) && Distinct(c) && Distinct(Join(onLeft, b, child, c))
    ensures Nodes(a) !! Nodes(b) && Nodes(a) !! Nodes(c) && Nodes(b) !! Nodes(c)
    ensures n !in Nodes(a) && n !in Nodes(b) && n !in Nodes(c) && n != child
    ensures child !in Nodes(a) && child !in Nodes(b) && child !in Nodes(c)
    ensures Nodes(Join(onLeft, a, n, Join(onLeft, b, child, c))) == Nodes(a) + {n} + Nodes(b) + {child} + Nodes(c)
    ensures Nodes(Join(onLeft, b, child, c)) == Nodes(b) + {child} + Nodes(c)
  {
    var inner := Join(onLeft, b, child, c);
    assert Nodes(inner) == Nodes(b) + {child} + Nodes(c) && Distinct(inner);
  }

  // The nodes a rotation at the hole of `p` writes to, apart from the trees it carries.
  lemma RotateApart(onLeft: bool, p: Path, a: Tree, n: Node, b: Tree, child: Node, c: Tree)
    requires Apart(p, Join(onLeft, a, n, Join(onLeft, b, child, c)))
    ensures PathNodes(p) !! Nodes(a) && PathNodes(p) !! Nodes(b) && PathNodes(p) !! Nodes(c)
    ensures n !in PathNodes(p) && child !in PathNodes(p)
  {
    hide PathNodes, PathDistinct, Nodes, Distinct, Join;
    DistinctJoin(onLeft, a, n, Join(onLeft, b, child, c));
    DistinctJoin(onLeft, b, child, c);
  }

  lemma ExtendPath(p: Path, n: Node, onLeft: bool, sibling: Tree)
    requires PathDistinct(p) && Distinct(sibling) && PathNodes(p) !! Nodes(sibling)
    requires n !in PathNodes(p) && n !in Nodes(sibling)
    ensures PathDistinct(Down(p, n, onLeft, sibling))
    ensures PathNodes(Down(p, n, onLeft, sibling)) == PathNodes(p) + {n} + Nodes(sibling)
  {
  }

  lemma Ends(p: Path, t: Tree)
    ensures Parent(p) != null ==> Parent(p) in PathNodes(p)
    ensures Root(t) != null ==> Root(t) in Nodes(t)
  {
  }

  // A rotation keeps the nodes and their order.
  lemma RotateKeeps(onLeft: bool, a: Tree, n: Node, b: Tree, child: Node, c: Tree)
    requires Distinct(Join(onLeft, a, n, Join(onLeft, b, child, c)))
    ensures var t := Join(onLeft, a, n, Join(onLeft, b, child, c));
            var u := Join(onLeft, Join(onLeft, a, n, b), child, c);
            Nodes(u) == Nodes(t) && InOrder(u) == InOrder(t) && Distinct(u)
  {
    hide Join, Nodes, Distinct, InOrder;
    DistinctJoin(onLeft, a, n, Join(onLeft, b, child, c));
    DistinctJoin(onLeft, b, child, c);
    DistinctJoin(onLeft, a, n, b);
    DistinctJoin(onLeft, Join(onLeft, a, n, b), child, c);
    RotateKeepsOrder(onLeft, a, n, b, child, c);
  }

  lemma RotateKeepsOrder(onLeft: bool, a: Tree, n: Node, b: Tree, child: Node, c: Tree)
    ensures InOrder(Join(onLeft, Join(onLeft, a, n, b), child, c)) ==
            InOrder(Join(onLeft, a, n, Join(onLeft, b, child, c)))
  {
    hide InOrder;
    InOrderJoin(onLeft, a, n, Join(onLeft, b, child, c));
    InOrderJoin(onLeft, b, child, c);
    InOrderJoin(onLeft, a, n, b);
    InOrderJoin(onLeft, Join(onLeft, a, n, b), child, c);
  }

  lemma JoinSwap(onLeft: bool, t: Tree, n: Node, u: Tree)
    ensures Join(onLeft, t, n, u) == Join(!onLeft, u, n, t)
    ensures Root(Join(onLeft, t, n, u)) == n
  {
  }

  lemma DistinctJoin(onLeft: bool, t: Tree, n: Node, u: Tree)
    ensures Nodes(Join(onLeft, t, n, u)) == Nodes(t) + {n} + Nodes(u)
    ensures Distinct(Join(onLeft, t, n, u)) <==>
            n !in Nodes(t) && n !in Nodes(u) && Nodes(t) !! Nodes(u) && Distinct(t) && Distinct(u)
  {
  }

  lemma InOrderJoin(onLeft: bool, t: Tree, n: Node, u: Tree)
    ensures InOrder(Join(onLeft, t, n, u)) ==
            if onLeft then InOrder(t) + [n] + InOrder(u) else InOrder(u) + [n] + InOrder(t)
  {
  }

  // Going down one step moves a node and a subtree from the tree to the path.
  lemma ApartDown(p: Path, n: Node, onLeft: bool, t: Tree, sibling: Tree)
    requires Apart(p, Join(onLeft, t, n, sibling))
    ensures Apart(Down(p, n, onLeft, sibling), t)
    ensures PathNodes(Down(p, n, onLeft, sibling)) + Nodes(t) == PathNodes(p) + Nodes(Join(onLeft, t, n, sibling))
  {
    DistinctJoin(onLeft, t, n, sibling);
  }

  // Rotating a grandchild up keeps the nodes and their order.
  lemma RotateInnerKeeps(onLeft: bool, a: Tree, n: Node, b: Tree, grand: Node, c: Tree, child: Node, d: Tree)
    requires Distinct(Join(onLeft, a, n, Join(onLeft, Join(onLeft, b, grand, c), child, d)))
    ensures var t := Join(onLeft, a, n, Join(onLeft, Join(onLeft, b, grand, c), child, d));
            var u := Join(onLeft, a, n, Join(onLeft, b, grand, Join(onLeft, c, child, d)));
            Nodes(u) == Nodes(t) && InOrder(u) == InOrder(t) && Distinct(u)
  {
    var inner := Join(onLeft, Join(onLeft, b, grand, c), child, d);
    var inner' := Join(onLeft, b, grand, Join(onLeft, c, child, d));
    JoinSwap(onLeft, Join(onLeft, b, grand, c), child, d);
    JoinSwap(onLeft, b, grand, c);
    JoinSwap(onLeft, c, child, d);
    JoinSwap(onLeft, b, grand, Join(onLeft, c, child, d));
    hide Join, Nodes, Distinct, InOrder;
    DistinctJoin(onLeft, a, n, inner);
    RotateKeeps(!onLeft, d, child, c, grand, b);
    DistinctJoin(onLeft, a, n, inner');
    InOrderJoin(onLeft, a, n, inner);
    InOrderJoin(onLeft, a, n, inner');
  }

  // The balance of `Join(onLeft, t, n, u)`, read off the heights.
  ghost function Lean(onLeft: bool, t: Tree, u: Tree): int {
    if onLeft then Height(u) - Height(t) else Height(t) - Height(u)
  }

  lemma LeanIs(onLeft: bool, t: Tree, u: Tree)
    ensures Lean(onLeft, t, u) == if onLeft then Height(u) - Height(t) else Height(t) - Height(u)
  {
  }

  lemma BalancesJoin(onLeft: bool, t: Tree, n: Node, u: Tree)
    ensures Balances(Join(onLeft, t, n, u)) <==>
            n.balance == Lean(onLeft, t, u) && -1 <= n.balance <= 1 && Balances(t) && Balances(u)
    ensures Height(Join(onLeft, t, n, u)) == 1 + Max(Height(t), Height(u))
  {
  }

  // What being distinct means for the pieces that a double rotation moves.
  lemma DoubleRotateParts(onLeft: bool, a: Tree, n: Node, b: Tree, grand: Node, c: Tree, child: Node, d: Tree)
    requires Distinct(Join(onLeft, a, n, Join(onLeft, Join(onLeft, b, grand, c), child, d)))
    ensures n != child && n != grand && child != grand
    ensures {n, child, grand} !! Nodes(a) && {n, child, grand} !! Nodes(b)
    ensures {n, child, grand} !! Nodes(c) && {n, child, grand} !! Nodes(d)
    ensures Root(a) != child
  {
    Ends(Top, a);
    hide Join, Nodes, Distinct;
    DistinctJoin(onLeft, a, n, Join(onLeft, Join(onLeft, b, grand, c), child, d));
    DistinctJoin(onLeft, Join(onLeft, b, grand, c), child, d);
    DistinctJoin(onLeft, b, grand, c);
  }

  lemma DoubleRotateTrees(onLeft: bool, a: Tree, n: Node, b: Tree, grand: Node, c: Tree, child: Node, d: Tree)
    requires Distinct(Join(onLeft, a, n, Join(onLeft, Join(onLeft, b, grand, c), child, d)))
    ensures Nodes(a) !! Nodes(b) && Nodes(a) !! Nodes(c) && Nodes(a) !! Nodes(d)
    ensures Nodes(b) !! Nodes(c) && Nodes(b) !! Nodes(d) && Nodes(c) !! Nodes(d)
  {
    hide Join, Nodes, Distinct;
    DistinctJoin(onLeft, a, n, Join(onLeft, Join(onLeft, b, grand, c), child, d));
    DistinctJoin(onLeft, Join(onLeft, b, grand, c), child, d);
    DistinctJoin(onLeft, b, grand, c);
  }

  lemma DoubleRotateNodes(onLeft: bool, a: Tree, n: Node, b: Tree, grand: Node, c: Tree, child: Node, d: Tree)
    ensures Nodes(Join(onLeft, a, n, Join(onLeft, Join(onLeft, b, grand, c), child, d))) ==
            Nodes(a) + Nodes(b) + Nodes(c) + Nodes(d) + {n, child, grand}
  {
    hide Join, Nodes, Distinct;
    DistinctJoin(onLeft, a, n, Join(onLeft, Join(onLeft, b, grand, c), child, d));
    DistinctJoin(onLeft, Join(onLeft, b, grand, c), child, d);
    DistinctJoin(onLeft, b, grand, c);
  }

  // The balances that a double rotation leaves, from the balance of the node it lifts.
  lemma DoubleLean(onLeft: bool, a: Tree, b: Tree, c: Tree, d: Tree, nBal: int, g: int)
    requires nBal == (if onLeft then 1 else -1) && Height(d) == Height(a)
    requires g == Lean(onLeft, b, c) && -1 <= g <= 1 && 1 + Max(Height(b), Height(c)) == Height(a) + 1
    ensures Lean(onLeft, a, b) == if g == nBal then -nBal else 0
    ensures Lean(onLeft, c, d) == if g in {0, nBal} then 0 else nBal
    ensures Max(Height(a), Height(b)) == Height(a) == Max(Height(c), Height(d))
  {
  }

  lemma RootsDiffer(onLeft: bool, p: Path, a: Tree, n: Node, b: Tree, child: Node, c: Tree)
    requires Apart(p, Join(onLeft, a, n, Join(onLeft, b, child, c)))
    ensures Root(a) != child && Root(a) != n
    ensures Root(b) != child && Root(b) != n && Root(c) != child && Root(c) != n
  {
    RotateParts(onLeft, a, n, b, child, c);
    Ends(p, a);
    Ends(p, b);
    Ends(p, c);
  }

  lemma Unjoin(onLeft: bool, t: Tree) returns (x: Tree, y: Tree)
    requires t.Bin?
    ensures t == Join(onLeft, x, t.node, y)
  {
    x, y := if onLeft then t.left else t.right, if onLeft then t.right else t.left;
  }

  lemma Rejoin(t: Tree, onLeft: bool)
    requires t.Bin?
    ensures t == Join(onLeft, if onLeft then t.left else t.right, t.node, if onLeft then t.right else t.left)
  {
  }

  lemma HeightRoot(t: Tree)
    ensures Height(t) == 0 <==> t.Nil?
    ensures Root(t) == if t.Bin? then t.node else null
  {
  }

  // Going up one step moves a node and a subtree from the path to the tree.
  lemma ApartUp(p: Path, n: Node, onLeft: bool, t: Tree, sibling: Tree)
    requires Apart(Down(p, n, onLeft, sibling), t)
    ensures Apart(p, Join(onLeft, t, n, sibling))
    ensures PathNodes(Down(p, n, onLeft, sibling)) + Nodes(t) == PathNodes(p) + Nodes(Join(onLeft, t, n, sibling))
    ensures n !in Nodes(t) && n !in Nodes(sibling) && n !in PathNodes(p)
    ensures Root(sibling) != null ==> Root(sibling) != Root(t)
    ensures PathNodes(p) <= PathNodes(Down(p, n, onLeft, sibling))
  {
    DistinctJoin(onLeft, t, n, sibling);
    Ends(p, t);
    Ends(p, sibling);
  }

  // The in-order nodes of the whole, with `t` in the hole of `p`.
  ghost function Whole(p: Path, t: Tree): seq<Node> {
    Before(p) + InOrder(t) + After(p)
  }

  lemma WholeSame(p: Path, t: Tree, u: Tree)
    requires InOrder(t) == InOrder(u)
    ensures Whole(p, t) == Whole(p, u)
  {
  }

  lemma WholeUp(p: Path, n: Node, onLeft: bool, t: Tree, sibling: Tree)
    ensures Whole(Down(p, n, onLeft, sibling), t) == Whole(p, Join(onLeft, t, n, sibling))
  {
  }

  lemma PathBalancesDown(p: Path, n: Node, onLeft: bool, sibling: Tree, h: nat)
    ensures PathBalances(Down(p, n, onLeft, sibling), h) <==>
            && n.balance == (if onLeft then Height(sibling) - h else h - Height(sibling)) && -1 <= n.balance <= 1
            && Balances(sibling) && PathBalances(p, 1 + Max(h, Height(sibling)))
  {
  }

  lemma Leaf(n: Node)
    ensures var t := Bin(Nil, n, Nil);
            && Nodes(t) == {n} && Distinct(t) && InOrder(t) == [n] && Height(t) == 1
            && (Balances(t) <==> n.balance == 0)
    ensures forall parent: Node? ::
              Links(Bin(Nil, n, Nil), parent) <==> n.left == null && n.right == null && n.parent == parent
  {
  }

  lemma AtTop(head: Node?, hole: Node?, h: nat)
    ensures PathNodes(Top) == {} && Before(Top) == [] && After(Top) == [] && PathBalances(Top, h) && PathDistinct(Top)
    ensures PathLinks(Top, hole, head) <==> head == hole
  {
  }

  // ----- order ---------------------------------------------------------------

  ghost predicate Below(s: seq<Node>, k: int) {
    forall i :: 0 <= i < |s| ==> s[i].key < k
  }

  ghost predicate Above(s: seq<Node>, k: int) {
    forall i :: 0 <= i < |s| ==> k < s[i].key
  }

  lemma {:induction false} NodeInOrder(t: Tree, n: Node)
    ensures n in Nodes(t) <==> n in InOrder(t)
  {
    if t.Bin? {
      NodeInOrder(t.left, n);
      NodeInOrder(t.right, n);
    }
  }

  lemma SortedConcat(a: seq<Node>, n: Node, b: seq<Node>)
    ensures Sorted(a + [n] + b) <==> Sorted(a) && Sorted(b) && Below(a, n.key) && Above(b, n.key)
  {
    var s := a + [n] + b;
    if Sorted(s) {
      assert forall i :: 0 <= i < |a| ==> a[i] == s[i];
      assert s[|a|] == n;
      assert forall i :: 0 <= i < |b| ==> b[i] == s[|a| + 1 + i];
    }
    if Sorted(a) && Sorted(b) && Below(a, n.key) && Above(b, n.key) {
      forall i, j | 0 <= i < j < |s|
        ensures s[i].key < s[j].key
      {
        if j < |a| {
          assert a[i].key < a[j].key;
        } else if i > |a| {
          assert b[i - |a| - 1].key < b[j - |a| - 1].key;
        }
      }
    }
  }

  lemma SortedTree(t: Tree)
    requires Sorted(InOrder(t)) && t.Bin?
    ensures Sorted(InOrder(t.left)) && Sorted(InOrder(t.right))
    ensures Below(InOrder(t.left), t.node.key) && Above(InOrder(t.right), t.node.key)
    ensures forall n :: n in Nodes(t.left) ==> n.key < t.node.key
    ensures forall n :: n in Nodes(t.right) ==> t.node.key < n.key
  {
    assert InOrder(t) == InOrder(t.left) + [t.node] + InOrder(t.right);
    hide Sorted, InOrder, Nodes;
    SortedConcat(InOrder(t.left), t.node, InOrder(t.right));
    forall n | n in Nodes(t.left)
      ensures n.key < t.node.key
    {
      NodeInOrder(t.left, n);
    }
    forall n | n in Nodes(t.right)
      ensures t.node.key < n.key
    {
      NodeInOrder(t.right, n);
    }
  }

  // No two nodes share a key.
  ghost predicate Keyed(s: set<Node>) {
    forall m, n :: m in s && n in s && m.key == n.key ==> m == n
  }

  lemma OneNodePerKey(t: Tree)
    requires Sorted(InOrder(t))
    ensures Keyed(Nodes(t))
  {
    var s := InOrder(t);
    forall m, n | m in Nodes(t) && n in Nodes(t) && m.key == n.key
      ensures m == n
    {
      NodeInOrder(t, m);
      NodeInOrder(t, n);
      var i :| 0 <= i < |s| && s[i] == m;
      var j :| 0 <= j < |s| && s[j] == n;
      assert i == j;
    }
  }

  // Inserting between the smaller and the larger keys.
  lemma SortedInsert(a: seq<Node>, n: Node, b: seq<Node>)
    requires Sorted(a + b) && Below(a, n.key) && Above(b, n.key)
    ensures Sorted(a + [n] + b)
  {
    var s := a + b;
    assert forall i :: 0 <= i < |a| ==> a[i] == s[i];
    assert forall i :: 0 <= i < |b| ==> b[i] == s[|a| + i];
    SortedConcat(a, n, b);
  }

  lemma SortedRemove(a: seq<Node>, n: Node, b: seq<Node>)
    requires Sorted(a + [n] + b)
    ensures Sorted(a + b)
  {
    SortedConcat(a, n, b);
    var s := a + b;
    forall i, j | 0 <= i < j < |s|
      ensures s[i].key < s[j].key
    {
      if i < |a| <= j {
        assert a[i].key < n.key < b[j - |a|].key;
      }
    }
  }

  // A key between the two halves of the order belongs to no node.
  lemma Absent(a: seq<Node>, b: seq<Node>, k: int)
    requires Below(a, k) && Above(b, k)
    ensures forall n :: n in a + b ==> n.key != k
  {
  }

  // Going down one step towards `k` keeps the halves apart.
  lemma StepOrder(p: Path, t: Tree, left: bool, k: int)
    requires Below(Before(p), k) && Above(After(p), k) && t.Bin?
    requires Sorted(Whole(p, t))
    requires if left then k < t.node.key else t.node.key < k
    ensures var q := Down(p, t.node, left, if left then t.right else t.left);
            Below(Before(q), k) && Above(After(q), k)
  {
    var l, n, r := InOrder(t.left), t.node, InOrder(t.right);
    assert Whole(p, t) == (Before(p) + l) + [n] + (r + After(p));
    assert left ==> After(Down(p, n, true, t.right)) == [n] + (r + After(p));
    assert !left ==> Before(Down(p, n, false, t.left)) == (Before(p) + l) + [n];
    hide Sorted, Whole, InOrder;
    SortedConcat(Before(p) + l, n, r + After(p));
    BelowNext(Before(p) + l, n, k);
    AboveNext(n, r + After(p), k);
  }

  lemma BelowNext(a: seq<Node>, n: Node, k: int)
    requires Below(a, n.key)
    ensures n.key < k ==> Below(a + [n], k)
  {
  }

  lemma AboveNext(n: Node, b: seq<Node>, k: int)
    requires Above(b, n.key)
    ensures k < n.key ==> Above([n] + b, k)
  {
  }

  // ----- the nodes as a map --------------------------------------------------

  ghost function MapOf(s: set<Node>): map<int, object?>
    requires Keyed(s)
    reads s
  {
    map n | n in s :: n.key := n.value
  }

  // The values of `s` are those that `m` has, and nothing else is in `m`.
  lemma MapIs(s: set<Node>, m: map<int, object?>)
    requires Keyed(s)
    requires forall n :: n in s ==> n.key in m && m[n.key] == n.value
    requires forall k :: k in m ==> exists n :: n in s && n.key == k
    ensures MapOf(s) == m
  {
    var u := MapOf(s);
    forall k | k in u
      ensures k in m && u[k] == m[k]
    {
      var n :| n in s && n.key == k;
    }
    forall k | k in m
      ensures k in u
    {
      var n :| n in s && n.key == k;
    }
    assert u.Keys == m.Keys;
  }

  twostate lemma MapInsert(s: set<Node>, new n: Node)
    requires n !in s && Keyed(s) && Keyed(s + {n})
    requires forall m :: m in s ==> m.value == old(m.value)
    ensures MapOf(s + {n}) == old(MapOf(s))[n.key := n.value]
  {
    var was := old(MapOf(s));
    var now := was[n.key := n.value];
    forall m | m in s
      ensures m.key in was && was[m.key] == m.value && m.key != n.key
    {
      assert was[m.key] == old(m.value);
      assert m in s + {n} && n in s + {n};
    }
    forall k | k in now
      ensures exists m :: m in s + {n} && m.key == k
    {
      if k != n.key {
        var m :| m in s && m.key == k;
        assert m in s + {n};
      } else {
        assert n in s + {n};
      }
    }
    MapIs(s + {n}, now);
  }

  twostate lemma MapSet(s: set<Node>, new n: Node)
    requires n in s && Keyed(s)
    requires forall m :: m in s && m != n ==> m.value == old(m.value)
    ensures MapOf(s) == old(MapOf(s))[n.key := n.value]
  {
    var was := old(MapOf(s));
    forall m | m in s
      ensures m.key in was && was[m.key] == old(m.value)
    {
    }
    MapIs(s, was[n.key := n.value]);
  }

  twostate lemma MapRemove(s: set<Node>, new n: Node)
    requires n in s && Keyed(s)
    requires forall m :: m in s - {n} ==> m.value == old(m.value)
    ensures Keyed(s - {n}) && MapOf(s - {n}) == old(MapOf(s)) - {n.key}
  {
    var was := old(MapOf(s));
    var now := was - {n.key};
    forall m | m in s - {n}
      ensures m.key in now && now[m.key] == m.value
    {
      assert was[m.key] == old(m.value);
    }
    forall k | k in now
      ensures exists m :: m in s - {n} && m.key == k
    {
      var m :| m in s && m.key == k;
      assert m in s - {n};
    }
    MapIs(s - {n}, now);
  }

  // ----- the way to the heir -------------------------------------------------

  // `q`, which ends at the hole of `b`, followed by `b`.
  ghost function Append(q: Path, b: Path): Path {
    if q.Top? then b else Down(Append(q.up, b), q.node, q.wentLeft, q.sibling)
  }

  ghost predicate AllLeft(q: Path) {
    q.Down? ==> q.wentLeft && AllLeft(q.up)
  }

  ghost function Uppermost(q: Path): Node
    requires q.Down?
  {
    if q.up.Top? then q.node else Uppermost(q.up)
  }

  lemma {:induction false} UppermostIn(q: Path)
    requires q.Down?
    ensures Uppermost(q) in PathNodes(q) && (q.up.Down? ==> Uppermost(q) in PathNodes(q.up))
    ensures PathDistinct(q) ==> Uppermost(q) !in Nodes(q.sibling)
  {
    if q.up.Down? {
      UppermostIn(q.up);
    }
  }

  // The links along a path to the left, except for the two at its ends.
  ghost predicate LeftSpine(q: Path)
    requires PathDistinct(q)
    reads PathNodes(q)`left, PathNodes(q)`right
    reads (PathNodes(q) - (if q.Down? then {Uppermost(q)} else {}))`parent
  {
    if q.Top? then
      true
    else
      UppermostIn(q);
      && q.node.right == Root(q.sibling) && Links(q.sibling, q.node)
      && (q.up.Down? ==> q.node.parent == q.up.node && q.up.node.left == q.node)
      && LeftSpine(q.up)
  }

  lemma {:induction false} AppendLinks(q: Path, b: Path, hole: Node?, head: Node?)
    requires q.Down? && AllLeft(q) && PathDistinct(q)
    ensures PathLinks(Append(q, b), hole, head) <==>
            && LeftSpine(q) && q.node.left == hole
            && Uppermost(q).parent == Parent(b) && PathLinks(b, Uppermost(q), head)
  {
    PathLinksDown(Append(q.up, b), q.node, true, q.sibling, hole, head);
    if q.up.Down? {
      assert Parent(Append(q.up, b)) == q.up.node;
      AppendLinks(q.up, b, q.node, head);
      assert LeftSpine(q) <==> q.node.right == Root(q.sibling) && Links(q.sibling, q.node)
                               && q.node.parent == q.up.node && q.up.node.left == q.node && LeftSpine(q.up);
    } else {
      assert Append(q.up, b) == b && LeftSpine(q.up);
    }
  }

  lemma {:induction false} AppendNodes(q: Path, b: Path)
    ensures PathNodes(Append(q, b)) == PathNodes(q) + PathNodes(b)
  {
    if q.Down? {
      AppendNodes(q.up, b);
    }
  }

  lemma {:induction false} AppendDistinct(q: Path, b: Path)
    ensures PathDistinct(Append(q, b)) <==> PathDistinct(q) && PathDistinct(b) && PathNodes(q) !! PathNodes(b)
  {
    if q.Down? {
      AppendDistinct(q.up, b);
      AppendNodes(q.up, b);
    }
  }

  ghost function HeightAbove(q: Path, h: nat): nat {
    if q.Top? then h else HeightAbove(q.up, 1 + Max(h, Height(q.sibling)))
  }

  lemma {:induction false} AppendBalances(q: Path, b: Path, h: nat)
    ensures PathBalances(Append(q, b), h) <==> PathBalances(q, h) && PathBalances(b, HeightAbove(q, h))
  {
    if q.Down? {
      AppendBalances(q.up, b, 1 + Max(h, Height(q.sibling)));
    }
  }

  lemma {:induction false} AppendOrder(q: Path, b: Path)
    requires AllLeft(q)
    ensures Before(Append(q, b)) == Before(b) && After(Append(q, b)) == After(q) + After(b)
  {
    if q.Down? {
      AppendOrder(q.up, b);
    }
  }

  lemma SubtreesIn(t: Tree)
    requires t.Bin?
    ensures Nodes(t.left) <= Nodes(t) && Nodes(t.right) <= Nodes(t) && t.node in Nodes(t)
    ensures Distinct(t) ==> t.node !in Nodes(t.left) && t.node !in Nodes(t.right) && Distinct(t.left)
                            && Distinct(t.right)
  {
  }

  lemma SpineStep(q: Path)
    requires q.Down? && PathDistinct(q)
    ensures q.up.Down? ==> q.up.node in PathNodes(q.up) && Uppermost(q) == Uppermost(q.up)
    ensures PathDistinct(q.up)
    ensures LeftSpine(q) <==>
            && q.node.right == Root(q.sibling) && Links(q.sibling, q.node)
            && (q.up.Down? ==> q.node.parent == q.up.node && q.up.node.left == q.node)
            && LeftSpine(q.up)
    ensures q.node in PathNodes(q) && PathNodes(q.up) <= PathNodes(q) && Nodes(q.sibling) <= PathNodes(q)
    ensures q.node !in PathNodes(q.up) && q.node !in Nodes(q.sibling)
  {
  }

  // Removing a node whose right child is the heir: what is apart, before and after.
  lemma NearParts(p: Path, l: Tree, n: Node, heir: Node, hr: Tree)
    requires Apart(p, Bin(l, n, Bin(Nil, heir, hr)))
    ensures Apart(p, Bin(l, heir, hr)) && Apart(Down(p, heir, false, l), hr) && Distinct(l)
    ensures var t, q := Bin(l, n, Bin(Nil, heir, hr)), Down(p, heir, false, l);
            PathNodes(q) + Nodes(hr) == PathNodes(p) + Nodes(t) - {n}
    ensures n != heir && {n, heir} !! Nodes(l) && {n, heir} !! Nodes(hr) && {n, heir} !! PathNodes(p)
  {
    NilTree(null);
    hide Nodes, Distinct, PathNodes, PathDistinct;
    DistinctJoin(true, l, n, Bin(Nil, heir, hr));
    DistinctJoin(true, Nil, heir, hr);
    DistinctJoin(true, l, heir, hr);
    ExtendPath(p, heir, false, l);
  }

  lemma NearNodes(p: Path, l: Tree, n: Node, heir: Node, hr: Tree)
    requires Apart(p, Bin(l, n, Bin(Nil, heir, hr)))
    ensures Nodes(l) !! Nodes(hr) && PathNodes(p) !! Nodes(l) && PathNodes(p) !! Nodes(hr)
    ensures Nodes(Bin(l, n, Bin(Nil, heir, hr))) == Nodes(l) + Nodes(hr) + {n, heir}
    ensures Root(hr) != null ==> Root(hr) in Nodes(hr)
    ensures Root(l) != null ==> Root(l) in Nodes(l)
    ensures Parent(p) != null ==> Parent(p) in PathNodes(p)
  {
    Ends(p, hr);
    Ends(p, l);
    NilTree(null);
    hide Nodes, Distinct, PathNodes, PathDistinct;
    DistinctJoin(true, l, n, Bin(Nil, heir, hr));
    DistinctJoin(true, Nil, heir, hr);
  }

  // Removing a node whose heir is further down: what is apart.
  lemma FarParts(p: Path, l: Tree, n: Node, q: Path, heir: Node, hr: Tree)
    requires Apart(Append(q, Down(p, n, false, l)), Bin(Nil, heir, hr))
    ensures PathDistinct(p) && PathDistinct(q) && Distinct(l) && Distinct(hr)
    ensures PathNodes(p) !! PathNodes(q) && PathNodes(p) !! Nodes(l) && PathNodes(p) !! Nodes(hr)
    ensures PathNodes(q) !! Nodes(l) && PathNodes(q) !! Nodes(hr) && Nodes(l) !! Nodes(hr)
  {
    hide Nodes, Distinct, PathNodes, PathDistinct;
    FarNodes(p, l, n, q, heir, hr);
    FarDistinct(p, l, n, q, heir, hr);
  }

  lemma FarDistinct(p: Path, l: Tree, n: Node, q: Path, heir: Node, hr: Tree)
    requires Apart(Append(q, Down(p, n, false, l)), Bin(Nil, heir, hr))
    ensures PathDistinct(p) && PathDistinct(q) && Distinct(l) && Distinct(hr)
    ensures PathNodes(p) !! Nodes(l) && PathNodes(q) !! PathNodes(Down(p, n, false, l))
    ensures n !in PathNodes(p) && n !in Nodes(l)
  {
    hide Nodes, PathNodes;
    AppendDistinct(q, Down(p, n, false, l));
  }

  lemma FarNodes(p: Path, l: Tree, n: Node, q: Path, heir: Node, hr: Tree)
    requires Apart(Append(q, Down(p, n, false, l)), Bin(Nil, heir, hr))
    ensures n != heir && {n, heir} !! PathNodes(p) && {n, heir} !! PathNodes(q)
    ensures {n, heir} !! Nodes(l) && {n, heir} !! Nodes(hr)
    ensures PathNodes(Append(q, Down(p, n, false, l))) == PathNodes(q) + PathNodes(p) + {n} + Nodes(l)
    ensures Nodes(Bin(Nil, heir, hr)) == {heir} + Nodes(hr)
    ensures PathNodes(Down(p, n, false, l)) == PathNodes(p) + {n} + Nodes(l)
  {
    assert PathNodes(Down(p, n, false, l)) == PathNodes(p) + {n} + Nodes(l);
    hide Distinct, PathNodes, PathDistinct;
    FarDistinct(p, l, n, q, heir, hr);
    DistinctJoin(true, Nil, heir, hr);
    AppendNodes(q, Down(p, n, false, l));
  }

  lemma FarPath(p: Path, l: Tree, q: Path, heir: Node, hr: Tree)
    requires PathDistinct(p) && PathDistinct(q) && Distinct(l) && Distinct(hr)
    requires PathNodes(p) !! PathNodes(q) && PathNodes(p) !! Nodes(l) && PathNodes(p) !! Nodes(hr)
    requires PathNodes(q) !! Nodes(l) && PathNodes(q) !! Nodes(hr) && Nodes(l) !! Nodes(hr)
    requires heir !in PathNodes(p) && heir !in PathNodes(q) && heir !in Nodes(l) && heir !in Nodes(hr)
    ensures Apart(Append(q, Down(p, heir, false, l)), hr)
    ensures PathNodes(Append(q, Down(p, heir, false, l))) == PathNodes(q) + PathNodes(p) + {heir} + Nodes(l)
  {
    hide Nodes, Distinct, PathNodes, PathDistinct;
    ExtendPath(p, heir, false, l);
    AppendDistinct(q, Down(p, heir, false, l));
    AppendNodes(q, Down(p, heir, false, l));
  }

  lemma WholeDown(p: Path, heir: Node, l: Tree, hr: Tree)
    ensures Whole(Down(p, heir, false, l), hr) == Before(p) + InOrder(l) + [heir] + InOrder(hr) + After(p)
  {
  }

  lemma AppendTop(b: Path)
    ensures Append(Top, b) == b
  {
  }

  lemma AppendDown(q: Path, b: Path, n: Node, sibling: Tree)
    ensures Append(Down(q, n, true, sibling), b) == Down(Append(q, b), n, true, sibling)
  {
  }

  lemma AppendEnds(q: Path, b: Path)
    requires q.Down?
    ensures Append(q, b).Down? && Append(q, b).node == q.node && Append(q, b).wentLeft == q.wentLeft
    ensures AllLeft(q) ==> q.wentLeft
  {
  }

  lemma FarWhole(p: Path, l: Tree, q: Path, heir: Node, hr: Tree)
    requires AllLeft(q)
    ensures Whole(Append(q, Down(p, heir, false, l)), hr) ==
            Before(p) + InOrder(l) + [heir] + InOrder(hr) + After(q) + After(p)
  {
    assert Before(Down(p, heir, false, l)) == Before(p) + InOrder(l) + [heir];
    assert After(Down(p, heir, false, l)) == After(p);
    hide Before, After, InOrder, Append;
    AppendOrder(q, Down(p, heir, false, l));
    Group(Before(p) + InOrder(l) + [heir], InOrder(hr), After(q), After(p));
  }

  lemma Group(a: seq<Node>, b: seq<Node>, c: seq<Node>, d: seq<Node>)
    ensures a + b + (c + d) == a + b + c + d
  {
  }

  // In a sorted whole, keys tell on which side of its parent a node hangs.
  lemma KeySide(p: Path, t: Tree)
    requires Sorted(Whole(p, t)) && t.Bin? && p.Down?
    ensures t.node.key < p.node.key <==> p.wentLeft
  {
    var l, n, r := InOrder(t.left), t.node, InOrder(t.right);
    var b, a := Before(p) + l, r + After(p);
    assert Whole(p, t) == b + [n] + a;
    if p.wentLeft {
      assert a[|r|] == p.node;
    } else {
      assert b[|Before(p)| - 1] == p.node;
    }
    hide Sorted;
    SortedConcat(b, n, a);
  }

  lemma Regroup(a: seq<Node>, b: seq<Node>, m: seq<Node>, c: seq<Node>, d: seq<Node>)
    ensures a + (b + m + c) + d == (a + b) + m + (c + d)
    ensures a + b + c + d == (a + b) + (c + d)
  {
  }

  lemma WholeBin(p: Path, l: Tree, n: Node, r: Tree)
    ensures Whole(p, Bin(l, n, r)) == (Before(p) + InOrder(l)) + [n] + (InOrder(r) + After(p))
  {
    var a, b, c, d := Before(p), InOrder(l), InOrder(r), After(p);
    assert InOrder(Bin(l, n, r)) == b + [n] + c;
    hide InOrder, Before, After;
    Regroup(a, b, [n], c, d);
  }

  // One step to the left, seen in the order.
  lemma LeftOrder(q: Path, u: Tree)
    requires u.Bin?
    ensures InOrder(u.left) + After(Down(q, u.node, true, u.right)) == InOrder(u) + After(q)
  {
  }

  // ----- positions in the order ----------------------------------------------

  ghost function Depth(p: Path): nat {
    if p.Top? then 0 else 1 + Depth(p.up)
  }

  // A node has one place in a sorted order.
  lemma OnePlace(s: seq<Node>, k: nat, a: seq<Node>, n: Node, b: seq<Node>)
    requires Sorted(s) && k < |s| && s[k] == n && s == a + [n] + b
    ensures k == |a| && s[..k] == a && s[k..] == [n] + b && s[k + 1..] == b
  {
    assert s[|a|] == n;
    assert k == |a|;
  }

  // Where the walk continues, seen in the order that is still to come.
  lemma AfterLeft(p: Path, t: Tree)
    requires t.Bin?
    ensures InOrder(t) + After(p) == InOrder(t.left) + After(Down(p, t.node, true, t.right))
    ensures InOrder(t.right) + After(p) == InOrder(t.right) + After(Down(p, t.node, false, t.left))
    ensures After(Down(p, t.node, true, t.right)) == [t.node] + (InOrder(t.right) + After(p))
  {
  }

  lemma AfterUp(p: Path, t: Tree)
    requires p.Down?
    ensures var u := Join(p.wentLeft, t, p.node, p.sibling);
            && u.node == p.node
            && After(p) == (if p.wentLeft then [p.node] + (InOrder(u.right) + After(p.up)) else After(p.up))
  {
  }

  lemma SplitAt(s: seq<Node>, a: seq<Node>, n: Node, b: seq<Node>)
    requires s == a + [n] + b
    ensures |a| < |s| && s[|a|] == n && s[|a|..] == [n] + b && s[|a| + 1..] == b && s[..|a|] == a
  {
  }

  lemma HeightBelow(t: Tree)
    requires t.Bin?
    ensures Height(t.left) < Height(t) && Height(t.right) < Height(t)
  {
  }

  // The order from `b` on, when a node before it is gone.
  lemma LaterNode(a: seq<Node>, b: seq<Node>, t: Tree)
    requires InOrder(t) == a + b
    ensures InOrder(t)[|a|..] == b
    ensures b != [] ==> InOrder(t)[|a|] == b[0] && b[0] in Nodes(t)
  {
    if b != [] {
      assert (a + b)[|a|] == b[0];
      assert b[0] in a + b;
      NodeInOrder(t, b[0]);
    }
  }

  lemma NilTree(parent: Node?)
    ensures Nodes(Nil) == {} && Distinct(Nil) && InOrder(Nil) == [] && Height(Nil) == 0 && Root(Nil) == null
    ensures Links(Nil, parent) && Balances(Nil)
    ensures forall t :: Root(t) == null ==> t == Nil
  {
  }

  // ----- height and size -----------------------------------------------------

  ghost function Fib(n: nat): nat {
    if n < 2 then n else Fib(n - 2) + Fib(n - 1)
  }

  ghost function Pow2(n: nat): nat {
    if n == 0 then 1 else 2 * Pow2(n - 1)
  }

  lemma {:induction false} FibMonotone(m: nat, n: nat)
    requires m <= n
    ensures Fib(m) <= Fib(n)
    decreases n - m
  {
    if m < n {
      FibMonotone(m + 1, n);
    }
  }

  lemma {:induction false} FibGrows(n: nat)
    ensures Pow2(n) <= Fib(2 * n + 2)
  {
    if n > 0 {
      FibGrows(n - 1);
      FibMonotone(2 * n, 2 * n + 1);
    }
  }

  // Two subtrees whose heights are at most one apart.
  lemma TwoFibs(a: nat, b: nat, m: nat, n: nat)
    requires -1 <= a - b <= 1 && m + 1 >= Fib(a + 2) && n + 1 >= Fib(b + 2)
    ensures m + 1 + n + 1 >= Fib(1 + Max(a, b) + 2)
  {
    var h := 1 + Max(a, b);
    assert Fib(h + 2) == Fib(h) + Fib(h + 1);
    hide Fib;
    FibMonotone(h, a + 2);
    FibMonotone(h, b + 2);
  }

  // A balanced tree of height h has at least Fib(h + 2) - 1 nodes.
  lemma {:induction false} EnoughNodes(t: Tree)
    requires Balances(t)
    ensures |InOrder(t)| + 1 >= Fib(Height(t) + 2)
  {
    if t.Bin? {
      hide Fib;
      EnoughNodes(t.left);
      EnoughNodes(t.right);
      TwoFibs(Height(t.left), Height(t.right), |InOrder(t.left)|, |InOrder(t.right)|);
    }
  }

  lemma {:induction false} NodesCount(t: Tree)
    requires Distinct(t)
    ensures |Nodes(t)| == |InOrder(t)|
  {
    if t.Bin? {
      NodesCount(t.left);
      NodesCount(t.right);
    }
  }

  lemma {:induction false} MapCount(s: set<Node>)
    requires Keyed(s)
    ensures |MapOf(s)| == |s|
  {
    if s != {} {
      var n :| n in s;
      MapCount(s - {n});
      assert MapOf(s).Keys == MapOf(s - {n}).Keys + {n.key};
    }
  }
}
