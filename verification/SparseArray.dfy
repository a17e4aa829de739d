module SparseArray {
  import opened SparseArrayTree

  class AbstractSparseArray {
    var head: Node?
    var size: nat
    ghost var tree: Tree
    ghost var repr: set<Node>

    // Moving links about leaves balances and values alone.
    twostate predicate DataKept()
      reads this, repr
    {
      repr == old(repr) && forall n :: n in repr ==> n.balance == old(n.balance) && n.value == old(n.value)
    }

    // Hang `b` where `a` hangs: at the hole of `p`.  When `b` is the root of a
    // linked tree `t`, it stays linked.
    method Replace(a: Node, b: Node?, ghost p: Path, ghost t: Tree, ghost was: Node?) returns (parent: Node?)
      requires a.parent == Parent(p) && PathLinks(p, a, head) && a !in PathNodes(p)
      requires PathDistinct(p) && b !in PathNodes(p)
      requires t.Bin? ==> b == t.node && Links(t, was) && Apart(p, t)
      modifies this`head, Opt(Parent(p)), Opt(b)
      ensures parent == Parent(p) && PathLinks(p, b, head)
      ensures Links(t, parent)
      ensures p.Down? ==> head == old(head)
      ensures b != null ==>
                && b.parent == parent && b.left == old(b.left) && b.right == old(b.right)
      ensures DataKept()
    {
      parent := a.parent;
      if parent == null {
        head := b;
      } else if parent.left == a {
        parent.left := b;
      } else {
        parent.right := b;
      }
      if b != null {
        b.parent := parent;
      }
    }

    // The first half of a rotation: `node` goes below its child.
    method PushDown(node: Node, onLeft: bool,
                    ghost p: Path, ghost a: Tree, ghost b: Tree, child: Node, ghost c: Tree)
      requires var t := Join(onLeft, a, node, Join(onLeft, b, child, c));
               Apart(p, t) && PathNodes(p) + Nodes(t) <= repr && Links(t, Parent(p)) && PathLinks(p, node, head)
      modifies this`head, {node, child}, Opt(Root(b))
      ensures head == old(head) && PathLinks(p, node, head)
      ensures Links(a, node) && Links(b, node) && Links(c, child)
      ensures node.left == Root(if onLeft then a else b) && node.right == Root(if onLeft then b else a)
      ensures child.left == (if onLeft then node else Root(c)) && child.right == (if onLeft then Root(c) else node)
      ensures DataKept()
    {
      hide Links, PathLinks, Distinct, PathDistinct, Nodes, PathNodes;
      RotateParts(onLeft, a, node, b, child, c);
      RotateApart(onLeft, p, a, node, b, child, c);
      Ends(p, b);
      ghost var q := Down(p, node, !onLeft, a);
      ExtendPath(p, node, !onLeft, a);
      LinksJoin(onLeft, a, node, Join(onLeft, b, child, c), Parent(p));
      LinksJoin(onLeft, b, child, c, node);
      PathLinksDown(p, node, !onLeft, a, child, head);
      var grand := if onLeft then child.left else child.right;
      var _ := Replace(child, grand, q, b, child);
      PathLinksDown(p, node, !onLeft, a, grand, head);
      assert Links(c, child);
      child.Adopt(node, onLeft);
    }

    // The second half: the child takes the place of `node`.
    method PullUp(node: Node, child: Node, parent: Node?, ghost p: Path, ghost a: Tree, ghost b: Tree, ghost c: Tree)
      requires PathLinks(p, node, head) && PathDistinct(p) && parent == Parent(p)
      requires PathNodes(p) + Nodes(a) + Nodes(b) + Nodes(c) + {node, child} <= repr
      requires PathNodes(p) !! Nodes(a) && PathNodes(p) !! Nodes(b) && PathNodes(p) !! Nodes(c)
      requires node !in PathNodes(p) && child !in PathNodes(p) && node != child
      requires node !in Nodes(a) && node !in Nodes(b) && node !in Nodes(c)
      requires child !in Nodes(a) && child !in Nodes(b) && child !in Nodes(c)
      requires Links(a, node) && Links(b, node) && Links(c, child)
      modifies this`head, {node, child}, Opt(parent)
      ensures PathLinks(p, child, head)
      ensures Links(a, node) && Links(b, node) && Links(c, child) && child.parent == parent && node.parent == child
      ensures node.left == old(node.left) && node.right == old(node.right)
      ensures child.left == old(child.left) && child.right == old(child.right)
      ensures DataKept()
    {
      hide Links, PathLinks, Distinct, PathDistinct, Nodes, PathNodes;
      Ends(p, b);
      node.parent := parent;
      var _ := Replace(node, child, p, Nil, null);
      node.parent := child;
    }

    method Rotate(node: Node, onLeft: bool,
                  ghost p: Path, ghost a: Tree, ghost b: Tree, ghost child: Node, ghost c: Tree)
      returns (r: Node)
      requires var t := Join(onLeft, a, node, Join(onLeft, b, child, c));
               Apart(p, t) && PathNodes(p) + Nodes(t) <= repr && Links(t, Parent(p)) && PathLinks(p, node, head)
      modifies this`head, {node, child}, Opt(Parent(p)), Opt(Root(b))
      ensures r == child
      ensures Links(Join(onLeft, Join(onLeft, a, node, b), child, c), Parent(p)) && PathLinks(p, child, head)
      ensures DataKept()
    {
      hide Links, PathLinks, Distinct, PathDistinct, Nodes, PathNodes;
      RotateParts(onLeft, a, node, b, child, c);
      RotateApart(onLeft, p, a, node, b, child, c);
      hide Links, PathLinks, Distinct, PathDistinct, Nodes, PathNodes;
      Ends(p, b);
      LinksJoin(onLeft, a, node, Join(onLeft, b, child, c), Parent(p));
      LinksJoin(onLeft, b, child, c, node);
      var parent := node.parent;
      var ch := if onLeft then node.right else node.left;
      PushDown(node, onLeft, p, a, b, ch, c);
      PullUp(node, ch, parent, p, a, b, c);
      LinksJoin(onLeft, a, node, b, ch);
      LinksJoin(onLeft, Join(onLeft, a, node, b), ch, c, Parent(p));
      return ch;
    }

    method DoubleRotate(node: Node, onLeft: bool, ghost p: Path, ghost a: Tree, ghost b: Tree, ghost grand: Node,
                        ghost c: Tree, ghost child: Node, ghost d: Tree)
      returns (r: Node)
      requires var t := Join(onLeft, a, node, Join(onLeft, Join(onLeft, b, grand, c), child, d));
               Apart(p, t) && PathNodes(p) + Nodes(t) <= repr && Links(t, Parent(p)) && PathLinks(p, node, head)
      modifies this`head, {node, child, grand}, Opt(Parent(p)), Opt(Root(b)), Opt(Root(c))
      ensures r == grand
      ensures Links(Join(onLeft, Join(onLeft, a, node, b), grand, Join(onLeft, c, child, d)), Parent(p))
      ensures PathLinks(p, grand, head)
      ensures DataKept()
    {
      ghost var inner := Join(onLeft, Join(onLeft, b, grand, c), child, d);
      ghost var inner' := Join(onLeft, b, grand, Join(onLeft, c, child, d));
      ghost var q := Down(p, node, !onLeft, a);
      JoinSwap(onLeft, a, node, inner);
      JoinSwap(onLeft, Join(onLeft, b, grand, c), child, d);
      JoinSwap(onLeft, b, grand, c);
      JoinSwap(onLeft, c, child, d);
      JoinSwap(onLeft, b, grand, Join(onLeft, c, child, d));
      hide Join, Links, PathLinks, Distinct, PathDistinct, Nodes, PathNodes;
      ApartDown(p, node, !onLeft, inner, a);
      LinksJoin(onLeft, a, node, inner, Parent(p));
      PathLinksDown(p, node, !onLeft, a, child, head);
      var _ := Rotate(if onLeft then node.right else node.left, !onLeft, q, d, c, grand, b);
      PathLinksDown(p, node, !onLeft, a, grand, head);
      LinksJoin(onLeft, a, node, inner', Parent(p));
      RotateInnerKeeps(onLeft, a, node, b, grand, c, child, d);
      r := Rotate(node, onLeft, p, a, b, grand, Join(onLeft, c, child, d));
    }

    // Give the two nodes of a single rotation their new balances and rotate.
    method RotateWith(node: Node, child: Node, onLeft: bool, nodeBalance: int, childBalance: int,
                      ghost p: Path, ghost a: Tree, ghost b: Tree, ghost c: Tree)
      returns (r: Node)
      requires var t := Join(onLeft, a, node, Join(onLeft, b, child, c));
               Apart(p, t) && PathNodes(p) + Nodes(t) <= repr && Links(t, Parent(p)) && PathLinks(p, node, head)
      requires Balances(a) && Balances(b) && Balances(c)
      requires nodeBalance == Lean(onLeft, a, b) && -1 <= nodeBalance <= 1
      requires childBalance == Lean(onLeft, Join(onLeft, a, node, b), c) && -1 <= childBalance <= 1
      modifies this`head, {node, child}, Opt(Parent(p)), Opt(Root(b))
      ensures r == child
      ensures var t := Join(onLeft, Join(onLeft, a, node, b), child, c);
              Links(t, Parent(p)) && PathLinks(p, child, head) && Balances(t)
      ensures forall n :: n in repr - {node, child} ==> n.balance == old(n.balance)
      ensures forall n :: n in repr ==> n.value == old(n.value)
    {
      hide Join, Links, PathLinks, Distinct, PathDistinct, Nodes, PathNodes, Balances, PathBalances, Height;
      RotateParts(onLeft, a, node, b, child, c);
      RotateApart(onLeft, p, a, node, b, child, c);
      Ends(p, b);
      node.balance := nodeBalance;
      child.balance := childBalance;
      r := Rotate(node, onLeft, p, a, b, child, c);
      BalancesJoin(onLeft, a, node, b);
      BalancesJoin(onLeft, Join(onLeft, a, node, b), child, c);
    }

    method AdjustDoubleBalance(node: Node, child: Node, nBal: int, ghost top: Node)
      requires child == node.left || child == node.right
      requires top == (if child == node.left then child.right else child.left)
      requires top != node && top != child && node != child
      modifies node`balance, child`balance, top`balance
      ensures top.balance == 0
      ensures node.balance == if old(top.balance) == nBal then -nBal else 0
      ensures child.balance == if old(top.balance) in {0, nBal} then 0 else nBal
    {
      var grand := if child == node.left then child.right else child.left;
      if grand.balance == 0 {
        node.balance := 0;
        child.balance := 0;
      } else if grand.balance == nBal {
        node.balance := -nBal;
        child.balance := 0;
      } else {
        node.balance := 0;
        child.balance := nBal;
      }
      grand.balance := 0;
    }

    // Give the three nodes of a double rotation their new balances and rotate.
    method DoubleRotateWith(node: Node, child: Node, onLeft: bool, nBal: int, ghost p: Path, ghost a: Tree,
                            ghost b: Tree, ghost grand: Node, ghost c: Tree, ghost d: Tree)
      returns (r: Node)
      requires var t := Join(onLeft, a, node, Join(onLeft, Join(onLeft, b, grand, c), child, d));
               Apart(p, t) && PathNodes(p) + Nodes(t) <= repr && Links(t, Parent(p)) && PathLinks(p, node, head)
      requires nBal == (if onLeft then 1 else -1) && child.balance == -nBal
      requires var inner := Join(onLeft, Join(onLeft, b, grand, c), child, d);
               Balances(a) && Balances(inner) && Height(inner) == Height(a) + 2
      modifies this`head, {node, child, grand}, Opt(Parent(p)), Opt(Root(b)), Opt(Root(c))
      ensures r == grand
      ensures var t := Join(onLeft, Join(onLeft, a, node, b), grand, Join(onLeft, c, child, d));
              Links(t, Parent(p)) && PathLinks(p, grand, head) && Balances(t) && Height(t) == Height(a) + 2
      ensures forall n :: n in repr - {node, child, grand} ==> n.balance == old(n.balance)
      ensures forall n :: n in repr ==> n.value == old(n.value)
    {
      hide Join, Links, PathLinks, Distinct, PathDistinct, Nodes, PathNodes, Balances, PathBalances, Height;
      ghost var mid := Join(onLeft, b, grand, c);
      ghost var inner := Join(onLeft, mid, child, d);
      DoubleRotateParts(onLeft, a, node, b, grand, c, child, d);
      DoubleRotateTrees(onLeft, a, node, b, grand, c, child, d);
      JoinSwap(onLeft, mid, child, d);
      JoinSwap(onLeft, b, grand, c);
      LinksJoin(onLeft, a, node, inner, Parent(p));
      LinksJoin(onLeft, mid, child, d, node);
      LinksJoin(onLeft, b, grand, c, child);
      BalancesJoin(onLeft, mid, child, d);
      BalancesJoin(onLeft, b, grand, c);
      DoubleRotateNodes(onLeft, a, node, b, grand, c, child, d);
      DoubleLean(onLeft, a, b, c, d, nBal, grand.balance);
      hide Lean, Max, Cut, Apart;
      AdjustDoubleBalance(node, child, nBal, grand);
      r := DoubleRotate(node, onLeft, p, a, b, grand, c, child, d);
      BalancesJoin(onLeft, a, node, b);
      BalancesJoin(onLeft, c, child, d);
      BalancesJoin(onLeft, Join(onLeft, a, node, b), grand, Join(onLeft, c, child, d));
    }

    // Everything that holds where the tree is cut at a node: `t` hangs in the hole of `p`.
    ghost predicate Cut(p: Path, t: Tree)
      reads this`head, this`repr, PathNodes(p)`left, PathNodes(p)`right, PathNodes(p)`parent
      reads Nodes(t)`left, Nodes(t)`right, Nodes(t)`parent
    {
      Apart(p, t) && PathNodes(p) + Nodes(t) <= repr && Links(t, Parent(p)) && PathLinks(p, Root(t), head)
    }

    // `grown`, below `node`, has become two levels higher than `other`.
    method RebalanceInserted(node: Node, child: Node, ghost p: Path, ghost grown: Tree, ghost other: Tree,
                             ghost onLeft: bool)
      returns (ghost t: Tree)
      requires Cut(p, Join(onLeft, other, node, grown)) && Root(grown) == child
      requires Balances(grown) && Balances(other) && Height(grown) == Height(other) + 2 && child.balance != 0
      requires PathBalances(p, Height(other) + 2)
      modifies this`head, repr
      ensures repr == old(repr) && Cut(p, t) && Balances(t) && PathBalances(p, Height(t))
      ensures InOrder(t) == InOrder(Join(onLeft, other, node, grown))
      ensures Nodes(t) == Nodes(Join(onLeft, other, node, grown))
      ensures forall n :: n in repr ==> n.value == old(n.value)
    {
      hide Join, Links, PathLinks, Distinct, PathDistinct, Nodes, PathNodes, Balances, PathBalances, Height, InOrder,
        Root;
      HeightRoot(grown);
      ghost var b, c := Unjoin(onLeft, grown);
      LinksJoin(onLeft, other, node, grown, Parent(p));
      RootsDiffer(onLeft, p, other, node, b, child, c);
      RotateParts(onLeft, other, node, b, child, c);
      RotateApart(onLeft, p, other, node, b, child, c);
      BalancesJoin(onLeft, b, child, c);
      BalancesJoin(onLeft, other, node, b);
      JoinSwap(onLeft, other, node, grown);
      var isLeftChild := node.left == child;
      var nBal := if isLeftChild then -1 else 1;
      assert isLeftChild == !onLeft;
      if child.balance == nBal {
        t := Join(onLeft, Join(onLeft, other, node, b), child, c);
        BalancesJoin(onLeft, Join(onLeft, other, node, b), child, c);
        RotateKeeps(onLeft, other, node, b, child, c);
        JoinSwap(onLeft, Join(onLeft, other, node, b), child, c);
        Ends(p, b);
        var _ := RotateWith(node, child, !isLeftChild, 0, 0, p, other, b, c);
      } else {
        var r: Node;
        r, t := RebalanceDouble(node, child, p, other, b, c, !isLeftChild, nBal);
      }
    }

    method RebalanceDouble(node: Node, child: Node, ghost p: Path, ghost a: Tree, ghost mid: Tree, ghost d: Tree,
                           onLeft: bool, nBal: int)
      returns (r: Node, ghost t: Tree)
      requires Cut(p, Join(onLeft, a, node, Join(onLeft, mid, child, d)))
      requires Balances(a) && Balances(Join(onLeft, mid, child, d))
               && Height(Join(onLeft, mid, child, d)) == Height(a) + 2
      requires nBal == (if onLeft then 1 else -1) && child.balance == -nBal
      modifies this`head, repr
      ensures repr == old(repr) && Cut(p, t) && Balances(t) && Height(t) == Height(a) + 2 && r == Root(t)
      ensures InOrder(t) == InOrder(Join(onLeft, a, node, Join(onLeft, mid, child, d)))
      ensures Nodes(t) == Nodes(Join(onLeft, a, node, Join(onLeft, mid, child, d)))
      ensures forall n :: n in repr ==> n.value == old(n.value)
      ensures forall n :: n in PathNodes(p) ==> n.balance == old(n.balance)
    {
      hide Join, Links, PathLinks, Distinct, PathDistinct, Nodes, PathNodes, Balances, PathBalances, Height, InOrder,
        Root;
      BalancesJoin(onLeft, mid, child, d);
      HeightRoot(mid);
      ghost var grand := mid.node;
      ghost var b, c := Unjoin(onLeft, mid);
      DoubleRotateParts(onLeft, a, node, b, grand, c, child, d);
      DoubleRotateTrees(onLeft, a, node, b, grand, c, child, d);
      DoubleRotateNodes(onLeft, a, node, b, grand, c, child, d);
      JoinSwap(onLeft, a, node, Join(onLeft, mid, child, d));
      t := Join(onLeft, Join(onLeft, a, node, b), grand, Join(onLeft, c, child, d));
      JoinSwap(onLeft, Join(onLeft, a, node, b), grand, Join(onLeft, c, child, d));
      RotateInnerKeeps(onLeft, a, node, b, grand, c, child, d);
      RotateKeeps(onLeft, a, node, b, grand, Join(onLeft, c, child, d));
      Ends(p, b);
      Ends(p, c);
      r := DoubleRotateWith(node, child, onLeft, nBal, p, a, b, grand, c, d);
    }

    // The nodes are linked as the balanced tree `tree`.
    ghost predicate Shaped()
      reads this, repr
    {
      && repr == Nodes(tree) && Distinct(tree) && Links(tree, null) && head == Root(tree) && Balances(tree)
    }

    lemma PlugAll(p: Path, t: Tree)
      requires Cut(p, t) && Balances(t) && PathBalances(p, Height(t))
      ensures var u := Plug(p, t);
              && Nodes(u) == PathNodes(p) + Nodes(t) && Distinct(u) && Links(u, null) && head == Root(u)
              && Balances(u) && InOrder(u) == Whole(p, t)
    {
      PlugDistinct(p, t);
      PlugLinks(p, t, head);
      PlugBalances(p, t);
      PlugInOrder(p, t);
    }

    // `grown`, the subtree of `node` on the `onLeft`-opposite side, has just grown by one
    // level; `node` has taken note, but nothing above it has.
    ghost predicate Growing(p: Path, onLeft: bool, other: Tree, node: Node, grown: Tree)
      reads this`head, this`repr, PathNodes(p), Nodes(other), Nodes(grown), node
    {
      && Apart(p, Join(onLeft, other, node, grown))
      && PathNodes(p) + Nodes(Join(onLeft, other, node, grown)) == repr
      && Links(other, node) && Links(grown, node) && node.parent == Parent(p) && PathLinks(p, node, head)
      && node.left == Root(if onLeft then other else grown) && node.right == Root(if onLeft then grown else other)
      && Balances(other) && Balances(grown) && node.balance == Lean(onLeft, other, grown)
      && grown.Bin? && (Height(grown) == 1 || grown.node.balance != 0)
      && -1 <= Height(grown) - 1 - Height(other) <= 1
      && PathBalances(p, 1 + Max(Height(grown) - 1, Height(other)))
    }

    // One level up: the tree at `node` has grown in turn.
    lemma GrowUp(p: Path, onLeft: bool, other: Tree, node: Node, grown: Tree)
      requires Growing(p, onLeft, other, node, grown) && node.balance in {-1, 1}
      ensures var t := Join(onLeft, other, node, grown);
              && Cut(p, t) && Balances(t) && Height(t) == 1 + Height(grown) && PathBalances(p, Height(t) - 1)
    {
      hide Join, Links, PathLinks, Distinct, PathDistinct, Nodes, PathNodes, Balances, PathBalances, Height, InOrder;
      HeightRoot(grown);
      JoinSwap(onLeft, other, node, grown);
      LinksJoin(onLeft, other, node, grown, Parent(p));
      BalancesJoin(onLeft, other, node, grown);
    }

    // What lies one level up: the parent of the hole of `p`, its links and its old balance.
    lemma StepUp(p: Path, t: Tree, h: nat)
      requires p.Down? && Cut(p, t) && PathBalances(p, h)
      ensures var n, wl, s, u := p.node, p.wentLeft, p.sibling, Join(!p.wentLeft, p.sibling, p.node, t);
              && Apart(p.up, u) && PathNodes(p.up) + Nodes(u) == PathNodes(p) + Nodes(t)
              && Links(s, n) && Links(t, n) && n.parent == Parent(p.up) && PathLinks(p.up, n, head)
              && n.left == Root(if wl then t else s) && n.right == Root(if wl then s else t)
              && (t.Bin? ==> (n.left == t.node <==> wl))
              && Balances(s) && n.balance == (if wl then Height(s) - h else h - Height(s)) && -1 <= n.balance <= 1
              && PathBalances(p.up, 1 + Max(h, Height(s))) && Whole(p, t) == Whole(p.up, u)
              && n !in Nodes(t) && n !in Nodes(s) && n !in PathNodes(p.up) && n in PathNodes(p) && n != Root(t)
              && PathNodes(p.up) <= repr && Nodes(s) <= repr && Nodes(t) <= repr
    {
      hide Join, Links, PathLinks, Distinct, PathDistinct, Nodes, PathNodes, Balances, PathBalances, Height, InOrder,
        Before, After, Root, Whole;
      var n, wl, s := p.node, p.wentLeft, p.sibling;
      HeightRoot(t);
      Ends(p, t);
      ApartUp(p.up, n, wl, t, s);
      JoinSwap(wl, t, n, s);
      PathLinksDown(p.up, n, wl, s, Root(t), head);
      DistinctJoin(wl, t, n, s);
      PathBalancesDown(p.up, n, wl, s, h);
      WholeUp(p.up, n, wl, t, s);
    }

    lemma CutNode(p: Path, t: Tree)
      requires Cut(p, t) && t.Bin?
      ensures t.node.parent == Parent(p) && t.node in repr && t.node in Nodes(t)
      ensures t.node.left == Root(t.left) && t.node.right == Root(t.right)
    {
    }

    method WalkUpInserted(node: Node, child: Node, ghost p: Path, ghost onLeft: bool, ghost other: Tree,
                          ghost grown: Tree)
      requires Growing(p, onLeft, other, node, grown) && child == Root(grown)
      modifies this`head, this`tree, repr
      ensures Shaped() && repr == old(repr)
      ensures InOrder(tree) == Whole(p, Join(onLeft, other, node, grown))
      ensures forall n :: n in repr ==> n.value == old(n.value)
    {
      hide Join, Links, PathLinks, Distinct, PathDistinct, Nodes, PathNodes, Balances, PathBalances, Height, InOrder,
        Plug, Before, After;
      var top: Node?, below := node, child;
      ghost var up, dir, o, g := p, onLeft, other, grown;
      while true
        invariant top != null && Growing(up, dir, o, top, g) && below == Root(g) && repr == old(repr)
        invariant Whole(up, Join(dir, o, top, g)) == Whole(p, Join(onLeft, other, node, grown))
        invariant forall n :: n in repr ==> n.value == old(n.value)
        decreases up
      {
        if top.balance == 0 {
          ghost var t := Join(dir, o, top, g);
          JoinSwap(dir, o, top, g);
          LinksJoin(dir, o, top, g, Parent(up));
          BalancesJoin(dir, o, top, g);
          PlugAll(up, t);
          tree := Plug(up, t);
          return;
        } else if top.balance == -1 || top.balance == 1 {
          ghost var t := Join(dir, o, top, g);
          GrowUp(up, dir, o, top, g);
          below := top;
          top := below.parent;
          JoinSwap(dir, o, below, g);
          HeightRoot(t);
          if top == null {
            PlugAll(up, t);
            tree := Plug(up, t);
            return;
          }
          StepUp(up, t, Height(t) - 1);
          top.balance := top.balance + (if top.left == below then -1 else 1);
          up, dir, o, g := up.up, !up.wentLeft, up.sibling, t;
        } else if top.balance == -2 || top.balance == 2 {
          JoinSwap(dir, o, top, g);
          HeightRoot(g);
          LinksJoin(dir, o, top, g, Parent(up));
          ghost var t := RebalanceInserted(top, below, up, g, o, dir);
          PlugAll(up, t);
          tree := Plug(up, t);
          return;
        } else {
          assert false; // IllegalStateException
        }
      }
    }

    method BalancedInsertion(parent: Node?, child: Node, ghost p: Path)
      requires parent == Parent(p) && PathLinks(p, null, head) && PathDistinct(p) && PathBalances(p, 0)
      requires repr == PathNodes(p) && child !in repr && (p.Top? ==> size == 0)
      requires child.left == null && child.right == null && child.parent == null && child.balance == 0
      requires p.Down? ==> (child.key < parent.key <==> p.wentLeft)
      modifies this, repr, child
      ensures Shaped() && repr == old(repr) + {child} && size == old(size) + 1
      ensures InOrder(tree) == Before(p) + [child] + After(p)
      ensures forall n :: n in repr ==> n.value == old(n.value)
    {
      hide Join, Links, PathLinks, Distinct, PathDistinct, Nodes, PathNodes, Balances, PathBalances, Height, InOrder,
        Before, After;
      repr := repr + {child};
      Leaf(child);
      if parent == null {
        head := child;
        size := 1;
        tree := Bin(Nil, child, Nil);
        AtTop(head, null, 0);
        return;
      }
      ghost var leaf := Bin(Nil, child, Nil);
      AttachLeaf(p, child);
      if child.key < parent.key {
        parent.Adopt(child, true);
        parent.balance := parent.balance - 1;
      } else {
        parent.Adopt(child, false);
        parent.balance := parent.balance + 1;
      }
      size := size + 1;
      Leaf(child);
      WalkUpInserted(parent, child, p.up, !p.wentLeft, p.sibling, leaf);
    }

    // What the new leaf will be attached to.
    lemma AttachLeaf(p: Path, child: Node)
      requires p.Down? && PathLinks(p, null, head) && PathDistinct(p) && PathBalances(p, 0)
      requires repr == PathNodes(p) + {child} && child !in PathNodes(p) && child.balance == 0
      ensures var n, wl, s, leaf := p.node, p.wentLeft, p.sibling, Bin(Nil, child, Nil);
              var u := Join(!wl, s, n, leaf);
              && Apart(p.up, u) && PathNodes(p.up) + Nodes(u) == repr
              && Links(s, n) && n.parent == Parent(p.up) && PathLinks(p.up, n, head)
              && n.left == (if wl then null else Root(s)) && n.right == (if wl then Root(s) else null)
              && Balances(s) && Balances(leaf) && Height(leaf) == 1
              && n.balance == (if wl then Height(s) else 0 - Height(s)) && -1 <= n.balance <= 1
              && PathBalances(p.up, 1 + Height(s)) && Whole(p.up, u) == Before(p) + [child] + After(p)
              && n !in Nodes(s) && n !in PathNodes(p.up) && n in PathNodes(p) && Nodes(s) <= PathNodes(p)
              && PathNodes(p.up) <= PathNodes(p)
    {
      hide Join, Links, PathLinks, Distinct, PathDistinct, Nodes, PathNodes, Balances, PathBalances, Height, InOrder,
        Before, After;
      var leaf := Bin(Nil, child, Nil);
      Leaf(child);
      Ends(p, leaf);
      PathLinksDown(p.up, p.node, p.wentLeft, p.sibling, null, head);
      PathBalancesDown(p.up, p.node, p.wentLeft, p.sibling, 0);
      ApartUp(p.up, p.node, p.wentLeft, leaf, p.sibling);
      DistinctJoin(p.wentLeft, leaf, p.node, p.sibling);
      JoinSwap(p.wentLeft, leaf, p.node, p.sibling);
      WholeUp(p.up, p.node, p.wentLeft, leaf, p.sibling);
    }

    // The other side of `node` is now two levels higher than `a`.  The result says whether
    // the tree is as high as it was before the removal.
    method RebalancePruned(node: Node, prunedLeft: bool, ghost p: Path, ghost a: Tree, ghost s: Tree)
      returns (pruned: Node, done: bool, ghost t: Tree)
      requires Cut(p, Join(prunedLeft, a, node, s))
      requires Balances(a) && Balances(s) && Height(s) == Height(a) + 2
      modifies this`head, repr
      ensures repr == old(repr) && Cut(p, t) && Balances(t) && pruned == Root(t)
      ensures Height(t) == if done then Height(a) + 3 else Height(a) + 2
      ensures InOrder(t) == InOrder(Join(prunedLeft, a, node, s))
      ensures Nodes(t) == Nodes(Join(prunedLeft, a, node, s))
      ensures forall n :: n in repr ==> n.value == old(n.value)
      ensures forall n :: n in PathNodes(p) ==> n.balance == old(n.balance)
    {
      hide Join, Links, PathLinks, Distinct, PathDistinct, Nodes, PathNodes, Balances, PathBalances, Height, InOrder,
        Root;
      HeightRoot(s);
      ghost var child := s.node;
      ghost var b, c := Unjoin(prunedLeft, s);
      LinksJoin(prunedLeft, a, node, s, Parent(p));
      RotateParts(prunedLeft, a, node, b, child, c);
      RotateApart(prunedLeft, p, a, node, b, child, c);
      BalancesJoin(prunedLeft, b, child, c);
      BalancesJoin(prunedLeft, a, node, b);
      JoinSwap(prunedLeft, a, node, s);
      t := Join(prunedLeft, Join(prunedLeft, a, node, b), child, c);
      BalancesJoin(prunedLeft, Join(prunedLeft, a, node, b), child, c);
      RotateKeeps(prunedLeft, a, node, b, child, c);
      JoinSwap(prunedLeft, Join(prunedLeft, a, node, b), child, c);
      Ends(p, b);
      var heavy := if prunedLeft then node.right else node.left;
      var nBal := if prunedLeft then -1 else 1;
      if heavy.balance == -nBal {
        pruned := RotateWith(node, heavy, prunedLeft, 0, 0, p, a, b, c);
        done := false;
      } else if heavy.balance == nBal {
        pruned, t := RebalanceDouble(node, heavy, p, a, b, c, prunedLeft, -nBal);
        done := false;
      } else {
        pruned := RotateWith(node, heavy, prunedLeft, -nBal, nBal, p, a, b, c);
        done := true;
      }
    }

    // `u`, the subtree of `node` on the `left` side, has lost one level; `node` has taken
    // note, but nothing above it has.
    ghost predicate Shrunk(p: Path, left: bool, u: Tree, node: Node, s: Tree)
      reads this`head, this`repr, PathNodes(p), Nodes(u), Nodes(s), node
    {
      && Apart(p, Join(left, u, node, s))
      && PathNodes(p) + Nodes(Join(left, u, node, s)) == repr
      && Links(u, node) && Links(s, node) && node.parent == Parent(p) && PathLinks(p, node, head)
      && node.left == Root(if left then u else s) && node.right == Root(if left then s else u)
      && Balances(u) && Balances(s) && node.balance == Lean(left, u, s)
      && -1 <= Height(u) + 1 - Height(s) <= 1
      && PathBalances(p, 1 + Max(Height(u) + 1, Height(s)))
    }

    // The three outcomes: as high as before, one level lower, or out of balance.
    lemma ShrunkCases(p: Path, left: bool, u: Tree, node: Node, s: Tree)
      requires Shrunk(p, left, u, node, s)
      ensures var v := Join(left, u, node, s);
              && Cut(p, v) && Root(v) == node
              && (node.balance in {-1, 1} ==> Balances(v) && PathBalances(p, Height(v)))
              && (node.balance == 0 ==> Balances(v) && PathBalances(p, Height(v) + 1))
              && (node.balance !in {-1, 0, 1} ==>
                    node.balance in {-2, 2} && Height(s) == Height(u) + 2 && PathBalances(p, Height(u) + 3))
    {
      hide Links, PathLinks, Distinct, PathDistinct, Nodes, PathNodes, Balances, PathBalances, Height, InOrder;
      LinksJoin(left, u, node, s, Parent(p));
      BalancesJoin(left, u, node, s);
    }

    // Look at the balance of `node` and rotate if need be.  The result says whether the tree
    // is as high as it was before the removal, which ends the walk.
    method Settle(node: Node, left: bool, ghost p: Path, ghost u: Tree, ghost s: Tree)
      returns (r: Node, done: bool, ghost v: Tree)
      requires Shrunk(p, left, u, node, s)
      modifies this`head, repr
      ensures repr == old(repr) && Cut(p, v) && Balances(v) && r == Root(v)
      ensures PathBalances(p, if done then Height(v) else Height(v) + 1)
      ensures InOrder(v) == InOrder(Join(left, u, node, s)) && Nodes(v) == Nodes(Join(left, u, node, s))
      ensures forall n :: n in repr ==> n.value == old(n.value)
    {
      hide Join, Links, PathLinks, Distinct, PathDistinct, Nodes, PathNodes, Balances, PathBalances, Height, InOrder,
        Root;
      ShrunkCases(p, left, u, node, s);
      v := Join(left, u, node, s);
      if node.balance == -1 || node.balance == 1 {
        return node, true, v;
      } else if node.balance == -2 || node.balance == 2 {
        r, done, v := RebalancePruned(node, left, p, u, s);
      } else {
        assert node.balance == 0; // otherwise: IllegalStateException
        return node, false, v;
      }
    }

    method BalancePostRemove(pruned: Node, fromLeft: bool, ghost p: Path, ghost t: Tree)
      requires p.Down? && pruned == p.node && fromLeft == p.wentLeft
      requires Cut(p, t) && PathNodes(p) + Nodes(t) == repr && Balances(t) && PathBalances(p, Height(t) + 1)
      modifies this`head, this`tree, repr
      ensures Shaped() && repr == old(repr) && InOrder(tree) == Whole(p, t)
      ensures forall n :: n in repr ==> n.value == old(n.value)
    {
      hide Join, Links, PathLinks, Distinct, PathDistinct, Nodes, PathNodes, Balances, PathBalances, Height, InOrder,
        Plug, Before, After, Root, Whole;
      hide Lean, Max;
      var node, left := pruned, fromLeft;
      ghost var q, u := p, t;
      while true
        invariant q.Down? && node == q.node && left == q.wentLeft && repr == old(repr)
        invariant Cut(q, u) && PathNodes(q) + Nodes(u) == repr && Balances(u) && PathBalances(q, Height(u) + 1)
        invariant Whole(q, u) == Whole(p, t)
        invariant forall n :: n in repr ==> n.value == old(n.value)
        decreases q
      {
        StepUp(q, u, Height(u) + 1);
        JoinSwap(left, u, node, q.sibling);
        LeanIs(left, u, q.sibling);
        node.balance := node.balance + (if left then 1 else -1);
        var done: bool;
        ghost var v;
        node, done, v := Settle(node, left, q.up, u, q.sibling);
        WholeSame(q.up, Join(left, u, q.node, q.sibling), v);
        HeightRoot(v);
        CutNode(q.up, v);
        if done || node.parent == null {
          AtTop(head, head, Height(v));
          PlugAll(q.up, v);
          tree := Plug(q.up, v);
          return;
        }
        StepUp(q.up, v, Height(v) + 1);
        left := node.parent.left == node;
        node := node.parent;
        q, u := q.up, v;
      }
    }

    // ----- the array as a map ------------------------------------------------

    ghost predicate Valid()
      reads this, repr
    {
      Shaped() && Sorted(InOrder(tree)) && size == |InOrder(tree)| && Keyed(repr)
    }

    ghost function Contents(): map<int, object?>
      requires Valid()
      reads this, repr
    {
      MapOf(repr)
    }

    constructor ()
      ensures Valid() && Contents() == map[] && fresh(repr)
    {
      head, size, tree, repr := null, 0, Nil, {};
    }

    method Find(index: int) returns (r: Node?, ghost steps: nat)
      requires Valid()
      ensures r == null ==> index !in Contents()
      ensures r != null ==> r in repr && r.key == index && index in Contents() && Contents()[index] == r.value
      ensures steps <= Height(tree)
    {
      var current := head;
      ghost var t, par := tree, null;
      steps := 0;
      while current != null
        invariant current == Root(t) && Links(t, par) && Nodes(t) <= repr && Sorted(InOrder(t))
        invariant forall n :: n in repr && n.key == index ==> n in Nodes(t)
        invariant steps + Height(t) <= Height(tree)
        decreases t
      {
        SortedTree(t);
        steps := steps + 1;
        var key := current.key;
        if index < key {
          t, par := t.left, current;
          current := current.left;
        } else if index > key {
          t, par := t.right, current;
          current := current.right;
        } else {
          return current, steps;
        }
      }
      return null, steps;
    }

    method Get(index: int) returns (r: object?)
      requires Valid()
      ensures r == if index in Contents() then Contents()[index] else null
    {
      var found, _ := Find(index);
      r := if found == null then null else found.value;
    }

    method Exists(index: int) returns (r: bool)
      requires Valid()
      ensures r <==> index in Contents()
    {
      var found, _ := Find(index);
      r := found != null;
    }

    // The array is shallow: its height is logarithmic in its size, and so is every search.
    lemma Shallow(steps: nat)
      requires Valid() && steps <= Height(tree)
      ensures size + 1 >= Fib(Height(tree) + 2)
      ensures size + 1 >= Pow2(steps / 2)
    {
      EnoughNodes(tree);
      FibMonotone(steps + 2, Height(tree) + 2);
      FibGrows(steps / 2);
      FibMonotone(2 * (steps / 2) + 2, steps + 2);
    }

    // The size counts the keys.
    lemma SizeCounts()
      requires Valid()
      ensures size == |Contents()|
    {
      NodesCount(tree);
      MapCount(repr);
    }

    // Going down one step.
    lemma CutDown(p: Path, t: Tree, left: bool)
      requires Cut(p, t) && t.Bin?
      ensures var q := Down(p, t.node, left, if left then t.right else t.left);
              var u := if left then t.left else t.right;
              && Cut(q, u) && Whole(q, u) == Whole(p, t) && PathNodes(q) + Nodes(u) == PathNodes(p) + Nodes(t)
    {
      hide Join, Links, PathLinks, Distinct, PathDistinct, Nodes, PathNodes, Balances, PathBalances, Height, InOrder,
        Before, After, Root, Whole;
      var n, s, u := t.node, if left then t.right else t.left, if left then t.left else t.right;
      Rejoin(t, left);
      HeightRoot(t);
      ApartDown(p, n, left, u, s);
      LinksJoin(left, u, n, s, Parent(p));
      PathLinksDown(p, n, left, s, Root(u), head);
      WholeUp(p, n, left, u, s);
    }

    lemma StepDown(p: Path, t: Tree, left: bool)
      requires Cut(p, t) && t.Bin? && Balances(t) && PathBalances(p, Height(t))
      ensures var q := Down(p, t.node, left, if left then t.right else t.left);
              var u := if left then t.left else t.right;
              && Cut(q, u) && Balances(u) && PathBalances(q, Height(u))
              && Whole(q, u) == Whole(p, t) && PathNodes(q) + Nodes(u) == PathNodes(p) + Nodes(t)
    {
      hide Join, Links, PathLinks, Distinct, PathDistinct, Nodes, PathNodes, Balances, PathBalances, Height, InOrder,
        Before, After, Root, Whole;
      var n, s, u := t.node, if left then t.right else t.left, if left then t.left else t.right;
      Rejoin(t, left);
      CutDown(p, t, left);
      BalancesJoin(left, u, n, s);
      PathBalancesDown(p, n, left, s, Height(u));
    }

    // Going up one step.
    lemma CutUp(p: Path, t: Tree)
      requires Cut(p, t) && p.Down?
      ensures var u := Join(p.wentLeft, t, p.node, p.sibling);
              && Cut(p.up, u) && Whole(p.up, u) == Whole(p, t) && PathNodes(p.up) + Nodes(u) == PathNodes(p) + Nodes(t)
      ensures t.Bin? ==> (p.node.left == t.node <==> p.wentLeft)
    {
      hide Join, Links, PathLinks, Distinct, PathDistinct, Nodes, PathNodes, Balances, PathBalances, Height, InOrder,
        Before, After, Root;
      HeightRoot(t);
      ApartUp(p.up, p.node, p.wentLeft, t, p.sibling);
      JoinSwap(p.wentLeft, t, p.node, p.sibling);
      PathLinksDown(p.up, p.node, p.wentLeft, p.sibling, Root(t), head);
      LinksJoin(p.wentLeft, t, p.node, p.sibling, Parent(p.up));
      WholeUp(p.up, p.node, p.wentLeft, t, p.sibling);
    }

    // A search that leaves the tree has found a place for a new key.
    lemma HoleFound(p: Path, t: Tree, k: int)
      requires Valid() && Root(t) == null && Cut(p, t) && PathBalances(p, Height(t))
      requires Whole(p, t) == InOrder(tree) && PathNodes(p) + Nodes(t) == repr
      requires Below(Before(p), k) && Above(After(p), k)
      ensures k !in Contents() && PathLinks(p, null, head) && PathDistinct(p) && PathBalances(p, 0)
      ensures PathNodes(p) == repr && Before(p) + After(p) == InOrder(tree)
    {
      assert Whole(p, Nil) == Before(p) + After(p);
      Absent(Before(p), After(p), k);
      forall n | n in repr
        ensures n.key != k
      {
        NodeInOrder(tree, n);
      }
    }

    method FindInsertionPoint(index: int) returns (place: Node?, ghost p: Path, ghost steps: nat)
      requires Valid()
      ensures place != null ==> place in repr
      ensures place != null && place.key == index ==> index in Contents() && Contents()[index] == place.value
      ensures place == null || place.key != index ==>
                && index !in Contents()
                && place == Parent(p) && PathLinks(p, null, head) && PathDistinct(p) && PathBalances(p, 0)
                && PathNodes(p) == repr && Before(p) + After(p) == InOrder(tree)
                && Below(Before(p), index) && Above(After(p), index)
                && (p.Down? ==> (index < place.key <==> p.wentLeft))
      ensures steps <= Height(tree)
    {
      place, p, steps := head, Top, 0;
      ghost var t := tree;
      if place == null {
        return;
      }
      hide Join, Links, PathLinks, Distinct, PathDistinct, Nodes, PathNodes, Balances, PathBalances, Height, InOrder,
        Before, After, Sorted, Below, Above, Keyed;
      while true
        invariant place == Root(t) && t.Bin? && Cut(p, t) && Balances(t) && PathBalances(p, Height(t))
        invariant Whole(p, t) == InOrder(tree) && PathNodes(p) + Nodes(t) == repr
        invariant Below(Before(p), index) && Above(After(p), index)
        invariant steps + Height(t) <= Height(tree)
        decreases t
      {
        HeightBelow(t);
        steps := steps + 1;
        StepDown(p, t, true);
        StepDown(p, t, false);
        CutNode(p, t);
        var key := place.key;
        if index > key {
          StepOrder(p, t, false, index);
          p, t := Down(p, place, false, t.left), t.right;
          if place.right == null {
            HoleFound(p, t, index);
            return;
          } else {
            place := place.right;
          }
        } else if index < key {
          StepOrder(p, t, true, index);
          p, t := Down(p, place, true, t.right), t.left;
          if place.left == null {
            HoleFound(p, t, index);
            return;
          } else {
            place := place.left;
          }
        } else {
          return;
        }
      }
    }

    method Set(index: int, value: object?) returns (was: object?)
      requires Valid()
      modifies this, repr
      ensures Valid() && fresh(repr - old(repr))
      ensures Contents() == old(Contents())[index := value]
      ensures was == if index in old(Contents()) then old(Contents())[index] else null
    {
      hide Join, Links, PathLinks, Distinct, PathDistinct, Nodes, PathNodes, Balances, PathBalances, Height, InOrder,
        Before, After, Sorted, Below, Above, MapOf;
      var place, p, _ := FindInsertionPoint(index);
      if place != null && place.key == index {
        was := place.SetValue(value);
        MapSet(repr, place);
        return;
      }
      var child := new Node(index, value);
      AtTop(head, null, 0);
      BalancedInsertion(place, child, p);
      SortedInsert(Before(p), child, After(p));
      OneNodePerKey(tree);
      MapInsert(old(repr), child);
      return null;
    }

    // ----- removal -----------------------------------------------------------

    // Hang `child`, the root of `t`, below `n`.
    method Hang(n: Node, child: Node?, onLeft: bool, ghost t: Tree, ghost was: Node?)
      requires child == Root(t) && Distinct(t) && Links(t, was)
      requires n in repr && Nodes(t) <= repr && n !in Nodes(t)
      modifies n, Opt(child)
      ensures n.left == (if onLeft then child else old(n.left)) && n.right == (if onLeft then old(n.right) else child)
      ensures n.parent == old(n.parent) && Links(t, n)
      ensures DataKept()
    {
      hide Links, Distinct, Nodes;
      if child != null {
        LinksJoin(true, t.left, child, t.right, was);
        SubtreesIn(t);
      }
      n.Adopt(child, onLeft);
      if child != null {
        LinksJoin(true, t.left, child, t.right, n);
      } else {
        NilTree(n);
      }
    }

    // The heir leaves its place, at the end of a path to the left, to its only child.
    method LeavePlace(heir: Node, ghost q: Path, ghost hr: Tree)
      requires q.Down? && PathDistinct(q) && LeftSpine(q) && q.node.left == heir
      requires heir.parent == q.node && heir.right == Root(hr) && Links(hr, heir) && Distinct(hr)
      requires PathNodes(q) + Nodes(hr) + {heir} <= repr && PathNodes(q) !! Nodes(hr)
      requires heir !in PathNodes(q) && heir !in Nodes(hr)
      modifies q.node, Opt(Root(hr))
      ensures DataKept() && LeftSpine(q) && q.node.left == Root(hr) && Links(hr, q.node)
      ensures q.node.parent == old(q.node.parent)
    {
      hide Links, PathLinks, Distinct, PathDistinct, Nodes, PathNodes, LeftSpine, Uppermost;
      UppermostIn(q);
      Ends(q, hr);
      SpineStep(q);
      Hang(heir.parent, heir.right, true, hr, heir);
      SpineStep(q);
    }

    // The heir takes the place of `node`, whose children it adopts.
    method TakePlace(node: Node, heir: Node, ghost p: Path, ghost q: Path, ghost l: Tree, ghost hr: Tree)
      returns (pruned: Node)
      requires node.parent == Parent(p) && PathLinks(p, node, head) && PathDistinct(p)
      requires node.left == Root(l) && Links(l, node) && Distinct(l)
      requires q.Down? && PathDistinct(q) && LeftSpine(q) && node.right == Uppermost(q) && Links(hr, q.node)
      requires heir.parent == q.node
      requires PathNodes(p) <= repr && PathNodes(q) <= repr && Nodes(l) <= repr && Nodes(hr) <= repr
      requires node in repr && heir in repr
      requires PathNodes(p) !! PathNodes(q) && PathNodes(p) !! Nodes(l) && PathNodes(p) !! Nodes(hr)
      requires PathNodes(q) !! Nodes(l) && PathNodes(q) !! Nodes(hr) && Nodes(l) !! Nodes(hr)
      requires node != heir && {node, heir} !! PathNodes(p) && {node, heir} !! PathNodes(q)
      requires {node, heir} !! Nodes(l) && {node, heir} !! Nodes(hr)
      modifies this`head, repr
      ensures DataKept() && q.node.left == old(q.node.left) && pruned == q.node
      ensures PathLinks(p, heir, head) && heir.parent == Parent(p)
      ensures heir.left == Root(l) && Links(l, heir) && heir.right == Uppermost(q) && Uppermost(q).parent == heir
      ensures LeftSpine(q) && Links(hr, q.node)
    {
      hide Links, PathLinks, Distinct, PathDistinct, Nodes, PathNodes, LeftSpine;
      UppermostIn(q);
      hide Uppermost;
      Ends(p, l);
      Ends(q, hr);
      Hang(heir, node.left, true, l, node);
      heir.Adopt(node.right, false);
      pruned := heir.parent;
      assert Links(l, heir) && Links(hr, q.node) && LeftSpine(q);
      var _ := Replace(node, heir, p, Nil, null);
    }

    // At most one child: it takes the place of `node`.
    method RemoveSimple(node: Node, ghost p: Path, ghost t: Tree)
      requires Cut(p, t) && t.Bin? && node == t.node && PathNodes(p) + Nodes(t) == repr
      requires Balances(t) && PathBalances(p, Height(t)) && (t.left.Nil? || t.right.Nil?)
      requires p.Down? ==> (node.key < p.node.key <==> p.wentLeft)
      modifies this`head, this`tree, this`repr, repr
      ensures Shaped() && repr == old(repr) - {node}
      ensures InOrder(tree) == Before(p) + InOrder(t.left) + InOrder(t.right) + After(p)
      ensures forall n :: n in repr ==> n.value == old(n.value)
    {
      hide Links, PathLinks, Distinct, PathDistinct, Nodes, PathNodes, Balances, PathBalances, Height, InOrder, Before,
        After, Plug, Whole, Root;
      ghost var ct := if t.left.Nil? then t.right else t.left;
      OneChild(p, t);
      OneChildNodes(p, t);
      CutNode(p, t);
      HeightRoot(t.left);
      HeightRoot(t.right);
      Ends(p, ct);
      hide Cut, Apart;
      var child := if node.left == null then node.right else node.left;
      var parent := Replace(node, child, p, ct, node);
      repr := repr - {node};
      OneChildCut(p, ct);
      if parent != null {
        BalancePostRemove(parent, node.key < parent.key, p, ct);
      } else {
        AtTop(head, head, Height(ct));
        PlugAll(p, ct);
        tree := Plug(p, ct);
      }
    }

    lemma OneChildCut(p: Path, t: Tree)
      requires Apart(p, t) && PathNodes(p) + Nodes(t) == repr && Links(t, Parent(p)) && PathLinks(p, Root(t), head)
      ensures Cut(p, t)
    {
    }

    lemma OneChild(p: Path, t: Tree)
      requires Cut(p, t) && t.Bin? && (t.left.Nil? || t.right.Nil?) && Balances(t) && PathBalances(p, Height(t))
      ensures var ct := if t.left.Nil? then t.right else t.left;
              && Apart(p, ct) && PathDistinct(p) && Links(ct, t.node) && Balances(ct) && Height(t) == Height(ct) + 1
              && PathLinks(p, t.node, head)
              && Whole(p, ct) == Before(p) + InOrder(t.left) + InOrder(t.right) + After(p)
    {
    }

    lemma OneChildNodes(p: Path, t: Tree)
      requires Cut(p, t) && t.Bin? && (t.left.Nil? || t.right.Nil?) && PathNodes(p) + Nodes(t) == repr
      ensures var ct := if t.left.Nil? then t.right else t.left;
              && PathNodes(p) + Nodes(ct) == repr - {t.node} && t.node !in Nodes(ct) && t.node !in PathNodes(p)
              && PathNodes(p) !! Nodes(ct)
    {
      NilTree(null);
      hide PathNodes, Nodes, Links, PathLinks, Distinct, PathDistinct;
      DistinctJoin(true, t.left, t.node, t.right);
    }

    // The heir is the right child of `node`: it keeps its own right child, and adopts the left one of `node`.
    method LinkNear(node: Node, heir: Node, ghost p: Path, ghost l: Tree, ghost hr: Tree)
      requires var t := Bin(l, node, Bin(Nil, heir, hr)); Cut(p, t) && Balances(t) && PathBalances(p, Height(t))
      modifies this`head, repr
      ensures repr == old(repr) && forall n :: n in repr ==> n.value == old(n.value)
      ensures Links(hr, heir) && Balances(hr) && PathLinks(Down(p, heir, false, l), Root(hr), head)
      ensures PathBalances(Down(p, heir, false, l), Height(hr) + 1)
    {
      hide Links, PathLinks, Distinct, PathDistinct, Nodes, PathNodes, Balances, PathBalances, Height, InOrder, Before,
        After;
      ghost var u, v := Bin(Nil, heir, hr), Bin(l, heir, hr);
      NearParts(p, l, node, heir, hr);
      NearNodes(p, l, node, heir, hr);
      LinksJoin(true, l, node, u, Parent(p));
      LinksJoin(true, Nil, heir, hr, node);
      BalancesJoin(true, l, node, u);
      NilTree(null);
      BalancesJoin(true, Nil, heir, hr);
      heir.balance := node.balance;
      Hang(heir, node.left, true, l, node);
      LinksJoin(true, l, heir, hr, node);
      var _ := Replace(node, heir, p, v, node);
      LinksJoin(true, l, heir, hr, Parent(p));
      PathLinksDown(p, heir, false, l, Root(hr), head);
      PathBalancesDown(p, heir, false, l, Height(hr) + 1);
    }

    method RemoveNear(node: Node, heir: Node, ghost p: Path, ghost l: Tree, ghost hr: Tree)
      requires var t := Bin(l, node, Bin(Nil, heir, hr));
               Cut(p, t) && PathNodes(p) + Nodes(t) == repr && Balances(t) && PathBalances(p, Height(t))
      modifies this`head, this`tree, this`repr, repr
      ensures Shaped() && repr == old(repr) - {node}
      ensures InOrder(tree) == Before(p) + InOrder(l) + [heir] + InOrder(hr) + After(p)
      ensures forall n :: n in repr ==> n.value == old(n.value)
    {
      hide Links, PathLinks, Distinct, PathDistinct, Nodes, PathNodes, Balances, PathBalances, Height, InOrder, Before,
        After;
      NearParts(p, l, node, heir, hr);
      NearNodes(p, l, node, heir, hr);
      WholeDown(p, heir, l, hr);
      LinkNear(node, heir, p, l, hr);
      repr := repr - {node};
      BalancePostRemove(heir, false, Down(p, heir, false, l), hr);
    }

    // The heir is further down, at the end of the path `q` to the left.
    method LinkFar(node: Node, heir: Node, ghost p: Path, ghost q: Path, ghost l: Tree, ghost hr: Tree)
      returns (pruned: Node)
      requires q.Down? && AllLeft(q)
      requires var b, u := Append(q, Down(p, node, false, l)), Bin(Nil, heir, hr);
               Cut(b, u) && Balances(u) && PathBalances(b, Height(u))
      modifies this`head, repr
      ensures repr == old(repr) && pruned == q.node && forall n :: n in repr ==> n.value == old(n.value)
      ensures Links(hr, pruned) && Balances(hr) && PathLinks(Append(q, Down(p, heir, false, l)), Root(hr), head)
      ensures PathBalances(Append(q, Down(p, heir, false, l)), Height(hr) + 1)
    {
      hide Links, PathLinks, Distinct, PathDistinct, Nodes, PathNodes, Balances, PathBalances, Height, InOrder, Before,
        After;
      hide Append, LeftSpine, Uppermost, HeightAbove;
      FarParts(p, l, node, q, heir, hr);
      FarNodes(p, l, node, q, heir, hr);
      FarLinks(node, heir, p, q, l, hr);
      FarBalances(node, heir, p, q, l, hr);
      Ends(q, hr);
      hide Cut, Apart;
      heir.balance := node.balance;
      LeavePlace(heir, q, hr);
      pruned := TakePlace(node, heir, p, q, l, hr);
      AppendLinks(q, Down(p, heir, false, l), Root(hr), head);
      PathLinksDown(p, heir, false, l, Uppermost(q), head);
      AppendBalances(q, Down(p, heir, false, l), Height(hr) + 1);
      PathBalancesDown(p, heir, false, l, HeightAbove(q, Height(hr) + 1));
    }

    // What the links on the way to a far heir say.
    lemma FarLinks(node: Node, heir: Node, p: Path, q: Path, l: Tree, hr: Tree)
      requires q.Down? && AllLeft(q) && PathDistinct(q)
      requires Cut(Append(q, Down(p, node, false, l)), Bin(Nil, heir, hr))
      ensures LeftSpine(q) && q.node.left == heir && Uppermost(q).parent == node
      ensures node.left == Root(l) && node.right == Uppermost(q) && node.parent == Parent(p)
      ensures Links(l, node) && PathLinks(p, node, head)
      ensures heir.right == Root(hr) && heir.parent == q.node && Links(hr, heir)
    {
      hide Links, PathLinks, Distinct, PathDistinct, Nodes, PathNodes, Append, LeftSpine, Uppermost;
      AppendEnds(q, Down(p, node, false, l));
      LinksJoin(true, Nil, heir, hr, q.node);
      hide Apart;
      AppendLinks(q, Down(p, node, false, l), heir, head);
      PathLinksDown(p, node, false, l, Uppermost(q), head);
    }

    lemma FarBalances(node: Node, heir: Node, p: Path, q: Path, l: Tree, hr: Tree)
      requires var b, u := Append(q, Down(p, node, false, l)), Bin(Nil, heir, hr);
               Balances(u) && PathBalances(b, Height(u))
      ensures Balances(hr) && Balances(l) && PathBalances(q, Height(hr) + 1)
      ensures var h := HeightAbove(q, Height(hr) + 1);
              && PathBalances(p, 1 + Max(h, Height(l))) && node.balance == h - Height(l) && -1 <= node.balance <= 1
    {
      hide Balances, PathBalances, Height, Append, HeightAbove;
      NilTree(null);
      BalancesJoin(true, Nil, heir, hr);
      AppendBalances(q, Down(p, node, false, l), Height(Bin(Nil, heir, hr)));
      PathBalancesDown(p, node, false, l, HeightAbove(q, Height(hr) + 1));
    }

    method RemoveFar(node: Node, heir: Node, ghost p: Path, ghost q: Path, ghost l: Tree, ghost hr: Tree)
      requires q.Down? && AllLeft(q)
      requires var b, u := Append(q, Down(p, node, false, l)), Bin(Nil, heir, hr);
               Cut(b, u) && PathNodes(b) + Nodes(u) == repr && Balances(u) && PathBalances(b, Height(u))
      modifies this`head, this`tree, this`repr, repr
      ensures Shaped() && repr == old(repr) - {node}
      ensures InOrder(tree) == Before(p) + InOrder(l) + [heir] + InOrder(hr) + After(q) + After(p)
      ensures forall n :: n in repr ==> n.value == old(n.value)
    {
      hide Links, PathLinks, Distinct, PathDistinct, Nodes, PathNodes, Balances, PathBalances, Height, InOrder, Before,
        After;
      hide Append, LeftSpine, Uppermost, HeightAbove;
      FarParts(p, l, node, q, heir, hr);
      FarNodes(p, l, node, q, heir, hr);
      FarPath(p, l, q, heir, hr);
      FarWhole(p, l, q, heir, hr);
      AppendEnds(q, Down(p, heir, false, l));
      var pruned := LinkFar(node, heir, p, q, l, hr);
      repr := repr - {node};
      BalancePostRemove(pruned, true, Append(q, Down(p, heir, false, l)), hr);
    }

    // Any node of the tree hangs in the hole of some path.
    lemma {:induction false} Locate(node: Node, p: Path, t: Tree) returns (q: Path, u: Tree)
      requires Cut(p, t) && Balances(t) && PathBalances(p, Height(t)) && node in Nodes(t)
      ensures u.Bin? && u.node == node && Cut(q, u) && Balances(u) && PathBalances(q, Height(u))
      ensures Whole(q, u) == Whole(p, t) && PathNodes(q) + Nodes(u) == PathNodes(p) + Nodes(t)
      decreases t
    {
      q, u := p, t;
      if t.node != node {
        var left := node in Nodes(t.left);
        StepDown(p, t, left);
        q, u := Locate(node, Down(p, t.node, left, if left then t.right else t.left), if left then t.left else t.right);
      }
    }

    // Remove `node`: the order loses it and nothing else.
    method RemoveNode(node: Node) returns (ghost before: seq<Node>, ghost after: seq<Node>)
      requires Valid() && node in repr
      modifies this, repr
      ensures Valid() && repr == old(repr) - {node}
      ensures old(InOrder(tree)) == before + [node] + after && InOrder(tree) == before + after
      ensures forall n :: n in repr ==> n.value == old(n.value)
      ensures !node.IsLinked()
    {
      hide Links, PathLinks, Distinct, PathDistinct, Nodes, PathNodes, Balances, PathBalances, Height, InOrder, Before,
        After, Sorted, Plug, Append;
      ghost var p, t := LocateAny(node);
      ghost var l, r := t.left, t.right;
      CutNode(p, t);
      HeightRoot(l);
      HeightRoot(r);
      WholeBin(p, l, node, r);
      before, after := Before(p) + InOrder(l), InOrder(r) + After(p);
      if node.left == null || node.right == null {
        if p.Down? {
          KeySide(p, t);
        }
        RemoveSimple(node, p, t);
      } else {
        RemoveWithHeir(node, p, l, r);
      }
      Regroup(Before(p), InOrder(l), [], InOrder(r), After(p));
      SortedRemove(before, node, after);
      OneNodePerKey(tree);
      node.left, node.right, node.parent := null, null, null;
      size := size - 1;
    }

    lemma LocateAny(node: Node) returns (p: Path, t: Tree)
      requires Valid() && node in repr
      ensures t.Bin? && t.node == node && Cut(p, t) && Balances(t) && PathBalances(p, Height(t))
      ensures Whole(p, t) == InOrder(tree) && PathNodes(p) + Nodes(t) == repr
    {
      AtTop(head, head, Height(tree));
      assert Whole(Top, tree) == InOrder(tree);
      p, t := Locate(node, Top, tree);
    }

    // The in-order successor of `node`: as far left as one can get in its right subtree.
    method FindHeir(node: Node, ghost p: Path, ghost l: Tree, ghost r: Tree)
      returns (heir: Node, ghost q: Path, ghost hr: Tree)
      requires Cut(p, Bin(l, node, r)) && PathNodes(p) + Nodes(Bin(l, node, r)) == repr && r.Bin?
      requires Balances(Bin(l, node, r)) && PathBalances(p, Height(Bin(l, node, r)))
      ensures AllLeft(q) && (q.Top? ==> r == Bin(Nil, heir, hr)) && heir in repr && (heir.parent == node <==> q.Top?)
      ensures var b, u := Append(q, Down(p, node, false, l)), Bin(Nil, heir, hr);
              Cut(b, u) && PathNodes(b) + Nodes(u) == repr && Balances(u) && PathBalances(b, Height(u))
      ensures InOrder(r) == [heir] + InOrder(hr) + After(q)
    {
      hide Links, PathLinks, Distinct, PathDistinct, Nodes, PathNodes, Balances, PathBalances, Height, InOrder, Before,
        After;
      hide Append, Whole, Root;
      ghost var base := Down(p, node, false, l);
      ghost var u := r;
      q := Top;
      AppendTop(base);
      AtTop(null, null, 0);
      CutNode(p, Bin(l, node, r));
      StepDown(p, Bin(l, node, r), false);
      CutNode(base, r);
      HeightRoot(r);
      heir := node.right;
      while heir.left != null
        invariant u.Bin? && heir == u.node && AllLeft(q) && Cut(Append(q, base), u)
        invariant heir.left == Root(u.left) && heir.parent == Parent(Append(q, base)) && heir in repr
        invariant Balances(u) && PathBalances(Append(q, base), Height(u))
        invariant InOrder(r) == InOrder(u) + After(q) && (q.Top? ==> u == r)
        invariant PathNodes(Append(q, base)) + Nodes(u) == repr
        decreases u
      {
        StepDown(Append(q, base), u, true);
        LeftOrder(q, u);
        AppendDown(q, base, u.node, u.right);
        HeightRoot(u);
        HeightRoot(u.left);
        q, u := Down(q, u.node, true, u.right), u.left;
        CutNode(Append(q, base), u);
        heir := heir.left;
      }
      hr := u.right;
      HeightRoot(u.left);
      NilTree(null);
      BalancesJoin(true, Nil, heir, hr);
      InOrderJoin(true, Nil, heir, hr);
      if q.Down? {
        FarNodes(p, l, node, q, heir, hr);
        AppendEnds(q, base);
        Ends(q, r);
      }
    }

    // Two children: the in-order successor takes the place of `node`.
    method RemoveWithHeir(node: Node, ghost p: Path, ghost l: Tree, ghost r: Tree)
      requires Cut(p, Bin(l, node, r)) && PathNodes(p) + Nodes(Bin(l, node, r)) == repr && r.Bin?
      requires Balances(Bin(l, node, r)) && PathBalances(p, Height(Bin(l, node, r)))
      modifies this`head, this`tree, this`repr, repr
      ensures Shaped() && repr == old(repr) - {node}
      ensures InOrder(tree) == Before(p) + InOrder(l) + InOrder(r) + After(p)
      ensures forall n :: n in repr ==> n.value == old(n.value)
    {
      hide Links, PathLinks, Distinct, PathDistinct, Nodes, PathNodes, Balances, PathBalances, Height, InOrder, Before,
        After;
      AtTop(null, null, 0);
      ghost var q, hr;
      var heir;
      heir, q, hr := FindHeir(node, p, l, r);
      if heir.parent == node {
        RemoveNear(node, heir, p, l, hr);
      } else {
        RemoveFar(node, heir, p, q, l, hr);
      }
    }

    method Remove(index: int) returns (was: object?)
      requires Valid()
      modifies this, repr
      ensures Valid() && repr <= old(repr)
      ensures Contents() == old(Contents()) - {index}
      ensures was == if index in old(Contents()) then old(Contents())[index] else null
    {
      hide Links, PathLinks, Distinct, PathDistinct, Nodes, PathNodes, Balances, PathBalances, Height, InOrder, Before,
        After, Sorted, MapOf;
      var place, _ := Find(index);
      if place == null {
        return null;
      }
      was := place.value;
      ghost var _, _ := RemoveNode(place);
      MapRemove(old(repr), place);
    }

    // A node of the tree is the head or hangs below another one.
    lemma LinkedOrHead(node: Node)
      requires Valid() && node in repr
      ensures node.IsLinked() || head == node
    {
      var p, t := LocateAny(node);
    }

    method IsHead(node: Node) returns (r: bool)
      ensures r <==> head == node
    {
      r := head == node;
    }
  }
}
