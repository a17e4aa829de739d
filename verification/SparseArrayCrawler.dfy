// In-order iteration over a sparse array, with removal through the iterator.
module SparseArrayCrawler {
  import opened SparseArrayTree
  import opened SparseArray

  // Where the crawler last came from, seen from the node it is at.
  datatype Direction = FromAbove | FromLeft | Sitting | FromRight

  datatype Outcome = Done | NoSuchElement | IllegalState

  // Standing at `n` having come from `dir`, `rest` of the order is still to come.
  // `k` is the place of `n` in the order.
  ghost predicate At(longArray: AbstractSparseArray, n: Node, dir: Direction, k: nat, rest: seq<Node>)
    reads longArray, longArray.repr
  {
    var order := InOrder(longArray.tree);
    && n in longArray.repr
    && match dir
       case FromAbove => n == longArray.head && rest == order
       case FromLeft => k < |order| && order[k] == n && rest == order[k..]
       case Sitting => k < |order| && order[k] == n && rest == order[k + 1..]
       case FromRight => false
  }

  // The same, in terms of the place in the tree: at the root of `t`, in the hole of `p`.
  ghost predicate Stands(longArray: AbstractSparseArray, dir: Direction, p: Path, t: Tree, rest: seq<Node>)
    reads longArray, PathNodes(p), Nodes(t)
  {
    && t.Bin? && longArray.Cut(p, t) && Whole(p, t) == InOrder(longArray.tree)
    && PathNodes(p) + Nodes(t) == longArray.repr && rest == ToCome(dir, p, t)
  }

  // The part of the order that is still to come at `t` below `p`.
  ghost function ToCome(dir: Direction, p: Path, t: Tree): seq<Node>
    requires t.Bin?
  {
    match dir
    case FromAbove => InOrder(t) + After(p)
    case FromLeft => [t.node] + (InOrder(t.right) + After(p))
    case Sitting => InOrder(t.right) + After(p)
    case FromRight => After(p)
  }

  ghost function Effort(dir: Direction): nat {
    match dir
    case FromAbove => 2
    case FromLeft => 0
    case Sitting => 3
    case FromRight => 1
  }

  // Find the place in the tree that goes with the place in the order.
  lemma Stand(longArray: AbstractSparseArray, n: Node, dir: Direction, k: nat, rest: seq<Node>)
    returns (p: Path, t: Tree)
    requires longArray.Valid() && At(longArray, n, dir, k, rest)
    ensures Stands(longArray, dir, p, t, rest) && t.node == n
  {
    if dir == FromAbove {
      p, t := Top, longArray.tree;
      AtTop(longArray.head, longArray.head, 0);
      assert Whole(Top, t) == InOrder(t) == InOrder(t) + After(Top);
    } else {
      p, t := longArray.LocateAny(n);
      hide InOrder, Before, After;
      WholeBin(p, t.left, n, t.right);
      OnePlace(InOrder(longArray.tree), k, Before(p) + InOrder(t.left), n, InOrder(t.right) + After(p));
    }
  }

  // The links that the crawler can follow, seen in the shape.
  lemma Links3(longArray: AbstractSparseArray, dir: Direction, p: Path, t: Tree, rest: seq<Node>)
    requires Stands(longArray, dir, p, t, rest)
    ensures t.node in longArray.repr
    ensures t.node.left == Root(t.left) && t.node.right == Root(t.right) && t.node.parent == Parent(p)
    ensures (t.node.left == null <==> t.left.Nil?) && (t.node.right == null <==> t.right.Nil?)
    ensures t.node.parent == null <==> p.Top?
    ensures Height(t.left) < Height(t) && Height(t.right) < Height(t)
  {
    longArray.CutNode(p, t);
  }

  lemma CrawlLeft(longArray: AbstractSparseArray, p: Path, t: Tree, rest: seq<Node>)
    requires Stands(longArray, FromAbove, p, t, rest) && t.left.Bin?
    ensures Stands(longArray, FromAbove, Down(p, t.node, true, t.right), t.left, rest)
  {
    hide Links, PathLinks, Distinct, PathDistinct, Nodes, PathNodes, InOrder, Before, After, Whole;
    longArray.CutDown(p, t, true);
    AfterLeft(p, t);
  }

  lemma CrawlRight(longArray: AbstractSparseArray, p: Path, t: Tree, rest: seq<Node>)
    requires Stands(longArray, Sitting, p, t, rest) && t.right.Bin?
    ensures Stands(longArray, FromAbove, Down(p, t.node, false, t.left), t.right, rest)
  {
    hide Links, PathLinks, Distinct, PathDistinct, Nodes, PathNodes, InOrder, Before, After, Whole;
    longArray.CutDown(p, t, false);
    AfterLeft(p, t);
  }

  lemma CrawlUp(longArray: AbstractSparseArray, dir: Direction, p: Path, t: Tree, rest: seq<Node>)
    requires Stands(longArray, dir, p, t, rest) && p.Down?
    requires dir == FromRight || (dir == Sitting && t.right.Nil?)
    ensures Stands(longArray, if p.wentLeft then FromLeft else FromRight,
                   p.up, Join(p.wentLeft, t, p.node, p.sibling), rest)
    ensures p.node.left == t.node <==> p.wentLeft
  {
    NilTree(null);
    hide Links, PathLinks, Distinct, PathDistinct, Nodes, PathNodes, InOrder, Before, After, Whole;
    longArray.CutUp(p, t);
    AfterUp(p, t);
  }

  // The next node is at hand: no left subtree is left to visit.
  lemma CrawlHere(longArray: AbstractSparseArray, dir: Direction, p: Path, t: Tree, rest: seq<Node>) returns (k: nat)
    requires Stands(longArray, dir, p, t, rest)
    requires dir == FromLeft || (dir == FromAbove && t.left.Nil?)
    ensures rest != [] && At(longArray, t.node, FromLeft, k, rest)
  {
    longArray.CutNode(p, t);
    var order, l, r := InOrder(longArray.tree), Before(p) + InOrder(t.left), InOrder(t.right) + After(p);
    HereFirst(dir, p, t);
    WholeBin(p, t.left, t.node, t.right);
    hide Links, PathLinks, Distinct, PathDistinct, Nodes, PathNodes, InOrder, Before, After, Whole, ToCome;
    SplitAt(order, l, t.node, r);
    k := |l|;
  }

  lemma HereFirst(dir: Direction, p: Path, t: Tree)
    requires t.Bin? && (dir == FromLeft || (dir == FromAbove && t.left.Nil?))
    ensures ToCome(dir, p, t) == [t.node] + (InOrder(t.right) + After(p))
  {
    assert InOrder(t) == InOrder(t.left) + [t.node] + InOrder(t.right);
    assert t.left.Nil? ==> InOrder(t.left) == [];
  }

  // Nothing is left to visit.
  lemma CrawlEnd(longArray: AbstractSparseArray, dir: Direction, p: Path, t: Tree, rest: seq<Node>)
    requires Stands(longArray, dir, p, t, rest) && p.Top?
    requires dir == FromRight || (dir == Sitting && t.right.Nil?)
    ensures rest == []
  {
  }

  class Crawler {
    var current: Node?
    var fromDir: Direction
    const longArray: AbstractSparseArray

    // What was to be visited at the start, what has been, and what is still to come.
    ghost var start: seq<Node>
    ghost var visited: seq<Node>
    ghost var rest: seq<Node>
    // Where `current` is in the order of the array.
    ghost var place: nat

    // It includes that the array is as this crawler left it: between two calls, nobody else
    // may change it.
    ghost predicate Valid()
      reads this, longArray, longArray.repr
    {
      && longArray.Valid()
      && visited + rest == start && Sorted(start)
      && (current == null ==> rest == [])
      && (current != null ==> At(longArray, current, fromDir, place, rest))
    }

    constructor (node: Node?, dir: Direction, longArray: AbstractSparseArray, ghost k: nat, ghost rest: seq<Node>)
      requires longArray.Valid() && Sorted(rest)
      requires node == null ==> rest == []
      requires node != null ==> At(longArray, node, dir, k, rest)
      ensures Valid() && this.longArray == longArray && visited == [] && this.rest == rest == start
    {
      current, fromDir, this.longArray := node, dir, longArray;
      start, visited, this.rest, place := rest, [], rest, k;
    }

    // The loop that `hasNext` and `nextNode` share: crawl to the next node in order.
    method Crawl(from: Node, fromDir: Direction, ghost k: nat, ghost rest: seq<Node>)
      returns (n: Node?, ghost k': nat)
      requires longArray.Valid() && At(longArray, from, fromDir, k, rest)
      ensures n == null <==> rest == []
      ensures n != null ==> At(longArray, n, FromLeft, k', rest)
    {
      var node, dir := from, fromDir;
      ghost var p, t := Stand(longArray, from, dir, k, rest);
      hide Stands, At, Height, Root, Depth, Nodes, PathNodes;
      while true
        invariant Stands(longArray, dir, p, t, rest) && t.Bin? && t.node == node
        decreases Effort(dir), if dir == FromAbove then Height(t) else Depth(p)
      {
        Links3(longArray, dir, p, t, rest);
        DepthUp(p);
        if dir == FromAbove && node.left != null {
          CrawlLeft(longArray, p, t, rest);
          p, t := Down(p, node, true, t.right), t.left;
          node := node.left;
        } else if dir == FromAbove || dir == FromLeft {
          k' := CrawlHere(longArray, dir, p, t, rest);
          return node, k';
        } else if dir == Sitting && node.right != null {
          CrawlRight(longArray, p, t, rest);
          p, t := Down(p, node, false, t.left), t.right;
          dir := FromAbove;
          node := node.right;
        } else if node.parent != null {
          CrawlUp(longArray, dir, p, t, rest);
          dir := if node == node.parent.left then FromLeft else FromRight;
          node := node.parent;
          t := Join(p.wentLeft, t, p.node, p.sibling);
          p := p.up;
        } else {
          CrawlEnd(longArray, dir, p, t, rest);
          return null, 0;
        }
      }
    }

    method HasNext() returns (r: bool)
      requires Valid()
      modifies this`current, this`fromDir, this`place
      ensures Valid() && (r <==> rest != [])
      ensures r ==> current == rest[0] && fromDir == FromLeft
      ensures !r ==> current == null
    {
      if current == null {
        return false;
      }
      var n;
      n, place := Crawl(current, fromDir, place, rest);
      current := n;
      if n != null {
        fromDir := FromLeft;
      }
      r := n != null;
    }

    // `peek` looks at the next node without moving to it.
    method NextNode(peek: bool) returns (r: Node?, outcome: Outcome)
      requires Valid()
      modifies this
      ensures Valid() && start == old(start)
      ensures outcome == (if old(rest) == [] then NoSuchElement else Done)
      ensures r == if old(rest) == [] then null else old(rest)[0]
      ensures if peek || old(rest) == [] then visited == old(visited) && rest == old(rest)
              else visited == old(visited) + [r] && rest == old(rest)[1..] && current == r && fromDir == Sitting
      ensures peek ==> current == old(current) && fromDir == old(fromDir)
    {
      hide Links, PathLinks, Distinct, PathDistinct, Nodes, PathNodes, Balances, Height, InOrder, Sorted;
      if current == null {
        return null, NoSuchElement;
      }
      ghost var k;
      r, k := Crawl(current, fromDir, place, rest);
      if r == null {
        if !peek {
          current := null;
        }
        return null, NoSuchElement;
      }
      if !peek {
        current, fromDir, place := r, Sitting, k;
        visited, rest := visited + [r], rest[1..];
      }
      return r, Done;
    }

    method Next() returns (r: object?, outcome: Outcome)
      requires Valid()
      modifies this
      ensures Valid() && start == old(start)
      ensures outcome == (if old(rest) == [] then NoSuchElement else Done)
      ensures if old(rest) == [] then visited == old(visited) && rest == old(rest)
              else visited == old(visited) + [current] && rest == old(rest)[1..] && fromDir == Sitting
                   && current == old(rest)[0] && r == current.value
    {
      var n;
      n, outcome := NextNode(false);
      r := if n == null then null else n.value;
    }

    // The node last returned by `next`; there is none before the first, after a removal,
    // or at the end.
    method CurrentNode() returns (r: Node?)
      requires Valid()
      ensures r == if fromDir == Sitting then current else null
    {
      r := if current == null || fromDir != Sitting then null else current;
    }

    // Move on to the next node and pretend to have reached it from its left child.
    method StepPast()
      requires Valid()
      modifies this
      ensures Valid() && start == old(start) && visited == old(visited) && rest == old(rest)
      ensures current == null <==> rest == []
      ensures current != null ==> fromDir == FromLeft && current == rest[0]
    {
      hide Links, PathLinks, Distinct, PathDistinct, Nodes, PathNodes, Balances, Height, InOrder, Sorted;
      var more := HasNext();
      if more {
        ghost var v, r := visited, rest;
        var _, _ := Next();
        fromDir := FromLeft;
        visited, rest := v, r;
      }
    }

    // Remove the node last returned.  Iteration goes on with the same nodes as before.
    method Remove() returns (outcome: Outcome)
      requires Valid()
      modifies this, longArray, longArray.repr
      ensures Valid() && start == old(start) && visited == old(visited) && rest == old(rest)
      ensures outcome == if old(current) != null && old(fromDir) == Sitting then Done else IllegalState
      ensures outcome == Done ==>
                && longArray.Contents() == old(longArray.Contents()) - {old(current).key}
                && longArray.repr == old(longArray.repr) - {old(current)}
                && (current == null || fromDir == FromLeft)
      ensures outcome != Done ==> longArray.Contents() == old(longArray.Contents())
                                  && longArray.repr == old(longArray.repr)
    {
      hide Links, PathLinks, Distinct, PathDistinct, Nodes, PathNodes, Balances, Height, InOrder, MapOf, Sorted;
      var node := CurrentNode();
      if node == null {
        return IllegalState;
      }
      StepPast();
      var isHead := longArray.IsHead(node);
      longArray.LinkedOrHead(node);
      if !node.IsLinked() && !isHead {
        // IllegalStateException: the node has already been removed.  In the source, removing
        // the key from the array itself leads here; `Valid()` says that nobody did that.
        assert false;
      }
      ghost var order := InOrder(longArray.tree);
      ghost var a, b := longArray.RemoveNode(node);
      MapRemove(old(longArray.repr), node);
      OnePlace(order, old(place), a, node, b);
      LaterNode(a, b, longArray.tree);
      place := |a|;
      return Done;
    }
  }

  method Iterator(longArray: AbstractSparseArray) returns (r: Crawler)
    requires longArray.Valid()
    ensures r.Valid() && fresh(r) && r.longArray == longArray
    ensures r.visited == [] && r.start == r.rest == InOrder(longArray.tree)
  {
    r := new Crawler(longArray.head, FromAbove, longArray, 0, InOrder(longArray.tree));
  }

  ghost predicate NotBelow(s: seq<Node>, k: int) {
    forall i :: 0 <= i < |s| ==> k <= s[i].key
  }

  // On the way down to `k`: every key before the hole is below `k`, every key after it is
  // above, and `closest` is the first of those.
  ghost predicate Seeking(longArray: AbstractSparseArray, k: int, p: Path, t: Tree, closest: Node?)
    reads longArray, PathNodes(p), Nodes(t)
  {
    && longArray.Cut(p, t) && Whole(p, t) == InOrder(longArray.tree)
    && PathNodes(p) + Nodes(t) == longArray.repr
    && Below(Before(p), k) && Above(After(p), k)
    && closest == if After(p) == [] then null else After(p)[0]
  }

  // An iterator may start at `n`: `rest` is what is not below `k`.
  ghost predicate StartsAt(longArray: AbstractSparseArray, k: int, n: Node?, skipped: seq<Node>, rest: seq<Node>)
    reads longArray, longArray.repr
  {
    && InOrder(longArray.tree) == skipped + rest && Below(skipped, k) && NotBelow(rest, k) && Sorted(rest)
    && (n == null ==> rest == [])
    && (n != null ==> At(longArray, n, FromLeft, |skipped|, rest))
  }

  lemma SeekStart(longArray: AbstractSparseArray, k: int)
    requires longArray.Valid()
    ensures Seeking(longArray, k, Top, longArray.tree, null) && longArray.head == Root(longArray.tree)
  {
    assert Whole(Top, longArray.tree) == InOrder(longArray.tree);
  }

  lemma SeekDown(longArray: AbstractSparseArray, k: int, p: Path, t: Tree, closest: Node?, left: bool)
    requires longArray.Valid() && Seeking(longArray, k, p, t, closest) && t.Bin?
    requires if left then k < t.node.key else t.node.key < k
    ensures Seeking(longArray, k, Down(p, t.node, left, if left then t.right else t.left),
                    if left then t.left else t.right, if left then t.node else closest)
  {
    assert !left ==> After(Down(p, t.node, false, t.left)) == After(p);
    AfterLeft(p, t);
    hide Links, PathLinks, Distinct, PathDistinct, Nodes, PathNodes, InOrder, Before, After, Whole, Sorted, Below,
      Above;
    StepOrder(p, t, left, k);
    longArray.CutDown(p, t, left);
  }

  lemma SeekFound(longArray: AbstractSparseArray, p: Path, t: Tree, closest: Node?)
    returns (skipped: seq<Node>, rest: seq<Node>)
    requires longArray.Valid() && t.Bin? && Seeking(longArray, t.node.key, p, t, closest)
    ensures StartsAt(longArray, t.node.key, t.node, skipped, rest)
  {
    var r := InOrder(t.right) + After(p);
    longArray.CutNode(p, t);
    skipped, rest := Before(p) + InOrder(t.left), [t.node] + r;
    hide Links, PathLinks, Distinct, PathDistinct, Nodes, PathNodes, InOrder, Before, After, Whole, Sorted, Below,
      Above, NotBelow;
    WholeBin(p, t.left, t.node, t.right);
    SortedHalves(skipped, t.node, r);
    SplitAt(InOrder(longArray.tree), skipped, t.node, r);
    Group2(skipped, [t.node], r);
  }

  lemma SeekEnd(longArray: AbstractSparseArray, k: int, p: Path, closest: Node?)
    requires longArray.Valid() && Seeking(longArray, k, p, Nil, closest)
    ensures StartsAt(longArray, k, closest, Before(p), After(p))
  {
    assert Whole(p, Nil) == Before(p) + After(p);
    hide Links, PathLinks, Distinct, PathDistinct, Nodes, PathNodes, InOrder, Before, After, Whole, Sorted, Below,
      Above, NotBelow;
    SortedTail(Before(p), After(p), k);
    LaterNode(Before(p), After(p), longArray.tree);
  }

  lemma SeekNode(longArray: AbstractSparseArray, k: int, p: Path, t: Tree, closest: Node?)
    requires Seeking(longArray, k, p, t, closest)
    ensures Root(t) == null <==> t == Nil
    ensures t.Bin? ==> Root(t) == t.node && t.node.left == Root(t.left) && t.node.right == Root(t.right)
  {
  }

  // An iterator that starts at the first key that is not below `index`.
  method IteratorAt(longArray: AbstractSparseArray, index: int) returns (r: Crawler, ghost skipped: seq<Node>)
    requires longArray.Valid()
    ensures r.Valid() && fresh(r) && r.longArray == longArray && r.visited == []
    ensures InOrder(longArray.tree) == skipped + r.rest && Below(skipped, index) && NotBelow(r.rest, index)
  {
    var closest: Node?, node := null, longArray.head;
    ghost var p, t, rest := Top, longArray.tree, [];
    SeekStart(longArray, index);
    hide Links, PathLinks, Distinct, PathDistinct, Nodes, PathNodes, Balances, PathBalances, Height, InOrder, Before,
      After, Sorted;
    hide Seeking, At, Root, Below, Above, NotBelow;
    while node != null
      invariant node == Root(t) && Seeking(longArray, index, p, t, closest)
      decreases t
    {
      SeekNode(longArray, index, p, t, closest);
      var key := node.key;
      if index < key {
        SeekDown(longArray, index, p, t, closest, true);
        p, t := Down(p, node, true, t.right), t.left;
        closest := node;
        node := node.left;
      } else if index > key {
        SeekDown(longArray, index, p, t, closest, false);
        p, t := Down(p, node, false, t.left), t.right;
        node := node.right;
      } else {
        skipped, rest := SeekFound(longArray, p, t, closest);
        r := new Crawler(node, FromLeft, longArray, |skipped|, rest);
        return;
      }
    }
    SeekNode(longArray, index, p, t, closest);
    SeekEnd(longArray, index, p, closest);
    skipped, rest := Before(p), After(p);
    r := new Crawler(closest, FromLeft, longArray, |skipped|, rest);
  }

  lemma DepthUp(p: Path)
    ensures p.Down? ==> Depth(p.up) < Depth(p)
  {
  }

  lemma Group2(a: seq<Node>, b: seq<Node>, c: seq<Node>)
    ensures a + (b + c) == a + b + c
  {
  }

  lemma SortedTail(a: seq<Node>, b: seq<Node>, k: int)
    requires Sorted(a + b)
    ensures Sorted(b) && (Above(b, k) ==> NotBelow(b, k))
  {
    assert forall i :: 0 <= i < |b| ==> b[i] == (a + b)[|a| + i];
  }

  lemma SortedHalves(a: seq<Node>, n: Node, b: seq<Node>)
    requires Sorted(a + [n] + b)
    ensures Sorted([n] + b) && Below(a, n.key) && NotBelow([n] + b, n.key)
  {
    SortedConcat(a, n, b);
    SortedConcat([], n, b);
    assert [] + [n] + b == [n] + b;
  }

  ghost function Keys(s: seq<Node>): seq<int> {
    seq(|s|, i requires 0 <= i < |s| => s[i].key)
  }

  lemma KeysAppend(s: seq<Node>, n: Node)
    ensures Keys([]) == [] && Keys(s + [n]) == Keys(s) + [n.key]
  {
  }

  // The order lists the keys of the array, each once and in ascending order.
  lemma OrderOfKeys(longArray: AbstractSparseArray)
    requires longArray.Valid()
    ensures var keys := Keys(InOrder(longArray.tree));
            && (forall i, j :: 0 <= i < j < |keys| ==> keys[i] < keys[j])
            && (forall k :: k in keys <==> k in longArray.Contents())
            && longArray.size == |keys| == |longArray.Contents()|
  {
    longArray.SizeCounts();
    var order := InOrder(longArray.tree);
    var keys := Keys(order);
    forall k
      ensures k in keys <==> k in longArray.Contents()
    {
      if k in keys {
        var i :| 0 <= i < |keys| && keys[i] == k;
        NodeInOrder(longArray.tree, order[i]);
        assert order[i] in longArray.repr && order[i].key == k;
      }
      if k in longArray.Contents() {
        var n :| n in longArray.repr && n.key == k;
        NodeInOrder(longArray.tree, n);
        var i :| 0 <= i < |order| && order[i] == n;
        assert keys[i] == k;
      }
    }
  }

  // The keys among `doomed` that have been seen.
  ghost function Hit(doomed: set<int>, seen: seq<int>): set<int> {
    set k | k in doomed && k in seen
  }

  lemma HitOne(doomed: set<int>, seen: seq<int>, key: int, m: map<int, object?>)
    ensures m - Hit(doomed, seen) - (if key in doomed then {key} else {}) == m - Hit(doomed, seen + [key])
    ensures Hit(doomed, []) == {} && m - {} == m
  {
    assert Hit(doomed, seen + [key]) == Hit(doomed, seen) + if key in doomed then {key} else {};
  }

  // Once every key has been seen, every doomed one has been hit.
  lemma HitAll(doomed: set<int>, seen: seq<int>, m: map<int, object?>)
    requires forall k :: k in m ==> k in seen
    ensures m - Hit(doomed, seen) == m - doomed
  {
    var a, b := m - Hit(doomed, seen), m - doomed;
    forall k | k in m
      ensures k in a <==> k in b
    {
      assert k in seen;
      assert k in Hit(doomed, seen) <==> k in doomed;
    }
    assert a.Keys == b.Keys;
  }

  // A crawler with nothing to come has visited all.
  lemma AtEnd(c: Crawler)
    requires c.Valid()
    ensures c.rest == [] ==> c.visited == c.start
  {
    assert c.visited + [] == c.visited;
  }

  // Visit the next node, and remove it if its key is doomed.
  method SweepOne(c: Crawler, doomed: set<int>) returns (key: int)
    requires c.Valid() && c.rest != []
    modifies c, c.longArray, c.longArray.repr
    ensures c.Valid() && c.start == old(c.start) && c.rest == old(c.rest)[1..]
    ensures c.visited == old(c.visited) + [old(c.rest)[0]] && key == old(c.rest)[0].key
    ensures c.longArray.repr <= old(c.longArray.repr)
    ensures c.longArray.Contents() == old(c.longArray.Contents()) - if key in doomed then {key} else {}
  {
    hide At, Links, PathLinks, Distinct, PathDistinct, Nodes, PathNodes, Balances, PathBalances, Height, InOrder,
      Sorted, MapOf;
    var _, _ := c.Next();
    assert c.longArray.Contents() == old(c.longArray.Contents());
    key := c.current.key;
    if key in doomed {
      var _ := c.Remove();
    }
  }

  // Visit all that is still to come.
  method SweepOn(c: Crawler, doomed: set<int>) returns (seen: seq<int>)
    requires c.Valid() && c.visited == []
    modifies c, c.longArray, c.longArray.repr
    ensures c.longArray.Valid() && seen == old(Keys(c.start))
    ensures c.longArray.Contents() == old(c.longArray.Contents()) - Hit(doomed, seen)
  {
    hide At, Links, PathLinks, Distinct, PathDistinct, Nodes, PathNodes, Balances, PathBalances, Height, InOrder,
      Sorted, MapOf, Hit;
    ghost var start, was := c.start, c.longArray.Contents();
    HitOne(doomed, [], 0, was);
    seen := [];
    var more := c.HasNext();
    while more
      invariant c.Valid() && c.start == start && more == (c.rest != [])
      invariant seen == Keys(c.visited) && c.longArray.repr <= old(c.longArray.repr)
      invariant c.longArray.Contents() == was - Hit(doomed, seen)
      decreases |c.rest|
    {
      KeysAppend(c.visited, c.rest[0]);
      var key := SweepOne(c, doomed);
      HitOne(doomed, seen, key, was);
      seen := seen + [key];
      more := c.HasNext();
    }
    AtEnd(c);
  }

  // A whole run of the iterator, removing on the way: every key is seen once, in ascending
  // order, whatever is removed.
  method Sweep(longArray: AbstractSparseArray, doomed: set<int>) returns (seen: seq<int>)
    requires longArray.Valid()
    modifies longArray, longArray.repr
    ensures longArray.Valid() && longArray.Contents() == old(longArray.Contents()) - doomed
    ensures forall i, j :: 0 <= i < j < |seen| ==> seen[i] < seen[j]
    ensures forall k :: k in seen <==> k in old(longArray.Contents())
  {
    hide At, Links, PathLinks, Distinct, PathDistinct, Nodes, PathNodes, Balances, PathBalances, Height, InOrder,
      Sorted, MapOf, Hit, Keys;
    OrderOfKeys(longArray);
    var c := Iterator(longArray);
    seen := SweepOn(c, doomed);
    HitAll(doomed, seen, old(longArray.Contents()));
  }
}
