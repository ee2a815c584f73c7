/** The binary search tree of src/bscl_bstree.c: nodes with left, right and parent pointers, equal keys
    allowed. Its shape is described without recursion: every node occupies one place of the in-order
    sequence and heads a stretch of it, and its pointers are right when they split that stretch. */
module BsTree {
  import opened Comparison
  import opened Sequences

  /** What a node points to; only the comparison function looks inside. */
  type Data = int

  /** bscl_bstree_t. */
  class Item {
    const data: Data
    var left: Item?
    var right: Item?
    var parent: Item?

    constructor (data: Data)
      ensures this.data == data && left == null && right == null && parent == null
    {
      this.data := data;
      left, right, parent := null, null, null;
    }
  }

  // ----- the shape of a tree, as a value

  /** A node's place in the in-order sequence, the places its subtree takes (from lo up to hi), and its
      pointers. */
  datatype Spot = Spot(pos: int, lo: int, hi: int, left: Item?, right: Item?, parent: Item?)

  type Layout = map<Item, Spot>

  /** The left child, or its absence, accounts for what precedes x in its stretch. */
  ghost predicate LeftOk(g: Layout, x: Item)
    requires x in g
  {
    var l := g[x].left;
    if l == null then g[x].lo == g[x].pos
    else l in g && g[l].parent == x && g[l].lo == g[x].lo && g[l].hi == g[x].pos
  }

  ghost predicate RightOk(g: Layout, x: Item)
    requires x in g
  {
    var r := g[x].right;
    if r == null then g[x].hi == g[x].pos + 1
    else r in g && g[r].parent == x && g[r].lo == g[x].pos + 1 && g[r].hi == g[x].hi
  }

  ghost predicate ParentOk(g: Layout, n: int, x: Item, root: Item?)
    requires x in g
  {
    var p := g[x].parent;
    if p == null then x == root && g[x].lo == 0 && g[x].hi == n
    else x != root && p in g && (x == g[p].left || x == g[p].right)
  }

  ghost predicate NodeOk(g: Layout, n: int, x: Item, root: Item?)
    requires x in g
  {
    0 <= g[x].lo <= g[x].pos < g[x].hi <= n && LeftOk(g, x) && RightOk(g, x) && ParentOk(g, n, x, root)
  }

  /** root heads a tree of n nodes, all parent and child links agreeing. */
  ghost predicate Linked(g: Layout, n: int, root: Item?) {
    && n >= 0 && (if root == null then n == 0 else root in g)
    && (forall x {:trigger NodeOk(g, n, x, root)} :: x in g ==> NodeOk(g, n, x, root))
  }

  /** The nodes in order of their places. */
  ghost predicate Places(nodes: seq<Item>, g: Layout) {
    && (forall i {:trigger PlaceOk(nodes, g, i)} :: 0 <= i < |nodes| ==> PlaceOk(nodes, g, i))
    && (forall x {:trigger ItemOk(nodes, g, x)} :: x in g ==> ItemOk(nodes, g, x))
  }

  ghost predicate PlaceOk(nodes: seq<Item>, g: Layout, i: int)
    requires 0 <= i < |nodes|
  {
    nodes[i] in g && g[nodes[i]].pos == i
  }

  ghost predicate ItemOk(nodes: seq<Item>, g: Layout, x: Item)
    requires x in g
  {
    0 <= g[x].pos < |nodes| && nodes[g[x].pos] == x
  }

  // ----- adding a node to a layout

  /** Where a boundary v goes when one place is added at k. */
  function Up(v: int, k: int, inclusive: bool): int {
    if v > k || (inclusive && v == k) then v + 1 else v
  }

  function SpotUp(s: Spot, k: int, after: bool): Spot {
    s.(pos := Up(s.pos, k, true), lo := Up(s.lo, k, after), hi := Up(s.hi, k, after))
  }

  /** item directly before temp, between temp and its left subtree. */
  function AddedBefore(g: Layout, item: Item, temp: Item): (r: Layout)
    requires temp in g && item !in g
    ensures r.Keys == g.Keys + {item}
    ensures var s := g[temp];
            && r[item] == Spot(s.pos, s.lo, s.pos + 1, s.left, null, temp)
            && r[temp] == SpotUp(s, s.pos, false).(left := item)
            && (s.left != null && s.left in g && s.left != temp ==>
                  r[s.left] == SpotUp(g[s.left], s.pos, false).(parent := item))
            && forall x :: x in g && x != temp && x != s.left ==> r[x] == SpotUp(g[x], s.pos, false)
  {
    var s := g[temp];
    var k, z := s.pos, s.left;
    (map x | x in g ::
       var u := SpotUp(g[x], k, false);
       if x == temp then u.(left := item) else if x == z then u.(parent := item) else u)
    [item := Spot(k, s.lo, k + 1, z, null, temp)]
  }

  /** item directly after temp, as its right child. */
  function AddedAfter(g: Layout, item: Item, temp: Item): (r: Layout)
    requires temp in g && item !in g
    ensures r.Keys == g.Keys + {item}
    ensures var s := g[temp];
            var k := s.pos + 1;
            && r[item] == Spot(k, k, k + 1, null, null, temp)
            && r[temp] == SpotUp(s, k, true).(right := item)
            && forall x :: x in g && x != temp ==> r[x] == SpotUp(g[x], k, true)
  {
    var k := g[temp].pos + 1;
    (map x | x in g :: var u := SpotUp(g[x], k, true); if x == temp then u.(right := item) else u)
    [item := Spot(k, k, k + 1, null, null, temp)]
  }

  lemma AddBeforeLeft(nodes: seq<Item>, g: Layout, n: int, item: Item, temp: Item, root: Item,
      x: Item)
    requires Places(nodes, g) && Linked(g, n, root) && temp in g && item !in g && (x == item || x in g)
    requires NodeOk(g, n, temp, root) && g[temp].left != temp
    ensures LeftOk(AddedBefore(g, item, temp), x)
  {
    assert ItemOk(nodes, g, temp);
    if x != item {
      assert NodeOk(g, n, x, root) && ItemOk(nodes, g, x);
    }
  }

  lemma AddBeforeRight(nodes: seq<Item>, g: Layout, n: int, item: Item, temp: Item, root: Item,
      x: Item)
    requires Places(nodes, g) && Linked(g, n, root) && temp in g && item !in g && (x == item || x in g)
    requires NodeOk(g, n, temp, root) && g[temp].left != temp
    ensures RightOk(AddedBefore(g, item, temp), x)
  {
    assert ItemOk(nodes, g, temp);
    if x != item {
      assert NodeOk(g, n, x, root) && ItemOk(nodes, g, x);
    }
  }

  lemma AddBeforeParent(nodes: seq<Item>, g: Layout, n: int, item: Item, temp: Item, root: Item,
      x: Item)
    requires Places(nodes, g) && Linked(g, n, root) && temp in g && item !in g && (x == item || x in g)
    requires NodeOk(g, n, temp, root) && g[temp].left != temp
    ensures var g' := AddedBefore(g, item, temp);
            ParentOk(g', n + 1, x, root) && 0 <= g'[x].lo <= g'[x].pos < g'[x].hi <= n + 1
  {
    assert ItemOk(nodes, g, temp);
    if x != item {
      assert NodeOk(g, n, x, root) && ItemOk(nodes, g, x);
    }
  }

  lemma AddBeforeKeepsLinks(nodes: seq<Item>, g: Layout, n: int, item: Item, temp: Item, root: Item)
    requires Places(nodes, g) && Linked(g, n, root) && temp in g && item !in g
    ensures g[temp].left != temp && Linked(AddedBefore(g, item, temp), n + 1, root)
  {
    assert NodeOk(g, n, temp, root);
    var g' := AddedBefore(g, item, temp);
    forall x | x in g'
      ensures NodeOk(g', n + 1, x, root)
    {
      AddBeforeLeft(nodes, g, n, item, temp, root, x);
      AddBeforeRight(nodes, g, n, item, temp, root, x);
      AddBeforeParent(nodes, g, n, item, temp, root, x);
    }
  }

  lemma AddAfterKeepsLinks(nodes: seq<Item>, g: Layout, n: int, item: Item, temp: Item, root: Item)
    requires Places(nodes, g) && Linked(g, n, root) && temp in g && item !in g && g[temp].right == null
    ensures Linked(AddedAfter(g, item, temp), n + 1, root)
  {
    assert NodeOk(g, n, temp, root) && ItemOk(nodes, g, temp);
    var g' := AddedAfter(g, item, temp);
    forall x | x in g'
      ensures NodeOk(g', n + 1, x, root)
    {
      if x != item {
        assert NodeOk(g, n, x, root) && ItemOk(nodes, g, x);
      }
      assert LeftOk(g', x) && RightOk(g', x) && ParentOk(g', n + 1, x, root);
    }
  }

  lemma PlacesAdd(s: seq<Item>, g: Layout, item: Item, k: int, g': Layout)
    requires Places(s, g) && 0 <= k <= |s| && item !in g
    requires g'.Keys == g.Keys + {item} && g'[item].pos == k
          && forall x :: x in g ==> g'[x].pos == Up(g[x].pos, k, true)
    ensures Places(Inserted(s, k, item), g')
  {
    var nodes := Inserted(s, k, item);
    forall i | 0 <= i < |nodes|
      ensures PlaceOk(nodes, g', i)
    {
      if i < k {
        assert PlaceOk(s, g, i);
      } else if i > k {
        assert PlaceOk(s, g, i - 1);
      }
    }
    forall x | x in g'
      ensures ItemOk(nodes, g', x)
    {
      if x != item {
        assert ItemOk(s, g, x);
      }
    }
  }

  ghost predicate NonDecreasing(s: seq<Item>, cmp: Compare<Data>) {
    forall i, j {:trigger InOrder(s, cmp, i, j)} :: 0 <= i < j < |s| ==> InOrder(s, cmp, i, j)
  }

  ghost predicate InOrder(s: seq<Item>, cmp: Compare<Data>, i: int, j: int)
    requires 0 <= i < j < |s|
  {
    cmp(s[i].data, s[j].data) <= 0
  }

  /** The key is greater than everything before place a. */
  ghost predicate AllLess(s: seq<Item>, key: Data, cmp: Compare<Data>, a: int)
    requires a <= |s|
  {
    forall i :: 0 <= i < a ==> cmp(key, s[i].data) > 0
  }

  /** The key is less than everything from place b on. */
  ghost predicate AllMore(s: seq<Item>, key: Data, cmp: Compare<Data>, b: int)
    requires 0 <= b
  {
    forall i :: b <= i < |s| ==> cmp(key, s[i].data) < 0
  }

  lemma MoreFrom(s: seq<Item>, key: Data, cmp: Compare<Data>, p: int)
    requires NonDecreasing(s, cmp) && Consistent(cmp) && 0 <= p < |s| && cmp(key, s[p].data) < 0
    ensures AllMore(s, key, cmp, p)
  {
    forall i | p < i < |s|
      ensures cmp(key, s[i].data) < 0
    {
      assert InOrder(s, cmp, p, i);
      LessThanAll(cmp, key, s[p].data, s[i].data);
    }
  }

  lemma LessTo(s: seq<Item>, key: Data, cmp: Compare<Data>, p: int)
    requires NonDecreasing(s, cmp) && Consistent(cmp) && 0 <= p < |s| && cmp(key, s[p].data) > 0
    ensures AllLess(s, key, cmp, p + 1)
  {
    forall i | 0 <= i < p
      ensures cmp(key, s[i].data) > 0
    {
      assert InOrder(s, cmp, i, p);
      MoreThanAll(cmp, key, s[p].data, s[i].data);
    }
  }

  // ----- a tree in the heap

  ghost predicate PointsAs(x: Item, s: Spot)
    reads x
  {
    x.left == s.left && x.right == s.right && x.parent == s.parent
  }

  /** What a tree is known to look like: its in-order sequence and its layout. */
  class Shape {
    ghost var nodes: seq<Item>
    ghost var lay: Layout

    /** The nodes' pointers are those of the layout. */
    ghost predicate Coupled()
      reads this, nodes
    {
      forall x {:trigger PointsAs(x, lay[x])} :: x in nodes && x in lay ==> PointsAs(x, lay[x])
    }

    ghost predicate Tree(root: Item?)
      reads this, nodes
    {
      Places(nodes, lay) && Linked(lay, |nodes|, root) && Coupled()
    }

    /** The in-order sequence never decreases. */
    ghost predicate Sorted(cmp: Compare<Data>)
      reads this
    {
      NonDecreasing(nodes, cmp)
    }

    /** The node at a place, null outside the tree. */
    ghost function NodeAt(i: int): Item?
      reads this
    {
      if 0 <= i < |nodes| then nodes[i] else null
    }

    /** What may be used of a member x. */
    lemma Member(x: Item, root: Item?)
      requires Tree(root) && x in lay
      ensures x.left == lay[x].left && x.right == lay[x].right && x.parent == lay[x].parent
      ensures NodeOk(lay, |nodes|, x, root) && NodeAt(lay[x].pos) == x
    {
      assert ItemOk(nodes, lay, x);
      assert PointsAs(x, lay[x]);
    }

    lemma AllFit(root: Item?)
      requires Tree(root)
      ensures Fits(lay) && forall x :: x in lay ==> x in nodes
    {
      forall x | x in lay
        ensures x in nodes && PointsAs(x, lay[x])
      {
        assert ItemOk(nodes, lay, x);
      }
    }

    /** After the pointer writes, the layout follows. */
    ghost method PutBefore(item: Item, temp: Item, root: Item)
      requires Places(nodes, lay) && Linked(lay, |nodes|, root) && temp in lay && item !in lay && lay[temp].left != temp
      requires forall x {:trigger PointsAs(x, AddedBefore(lay, item, temp)[x])} :: x in lay.Keys + {item} ==>
        PointsAs(x, AddedBefore(lay, item, temp)[x])
      modifies this
      ensures Tree(root) && lay == AddedBefore(old(lay), item, temp)
      ensures nodes == Inserted(old(nodes), old(lay)[temp].pos, item)
    {
      AddBeforeKeepsLinks(nodes, lay, |nodes|, item, temp, root);
      assert ItemOk(nodes, lay, temp);
      PlacesAdd(nodes, lay, item, lay[temp].pos, AddedBefore(lay, item, temp));
      nodes, lay := Inserted(nodes, lay[temp].pos, item), AddedBefore(lay, item, temp);
    }

    ghost method PutAfter(item: Item, temp: Item, root: Item)
      requires Places(nodes, lay) && Linked(lay, |nodes|, root) && temp in lay && item !in lay
            && lay[temp].right == null
      requires forall x {:trigger PointsAs(x, AddedAfter(lay, item, temp)[x])} :: x in lay.Keys + {item} ==>
        PointsAs(x, AddedAfter(lay, item, temp)[x])
      modifies this
      ensures Tree(root) && lay == AddedAfter(old(lay), item, temp)
      ensures nodes == Inserted(old(nodes), old(lay)[temp].pos + 1, item)
    {
      AddAfterKeepsLinks(nodes, lay, |nodes|, item, temp, root);
      assert ItemOk(nodes, lay, temp);
      PlacesAdd(nodes, lay, item, lay[temp].pos + 1, AddedAfter(lay, item, temp));
      nodes, lay := Inserted(nodes, lay[temp].pos + 1, item), AddedAfter(lay, item, temp);
    }
  }

  // ----- walking

  method Minimum(tree: Item?, root: Item?, ghost t: Shape) returns (x: Item?)
    requires t.Tree(root) && (tree != null ==> tree in t.lay)
    ensures tree == null ==> x == null
    ensures tree != null ==> x in t.lay && x == t.NodeAt(t.lay[tree].lo) && t.lay[x].pos == t.lay[tree].lo
    ensures tree != null ==> x.left == null
  {
    if tree == null {
      return tree;
    }
    var temp: Item := tree;
    t.Member(temp, root);
    while temp.left != null
      invariant temp in t.lay && t.lay[temp].lo == t.lay[tree].lo
      decreases t.lay[temp].hi - t.lay[temp].lo
    {
      t.Member(temp, root);
      temp := temp.left;
      t.Member(temp, root);
    }
    t.Member(temp, root);
    return temp;
  }

  method Maximum(tree: Item?, root: Item?, ghost t: Shape) returns (x: Item?)
    requires t.Tree(root) && (tree != null ==> tree in t.lay)
    ensures tree == null ==> x == null
    ensures tree != null ==> x in t.lay && x == t.NodeAt(t.lay[tree].hi - 1) && t.lay[x].pos == t.lay[tree].hi - 1
    ensures tree != null ==> x.right == null
  {
    if tree == null {
      return tree;
    }
    var temp: Item := tree;
    t.Member(temp, root);
    while temp.right != null
      invariant temp in t.lay && t.lay[temp].hi == t.lay[tree].hi
      decreases t.lay[temp].hi - t.lay[temp].lo
    {
      t.Member(temp, root);
      temp := temp.right;
      t.Member(temp, root);
    }
    t.Member(temp, root);
    return temp;
  }

  /** The next node of the in-order sequence, null at the end. */
  method Successor(tree: Item, root: Item?, ghost t: Shape) returns (x: Item?)
    requires t.Tree(root) && tree in t.lay
    ensures x == t.NodeAt(t.lay[tree].pos + 1)
    ensures x != null ==> x in t.lay
  {
    t.Member(tree, root);
    if tree.right != null {
      x := Minimum(tree.right, root, t);
      return;
    }
    var temp := tree;
    while temp.parent != null && temp == temp.parent.right
      invariant temp in t.lay && t.lay[temp].hi == t.lay[tree].pos + 1
      decreases t.lay[temp].lo
    {
      t.Member(temp, root);
      temp := temp.parent;
      t.Member(temp, root);
    }
    t.Member(temp, root);
    if temp.parent != null {
      t.Member(temp.parent, root);
    }
    return temp.parent;
  }

  /** The previous node, null at the beginning. */
  method Predecessor(tree: Item, root: Item?, ghost t: Shape) returns (x: Item?)
    requires t.Tree(root) && tree in t.lay
    ensures x == t.NodeAt(t.lay[tree].pos - 1)
    ensures x != null ==> x in t.lay
  {
    t.Member(tree, root);
    if tree.left != null {
      x := Maximum(tree.left, root, t);
      return;
    }
    var temp := tree;
    while temp.parent != null && temp == temp.parent.left
      invariant temp in t.lay && t.lay[temp].lo == t.lay[tree].pos
      decreases |t.nodes| - t.lay[temp].hi
    {
      t.Member(temp, root);
      temp := temp.parent;
      t.Member(temp, root);
    }
    t.Member(temp, root);
    if temp.parent != null {
      t.Member(temp.parent, root);
    }
    return temp.parent;
  }

  lemma RootSpansAll(root: Item?, t: Shape)
    requires t.Tree(root)
    ensures root == null ==> t.nodes == []
    ensures root != null ==> root in t.lay && t.lay[root].lo == 0 && t.lay[root].hi == |t.nodes|
    ensures root != null ==> root.parent == null
  {
    if root != null {
      t.Member(root, root);
    }
  }

  /** The stretch of what may be nothing. */
  ghost function Stretch(t: Shape, x: Item?): int
    reads t
  {
    if x != null && x in t.lay then t.lay[x].hi - t.lay[x].lo else 0
  }

  /** bscl_bstree_new: a tree of one node. */
  method New(data: Data) returns (root: Item, ghost t: Shape)
    ensures fresh(root) && fresh(t) && root.data == data
    ensures t.Tree(root) && t.nodes == [root] && forall cmp :: t.Sorted(cmp)
  {
    root := new Item(data);
    t := new Shape;
    t.nodes, t.lay := [root], map[root := Spot(0, 0, 1, null, null, null)];
    OneNode(t, root);
  }

  lemma OneNode(t: Shape, root: Item)
    requires t.nodes == [root] && t.lay == map[root := Spot(0, 0, 1, null, null, null)]
    requires root.left == null && root.right == null && root.parent == null
    ensures t.Tree(root)
  {
    assert NodeOk(t.lay, 1, root, root) && PlaceOk(t.nodes, t.lay, 0) && ItemOk(t.nodes, t.lay, root);
    assert PointsAs(root, t.lay[root]);
  }

  /** The nodes below x in the order that bscl_bstree_print follows: left, node, right. */
  ghost function Traversal(x: Item?, root: Item?, t: Shape): (s: seq<Item>)
    requires t.Tree(root) && (x != null ==> x in t.lay)
    reads t, t.nodes
    decreases Stretch(t, x)
  {
    if x == null then []
    else
      t.Member(x, root);
      assert x in t.nodes;
      Children(x, root, t);
      Traversal(x.left, root, t) + [x] + Traversal(x.right, root, t)
  }

  lemma Children(x: Item, root: Item?, t: Shape)
    requires t.Tree(root) && x in t.lay
    ensures x.left != null ==> x.left in t.lay
    ensures x.right != null ==> x.right in t.lay
    ensures 0 <= Stretch(t, x.left) < Stretch(t, x) && 0 <= Stretch(t, x.right) < Stretch(t, x)
  {
    t.Member(x, root);
    if x.left != null {
      t.Member(x.left, root);
    }
    if x.right != null {
      t.Member(x.right, root);
    }
  }

  lemma {:induction false} TraversalIsStretch(x: Item?, root: Item?, t: Shape)
    requires t.Tree(root) && (x != null ==> x in t.lay)
    ensures x == null ==> Traversal(x, root, t) == []
    ensures x != null ==> 0 <= t.lay[x].lo <= t.lay[x].hi <= |t.nodes|
    ensures x != null ==> Traversal(x, root, t) == t.nodes[t.lay[x].lo..t.lay[x].hi]
    decreases Stretch(t, x)
  {
    if x != null {
      t.Member(x, root);
      Children(x, root, t);
      TraversalIsStretch(x.left, root, t);
      TraversalIsStretch(x.right, root, t);
      var s := t.lay[x];
      ThreeParts(t.nodes, s.lo, s.pos, s.hi);
      assert Traversal(x.left, root, t) == t.nodes[s.lo..s.pos];
      assert Traversal(x.right, root, t) == t.nodes[s.pos + 1..s.hi];
    }
  }

  lemma ThreeParts<T>(s: seq<T>, a: int, k: int, b: int)
    requires 0 <= a <= k < b <= |s|
    ensures s[a..b] == s[a..k] + [s[k]] + s[k + 1..b]
  {
  }

  /** The sequence that stands for a tree is what following its child pointers yields. */
  lemma SequenceIsTraversal(root: Item?, t: Shape)
    requires t.Tree(root)
    ensures Traversal(root, root, t) == t.nodes
  {
    RootSpansAll(root, t);
    TraversalIsStretch(root, root, t);
  }

  /** Following successors from the minimum visits every node once, in order. */
  method Walk(root: Item?, ghost t: Shape) returns (s: seq<Item>)
    requires t.Tree(root)
    ensures s == t.nodes
  {
    s := [];
    RootSpansAll(root, t);
    var x := Minimum(root, root, t);
    while x != null
      invariant |s| <= |t.nodes| && s == t.nodes[..|s|]
      invariant x == t.NodeAt(|s|)
      invariant x != null ==> x in t.lay && t.lay[x].pos == |s|
      decreases |t.nodes| - |s|
    {
      s := s + [x];
      x := Successor(x, root, t);
      NextPlace(t, root, |s|);
    }
  }

  lemma NextPlace(t: Shape, root: Item?, i: int)
    requires t.Tree(root) && 0 <= i
    ensures t.NodeAt(i) != null ==> t.NodeAt(i) in t.lay && t.lay[t.NodeAt(i)].pos == i
  {
    if i < |t.nodes| {
      assert PlaceOk(t.nodes, t.lay, i);
    }
  }

  // ----- searching

  /** A node with an equal key, exactly if there is one. */
  method Find(root: Item?, key: Data, cmp: Compare<Data>, ghost t: Shape) returns (x: Item?)
    requires t.Tree(root) && t.Sorted(cmp) && Consistent(cmp)
    ensures x != null ==> x in t.lay && cmp(key, x.data) == 0 && FirstMet(t.nodes, t.lay, key, cmp, t.lay[x].pos)
    ensures x == null ==> forall i :: 0 <= i < |t.nodes| ==> cmp(key, t.nodes[i].data) != 0
  {
    x := root;
    ghost var a, b := 0, |t.nodes|;
    RootSpansAll(root, t);
    while x != null
      invariant x == null ==> a == b
      invariant x != null ==> x in t.lay && a == t.lay[x].lo && b == t.lay[x].hi
      invariant 0 <= a <= b <= |t.nodes|
      invariant AllLess(t.nodes, key, cmp, a) && AllMore(t.nodes, key, cmp, b)
      decreases b - a
    {
      t.Member(x, root);
      var res := cmp(key, x.data);
      ghost var p := t.lay[x].pos;
      if res < 0 {
        MoreFrom(t.nodes, key, cmp, p);
        b := p;
        x := x.left;
      } else if res > 0 {
        LessTo(t.nodes, key, cmp, p);
        a := p + 1;
        x := x.right;
      } else {
        StopAt(t, key, cmp, x, root);
        return;
      }
    }
  }

  // ----- insertion

  /** Where the key goes: nothing before k is greater, nothing from k on is less, and if there are equal
      keys k is the place of one of them. */
  ghost predicate GoesAt(s: seq<Item>, key: Data, cmp: Compare<Data>, k: int) {
    && 0 <= k <= |s|
    && (forall i :: 0 <= i < k ==> cmp(s[i].data, key) <= 0)
    && (forall i :: k <= i < |s| ==> cmp(key, s[i].data) <= 0)
    && ((exists i :: 0 <= i < |s| && cmp(key, s[i].data) == 0) ==> k < |s| && cmp(key, s[k].data) == 0)
  }

  lemma BoundsMeet(s: seq<Item>, key: Data, cmp: Compare<Data>, k: int)
    requires Consistent(cmp) && 0 <= k <= |s| && AllLess(s, key, cmp, k) && AllMore(s, key, cmp, k)
    ensures GoesAt(s, key, cmp, k) && (k < |s| ==> cmp(key, s[k].data) != 0)
  {
    forall i | 0 <= i < k
      ensures cmp(s[i].data, key) <= 0
    {
      assert Antisymmetric(cmp, key, s[i].data);
    }
  }

  lemma EqualGoes(s: seq<Item>, key: Data, cmp: Compare<Data>, k: int)
    requires NonDecreasing(s, cmp) && Consistent(cmp) && 0 <= k < |s| && cmp(key, s[k].data) == 0
    ensures GoesAt(s, key, cmp, k)
  {
    assert Antisymmetric(cmp, key, s[k].data);
    forall i | 0 <= i < k
      ensures cmp(s[i].data, key) <= 0
    {
      assert InOrder(s, cmp, i, k) && Transitive(cmp, s[i].data, s[k].data, key);
    }
    forall i | k < i < |s|
      ensures cmp(key, s[i].data) <= 0
    {
      assert InOrder(s, cmp, k, i) && Transitive(cmp, key, s[k].data, s[i].data);
    }
  }

  lemma InsertedSorted(s: seq<Item>, item: Item, cmp: Compare<Data>, k: int)
    requires NonDecreasing(s, cmp) && GoesAt(s, item.data, cmp, k)
    ensures NonDecreasing(Inserted(s, k, item), cmp)
  {
    var r := Inserted(s, k, item);
    forall i, j | 0 <= i < j < |r|
      ensures InOrder(r, cmp, i, j)
    {
      if i != k && j != k {
        assert InOrder(s, cmp, if i < k then i else i - 1, if j < k then j else j - 1);
      }
    }
  }

  ghost function Some(x: Item?): set<Item> {
    if x == null then {} else {x}
  }

  /** The pointer writes of the equal-key case; with no left child they are those of the left case. */
  method SpliceLeft(item: Item, temp: Item)
    requires item != temp && temp.left != item && temp.left != temp
    modifies item, temp, Some(temp.left)
    ensures item.left == old(temp.left) && item.parent == temp && item.right == old(item.right)
    ensures temp.left == item && temp.right == old(temp.right) && temp.parent == old(temp.parent)
    ensures item.left != null ==> item.left.parent == item
    ensures item.left != null ==> item.left.left == old(temp.left.left) && item.left.right == old(temp.left.right)
  {
    item.left := temp.left;
    item.parent := temp;
    if item.left != null {
      item.left.parent := item;
    }
    temp.left := item;
  }

  /** temp gets item as its left child, which takes over temp's left subtree. */
  method HangBefore(item: Item, temp: Item, root: Item, ghost t: Shape)
    requires t.Tree(root) && temp in t.lay && item !in t.lay && item !in t.nodes
    requires item.left == null && item.right == null && item.parent == null
    modifies t, t.nodes, item
    ensures t.Tree(root) && t.lay == AddedBefore(old(t.lay), item, temp)
    ensures t.nodes == Inserted(old(t.nodes), old(t.lay)[temp].pos, item)
  {
    t.Member(temp, root);
    if temp.left != null {
      t.Member(temp.left, root);
    }
    ghost var g := t.lay;
    ghost var g' := AddedBefore(g, item, temp);
    SpliceLeft(item, temp);
    forall x | x in g.Keys + {item}
      ensures PointsAs(x, g'[x])
    {
      if x != item {
        assert ItemOk(t.nodes, g, x) && old(PointsAs(x, g[x]));
      }
    }
    t.PutBefore(item, temp, root);
  }

  /** temp, which has no left child, gets item as its left child. */
  method HangLeft(item: Item, temp: Item, root: Item, ghost t: Shape)
    requires t.Tree(root) && temp in t.lay && item !in t.lay && item !in t.nodes && temp.left == null
    requires item.left == null && item.right == null && item.parent == null
    modifies t, t.nodes, item
    ensures t.Tree(root) && t.lay == AddedBefore(old(t.lay), item, temp)
    ensures t.nodes == Inserted(old(t.nodes), old(t.lay)[temp].pos, item)
  {
    t.Member(temp, root);
    ghost var g := t.lay;
    ghost var g' := AddedBefore(g, item, temp);
    temp.left := item;
    item.parent := temp;
    forall x | x in g.Keys + {item}
      ensures PointsAs(x, g'[x])
    {
      if x != item {
        assert ItemOk(t.nodes, g, x) && old(PointsAs(x, g[x]));
      }
    }
    t.PutBefore(item, temp, root);
  }

  /** temp, which has no right child, gets item as its right child. */
  method HangAfter(item: Item, temp: Item, root: Item, ghost t: Shape)
    requires t.Tree(root) && temp in t.lay && item !in t.lay && item !in t.nodes && temp.right == null
    requires item.left == null && item.right == null && item.parent == null
    modifies t, t.nodes, item
    ensures t.Tree(root) && t.lay == AddedAfter(old(t.lay), item, temp)
    ensures t.nodes == Inserted(old(t.nodes), old(t.lay)[temp].pos + 1, item)
  {
    t.Member(temp, root);
    ghost var g := t.lay;
    ghost var g' := AddedAfter(g, item, temp);
    temp.right := item;
    item.parent := temp;
    forall x | x in g.Keys + {item}
      ensures PointsAs(x, g'[x])
    {
      if x != item {
        assert ItemOk(t.nodes, g, x) && old(PointsAs(x, g[x]));
      }
    }
    t.PutAfter(item, temp, root);
  }

  /** The key belongs somewhere in x's stretch. */
  ghost predicate Within(t: Shape, key: Data, cmp: Compare<Data>, x: Item)
    reads t
  {
    && x in t.lay && 0 <= t.lay[x].lo < t.lay[x].hi <= |t.nodes|
    && AllLess(t.nodes, key, cmp, t.lay[x].lo) && AllMore(t.nodes, key, cmp, t.lay[x].hi)
  }

  lemma WithinRoot(t: Shape, key: Data, cmp: Compare<Data>, root: Item)
    requires t.Tree(root)
    ensures Within(t, key, cmp, root)
  {
    t.Member(root, root);
  }

  /** The nth ancestor of x, x itself for 0. */
  ghost function Ancestor(g: Layout, x: Item?, n: nat): Item? {
    if n == 0 then x
    else
      var y := Ancestor(g, x, n - 1);
      if y == null || y !in g then null else g[y].parent
  }

  ghost predicate AncestorDiffers(g: Layout, key: Data, cmp: Compare<Data>, x: Item, n: nat) {
    var y := Ancestor(g, x, n);
    n > 0 && y != null ==> cmp(key, y.data) != 0
  }

  /** If the node at k has an equal key, it is the first such node on the way down to it: none of its proper ancestors
      has one. */
  ghost predicate FirstMet(s: seq<Item>, g: Layout, key: Data, cmp: Compare<Data>, k: int) {
    0 <= k < |s| && cmp(key, s[k].data) == 0 ==>
      forall n: nat {:trigger AncestorDiffers(g, key, cmp, s[k], n)} :: AncestorDiffers(g, key, cmp, s[k], n)
  }

  /** A proper ancestor's place is outside the stretch of what is below it. */
  lemma {:induction false} AncestorOutside(nodes: seq<Item>, g: Layout, size: int, x: Item, n: nat, root: Item)
    requires Places(nodes, g) && Linked(g, size, root) && x in g
    ensures var y := Ancestor(g, x, n);
            y != null ==>
              && y in g && 0 <= g[y].pos < |nodes| && nodes[g[y].pos] == y && g[y].lo <= g[x].lo && g[x].hi <= g[y].hi
              && (n > 0 ==> g[y].pos < g[x].lo || g[x].hi <= g[y].pos)
  {
    assert ItemOk(nodes, g, x);
    if n > 0 {
      AncestorOutside(nodes, g, size, x, n - 1, root);
      var z := Ancestor(g, x, n - 1);
      if z != null && g[z].parent != null {
        ParentOutside(nodes, g, size, z, root);
      }
    }
  }

  lemma ParentOutside(nodes: seq<Item>, g: Layout, size: int, z: Item, root: Item)
    requires Places(nodes, g) && Linked(g, size, root) && z in g && g[z].parent != null
    ensures var y := g[z].parent;
            && y in g && 0 <= g[y].pos < |nodes| && nodes[g[y].pos] == y && g[y].lo <= g[z].lo && g[z].hi <= g[y].hi
            && (g[y].pos < g[z].lo || g[z].hi <= g[y].pos)
  {
    assert NodeOk(g, size, z, root);
    assert NodeOk(g, size, g[z].parent, root) && ItemOk(nodes, g, g[z].parent);
  }

  lemma GoLeft(t: Shape, key: Data, cmp: Compare<Data>, x: Item, root: Item)
    requires t.Tree(root) && t.Sorted(cmp) && Consistent(cmp) && Within(t, key, cmp, x) && cmp(key, x.data) < 0
    ensures x.left != null ==> Within(t, key, cmp, x.left) && Stretch(t, x.left) < Stretch(t, x)
    ensures x.left == null ==> GoesAt(t.nodes, key, cmp, t.lay[x].pos)
    ensures x.left == null ==> FirstMet(t.nodes, t.lay, key, cmp, t.lay[x].pos)
  {
    t.Member(x, root);
    MoreFrom(t.nodes, key, cmp, t.lay[x].pos);
    if x.left == null {
      BoundsMeet(t.nodes, key, cmp, t.lay[x].pos);
    } else {
      t.Member(x.left, root);
    }
  }

  lemma GoRight(t: Shape, key: Data, cmp: Compare<Data>, x: Item, root: Item)
    requires t.Tree(root) && t.Sorted(cmp) && Consistent(cmp) && Within(t, key, cmp, x) && cmp(key, x.data) > 0
    ensures x.right != null ==> Within(t, key, cmp, x.right) && Stretch(t, x.right) < Stretch(t, x)
    ensures x.right == null ==> GoesAt(t.nodes, key, cmp, t.lay[x].pos + 1)
    ensures x.right == null ==> FirstMet(t.nodes, t.lay, key, cmp, t.lay[x].pos + 1)
  {
    t.Member(x, root);
    LessTo(t.nodes, key, cmp, t.lay[x].pos);
    if x.right == null {
      BoundsMeet(t.nodes, key, cmp, t.lay[x].pos + 1);
    } else {
      t.Member(x.right, root);
    }
  }

  lemma StopAt(t: Shape, key: Data, cmp: Compare<Data>, x: Item, root: Item)
    requires t.Tree(root) && t.Sorted(cmp) && Consistent(cmp) && Within(t, key, cmp, x) && cmp(key, x.data) == 0
    ensures GoesAt(t.nodes, key, cmp, t.lay[x].pos) && FirstMet(t.nodes, t.lay, key, cmp, t.lay[x].pos)
  {
    t.Member(x, root);
    EqualGoes(t.nodes, key, cmp, t.lay[x].pos);
    forall n: nat
      ensures AncestorDiffers(t.lay, key, cmp, x, n)
    {
      AncestorOutside(t.nodes, t.lay, |t.nodes|, x, n, root);
    }
  }

  /** One node is added where its key belongs; among equal keys it comes directly before the one met first. */
  method Insert(root: Item, data: Data, cmp: Compare<Data>, ghost t: Shape) returns (item: Item, ghost k: int,
      ghost at: Item)
    requires t.Tree(root) && t.Sorted(cmp) && Consistent(cmp)
    modifies t, t.nodes
    ensures t.Tree(root) && t.Sorted(cmp) && fresh(item) && item.data == data && at in old(t.lay)
    ensures t.lay == if cmp(data, at.data) > 0 then AddedAfter(old(t.lay), item, at)
                     else AddedBefore(old(t.lay), item, at)
    ensures GoesAt(old(t.nodes), data, cmp, k) && t.nodes == Inserted(old(t.nodes), k, item)
    ensures FirstMet(old(t.nodes), old(t.lay), data, cmp, k)
  {
    var temp: Item := root;
    item := new Item(data);
    WithinRoot(t, data, cmp, root);
    while true
      invariant t.nodes == old(t.nodes) && t.lay == old(t.lay) && t.Tree(root)
      invariant fresh(item) && item.data == data && item.left == null && item.right == null && item.parent == null
      invariant Within(t, data, cmp, temp)
      decreases Stretch(t, temp)
    {
      var res := cmp(data, temp.data);
      k := t.lay[temp].pos;
      if res < 0 {
        GoLeft(t, data, cmp, temp, root);
        if temp.left != null {
          temp := temp.left;
        } else {
          HangLeft(item, temp, root, t);
          break;
        }
      } else if res > 0 {
        GoRight(t, data, cmp, temp, root);
        if temp.right != null {
          temp := temp.right;
        } else {
          k := k + 1;
          HangAfter(item, temp, root, t);
          break;
        }
      } else {
        StopAt(t, data, cmp, temp, root);
        HangBefore(item, temp, root, t);
        break;
      }
    }
    at := temp;
    InsertedSorted(old(t.nodes), item, cmp, k);
  }

  // ----- removal, on layouts

  /** Where a boundary v goes when place k is taken out. */
  function Down(v: int, k: int): int {
    if v > k then v - 1 else v
  }

  function Instead(v: Item?, item: Item, x: Item?): Item? {
    if v == item then x else v
  }

  /** The child of a node that has at most one. */
  function OnlyChild(s: Spot): Item? {
    if s.left == null then s.right else s.left
  }

  function SpotDown(s: Spot, k: int, item: Item, x: Item?, p: Item?): Spot {
    Spot(Down(s.pos, k), Down(s.lo, k), Down(s.hi, k), Instead(s.left, item, x), Instead(s.right, item, x),
        Instead(s.parent, item, p))
  }

  /** item taken out, its only child, if any, in its stead. */
  function Dropped(g: Layout, item: Item): Layout
    requires item in g
  {
    map y | y in g && y != item :: SpotDown(g[y], g[item].pos, item, OnlyChild(g[item]), g[item].parent)
  }

  function Renamed(s: Spot, item: Item, x: Item): Spot {
    s.(left := Instead(s.left, item, x), right := Instead(s.right, item, x), parent := Instead(s.parent, item, x))
  }

  /** x, not a node so far, in the place of item. */
  function Replaced(g: Layout, item: Item, x: Item): Layout
    requires item in g && x !in g
  {
    map y | y in g.Keys - {item} + {x} :: Renamed(if y == x then g[item] else g[y], item, x)
  }

  lemma DropLeft(nodes: seq<Item>, g: Layout, n: int, item: Item, root: Item, x: Item)
    requires Places(nodes, g) && Linked(g, n, root) && item in g && (g[item].left == null || g[item].right == null)
    requires x in g && x != item
    ensures LeftOk(Dropped(g, item), x)
  {
    assert ItemOk(nodes, g, item) && ItemOk(nodes, g, x);
    assert NodeOk(g, n, x, root) && NodeOk(g, n, item, root);
  }

  lemma DropRight(nodes: seq<Item>, g: Layout, n: int, item: Item, root: Item, x: Item)
    requires Places(nodes, g) && Linked(g, n, root) && item in g && (g[item].left == null || g[item].right == null)
    requires x in g && x != item
    ensures RightOk(Dropped(g, item), x)
  {
    assert ItemOk(nodes, g, item) && ItemOk(nodes, g, x);
    assert NodeOk(g, n, x, root) && NodeOk(g, n, item, root);
  }

  lemma DropParent(nodes: seq<Item>, g: Layout, n: int, item: Item, root: Item, x: Item)
    requires Places(nodes, g) && Linked(g, n, root) && item in g && (g[item].left == null || g[item].right == null)
    requires x in g && x != item
    ensures var g' := Dropped(g, item);
            && ParentOk(g', n - 1, x, Instead(root, item, OnlyChild(g[item])))
            && 0 <= g'[x].lo <= g'[x].pos < g'[x].hi <= n - 1
  {
    assert ItemOk(nodes, g, item) && ItemOk(nodes, g, x);
    assert NodeOk(g, n, x, root) && NodeOk(g, n, item, root);
  }

  lemma DropKeepsLinks(nodes: seq<Item>, g: Layout, n: int, item: Item, root: Item)
    requires Places(nodes, g) && Linked(g, n, root) && item in g && (g[item].left == null || g[item].right == null)
    ensures Linked(Dropped(g, item), n - 1, Instead(root, item, OnlyChild(g[item])))
  {
    var g', root' := Dropped(g, item), Instead(root, item, OnlyChild(g[item]));
    assert NodeOk(g, n, item, root);
    forall x | x in g'
      ensures NodeOk(g', n - 1, x, root')
    {
      DropLeft(nodes, g, n, item, root, x);
      DropRight(nodes, g, n, item, root, x);
      DropParent(nodes, g, n, item, root, x);
    }
  }

  lemma PlacesDrop(s: seq<Item>, g: Layout, item: Item)
    requires Places(s, g) && item in g
    ensures Places(Removed(s, g[item].pos), Dropped(g, item))
  {
    var k := g[item].pos;
    var nodes, g' := Removed(s, k), Dropped(g, item);
    assert ItemOk(s, g, item);
    forall i | 0 <= i < |nodes|
      ensures PlaceOk(nodes, g', i)
    {
      assert PlaceOk(s, g, if i < k then i else i + 1);
    }
    forall x | x in g'
      ensures ItemOk(nodes, g', x)
    {
      assert ItemOk(s, g, x);
    }
  }

  lemma ReplaceKeepsLinks(g: Layout, n: int, item: Item, x: Item, root: Item)
    requires Linked(g, n, root) && item in g && x !in g
    ensures Linked(Replaced(g, item, x), n, Instead(root, item, x))
  {
    var g', root' := Replaced(g, item, x), Instead(root, item, x);
    forall y | y in g'
      ensures NodeOk(g', n, y, root')
    {
      assert NodeOk(g, n, if y == x then item else y, root);
      assert LeftOk(g', y) && RightOk(g', y) && ParentOk(g', n, y, root');
    }
  }

  lemma PlacesReplace(s: seq<Item>, g: Layout, item: Item, x: Item)
    requires Places(s, g) && item in g && x !in g
    ensures 0 <= g[item].pos < |s| && Places(s[g[item].pos := x], Replaced(g, item, x))
  {
    assert ItemOk(s, g, item);
    var nodes, g' := s[g[item].pos := x], Replaced(g, item, x);
    forall i | 0 <= i < |nodes|
      ensures PlaceOk(nodes, g', i)
    {
      assert PlaceOk(s, g, i);
    }
    forall y | y in g'
      ensures ItemOk(nodes, g', y)
    {
      if y != x {
        assert ItemOk(s, g, y);
      }
    }
  }

  // ----- removal, pointer writes

  function SetLeft(h: Layout, y: Item?, v: Item?): (r: Layout)
    ensures r.Keys == h.Keys
  {
    if y != null && y in h then h[y := h[y].(left := v)] else h
  }

  function SetRight(h: Layout, y: Item?, v: Item?): (r: Layout)
    ensures r.Keys == h.Keys
  {
    if y != null && y in h then h[y := h[y].(right := v)] else h
  }

  function SetParent(h: Layout, y: Item?, v: Item?): (r: Layout)
    ensures r.Keys == h.Keys
  {
    if y != null && y in h then h[y := h[y].(parent := v)] else h
  }

  /** The nodes of h point where it says. */
  ghost predicate Fits(h: Layout)
    reads h.Keys
  {
    forall x {:trigger PointsAs(x, h[x])} :: x in h ==> PointsAs(x, h[x])
  }

  method PutLeft(y: Item, v: Item?, ghost h: Layout)
    requires y in h && Fits(h)
    modifies y`left
    ensures Fits(SetLeft(h, y, v))
  {
    assert PointsAs(y, h[y]);
    y.left := v;
    forall x | x in h
      ensures PointsAs(x, SetLeft(h, y, v)[x])
    {
      assert old(PointsAs(x, h[x]));
    }
  }

  method PutRight(y: Item, v: Item?, ghost h: Layout)
    requires y in h && Fits(h)
    modifies y`right
    ensures Fits(SetRight(h, y, v))
  {
    assert PointsAs(y, h[y]);
    y.right := v;
    forall x | x in h
      ensures PointsAs(x, SetRight(h, y, v)[x])
    {
      assert old(PointsAs(x, h[x]));
    }
  }

  method PutParent(y: Item, v: Item?, ghost h: Layout)
    requires y in h && Fits(h)
    modifies y`parent
    ensures Fits(SetParent(h, y, v))
  {
    assert PointsAs(y, h[y]);
    y.parent := v;
    forall x | x in h
      ensures PointsAs(x, SetParent(h, y, v)[x])
    {
      assert old(PointsAs(x, h[x]));
    }
  }

  /** x leaves its place below item and takes over item's right subtree. */
  function Detached(h: Layout, item: Item, x: Item): (r: Layout)
    requires item in h && x in h
    ensures r.Keys == h.Keys
  {
    var h1 := SetParent(h, h[x].right, h[x].parent);
    var h2 := SetLeft(h1, h[x].parent, h[x].right);
    SetParent(SetRight(h2, x, h[item].right), h[item].right, x)
  }

  /** x takes over item's left subtree. */
  function Adopted(h: Layout, item: Item, x: Item): (r: Layout)
    requires item in h && x in h
    ensures r.Keys == h.Keys
  {
    SetParent(SetLeft(h, x, h[item].left), h[item].left, x)
  }

  /** x hangs where item hung. */
  function Reattached(h: Layout, item: Item, x: Item?, root: Item): (r: Layout)
    requires item in h
    ensures r.Keys == h.Keys
  {
    var p := h[item].parent;
    var h1 := if item == root || p == null || p !in h then h else if h[p].left == item then SetLeft(h, p,
        x) else SetRight(h, p, x);
    SetParent(h1, x, p)
  }

  method Detach(item: Item, x: Item, ghost h: Layout)
    requires Fits(h) && item in h && x in h && x != item && h[x].parent != x && h[x].parent != item
    requires h[x].parent != null && h[x].parent in h && h[item].right != null && h[item].right in h
    requires h[x].right != null ==> h[x].right in h && h[x].right != x
    modifies h.Keys
    ensures Fits(Detached(h, item, x))
  {
    assert PointsAs(x, h[x]) && PointsAs(item, h[item]);
    ghost var h1 := SetParent(h, h[x].right, h[x].parent);
    if x.right != null {
      PutParent(x.right, x.parent, h);
    }
    assert PointsAs(x, h1[x]);
    ghost var h2 := SetLeft(h1, h[x].parent, h[x].right);
    PutLeft(x.parent, x.right, h1);
    assert PointsAs(item, h2[item]);
    ghost var h3 := SetRight(h2, x, h[item].right);
    PutRight(x, item.right, h2);
    assert PointsAs(x, h3[x]);
    PutParent(x.right, x, h3);
  }

  method Adopt(item: Item, x: Item, ghost h: Layout)
    requires Fits(h) && item in h && x in h && x != item && (h[item].left != null ==> h[item].left in h)
    modifies h.Keys
    ensures Fits(Adopted(h, item, x))
  {
    assert PointsAs(item, h[item]);
    ghost var h1 := SetLeft(h, x, h[item].left);
    PutLeft(x, item.left, h);
    assert PointsAs(x, h1[x]);
    if x.left != null {
      PutParent(x.left, x, h1);
    }
  }

  method Reattach(tree: Item, item: Item, x: Item?, ghost h: Layout) returns (root: Item?)
    requires Fits(h) && item in h && (x != null ==> x in h) && h[item].parent != item
    requires item != tree ==> h[item].parent != null && h[item].parent in h
    modifies h.Keys
    ensures Fits(Reattached(h, item, x, tree)) && root == Instead(tree, item, x)
  {
    root := tree;
    assert PointsAs(item, h[item]);
    ghost var h1 := h;
    if item == tree {
      root := x;
    } else {
      assert PointsAs(item.parent, h[item.parent]);
      if item.parent.left == item {
        h1 := SetLeft(h, item.parent, x);
        PutLeft(item.parent, x, h);
      } else {
        h1 := SetRight(h, item.parent, x);
        PutRight(item.parent, x, h);
      }
    }
    assert PointsAs(item, h1[item]);
    if x != null {
      PutParent(x, item.parent, h1);
    }
  }

  // ----- removal, writes against layouts

  /** h has the pointers of g'. */
  ghost predicate Alike(h: Layout, g': Layout) {
    forall y {:trigger g'[y]} :: y in g' ==> y in h && SameLinks(h[y], g'[y])
  }

  lemma AlikeFits(h: Layout, g': Layout)
    requires Fits(h) && Alike(h, g')
    ensures Fits(g')
  {
    forall y | y in g'
      ensures PointsAs(y, g'[y])
    {
      assert PointsAs(y, h[y]) && SameLinks(h[y], g'[y]);
    }
  }

  ghost predicate SameLinks(a: Spot, b: Spot) {
    a.left == b.left && a.right == b.right && a.parent == b.parent
  }

  lemma DroppedLinks(nodes: seq<Item>, g: Layout, n: int, item: Item, root: Item, y: Item)
    requires Places(nodes, g) && Linked(g, n, root) && item in g && (g[item].left == null || g[item].right == null)
    requires y in g && y != item
    ensures SameLinks(Reattached(g, item, OnlyChild(g[item]), root)[y], Dropped(g, item)[y])
  {
    assert NodeOk(g, n, y, root) && NodeOk(g, n, item, root);
    var x := OnlyChild(g[item]);
    if x != null {
      assert NodeOk(g, n, x, root);
    }
  }

  /** The nodes around item and x, the minimum of item's right subtree, are different ones. */
  ghost predicate Apart(g: Layout, item: Item, x: Item)
    requires item in g && x in g
  {
    var q, p, l, ir, xr := g[x].parent, g[item].parent, g[item].left, g[item].right, g[x].right;
    && x != item && q != null && q in g && l != null && l in g && ir != null && ir in g && g[x].left == null
    && (xr != null ==> xr in g && xr != item && xr != x && xr != ir && xr != l && g[xr].parent == x)
    && l != ir && l != item && ir != item && l != x && p != x && p != item && q != x
    && (p != null ==> p in g && p != q && (g[p].left == item) != (g[p].right == item))
    && (ir != x ==> q != item && g[q].left == x && g[q].right != x)
    && (ir == x ==> q == item)
  }

  lemma MinimumApart(nodes: seq<Item>, g: Layout, n: int, item: Item, x: Item, root: Item)
    requires Places(nodes, g) && Linked(g, n, root) && item in g && x in g
    requires g[item].left != null && g[item].right != null && g[x].pos == g[item].pos + 1 && g[x].left == null
    ensures Apart(g, item, x)
  {
    assert NodeOk(g, n, item, root) && NodeOk(g, n, x, root);
    assert NodeOk(g, n, g[item].left, root) && NodeOk(g, n, g[item].right, root);
    assert ItemOk(nodes, g, item) && ItemOk(nodes, g, x);
    if g[x].right != null {
      assert NodeOk(g, n, g[x].right, root);
    }
    if g[item].parent != null {
      assert NodeOk(g, n, g[item].parent, root) && ItemOk(nodes, g, g[item].parent);
    }
    if g[x].parent != null {
      assert NodeOk(g, n, g[x].parent, root) && ItemOk(nodes, g, g[x].parent);
    }
  }

  /** y points to item or x only as their own pointers answer. */
  ghost predicate Answered(g: Layout, item: Item, x: Item, y: Item, root: Item)
    requires item in g && x in g && y in g
  {
    && (g[y].left == item ==> y == g[item].parent) && (g[y].right == item ==> y == g[item].parent)
    && (g[y].left == x ==> y == g[x].parent) && (g[y].right == x ==> y == g[x].parent)
    && (g[y].parent == item <==> y == g[item].left || y == g[item].right)
    && (g[y].parent == x <==> y == g[x].right)
    && (item == root <==> g[item].parent == null)
  }

  lemma MembersAnswer(g: Layout, n: int, item: Item, x: Item, y: Item, root: Item)
    requires Linked(g, n, root) && item in g && x in g && y in g && g[x].left == null
    ensures Answered(g, item, x, y, root)
  {
    assert NodeOk(g, n, item, root) && NodeOk(g, n, x, root) && NodeOk(g, n, y, root);
  }

  /** The layout without item when both children are there: its successor x leaves its place and takes item's. */
  function Taken(g: Layout, item: Item, x: Item): Layout
    requires item in g && x in g && x != item
  {
    Replaced(Dropped(g, x), item, x)
  }

  /** All pointer writes of that case. */
  function Written(g: Layout, item: Item, x: Item, root: Item): Layout
    requires item in g && x in g && x != item
  {
    Reattached(Adopted(if x == g[item].right then g else Detached(g, item, x), item, x), item, x, root)
  }

  lemma TakenNear(g: Layout, item: Item, x: Item, y: Item, root: Item)
    requires item in g && x in g && y in g && y != item && Apart(g, item, x) && Answered(g, item, x, y, root)
    requires x == g[item].right
    ensures SameLinks(Written(g, item, x, root)[y], Taken(g, item, x)[y])
  {
  }

  /** What the writes before the last two amount to. */
  lemma SplicedFar(g: Layout, item: Item, x: Item, y: Item)
    requires item in g && x in g && y in g && Apart(g, item, x) && x != g[item].right
    ensures var h := Adopted(Detached(g, item, x), item, x);
            && h[y].left == (if y == x then g[item].left else if y == g[x].parent then g[x].right else g[y].left)
            && h[y].right == (if y == x then g[item].right else g[y].right)
            && (y != x && y != item
                ==> h[y].parent == if y == g[x].right then g[x].parent
                    else if y == g[item].left || y == g[item].right then x else g[y].parent)
            && h[item].parent == g[item].parent
  {
  }

  lemma TakenFar(g: Layout, item: Item, x: Item, y: Item, root: Item)
    requires item in g && x in g && y in g && y != item && Apart(g, item, x) && Answered(g, item, x, y, root)
    requires x != g[item].right
    ensures SameLinks(Written(g, item, x, root)[y], Taken(g, item, x)[y])
  {
    var h := Adopted(Detached(g, item, x), item, x);
    SplicedFar(g, item, x, y);
    if g[item].parent != null {
      SplicedFar(g, item, x, g[item].parent);
    }
    ReattachedAt(h, item, x, root, y);
    TakenAt(g, item, x, y);
  }

  lemma ReattachedAt(h: Layout, item: Item, x: Item, root: Item, y: Item)
    requires item in h && x in h && y in h && x != h[item].parent
    ensures var r, p := Reattached(h, item, x, root), h[item].parent;
            var reached := item != root && p != null && y == p;
            && r[y].left == (if reached && h[y].left == item then x else h[y].left)
            && r[y].right == (if reached && h[y].left != item then x else h[y].right)
            && r[y].parent == (if y == x then p else h[y].parent)
  {
  }

  lemma TakenAt(g: Layout, item: Item, x: Item, y: Item)
    requires item in g && x in g && y in g && y != item && x != item && g[x].left == null
    ensures var s := g[if y == x then item else y];
            var t, xr, q := Taken(g, item, x)[y], g[x].right, g[x].parent;
            && t.left == Instead(Instead(s.left, x, xr), item, x)
            && t.right == Instead(Instead(s.right, x, xr), item, x)
            && t.parent == Instead(Instead(s.parent, x, q), item, x)
  {
  }

  // ----- removal

  lemma WrittenIsTaken(nodes: seq<Item>, g: Layout, n: int, item: Item, x: Item, root: Item)
    requires Places(nodes, g) && Linked(g, n, root) && item in g && x in g && x != item
    requires g[item].left != null && g[item].right != null && g[x].pos == g[item].pos + 1 && g[x].left == null
    ensures Apart(g, item, x) && Alike(Written(g, item, x, root), Taken(g, item, x))
  {
    MinimumApart(nodes, g, n, item, x, root);
    forall y | y in Taken(g, item, x)
      ensures SameLinks(Written(g, item, x, root)[y], Taken(g, item, x)[y])
    {
      assert y in g && y != item;
      MembersAnswer(g, n, item, x, y, root);
      if x == g[item].right {
        TakenNear(g, item, x, y, root);
      } else {
        TakenFar(g, item, x, y, root);
      }
    }
  }

  lemma TakenKeepsLinks(nodes: seq<Item>, g: Layout, n: int, item: Item, x: Item, root: Item)
    requires Places(nodes, g) && n == |nodes| && Linked(g, n, root) && item in g && x in g && x != item && x != root
    requires g[x].left == null && g[x].pos == g[item].pos + 1
    ensures Linked(Taken(g, item, x), n - 1, Instead(root, item, x))
    ensures Places(Removed(nodes, g[item].pos), Taken(g, item, x))
  {
    var k := g[item].pos;
    assert ItemOk(nodes, g, item) && ItemOk(nodes, g, x);
    DropKeepsLinks(nodes, g, n, x, root);
    PlacesDrop(nodes, g, x);
    var d := Dropped(g, x);
    ReplaceKeepsLinks(d, n - 1, item, x, root);
    PlacesReplace(Removed(nodes, k + 1), d, item, x);
    assert Removed(nodes, k + 1)[k := x] == Removed(nodes, k);
  }

  /** After the writes, the layout follows. */
  ghost method Follow(t: Shape, item: Item, root: Item?, g': Layout)
    requires item in t.lay && Places(Removed(t.nodes, t.lay[item].pos), g') && Places(t.nodes, t.lay)
    requires Linked(g', |t.nodes| - 1, root) && Fits(g')
    modifies t
    ensures t.Tree(root) && t.nodes == Removed(old(t.nodes), old(t.lay)[item].pos) && t.lay == g'
  {
    assert ItemOk(t.nodes, t.lay, item);
    t.nodes, t.lay := Removed(t.nodes, t.lay[item].pos), g';
    forall x | x in t.nodes && x in t.lay
      ensures PointsAs(x, t.lay[x])
    {
    }
  }

  /** The layout without item: its only child in its stead, or its successor if both children are there. */
  ghost function Without(g: Layout, item: Item, nodes: seq<Item>): Layout
    requires item in g && Places(nodes, g)
  {
    assert ItemOk(nodes, g, item);
    var k := g[item].pos + 1;
    if g[item].left == null || g[item].right == null || k == |nodes| then Dropped(g, item)
    else
      assert PlaceOk(nodes, g, k);
      Taken(g, item, nodes[k])
  }

  /** Takes item out of its tree; every other node keeps its place in the order. */
  method RemoveItem(tree: Item, item: Item, ghost t: Shape) returns (root: Item?)
    requires t.Tree(tree) && item in t.lay
    modifies t, t.nodes
    ensures t.Tree(root) && t.nodes == Removed(old(t.nodes), old(t.lay)[item].pos)
    ensures t.lay == old(Without(t.lay, item, t.nodes))
  {
    if item.left == null || item.right == null {
      root := RemoveWithOne(tree, item, t);
    } else {
      root := RemoveWithTwo(tree, item, t);
    }
  }

  method RemoveWithOne(tree: Item, item: Item, ghost t: Shape) returns (root: Item?)
    requires t.Tree(tree) && item in t.lay && (item.left == null || item.right == null)
    modifies t, t.nodes
    ensures t.Tree(root) && t.nodes == Removed(old(t.nodes), old(t.lay)[item].pos)
    ensures t.lay == old(Without(t.lay, item, t.nodes))
  {
    ghost var g := t.lay;
    t.Member(item, tree);
    t.AllFit(tree);
    var x: Item?;
    if item.left == null {
      x := item.right;
    } else {
      x := item.left;
    }
    root := Reattach(tree, item, x, g);
    ghost var h, g' := Reattached(g, item, x, tree), Dropped(g, item);
    forall y | y in g'
      ensures PointsAs(y, g'[y])
    {
      DroppedLinks(t.nodes, g, |t.nodes|, item, tree, y);
      assert PointsAs(y, h[y]);
    }
    DropKeepsLinks(t.nodes, g, |t.nodes|, item, tree);
    PlacesDrop(t.nodes, g, item);
    Follow(t, item, root, g');
  }

  method RemoveWithTwo(tree: Item, item: Item, ghost t: Shape) returns (root: Item?)
    requires t.Tree(tree) && item in t.lay && item.left != null && item.right != null
    modifies t, t.nodes
    ensures t.Tree(root) && t.nodes == Removed(old(t.nodes), old(t.lay)[item].pos)
    ensures t.lay == old(Without(t.lay, item, t.nodes))
  {
    t.Member(item, tree);
    t.Member(item.right, tree);
    var x := Minimum(item.right, tree, t);
    t.Member(x, tree);
    root := Splice(tree, item, x, t);
    FollowTaken(t, item, x, tree);
  }

  ghost method FollowTaken(t: Shape, item: Item, x: Item, root: Item)
    requires Places(t.nodes, t.lay) && Linked(t.lay, |t.nodes|, root) && item in t.lay && x in t.lay && x != item
          && x != root
    requires t.lay[x].left == null && t.lay[x].pos == t.lay[item].pos + 1 && Fits(Taken(t.lay, item, x))
    modifies t
    ensures t.Tree(Instead(root, item, x)) && t.nodes == Removed(old(t.nodes), old(t.lay)[item].pos)
    ensures t.lay == old(Taken(t.lay, item, x))
  {
    TakenKeepsLinks(t.nodes, t.lay, |t.nodes|, item, x, root);
    Follow(t, item, Instead(root, item, x), Taken(t.lay, item, x));
  }

  /** The writes of the case with both children. */
  method Splice(tree: Item, item: Item, x: Item, ghost t: Shape) returns (root: Item?)
    requires t.Tree(tree) && item in t.lay && x in t.lay && x != item
    requires item.left != null && item.right != null && t.lay[x].pos == t.lay[item].pos + 1 && x.left == null
    modifies t.nodes
    ensures Fits(Taken(t.lay, item, x)) && root == Instead(tree, item, x)
  {
    t.Member(item, tree);
    t.Member(x, tree);
    t.AllFit(tree);
    WrittenIsTaken(t.nodes, t.lay, |t.nodes|, item, x, tree);
    root := WriteAll(tree, item, x, t.lay);
    AlikeFits(Written(t.lay, item, x, tree), Taken(t.lay, item, x));
  }

  method WriteAll(tree: Item, item: Item, x: Item, ghost g: Layout) returns (root: Item?)
    requires Fits(g) && item in g && x in g && x != item && Apart(g, item, x)
          && (item == tree <==> g[item].parent == null)
    modifies g.Keys
    ensures Fits(Written(g, item, x, tree)) && root == Instead(tree, item, x)
  {
    assert PointsAs(item, g[item]);
    ghost var h := g;
    if x == item.right {
    } else {
      Detach(item, x, g);
      h := Detached(g, item, x);
      SplicedFar(g, item, x, item);
    }
    Adopt(item, x, h);
    root := Reattach(tree, item, x, Adopted(h, item, x));
  }

  /** The nodes of s that do not compare equal to the key, in order. */
  ghost function Others(s: seq<Item>, key: Data, cmp: Compare<Data>): seq<Item> {
    if s == [] then []
    else (if cmp(key, s[0].data) == 0 then [] else [s[0]]) + Others(s[1..], key, cmp)
  }

  lemma {:induction false} OthersRemoved(s: seq<Item>, key: Data, cmp: Compare<Data>, k: int)
    requires 0 <= k < |s| && cmp(key, s[k].data) == 0
    ensures Others(Removed(s, k), key, cmp) == Others(s, key, cmp)
  {
    var r := Removed(s, k);
    if k == 0 {
      assert r == s[1..];
    } else {
      OthersRemoved(s[1..], key, cmp, k - 1);
      assert r[0] == s[0] && r[1..] == Removed(s[1..], k - 1);
    }
  }

  lemma {:induction false} OthersAll(s: seq<Item>, key: Data, cmp: Compare<Data>)
    requires forall i :: 0 <= i < |s| ==> cmp(key, s[i].data) != 0
    ensures Others(s, key, cmp) == s
  {
    if s != [] {
      OthersAll(s[1..], key, cmp);
      assert s == [s[0]] + s[1..];
    }
  }

  /** Exactly the unequal nodes stay. */
  lemma {:induction false} OthersHas(s: seq<Item>, key: Data, cmp: Compare<Data>, x: Item)
    ensures x in Others(s, key, cmp) <==> x in s && cmp(key, x.data) != 0
  {
    if s != [] {
      OthersHas(s[1..], key, cmp, x);
      assert s == [s[0]] + s[1..];
    }
  }

  lemma RemovedSorted(s: seq<Item>, cmp: Compare<Data>, k: int)
    requires NonDecreasing(s, cmp) && 0 <= k < |s|
    ensures NonDecreasing(Removed(s, k), cmp)
  {
    var r := Removed(s, k);
    forall i, j | 0 <= i < j < |r|
      ensures InOrder(r, cmp, i, j)
    {
      assert InOrder(s, cmp, if i < k then i else i + 1, if j < k then j else j + 1);
    }
  }

  lemma RemovedFrom<T>(s: seq<T>, k: int, x: T)
    requires 0 <= k < |s|
    ensures |Removed(s, k)| == |s| - 1 && (x in Removed(s, k) ==> x in s)
  {
  }

  /** Every node equal to the key leaves the tree; the others keep their order. */
  method Remove(tree: Item?, key: Data, cmp: Compare<Data>, ghost t: Shape) returns (root: Item?)
    requires t.Tree(tree) && t.Sorted(cmp) && Consistent(cmp)
    modifies t, t.nodes
    ensures t.Tree(root) && t.Sorted(cmp) && t.nodes == Others(old(t.nodes), key, cmp)
    ensures root != null ==> root.parent == null
  {
    root := tree;
    var temp := Find(root, key, cmp, t);
    while temp != null
      invariant t.Tree(root) && t.Sorted(cmp) && Others(t.nodes, key, cmp) == Others(old(t.nodes), key, cmp)
      invariant forall x :: x in t.nodes ==> x in old(t.nodes)
      invariant temp != null ==> temp in t.lay && cmp(key, temp.data) == 0
      invariant temp == null ==> forall i :: 0 <= i < |t.nodes| ==> cmp(key, t.nodes[i].data) != 0
      decreases |t.nodes|
    {
      RemoveEqual(root, temp, key, cmp, t);
      assert forall i :: 0 <= i < |t.nodes| ==> t.nodes[i] in old(t.nodes);
      root := RemoveItem(root, temp, t);
      temp := Find(root, key, cmp, t);
    }
    OthersAll(t.nodes, key, cmp);
    RootSpansAll(root, t);
  }

  /** What removing one equal node does to the sequence. */
  lemma RemoveEqual(root: Item?, x: Item, key: Data, cmp: Compare<Data>, t: Shape)
    requires t.Tree(root) && t.Sorted(cmp) && x in t.lay && cmp(key, x.data) == 0
    ensures var r := Removed(t.nodes, t.lay[x].pos);
            && NonDecreasing(r, cmp) && Others(r, key, cmp) == Others(t.nodes, key, cmp)
            && |r| < |t.nodes| && forall y :: y in r ==> y in t.nodes
    ensures root != null
  {
    assert ItemOk(t.nodes, t.lay, x);
    OthersRemoved(t.nodes, key, cmp, t.lay[x].pos);
    RemovedSorted(t.nodes, cmp, t.lay[x].pos);
    forall y | y in Removed(t.nodes, t.lay[x].pos)
      ensures y in t.nodes
    {
      RemovedFrom(t.nodes, t.lay[x].pos, y);
    }
  }
}
