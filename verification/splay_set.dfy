/** The splay-tree set: an ordered set of integers kept in a binary search tree that is
    splayed (the node last looked at is rotated up to the root) on every insert, find,
    lower-bound query and erase, with cached pointers to its least and greatest nodes.

    The nodes live in the arena `nodes`; a node that is erased is unlinked but its record
    stays where it was, as freed memory would.  The ghost field `tree` is the shape the
    arena lays out.
 */
module SplayTree {
  import opened Trees
  import opened Arena

  class SplaySet {
    var nodes: seq<Node>
    var root: int
    var mostLeft: int
    var mostRight: int
    var nodeNumber: nat
    ghost var tree: Tree

    /** The arena lays out `tree` under no parent, each node once, values increasing. */
    ghost predicate Shaped()
      reads this
    {
      Linked(tree, Nil, nodes) && Distinct(tree) && Increasing(Order(tree))
    }

    /** `mostLeft` names the least node.  `mostRight` names the greatest node, or a node
        erased while it was the greatest, whose value is at least every stored value. */
    ghost predicate EndsCached()
      reads this
    {
      CachedEnds(Order(tree), nodes, mostLeft, mostRight)
    }

    ghost predicate Valid()
      reads this
    {
      Shaped() && root == RootId(tree) && nodeNumber == |Order(tree)| && EndsCached()
    }

    /** The stored values in increasing order. */
    ghost function Contents(): seq<int>
      reads this
    {
      Values(Order(tree))
    }

    constructor ()
      ensures Valid() && Contents() == [] && nodes == []
    {
      nodes := [];
      root := Nil;
      mostLeft := Nil;
      mostRight := Nil;
      nodeNumber := 0;
      tree := Leaf;
    }

    function Size(): (n: nat)
      reads this
      requires Valid()
      ensures n == |Contents()|
    {
      nodeNumber
    }

    function Empty(): (b: bool)
      reads this
      requires Valid()
      ensures b <==> Contents() == []
    {
      nodeNumber == 0
    }

    /** Promotes the left child of `node`, the node at `q`, into its place. */
    method RightRotate(node: int, ghost q: seq<Dir>)
      requires Shaped() && At(tree, q).Fork? && At(tree, q).id == node && At(tree, q).left.Fork?
      modifies this
      ensures Shaped() && Order(tree) == old(Order(tree))
      ensures Rotatable(old(nodes), node, Left) && nodes == Rotated(old(nodes), node, Left)
      ensures Stored(nodes) == Stored(old(nodes))
      ensures tree == Replace(old(tree), q, Rotate(old(At(tree, q)), Left))
      ensures root == old(root) && mostLeft == old(mostLeft) && mostRight == old(mostRight)
      ensures nodeNumber == old(nodeNumber)
    {
      RotateStep(tree, nodes, q, Left);
      RotatedValues(nodes, node, Left);
      var left := nodes[node].left;
      var leftRight := nodes[left].right;
      var parent := nodes[node].parent;
      if parent != Nil {
        if nodes[parent].right == node {
          nodes := nodes[parent := nodes[parent].(right := left)];
        } else {
          nodes := nodes[parent := nodes[parent].(left := left)];
        }
      }
      if leftRight != Nil {
        nodes := nodes[leftRight := nodes[leftRight].(parent := node)];
      }
      nodes := nodes[left := nodes[left].(parent := parent, right := node)];
      nodes := nodes[node := nodes[node].(parent := left, left := leftRight)];
      tree := Replace(tree, q, Rotate(At(tree, q), Left));
    }

    /** Promotes the right child of `node`, the node at `q`, into its place. */
    method LeftRotate(node: int, ghost q: seq<Dir>)
      requires Shaped() && At(tree, q).Fork? && At(tree, q).id == node && At(tree, q).right.Fork?
      modifies this
      ensures Shaped() && Order(tree) == old(Order(tree))
      ensures Rotatable(old(nodes), node, Right) && nodes == Rotated(old(nodes), node, Right)
      ensures Stored(nodes) == Stored(old(nodes))
      ensures tree == Replace(old(tree), q, Rotate(old(At(tree, q)), Right))
      ensures root == old(root) && mostLeft == old(mostLeft) && mostRight == old(mostRight)
      ensures nodeNumber == old(nodeNumber)
    {
      RotateStep(tree, nodes, q, Right);
      RotatedValues(nodes, node, Right);
      var right := nodes[node].right;
      var rightLeft := nodes[right].left;
      var parent := nodes[node].parent;
      if parent != Nil {
        if nodes[parent].right == node {
          nodes := nodes[parent := nodes[parent].(right := right)];
        } else {
          nodes := nodes[parent := nodes[parent].(left := right)];
        }
      }
      if rightLeft != Nil {
        nodes := nodes[rightLeft := nodes[rightLeft].(parent := node)];
      }
      nodes := nodes[right := nodes[right].(parent := parent, left := node)];
      nodes := nodes[node := nodes[node].(parent := right, right := rightLeft)];
      tree := Replace(tree, q, Rotate(At(tree, q), Right));
    }

    /** Zig-zig step of `Splay`: the grandparent `g` at `q` and then the parent `c` are rotated
        towards `d`, which lifts the `d`-`d` grandchild of `g` to `q`. */
    method ZigZig(g: int, c: int, ghost q: seq<Dir>, d: Dir)
      requires Shaped() && At(tree, q).Fork? && At(tree, q).id == g
      requires At(tree, q).Child(d).Fork? && At(tree, q).Child(d).id == c
      requires At(tree, q).Child(d).Child(d).Fork?
      modifies this
      ensures Shaped() && Order(tree) == old(Order(tree))
      ensures At(tree, q).Fork? && At(tree, q).id == old(At(tree, q).Child(d).Child(d).id)
      ensures |nodes| == |old(nodes)|
      ensures Stored(nodes) == Stored(old(nodes))
      ensures root == old(root) && mostLeft == old(mostLeft) && mostRight == old(mostRight)
      ensures nodeNumber == old(nodeNumber)
    {
      ZigZigPath(tree, q, d);
      if d == Left {
        RightRotate(g, q);
        RightRotate(c, q);
      } else {
        LeftRotate(g, q);
        LeftRotate(c, q);
      }
    }

    /** Zig-zag step of `Splay`: the parent `c` at `q + [d]` is rotated away from `d` and then
        the grandparent `g` at `q` towards `d`, which lifts the `d`-`Flip(d)` grandchild to `q`. */
    method ZigZag(g: int, c: int, ghost q: seq<Dir>, d: Dir)
      requires Shaped() && At(tree, q).Fork? && At(tree, q).id == g
      requires At(tree, q).Child(d).Fork? && At(tree, q).Child(d).id == c
      requires At(tree, q).Child(d).Child(Flip(d)).Fork?
      modifies this
      ensures Shaped() && Order(tree) == old(Order(tree))
      ensures At(tree, q).Fork? && At(tree, q).id == old(At(tree, q).Child(d).Child(Flip(d)).id)
      ensures |nodes| == |old(nodes)|
      ensures Stored(nodes) == Stored(old(nodes))
      ensures root == old(root) && mostLeft == old(mostLeft) && mostRight == old(mostRight)
      ensures nodeNumber == old(nodeNumber)
    {
      ZigZagPath(tree, q, d);
      if d == Left {
        LeftRotate(c, q + [Left]);
        RightRotate(g, q);
      } else {
        RightRotate(c, q + [Right]);
        LeftRotate(g, q);
      }
    }

    /** The last step of `Splay` when `node`'s parent `ancestor` is the root: one rotation
        makes `node` the root of the shape. */
    method Zig(node: int, ancestor: int, ghost p: seq<Dir>)
      requires Shaped() && |p| == 1 && At(tree, p).Fork? && At(tree, p).id == node
      requires ancestor == RootId(tree)
      modifies this
      ensures Shaped() && Order(tree) == old(Order(tree))
      ensures tree.Fork? && tree.id == node
      ensures |nodes| == |old(nodes)|
      ensures Stored(nodes) == Stored(old(nodes))
      ensures root == old(root) && mostLeft == old(mostLeft) && mostRight == old(mostRight)
      ensures nodeNumber == old(nodeNumber)
    {
      Ancestry(tree, nodes, p);
      assert p[..0] == [];
      if nodes[ancestor].left == node {
        RightRotate(ancestor, []);
      } else {
        LeftRotate(ancestor, []);
      }
    }

    /** One double step of `Splay`: `node`, at `p` with parent `ancestor` and grandparent
        `gParent`, is lifted to the grandparent's place by a zig-zig or a zig-zag. */
    method SplayStep(node: int, ancestor: int, gParent: int, ghost p: seq<Dir>)
      requires Shaped() && |p| >= 2 && At(tree, p).Fork? && At(tree, p).id == node
      requires ancestor == RootId(At(tree, p[..|p| - 1])) && gParent == RootId(At(tree, p[..|p| - 2]))
      modifies this
      ensures Shaped() && Order(tree) == old(Order(tree))
      ensures At(tree, p[..|p| - 2]).Fork? && At(tree, p[..|p| - 2]).id == node
      ensures |nodes| == |old(nodes)|
      ensures Stored(nodes) == Stored(old(nodes))
      ensures root == old(root) && mostLeft == old(mostLeft) && mostRight == old(mostRight)
      ensures nodeNumber == old(nodeNumber)
    {
      Ancestry(tree, nodes, p);
      ghost var p2 := p[..|p| - 2];
      if nodes[gParent].left == ancestor {
        if nodes[ancestor].left == node {
          ZigZig(gParent, ancestor, p2, Left);
        } else {
          ZigZag(gParent, ancestor, p2, Left);
        }
      } else {
        if nodes[ancestor].left == node {
          ZigZag(gParent, ancestor, p2, Right);
        } else {
          ZigZig(gParent, ancestor, p2, Right);
        }
      }
    }

    /** Rotates `node`, the node at `q`, up to the root by zig, zig-zig and zig-zag steps,
        and makes it the root.  The stored sequence and every record's value stay as they were. */
    method Splay(node: int, ghost q: seq<Dir>)
      requires Shaped() && At(tree, q).Fork? && At(tree, q).id == node
      modifies this
      ensures Shaped() && Order(tree) == old(Order(tree))
      ensures tree.Fork? && tree.id == node && root == node
      ensures |nodes| == |old(nodes)|
      ensures Stored(nodes) == Stored(old(nodes))
      ensures mostLeft == old(mostLeft) && mostRight == old(mostRight) && nodeNumber == old(nodeNumber)
      ensures old(Valid()) ==> Valid()
    {
      ghost var es, a0, cached := Order(tree), nodes, EndsCached();
      ghost var p := q;
      NodeLinks(tree, nodes, p);
      var ancestor := nodes[node].parent;
      while ancestor != Nil
        invariant Shaped() && Order(tree) == old(Order(tree))
        invariant At(tree, p).Fork? && At(tree, p).id == node
        invariant ancestor == ParentId(tree, Nil, p)
        invariant |nodes| == |old(nodes)|
        invariant Stored(nodes) == Stored(old(nodes))
        invariant mostLeft == old(mostLeft) && mostRight == old(mostRight) && nodeNumber == old(nodeNumber)
        decreases |p|
      {
        Ancestry(tree, nodes, p);
        var gParent := nodes[ancestor].parent;
        if gParent == Nil {
          Zig(node, ancestor, p);
          p := [];
          break;
        }
        SplayStep(node, ancestor, gParent, p);
        p := p[..|p| - 2];
        NodeLinks(tree, nodes, p);
        ancestor := nodes[node].parent;
      }
      NodeLinks(tree, nodes, p);
      root := node;
      if cached {
        CachedEndsKept(es, a0, nodes, mostLeft, mostRight);
      }
    }

    /** `begin()`: the least node, or no node when the set is empty. */
    method Begin() returns (it: SetIterator)
      requires Valid()
      ensures fresh(it) && it.owner == this && !it.flag
      ensures Contents() == [] ==> it.point == Nil
      ensures Contents() != [] ==> it.point == Order(tree)[0].id
    {
      it := new SetIterator(this, mostLeft, false);
    }

    /** What `end()` returns: the `mostRight` node with the flag set, or no node at all when
        the set is empty (so that `begin()` and `end()` agree). */
    ghost predicate IsEnd(it: SetIterator)
      reads this, it
    {
      if root == Nil then it.point == Nil && !it.flag else it.point == mostRight && it.flag
    }

    method End() returns (it: SetIterator)
      requires Valid()
      ensures fresh(it) && it.owner == this && IsEnd(it)
      ensures Contents() == [] ==> it.point == Nil && !it.flag
      ensures Contents() != [] ==>
        it.flag && (it.point == Order(tree)[|Order(tree)| - 1].id || it.point !in Ids(tree))
      ensures ExactEnds(Order(tree), mostLeft, mostRight) && Contents() != [] ==>
        it.point == Order(tree)[|Order(tree)| - 1].id
    {
      if root == Nil {
        it := new SetIterator(this, Nil, false);
        return;
      }
      it := new SetIterator(this, mostRight, true);
    }

    /** Hangs a new node holding `value` into the empty `d` slot under `parent`, the node at
        `q`, and updates the extreme caches and the count, as `insert` does on reaching an
        empty slot. */
    method AttachLeaf(parent: int, d: Dir, value: int, ghost q: seq<Dir>) returns (current: int)
      requires Valid() && At(tree, q).Fork? && At(tree, q).id == parent && At(tree, q).Child(d).Leaf?
      requires Brackets(tree, q + [d], value)
      modifies this
      ensures Valid() && current == |old(nodes)| && |nodes| == current + 1
      ensures At(tree, q + [d]).Fork? && At(tree, q + [d]).id == current
      ensures Order(tree) == Before(old(tree), q + [d]) + [Entry(current, value)] + After(old(tree), q + [d])
      ensures old(Order(tree)) == Before(old(tree), q + [d]) + After(old(tree), q + [d])
      ensures nodes[current].value == value
      ensures forall k :: 0 <= k < |old(nodes)| ==> nodes[k].value == old(nodes)[k].value
      ensures old(ExactEnds(Order(tree), mostLeft, mostRight)) ==> ExactEnds(Order(tree), mostLeft, mostRight)
    {
      current := |nodes|;
      AttachShape(tree, nodes, q, d, value, mostLeft, mostRight);
      var a := nodes + [Node(Nil, Nil, parent, value)];
      a := a[parent := a[parent].WithChild(d, current)];
      assert mostLeft != Nil ==> a[mostLeft].value == nodes[mostLeft].value;
      assert mostRight != Nil ==> a[mostRight].value == nodes[mostRight].value;
      var ml, mr := mostLeft, mostRight;
      if ml == Nil || value < a[ml].value {
        ml := current;
      }
      if mr == Nil || a[mr].value < value {
        mr := current;
      }
      nodes, tree, mostLeft, mostRight, nodeNumber :=
        a, Replace(tree, q + [d], Fork(Leaf, current, value, Leaf)), ml, mr, nodeNumber + 1;
    }

    /** `insert(value)`: descends to `value`; when it is missing, hangs a new node into the
        empty slot where the search ended.  Either way the node holding `value` is splayed
        to the root. */
    method Insert(value: int)
      requires Valid()
      modifies this
      ensures Valid()
      ensures forall x :: x in Contents() <==> x in old(Contents()) || x == value
      ensures nodeNumber == old(nodeNumber) + if value in old(Contents()) then 0 else 1
      ensures value in old(Contents()) ==> Order(tree) == old(Order(tree))
      ensures tree.Fork? && tree.val == value && root == tree.id
      ensures old(ExactEnds(Order(tree), mostLeft, mostRight)) ==> ExactEnds(Order(tree), mostLeft, mostRight)
      ensures old(Contents()) == [] ==> mostLeft == root && mostRight == root
    {
      if root == Nil {
        root := |nodes|;
        nodes := nodes + [Node(Nil, Nil, Nil, value)];
        tree := Fork(Leaf, root, value, Leaf);
        mostLeft := root;
        mostRight := root;
        nodeNumber := nodeNumber + 1;
        return;
      }
      var current, p := Place(value);
      ghost var a0 := nodes;
      Splay(current, p);
      ChildStep(tree, nodes, [], Left);
      assert Stored(nodes)[current] == Stored(a0)[current];
    }

    /** The descent of `insert(value)`: from the root, moves towards `value` until it meets
        the node holding it, or hangs a new node holding it into the empty slot where the
        descent ends. */
    method Place(value: int) returns (current: int, ghost p: seq<Dir>)
      requires Valid() && root != Nil
      modifies this
      ensures Valid() && At(tree, p).Fork? && At(tree, p).id == current
      ensures 0 <= current < |nodes| && nodes[current].value == value
      ensures forall x :: x in Contents() <==> x in old(Contents()) || x == value
      ensures nodeNumber == old(nodeNumber) + if value in old(Contents()) then 0 else 1
      ensures value in old(Contents()) ==> Order(tree) == old(Order(tree))
      ensures old(ExactEnds(Order(tree), mostLeft, mostRight)) ==> ExactEnds(Order(tree), mostLeft, mostRight)
    {
      current := root;
      p := [];
      ghost var added := false;
      while nodes[current].value < value || value < nodes[current].value
        invariant unchanged(this) && !added
        invariant At(tree, p).Fork? && At(tree, p).id == current && 0 <= current < |nodes|
        invariant Brackets(tree, p, value)
        decreases At(tree, p)
      {
        ChildStep(tree, nodes, p, Left);
        if value < nodes[current].value {
          DescendStep(tree, p, Left, value);
          if nodes[current].left != Nil {
            current := nodes[current].left;
            p := p + [Left];
          } else {
            ghost var t0 := tree;
            current := AttachLeaf(current, Left, value, p);
            p := p + [Left];
            added := true;
            InsertedState(t0, p, current, value, tree);
            break;
          }
        } else {
          ChildStep(tree, nodes, p, Right);
          DescendStep(tree, p, Right, value);
          if nodes[current].right != Nil {
            current := nodes[current].right;
            p := p + [Right];
          } else {
            ghost var t0 := tree;
            current := AttachLeaf(current, Right, value, p);
            p := p + [Right];
            added := true;
            InsertedState(t0, p, current, value, tree);
            break;
          }
        }
      }
      if !added {
        ChildStep(tree, nodes, p, Left);
        Position(tree, p);
        ValueAt(Order(tree), |Before(tree, p)| + |Order(At(tree, p).left)|);
      }
    }

    /** `bigger_vertex(vertex, value)`: the node of the subtree `s` rooted at `vertex` that
        holds the least value not below `value`, or no node when every value is below it. */
    function BiggerVertex(vertex: int, value: int, ghost s: Tree, ghost pid: int): (r: int)
      reads this
      requires Linked(s, pid, nodes) && vertex == RootId(s) && Increasing(Order(s))
      ensures r == LowerBoundId(Order(s), value)
      decreases s
    {
      if vertex == Nil then
        vertex
      else
        LinkedIds(s, pid, nodes);
        LowerBoundFork(s, value);
        if !(nodes[vertex].value < value) && !(value < nodes[vertex].value) then
          vertex
        else if nodes[vertex].value < value then
          BiggerVertex(nodes[vertex].right, value, s.right, vertex)
        else
          var node := BiggerVertex(nodes[vertex].left, value, s.left, vertex);
          if node != Nil then node else vertex
    }

    /** `lower_bound(value)`: `end()` when the set is empty or the cached greatest value is
        below `value`; otherwise the node `bigger_vertex` finds, splayed to the root.  When the
        cached greatest node is no longer stored and every stored value is below `value`
        while its value is not, the source splays no node at all, which the precondition
        excludes. */
    method LowerBound(value: int) returns (it: SetIterator)
      requires Valid()
      requires root != Nil && 0 <= mostRight < |nodes| && !(nodes[mostRight].value < value) ==>
        LowerBoundId(Order(tree), value) != Nil
      modifies this
      ensures Valid() && Order(tree) == old(Order(tree)) && Contents() == old(Contents())
      ensures mostLeft == old(mostLeft) && mostRight == old(mostRight)
      ensures fresh(it) && it.owner == this
      ensures IsEnd(it) ==> Below(Order(tree), value)
      ensures !IsEnd(it) ==>
        tree.Fork? && it.point == tree.id && !it.flag && value <= tree.val && Below(Order(tree.left), value)
    {
      if root != Nil {
        CachedInRange(tree, nodes, mostLeft, mostRight);
      }
      if root == Nil || nodes[mostRight].value < value {
        if root != Nil {
          EndBelow(tree, nodes, mostLeft, mostRight, value);
        }
        it := End();
        return;
      }
      var vertex := BiggerVertex(root, value, tree, Nil);
      ghost var t0 := tree;
      ghost var es := Order(tree);
      assert es[LowerBoundIndex(es, value)] in es;
      ghost var p := PathTo(tree, vertex);
      Splay(vertex, p);
      LowerBoundRoot(t0, value, tree);
      it := new SetIterator(this, vertex, false);
    }

    /** The descent of `find(value)`: from the root, moves to the left or right child until
        it meets `value` or the child it would move to is missing.  The node where it stops
        splits the stored sequence around `value`. */
    method Descend(value: int) returns (current: int, ghost p: seq<Dir>)
      requires Shaped() && root == RootId(tree) && root != Nil
      ensures At(tree, p).Fork? && At(tree, p).id == current && current in Ids(tree)
      ensures var i := IndexOf(Order(tree), current);
        Below(Order(tree)[..i], value) && Above(Order(tree)[i + 1..], value)
    {
      current := root;
      p := [];
      while current != Nil
        invariant At(tree, p).Fork? && At(tree, p).id == current && 0 <= current
        invariant Brackets(tree, p, value)
        decreases At(tree, p)
      {
        ChildStep(tree, nodes, p, Left);
        if !(nodes[current].value < value) && !(value < nodes[current].value) {
          break;
        }
        if value < nodes[current].value {
          if nodes[current].left != Nil {
            DescendStep(tree, p, Left, value);
            current := nodes[current].left;
            p := p + [Left];
          } else {
            break;
          }
        } else {
          ChildStep(tree, nodes, p, Right);
          if nodes[current].right != Nil {
            DescendStep(tree, p, Right, value);
            current := nodes[current].right;
            p := p + [Right];
          } else {
            break;
          }
        }
      }
      SearchStop(tree, p, value);
    }

    /** `find(value)`: descends towards `value` and splays the last node visited, found or
        not, so that the root splits the stored values around `value`.  The iterator names
        that root when it holds `value`, and is `end()` otherwise. */
    method Find(value: int) returns (it: SetIterator)
      requires Valid()
      modifies this
      ensures Valid() && Order(tree) == old(Order(tree)) && Contents() == old(Contents())
      ensures mostLeft == old(mostLeft) && mostRight == old(mostRight)
      ensures Stored(nodes) == Stored(old(nodes))
      ensures tree.Fork? ==> Below(Order(tree.left), value) && Above(Order(tree.right), value)
      ensures value in Contents() <==> tree.Fork? && tree.val == value
      ensures fresh(it) && it.owner == this
      ensures value in Contents() ==> it.point == root && !it.flag
      ensures value !in Contents() ==> IsEnd(it)
    {
      if root == Nil {
        it := End();
        return;
      }
      var current, p := Descend(value);
      ghost var t0 := tree;
      Splay(current, p);
      AfterSearch(t0, p, value, tree);
      if !(nodes[current].value < value) && !(value < nodes[current].value) {
        it := new SetIterator(this, current, false);
      } else {
        it := End();
      }
    }

    /** The walk of `erase` down the right links from `start`, the root of the subtree `l`,
        to its rightmost node. */
    method Rightmost(start: int, ghost l: Tree, ghost pid: int) returns (left: int, ghost q: seq<Dir>)
      requires Linked(l, pid, nodes) && l.Fork? && start == l.id
      ensures At(l, q).Fork? && At(l, q).id == left && At(l, q).right.Leaf?
      ensures forall j :: 0 <= j < |q| ==> q[j] == Right
      ensures 0 <= left < |nodes|
    {
      left := start;
      q := [];
      ghost var parent := pid;
      while nodes[left].right != Nil
        invariant At(l, q).Fork? && At(l, q).id == left && Linked(At(l, q), parent, nodes)
        invariant forall j :: 0 <= j < |q| ==> q[j] == Right
        decreases At(l, q)
      {
        AtSnoc(l, q, Right);
        parent, left := left, nodes[left].right;
        q := q + [Right];
      }
    }

    /** The cache updates of `erase` once the node holding the value is the root `node`: the
        least node moves to the successor of `node`.  When `node` is the greatest node, `++`
        from it stays on it and sets the flag, so the greatest node stays cached as `node`,
        which is about to leave the tree. */
    method UpdateEnds(node: int)
      requires Shaped() && tree.Fork? && tree.id == node && |Order(tree)| >= 2 && EndsCached()
      modifies this
      ensures tree == old(tree) && nodes == old(nodes) && root == old(root) && nodeNumber == old(nodeNumber)
      ensures mostRight == old(mostRight)
      ensures mostLeft == if old(mostLeft) == node then Order(tree)[1].id else old(mostLeft)
    {
      EndRanks(tree, nodes, mostLeft, mostRight);
      if mostLeft == node {
        var it := new SetIterator(this, node, false);
        it.Increment();
        mostLeft := it.point;
      } else {
        if mostRight == node {
          var it := new SetIterator(this, node, false);
          it.Increment();
          mostRight := it.point;
        }
      }
    }

    /** The unlinking of `erase`: without a left subtree the right subtree becomes the tree;
        otherwise the right subtree is hung under the rightmost node of the left subtree,
        which becomes the tree.  The old root's record stays in the arena, out of the tree. */
    method Unlink(node: int)
      requires Shaped() && tree.Fork? && tree.id == node && |Order(tree)| >= 2
      modifies this
      ensures Shaped() && root == RootId(tree)
      ensures Order(tree) == Order(old(tree).left) + Order(old(tree).right)
      ensures Stored(nodes) == Stored(old(nodes))
      ensures mostLeft == old(mostLeft) && mostRight == old(mostRight) && nodeNumber == old(nodeNumber)
    {
      ChildStep(tree, nodes, [], Left);
      var left := nodes[node].left;
      if left == Nil {
        Lift(node);
      } else {
        ghost var q;
        left, q := Rightmost(left, tree.left, node);
        Splice(node, left, q);
      }
    }

    /** The first half of the unlinking of `erase`: without a left subtree, the right
        subtree of the root `node` becomes the tree. */
    method Lift(node: int)
      requires Shaped() && tree.Fork? && tree.id == node && tree.left.Leaf? && |Order(tree)| >= 2
      modifies this
      ensures Shaped() && root == RootId(tree)
      ensures Order(tree) == Order(old(tree).left) + Order(old(tree).right)
      ensures Stored(nodes) == Stored(old(nodes))
      ensures mostLeft == old(mostLeft) && mostRight == old(mostRight) && nodeNumber == old(nodeNumber)
    {
      LiftRight(tree, nodes);
      var r := nodes[node].right;
      root, nodes, tree := r, nodes[r := nodes[r].(parent := Nil)], tree.right;
    }

    /** The second half of the unlinking of `erase`: the right subtree of the root `node` is
        hung under `left`, the rightmost node of the left subtree at `q`, and the left
        subtree becomes the tree. */
    method Splice(node: int, left: int, ghost q: seq<Dir>)
      requires Shaped() && tree.Fork? && tree.id == node && tree.left.Fork?
      requires At(tree.left, q).Fork? && At(tree.left, q).id == left && At(tree.left, q).right.Leaf?
      requires forall j :: 0 <= j < |q| ==> q[j] == Right
      modifies this
      ensures Shaped() && root == RootId(tree)
      ensures Order(tree) == Order(old(tree).left) + Order(old(tree).right)
      ensures Stored(nodes) == Stored(old(nodes))
      ensures mostLeft == old(mostLeft) && mostRight == old(mostRight) && nodeNumber == old(nodeNumber)
    {
      ghost var t0, a0 := tree, nodes;
      ChildStep(tree, nodes, [], Left);
      ChildStep(tree, nodes, [], Right);
      SpliceShape(t0, a0, q);
      if nodes[node].right != Nil {
        nodes := nodes[left := nodes[left].(right := nodes[node].right)];
        nodes := nodes[nodes[node].right := nodes[nodes[node].right].(parent := left)];
      }
      assert nodes == HungRight(a0, left, RootId(t0.right));
      root := nodes[node].left;
      nodes := nodes[root := nodes[root].(parent := Nil)];
      assert nodes == Spliced(t0, a0, left);
      tree := Replace(tree.left, q + [Right], tree.right);
    }

    /** `erase(value)`: `find` splays the node holding `value` (or the last node visited) to
        the root; when `value` is stored, the count drops, the caches are updated and the root
        is unlinked.  After erasing the greatest value the greatest node stays cached as the
        erased record, so that `end()` and `lower_bound` then work from a record no longer in
        the tree. */
    method Erase(value: int)
      requires Valid()
      modifies this
      ensures Valid()
      ensures forall x :: x in Contents() <==> x in old(Contents()) && x != value
      ensures nodeNumber == old(nodeNumber) - if value in old(Contents()) then 1 else 0
      ensures Contents() != [] ==> mostRight == old(mostRight)
      ensures value in old(Contents()) && value == old(Contents())[|old(Contents())| - 1] ==>
        mostRight !in Ids(tree)
      ensures value !in old(Contents()) ==>
        Order(tree) == old(Order(tree)) && mostLeft == old(mostLeft) && mostRight == old(mostRight)
      ensures (old(ExactEnds(Order(tree), mostLeft, mostRight)) &&
               (value !in old(Contents()) || value != old(Contents())[|old(Contents())| - 1])) ==>
        ExactEnds(Order(tree), mostLeft, mostRight)
    {
      var it := Find(value);
      if it.point == Nil || it.flag {
        return;
      }
      var node := it.point;
      Splay(node, []);
      RemoveRoot(node);
    }

    /** The part of `erase` after the node holding the value has been splayed to the root:
        the count drops, the caches are updated and the root is unlinked. */
    method RemoveRoot(node: int)
      requires Valid() && tree.Fork? && tree.id == node
      modifies this
      ensures Valid()
      ensures forall x :: x in Contents() <==> x in old(Contents()) && x != old(tree).val
      ensures nodeNumber == old(nodeNumber) - 1
      ensures Contents() != [] ==> mostRight == old(mostRight)
      ensures old(tree).val == old(Contents())[|old(Contents())| - 1] ==> mostRight !in Ids(tree)
      ensures (old(ExactEnds(Order(tree), mostLeft, mostRight)) &&
               old(tree).val != old(Contents())[|old(Contents())| - 1]) ==>
        ExactEnds(Order(tree), mostLeft, mostRight)
    {
      ghost var t0, a0, ml0 := tree, nodes, mostLeft;
      ghost var lo, x, hi := Order(t0.left), Entry(t0.id, t0.val), Order(t0.right);
      assert Order(t0) == lo + [x] + hi;
      RemoveValue(lo, x, hi);
      nodeNumber := nodeNumber - 1;
      if nodeNumber == 0 {
        root, mostLeft, mostRight, tree := Nil, Nil, Nil, Leaf;
        return;
      }
      UpdateEnds(node);
      Unlink(node);
      LinkedValues(t0, Nil, a0);
      CachedEndsErase(lo, x, hi, a0, nodes, ml0, mostRight, mostLeft);
      if hi == [] {
        assert Values(lo + [x] + hi)[|lo + [x] + hi| - 1] == x.val;
      }
    }

    /** A copy of the subtree `s` of the arena `src` rooted at `vertex`, appended node by node
        in preorder, each new node moving the cached extremes to itself when it beats them.
        A new record starts with no links; each one is set before the copy is done. */
    method DfsCreate(src: seq<Node>, vertex: int, ghost s: Tree, ghost sp: int) returns (node: int, ghost t: Tree)
      requires Linked(s, sp, src) && vertex == RootId(s)
      requires Extremes(Stored(nodes), mostLeft, mostRight)
      modifies this
      decreases s
      ensures Extremes(Stored(nodes), mostLeft, mostRight)
      ensures |old(nodes)| <= |nodes| && nodes[..|old(nodes)|] == old(nodes)
      ensures node == RootId(t) && Linked(t, Nil, nodes) && Distinct(t) && Copied(t, s)
      ensures Spans(t, |old(nodes)|, |nodes|)
    {
      if vertex == Nil {
        return Nil, Leaf;
      }
      var v := src[vertex].value;
      node := |nodes|;
      var a := nodes + [Node(Nil, Nil, Nil, v)];
      var ml, mr := mostLeft, mostRight;
      if ml == Nil || v < a[ml].value {
        ml := node;
      }
      if mr == Nil || a[mr].value < v {
        mr := node;
      }
      ExtremesAppend(Stored(nodes), mostLeft, mostRight, v);
      assert Stored(a) == Stored(nodes) + [v];
      nodes, mostLeft, mostRight := a, ml, mr;
      ghost var a1 := nodes;
      var l, tl := DfsCreate(src, src[vertex].left, s.left, vertex);
      ghost var a2 := nodes;
      nodes := nodes[node := nodes[node].(left := l)];
      assert Stored(nodes) == Stored(a2);
      var r, tr := DfsCreate(src, src[vertex].right, s.right, vertex);
      ghost var a4 := nodes;
      a := nodes[node := nodes[node].(right := r)];
      if l != Nil {
        a := a[l := a[l].(parent := node)];
      }
      if r != Nil {
        a := a[r := a[r].(parent := node)];
      }
      CopyStep(tl, tr, a1, a2, a4, a, node, v);
      nodes, t := a, Fork(tl, node, v, tr);
    }

    /** Builds, in this emptied set, the copy of the set whose arena `src` lays out the search
        tree `s` from the root `vertex`, and takes over its node count `n`. */
    method CopyTree(src: seq<Node>, vertex: int, n: nat, ghost s: Tree)
      requires Linked(s, Nil, src) && vertex == RootId(s) && Increasing(Order(s)) && n == |Order(s)|
      requires nodes == [] && mostLeft == Nil && mostRight == Nil
      modifies this
      ensures Valid() && Copied(tree, s) && Contents() == Values(Order(s))
      ensures ExactEnds(Order(tree), mostLeft, mostRight)
    {
      var r, t := DfsCreate(src, vertex, s, Nil);
      var a := nodes;
      if r != Nil {
        a := a[r := a[r].(parent := Nil)];
      }
      ghost var a0 := nodes;
      root, nodes, nodeNumber, tree := r, a, n, t;
      CopyValid(s, a0);
    }

    /** The fields after `dfsCreate` copied `s` into the arena `a0`, with the copy's root
        parent link cleared, form a valid set holding the values of `s`. */
    lemma {:induction false} CopyValid(s: Tree, a0: seq<Node>)
      requires Linked(tree, Nil, a0) && Distinct(tree) && Copied(tree, s) && Spans(tree, 0, |a0|)
      requires Extremes(Stored(a0), mostLeft, mostRight) && Increasing(Order(s))
      requires nodes == if tree.Leaf? then a0 else a0[tree.id := a0[tree.id].(parent := Nil)]
      requires root == RootId(tree) && nodeNumber == |Order(s)|
      ensures Valid() && Copied(tree, s) && Contents() == Values(Order(s))
      ensures ExactEnds(Order(tree), mostLeft, mostRight)
    {
      CopiedSet(tree, s, a0, nodes, mostLeft, mostRight);
    }

    /** The copy constructor: a set of its own holding the values of `other` in the same
        shape, its caches naming its least and greatest nodes. */
    constructor Copy(other: SplaySet)
      requires other.Valid()
      ensures Valid() && Copied(tree, other.tree) && Contents() == other.Contents()
      ensures nodeNumber == other.nodeNumber && ExactEnds(Order(tree), mostLeft, mostRight)
    {
      nodes := [];
      root := Nil;
      mostLeft := Nil;
      mostRight := Nil;
      nodeNumber := 0;
      tree := Leaf;
      new;
      CopyTree(other.nodes, other.root, other.nodeNumber, other.tree);
    }

    /** Assignment: unless `other` is this set, the nodes are dropped and `other` is copied;
        the copy's caches name its least and greatest nodes even when those of `other` name
        an erased greatest node. */
    method Assign(other: SplaySet)
      requires Valid() && other.Valid()
      modifies this
      ensures Valid() && Copied(tree, old(other.tree)) && Contents() == old(other.Contents())
      ensures nodeNumber == old(other.nodeNumber)
      ensures this != other ==> ExactEnds(Order(tree), mostLeft, mostRight)
      ensures this == other ==> mostLeft == old(mostLeft) && mostRight == old(mostRight)
      ensures this == other ==> tree == old(tree) && nodes == old(nodes) && root == old(root)
    {
      if this != other {
        ghost var s := other.tree;
        var src, vertex, n := other.nodes, other.root, other.nodeNumber;
        nodes, root, mostLeft, mostRight, nodeNumber, tree := [], Nil, Nil, Nil, 0, Leaf;
        CopyTree(src, vertex, n, s);
      } else {
        CopiedSelf(tree);
      }
    }
  }

  /** `ml` and `mr` name the first and the last of the entries `es`. */
  ghost predicate ExactEnds(es: seq<Entry>, ml: int, mr: int) {
    (es == [] ==> ml == Nil && mr == Nil) &&
    (es != [] ==> ml == es[0].id && mr == es[|es| - 1].id)
  }

  /** A copy laid out alone in its arena, with the root's parent link cleared, is a valid set
      holding the values of the search tree `s` it copies. */
  lemma {:induction false} CopiedSet(t: Tree, s: Tree, a: seq<Node>, b: seq<Node>, ml: int, mr: int)
    requires Linked(t, Nil, a) && Distinct(t) && Copied(t, s) && Spans(t, 0, |a|)
    requires Extremes(Stored(a), ml, mr) && Increasing(Order(s))
    requires b == if t.Leaf? then a else a[t.id := a[t.id].(parent := Nil)]
    ensures Linked(t, Nil, b) && Distinct(t) && Increasing(Order(t)) && ExactEnds(Order(t), ml, mr)
    ensures CachedEnds(Order(t), b, ml, mr)
    ensures Values(Order(t)) == Values(Order(s)) && |Order(t)| == |Order(s)|
  {
    if t.Fork? {
      assert b == a;
    }
    CopiedValues(t, s);
    IncreasingByValues(Order(s), Order(t));
    ExtremesCached(t, a, ml, mr);
  }

  /** In an arena holding exactly the nodes of a search tree, extremes of the stored values
      are the first and the last node in symmetric order. */
  lemma {:induction false} ExtremesCached(t: Tree, a: seq<Node>, ml: int, mr: int)
    requires Linked(t, Nil, a) && Distinct(t) && Increasing(Order(t)) && Spans(t, 0, |a|)
    requires Extremes(Stored(a), ml, mr)
    ensures ExactEnds(Order(t), ml, mr)
  {
    var es := Order(t);
    if es == [] {
      assert Ids(t) == {};
      assert 0 !in Ids(t);
    } else {
      LinkedValues(t, Nil, a);
      var n := |es| - 1;
      assert es[0].id in Ids(t) && es[n].id in Ids(t);
      assert ml in Ids(t) && mr in Ids(t);
      IdsOfIndex(es, ml);
      IdsOfIndex(es, mr);
      var i :| 0 <= i < |es| && es[i].id == ml;
      var j :| 0 <= j < |es| && es[j].id == mr;
      assert a[ml].value <= a[es[0].id].value;
      assert a[es[n].id].value <= a[mr].value;
      assert i == 0;
      assert j == n;
    }
  }

  /** Without a left subtree, the right subtree of the root `t`, cut loose from its parent,
      is laid out as a tree of its own holding the other entries. */
  lemma {:induction false} LiftRight(t: Tree, a: seq<Node>)
    requires Linked(t, Nil, a) && Distinct(t) && Increasing(Order(t)) && t.Fork?
    requires t.left.Leaf? && |Order(t)| >= 2
    ensures t.right.Fork? && 0 <= t.id < |a| && 0 <= t.right.id < |a| && a[t.id].right == t.right.id
    ensures var r := t.right.id;
      Linked(t.right, Nil, a[r := a[r].(parent := Nil)]) && Stored(a[r := a[r].(parent := Nil)]) == Stored(a)
    ensures Distinct(t.right) && Increasing(Order(t.right)) && Order(t.right) == Order(t.left) + Order(t.right)
  {
    DistinctFork(t);
    ForkSides(t);
    assert t.right.Fork?;
    ChildStep(t, a, [], Right);
    var r := t.right.id;
    var b := a[r := a[r].(parent := Nil)];
    LinkedIds(t.right, t.id, a);
    LinkedReparent(t.right, t.id, Nil, a, b);
    assert forall k :: 0 <= k < |a| ==> Stored(b)[k] == Stored(a)[k];
  }

  /** The splice of `erase` keeps the entries other than the root's distinct and increasing,
      laid out by `Spliced`. */
  lemma {:induction false} SpliceShape(t: Tree, a: seq<Node>, q: seq<Dir>)
    requires Linked(t, Nil, a) && Distinct(t) && Increasing(Order(t)) && t.Fork? && t.left.Fork?
    requires At(t.left, q).Fork? && At(t.left, q).right.Leaf?
    requires forall j :: 0 <= j < |q| ==> q[j] == Right
    ensures 0 <= At(t.left, q).id < |a| && 0 <= t.left.id < |a|
    ensures RootId(t.right) == Nil || 0 <= RootId(t.right) < |a|
    ensures RootId(t.right) != At(t.left, q).id
    ensures var s := Replace(t.left, q + [Right], t.right);
      s.Fork? && s.id == t.left.id && Distinct(s) && Increasing(Order(s)) &&
      Order(s) == Order(t.left) + Order(t.right) &&
      Linked(s, Nil, Spliced(t, a, At(t.left, q).id))
  {
    SpliceLinked(t, a, q);
    RemoveEntry(Order(t.left), Entry(t.id, t.val), Order(t.right));
  }

  /** Where the root stands in the order when a cache names it: first when it is the cached
      least node, last when it is the cached greatest node. */
  lemma {:induction false} EndRanks(t: Tree, a: seq<Node>, ml: int, mr: int)
    requires t.Fork? && Distinct(t) && CachedEnds(Order(t), a, ml, mr) && |Order(t)| >= 2
    ensures t.id in Ids(t)
    ensures ml == t.id ==> IndexOf(Order(t), t.id) == 0
    ensures mr == t.id ==> IndexOf(Order(t), t.id) == |Order(t)| - 1
  {
    var es := Order(t);
    RootSplit(t);
    IndexOfUnique(es, 0);
    IndexOfUnique(es, |es| - 1);
  }

  /** The caches after `erase` takes `x` out from between `lo` and `hi`: the least node is
      `ml2`, the successor of `x` when `x` was the least; the greatest stays `mr`, which
      leaves the tree together with `x` when `x` was the greatest. */
  lemma {:induction false} CachedEndsErase(lo: seq<Entry>, x: Entry, hi: seq<Entry>, a: seq<Node>, b: seq<Node>, ml: int, mr: int, ml2: int)
    requires CachedEnds(lo + [x] + hi, a, ml, mr) && lo + hi != []
    requires Unique(lo + [x] + hi) && Increasing(lo + [x] + hi)
    requires forall k :: 0 <= k < |lo + [x] + hi| ==>
      0 <= (lo + [x] + hi)[k].id < |a| && a[(lo + [x] + hi)[k].id].value == (lo + [x] + hi)[k].val
    requires Stored(b) == Stored(a)
    requires ml == x.id ==> ml2 == (lo + [x] + hi)[1].id
    requires ml != x.id ==> ml2 == ml
    ensures CachedEnds(lo + hi, b, ml2, mr)
    ensures x.val == Values(lo + [x] + hi)[|lo + [x] + hi| - 1] ==> mr !in IdsOf(lo + hi)
    ensures ExactEnds(lo + [x] + hi, ml, mr) && hi != [] ==> ExactEnds(lo + hi, ml2, mr)
  {
    var es, rs := lo + [x] + hi, lo + hi;
    RemoveEntry(lo, x, hi);
    RemoveIndex(lo, x, hi);
    assert es[|lo|] == x;
    if lo != [] {
      assert es[0] == lo[0];
    }
    if hi == [] {
      assert es[|es| - 1] == x && rs[|rs| - 1] == es[|es| - 2];
    } else {
      assert rs[|rs| - 1] == es[|es| - 1];
      assert es[|lo|].val < es[|es| - 1].val;
    }
  }

  /** The shape, layout and caches after hanging a new node holding `v` into the empty `d`
      slot under the node at `q`, where a search for `v` ended. */
  lemma {:induction false} AttachShape(t: Tree, a: seq<Node>, q: seq<Dir>, d: Dir, v: int, ml: int, mr: int)
    requires Linked(t, Nil, a) && Distinct(t) && Increasing(Order(t)) && CachedEnds(Order(t), a, ml, mr)
    requires At(t, q).Fork? && At(t, q).Child(d).Leaf? && Brackets(t, q + [d], v)
    ensures 0 <= At(t, q).id < |a| && (ml == Nil || 0 <= ml < |a|) && (mr == Nil || 0 <= mr < |a|)
    ensures var k, pid, qd := |a|, At(t, q).id, q + [d];
      var b := (a + [Node(Nil, Nil, pid, v)])[pid := a[pid].WithChild(d, k)];
      var t1 := Replace(t, qd, Fork(Leaf, k, v, Leaf));
      Linked(t1, Nil, b) && Distinct(t1) && Increasing(Order(t1)) && RootId(t1) == RootId(t) &&
      At(t1, qd) == Fork(Leaf, k, v, Leaf) &&
      Order(t1) == Before(t, qd) + [Entry(k, v)] + After(t, qd) &&
      Order(t) == Before(t, qd) + After(t, qd) &&
      (forall j :: 0 <= j < |a| ==> b[j].value == a[j].value) &&
      CachedEnds(Order(t1), b,
        if ml == Nil || v < a[ml].value then k else ml,
        if mr == Nil || a[mr].value < v then k else mr) &&
      (ExactEnds(Order(t), ml, mr) ==>
        ExactEnds(Order(t1),
          if ml == Nil || v < a[ml].value then k else ml,
          if mr == Nil || a[mr].value < v then k else mr))
  {
    var k, pid, qd := |a|, At(t, q).id, q + [d];
    var s := Fork(Leaf, k, v, Leaf);
    AttachLinked(t, a, q, d, v);
    var b := (a + [Node(Nil, Nil, pid, v)])[pid := a[pid].WithChild(d, k)];
    AtForkReaches(t, q);
    AtSnoc(t, q, d);
    LinkedIds(t, Nil, a);
    LinkedValues(t, Nil, a);
    assert Order(s) == [Entry(k, v)];
    assert Ids(s) == {k};
    AttachOrder(t, qd, s);
    InsertIncreasing(Before(t, qd), Entry(k, v), After(t, qd));
    assert t.Fork?;
    ReplaceRoot(t, qd, s);
    AtReplaceHere(t, qd, s);
    CachedEndsInsert(Before(t, qd), Entry(k, v), After(t, qd), a, b, ml, mr);
  }

  /** Both caches name records of the arena when the set is not empty. */
  lemma {:induction false} CachedInRange(t: Tree, a: seq<Node>, ml: int, mr: int)
    requires Linked(t, Nil, a) && CachedEnds(Order(t), a, ml, mr) && t.Fork?
    ensures 0 <= ml < |a| && 0 <= mr < |a|
  {
    LinkedValues(t, Nil, a);
  }

  /** When the cached greatest record holds a value below `v`, every stored value is below
      `v`: the cache holds the greatest value or a value above it. */
  lemma {:induction false} EndBelow(t: Tree, a: seq<Node>, ml: int, mr: int, v: int)
    requires Linked(t, Nil, a) && Increasing(Order(t)) && CachedEnds(Order(t), a, ml, mr) && t.Fork?
    requires 0 <= mr < |a| && a[mr].value < v
    ensures Below(Order(t), v)
  {
    LinkedValues(t, Nil, a);
    var es := Order(t);
    assert es[|es| - 1].val < v;
  }

  /** A root that is the lower bound of `v` in the order holds a value not below `v`, and
      everything on its left is below `v`. */
  lemma {:induction false} LowerBoundRoot(t0: Tree, v: int, t1: Tree)
    requires Order(t1) == Order(t0) && t1.Fork? && Distinct(t1)
    requires LowerBoundId(Order(t0), v) == t1.id != Nil
    ensures v <= t1.val && Below(Order(t1.left), v)
  {
    var es := Order(t1);
    RootSplit(t1);
    var k := LowerBoundIndex(es, v);
    IndexOfUnique(es, k);
    assert es[|Order(t1.left)|] == Entry(t1.id, t1.val);
  }

  /** The contents after `AttachLeaf` put the value `v`, bracketed at slot `p`, in a new node. */
  lemma {:induction false} InsertedState(t0: Tree, p: seq<Dir>, k: int, v: int, t1: Tree)
    requires Brackets(t0, p, v)
    requires Order(t1) == Before(t0, p) + [Entry(k, v)] + After(t0, p)
    requires Order(t0) == Before(t0, p) + After(t0, p)
    ensures v !in Values(Order(t0))
    ensures forall x :: x in Values(Order(t1)) <==> x in Values(Order(t0)) || x == v
    ensures |Order(t1)| == |Order(t0)| + 1
  {
    BracketedAbsent(Before(t0, p), After(t0, p), v);
    InsertValues(Before(t0, p), Entry(k, v), After(t0, p));
  }

  /** Once the node where a search for `v` stopped is splayed to the root, the root splits
      the stored values around `v`, and holds `v` exactly when `v` is stored. */
  lemma {:induction false} AfterSearch(t0: Tree, p: seq<Dir>, v: int, t1: Tree)
    requires At(t0, p).Fork? && At(t0, p).id in Ids(t0)
    requires var i := IndexOf(Order(t0), At(t0, p).id);
      Below(Order(t0)[..i], v) && Above(Order(t0)[i + 1..], v)
    requires Order(t1) == Order(t0) && t1.Fork? && t1.id == At(t0, p).id && Distinct(t1)
    ensures Below(Order(t1.left), v) && Above(Order(t1.right), v)
    ensures v in Values(Order(t1)) <==> t1.val == v
  {
    RootSplit(t1);
    SplitMember(Order(t1.left), Entry(t1.id, t1.val), Order(t1.right), v);
  }

  /** The cached extremes of the entries `es` laid out in the arena `a`: `ml` names the least
      node; `mr` names the greatest node, or a node no longer stored whose value is at least
      every stored value (as erasing the greatest node leaves it). */
  ghost predicate CachedEnds(es: seq<Entry>, a: seq<Node>, ml: int, mr: int) {
    (es == [] ==> ml == Nil && mr == Nil) &&
    (es != [] ==>
      ml == es[0].id &&
      (mr == es[|es| - 1].id ||
       (0 <= mr < |a| && mr !in IdsOf(es) && es[|es| - 1].val <= a[mr].value)))
  }

  /** Inserting `x` between `b` and `a` and appending its node to the arena, the caches move
      to the new node when it is below the least (above the cached greatest) value. */
  lemma {:induction false} CachedEndsInsert(b: seq<Entry>, x: Entry, a: seq<Entry>, a0: seq<Node>, a1: seq<Node>, ml: int, mr: int)
    requires CachedEnds(b + a, a0, ml, mr) && Increasing(b + [x] + a) && b + a != []
    requires forall k :: 0 <= k < |b + a| ==>
      0 <= (b + a)[k].id < |a0| && a0[(b + a)[k].id].value == (b + a)[k].val
    requires x.id == |a0| && |a1| == |a0| + 1 && a1[x.id].value == x.val
    requires forall k :: 0 <= k < |a0| ==> a1[k].value == a0[k].value
    ensures CachedEnds(b + [x] + a, a1,
      if ml == Nil || x.val < a0[ml].value then x.id else ml,
      if mr == Nil || a0[mr].value < x.val then x.id else mr)
    ensures ExactEnds(b + a, ml, mr) ==>
      ExactEnds(b + [x] + a,
        if ml == Nil || x.val < a0[ml].value then x.id else ml,
        if mr == Nil || a0[mr].value < x.val then x.id else mr)
  {
    var es, es1 := b + a, b + [x] + a;
    InsertEnds(b, x, a);
    IdsOfConcat(b + [x], a);
    IdsOfConcat(b, [x]);
    IdsOfConcat(b, a);
    assert es[0].id == ml;
    assert es1[|es1| - 1] == es1[|b| + |a|];
  }

  /** Relinking nodes without touching their values keeps the cached extremes. */
  lemma {:induction false} CachedEndsKept(es: seq<Entry>, a: seq<Node>, b: seq<Node>, ml: int, mr: int)
    requires CachedEnds(es, a, ml, mr) && Stored(b) == Stored(a)
    ensures CachedEnds(es, b, ml, mr)
  {
  }

  /** A rotation at `q` keeps the arena laid out, the nodes distinct and the order. */
  lemma {:induction false} RotateStep(t: Tree, a: seq<Node>, q: seq<Dir>, d: Dir)
    requires Linked(t, Nil, a) && Distinct(t) && Increasing(Order(t))
    requires At(t, q).Fork? && At(t, q).Child(d).Fork?
    ensures Rotatable(a, At(t, q).id, d)
    ensures a[At(t, q).id].Child(d) == At(t, q).Child(d).id
    ensures var t1 := Replace(t, q, Rotate(At(t, q), d));
      Linked(t1, Nil, Rotated(a, At(t, q).id, d)) && Order(t1) == Order(t) &&
      Distinct(t1) && Increasing(Order(t1))
  {
    RotateLinked(t, a, q, d);
    RotateAtOrder(t, q, d);
    NodeLinks(t, a, q);
  }

  /** The parent and grandparent of the node at `p`, and on which side each hangs. */
  lemma {:induction false} Ancestry(t: Tree, a: seq<Node>, p: seq<Dir>)
    requires Linked(t, Nil, a) && Distinct(t) && At(t, p).Fork? && p != []
    ensures var n := At(t, p).id; var p1 := p[..|p| - 1]; var c := At(t, p1);
      c.Fork? && 0 <= n < |a| && 0 <= c.id < |a| && a[n].parent == c.id &&
      c.Child(p[|p| - 1]) == At(t, p) &&
      (a[c.id].left == n <==> p[|p| - 1] == Left) &&
      (a[c.id].parent == Nil <==> |p| == 1) &&
      (|p| == 1 ==> p1 == []) &&
      (|p| >= 2 ==>
        var p2 := p[..|p| - 2]; var g := At(t, p2);
        p1 == p2 + [p[|p| - 2]] &&
        g.Fork? && 0 <= g.id < |a| && a[c.id].parent == g.id &&
        g.Child(p[|p| - 2]) == c &&
        (a[g.id].left == c.id <==> p[|p| - 2] == Left))
  {
    var p1 := p[..|p| - 1];
    NodeLinks(t, a, p);
    NodeLinks(t, a, p1);
    if |p| >= 2 {
      assert p1[..|p1| - 1] == p[..|p| - 2];
      assert p1 == p[..|p| - 2] + [p[|p| - 2]];
    }
  }

  /** An iterator: a node of `owner` and the past-the-end flag.  `end()` is the greatest
      node with the flag set; the iterator of an empty set names no node. */
  class SetIterator {
    const owner: SplaySet
    var point: int
    var flag: bool

    constructor (owner: SplaySet, point: int, flag: bool)
      ensures this.owner == owner && this.point == point && this.flag == flag
    {
      this.owner := owner;
      this.point := point;
      this.flag := flag;
    }

    /** Climbs from `from` to its parent `vertex` until it arrives from the left: the node at
        `p[..j + 1]` and its parent, where every turn of `p` after `j` is to the right.  The
        result is the node where `p` last turned left, the in-order successor of the node at
        `p` when that node has no right subtree. */
    function LeftFather(from: int, vertex: int, ghost p: seq<Dir>, ghost j: int): (r: int)
      reads owner
      requires owner.Shaped() && At(owner.tree, p).Fork? && -1 <= j < |p|
      requires from == RootId(At(owner.tree, p[..j + 1])) && vertex == ParentId(owner.tree, Nil, p[..j + 1])
      requires forall k :: j < k < |p| ==> p[k] == Right
      ensures r == TurnId(owner.tree, p, Left)
      decreases j + 1
    {
      Climb(owner.tree, owner.nodes, p, j);
      if vertex == Nil then Nil
      else if owner.nodes[vertex].left == from then vertex
      else LeftFather(vertex, owner.nodes[vertex].parent, p, j - 1)
    }

    /** The mirror of `LeftFather`: the node where `p` last turned right. */
    function RightFather(from: int, vertex: int, ghost p: seq<Dir>, ghost j: int): (r: int)
      reads owner
      requires owner.Shaped() && At(owner.tree, p).Fork? && -1 <= j < |p|
      requires from == RootId(At(owner.tree, p[..j + 1])) && vertex == ParentId(owner.tree, Nil, p[..j + 1])
      requires forall k :: j < k < |p| ==> p[k] == Left
      ensures r == TurnId(owner.tree, p, Right)
      decreases j + 1
    {
      Climb(owner.tree, owner.nodes, p, j);
      if vertex == Nil then Nil
      else if owner.nodes[vertex].right == from then vertex
      else RightFather(vertex, owner.nodes[vertex].parent, p, j - 1)
    }

    /** `++`: moves to the in-order successor; from the greatest node it keeps the node and
        sets the past-the-end flag. */
    method Increment()
      requires owner.Shaped() && point in Ids(owner.tree)
      modifies this
      ensures var es := Order(owner.tree); var i := IndexOf(es, old(point));
        if i + 1 < |es| then point == es[i + 1].id && flag == old(flag)
        else point == old(point) && flag
    {
      ghost var t := owner.tree;
      ghost var p := PathTo(t, point);
      ghost var s := At(t, p);
      SuccessorLinks(t, owner.nodes, p);
      ChildStep(t, owner.nodes, p, Right);
      ghost var i := IndexOf(Order(t), point);
      if owner.nodes[point].right != Nil {
        ghost var target := Order(s.right)[0];
        point := owner.nodes[point].right;
        p := p + [Right];
        while owner.nodes[point].left != Nil
          invariant At(t, p).Fork? && At(t, p).id == point && 0 <= point < |owner.nodes|
          invariant Order(At(t, p))[0] == target && flag == old(flag)
          decreases At(t, p)
        {
          ChildStep(t, owner.nodes, p, Left);
          FirstLast(At(t, p));
          point := owner.nodes[point].left;
          p := p + [Left];
        }
        ChildStep(t, owner.nodes, p, Left);
        FirstLast(At(t, p));
        assert i + 1 < |Order(t)| && target == Order(t)[i + 1];
      } else {
        assert p[..|p|] == p;
        var node := LeftFather(point, owner.nodes[point].parent, p, |p| - 1);
        if node != Nil {
          point := node;
        } else {
          flag := true;
        }
      }
    }

    /** `--`: on a past-the-end iterator clears the flag; otherwise moves to the in-order
        predecessor, which from the least node is no node at all. */
    method Decrement()
      requires owner.Shaped() && (flag || point in Ids(owner.tree))
      modifies this
      ensures old(flag) ==> point == old(point) && !flag
      ensures !old(flag) ==>
        !flag &&
        var es := Order(owner.tree); var i := IndexOf(es, old(point));
        point == if i > 0 then es[i - 1].id else Nil
    {
      if flag {
        flag := false;
        return;
      }
      ghost var t := owner.tree;
      ghost var p := PathTo(t, point);
      ghost var s := At(t, p);
      PredecessorLinks(t, owner.nodes, p);
      ChildStep(t, owner.nodes, p, Left);
      ghost var i := IndexOf(Order(t), point);
      if owner.nodes[point].left != Nil {
        ghost var target := Order(s.left)[|Order(s.left)| - 1];
        point := owner.nodes[point].left;
        p := p + [Left];
        while owner.nodes[point].right != Nil
          invariant At(t, p).Fork? && At(t, p).id == point && 0 <= point < |owner.nodes|
          invariant Order(At(t, p))[|Order(At(t, p))| - 1] == target && !flag
          decreases At(t, p)
        {
          ChildStep(t, owner.nodes, p, Right);
          FirstLast(At(t, p));
          point := owner.nodes[point].right;
          p := p + [Right];
        }
        ChildStep(t, owner.nodes, p, Right);
        FirstLast(At(t, p));
        assert i > 0 && target == Order(t)[i - 1];
      } else {
        assert p[..|p|] == p;
        point := RightFather(point, owner.nodes[point].parent, p, |p| - 1);
      }
    }

    /** Post-increment `it++`: a copy of the iterator as it was, then `++` on this one. */
    method PostIncrement() returns (was: SetIterator)
      requires owner.Shaped() && point in Ids(owner.tree)
      modifies this
      ensures fresh(was) && was.owner == owner && was.point == old(point) && was.flag == old(flag)
      ensures var es := Order(owner.tree); var i := IndexOf(es, old(point));
        if i + 1 < |es| then point == es[i + 1].id && flag == old(flag)
        else point == old(point) && flag
    {
      was := new SetIterator(owner, point, flag);
      Increment();
    }

    /** `==`: the same node and the same flag.  A node is a record of its owner's arena, so
        nodes of two different sets are never the same node; no node is no node in any set.
        On live nodes of one set, without the flag, two iterators are equal exactly when they
        stand at the same rank of the order. */
    function Equals(rhs: SetIterator): (b: bool)
      reads this, rhs, owner
      ensures (owner == rhs.owner && owner.Shaped() && !flag && !rhs.flag &&
               point in Ids(owner.tree) && rhs.point in Ids(owner.tree)) ==>
        (b <==> IndexOf(Order(owner.tree), point) == IndexOf(Order(owner.tree), rhs.point))
      ensures b ==> point == rhs.point && flag == rhs.flag
      ensures owner != rhs.owner && point != Nil ==> !b
      ensures owner == rhs.owner && point == rhs.point && flag == rhs.flag ==> b
    {
      point == rhs.point && flag == rhs.flag && (point == Nil || owner == rhs.owner)
    }

    /** `!=`: the negation of `==`. */
    function NotEquals(rhs: SetIterator): (b: bool)
      reads this, rhs, owner
      ensures b <==> !Equals(rhs)
    {
      point != rhs.point || flag != rhs.flag || (point != Nil && owner != rhs.owner)
    }

    /** `*it`: the value held by the node the iterator stands on, which is the value at that
        node's rank in the order. */
    function Get(): (v: int)
      reads this, owner
      requires owner.Shaped() && point in Ids(owner.tree)
      ensures v == Order(owner.tree)[IndexOf(Order(owner.tree), point)].val
    {
      LinkedValues(owner.tree, Nil, owner.nodes);
      owner.nodes[point].value
    }
  }

  /** One step up the path `p` from depth `j + 1` to depth `j`. */
  lemma {:induction false} Climb(t: Tree, a: seq<Node>, p: seq<Dir>, j: int)
    requires Linked(t, Nil, a) && Distinct(t) && At(t, p).Fork? && -1 <= j < |p|
    ensures At(t, p[..j + 1]).Fork?
    ensures ParentId(t, Nil, p[..j + 1]) == Nil <==> j == -1
    ensures j >= 0 ==>
      var up := At(t, p[..j]); var here := At(t, p[..j + 1]);
      up.Fork? && 0 <= up.id < |a| && ParentId(t, Nil, p[..j + 1]) == up.id &&
      (a[up.id].left == here.id <==> p[j] == Left) &&
      (a[up.id].right == here.id <==> p[j] == Right) &&
      a[up.id].parent == ParentId(t, Nil, p[..j])
  {
    AtPrefix(t, p, j + 1);
    NodeLinks(t, a, p[..j + 1]);
    if j >= 0 {
      assert p[..j + 1][..j] == p[..j];
      AtPrefix(t, p, j);
      NodeLinks(t, a, p[..j]);
    }
  }

  /** The node where the path `p` last turned towards `d`, or `Nil`. */
  ghost function TurnId(t: Tree, p: seq<Dir>, d: Dir): int {
    var k := LastTurn(p, d);
    if k < 0 then Nil else RootId(At(t, p[..k]))
  }

  /** Where the in-order successor of the node at `p` is, in the terms `++` looks for it. */
  lemma {:induction false} SuccessorLinks(t: Tree, a: seq<Node>, p: seq<Dir>)
    requires Linked(t, Nil, a) && Distinct(t) && At(t, p).Fork?
    ensures At(t, p).id in Ids(t)
    ensures var es := Order(t); var i := IndexOf(es, At(t, p).id); var s := At(t, p);
      (s.right.Fork? ==> i + 1 < |es| && es[i + 1] == Order(s.right)[0]) &&
      (i + 1 < |es| ==> es[i + 1].id != Nil) &&
      (s.right.Leaf? ==> TurnId(t, p, Left) == if i + 1 < |es| then es[i + 1].id else Nil)
  {
    SuccessorIndex(t, p);
    var i := IndexOf(Order(t), At(t, p).id);
    if i + 1 < |Order(t)| {
      LinkedIds(t, Nil, a);
      IdsOfIndex(Order(t), Order(t)[i + 1].id);
    }
  }

  /** The in-order successor of the node at `p`, located by its index in symmetric order. */
  lemma {:induction false} SuccessorIndex(t: Tree, p: seq<Dir>)
    requires Distinct(t) && At(t, p).Fork?
    ensures At(t, p).id in Ids(t)
    ensures var es := Order(t); var i := IndexOf(es, At(t, p).id); var s := At(t, p);
      (s.right.Fork? ==> i + 1 < |es| && es[i + 1] == Order(s.right)[0]) &&
      (s.right.Leaf? ==> TurnId(t, p, Left) == if i + 1 < |es| then es[i + 1].id else Nil)
  {
    var s := At(t, p);
    var i := |Before(t, p)| + |Order(s.left)|;
    Successor(t, p);
    IndexOfUnique(Order(t), i);
    assert IndexOf(Order(t), s.id) == i;
    var k := LastTurn(p, Left);
    if s.right.Leaf? && k >= 0 {
      AtPrefix(t, p, k);
    }
  }

  /** Where the in-order predecessor of the node at `p` is, in the terms `--` looks for it. */
  lemma {:induction false} PredecessorLinks(t: Tree, a: seq<Node>, p: seq<Dir>)
    requires Linked(t, Nil, a) && Distinct(t) && At(t, p).Fork?
    ensures At(t, p).id in Ids(t)
    ensures var es := Order(t); var i := IndexOf(es, At(t, p).id); var s := At(t, p);
      (s.left.Fork? ==> i > 0 && es[i - 1] == Order(s.left)[|Order(s.left)| - 1]) &&
      (i > 0 ==> es[i - 1].id != Nil) &&
      (s.left.Leaf? ==> TurnId(t, p, Right) == if i > 0 then es[i - 1].id else Nil)
  {
    PredecessorIndex(t, p);
    var i := IndexOf(Order(t), At(t, p).id);
    if i > 0 {
      LinkedIds(t, Nil, a);
      IdsOfIndex(Order(t), Order(t)[i - 1].id);
    }
  }

  /** The in-order predecessor of the node at `p`, located by its index in symmetric order. */
  lemma {:induction false} PredecessorIndex(t: Tree, p: seq<Dir>)
    requires Distinct(t) && At(t, p).Fork?
    ensures At(t, p).id in Ids(t)
    ensures var es := Order(t); var i := IndexOf(es, At(t, p).id); var s := At(t, p);
      (s.left.Fork? ==> i > 0 && es[i - 1] == Order(s.left)[|Order(s.left)| - 1]) &&
      (s.left.Leaf? ==> TurnId(t, p, Right) == if i > 0 then es[i - 1].id else Nil)
  {
    var s := At(t, p);
    var i := |Before(t, p)| + |Order(s.left)|;
    Predecessor(t, p);
    IndexOfUnique(Order(t), i);
    assert IndexOf(Order(t), s.id) == i;
    var k := LastTurn(p, Right);
    if s.left.Leaf? && k >= 0 {
      AtPrefix(t, p, k);
    }
  }

  /** The link from the node at `p` towards `d`, and the slot it leads to. */
  lemma {:induction false} ChildStep(t: Tree, a: seq<Node>, p: seq<Dir>, d: Dir)
    requires Linked(t, Nil, a) && Distinct(t) && At(t, p).Fork?
    ensures 0 <= At(t, p).id < |a| && a[At(t, p).id].parent == ParentId(t, Nil, p)
    ensures a[At(t, p).id].value == At(t, p).val
    ensures a[At(t, p).id].Child(d) == RootId(At(t, p).Child(d))
    ensures At(t, p).Child(d).Leaf? <==> a[At(t, p).id].Child(d) == Nil
    ensures At(t, p).Child(d).Fork? ==> 0 <= At(t, p).Child(d).id < |a|
    ensures At(t, p + [d]) == At(t, p).Child(d)
  {
    NodeLinks(t, a, p);
    AtSnoc(t, p, d);
    if At(t, p).Child(d).Fork? {
      NodeLinks(t, a, p + [d]);
    }
  }

  /** With exact caches, `++` from the greatest node gives `end()`, so a walk from `begin()`
      stops there. */
  method LastStepReachesEnd(s: SplaySet, it: SetIterator) returns (e: SetIterator)
    requires s.Valid() && ExactEnds(Order(s.tree), s.mostLeft, s.mostRight) && s.Contents() != []
    requires it.owner == s && !it.flag && it.point == Order(s.tree)[|Order(s.tree)| - 1].id
    modifies it
    ensures s.IsEnd(e) && it.Equals(e)
  {
    IndexOfUnique(Order(s.tree), |Order(s.tree)| - 1);
    it.Increment();
    e := s.End();
  }

  /** Once the greatest value is erased, `++` from the greatest remaining node only sets the
      flag on that node, while `end()` names the erased record: the iterator never becomes
      equal to `end()`.  Here on the set {1, 5} after erasing 5. */
  method StaleEndUnreachable() returns (s: SplaySet, it: SetIterator, e: SetIterator)
    ensures s.Valid() && s.Contents() == [1]
    ensures it.owner == s && it.flag && it.point == Order(s.tree)[0].id
    ensures e.owner == s && s.IsEnd(e) && it.NotEquals(e)
  {
    s := new SplaySet();
    s.Insert(1);
    s.Insert(5);
    assert s.nodeNumber == 2 && 1 in s.Contents() && 5 in s.Contents();
    TwoValues(Order(s.tree), 1, 5);
    s.Erase(5);
    OneValue(Order(s.tree), 1);
    it := s.Begin();
    IndexOfUnique(Order(s.tree), 0);
    it.Increment();
    e := s.End();
  }

  /** An increasing run of two entries holding `u < v` is exactly `[u, v]`. */
  lemma {:induction false} TwoValues(es: seq<Entry>, u: int, v: int)
    requires Increasing(es) && |es| == 2 && u < v && u in Values(es) && v in Values(es)
    ensures Values(es) == [u, v]
  {
    assert es[0].val < es[1].val;
  }

  /** A run of one entry holding `u` is exactly `[u]`. */
  lemma {:induction false} OneValue(es: seq<Entry>, u: int)
    requires |es| == 1 && u in Values(es)
    ensures Values(es) == [u]
  {
  }
}
