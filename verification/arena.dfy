/** The node records of a splay tree, kept in an arena and addressed by index.

    A C++ `Node*` becomes an index into a `seq<Node>`, and `nullptr` becomes `Nil`.
    `Linked(t, p, a)` says that the arena `a` lays out the shape `t`: every node of
    `t` has the record that links it to the roots of its two subtrees and to its
    parent, the root's parent being `p`.  The lemmas here say how the arena may be
    rewritten around one place of the tree without breaking the layout elsewhere.
 */
module Arena {
  import opened Trees

  datatype Node = Node(left: int, right: int, parent: int, value: int)
  {
    function Child(d: Dir): int {
      if d == Left then left else right
    }

    function WithChild(d: Dir, c: int): Node {
      if d == Left then this.(left := c) else this.(right := c)
    }
  }

  ghost predicate Linked(t: Tree, p: int, a: seq<Node>) {
    match t
    case Leaf => true
    case Fork(l, i, v, r) =>
      0 <= i < |a| && a[i] == Node(RootId(l), RootId(r), p, v) &&
      Linked(l, i, a) && Linked(r, i, a)
  }

  /** The index of the parent of the node at `q`; `p` for the root. */
  ghost function ParentId(t: Tree, p: int, q: seq<Dir>): int {
    if q == [] then p else RootId(At(t, q[..|q| - 1]))
  }

  /** The arena after `rightRotate` (d = Left) or `leftRotate` (d = Right) of node `n`:
      the `d` child `c` of `n` takes the place of `n`, `n` becomes the other child of `c`,
      and the inner subtree of `c` moves under `n`. */
  ghost predicate Rotatable(a: seq<Node>, n: int, d: Dir) {
    0 <= n < |a| && 0 <= a[n].Child(d) < |a| &&
    (a[n].parent == Nil || 0 <= a[n].parent < |a|) &&
    (a[a[n].Child(d)].Child(Flip(d)) == Nil || 0 <= a[a[n].Child(d)].Child(Flip(d)) < |a|)
  }

  ghost function Rotated(a: seq<Node>, n: int, d: Dir): (b: seq<Node>)
    requires Rotatable(a, n, d)
    ensures |b| == |a|
  {
    var c := a[n].Child(d);
    var inner := a[c].Child(Flip(d));
    var p := a[n].parent;
    var a1 := if p == Nil then a
              else if a[p].right == n then a[p := a[p].(right := c)]
              else a[p := a[p].(left := c)];
    var a2 := if inner == Nil then a1 else a1[inner := a1[inner].(parent := n)];
    var a3 := a2[c := a2[c].(parent := p).WithChild(Flip(d), n)];
    a3[n := a3[n].(parent := c).WithChild(d, inner)]
  }

  // ---------------------------------------------------------------------------

  lemma {:induction false} LinkedIds(t: Tree, p: int, a: seq<Node>)
    requires Linked(t, p, a)
    ensures forall k :: k in Ids(t) ==> 0 <= k < |a|
  {
    if t.Fork? {
      IdsFork(t);
      LinkedIds(t.left, t.id, a);
      LinkedIds(t.right, t.id, a);
    }
  }

  /** Every entry of the tree is the value stored in its node. */
  lemma {:induction false} LinkedValues(t: Tree, p: int, a: seq<Node>)
    requires Linked(t, p, a)
    ensures forall k :: 0 <= k < |Order(t)| ==>
      0 <= Order(t)[k].id < |a| && a[Order(t)[k].id].value == Order(t)[k].val
  {
    if t.Fork? {
      LinkedValues(t.left, t.id, a);
      LinkedValues(t.right, t.id, a);
      var ol, or := Order(t.left), Order(t.right);
      forall k | 0 <= k < |Order(t)|
        ensures 0 <= Order(t)[k].id < |a| && a[Order(t)[k].id].value == Order(t)[k].val
      {
        if k < |ol| {
          assert Order(t)[k] == ol[k];
        } else if k > |ol| {
          assert Order(t)[k] == or[k - |ol| - 1];
        }
      }
    }
  }

  /** The layout of `t` only depends on the records of the nodes of `t`. */
  lemma {:induction false} LinkedFrame(t: Tree, p: int, a: seq<Node>, b: seq<Node>)
    requires Linked(t, p, a)
    requires forall k :: k in Ids(t) ==> 0 <= k < |a| && k < |b| && b[k] == a[k]
    ensures Linked(t, p, b)
  {
    if t.Fork? {
      IdsFork(t);
      LinkedFrame(t.left, t.id, a, b);
      LinkedFrame(t.right, t.id, a, b);
    }
  }

  /** Changing the parent link of the root hangs the same tree under another parent. */
  lemma {:induction false} LinkedReparent(t: Tree, p: int, q: int, a: seq<Node>, b: seq<Node>)
    requires Linked(t, p, a) && Distinct(t) && t.Fork?
    requires t.id < |b| && b[t.id] == a[t.id].(parent := q)
    requires forall k :: k in Ids(t) && k != t.id ==> 0 <= k < |a| && k < |b| && b[k] == a[k]
    ensures Linked(t, q, b)
  {
    IdsFork(t);
    DistinctFork(t);
    LinkedFrame(t.left, t.id, a, b);
    LinkedFrame(t.right, t.id, a, b);
  }

  /** Each subtree is laid out under the node above it. */
  lemma {:induction false} LinkedAt(t: Tree, p: int, a: seq<Node>, q: seq<Dir>)
    requires Linked(t, p, a) && At(t, q).Fork?
    ensures Linked(At(t, q), ParentId(t, p, q), a)
    decreases |q|
  {
    if q != [] {
      var up := q[..|q| - 1];
      AtParent(t, q);
      LinkedAt(t, p, a, up);
    }
  }

  lemma {:induction false} DistinctAt(t: Tree, q: seq<Dir>)
    requires Distinct(t) && Reaches(t, q)
    ensures Distinct(At(t, q))
  {
    Split(t, q);
    UniqueConcat(Before(t, q) + Order(At(t, q)), After(t, q));
    UniqueConcat(Before(t, q), Order(At(t, q)));
  }

  /** A node's record names its `d` child on side `d` and not on the other side. */
  lemma {:induction false} ForkLinks(u: Tree, p: int, a: seq<Node>, d: Dir)
    requires Linked(u, p, a) && Distinct(u) && u.Fork? && u.Child(d).Fork?
    ensures 0 <= u.id < |a| && u.id !in Ids(u.Child(d))
    ensures a[u.id].Child(d) == u.Child(d).id && a[u.id].Child(Flip(d)) != u.Child(d).id
  {
    DistinctFork(u);
    var c, o := u.Child(d), u.Child(Flip(d));
    IdsFork(c);
    assert c.id in Ids(c);
    if o.Fork? {
      IdsFork(o);
      assert o.id in Ids(o);
    }
    LinkedIds(u, p, a);
  }

  /** The links around the node at `q`: its record, its parent's, and which side it hangs on. */
  lemma {:induction false} NodeLinks(t: Tree, a: seq<Node>, q: seq<Dir>)
    requires Linked(t, Nil, a) && Distinct(t) && At(t, q).Fork?
    ensures var s := At(t, q);
      0 <= s.id < |a| && a[s.id] == Node(RootId(s.left), RootId(s.right), ParentId(t, Nil, q), s.val) &&
      (s.left.Leaf? <==> a[s.id].left == Nil) && (s.right.Leaf? <==> a[s.id].right == Nil)
    ensures q == [] <==> ParentId(t, Nil, q) == Nil
    ensures q != [] ==>
      var up := At(t, q[..|q| - 1]);
      up.Fork? && up.id == ParentId(t, Nil, q) && up.id !in Ids(At(t, q)) &&
      up.Child(q[|q| - 1]) == At(t, q) &&
      0 <= up.id < |a| &&
      a[up.id].Child(q[|q| - 1]) == At(t, q).id &&
      a[up.id].Child(Flip(q[|q| - 1])) != At(t, q).id
  {
    LinkedAt(t, Nil, a, q);
    if q != [] {
      var uq := q[..|q| - 1];
      AtParent(t, q);
      var up := At(t, uq);
      LinkedAt(t, Nil, a, uq);
      AtForkReaches(t, uq);
      DistinctAt(t, uq);
      ForkLinks(up, ParentId(t, Nil, uq), a, q[|q| - 1]);
      assert up.id >= 0;
    }
  }

  /** Rewriting the arena at one place of the tree: if the new subtree `s` is laid out under
      the parent of the slot `q`, the parent's link on that side now names the root of `s`,
      and the records of every other node of `t` are untouched, then the arena lays out
      `t` with `s` in the slot. */
  lemma {:induction false} ReplaceLinked(t: Tree, p: int, a: seq<Node>, b: seq<Node>, q: seq<Dir>, s: Tree)
    requires Linked(t, p, a) && Distinct(t) && p !in Ids(t) && Reaches(t, q)
    requires Linked(s, ParentId(t, p, q), b)
    requires KeptOutside(t, p, a, b, q)
    requires q != [] ==>
      var k := ParentId(t, p, q);
      0 <= k < |a| && k < |b| && b[k] == a[k].WithChild(q[|q| - 1], RootId(s))
    ensures Linked(Replace(t, q, s), p, b)
    decreases |q|
  {
    if q != [] {
      var e, rest := q[0], q[1..];
      ReplaceDescend(t, p, a, b, q, s);
      ReplaceLinked(t.Child(e), t.id, a, b, rest, s);
      ReplaceRecord(t, p, a, b, q, s);
    }
  }

  /** Every node of `t` outside the slot `q` and other than its parent keeps its record. */
  ghost predicate KeptOutside(t: Tree, p: int, a: seq<Node>, b: seq<Node>, q: seq<Dir>) {
    forall k :: k in Ids(t) && k !in Ids(At(t, q)) && k != ParentId(t, p, q) ==>
      0 <= k < |a| && k < |b| && b[k] == a[k]
  }

  /** What `ReplaceLinked` hands down to the subtree that holds the slot `q`. */
  lemma {:induction false} ReplaceDescend(t: Tree, p: int, a: seq<Node>, b: seq<Node>, q: seq<Dir>, s: Tree)
    requires Linked(t, p, a) && Distinct(t) && p !in Ids(t) && Reaches(t, q) && q != []
    requires Linked(s, ParentId(t, p, q), b)
    requires KeptOutside(t, p, a, b, q)
    requires var k := ParentId(t, p, q);
      0 <= k < |a| && k < |b| && b[k] == a[k].WithChild(q[|q| - 1], RootId(s))
    ensures t.Fork? && 0 <= t.id < |a| && t.id < |b|
    ensures var sub, rest := t.Child(q[0]), q[1..];
      Linked(sub, t.id, a) && Distinct(sub) && t.id !in Ids(sub) && Reaches(sub, rest) &&
      Linked(s, ParentId(sub, t.id, rest), b) && KeptOutside(sub, t.id, a, b, rest) &&
      (rest != [] ==>
        var k := ParentId(sub, t.id, rest);
        0 <= k < |a| && k < |b| && b[k] == a[k].WithChild(rest[|rest| - 1], RootId(s)))
    ensures q[1..] == [] ==> b[t.id] == a[t.id].WithChild(q[0], RootId(s))
    ensures q[1..] != [] ==> t.Child(q[0]).Fork? && b[t.id] == a[t.id]
    ensures Linked(t.Child(Flip(q[0])), t.id, b)
  {
    var e, rest := q[0], q[1..];
    var sub := t.Child(e);
    var other := t.Child(Flip(e));
    IdsFork(t);
    DistinctFork(t);
    AtIds(sub, rest);
    ParentIdDescend(t, p, q);
    assert t.id in Ids(t);
    LinkedFrame(other, t.id, a, b);
  }

  /** The record of the root of `t` after the slot `q` below it was rewritten. */
  lemma {:induction false} ReplaceRecord(t: Tree, p: int, a: seq<Node>, b: seq<Node>, q: seq<Dir>, s: Tree)
    requires t.Fork? && q != [] && 0 <= t.id < |a| && t.id < |b|
    requires a[t.id] == Node(RootId(t.left), RootId(t.right), p, t.val)
    requires q[1..] == [] ==> b[t.id] == a[t.id].WithChild(q[0], RootId(s))
    requires q[1..] != [] ==> t.Child(q[0]).Fork? && b[t.id] == a[t.id]
    requires Linked(Replace(t.Child(q[0]), q[1..], s), t.id, b) && Linked(t.Child(Flip(q[0])), t.id, b)
    ensures Linked(Replace(t, q, s), p, b)
  {
    var rest := q[1..];
    if rest != [] {
      ReplaceRoot(t.Child(q[0]), rest, s);
    }
  }

  /** Descending one step along `q`: the slot and its parent seen from the child subtree. */
  lemma {:induction false} ParentIdDescend(t: Tree, p: int, q: seq<Dir>)
    requires Reaches(t, q) && q != [] && ParentId(t, p, q) != Nil
    ensures t.Fork? && At(t, q) == At(t.Child(q[0]), q[1..])
    ensures ParentId(t, p, q) == ParentId(t.Child(q[0]), t.id, q[1..])
    ensures q[1..] == [] ==> ParentId(t, p, q) == t.id
    ensures q[1..] != [] ==> ParentId(t, p, q) in Ids(t.Child(q[0]))
  {
    var sub, rest := t.Child(q[0]), q[1..];
    if rest != [] {
      assert q[..|q| - 1] == [q[0]] + rest[..|rest| - 1];
      assert q[..|q| - 1][1..] == rest[..|rest| - 1];
      AtIds(sub, rest[..|rest| - 1]);
      assert ParentId(t, p, q) in Ids(sub);
    }
  }

  /** What a rotation leaves unchanged and what it rewrites. */
  lemma {:induction false} RotatedRecords(a: seq<Node>, n: int, d: Dir)
    requires Rotatable(a, n, d)
    requires var c := a[n].Child(d); var inner := a[c].Child(Flip(d)); var p := a[n].parent;
      c != n && p != n && p != c && inner != n && inner != c && (p == Nil || p != inner)
    ensures var b := Rotated(a, n, d);
      var c := a[n].Child(d); var inner := a[c].Child(Flip(d)); var p := a[n].parent;
      (forall k :: 0 <= k < |a| && k != n && k != c && k != inner && k != p ==> b[k] == a[k]) &&
      b[n] == a[n].(parent := c).WithChild(d, inner) &&
      b[c] == a[c].(parent := p).WithChild(Flip(d), n) &&
      (inner != Nil ==> b[inner] == a[inner].(parent := n)) &&
      (p != Nil ==> b[p] == if a[p].right == n then a[p].(right := c) else a[p].(left := c))
  {
  }

  /** The records of `b` are those of `a` rewritten as the rotation of `s` towards `d`
      rewrites them: the node `n` of `s`, its `d` child `c` and the inner grandchild change,
      every other node of `s` keeps its record. */
  ghost predicate RewrittenAsRotation(s: Tree, pid: int, a: seq<Node>, b: seq<Node>, d: Dir)
    requires s.Fork? && s.Child(d).Fork?
  {
    var n := s.id; var c := s.Child(d).id; var inner := RootId(s.Child(d).Child(Flip(d)));
    |b| == |a| &&
    (forall k :: k in Ids(s) && k != n && k != c && k != inner ==> 0 <= k < |a| && b[k] == a[k]) &&
    0 <= n < |a| && 0 <= c < |a| &&
    b[n] == a[n].(parent := c).WithChild(d, inner) &&
    b[c] == a[c].(parent := pid).WithChild(Flip(d), n) &&
    (inner != Nil ==> 0 <= inner < |a| && b[inner] == a[inner].(parent := n))
  }

  /** An arena whose records were rewritten as a rotation rewrites them lays out the rotated subtree. */
  lemma {:induction false} RotateLayout(s: Tree, pid: int, a: seq<Node>, b: seq<Node>, d: Dir)
    requires Linked(s, pid, a) && Distinct(s) && s.Fork? && s.Child(d).Fork?
    requires RewrittenAsRotation(s, pid, a, b, d)
    ensures Linked(Rotate(s, d), pid, b)
  {
    var x := s.Child(d);
    RotateLower(s, pid, a, b, d);
    RotateFrames(s, pid, a, b, d);
    assert Linked(x, s.id, a);
    if d == Left {
      assert Rotate(s, d) == Fork(x.left, x.id, x.val, Fork(x.right, s.id, s.val, s.right));
    } else {
      assert Rotate(s, d) == Fork(Fork(s.left, s.id, s.val, x.left), x.id, x.val, x.right);
    }
  }

  /** The demoted node `n`, with the inner grandchild and the far child under it, is laid
      out under `c`. */
  lemma {:induction false} RotateLower(s: Tree, pid: int, a: seq<Node>, b: seq<Node>, d: Dir)
    requires Linked(s, pid, a) && Distinct(s) && s.Fork? && s.Child(d).Fork?
    requires RewrittenAsRotation(s, pid, a, b, d)
    ensures Linked(Rotate(s, d).Child(Flip(d)), s.Child(d).id, b)
  {
    var n := s.id;
    var x := s.Child(d);
    var c := x.id;
    var inner := x.Child(Flip(d));
    var far := s.Child(Flip(d));
    IdsFork(s);
    IdsFork(x);
    DistinctFork(s);
    DistinctFork(x);
    if inner.Fork? {
      IdsFork(inner);
      assert inner.id in Ids(inner);
      LinkedReparent(inner, c, n, a, b);
    }
    RotateFrames(s, pid, a, b, d);
    if d == Left {
      assert Rotate(s, d).Child(Flip(d)) == Fork(inner, n, s.val, far);
    } else {
      assert Rotate(s, d).Child(Flip(d)) == Fork(far, n, s.val, inner);
    }
  }

  /** The outer grandchild and the far child keep their records, under `c` and `n`. */
  lemma {:induction false} RotateFrames(s: Tree, pid: int, a: seq<Node>, b: seq<Node>, d: Dir)
    requires Linked(s, pid, a) && Distinct(s) && s.Fork? && s.Child(d).Fork?
    requires RewrittenAsRotation(s, pid, a, b, d)
    ensures Linked(s.Child(d).Child(d), s.Child(d).id, b)
    ensures Linked(s.Child(Flip(d)), s.id, b)
  {
    var n := s.id;
    var x := s.Child(d);
    var c := x.id;
    var inner := x.Child(Flip(d));
    var outer := x.Child(d);
    var far := s.Child(Flip(d));
    IdsFork(s);
    IdsFork(x);
    DistinctFork(s);
    DistinctFork(x);
    if inner.Fork? {
      IdsFork(inner);
      assert inner.id in Ids(inner);
    }
    if d == Left {
      assert outer == x.left && inner == x.right && far == s.right;
    } else {
      assert outer == x.right && inner == x.left && far == s.left;
    }
    LinkedIds(s, pid, a);
    assert Ids(x) <= Ids(s);
    forall k | k in Ids(outer) ensures 0 <= k < |a| && k < |b| && b[k] == a[k] {
      assert k in Ids(x) && k != c && k != n && k !in Ids(inner);
      assert k != RootId(inner);
    }
    LinkedFrame(outer, c, a, b);
    forall k | k in Ids(far) ensures 0 <= k < |a| && k < |b| && b[k] == a[k] {
      assert k !in Ids(x) && k != n && k != RootId(inner);
    }
    LinkedFrame(far, n, a, b);
  }

  /** The rotated subtree is laid out where the subtree used to be. */
  lemma {:induction false} RotateLocal(s: Tree, pid: int, a: seq<Node>, d: Dir)
    requires Linked(s, pid, a) && Distinct(s) && pid !in Ids(s) && (pid == Nil || 0 <= pid < |a|)
    requires s.Fork? && s.Child(d).Fork?
    ensures Rotatable(a, s.id, d)
    ensures Linked(Rotate(s, d), pid, Rotated(a, s.id, d))
    ensures var b := Rotated(a, s.id, d);
      forall k :: 0 <= k < |a| && k !in Ids(s) && k != pid ==> b[k] == a[k]
    ensures pid != Nil ==> var b := Rotated(a, s.id, d);
      b[pid] == if a[pid].right == s.id then a[pid].(right := s.Child(d).id)
                else a[pid].(left := s.Child(d).id)
  {
    var n := s.id;
    var x := s.Child(d);
    var c := x.id;
    var inner := RootId(x.Child(Flip(d)));
    IdsFork(s);
    IdsFork(x);
    DistinctFork(s);
    DistinctFork(x);
    LinkedIds(s, pid, a);
    if x.Child(Flip(d)).Fork? {
      IdsFork(x.Child(Flip(d)));
    }
    assert inner == Nil || inner in Ids(x);
    assert Rotatable(a, n, d);
    RotatedRecords(a, n, d);
    RotateLayout(s, pid, a, Rotated(a, n, d), d);
  }

  /** `rightRotate`/`leftRotate` of the node at `q` lays out the rotated tree. */
  lemma {:induction false} RotateLinked(t: Tree, a: seq<Node>, q: seq<Dir>, d: Dir)
    requires Linked(t, Nil, a) && Distinct(t)
    requires At(t, q).Fork? && At(t, q).Child(d).Fork?
    ensures Rotatable(a, At(t, q).id, d)
    ensures Linked(Replace(t, q, Rotate(At(t, q), d)), Nil, Rotated(a, At(t, q).id, d))
  {
    var s := At(t, q);
    var pid := ParentId(t, Nil, q);
    NodeLinks(t, a, q);
    LinkedAt(t, Nil, a, q);
    AtForkReaches(t, q);
    DistinctAt(t, q);
    LinkedIds(t, Nil, a);
    AtIds(t, q);
    assert pid !in Ids(s) by {
      if q == [] {
        assert Nil !in Ids(t);
      }
    }
    RotateLocal(s, pid, a, d);
    var b := Rotated(a, s.id, d);
    var r := Rotate(s, d);
    assert RootId(r) == s.Child(d).id;
    assert Nil !in Ids(t);
    ReplaceLinked(t, Nil, a, b, q, r);
  }

  /** Hanging a new leaf node, appended to the arena, into the empty `d` slot under the node at `q`. */
  lemma {:induction false} AttachLinked(t: Tree, a: seq<Node>, q: seq<Dir>, d: Dir, v: int)
    requires Linked(t, Nil, a) && Distinct(t)
    requires At(t, q).Fork? && At(t, q).Child(d).Leaf?
    ensures 0 <= At(t, q).id < |a|
    ensures var k := |a|; var pid := At(t, q).id;
      var b := (a + [Node(Nil, Nil, pid, v)])[pid := a[pid].WithChild(d, k)];
      Linked(Replace(t, q + [d], Fork(Leaf, k, v, Leaf)), Nil, b)
  {
    var k := |a|;
    var pid := At(t, q).id;
    LinkedIds(t, Nil, a);
    AtIds(t, q);
    IdsFork(At(t, q));
    assert pid in Ids(t);
    var b := (a + [Node(Nil, Nil, pid, v)])[pid := a[pid].WithChild(d, k)];
    var s := Fork(Leaf, k, v, Leaf);
    var qd := q + [d];
    AtForkReaches(t, q);
    AtSnoc(t, q, d);
    assert qd[..|qd| - 1] == q;
    NodeLinks(t, a, q);
    assert ParentId(t, Nil, qd) == pid;
    assert Linked(s, pid, b);
    assert Nil !in Ids(t);
    ReplaceLinked(t, Nil, a, b, qd, s);
  }

  /** The value held by each record of the arena, slot by slot. */
  function Stored(a: seq<Node>): (vs: seq<int>)
    ensures |vs| == |a| && forall k :: 0 <= k < |a| ==> vs[k] == a[k].value
  {
    seq(|a|, k requires 0 <= k < |a| => a[k].value)
  }

  /** A rotation rewrites links only: every record keeps its value. */
  lemma {:induction false} RotatedValues(a: seq<Node>, n: int, d: Dir)
    requires Rotatable(a, n, d)
    ensures Stored(Rotated(a, n, d)) == Stored(a)
  {
    assert forall k :: 0 <= k < |a| ==> Rotated(a, n, d)[k].value == a[k].value;
  }

  /** The arena with the subtree rooted at `r` hung as the right child of `lid` (nothing
      changes when `r` is no node). */
  ghost function HungRight(a: seq<Node>, lid: int, r: int): (b: seq<Node>)
    requires 0 <= lid < |a| && (r == Nil || 0 <= r < |a|) && r != lid
    ensures |b| == |a|
    ensures r != Nil ==> b[lid] == a[lid].(right := r) && b[r] == a[r].(parent := lid)
    ensures r == Nil ==> b == a
    ensures forall k :: 0 <= k < |a| && k != lid && k != r ==> b[k] == a[k]
    ensures Stored(b) == Stored(a)
  {
    if r == Nil then a
    else var a1 := a[lid := a[lid].(right := r)]; a1[r := a1[r].(parent := lid)]
  }

  /** The arena after `erase` unlinks the root `t`: the right subtree is hung under `lid`,
      the rightmost node of the left subtree, and the root of the left subtree loses its
      parent. */
  ghost function Spliced(t: Tree, a: seq<Node>, lid: int): (b: seq<Node>)
    requires t.Fork? && t.left.Fork? && 0 <= lid < |a| && 0 <= t.left.id < |a|
    requires RootId(t.right) == Nil || 0 <= RootId(t.right) < |a|
    requires RootId(t.right) != lid
    ensures Stored(b) == Stored(a)
  {
    var a2 := HungRight(a, lid, RootId(t.right));
    a2[t.left.id := a2[t.left.id].(parent := Nil)]
  }

  /** What `HungRight` rewrites: `r` now hangs under `lid`, whose right link names it, and
      the other records of `l` are untouched. */
  lemma {:induction false} HangRecords(l: Tree, r: Tree, pid: int, a: seq<Node>, lid: int)
    requires Linked(l, pid, a) && Linked(r, pid, a) && Distinct(r) && Ids(l) !! Ids(r)
    requires lid in Ids(l) && 0 <= lid < |a| && a[lid].right == Nil
    ensures RootId(r) == Nil || 0 <= RootId(r) < |a|
    ensures RootId(r) != lid
    ensures Linked(r, lid, HungRight(a, lid, RootId(r)))
    ensures forall k :: k in Ids(l) && k != lid ==> 0 <= k < |a| && HungRight(a, lid, RootId(r))[k] == a[k]
    ensures HungRight(a, lid, RootId(r))[lid] == a[lid].WithChild(Right, RootId(r))
  {
    LinkedIds(l, pid, a);
    LinkedIds(r, pid, a);
    if r.Fork? {
      IdsFork(r);
      var b := HungRight(a, lid, r.id);
      LinkedReparent(r, pid, lid, a, b);
    }
  }

  /** Hanging the right subtree of the root under the rightmost node `q` of its left
      subtree lays out the left subtree with the right one in that slot. */
  lemma {:induction false} SpliceHang(t: Tree, a: seq<Node>, q: seq<Dir>)
    requires Linked(t, Nil, a) && Distinct(t) && t.Fork? && t.left.Fork?
    requires At(t.left, q).Fork? && At(t.left, q).right.Leaf?
    requires forall j :: 0 <= j < |q| ==> q[j] == Right
    ensures 0 <= At(t.left, q).id < |a| && 0 <= t.left.id < |a|
    ensures RootId(t.right) == Nil || 0 <= RootId(t.right) < |a|
    ensures RootId(t.right) != At(t.left, q).id
    ensures var s := Replace(t.left, q + [Right], t.right);
      s.Fork? && s.id == t.left.id && Order(s) == Order(t.left) + Order(t.right) &&
      Linked(s, t.id, HungRight(a, At(t.left, q).id, RootId(t.right)))
  {
    var l, r, qr := t.left, t.right, q + [Right];
    var lid := At(l, q).id;
    IdsFork(t);
    DistinctFork(t);
    LinkedIds(t, Nil, a);
    AtIds(l, q);
    assert Linked(l, t.id, a);
    LinkedAt(l, t.id, a, q);
    SpliceOrder(l, q, r);
    ReplaceRoot(l, qr, r);
    HangRecords(l, r, t.id, a, lid);
    var a2 := HungRight(a, lid, RootId(r));
    assert ParentId(l, t.id, qr) == lid by {
      assert qr[..|qr| - 1] == q;
    }
    AtSnoc(l, q, Right);
    ReplaceLinked(l, t.id, a, a2, qr, r);
  }

  /** The whole splice of `erase`: the left subtree, with the right one hung under its
      rightmost node `q`, is laid out as a tree of its own by `Spliced`. */
  lemma {:induction false} SpliceLinked(t: Tree, a: seq<Node>, q: seq<Dir>)
    requires Linked(t, Nil, a) && Distinct(t) && t.Fork? && t.left.Fork?
    requires At(t.left, q).Fork? && At(t.left, q).right.Leaf?
    requires forall j :: 0 <= j < |q| ==> q[j] == Right
    ensures 0 <= At(t.left, q).id < |a| && 0 <= t.left.id < |a|
    ensures RootId(t.right) == Nil || 0 <= RootId(t.right) < |a|
    ensures RootId(t.right) != At(t.left, q).id
    ensures var s := Replace(t.left, q + [Right], t.right);
      s.Fork? && s.id == t.left.id && Distinct(s) && Order(s) == Order(t.left) + Order(t.right) &&
      Linked(s, Nil, Spliced(t, a, At(t.left, q).id))
  {
    SpliceHang(t, a, q);
    var s := Replace(t.left, q + [Right], t.right);
    DistinctFork(t);
    IdsFork(t);
    UniqueConcat(Order(t.left), Order(t.right));
    var lid := At(t.left, q).id;
    var a2 := HungRight(a, lid, RootId(t.right));
    LinkedIds(s, t.id, a2);
    assert forall k :: k in Ids(s) && k != s.id ==> Spliced(t, a, lid)[k] == a2[k];
    LinkedReparent(s, t.id, Nil, HungRight(a, lid, RootId(t.right)), Spliced(t, a, lid));
  }

  // ---------------------------------------------------------------------------
  // Copying (dfsCreate)

  /** `ml` and `mr` index a least and a greatest of the values `vs`, or are `Nil` when
      there are none. */
  ghost predicate Extremes(vs: seq<int>, ml: int, mr: int) {
    (vs == [] ==> ml == Nil && mr == Nil) &&
    (vs != [] ==>
      0 <= ml < |vs| && 0 <= mr < |vs| && forall k :: 0 <= k < |vs| ==> vs[ml] <= vs[k] <= vs[mr])
  }

  /** The comparisons `dfsCreate` makes for a new record keep the caches on the extremes. */
  lemma {:induction false} ExtremesAppend(vs: seq<int>, ml: int, mr: int, v: int)
    requires Extremes(vs, ml, mr)
    ensures Extremes(vs + [v],
      if ml == Nil || v < vs[ml] then |vs| else ml,
      if mr == Nil || vs[mr] < v then |vs| else mr)
  {
    var ws := vs + [v];
    assert forall k :: 0 <= k < |vs| ==> ws[k] == vs[k];
  }

  /** The parent links `dfsCreate` sets on the roots `l` and `r` of the copied subtrees. */
  ghost function Adopt(a: seq<Node>, node: int, l: int, r: int): (b: seq<Node>)
    requires l == Nil || 0 <= l < |a|
    requires r == Nil || 0 <= r < |a|
    ensures |b| == |a| && Stored(b) == Stored(a)
  {
    var a1 := if l == Nil then a else a[l := a[l].(parent := node)];
    var b := if r == Nil then a1 else a1[r := a1[r].(parent := node)];
    assert forall k :: 0 <= k < |a| ==> Stored(b)[k] == Stored(a)[k];
    b
  }

  /** One step of `dfsCreate`: the record appended for `node` (`a1`), the left subtree
      copied after it (`a2`), the left link set (`a3`), the right subtree copied after that
      (`a4`), the right link set and both parent links set, lay out the copied subtree. */
  lemma {:induction false} CopyStep(tl: Tree, tr: Tree, a1: seq<Node>, a2: seq<Node>, a4: seq<Node>, b: seq<Node>, node: int, v: int)
    requires 0 <= node && |a1| == node + 1 && a1[node] == Node(Nil, Nil, Nil, v)
    requires |a1| <= |a2| && a2[..|a1|] == a1
    requires Linked(tl, Nil, a2) && Distinct(tl) && Spans(tl, node + 1, |a2|)
    requires |a2| <= |a4| && a4[..|a2|] == a2[node := a2[node].(left := RootId(tl))]
    requires Linked(tr, Nil, a4) && Distinct(tr) && Spans(tr, |a2|, |a4|)
    requires b == Adopt(a4[node := a4[node].(right := RootId(tr))], node, RootId(tl), RootId(tr))
    ensures Linked(Fork(tl, node, v, tr), Nil, b) && Distinct(Fork(tl, node, v, tr)) &&
      Spans(Fork(tl, node, v, tr), node, |b|) && b[..node] == a1[..node] && Stored(b) == Stored(a4)
  {
    var a3 := a2[node := a2[node].(left := RootId(tl))];
    var a5 := a4[node := a4[node].(right := RootId(tr))];
    SpanRoot(tl, node + 1, |a2|);
    SpanRoot(tr, |a2|, |a4|);
    assert forall k :: 0 <= k < |a2| ==> a4[k] == a3[k];
    assert forall k :: 0 <= k < |a4| && k != node && k != RootId(tl) && k != RootId(tr) ==> b[k] == a4[k];
    ReparentCopy(tl, a2, b, node, node + 1, |a2|);
    ReparentCopy(tr, a4, b, node, |a2|, |a4|);
    assert b[node] == Node(RootId(tl), RootId(tr), Nil, v);
    assert forall k :: 0 <= k < node ==> b[k] == a1[k] by {
      forall k | 0 <= k < node ensures b[k] == a1[k] {
        assert a2[k] == a1[k];
      }
    }
    ForkSpans(tl, tr, node, v, |a2|, |a4|);
  }

  /** The root of a subtree whose ids span `lo`, ..., `hi - 1` lies in that range. */
  lemma {:induction false} SpanRoot(t: Tree, lo: int, hi: int)
    requires Spans(t, lo, hi)
    ensures t.Fork? ==> lo <= t.id < hi
  {
    if t.Fork? {
      IdsFork(t);
    }
  }

  /** A copied subtree laid out with no parent, in the slots `lo`, ..., `hi - 1`, is laid
      out under `node` once its root record points at `node`. */
  lemma {:induction false} ReparentCopy(t: Tree, a: seq<Node>, b: seq<Node>, node: int, lo: int, hi: int)
    requires Linked(t, Nil, a) && Distinct(t) && Spans(t, lo, hi) && 0 <= lo && hi <= |a| && hi <= |b|
    requires t.Fork? ==> 0 <= t.id < |a| && t.id < |b| && b[t.id] == a[t.id].(parent := node)
    requires forall k :: lo <= k < hi && k != RootId(t) ==> b[k] == a[k]
    ensures Linked(t, node, b)
  {
    if t.Fork? {
      IdsFork(t);
      LinkedReparent(t, Nil, node, a, b);
    }
  }
}
