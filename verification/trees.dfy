/** The shape of a splay tree, as a value.

    A `Tree` records, for every node of the set, the arena index of the node (`id`)
    and the value stored in it (`val`).  The class `SplayTree.SplaySet` keeps one
    such tree as ghost state and proves that its arena of linked nodes lays it out.
    Everything the set promises is stated over `Order(t)`, the in-order sequence of
    entries, and over paths from the root (`seq<Dir>`).
 */
module Trees {

  /** The index that stands for a null node pointer. */
  const Nil: int := -1

  datatype Dir = Left | Right

  function Flip(d: Dir): Dir {
    if d == Left then Right else Left
  }

  /** One stored element: the index of its node and its value. */
  datatype Entry = Entry(id: int, val: int)

  datatype Tree = Leaf | Fork(left: Tree, id: int, val: int, right: Tree)
  {
    function Child(d: Dir): Tree
      requires Fork?
    {
      if d == Left then left else right
    }
  }

  /** The index of the root node, `Nil` for the empty tree. */
  function RootId(t: Tree): int {
    if t.Fork? then t.id else Nil
  }

  /** The entries of `t` in symmetric (in-order) order. */
  function Order(t: Tree): seq<Entry> {
    match t
    case Leaf => []
    case Fork(l, i, v, r) => Order(l) + [Entry(i, v)] + Order(r)
  }

  function IdsOf(es: seq<Entry>): set<int> {
    set e | e in es :: e.id
  }

  function Ids(t: Tree): set<int> {
    IdsOf(Order(t))
  }

  /** The values of a run of entries, in the same order. */
  function Values(es: seq<Entry>): (vs: seq<int>)
    ensures |vs| == |es|
    ensures forall k :: 0 <= k < |es| ==> vs[k] == es[k].val
  {
    if es == [] then [] else [es[0].val] + Values(es[1..])
  }

  /** No node index occurs twice. */
  ghost predicate Unique(es: seq<Entry>) {
    forall i, j :: 0 <= i < j < |es| ==> es[i].id != es[j].id
  }

  ghost predicate Distinct(t: Tree) {
    Unique(Order(t))
  }

  /** Strictly increasing values: the binary-search-tree ordering of the nodes. */
  ghost predicate Increasing(es: seq<Entry>) {
    forall i, j :: 0 <= i < j < |es| ==> es[i].val < es[j].val
  }

  /** The subtree reached from the root of `t` by following `p` (`Leaf` once the path falls off). */
  function At(t: Tree, p: seq<Dir>): Tree
    decreases |p|
  {
    if p == [] then t
    else if t.Leaf? then Leaf
    else At(t.Child(p[0]), p[1..])
  }

  /** Every proper prefix of `p` ends on a node, so `p` names a slot of `t` (maybe an empty one). */
  ghost predicate Reaches(t: Tree, p: seq<Dir>)
    decreases |p|
  {
    p == [] || (t.Fork? && Reaches(t.Child(p[0]), p[1..]))
  }

  /** `t` with the subtree at `p` replaced by `s`. */
  function Replace(t: Tree, p: seq<Dir>, s: Tree): Tree
    decreases |p|
  {
    if p == [] then s
    else if t.Leaf? then Leaf
    else if p[0] == Left then Fork(Replace(t.left, p[1..], s), t.id, t.val, t.right)
    else Fork(t.left, t.id, t.val, Replace(t.right, p[1..], s))
  }

  /** The entries that come before the subtree at `p` in symmetric order. */
  function Before(t: Tree, p: seq<Dir>): seq<Entry>
    decreases |p|
  {
    if p == [] || t.Leaf? then []
    else if p[0] == Left then Before(t.left, p[1..])
    else Order(t.left) + [Entry(t.id, t.val)] + Before(t.right, p[1..])
  }

  /** The entries that come after the subtree at `p` in symmetric order. */
  function After(t: Tree, p: seq<Dir>): seq<Entry>
    decreases |p|
  {
    if p == [] || t.Leaf? then []
    else if p[0] == Left then After(t.left, p[1..]) + [Entry(t.id, t.val)] + Order(t.right)
    else After(t.right, p[1..])
  }

  /** Promotes the `d` child of `t` into the place of `t`: `Left` is a right rotation, `Right` a left one. */
  function Rotate(t: Tree, d: Dir): Tree
    requires t.Fork? && t.Child(d).Fork?
  {
    var c := t.Child(d);
    if d == Left then Fork(c.left, c.id, c.val, Fork(c.right, t.id, t.val, t.right))
    else Fork(Fork(t.left, t.id, t.val, c.left), c.id, c.val, c.right)
  }

  /** The position of the last turn towards `d` on `p`, or -1 when `p` never turns that way. */
  function LastTurn(p: seq<Dir>, d: Dir): (k: int)
    ensures -1 <= k < |p|
    ensures k >= 0 ==> p[k] == d
    ensures forall j :: k < j < |p| ==> p[j] != d
  {
    if p == [] then -1
    else if p[|p| - 1] == d then |p| - 1
    else LastTurn(p[..|p| - 1], d)
  }

  /** The path to the node with index `k`. */
  ghost function PathTo(t: Tree, k: int): (p: seq<Dir>)
    requires k in Ids(t)
    ensures At(t, p).Fork? && At(t, p).id == k
    decreases t
  {
    IdsFork(t);
    if t.id == k then []
    else if k in Ids(t.left) then [Left] + PathTo(t.left, k)
    else [Right] + PathTo(t.right, k)
  }

  // ---------------------------------------------------------------------------
  // Entries, indices and values

  lemma {:induction false} IdsOfConcat(a: seq<Entry>, b: seq<Entry>)
    ensures IdsOf(a + b) == IdsOf(a) + IdsOf(b)
  {
    forall x | x in IdsOf(a + b) ensures x in IdsOf(a) + IdsOf(b) {
      var e :| e in a + b && e.id == x;
      assert e in a || e in b;
    }
    forall x | x in IdsOf(a) + IdsOf(b) ensures x in IdsOf(a + b) {
      if x in IdsOf(a) {
        var e :| e in a && e.id == x;
        assert e in a + b;
      } else {
        var e :| e in b && e.id == x;
        assert e in a + b;
      }
    }
  }

  lemma {:induction false} IdsFork(t: Tree)
    requires t.Fork?
    ensures Ids(t) == Ids(t.left) + {t.id} + Ids(t.right)
  {
    IdsOfConcat(Order(t.left) + [Entry(t.id, t.val)], Order(t.right));
    IdsOfConcat(Order(t.left), [Entry(t.id, t.val)]);
    assert IdsOf([Entry(t.id, t.val)]) == {t.id};
  }

  lemma {:induction false} ValuesConcat(a: seq<Entry>, b: seq<Entry>)
    ensures Values(a + b) == Values(a) + Values(b)
  {
  }

  /** An index is stored iff some entry carries it. */
  lemma {:induction false} IdsOfIndex(es: seq<Entry>, x: int)
    ensures x in IdsOf(es) <==> exists k :: 0 <= k < |es| && es[k].id == x
  {
    if x in IdsOf(es) {
      var e :| e in es && e.id == x;
      var k :| 0 <= k < |es| && es[k] == e;
    }
  }

  /** Uniqueness of a concatenation splits into its parts and their disjointness. */
  lemma {:induction false} UniqueConcat(a: seq<Entry>, b: seq<Entry>)
    ensures Unique(a + b) <==> Unique(a) && Unique(b) && IdsOf(a) !! IdsOf(b)
  {
    var ab := a + b;
    if Unique(ab) {
      assert Unique(a) by {
        forall i, j | 0 <= i < j < |a| ensures a[i].id != a[j].id {
          assert ab[i] == a[i] && ab[j] == a[j];
        }
      }
      assert Unique(b) by {
        forall i, j | 0 <= i < j < |b| ensures b[i].id != b[j].id {
          assert ab[|a| + i] == b[i] && ab[|a| + j] == b[j];
        }
      }
      forall x | x in IdsOf(a) ensures x !in IdsOf(b) {
        IdsOfIndex(a, x);
        IdsOfIndex(b, x);
        var i :| 0 <= i < |a| && a[i].id == x;
        forall j | 0 <= j < |b| ensures b[j].id != x {
          assert ab[i] == a[i] && ab[|a| + j] == b[j];
        }
      }
    }
    if Unique(a) && Unique(b) && IdsOf(a) !! IdsOf(b) {
      forall i, j | 0 <= i < j < |ab| ensures ab[i].id != ab[j].id {
        if j < |a| {
          assert ab[i] == a[i] && ab[j] == a[j];
        } else if |a| <= i {
          assert ab[i] == b[i - |a|] && ab[j] == b[j - |a|];
        } else {
          assert ab[i] == a[i] && ab[j] == b[j - |a|];
          IdsOfIndex(a, a[i].id);
          IdsOfIndex(b, b[j - |a|].id);
        }
      }
    }
  }

  /** What `Distinct` says about the two subtrees and the root of a node. */
  lemma {:induction false} DistinctFork(t: Tree)
    requires t.Fork? && Distinct(t)
    ensures Distinct(t.left) && Distinct(t.right)
    ensures t.id !in Ids(t.left) && t.id !in Ids(t.right)
    ensures Ids(t.left) !! Ids(t.right)
  {
    var e := [Entry(t.id, t.val)];
    UniqueConcat(Order(t.left) + e, Order(t.right));
    UniqueConcat(Order(t.left), e);
    IdsOfConcat(Order(t.left), e);
    assert IdsOf(e) == {t.id};
  }

  /** Increasing order splits the same way: all of the left below the root, all of the right above. */
  lemma {:induction false} IncreasingConcat(a: seq<Entry>, b: seq<Entry>)
    ensures Increasing(a + b) <==>
      Increasing(a) && Increasing(b) &&
      forall i, j :: 0 <= i < |a| && 0 <= j < |b| ==> a[i].val < b[j].val
  {
    var ab := a + b;
    if Increasing(ab) {
      forall i, j | 0 <= i < j < |a| ensures a[i].val < a[j].val {
        assert ab[i] == a[i] && ab[j] == a[j];
      }
      forall i, j | 0 <= i < j < |b| ensures b[i].val < b[j].val {
        assert ab[|a| + i] == b[i] && ab[|a| + j] == b[j];
      }
      forall i, j | 0 <= i < |a| && 0 <= j < |b| ensures a[i].val < b[j].val {
        assert ab[i] == a[i] && ab[|a| + j] == b[j];
      }
    }
    if Increasing(a) && Increasing(b) && forall i, j :: 0 <= i < |a| && 0 <= j < |b| ==> a[i].val < b[j].val {
      forall i, j | 0 <= i < j < |ab| ensures ab[i].val < ab[j].val {
        if j < |a| {
          assert ab[i] == a[i] && ab[j] == a[j];
        } else if |a| <= i {
          assert ab[i] == b[i - |a|] && ab[j] == b[j - |a|];
        } else {
          assert ab[i] == a[i] && ab[j] == b[j - |a|];
        }
      }
    }
  }

  // ---------------------------------------------------------------------------
  // Paths

  lemma {:induction false} AtSnoc(t: Tree, p: seq<Dir>, d: Dir)
    requires At(t, p).Fork?
    ensures At(t, p + [d]) == At(t, p).Child(d)
    decreases |p|
  {
    if p != [] {
      assert (p + [d])[1..] == p[1..] + [d];
      AtSnoc(t.Child(p[0]), p[1..], d);
    }
  }

  /** A path that ends on a node passes through nodes only, and its prefixes end on nodes. */
  lemma {:induction false} AtForkReaches(t: Tree, p: seq<Dir>)
    requires At(t, p).Fork?
    ensures Reaches(t, p)
    ensures forall d :: Reaches(t, p + [d])
    decreases |p|
  {
    if p != [] {
      assert t.Fork?;
      AtForkReaches(t.Child(p[0]), p[1..]);
      forall d ensures Reaches(t, p + [d]) {
        assert (p + [d])[1..] == p[1..] + [d];
      }
    }
  }

  lemma {:induction false} AtPrefix(t: Tree, p: seq<Dir>, k: nat)
    requires At(t, p).Fork? && k <= |p|
    ensures At(t, p[..k]).Fork?
    decreases |p|
  {
    if k > 0 {
      assert p[..k][1..] == p[1..][..k - 1];
      AtPrefix(t.Child(p[0]), p[1..], k - 1);
    }
  }

  /** The subtree at the parent slot, and the relation of a node to its parent. */
  lemma {:induction false} AtParent(t: Tree, p: seq<Dir>)
    requires At(t, p).Fork? && p != []
    ensures At(t, p[..|p| - 1]).Fork?
    ensures At(t, p[..|p| - 1]).Child(p[|p| - 1]) == At(t, p)
  {
    var q := p[..|p| - 1];
    AtPrefix(t, p, |p| - 1);
    assert p == q + [p[|p| - 1]];
    AtSnoc(t, q, p[|p| - 1]);
  }

  lemma {:induction false} AtIds(t: Tree, p: seq<Dir>)
    ensures Ids(At(t, p)) <= Ids(t)
    decreases |p|
  {
    if p != [] && t.Fork? {
      IdsFork(t);
      AtIds(t.Child(p[0]), p[1..]);
    }
  }

  lemma {:induction false} SplitReplace(t: Tree, p: seq<Dir>, s: Tree)
    requires Reaches(t, p)
    ensures Order(Replace(t, p, s)) == Before(t, p) + Order(s) + After(t, p)
    decreases |p|
  {
    if p != [] {
      SplitReplace(t.Child(p[0]), p[1..], s);
    }
  }

  lemma {:induction false} ReplaceSelf(t: Tree, p: seq<Dir>)
    ensures Replace(t, p, At(t, p)) == t
    decreases |p|
  {
    if p != [] && t.Fork? {
      ReplaceSelf(t.Child(p[0]), p[1..]);
    }
  }

  /** The symmetric order of `t` around the subtree at `p`. */
  lemma {:induction false} Split(t: Tree, p: seq<Dir>)
    requires Reaches(t, p)
    ensures Order(t) == Before(t, p) + Order(At(t, p)) + After(t, p)
  {
    SplitReplace(t, p, At(t, p));
    ReplaceSelf(t, p);
  }

  lemma {:induction false} AtReplace(t: Tree, p: seq<Dir>, s: Tree, q: seq<Dir>)
    requires Reaches(t, p)
    ensures At(Replace(t, p, s), p + q) == At(s, q)
    decreases |p|
  {
    if p == [] {
      assert p + q == q;
    } else {
      assert (p + q)[1..] == p[1..] + q;
      AtReplace(t.Child(p[0]), p[1..], s, q);
    }
  }

  /** Replacing below a node keeps that node at the root. */
  lemma {:induction false} ReplaceRoot(t: Tree, p: seq<Dir>, s: Tree)
    requires t.Fork? && p != []
    ensures Replace(t, p, s).Fork? && Replace(t, p, s).id == t.id && Replace(t, p, s).val == t.val
  {
  }

  lemma {:induction false} RotateOrder(t: Tree, d: Dir)
    requires t.Fork? && t.Child(d).Fork?
    ensures Order(Rotate(t, d)) == Order(t)
  {
    var c := t.Child(d);
    if d == Left {
      calc {
        Order(Rotate(t, d));
        Order(c.left) + [Entry(c.id, c.val)] + (Order(c.right) + [Entry(t.id, t.val)] + Order(t.right));
        Order(t);
      }
    } else {
      calc {
        Order(Rotate(t, d));
        Order(t.left) + [Entry(t.id, t.val)] + Order(c.left) + [Entry(c.id, c.val)] + Order(c.right);
        Order(t);
      }
    }
  }

  /** A rotation anywhere in the tree keeps its symmetric order, hence its contents and ordering. */
  lemma {:induction false} RotateAtOrder(t: Tree, p: seq<Dir>, d: Dir)
    requires At(t, p).Fork? && At(t, p).Child(d).Fork?
    ensures Order(Replace(t, p, Rotate(At(t, p), d))) == Order(t)
  {
    AtForkReaches(t, p);
    SplitReplace(t, p, Rotate(At(t, p), d));
    RotateOrder(At(t, p), d);
    Split(t, p);
  }

  // ---------------------------------------------------------------------------
  // Neighbours in symmetric order

  lemma {:induction false} LastTurnCons(x: Dir, p: seq<Dir>, d: Dir)
    ensures LastTurn([x] + p, d) ==
      if LastTurn(p, d) >= 0 then LastTurn(p, d) + 1 else if x == d then 0 else -1
    decreases |p|
  {
    var xp := [x] + p;
    if p != [] {
      assert xp[..|xp| - 1] == [x] + p[..|p| - 1];
      if p[|p| - 1] != d {
        LastTurnCons(x, p[..|p| - 1], d);
      }
    }
  }

  /** The entry right after the subtree at `p` is the node where the path last turned left. */
  lemma {:induction false} AfterHead(t: Tree, p: seq<Dir>)
    requires Reaches(t, p)
    ensures After(t, p) == [] <==> LastTurn(p, Left) == -1
    ensures After(t, p) != [] ==>
      At(t, p[..LastTurn(p, Left)]).Fork? &&
      After(t, p)[0] == Entry(At(t, p[..LastTurn(p, Left)]).id, At(t, p[..LastTurn(p, Left)]).val)
    decreases |p|
  {
    if p != [] {
      var rest := p[1..];
      assert p == [p[0]] + rest;
      LastTurnCons(p[0], rest, Left);
      AfterHead(t.Child(p[0]), rest);
      var k := LastTurn(rest, Left);
      if k >= 0 {
        assert p[..k + 1][1..] == rest[..k];
      }
    }
  }

  /** The entry right before the subtree at `p` is the node where the path last turned right. */
  lemma {:induction false} BeforeLast(t: Tree, p: seq<Dir>)
    requires Reaches(t, p)
    ensures Before(t, p) == [] <==> LastTurn(p, Right) == -1
    ensures Before(t, p) != [] ==>
      At(t, p[..LastTurn(p, Right)]).Fork? &&
      Before(t, p)[|Before(t, p)| - 1] ==
        Entry(At(t, p[..LastTurn(p, Right)]).id, At(t, p[..LastTurn(p, Right)]).val)
    decreases |p|
  {
    if p != [] {
      var rest := p[1..];
      assert p == [p[0]] + rest;
      LastTurnCons(p[0], rest, Right);
      BeforeLast(t.Child(p[0]), rest);
      var k := LastTurn(rest, Right);
      if k >= 0 {
        assert p[..k + 1][1..] == rest[..k];
      }
      if p[0] == Right {
        var pre, bt := Order(t.left) + [Entry(t.id, t.val)], Before(t.right, rest);
        assert Before(t, p) == pre + bt;
        if bt != [] {
          assert (pre + bt)[|pre + bt| - 1] == bt[|bt| - 1];
        }
      }
    }
  }

  /** The first and last entries of a node's subtree. */
  lemma {:induction false} FirstLast(t: Tree)
    requires t.Fork?
    ensures Order(t) != []
    ensures Order(t)[0] == if t.left.Leaf? then Entry(t.id, t.val) else Order(t.left)[0]
    ensures Order(t)[|Order(t)| - 1] ==
      if t.right.Leaf? then Entry(t.id, t.val) else Order(t.right)[|Order(t.right)| - 1]
  {
  }

  /** A new entry put into an empty slot lands between the entries before and after that slot. */
  lemma {:induction false} AttachOrder(t: Tree, q: seq<Dir>, s: Tree)
    requires Reaches(t, q) && At(t, q).Leaf? && Distinct(t) && Distinct(s) && Ids(s) !! Ids(t)
    ensures Order(Replace(t, q, s)) == Before(t, q) + Order(s) + After(t, q)
    ensures Order(t) == Before(t, q) + After(t, q)
    ensures Distinct(Replace(t, q, s))
  {
    SplitReplace(t, q, s);
    Split(t, q);
    var b, m, e := Before(t, q), Order(s), After(t, q);
    assert Order(t) == b + e;
    UniqueConcat(b, e);
    IdsOfConcat(b, e);
    UniqueConcat(b, m);
    IdsOfConcat(b, m);
    UniqueConcat(b + m, e);
  }

  lemma {:induction false} AtReplaceAbove(t: Tree, p: seq<Dir>, q: seq<Dir>, s: Tree)
    requires Reaches(t, p + q)
    ensures At(Replace(t, p + q, s), p) == Replace(At(t, p), q, s)
    decreases |p|
  {
    if p == [] {
      assert p + q == q;
    } else {
      assert (p + q)[1..] == p[1..] + q;
      AtReplaceAbove(t.Child(p[0]), p[1..], q, s);
    }
  }

  lemma {:induction false} AtReplaceHere(t: Tree, p: seq<Dir>, s: Tree)
    requires Reaches(t, p)
    ensures At(Replace(t, p, s), p) == s
  {
    AtReplace(t, p, s, []);
    assert p + [] == p;
  }

  /** Stepping one level down moves the root of the subtree to one side of the slot. */
  lemma {:induction false} BeforeAfterSnoc(t: Tree, p: seq<Dir>, d: Dir)
    requires At(t, p).Fork?
    ensures var s := At(t, p);
      Before(t, p + [d]) == (if d == Left then Before(t, p) else Before(t, p) + Order(s.left) + [Entry(s.id, s.val)]) &&
      After(t, p + [d]) == (if d == Left then [Entry(s.id, s.val)] + Order(s.right) + After(t, p) else After(t, p))
    decreases |p|
  {
    if p != [] {
      assert (p + [d])[1..] == p[1..] + [d];
      BeforeAfterSnoc(t.Child(p[0]), p[1..], d);
    }
  }

  /** The position of the node at `p` in symmetric order, and what surrounds it there. */
  lemma {:induction false} Position(t: Tree, p: seq<Dir>)
    requires At(t, p).Fork?
    ensures var s := At(t, p); var i := |Before(t, p)| + |Order(s.left)|;
      i < |Order(t)| && Order(t)[i] == Entry(s.id, s.val) &&
      Order(t)[..i] == Before(t, p) + Order(s.left) &&
      Order(t)[i + 1..] == Order(s.right) + After(t, p)
  {
    AtForkReaches(t, p);
    Split(t, p);
    var s := At(t, p);
    var x := Entry(s.id, s.val);
    assert Order(s) == Order(s.left) + [x] + Order(s.right);
    Regroup(Before(t, p), Order(s.left), x, Order(s.right), After(t, p));
    Pieces(Before(t, p) + Order(s.left), x, Order(s.right) + After(t, p));
  }

  lemma {:induction false} Regroup<T>(b: seq<T>, l: seq<T>, x: T, r: seq<T>, a: seq<T>)
    ensures b + (l + [x] + r) + a == (b + l) + ([x] + (r + a))
  {
  }

  lemma {:induction false} Pieces<T>(u: seq<T>, x: T, w: seq<T>)
    ensures var n := u + ([x] + w); |u| < |n| && n[|u|] == x && n[..|u|] == u && n[|u| + 1..] == w
  {
  }

  /** The in-order successor of the node at `p`: the leftmost node of its right subtree,
      or else the node where the path last turned left; it has none when the path never did. */
  lemma {:induction false} Successor(t: Tree, p: seq<Dir>)
    requires At(t, p).Fork?
    ensures var s := At(t, p); var i := |Before(t, p)| + |Order(s.left)|;
      var k := LastTurn(p, Left);
      i < |Order(t)| && Order(t)[i] == Entry(s.id, s.val) &&
      (s.right.Fork? ==> i + 1 < |Order(t)| && Order(t)[i + 1] == Order(s.right)[0]) &&
      (s.right.Leaf? ==> (i + 1 < |Order(t)| <==> k >= 0)) &&
      (s.right.Leaf? && k >= 0 ==>
        At(t, p[..k]).Fork? && Order(t)[i + 1] == Entry(At(t, p[..k]).id, At(t, p[..k]).val))
  {
    Position(t, p);
    AtForkReaches(t, p);
    AfterHead(t, p);
    var s := At(t, p);
    var i := |Before(t, p)| + |Order(s.left)|;
    assert Order(t)[i + 1..] == Order(s.right) + After(t, p);
    if i + 1 < |Order(t)| {
      assert Order(t)[i + 1] == Order(t)[i + 1..][0];
    }
  }

  /** The in-order predecessor of the node at `p`: the rightmost node of its left subtree,
      or else the node where the path last turned right; it has none when the path never did. */
  lemma {:induction false} Predecessor(t: Tree, p: seq<Dir>)
    requires At(t, p).Fork?
    ensures var s := At(t, p); var i := |Before(t, p)| + |Order(s.left)|;
      var k := LastTurn(p, Right);
      i < |Order(t)| && Order(t)[i] == Entry(s.id, s.val) &&
      (s.left.Fork? ==> i > 0 && Order(t)[i - 1] == Order(s.left)[|Order(s.left)| - 1]) &&
      (s.left.Leaf? ==> (i > 0 <==> k >= 0)) &&
      (s.left.Leaf? && k >= 0 ==>
        At(t, p[..k]).Fork? && Order(t)[i - 1] == Entry(At(t, p[..k]).id, At(t, p[..k]).val))
  {
    Position(t, p);
    AtForkReaches(t, p);
    BeforeLast(t, p);
    var s := At(t, p);
    var i := |Before(t, p)| + |Order(s.left)|;
    assert Order(t)[..i] == Before(t, p) + Order(s.left);
    if i > 0 {
      assert Order(t)[i - 1] == Order(t)[..i][i - 1];
    }
  }

  // ---------------------------------------------------------------------------
  // Searching by value

  /** Every value in `es` is below `v`. */
  ghost predicate Below(es: seq<Entry>, v: int) {
    forall k :: 0 <= k < |es| ==> es[k].val < v
  }

  /** Every value in `es` is above `v`. */
  ghost predicate Above(es: seq<Entry>, v: int) {
    forall k :: 0 <= k < |es| ==> v < es[k].val
  }

  lemma {:induction false} BelowAboveConcat(a: seq<Entry>, b: seq<Entry>, v: int)
    ensures Below(a + b, v) <==> Below(a, v) && Below(b, v)
    ensures Above(a + b, v) <==> Above(a, v) && Above(b, v)
  {
    var ab := a + b;
    assert forall k :: 0 <= k < |a| ==> ab[k] == a[k];
    assert forall k :: 0 <= k < |b| ==> ab[|a| + k] == b[k];
  }

  /** The value `v` lies strictly between everything before the slot `p` and everything after it. */
  ghost predicate Brackets(t: Tree, p: seq<Dir>, v: int) {
    Below(Before(t, p), v) && Above(After(t, p), v)
  }

  /** In an increasing tree every left-subtree value is below the node and every
      right-subtree value above it. */
  lemma {:induction false} ForkSides(s: Tree)
    requires s.Fork? && Increasing(Order(s))
    ensures Increasing(Order(s.left)) && Increasing(Order(s.right))
    ensures Below(Order(s.left), s.val) && Above(Order(s.right), s.val)
  {
    var l, x, r := Order(s.left), [Entry(s.id, s.val)], Order(s.right);
    assert Order(s) == (l + x) + r;
    IncreasingConcat(l + x, r);
    IncreasingConcat(l, x);
    assert (l + x)[|l|] == x[0];
  }

  /** Every subtree of an increasing tree is increasing. */
  lemma {:induction false} SubtreeIncreasing(t: Tree, p: seq<Dir>)
    requires Reaches(t, p) && Increasing(Order(t))
    ensures Increasing(Order(At(t, p)))
  {
    Split(t, p);
    var b, m, e := Before(t, p), Order(At(t, p)), After(t, p);
    IncreasingConcat(b + m, e);
    IncreasingConcat(b, m);
  }

  /** One step of a binary-search descent keeps the value bracketed. */
  lemma {:induction false} DescendStep(t: Tree, p: seq<Dir>, d: Dir, v: int)
    requires Increasing(Order(t)) && At(t, p).Fork? && Brackets(t, p, v)
    requires d == Left ==> v < At(t, p).val
    requires d == Right ==> At(t, p).val < v
    ensures Reaches(t, p + [d]) && Brackets(t, p + [d], v)
  {
    var s := At(t, p);
    var x := [Entry(s.id, s.val)];
    AtForkReaches(t, p);
    BeforeAfterSnoc(t, p, d);
    SubtreeIncreasing(t, p);
    ForkSides(s);
    if d == Left {
      BelowAboveConcat(x, Order(s.right), v);
      BelowAboveConcat(x + Order(s.right), After(t, p), v);
    } else {
      BelowAboveConcat(Before(t, p), Order(s.left), v);
      BelowAboveConcat(Before(t, p) + Order(s.left), x, v);
    }
  }

  /** Where a descent for `v` ends at a node whose `v`-side slot is empty: `v` is not stored,
      and the node holds the nearest stored value on the other side of `v`: the tree lists
      the values below `v`, then those above it, with the node's value on the boundary. */
  lemma {:induction false} DescendMiss(t: Tree, p: seq<Dir>, v: int)
    requires At(t, p).Fork? && Brackets(t, p, v)
    requires Below(Order(At(t, p).left), At(t, p).val) && Above(Order(At(t, p).right), At(t, p).val)
    requires var s := At(t, p); (v < s.val && s.left.Leaf?) || (s.val < v && s.right.Leaf?)
    ensures var s := At(t, p); var i := |Before(t, p)| + |Order(s.left)|;
      i < |Order(t)| && Order(t)[i].id == s.id && SplitsAt(Order(t), i, v)
  {
    var s := At(t, p);
    Position(t, p);
    MissCut(Order(t), Before(t, p), Order(s.left), Entry(s.id, s.val), Order(s.right), After(t, p), v);
  }

  /** The sequence-level step of `DescendMiss`: an entry `x` between `b + l` and `r + a`, with
      `b` below `v`, `a` above it and the slot on `v`'s side of `x` empty, splits the values
      below `v` from those above it. */
  lemma {:induction false} MissCut(es: seq<Entry>, b: seq<Entry>, l: seq<Entry>, x: Entry, r: seq<Entry>, a: seq<Entry>, v: int)
    requires var i := |b| + |l|; i < |es| && es[i] == x && es[..i] == b + l && es[i + 1..] == r + a
    requires Below(b, v) && Above(a, v) && Below(l, x.val) && Above(r, x.val)
    requires (v < x.val && l == []) || (x.val < v && r == [])
    ensures SplitsAt(es, |b| + |l|, v)
  {
    BelowAboveConcat(b, l, v);
    BelowAboveConcat(r, a, v);
  }

  /** Putting a bracketed value into its empty slot keeps the order increasing. */
  lemma {:induction false} InsertIncreasing(b: seq<Entry>, x: Entry, a: seq<Entry>)
    requires Increasing(b + a) && Below(b, x.val) && Above(a, x.val)
    ensures Increasing(b + [x] + a)
  {
    IncreasingConcat(b, a);
    IncreasingConcat(b, [x]);
    IncreasingConcat(b + [x], a);
  }

  /** The smallest index whose value is at least `v` (`|es|` if there is none). */
  ghost function LowerBoundIndex(es: seq<Entry>, v: int): (k: nat)
    ensures k <= |es|
    ensures forall j :: 0 <= j < k ==> es[j].val < v
    ensures k < |es| ==> v <= es[k].val
  {
    if es == [] then 0
    else if v <= es[0].val then 0
    else 1 + LowerBoundIndex(es[1..], v)
  }

  /** The node of the smallest value that is at least `v`, or `Nil`. */
  ghost function LowerBoundId(es: seq<Entry>, v: int): int {
    var k := LowerBoundIndex(es, v);
    if k < |es| then es[k].id else Nil
  }

  lemma {:induction false} LowerBoundConcat(a: seq<Entry>, b: seq<Entry>, v: int)
    ensures LowerBoundIndex(a + b, v) ==
      if LowerBoundIndex(a, v) < |a| then LowerBoundIndex(a, v) else |a| + LowerBoundIndex(b, v)
  {
    if a != [] {
      assert (a + b)[1..] == a[1..] + b;
      LowerBoundConcat(a[1..], b, v);
    } else {
      assert a + b == b;
    }
  }

  /** How `bigger_vertex` decides at one node: the lower bound is the node itself, lies in
      the right subtree, or lies in the left subtree and falls back to the node. */
  lemma {:induction false} LowerBoundFork(s: Tree, v: int)
    requires s.Fork? && Increasing(Order(s)) && Nil !in Ids(s)
    ensures Increasing(Order(s.left)) && Increasing(Order(s.right))
    ensures Nil !in Ids(s.left) && Nil !in Ids(s.right)
    ensures s.val == v ==> LowerBoundId(Order(s), v) == s.id
    ensures s.val < v ==> LowerBoundId(Order(s), v) == LowerBoundId(Order(s.right), v)
    ensures v < s.val ==>
      LowerBoundId(Order(s), v) ==
        if LowerBoundId(Order(s.left), v) != Nil then LowerBoundId(Order(s.left), v) else s.id
  {
    ForkSides(s);
    IdsFork(s);
    assert Order(s) == Order(s.left) + [Entry(s.id, s.val)] + Order(s.right);
    LowerBoundPieces(Order(s.left), Entry(s.id, s.val), Order(s.right), v);
  }

  /** The sequence-level step of `LowerBoundFork`, for an entry `y` between the entries `l`
      below it and the entries `r` above it. */
  lemma {:induction false} LowerBoundPieces(l: seq<Entry>, y: Entry, r: seq<Entry>, v: int)
    requires Below(l, y.val) && Above(r, y.val) && Nil !in IdsOf(l) && Nil !in IdsOf(r)
    ensures y.val == v ==> LowerBoundId(l + [y] + r, v) == y.id
    ensures y.val < v ==> LowerBoundId(l + [y] + r, v) == LowerBoundId(r, v)
    ensures v < y.val ==>
      LowerBoundId(l + [y] + r, v) == if LowerBoundId(l, v) != Nil then LowerBoundId(l, v) else y.id
  {
    var es := l + [y] + r;
    if y.val < v {
      LowerBoundPast(l, y, r, v);
      var kr := LowerBoundIndex(r, v);
      if kr < |r| {
        IdsOfIndex(r, r[kr].id);
        assert es[|l| + 1 + kr] == r[kr];
      }
    } else {
      LowerBoundUpTo(l, y, r, v);
      var kl := LowerBoundIndex(l, v);
      if kl < |l| {
        IdsOfIndex(l, l[kl].id);
        assert es[kl] == l[kl];
      } else {
        assert es[|l|] == y;
      }
    }
  }

  /** A value above the entry `y`, which is above every entry of `l`, is looked up in `r`. */
  lemma {:induction false} LowerBoundPast(l: seq<Entry>, y: Entry, r: seq<Entry>, v: int)
    requires Below(l, y.val) && y.val < v
    ensures LowerBoundIndex(l + [y] + r, v) == |l| + 1 + LowerBoundIndex(r, v)
  {
    LowerBoundConcat(l + [y], r, v);
    LowerBoundConcat(l, [y], v);
    assert [y][1..] == [];
  }

  /** A value up to the entry `y` is found in `l`, or else at `y`. */
  lemma {:induction false} LowerBoundUpTo(l: seq<Entry>, y: Entry, r: seq<Entry>, v: int)
    requires v <= y.val
    ensures LowerBoundIndex(l + [y] + r, v) == LowerBoundIndex(l, v)
  {
    LowerBoundConcat(l + [y], r, v);
    LowerBoundConcat(l, [y], v);
  }

  /** The index of the entry of node `id`. */
  ghost function IndexOf(es: seq<Entry>, id: int): (k: nat)
    requires id in IdsOf(es)
    ensures k < |es| && es[k].id == id
  {
    IdsOfIndex(es, id);
    if es[0].id == id then 0
    else
      assert id in IdsOf(es[1..]) by {
        var j :| 0 <= j < |es| && es[j].id == id;
        assert es[1..][j - 1] == es[j];
        IdsOfIndex(es[1..], id);
      }
      1 + IndexOf(es[1..], id)
  }

  /** A new entry put between `b` and `a` becomes the first (last) entry exactly when it is
      below (above) all the old ones. */
  lemma {:induction false} InsertEnds(b: seq<Entry>, x: Entry, a: seq<Entry>)
    requires Increasing(b + [x] + a) && b + a != []
    ensures (b + [x] + a)[0] == if x.val < (b + a)[0].val then x else (b + a)[0]
    ensures (b + [x] + a)[|b| + |a|] ==
      if (b + a)[|b| + |a| - 1].val < x.val then x else (b + a)[|b| + |a| - 1]
  {
    var n := b + [x] + a;
    if b != [] {
      assert n[0] == b[0] == (b + a)[0];
      assert n[0].val < n[|b|].val;
    } else {
      assert n[0] == x;
      assert n[1] == a[0] == (b + a)[0];
    }
    if a != [] {
      assert n[|b| + |a|] == a[|a| - 1] == (b + a)[|b| + |a| - 1];
      assert n[|b|].val < n[|b| + |a|].val;
    } else {
      assert n[|b| + |a|] == x;
      assert n[|b| - 1] == b[|b| - 1] == (b + a)[|b| + |a| - 1];
    }
  }

  /** Hanging `r` below the rightmost node of `l` (the slot `q + [Right]`, `q` all right turns)
      lists `l` and then `r`. */
  lemma {:induction false} SpliceOrder(l: Tree, q: seq<Dir>, r: Tree)
    requires At(l, q).Fork? && At(l, q).right.Leaf?
    requires forall j :: 0 <= j < |q| ==> q[j] == Right
    ensures Reaches(l, q + [Right])
    ensures Order(Replace(l, q + [Right], r)) == Order(l) + Order(r)
  {
    var qr := q + [Right];
    AtForkReaches(l, q);
    AtSnoc(l, q, Right);
    AfterHead(l, qr);
    Split(l, qr);
    SplitReplace(l, qr, r);
  }

  // ---------------------------------------------------------------------------
  // Splay steps

  /** Zig-zig: rotating twice at `q` towards `d` lifts the `d`-`d` grandchild to `q`. */
  lemma {:induction false} ZigZigPath(t: Tree, q: seq<Dir>, d: Dir)
    requires At(t, q).Fork? && At(t, q).Child(d).Fork? && At(t, q).Child(d).Child(d).Fork?
    ensures var t1 := Replace(t, q, Rotate(At(t, q), d));
      At(t1, q).Fork? && At(t1, q).id == At(t, q).Child(d).id && At(t1, q).Child(d).Fork? &&
      var t2 := Replace(t1, q, Rotate(At(t1, q), d));
      At(t2, q).Fork? && At(t2, q).id == At(t, q).Child(d).Child(d).id
  {
    AtForkReaches(t, q);
    var t1 := Replace(t, q, Rotate(At(t, q), d));
    AtReplaceHere(t, q, Rotate(At(t, q), d));
    AtForkReaches(t1, q);
    AtReplaceHere(t1, q, Rotate(At(t1, q), d));
  }

  /** Zig-zag: rotating at `q + [d]` away from `d` and then at `q` towards `d` lifts the
      `d`-`Flip(d)` grandchild to `q`. */
  lemma {:induction false} ZigZagPath(t: Tree, q: seq<Dir>, d: Dir)
    requires At(t, q).Fork? && At(t, q).Child(d).Fork? && At(t, q).Child(d).Child(Flip(d)).Fork?
    ensures At(t, q + [d]) == At(t, q).Child(d)
    ensures var t1 := Replace(t, q + [d], Rotate(At(t, q + [d]), Flip(d)));
      At(t1, q).Fork? && At(t1, q).id == At(t, q).id && At(t1, q).Child(d).Fork? &&
      At(t1, q).Child(d).id == At(t, q).Child(d).Child(Flip(d)).id &&
      var t2 := Replace(t1, q, Rotate(At(t1, q), d));
      At(t2, q).Fork? && At(t2, q).id == At(t, q).Child(d).Child(Flip(d)).id
  {
    var qd := q + [d];
    AtSnoc(t, q, d);
    AtForkReaches(t, q);
    var r := Rotate(At(t, qd), Flip(d));
    var t1 := Replace(t, qd, r);
    AtReplaceAbove(t, q, [d], r);
    ReplaceRoot(At(t, q), [d], r);
    assert At(t1, q) == Replace(At(t, q), [d], r);
    AtSnoc(t, q, d);
    assert At(t1, q).Child(d) == r;
    AtForkReaches(t1, q);
    AtReplaceHere(t1, q, Rotate(At(t1, q), d));
  }

  /** In a sequence of distinct nodes, the index of a node is where it stands. */
  lemma {:induction false} IndexOfUnique(es: seq<Entry>, k: nat)
    requires Unique(es) && k < |es|
    ensures es[k].id in IdsOf(es) && IndexOf(es, es[k].id) == k
  {
    IdsOfIndex(es, es[k].id);
  }

  /** The subtrees of a node hold exactly the entries before and after it. */
  lemma {:induction false} RootSplit(t: Tree)
    requires t.Fork? && Distinct(t)
    ensures t.id in Ids(t)
    ensures var i := IndexOf(Order(t), t.id);
      i == |Order(t.left)| && Order(t.left) == Order(t)[..i] && Order(t.right) == Order(t)[i + 1..]
  {
    var l, x, r := Order(t.left), Entry(t.id, t.val), Order(t.right);
    Pieces(l, x, r);
    assert Order(t) == l + ([x] + r);
    IndexOfUnique(Order(t), |l|);
  }

  /** Where a search for `v` stops, at a node holding `v` or at a node whose `v`-side slot is
      empty, everything before the node is below `v` and everything after it is above `v`. */
  lemma {:induction false} SearchStop(t: Tree, p: seq<Dir>, v: int)
    requires Increasing(Order(t)) && Distinct(t) && At(t, p).Fork? && Brackets(t, p, v)
    requires var s := At(t, p);
      s.val == v || (v < s.val && s.left.Leaf?) || (s.val < v && s.right.Leaf?)
    ensures At(t, p).id in Ids(t)
    ensures var i := IndexOf(Order(t), At(t, p).id);
      Below(Order(t)[..i], v) && Above(Order(t)[i + 1..], v)
  {
    AtForkReaches(t, p);
    SubtreeIncreasing(t, p);
    ForkSides(At(t, p));
    StopBetween(t, p, v);
  }

  /** `SearchStop` once the node's own subtrees are known to lie on either side of it. */
  lemma {:induction false} StopBetween(t: Tree, p: seq<Dir>, v: int)
    requires Distinct(t) && At(t, p).Fork? && Brackets(t, p, v)
    requires Below(Order(At(t, p).left), At(t, p).val) && Above(Order(At(t, p).right), At(t, p).val)
    requires var s := At(t, p);
      s.val == v || (v < s.val && s.left.Leaf?) || (s.val < v && s.right.Leaf?)
    ensures At(t, p).id in Ids(t)
    ensures var i := IndexOf(Order(t), At(t, p).id);
      SplitsAt(Order(t), i, v)
  {
    var s := At(t, p);
    if s.val == v {
      SearchHit(t, p, v);
    } else {
      DescendMiss(t, p, v);
    }
    StopAt(Order(t), |Before(t, p)| + |Order(s.left)|, s.id, v);
  }

  /** The entry `id` at `i` of a run of distinct entries splits it around `v`. */
  lemma {:induction false} StopAt(es: seq<Entry>, i: nat, id: int, v: int)
    requires Unique(es) && i < |es| && es[i].id == id && SplitsAt(es, i, v)
    ensures id in IdsOf(es) && SplitsAt(es, IndexOf(es, id), v)
  {
    IndexOfUnique(es, i);
  }

  /** The entries before index `i` are below `v` and those after it above `v`. */
  ghost predicate SplitsAt(es: seq<Entry>, i: nat, v: int) {
    i < |es| && Below(es[..i], v) && Above(es[i + 1..], v)
  }

  lemma {:induction false} SearchHit(t: Tree, p: seq<Dir>, v: int)
    requires At(t, p).Fork? && Brackets(t, p, v) && At(t, p).val == v
    requires Below(Order(At(t, p).left), v) && Above(Order(At(t, p).right), v)
    ensures var s := At(t, p); var i := |Before(t, p)| + |Order(s.left)|;
      i < |Order(t)| && Order(t)[i].id == s.id && SplitsAt(Order(t), i, v)
  {
    var s := At(t, p);
    Position(t, p);
    BelowAboveConcat(Before(t, p), Order(s.left), v);
    BelowAboveConcat(Order(s.right), After(t, p), v);
  }

  /** A value split off by a node is stored exactly when the node holds it. */
  lemma {:induction false} SplitMember(a: seq<Entry>, x: Entry, b: seq<Entry>, v: int)
    requires Below(a, v) && Above(b, v)
    ensures v in Values(a + [x] + b) <==> x.val == v
  {
    ValuesConcat(a + [x], b);
    ValuesConcat(a, [x]);
  }

  /** A value bracketed between `b` and `a` is stored in neither. */
  lemma {:induction false} BracketedAbsent(b: seq<Entry>, a: seq<Entry>, v: int)
    requires Below(b, v) && Above(a, v)
    ensures v !in Values(b + a)
  {
    ValuesConcat(b, a);
  }

  /** The values after putting `x` between `b` and `a` are the old ones and the value of `x`. */
  lemma {:induction false} InsertValues(b: seq<Entry>, x: Entry, a: seq<Entry>)
    ensures forall y :: y in Values(b + [x] + a) <==> y in Values(b + a) || y == x.val
  {
    ValuesConcat(b + [x], a);
    ValuesConcat(b, [x]);
    ValuesConcat(b, a);
  }

  /** The entry at index `k` contributes its value. */
  lemma {:induction false} ValueAt(es: seq<Entry>, k: nat)
    requires k < |es|
    ensures es[k].val in Values(es)
  {
    assert Values(es)[k] == es[k].val;
  }

  /** Where each entry of `b + a` sits in `b + [x] + a`. */
  lemma {:induction false} RemoveIndex(b: seq<Entry>, x: Entry, a: seq<Entry>)
    ensures |b + [x] + a| == |b + a| + 1 && (b + [x] + a)[|b|] == x
    ensures forall k :: 0 <= k < |b + a| ==> (b + a)[k] == (b + [x] + a)[if k < |b| then k else k + 1]
  {
  }

  /** Taking `x` out from between `b` and `a` keeps the entries distinct and increasing, and
      drops exactly its identity. */
  lemma {:induction false} RemoveEntry(b: seq<Entry>, x: Entry, a: seq<Entry>)
    requires Unique(b + [x] + a) && Increasing(b + [x] + a)
    ensures Unique(b + a) && Increasing(b + a)
    ensures IdsOf(b + a) == IdsOf(b + [x] + a) - {x.id}
  {
    var n, r := b + [x] + a, b + a;
    RemoveIndex(b, x, a);
    forall i, j | 0 <= i < j < |r| ensures r[i].id != r[j].id && r[i].val < r[j].val {
      var i', j' := if i < |b| then i else i + 1, if j < |b| then j else j + 1;
      assert r[i] == n[i'] && r[j] == n[j'];
    }
    forall e | e in r ensures e in n && e.id != x.id {
      var k :| 0 <= k < |r| && r[k] == e;
      var k' := if k < |b| then k else k + 1;
      assert n[k'] == e && n[|b|] == x;
    }
    forall e | e in n && e.id != x.id ensures e in r {
      var k :| 0 <= k < |n| && n[k] == e;
      assert k != |b|;
      if k < |b| {
        assert r[k] == e;
      } else {
        assert r[k - 1] == e;
      }
    }
  }

  /** Taking `x` out from increasing entries drops exactly its value. */
  lemma {:induction false} RemoveValue(b: seq<Entry>, x: Entry, a: seq<Entry>)
    requires Increasing(b + [x] + a)
    ensures forall y :: y in Values(b + a) <==> y in Values(b + [x] + a) && y != x.val
  {
    var n := b + [x] + a;
    InsertValues(b, x, a);
    forall k | 0 <= k < |b| ensures b[k].val < x.val {
      assert n[k] == b[k] && n[|b|] == x;
    }
    forall k | 0 <= k < |a| ensures x.val < a[k].val {
      assert n[|b| + 1 + k] == a[k] && n[|b|] == x;
    }
    BracketedAbsent(b, a, x.val);
  }

  /** `t` is a copy of `s`: the same shape holding the same values, whatever its node ids. */
  ghost predicate Copied(t: Tree, s: Tree)
    decreases t
  {
    (t.Leaf? && s.Leaf?) ||
    (t.Fork? && s.Fork? && t.val == s.val && Copied(t.left, s.left) && Copied(t.right, s.right))
  }

  /** A copy lists the same values in the same order. */
  lemma {:induction false} CopiedValues(t: Tree, s: Tree)
    requires Copied(t, s)
    ensures Values(Order(t)) == Values(Order(s))
    decreases t
  {
    if t.Fork? {
      CopiedValues(t.left, s.left);
      CopiedValues(t.right, s.right);
      ValuesConcat(Order(t.left) + [Entry(t.id, t.val)], Order(t.right));
      ValuesConcat(Order(t.left), [Entry(t.id, t.val)]);
      ValuesConcat(Order(s.left) + [Entry(s.id, s.val)], Order(s.right));
      ValuesConcat(Order(s.left), [Entry(s.id, s.val)]);
    }
  }

  /** Every tree is a copy of itself. */
  lemma {:induction false} CopiedSelf(t: Tree)
    ensures Copied(t, t)
    decreases t
  {
    if t.Fork? {
      CopiedSelf(t.left);
      CopiedSelf(t.right);
    }
  }

  /** Two runs listing the same values are increasing together. */
  lemma {:induction false} IncreasingByValues(a: seq<Entry>, b: seq<Entry>)
    requires Values(a) == Values(b)
    ensures Increasing(a) <==> Increasing(b)
  {
    assert |a| == |Values(a)| && |b| == |Values(b)|;
    assert forall k :: 0 <= k < |a| ==> a[k].val == Values(a)[k] == b[k].val;
  }

  /** The node ids of `t` are exactly `lo`, ..., `hi - 1`. */
  ghost predicate Spans(t: Tree, lo: int, hi: int) {
    (forall k :: k in Ids(t) ==> lo <= k < hi) && (forall k :: lo <= k < hi ==> k in Ids(t))
  }

  /** Subtrees whose ids span adjacent ranges, under a node just before both, form a tree of
      distinct ids spanning the whole range. */
  lemma {:induction false} ForkSpans(l: Tree, r: Tree, id: int, v: int, mid: int, hi: int)
    requires id + 1 <= mid <= hi
    requires Distinct(l) && Distinct(r) && Spans(l, id + 1, mid) && Spans(r, mid, hi)
    ensures Distinct(Fork(l, id, v, r)) && Spans(Fork(l, id, v, r), id, hi)
  {
    var t := Fork(l, id, v, r);
    assert Order(t) == Order(l) + [Entry(id, v)] + Order(r);
    IdsFork(t);
    UniqueAround(Order(l), Entry(id, v), Order(r), mid);
    SpansJoin(Ids(l), Ids(r), id, mid, hi);
  }

  /** Unique runs around an entry, the first with indices between the entry's and `mid`,
      the second with indices from `mid` on, join into a unique run. */
  lemma {:induction false} UniqueAround(a: seq<Entry>, x: Entry, b: seq<Entry>, mid: int)
    requires Unique(a) && Unique(b) && x.id < mid
    requires forall k :: k in IdsOf(a) ==> x.id < k < mid
    requires forall k :: k in IdsOf(b) ==> mid <= k
    ensures Unique(a + [x] + b)
  {
    IdsOfConcat(a, [x]);
    assert IdsOf([x]) == {x.id};
    assert x.id !in IdsOf(a);
    assert Unique([x]);
    UniqueConcat(a, [x]);
    assert forall k :: k in IdsOf(a + [x]) ==> k < mid;
    UniqueConcat(a + [x], b);
  }

  /** Index sets exactly covering `id + 1`, ..., `mid - 1` and `mid`, ..., `hi - 1`, with
      `id` added, exactly cover `id`, ..., `hi - 1`. */
  lemma {:induction false} SpansJoin(ls: set<int>, rs: set<int>, id: int, mid: int, hi: int)
    requires id + 1 <= mid <= hi
    requires forall k :: k in ls <==> id + 1 <= k < mid
    requires forall k :: k in rs <==> mid <= k < hi
    ensures forall k :: k in ls + {id} + rs <==> id <= k < hi
  {
  }
}
