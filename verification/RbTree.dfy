/** The parent-linked binary trees of lib/rbtree.c: finding the next node,
    unlinking one and replacing one. Colours are carried but not balanced. */
module RbTree {
  import Lists

  datatype Dir = Left | Right

  function Other(d: Dir): Dir {
    if d == Left then Right else Left
  }

  datatype Color = Black | Red

  class RbNode {
    var parent: RbNode?
    var left: RbNode?
    var right: RbNode?
    var color: Color

    /** node->child[d] */
    function Child(d: Dir): RbNode?
      reads this
    {
      if d == Left then left else right
    }
  }

  class RbRoot {
    var root: RbNode?
  }

  /** The shape of a tree. */
  datatype Tree = Leaf | Node(l: Tree, n: RbNode, r: Tree) {
    ghost function Nodes(): set<RbNode> {
      match this
      case Leaf => {}
      case Node(l, n, r) => l.Nodes() + {n} + r.Nodes()
    }

    ghost function Root(): RbNode? {
      match this
      case Leaf => null
      case Node(l, n, r) => n
    }

    ghost function Sub(d: Dir): Tree
      requires Node?
    {
      if d == Left then l else r
    }

    /** The nodes in the order in which moving in direction d meets them. */
    ghost function Walk(d: Dir): seq<RbNode> {
      match this
      case Leaf => []
      case Node(l, n, r) => Sub(Other(d)).Walk(d) + [n] + Sub(d).Walk(d)
    }

    /** No node occurs twice. */
    ghost predicate Proper() {
      match this
      case Leaf => true
      case Node(l, n, r) =>
        l.Proper() && r.Proper() && n !in l.Nodes() && n !in r.Nodes() && l.Nodes() !! r.Nodes()
    }

    /** The links between the nodes are those of this tree, under parent. */
    ghost predicate Linked(parent: RbNode?)
      reads Nodes()
    {
      match this
      case Leaf => true
      case Node(l, n, r) =>
        n.parent == parent && n.left == l.Root() && n.right == r.Root() && l.Linked(n) && r.Linked(n)
    }
  }

  /** The tree around a subtree: from the subtree up to the root. */
  datatype Ctx = Top | Under(d: Dir, up: Ctx, n: RbNode, sib: Tree) {
    ghost function Nodes(): set<RbNode> {
      match this
      case Top => {}
      case Under(d, up, n, sib) => up.Nodes() + {n} + sib.Nodes()
    }

    ghost function Parent(): RbNode? {
      match this
      case Top => null
      case Under(d, up, n, sib) => n
    }

    ghost function Plug(t: Tree): Tree {
      match this
      case Top => t
      case Under(d, up, n, sib) => up.Plug(if d == Left then Node(t, n, sib) else Node(sib, n, t))
    }

    /** What a walk meets before and after the subtree. */
    ghost function Before(e: Dir): seq<RbNode> {
      match this
      case Top => []
      case Under(d, up, n, sib) => up.Before(e) + if d == e then sib.Walk(e) + [n] else []
    }

    ghost function After(e: Dir): seq<RbNode> {
      match this
      case Top => []
      case Under(d, up, n, sib) => (if d == e then [] else [n] + sib.Walk(e)) + up.After(e)
    }

    ghost predicate Proper() {
      match this
      case Top => true
      case Under(d, up, n, sib) =>
        up.Proper() && sib.Proper() && n !in sib.Nodes() && n !in up.Nodes() && up.Nodes() !! sib.Nodes()
    }

    /** The links around a subtree with the given root, in a tree with root top. */
    ghost predicate Linked(hole: RbNode?, top: RbNode?)
      reads Nodes()
    {
      match this
      case Top => hole == top
      case Under(d, up, n, sib) =>
        n.parent == up.Parent() && n.Child(d) == hole && n.Child(Other(d)) == sib.Root()
        && sib.Linked(n) && up.Linked(n, top)
    }
  }

  /** A tree with root top, taken apart at one subtree. */
  ghost predicate Zip(c: Ctx, t: Tree, top: RbNode?)
    reads c.Nodes(), t.Nodes()
  {
    && c.Proper() && t.Proper() && c.Nodes() !! t.Nodes()
    && c.Linked(t.Root(), top) && t.Linked(c.Parent())
  }

  ghost predicate IsTree(t: Tree, top: RbNode?)
    reads t.Nodes()
  {
    t.Proper() && t.Root() == top && t.Linked(null)
  }

  lemma {:induction false} PlugNodes(c: Ctx, t: Tree)
    ensures c.Plug(t).Nodes() == c.Nodes() + t.Nodes()
    decreases c
  {
    match c
    case Top =>
    case Under(d, up, n, sib) => PlugNodes(up, if d == Left then Node(t, n, sib) else Node(sib, n, t));
  }

  /** Taken apart or not, it is the same tree. */
  lemma {:induction false} ZipIsTree(c: Ctx, t: Tree, top: RbNode?)
    ensures Zip(c, t, top) <==> IsTree(c.Plug(t), top)
    decreases c
  {
    match c
    case Top =>
    case Under(d, up, n, sib) =>
      var t' := if d == Left then Node(t, n, sib) else Node(sib, n, t);
      ZipIsTree(up, t', top);
      assert Zip(c, t, top) <==> Zip(up, t', top);
  }

  /** A walk of a subtree and its parent. */
  lemma WalkUnder(d: Dir, n: RbNode, sib: Tree, t: Tree, e: Dir)
    ensures var t' := if d == Left then Node(t, n, sib) else Node(sib, n, t);
            t'.Walk(e) == if d == e then sib.Walk(e) + [n] + t.Walk(e) else t.Walk(e) + ([n] + sib.Walk(e))
  {
    var t' := if d == Left then Node(t, n, sib) else Node(sib, n, t);
    assert t'.Sub(d) == t && t'.Sub(Other(d)) == sib;
    assert Other(Other(d)) == d;
    if d != e {
      assert Other(d) == e && Other(e) == d;
      assert t'.Walk(e) == t.Walk(e) + [n] + sib.Walk(e);
    }
  }

  lemma Regroup<T>(p: seq<T>, x: seq<T>, y: seq<T>, z: seq<T>, q: seq<T>)
    ensures p + (x + y + z) + q == (p + x) + y + (z + q)
    ensures x + y + [] == x + y && [] + y + z == y + z
  {
  }

  lemma {:induction false} PlugWalk(c: Ctx, t: Tree, e: Dir)
    ensures c.Plug(t).Walk(e) == c.Before(e) + t.Walk(e) + c.After(e)
    decreases c
  {
    hide Tree.Walk;
    if c.Under? {
      var t' := if c.d == Left then Node(t, c.n, c.sib) else Node(c.sib, c.n, t);
      PlugWalk(c.up, t', e);
      WalkUnder(c.d, c.n, c.sib, t, e);
      if c.d == e {
        Regroup(c.up.Before(e), c.sib.Walk(e) + [c.n], t.Walk(e), [], c.up.After(e));
      } else {
        Regroup(c.up.Before(e), [], t.Walk(e), [c.n] + c.sib.Walk(e), c.up.After(e));
      }
    }
  }

  // ----- facts about walks -----

  lemma {:induction false} WalkMember(t: Tree, d: Dir, x: RbNode)
    ensures x in t.Walk(d) <==> x in t.Nodes()
  {
    if t.Node? {
      WalkMember(t.l, d, x);
      WalkMember(t.r, d, x);
    }
  }

  lemma JoinDistinct<T>(a: seq<T>, x: T, b: seq<T>)
    requires Lists.Distinct(a) && Lists.Distinct(b) && x !in a && x !in b
    requires forall i, j :: 0 <= i < |a| && 0 <= j < |b| ==> a[i] != b[j]
    ensures Lists.Distinct(a + [x] + b)
  {
  }

  lemma {:induction false} WalkDistinct(t: Tree, d: Dir)
    requires t.Proper()
    ensures Lists.Distinct(t.Walk(d))
  {
    if t.Node? {
      WalkDistinct(t.l, d);
      WalkDistinct(t.r, d);
      var near, far := t.Sub(Other(d)), t.Sub(d);
      forall i, j | 0 <= i < |near.Walk(d)| && 0 <= j < |far.Walk(d)| ensures near.Walk(d)[i] != far.Walk(d)[j] {
        WalkMember(near, d, near.Walk(d)[i]);
        WalkMember(far, d, far.Walk(d)[j]);
      }
      WalkMember(near, d, t.n);
      WalkMember(far, d, t.n);
      JoinDistinct(near.Walk(d), t.n, far.Walk(d));
    }
  }

  function Reversed<T>(s: seq<T>): seq<T> {
    if s == [] then [] else Reversed(s[1..]) + [s[0]]
  }

  lemma {:induction false} ReversedConcat<T>(s: seq<T>, t: seq<T>)
    ensures Reversed(s + t) == Reversed(t) + Reversed(s)
  {
    if s == [] {
      assert s + t == t;
    } else {
      assert (s + t)[1..] == s[1..] + t;
      ReversedConcat(s[1..], t);
    }
  }

  lemma {:induction false} ReversedAt<T>(s: seq<T>)
    ensures |Reversed(s)| == |s|
    ensures forall k :: 0 <= k < |s| ==> Reversed(s)[k] == s[|s| - 1 - k]
  {
    if s != [] {
      ReversedAt(s[1..]);
    }
  }

  /** Walking the other way meets the nodes in the opposite order. */
  lemma {:induction false} WalkReversed(t: Tree, d: Dir)
    ensures t.Walk(Other(d)) == Reversed(t.Walk(d))
  {
    if t.Node? {
      WalkReversed(t.l, d);
      WalkReversed(t.r, d);
      var near, far := t.Sub(Other(d)).Walk(d), t.Sub(d).Walk(d);
      assert Other(Other(d)) == d;
      ReversedConcat(near + [t.n], far);
      ReversedConcat(near, [t.n]);
      assert Reversed([t.n]) == [t.n];
    }
  }

  // ----- searching -----

  /** Every node of a tree is the root of a subtree. */
  lemma {:induction false} Focus(c: Ctx, t: Tree, n: RbNode) returns (c': Ctx, s: Tree)
    requires n in t.Nodes()
    ensures c'.Plug(s) == c.Plug(t) && s.Node? && s.n == n
    decreases t
  {
    if t.n == n {
      c', s := c, t;
    } else if n in t.l.Nodes() {
      c', s := Focus(Under(Left, c, t.n, t.r), t.l, n);
    } else {
      c', s := Focus(Under(Right, c, t.n, t.l), t.r, n);
    }
  }

  ghost function Last<T>(s: seq<T>): T
    requires s != []
  {
    s[|s| - 1]
  }

  /** The node furthest in the given direction below a node. */
  method GetOutermost(node: RbNode?, dir: Dir, ghost t: Tree, ghost p: RbNode?) returns (r: RbNode?)
    requires t.Root() == node && t.Linked(p)
    ensures t == Leaf ==> r == null
    ensures t != Leaf ==> t.Walk(dir) != [] && r == Last(t.Walk(dir))
  {
    if node == null {
      return null;
    }
    r := node;
    ghost var s, q := t, p;
    while r.Child(dir) != null
      invariant s.Node? && s.n == r && s.Linked(q)
      invariant t.Walk(dir) != [] && Last(t.Walk(dir)) == Last(s.Walk(dir))
      decreases s
    {
      q := r;
      r := r.Child(dir);
      s := s.Sub(dir);
    }
    assert s.Sub(dir) == Leaf;
  }

  lemma Flatten<T>(p: seq<T>, a: seq<T>, x: T, b: seq<T>, q: seq<T>)
    ensures p + (a + [x] + b) + q == (p + a) + [x] + (b + q)
  {
  }

  lemma WhereIs<T>(a: seq<T>, x: T, b: seq<T>, s: seq<T>, i: nat)
    requires s == a + [x] + b && Lists.Distinct(s) && i < |s| && s[i] == x
    ensures i == |a| && s[i + 1..] == b && s[..i] == a
  {
    assert s[|a|] == x;
  }

  /** The walk goes through the subtree at node: its near side, the node, its
      far side, and then what the context puts after it. */
  lemma WhereFocusIs(c: Ctx, s: Tree, t: Tree, dir: Dir, i: nat)
    requires c.Plug(s) == t && s.Node? && t.Proper() && i < |t.Walk(dir)| && t.Walk(dir)[i] == s.n
    ensures i == |c.Before(dir)| + |s.Sub(Other(dir)).Walk(dir)|
    ensures t.Walk(dir)[i + 1..] == s.Sub(dir).Walk(dir) + c.After(dir)
    ensures t.Walk(dir)[..i] == c.Before(dir) + s.Sub(Other(dir)).Walk(dir)
  {
    hide Lists.Distinct, Tree.Proper, Ctx.Plug, Ctx.Before, Ctx.After;
    PlugWalk(c, s, dir);
    WalkDistinct(t, dir);
    var near, far := s.Sub(Other(dir)).Walk(dir), s.Sub(dir).Walk(dir);
    assert s.Walk(dir) == near + [s.n] + far;
    hide Tree.Walk;
    Flatten(c.Before(dir), near, s.n, far, c.After(dir));
    WhereIs(c.Before(dir) + near, s.n, far + c.After(dir), t.Walk(dir), i);
  }

  /** The nearest ancestor that has the node on its other side: what a walk
      meets first after the subtree. */
  method Climb(node: RbNode, dir: Dir, ghost c: Ctx, ghost s: Tree, ghost top: RbNode?) returns (r: RbNode?)
    requires Zip(c, s, top) && s.Node? && s.n == node
    ensures r == if c.After(dir) == [] then null else c.After(dir)[0]
  {
    hide Tree.Walk;
    var n: RbNode := node;
    ghost var c', s' := c, s;
    while n.parent != null && n.parent.Child(dir) == n
      invariant Zip(c', s', top) && s'.Node? && s'.n == n
      invariant c'.After(dir) == c.After(dir)
      decreases c'
    {
      s' := if c'.d == Left then Node(s', c'.n, c'.sib) else Node(c'.sib, c'.n, s');
      c' := c'.up;
      n := n.parent;
    }
    r := n.parent;
  }

  /** The node next in the given direction: the nearest one below, or else the
      nearest ancestor that has the node on its other side. */
  method GetClosest(node: RbNode?, dir: Dir, ghost t: Tree, ghost top: RbNode?, ghost i: nat) returns (r: RbNode?)
    requires node != null ==> IsTree(t, top) && i < |t.Walk(dir)| && t.Walk(dir)[i] == node
    ensures node == null ==> r == null
    ensures node != null ==> r == if i + 1 < |t.Walk(dir)| then t.Walk(dir)[i + 1] else null
  {
    if node == null {
      return null;
    }
    WalkMember(t, dir, node);
    ghost var c, s := Focus(Top, t, node);
    ZipIsTree(c, s, top);
    WhereFocusIs(c, s, t, dir, i);
    if node.Child(dir) != null {
      WalkReversed(s.Sub(dir), dir);
      ReversedAt(s.Sub(dir).Walk(dir));
      r := GetOutermost(node.Child(dir), Other(dir), s.Sub(dir), node);
      return;
    }
    assert s.Sub(dir).Walk(dir) == [];
    r := Climb(node, dir, c, s, top);
  }

  lemma UpdateAt<T>(s: seq<T>, i: nat, x: T)
    requires i < |s|
    ensures s[i := x] == s[..i] + [x] + s[i + 1..]
  {
  }

  lemma FlattenTwo<T>(p: seq<T>, a: seq<T>, b: seq<T>, q: seq<T>)
    ensures p + (a + b) + q == (p + a) + (b + q)
  {
  }

  method RbFirst(tree: RbRoot, ghost t: Tree) returns (r: RbNode?)
    requires IsTree(t, tree.root)
    ensures r == if t == Leaf then null else t.Walk(Right)[0]
    ensures t != Leaf ==> t.Walk(Right) != []
  {
    r := GetOutermost(tree.root, Left, t, null);
    WalkReversed(t, Right);
    ReversedAt(t.Walk(Right));
  }

  method RbLast(tree: RbRoot, ghost t: Tree) returns (r: RbNode?)
    requires IsTree(t, tree.root)
    ensures t != Leaf ==> t.Walk(Right) != []
    ensures r == if t == Leaf then null else Last(t.Walk(Right))
  {
    r := GetOutermost(tree.root, Right, t, null);
  }

  /** From the i-th node in order to the next, or NULL after the last. */
  method RbNext(node: RbNode?, ghost t: Tree, ghost top: RbNode?, ghost i: nat) returns (r: RbNode?)
    requires node != null ==> IsTree(t, top) && i < |t.Walk(Right)| && t.Walk(Right)[i] == node
    ensures node == null ==> r == null
    ensures node != null ==> r == if i + 1 < |t.Walk(Right)| then t.Walk(Right)[i + 1] else null
  {
    r := GetClosest(node, Right, t, top, i);
  }

  /** From the i-th node in order to the one before, or NULL before the first. */
  method RbPrev(node: RbNode?, ghost t: Tree, ghost top: RbNode?, ghost i: nat) returns (r: RbNode?)
    requires node != null ==> IsTree(t, top) && i < |t.Walk(Right)| && t.Walk(Right)[i] == node
    ensures node == null ==> r == null
    ensures node != null ==> r == if i > 0 then t.Walk(Right)[i - 1] else null
  {
    WalkReversed(t, Right);
    ReversedAt(t.Walk(Right));
    r := GetClosest(node, Left, t, top, if node != null then |t.Walk(Right)| - 1 - i else 0);
  }

  /** What a caller gets by starting at rb_first and repeating rb_next until
      NULL: every node of the tree exactly once, in order. */
  method Traverse(tree: RbRoot, ghost t: Tree, ghost all: set<RbNode>) returns (visited: seq<RbNode>)
    requires IsTree(t, tree.root) && t.Nodes() == all
    ensures visited == t.Walk(Right) && Lists.Distinct(visited)
    ensures forall n :: n in visited <==> n in all
  {
    visited := [];
    var node := RbFirst(tree, t);
    while node != null
      invariant |visited| <= |t.Walk(Right)| && visited == t.Walk(Right)[..|visited|]
      invariant node == if |visited| < |t.Walk(Right)| then t.Walk(Right)[|visited|] else null
      decreases |t.Walk(Right)| - |visited|
    {
      ghost var i := |visited|;
      visited := visited + [node];
      node := RbNext(node, t, tree.root, i);
    }
    WalkDistinct(t, Right);
    forall n ensures n in visited <==> n in all {
      WalkMember(t, Right, n);
    }
  }

  /** rb_prev takes back what rb_next did, from any node but the last; at the
      last there is nothing to take back. */
  method NextThenPrev(node: RbNode, ghost t: Tree, ghost top: RbNode?, ghost all: set<RbNode>)
    returns (next: RbNode?, back: RbNode?)
    requires IsTree(t, top) && t.Nodes() == all && node in all
    ensures next != null ==> next in all && next != node && back == node
    ensures next == null <==> t.Walk(Right) != [] && node == Last(t.Walk(Right))
  {
    WalkMember(t, Right, node);
    ghost var i :| 0 <= i < |t.Walk(Right)| && t.Walk(Right)[i] == node;
    WalkDistinct(t, Right);
    next := RbNext(node, t, top, i);
    back := null;
    if next != null {
      WalkMember(t, Right, next);
      back := RbPrev(next, t, top, i + 1);
    }
  }

  // ----- unlinking -----

  ghost function MaxOf(t: Tree): RbNode
    requires t.Node?
  {
    if t.r == Leaf then t.n else MaxOf(t.r)
  }

  ghost function RemoveMax(t: Tree): Tree
    requires t.Node?
  {
    if t.r == Leaf then t.l else Node(t.l, t.n, RemoveMax(t.r))
  }

  /** What do_remove leaves of the subtree at the node it removes. */
  ghost function Removed(s: Tree): Tree
    requires s.Node?
  {
    if s.l.Node? && s.r.Node? then Node(RemoveMax(s.l), MaxOf(s.l), s.r)
    else if s.l == Leaf then s.r else s.l
  }

  lemma {:induction false} MaxIsLast(t: Tree)
    requires t.Node?
    ensures t.Walk(Right) == RemoveMax(t).Walk(Right) + [MaxOf(t)]
    ensures t.Nodes() == RemoveMax(t).Nodes() + {MaxOf(t)}
    ensures t.Proper() ==> RemoveMax(t).Proper() && MaxOf(t) !in RemoveMax(t).Nodes()
  {
    if t.r.Node? {
      MaxIsLast(t.r);
    }
  }

  /** Removal takes exactly the node out of the walk. */
  lemma RemovedWalk(s: Tree)
    requires s.Node?
    ensures Removed(s).Walk(Right) == s.l.Walk(Right) + s.r.Walk(Right)
    ensures s.Walk(Right) == s.l.Walk(Right) + [s.n] + s.r.Walk(Right)
    ensures s.Proper() ==> Removed(s).Proper() && Removed(s).Nodes() == s.Nodes() - {s.n}
  {
    hide MaxOf, RemoveMax;
    if s.l.Node? && s.r.Node? {
      MaxIsLast(s.l);
      var t := Removed(s);
      assert t.Walk(Right) == t.l.Walk(Right) + [t.n] + t.r.Walk(Right);
    } else {
      assert s.l.Walk(Right) + s.r.Walk(Right) == Removed(s).Walk(Right);
    }
  }

  /** The place of the last node of a subtree. */
  lemma {:induction false} FocusMax(c: Ctx, t: Tree) returns (c': Ctx, s: Tree)
    requires t.Node?
    ensures c'.Plug(s) == c.Plug(t) && s.Node? && s.n == MaxOf(t) && s.r == Leaf
    ensures c'.Plug(s.l) == c.Plug(RemoveMax(t))
    decreases t
  {
    if t.r == Leaf {
      c', s := c, t;
    } else {
      c', s := FocusMax(Under(Right, c, t.n, t.l), t.r);
    }
  }

  /** if (x) x->parent = p */
  method SetParent(x: RbNode?, p: RbNode?, ghost t: Tree, ghost q: RbNode?)
    requires t.Root() == x && t.Linked(q) && t.Proper()
    modifies x
    ensures t.Linked(p)
    ensures x != null ==> x.left == old(x.left) && x.right == old(x.right) && x.color == old(x.color)
  {
    if x != null {
      x.parent := p;
    }
  }

  /** Puts child in the place of node, under its parent or at the root. */
  method Hang(tree: RbRoot, parent: RbNode?, node: RbNode, child: RbNode?, ghost c: Ctx)
    requires c.Linked(node, tree.root) && c.Proper() && parent == c.Parent() && node !in c.Nodes()
    modifies tree, parent
    ensures c.Linked(child, tree.root)
    ensures parent != null ==> parent.color == old(parent.color)
  {
    if parent != null {
      assert c.sib.Root() != node;
      if parent.right == node {
        parent.right := child;
      } else {
        parent.left := child;
      }
    } else {
      tree.root := child;
    }
  }

  lemma RootsIn(c: Ctx, t: Tree)
    ensures c.Parent() != null ==> c.Parent() in c.Nodes()
    ensures t.Root() != null ==> t.Root() in t.Nodes()
  {
  }

  /** The links between child, the root of t, and the parent. */
  method Attach(tree: RbRoot, parent: RbNode?, node: RbNode, child: RbNode?,
                ghost c: Ctx, ghost t: Tree, ghost q: RbNode?, ghost all: set<RbNode>)
    requires c.Linked(node, tree.root) && c.Proper() && parent == c.Parent() && node !in c.Nodes()
    requires t.Proper() && t.Root() == child && t.Linked(q) && c.Nodes() !! t.Nodes() && c.Nodes() + t.Nodes() == all
    modifies tree, all
    ensures c.Linked(child, tree.root) && t.Linked(parent)
    ensures forall m :: m in all ==> m.color == old(m.color)
  {
    RootsIn(c, t);
    hide Tree.Linked, Ctx.Linked, Tree.Proper, Ctx.Proper, Tree.Nodes, Ctx.Nodes, Tree.Root, Ctx.Parent;
    Hang(tree, parent, node, child, c);
    SetParent(child, parent, t, q);
  }

  /** The end of do_remove: child, the root of t, takes the place of node. */
  method Finish(tree: RbRoot, parent: RbNode?, node: RbNode, child: RbNode?,
                ghost c: Ctx, ghost t: Tree, ghost q: RbNode?, ghost all: set<RbNode>)
    requires c.Linked(node, tree.root) && c.Proper() && parent == c.Parent()
    requires t.Proper() && t.Root() == child && t.Linked(q) && c.Nodes() !! t.Nodes()
    requires node !in c.Nodes() && node !in t.Nodes() && c.Nodes() + t.Nodes() + {node} == all
    modifies tree, all
    ensures Zip(c, t, tree.root)
    ensures node.parent == null && node.left == null && node.right == null && node.color == Black
    ensures forall m :: m in all && m != node ==> m.color == old(m.color)
  {
    RootsIn(c, t);
    hide Tree.Linked, Ctx.Linked, Tree.Proper, Ctx.Proper, Tree.Nodes, Ctx.Nodes, Tree.Root, Ctx.Parent;
    Attach(tree, parent, node, child, c, t, q, c.Nodes() + t.Nodes());
    node.parent, node.left, node.right, node.color := null, null, null, Black;
  }

  lemma JoinLinked(l: Tree, n: RbNode, r: Tree)
    requires n.parent == null && n.left == l.Root() && n.right == r.Root() && l.Linked(n) && r.Linked(n)
    ensures Node(l, n, r).Linked(null)
  {
  }

  method TakeLeft(node: RbNode, child: RbNode, ghost l: Tree)
    requires node.left == l.Root() && l.Linked(node) && l.Proper() && child !in l.Nodes() && child != node
    requires l.Root() != null ==> l.Root() in l.Nodes()
    modifies child, node.left
    ensures child.left == l.Root() && l.Linked(child)
    ensures child.parent == old(child.parent) && child.color == old(child.color)
    ensures l.Root() != null ==> l.Root().color == old(l.Root().color)
  {
    hide Tree.Linked, Tree.Proper, Tree.Nodes, Tree.Root;
    child.left := node.left;
    SetParent(node.left, child, l, node);
  }

  method TakeRight(node: RbNode, child: RbNode, ghost r: Tree)
    requires node.right == r.Root() && r.Linked(node) && r.Proper() && child !in r.Nodes() && child != node
    requires r.Root() != null ==> r.Root() in r.Nodes()
    modifies child, node.right
    ensures child.right == r.Root() && r.Linked(child)
    ensures child.parent == old(child.parent) && child.left == old(child.left) && child.color == old(child.color)
    ensures r.Root() != null ==> r.Root().color == old(r.Root().color)
  {
    hide Tree.Linked, Tree.Proper, Tree.Nodes, Tree.Root;
    child.right := node.right;
    SetParent(node.right, child, r, node);
  }

  /** The two-child case after the node before it, child, has been unlinked and
      l is what it left on the left: child takes over both subtrees of node. */
  method TakeChildren(node: RbNode, child: RbNode, ghost c: Ctx, ghost l: Tree, ghost r: Tree,
                      ghost top: RbNode?, ghost all: set<RbNode>)
    requires Zip(Under(Left, c, node, r), l, top)
    requires child !in c.Nodes() && child !in l.Nodes() && child !in r.Nodes() && child != node
    requires child.parent == null && all == c.Nodes() + l.Nodes() + r.Nodes() + {node, child}
    modifies all
    ensures c.Linked(node, top) && Node(l, child, r).Linked(null)
    ensures forall m :: m in all ==> m.color == old(m.color)
  {
    assert c.Linked(node, top) && l.Linked(node) && r.Linked(node);
    assert l.Proper() && r.Proper() && node.left == l.Root() && node.right == r.Root();
    RootsIn(c, l);
    RootsIn(c, r);
    hide Tree.Linked, Ctx.Linked, Tree.Proper, Ctx.Proper;
    hide Tree.Nodes, Ctx.Nodes, Tree.Root, Ctx.Parent;
    TakeLeft(node, child, l);
    TakeRight(node, child, r);
    JoinLinked(l, child, r);
  }

  /** The node before s.n in order, in the tree taken apart there. */
  lemma ZipMax(c: Ctx, s: Tree, top: RbNode?) returns (c': Ctx, s': Tree)
    requires Zip(c, s, top) && s.Node? && s.l.Node?
    ensures Zip(c', s', top) && s'.Node? && s'.n == MaxOf(s.l) && s'.r == Leaf
    ensures c'.Nodes() + s'.Nodes() == c.Nodes() + s.Nodes()
    ensures c'.Plug(s'.l) == Under(Left, c, s.n, s.r).Plug(RemoveMax(s.l))
  {
    hide Zip, IsTree;
    var c1 := Under(Left, c, s.n, s.r);
    c', s' := FocusMax(c1, s.l);
    ZipIsTree(c, s, top);
    ZipIsTree(c', s', top);
    PlugNodes(c, s);
    PlugNodes(c', s');
  }

  lemma ZipWithoutMax(c: Ctx, s: Tree, c': Ctx, l: Tree, top: RbNode?)
    requires s.Node? && s.l.Node? && Zip(c', l, top)
    requires c'.Plug(l) == Under(Left, c, s.n, s.r).Plug(RemoveMax(s.l))
    ensures Zip(Under(Left, c, s.n, s.r), RemoveMax(s.l), top)
  {
    hide Zip, IsTree;
    ZipIsTree(c', l, top);
    ZipIsTree(Under(Left, c, s.n, s.r), RemoveMax(s.l), top);
  }

  lemma PartMembers(c: Ctx, s: Tree)
    requires c.Proper() && s.Proper() && c.Nodes() !! s.Nodes() && s.Node?
    ensures s.n in s.Nodes() && s.n !in c.Nodes() && s.n !in s.l.Nodes() && s.n !in s.r.Nodes()
    ensures s.l.Node? ==>
              var x := MaxOf(s.l);
              x in s.Nodes() && x != s.n && x !in c.Nodes() && x !in s.r.Nodes() && x !in RemoveMax(s.l).Nodes()
              && s.l.Nodes() == RemoveMax(s.l).Nodes() + {x}
    ensures c.Proper() && Removed(s).Proper()
    ensures Removed(s).Nodes() == s.Nodes() - {s.n} && c.Nodes() !! Removed(s).Nodes()
  {
    RemovedWalk(s);
    if s.l.Node? {
      MaxIsLast(s.l);
    }
  }

  lemma ZipMembers(c: Ctx, s: Tree, top: RbNode?)
    requires Zip(c, s, top) && s.Node?
    ensures s.Proper() && c.Proper() && c.Nodes() !! s.Nodes()
    ensures s.n in s.Nodes() && s.n !in c.Nodes() && s.n !in s.l.Nodes() && s.n !in s.r.Nodes()
    ensures c.Proper() && Removed(s).Proper()
    ensures Removed(s).Nodes() == s.Nodes() - {s.n} && c.Nodes() !! Removed(s).Nodes()
  {
    PartMembers(c, s);
  }

  /** After child, the node before node in order, has been unlinked: it takes
      the place of node. */
  method TakePlace(tree: RbRoot, parent: RbNode?, node: RbNode, child: RbNode,
                   ghost c: Ctx, ghost s: Tree, ghost all: set<RbNode>)
    requires s.Node? && s.n == node && s.l.Node? && s.r.Node? && child == MaxOf(s.l) && parent == c.Parent()
    requires Zip(Under(Left, c, node, s.r), RemoveMax(s.l), tree.root)
    requires c.Proper() && s.Proper() && c.Nodes() !! s.Nodes() && all == c.Nodes() + s.Nodes()
    requires child.parent == null
    modifies tree, all
    ensures Zip(c, Removed(s), tree.root)
    ensures node.parent == null && node.left == null && node.right == null && node.color == Black
    ensures forall m :: m in all && m != node ==> m.color == old(m.color)
  {
    PartMembers(c, s);
    hide Tree.Proper, Ctx.Proper, Tree.Linked, Ctx.Linked, Zip, RemoveMax, MaxOf;
    TakeChildren(node, child, c, RemoveMax(s.l), s.r, tree.root, all);
    Finish(tree, parent, node, child, c, Removed(s), null, all);
  }

  /** The case of two children. */
  method RemoveTwo(tree: RbRoot, node: RbNode, ghost c: Ctx, ghost s: Tree, ghost all: set<RbNode>)
    requires Zip(c, s, tree.root) && s.Node? && s.n == node && all == c.Nodes() + s.Nodes()
    requires s.l.Node? && s.r.Node?
    modifies tree, all
    ensures Zip(c, Removed(s), tree.root)
    ensures node.parent == null && node.left == null && node.right == null && node.color == Black
    ensures forall m :: m in all && m != node && m != MaxOf(s.l) ==> m.color == old(m.color)
    ensures MaxOf(s.l).color == Black
    decreases 1, 0
  {
    var parent := node.parent;
    ZipMembers(c, s, tree.root);
    MaxIsLast(s.l);
    ghost var c', s' := ZipMax(c, s, tree.root);
    var child := GetOutermost(node.left, Right, s.l, node);
    hide Tree.Proper, Ctx.Proper, Tree.Linked, Ctx.Linked, Zip, Ctx.Plug, RemoveMax, MaxOf, Tree.Walk, Removed;
    DoRemove(tree, child, c', s', all);
    ZipWithoutMax(c, s, c', s'.l, tree.root);
    TakePlace(tree, parent, node, child, c, s, all);
  }

  /** Takes a node out of the tree: the node itself if it has at most one child,
      and otherwise the node before it in order, which then takes its place. */
  method DoRemove(tree: RbRoot, node: RbNode, ghost c: Ctx, ghost s: Tree, ghost all: set<RbNode>)
    requires Zip(c, s, tree.root) && s.Node? && s.n == node && all == c.Nodes() + s.Nodes()
    modifies tree, all
    ensures Zip(c, Removed(s), tree.root)
    ensures node.parent == null && node.left == null && node.right == null && node.color == Black
    ensures forall m :: m in all && m != node && (s.l.Node? && s.r.Node? ==> m != MaxOf(s.l)) ==>
              m.color == old(m.color)
    ensures s.l.Node? && s.r.Node? ==> MaxOf(s.l).color == Black
    decreases if s.l.Node? && s.r.Node? then 1 else 0
  {
    ZipMembers(c, s, tree.root);
    var parent := node.parent;
    if node.left != null && node.right != null {
      RemoveTwo(tree, node, c, s, all);
    } else {
      var child := if node.left == null then node.right else node.left;
      Finish(tree, parent, node, child, c, Removed(s), node, all);
    }
  }

  lemma RemovedOrder(c: Ctx, s: Tree, t: Tree, i: nat)
    requires c.Plug(s) == t && s.Node? && t.Proper() && i < |t.Walk(Right)| && t.Walk(Right)[i] == s.n
    ensures c.Plug(Removed(s)).Walk(Right) == t.Walk(Right)[..i] + t.Walk(Right)[i + 1..]
  {
    hide Tree.Walk, Tree.Proper, Ctx.Plug, Ctx.Before, Ctx.After, Removed;
    WhereFocusIs(c, s, t, Right, i);
    RemovedWalk(s);
    PlugWalk(c, Removed(s), Right);
    FlattenTwo(c.Before(Right), s.l.Walk(Right), s.r.Walk(Right), c.After(Right));
  }

  /** The node before s.n in order, if it has one on its left. */
  lemma Predecessor(c: Ctx, s: Tree, t: Tree, i: nat)
    requires c.Plug(s) == t && s.Node? && t.Proper() && i < |t.Walk(Right)| && t.Walk(Right)[i] == s.n
    ensures s.l.Node? ==> i > 0 && t.Walk(Right)[i - 1] == MaxOf(s.l)
  {
    if s.l.Node? {
      MaxIsLast(s.l);
      hide Tree.Walk, Tree.Proper, Ctx.Plug, Ctx.Before, Ctx.After, MaxOf, RemoveMax;
      WhereFocusIs(c, s, t, Right, i);
      assert Other(Right) == Left && s.Sub(Left) == s.l;
      assert t.Walk(Right)[..i][i - 1] == MaxOf(s.l);
    }
  }

  /** do_remove, called for the i-th node in order: exactly that node goes. The
      node before it, which takes its place if it has two children, becomes
      black, so that the place keeps its colour just when it was black. */
  method Remove(tree: RbRoot?, node: RbNode?, ghost t: Tree, ghost i: nat, ghost all: set<RbNode>)
    returns (res: int, ghost t': Tree)
    requires tree != null && node != null ==>
               IsTree(t, tree.root) && t.Nodes() == all && i < |t.Walk(Right)| && t.Walk(Right)[i] == node
    modifies if tree != null && node != null then all + {tree} else {}
    ensures res == if tree == null || node == null then -1 else 0
    ensures tree != null && node != null ==>
              && IsTree(t', tree.root)
              && t'.Walk(Right) == t.Walk(Right)[..i] + t.Walk(Right)[i + 1..]
              && node.parent == null && node.left == null && node.right == null && node.color == Black
    ensures tree != null && node != null ==>
              var two := old(node.left) != null && old(node.right) != null;
              && (two ==> i > 0 && t.Walk(Right)[i - 1].color == Black)
              && (forall m :: m in all && m != node && !(two && m == t.Walk(Right)[i - 1]) ==>
                    m.color == old(m.color))
  {
    if tree == null || node == null {
      return -1, t;
    }
    WalkMember(t, Right, node);
    ghost var c, s := Focus(Top, t, node);
    ZipIsTree(c, s, tree.root);
    PlugNodes(c, s);
    RemovedOrder(c, s, t, i);
    Predecessor(c, s, t, i);
    DoRemove(tree, node, c, s, all);
    ZipIsTree(c, Removed(s), tree.root);
    return 0, c.Plug(Removed(s));
  }

  lemma ReplacedOrder(c: Ctx, s: Tree, t: Tree, i: nat, n: RbNode)
    requires c.Plug(s) == t && s.Node? && t.Proper() && i < |t.Walk(Right)| && t.Walk(Right)[i] == s.n
    ensures c.Plug(Node(s.l, n, s.r)).Walk(Right) == t.Walk(Right)[i := n]
  {
    assert Node(s.l, n, s.r).Walk(Right) == s.l.Walk(Right) + [n] + s.r.Walk(Right);
    hide Tree.Walk, Tree.Proper, Ctx.Plug, Ctx.Before, Ctx.After;
    WhereFocusIs(c, s, t, Right, i);
    PlugWalk(c, Node(s.l, n, s.r), Right);
    Flatten(c.Before(Right), s.l.Walk(Right), n, s.r.Walk(Right), c.After(Right));
    UpdateAt(t.Walk(Right), i, n);
  }

  /** Turns the links that lead to node, from above and from below. */
  method TurnLinks(tree: RbRoot, node: RbNode, newNode: RbNode, ghost c: Ctx, ghost s: Tree, ghost all: set<RbNode>)
    requires Zip(c, s, tree.root) && s.Node? && s.n == node && all == c.Nodes() + s.Nodes() && newNode !in all
    modifies tree, all
    ensures c.Linked(newNode, tree.root) && s.l.Linked(newNode) && s.r.Linked(newNode)
    ensures node.parent == c.Parent() && node.left == s.l.Root() && node.right == s.r.Root()
    ensures forall m :: m in all ==> m.color == old(m.color)
  {
    RootsIn(c, s.l);
    RootsIn(c, s.r);
    Hang(tree, node.parent, node, newNode, c);
    SetParent(node.left, newNode, s.l, node);
    SetParent(node.right, newNode, s.r, node);
  }

  /** *newNode = *node */
  method Copy(node: RbNode, newNode: RbNode)
    requires node != newNode
    modifies newNode
    ensures newNode.parent == node.parent && newNode.left == node.left && newNode.right == node.right
    ensures newNode.color == node.color
  {
    newNode.parent, newNode.left, newNode.right, newNode.color := node.parent, node.left, node.right, node.color;
  }

  lemma ZipPlaced(c: Ctx, s: Tree, n: RbNode, top: RbNode?)
    requires s.Node? && c.Proper() && s.Proper() && c.Nodes() !! s.Nodes() && n !in c.Nodes() && n !in s.Nodes()
    requires n.parent == c.Parent() && n.left == s.l.Root() && n.right == s.r.Root()
    requires c.Linked(n, top) && s.l.Linked(n) && s.r.Linked(n)
    ensures Zip(c, Node(s.l, n, s.r), top)
  {
  }

  method PutInPlace(tree: RbRoot, node: RbNode, newNode: RbNode, ghost c: Ctx, ghost s: Tree, ghost all: set<RbNode>)
    requires Zip(c, s, tree.root) && s.Node? && s.n == node && all == c.Nodes() + s.Nodes()
    requires newNode !in all
    modifies tree, all, newNode
    ensures Zip(c, Node(s.l, newNode, s.r), tree.root)
    ensures newNode.color == old(node.color) && forall m :: m in all ==> m.color == old(m.color)
  {
    assert c.Proper() && s.Proper() && c.Nodes() !! s.Nodes();
    assert newNode !in c.Nodes() && newNode !in s.Nodes() && newNode !in s.l.Nodes() && newNode !in s.r.Nodes();
    hide Ctx.Linked, Ctx.Proper, Ctx.Nodes, Ctx.Parent, Tree.Linked, Tree.Proper, Tree.Nodes, Tree.Root, Zip;
    TurnLinks(tree, node, newNode, c, s, all);
    Copy(node, newNode);
    ZipPlaced(c, s, newNode, tree.root);
  }

  /** rb_replace: newNode takes the place and the colour of the i-th node in
      order; no other colour changes. */
  method RbReplace(tree: RbRoot, node: RbNode?, newNode: RbNode?, ghost t: Tree, ghost i: nat,
                   ghost all: set<RbNode>)
    returns (res: int, ghost t': Tree)
    requires node != null && newNode != null ==>
               && IsTree(t, tree.root) && i < |t.Walk(Right)| && t.Walk(Right)[i] == node
               && t.Nodes() == all && newNode !in all
    modifies if node != null && newNode != null then all + {tree, newNode} else {}
    ensures res == if node == null || newNode == null then -1 else 0
    ensures node != null && newNode != null ==>
              && IsTree(t', tree.root)
              && t'.Walk(Right) == t.Walk(Right)[i := newNode]
              && newNode.color == old(node.color)
              && forall m :: m in all ==> m.color == old(m.color)
  {
    if node == null || newNode == null {
      return -1, t;
    }
    WalkMember(t, Right, node);
    ghost var c, s := Focus(Top, t, node);
    ZipIsTree(c, s, tree.root);
    PlugNodes(c, s);
    ReplacedOrder(c, s, t, i, newNode);
    PutInPlace(tree, node, newNode, c, s, all);
    ZipIsTree(c, Node(s.l, newNode, s.r), tree.root);
    return 0, c.Plug(Node(s.l, newNode, s.r));
  }
}
