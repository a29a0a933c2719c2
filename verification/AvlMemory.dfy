/**
 How the nodes of src/common/RTAVLTree.h represent a tree in memory: parent and child
 pointers and a balance factor per node. A memory state is a map from addresses to link
 records, and the heads of the twin rings are the nodes that are linked into the tree.
 */
module AvlMemory {
  import opened AvlShape

  datatype Link = Link(parent: Id, left: Id, right: Id, bal: int)

  type Memory = map<Id, Link>

  /** RTAVLNode::reset() */
  const RESET := Link(NULL, NULL, NULL, 0)

  function Child(l: Link, d: Dir): Id {
    if d.Left? then l.left else l.right
  }

  function WithChild(l: Link, d: Dir, x: Id): Link {
    if d.Left? then l.(left := x) else l.(right := x)
  }

  function Head(ring: Ring): Id {
    if ring == [] then NULL else ring[0]
  }

  // ----- Footprints -----

  function Ids(t: Tree): set<Id> {
    match t
    case Leaf => {}
    case Node(ring, _, l, r) => Ids(l) + {Head(ring)} + Ids(r)
  }

  function ContextIds(c: Context): set<Id> {
    match c
    case Top => {}
    case Frame(_, ring, _, sib, up) => Ids(sib) + {Head(ring)} + ContextIds(up)
  }

  /** No two nodes of the tree share an address. */
  predicate Distinct(t: Tree) {
    match t
    case Leaf => true
    case Node(ring, _, l, r) =>
      && Head(ring) !in Ids(l) && Head(ring) !in Ids(r) && Ids(l) !! Ids(r)
      && Distinct(l) && Distinct(r)
  }

  predicate ContextDistinct(c: Context) {
    match c
    case Top => true
    case Frame(_, ring, _, sib, up) =>
      && Head(ring) !in Ids(sib) && Head(ring) !in ContextIds(up) && Ids(sib) !! ContextIds(up)
      && Distinct(sib) && ContextDistinct(up)
  }

  // ----- Representation -----

  /** Pointer `x` is the root of `t`, whose parent is `p`. */
  predicate Rep(m: Memory, t: Tree, p: Id, x: Id) {
    match t
    case Leaf => x == NULL
    case Node(ring, bal, l, r) =>
      && ring != [] && x == ring[0] && x != NULL && x in m
      && m[x].parent == p && m[x].bal == bal
      && Rep(m, l, x, m[x].left) && Rep(m, r, x, m[x].right)
  }

  /** The context around a subtree at `x` with parent `p`, up to the root pointer. */
  predicate ContextRep(m: Memory, c: Context, root: Id, x: Id, p: Id) {
    match c
    case Top => p == NULL && root == x
    case Frame(d, ring, bal, sib, up) =>
      && ring != [] && p == ring[0] && p != NULL && p in m
      && m[p].bal == bal && Child(m[p], d) == x
      && Rep(m, sib, p, Child(m[p], d.Opposite()))
      && ContextRep(m, up, root, p, m[p].parent)
  }

  /** Memory `m` with root pointer `root` holds Plug(c, t), and `x` with parent `p` is where `t` hangs. */
  predicate At(m: Memory, root: Id, c: Context, t: Tree, x: Id, p: Id) {
    && Rep(m, t, p, x) && ContextRep(m, c, root, x, p)
    && Distinct(t) && ContextDistinct(c) && Ids(t) !! ContextIds(c)
  }

  predicate SameOn(m: Memory, m': Memory, ids: set<Id>) {
    forall i | i in ids :: i in m && i in m' && m'[i] == m[i]
  }

  /** Nodes outside `ids` are untouched. */
  predicate Kept(m: Memory, m': Memory, ids: set<Id>) {
    forall i | i in m && i !in ids && i != NULL :: i in m' && m'[i] == m[i]
  }

  lemma {:induction false} RepIds(m: Memory, t: Tree, p: Id, x: Id)
    requires Rep(m, t, p, x)
    ensures Ids(t) <= m.Keys && NULL !in Ids(t) && (t.Leaf? <==> x == NULL) && (x != NULL ==> x in Ids(t))
  {
    if t.Node? {
      RepIds(m, t.left, x, m[x].left);
      RepIds(m, t.right, x, m[x].right);
    }
  }

  lemma {:induction false} ContextRepIds(m: Memory, c: Context, root: Id, x: Id, p: Id)
    requires ContextRep(m, c, root, x, p)
    ensures ContextIds(c) <= m.Keys && NULL !in ContextIds(c)
  {
    if c.Frame? {
      RepIds(m, c.sib, p, Child(m[p], c.d.Opposite()));
      ContextRepIds(m, c.up, root, p, m[p].parent);
    }
  }

  lemma {:induction false} RepFrame(m: Memory, m': Memory, t: Tree, p: Id, x: Id)
    requires Rep(m, t, p, x) && SameOn(m, m', Ids(t))
    ensures Rep(m', t, p, x)
  {
    if t.Node? {
      RepFrame(m, m', t.left, x, m[x].left);
      RepFrame(m, m', t.right, x, m[x].right);
    }
  }

  lemma {:induction false} ContextFrame(m: Memory, m': Memory, c: Context, root: Id, x: Id, p: Id)
    requires ContextRep(m, c, root, x, p) && SameOn(m, m', ContextIds(c))
    ensures ContextRep(m', c, root, x, p)
  {
    if c.Frame? {
      RepFrame(m, m', c.sib, p, Child(m[p], c.d.Opposite()));
      ContextFrame(m, m', c.up, root, p, m[p].parent);
    }
  }

  /** Only the parent pointer of the subtree's root is changed. */
  lemma Reparent(m: Memory, m': Memory, t: Tree, p: Id, p': Id, x: Id)
    requires Rep(m, t, p, x) && Distinct(t)
    requires SameOn(m, m', Ids(t) - {x})
    requires x != NULL ==> x in m && x in m' && m'[x] == m[x].(parent := p')
    ensures Rep(m', t, p', x)
  {
    if t.Node? {
      RepFrame(m, m', t.left, x, m[x].left);
      RepFrame(m, m', t.right, x, m[x].right);
    }
  }

  /** Only the downlink into the hole is changed. */
  lemma Redirect(m: Memory, m': Memory, c: Context, root: Id, root': Id, x: Id, x': Id, p: Id)
    requires ContextRep(m, c, root, x, p) && ContextDistinct(c)
    requires c.Top? ==> root' == x'
    requires c.Frame? ==>
               root' == root && p in m' && m'[p] == WithChild(m[p], c.d, x') && SameOn(m, m', ContextIds(c) - {p})
    ensures ContextRep(m', c, root', x', p)
  {
    if c.Frame? {
      RepFrame(m, m', c.sib, p, Child(m[p], c.d.Opposite()));
      ContextFrame(m, m', c.up, root, p, m[p].parent);
    }
  }

  /** The two subtrees of a node, seen from side `d`. */
  lemma Kids(m: Memory, t: Tree, p: Id, x: Id, d: Dir)
    requires t.Node? && Rep(m, t, p, x) && Distinct(t)
    ensures var near, far := Kid(t, d), Kid(t, d.Opposite());
            && Rep(m, near, x, Child(m[x], d)) && Rep(m, far, x, Child(m[x], d.Opposite()))
            && Distinct(near) && Distinct(far) && Ids(near) !! Ids(far) && x !in Ids(near) && x !in Ids(far)
            && Ids(t) == Ids(near) + {x} + Ids(far)
            && Ids(t) <= m.Keys && NULL !in Ids(t)
            && (Child(m[x], d) == NULL || Child(m[x], d) in Ids(near))
            && (near.Node? ==> Child(m[x], d) != NULL)
            && x == Head(t.ring) != NULL && x in m && t.ring != [] && m[x].bal == t.bal
  {
    RepIds(m, t, p, x);
  }

  /** A node whose two subtrees are in place, seen from side `d`. */
  lemma JoinRep(m: Memory, d: Dir, near: Tree, ring: Ring, bal: int, far: Tree, p: Id, x: Id)
    requires ring != [] && x == ring[0] && x != NULL && x in m && m[x].parent == p && m[x].bal == bal
    requires Rep(m, near, x, Child(m[x], d)) && Rep(m, far, x, Child(m[x], d.Opposite()))
    requires Distinct(near) && Distinct(far) && Ids(near) !! Ids(far) && x !in Ids(near) && x !in Ids(far)
    ensures var j := Join(d, near, ring, bal, far);
            Rep(m, j, p, x) && Distinct(j) && Ids(j) == Ids(near) + {x} + Ids(far)
  {
  }

  // ----- Moving up and down -----

  lemma ZipUp(m: Memory, root: Id, f: Context, t: Tree, x: Id, p: Id)
    requires f.Frame? && At(m, root, f, t, x, p)
    ensures p in m && At(m, root, f.up, Join(f.d, t, f.ring, f.bal, f.sib), p, m[p].parent)
  {
  }

  lemma ZipDown(m: Memory, root: Id, c: Context, t: Tree, x: Id, p: Id, d: Dir)
    requires t.Node? && At(m, root, c, t, x, p)
    ensures x in m && At(m, root, Frame(d, t.ring, t.bal, Kid(t, d.Opposite()), c), Kid(t, d), Child(m[x], d), x)
  {
  }

  lemma {:induction false} ZipToTop(m: Memory, root: Id, c: Context, t: Tree, x: Id, p: Id)
    requires At(m, root, c, t, x, p)
    ensures At(m, root, Top, Plug(c, t), root, NULL)
    decreases c
  {
    if c.Frame? {
      ZipUp(m, root, c, t, x, p);
      ZipToTop(m, root, c.up, Join(c.d, t, c.ring, c.bal, c.sib), p, m[p].parent);
    }
  }

  /** The side on which downLinkTo() and relationToParent() find a node is the side of its frame. */
  lemma SideOfHole(m: Memory, root: Id, f: Context, t: Tree, x: Id, p: Id)
    requires f.Frame? && At(m, root, f, t, x, p) && x != NULL
    ensures p in m && (m[p].left == x <==> f.d.Left?)
  {
    assert x in Ids(t);
    if f.d.Right? && f.sib.Node? {
      assert m[p].left in Ids(f.sib);
    }
  }

  // ----- Changes that climbing makes -----

  lemma SetBalance(m: Memory, root: Id, c: Context, t: Tree, x: Id, p: Id, b: int)
    requires t.Node? && At(m, root, c, t, x, p)
    ensures x in m && At(m[x := m[x].(bal := b)], root, c, t.(bal := b), x, p)
  {
    var m' := m[x := m[x].(bal := b)];
    RepIds(m, t, p, x);
    ContextRepIds(m, c, root, x, p);
    RepFrame(m, m', t.left, x, m[x].left);
    RepFrame(m, m', t.right, x, m[x].right);
    ContextFrame(m, m', c, root, x, p);
  }

  /** What downLinkTo(x) assigned to `x'` does to the parent of `x` and to the root pointer. */
  predicate DownLinked(m: Memory, m': Memory, root: Id, root': Id, p: Id, x: Id, x': Id) {
    if p == NULL then root' == x'
    else
      && root' == root && p in m && p in m'
      && m'[p] == if m[p].left == x then m[p].(left := x') else m[p].(right := x')
  }

  /** Replacing the subtree in a hole: the new subtree is in place, the parent points to it, the rest is kept. */
  lemma Replace(m: Memory, m': Memory, root: Id, root': Id, c: Context, t: Tree, x: Id, p: Id, t': Tree, x': Id)
    requires At(m, root, c, t, x, p) && x != NULL
    requires DownLinked(m, m', root, root', p, x, x')
    requires SameOn(m, m', ContextIds(c) - {p})
    requires Rep(m', t', p, x') && Distinct(t') && Ids(t') !! ContextIds(c)
    ensures At(m', root', c, t', x', p)
  {
    if c.Frame? {
      SideOfHole(m, root, c, t, x, p);
    }
    Redirect(m, m', c, root, root', x, x', p);
  }

  /** The memory after rotateOnce(x, d). */
  predicate RotatedOnceIn(m: Memory, m': Memory, root: Id, root': Id, x: Id, z: Id, d: Dir) {
    && x in m && z in m && x in m' && z in m'
    && var p, b := m[x].parent, Child(m[z], d);
    && var bal := m[z].bal + d.Sign();
    && DownLinked(m, m', root, root', p, x, z)
    && m'[x] == WithChild(m[x], d.Opposite(), b).(parent := z, bal := -bal)
    && m'[z] == WithChild(m[z], d, x).(parent := p, bal := bal)
    && (b != NULL ==> b in m && b in m' && m'[b] == m[b].(parent := x))
    && SameOn(m, m', m.Keys - {x, z, p, b})
  }

  lemma RotateOnceSubtree(m: Memory, m': Memory, root: Id, root': Id, x: Id, z: Id, d: Dir,
                          xr: Ring, zr: Ring, at: Tree, bt: Tree, ct: Tree)
    requires RotatedOnceIn(m, m', root, root', x, z, d)
    requires xr != [] && zr != [] && x == xr[0] != NULL && z == zr[0] != NULL && x != z && m[x].parent !in {x, z}
    requires Rep(m, at, x, Child(m[x], d)) && Rep(m, bt, z, Child(m[z], d)) && Rep(m, ct, z, Child(m[z], d.Opposite()))
    requires Distinct(at) && Distinct(bt) && Distinct(ct) && Ids(at) !! Ids(bt) !! Ids(ct) !! {x, z, m[x].parent}
    ensures var bal := m[z].bal + d.Sign();
            var t' := Join(d, Join(d, at, xr, -bal, bt), zr, bal, ct);
            Rep(m', t', m[x].parent, z) && Distinct(t') && Ids(t') == Ids(at) + Ids(bt) + Ids(ct) + {x, z}
  {
    hide Rep, Distinct, Ids;
    var bal := m[z].bal + d.Sign();
    RepIds(m, at, x, Child(m[x], d));
    RepIds(m, bt, z, Child(m[z], d));
    RepIds(m, ct, z, Child(m[z], d.Opposite()));
    RepFrame(m, m', at, x, Child(m[x], d));
    Reparent(m, m', bt, z, x, Child(m[z], d));
    RepFrame(m, m', ct, z, Child(m[z], d.Opposite()));
    JoinRep(m', d, at, xr, -bal, bt, z, x);
    JoinRep(m', d, Join(d, at, xr, -bal, bt), zr, bal, ct, m[x].parent, z);
  }

  /** Everything at or below `x` is changed only as said, so the context around it is kept. */
  lemma ParentOutside(m: Memory, root: Id, c: Context, t: Tree, x: Id, p: Id)
    requires At(m, root, c, t, x, p)
    ensures p !in Ids(t) && ContextIds(c) <= m.Keys - Ids(t) - {NULL}
    ensures p in ContextIds(c) + {NULL}
  {
    RepIds(m, t, p, x);
    ContextRepIds(m, c, root, x, p);
  }

  lemma RotateOnceRep(m: Memory, m': Memory, root: Id, root': Id, c: Context, t: Tree, x: Id, z: Id, d: Dir)
    requires t.Node? && Kid(t, d.Opposite()).Node? && x in m && z == Child(m[x], d.Opposite())
    requires At(m, root, c, t, x, m[x].parent)
    requires RotatedOnceIn(m, m', root, root', x, z, d)
    ensures At(m', root', c, RotatedOnce(t, d), z, m[x].parent)
    ensures Ids(RotatedOnce(t, d)) == Ids(t)
  {
    hide Rep, Distinct, Ids, ContextRep, ContextDistinct, ContextIds;
    ParentOutside(m, root, c, t, x, m[x].parent);
    var p, zt := m[x].parent, Kid(t, d.Opposite());
    Kids(m, t, p, x, d);
    Kids(m, zt, x, z, d);
    RotateOnceSubtree(m, m', root, root', x, z, d, t.ring, zt.ring, Kid(t, d), Kid(zt, d), Kid(zt, d.Opposite()));
    Replace(m, m', root, root', c, t, x, m[x].parent, RotatedOnce(t, d), z);
  }

  /** The memory after rotateTwice(x, d). */
  predicate RotatedTwiceIn(m: Memory, m': Memory, root: Id, root': Id, x: Id, z: Id, y: Id, d: Dir) {
    && x in m && z in m && y in m && x in m' && z in m' && y in m'
    && var p, b, e := m[x].parent, Child(m[y], d), Child(m[y], d.Opposite());
    && var bl, br := -Max(m[y].bal, 0), -Min(m[y].bal, 0);
    && DownLinked(m, m', root, root', p, x, y)
    && m'[x] == WithChild(m[x], d.Opposite(), b).(parent := y, bal := if d.Left? then bl else br)
    && m'[z] == WithChild(m[z], d, e).(parent := y, bal := if d.Left? then br else bl)
    && m'[y] == WithChild(WithChild(m[y], d, x), d.Opposite(), z).(parent := p, bal := 0)
    && (b != NULL ==> b in m && b in m' && m'[b] == m[b].(parent := x))
    && (e != NULL ==> e in m && e in m' && m'[e] == m[e].(parent := z))
    && SameOn(m, m', m.Keys - {x, z, y, p, b, e})
  }

  lemma RotateTwiceSubtree(m: Memory, m': Memory, root: Id, root': Id, x: Id, z: Id, y: Id, d: Dir,
                           xr: Ring, zr: Ring, yr: Ring, at: Tree, bt: Tree, et: Tree, ct: Tree)
    requires RotatedTwiceIn(m, m', root, root', x, z, y, d)
    requires xr != [] && zr != [] && yr != [] && x == xr[0] != NULL && z == zr[0] != NULL && y == yr[0] != NULL
    requires x != z && y != z && x != y && m[x].parent !in {x, y, z}
    requires Rep(m, at, x, Child(m[x], d)) && Rep(m, bt, y, Child(m[y], d))
    requires Rep(m, et, y, Child(m[y], d.Opposite())) && Rep(m, ct, z, Child(m[z], d.Opposite()))
    requires Distinct(at) && Distinct(bt) && Distinct(et) && Distinct(ct)
    requires Ids(at) !! Ids(bt) !! Ids(et) !! Ids(ct) !! {x, z, y, m[x].parent}
    ensures var t' := Join(d, Join(d, at, xr, m'[x].bal, bt), yr, 0, Join(d, et, zr, m'[z].bal, ct));
            && Rep(m', t', m[x].parent, y) && Distinct(t')
            && Ids(t') == Ids(at) + Ids(bt) + Ids(et) + Ids(ct) + {x, y, z}
  {
    hide Rep, Distinct, Ids;
    RepIds(m, at, x, Child(m[x], d));
    RepIds(m, bt, y, Child(m[y], d));
    RepIds(m, et, y, Child(m[y], d.Opposite()));
    RepIds(m, ct, z, Child(m[z], d.Opposite()));
    RepFrame(m, m', at, x, Child(m[x], d));
    Reparent(m, m', bt, y, x, Child(m[y], d));
    Reparent(m, m', et, y, z, Child(m[y], d.Opposite()));
    RepFrame(m, m', ct, z, Child(m[z], d.Opposite()));
    JoinRep(m', d, at, xr, m'[x].bal, bt, y, x);
    JoinRep(m', d, et, zr, m'[z].bal, ct, y, z);
    JoinRep(m', d, Join(d, at, xr, m'[x].bal, bt), yr, 0, Join(d, et, zr, m'[z].bal, ct), m[x].parent, y);
  }

  lemma RotateTwiceRep(m: Memory, m': Memory, root: Id, root': Id, c: Context, t: Tree, x: Id, z: Id, y: Id, d: Dir)
    requires t.Node? && Kid(t, d.Opposite()).Node? && Kid(Kid(t, d.Opposite()), d).Node? && x in m && z in m
    requires At(m, root, c, t, x, m[x].parent) && z == Child(m[x], d.Opposite()) && y == Child(m[z], d)
    requires RotatedTwiceIn(m, m', root, root', x, z, y, d)
    ensures At(m', root', c, RotatedTwice(t, d), y, m[x].parent)
    ensures Ids(RotatedTwice(t, d)) == Ids(t)
  {
    hide Rep, Distinct, Ids, ContextRep, ContextDistinct, ContextIds;
    ParentOutside(m, root, c, t, x, m[x].parent);
    var p, zt := m[x].parent, Kid(t, d.Opposite());
    var yt := Kid(zt, d);
    Kids(m, t, p, x, d);
    Kids(m, zt, x, z, d);
    Kids(m, yt, z, y, d);
    Kids(m, yt, z, y, d.Opposite());
    RotateTwiceSubtree(m, m', root, root', x, z, y, d, t.ring, zt.ring, yt.ring,
                       Kid(t, d), Kid(yt, d), Kid(yt, d.Opposite()), Kid(zt, d.Opposite()));
    Replace(m, m', root, root', c, t, x, m[x].parent, RotatedTwice(t, d), y);
  }

  lemma AtFrame(m: Memory, m': Memory, root: Id, c: Context, t: Tree, x: Id, p: Id)
    requires At(m, root, c, t, x, p) && SameOn(m, m', Ids(t) + ContextIds(c))
    ensures At(m', root, c, t, x, p)
  {
    RepFrame(m, m', t, p, x);
    ContextFrame(m, m', c, root, x, p);
  }

  /** A ring may change behind its head. */
  lemma SameHead(m: Memory, root: Id, c: Context, t: Tree, x: Id, p: Id, ring: Ring)
    requires t.Node? && At(m, root, c, t, x, p) && ring != [] && ring[0] == x
    ensures At(m, root, c, t.(ring := ring), x, p)
  {
  }

  lemma {:induction false} ZipDownPath(m: Memory, root: Id, base: Context, spine: Context, t: Tree, x0: Id, p0: Id)
    returns (x: Id, p: Id)
    requires At(m, root, base, Plug(spine, t), x0, p0)
    ensures At(m, root, Append(spine, base), t, x, p)
    decreases spine
  {
    if spine.Top? {
      x, p := x0, p0;
    } else {
      x, p := ZipDownPath(m, root, base, spine.up, Join(spine.d, t, spine.ring, spine.bal, spine.sib), x0, p0);
      ZipDown(m, root, Append(spine.up, base), Join(spine.d, t, spine.ring, spine.bal, spine.sib), x, p, spine.d);
      x, p := Child(m[x], spine.d), x;
    }
  }

  /** The memory after node `n` took the place of node `x` in the tree. */
  predicate RenamedIn(m: Memory, m': Memory, root: Id, root': Id, x: Id, n: Id) {
    && x in m && n in m'
    && var p, l, r := m[x].parent, m[x].left, m[x].right;
    && DownLinked(m, m', root, root', p, x, n)
    && m'[n] == m[x]
    && (l != NULL ==> l in m && l in m' && m'[l] == m[l].(parent := n))
    && (r != NULL ==> r in m && r in m' && m'[r] == m[r].(parent := n))
    && SameOn(m, m', m.Keys - {x, n, p, l, r})
  }

  lemma RenameRep(m: Memory, m': Memory, root: Id, root': Id, c: Context, t: Tree, x: Id, n: Id, ring: Ring)
    requires t.Node? && x in m && At(m, root, c, t, x, m[x].parent)
    requires n != NULL && n !in Ids(t) && n !in ContextIds(c) && ring != [] && ring[0] == n
    requires RenamedIn(m, m', root, root', x, n)
    ensures At(m', root', c, t.(ring := ring), n, m[x].parent)
    ensures Ids(t.(ring := ring)) == Ids(t) - {x} + {n}
  {
    var p := m[x].parent;
    ParentOutside(m, root, c, t, x, p);
    Kids(m, t, p, x, Left);
    Kids(m, t, p, x, Right);
    hide Rep, Distinct, Ids, ContextRep, ContextDistinct, ContextIds;
    Reparent(m, m', t.left, x, n, m[x].left);
    Reparent(m, m', t.right, x, n, m[x].right);
    JoinRep(m', Left, t.left, ring, t.bal, t.right, p, n);
    Replace(m, m', root, root', c, t, x, p, t.(ring := ring), n);
  }

  /** Attaching a new leaf on the free side of a node. */
  lemma AttachLeaf(m: Memory, root: Id, f: Context, p: Id, item: Id)
    requires f.Frame? && At(m, root, f, Leaf, NULL, p)
    requires item != NULL && item !in ContextIds(f)
    ensures p in m && At(m[p := WithChild(m[p], f.d, item)][item := RESET.(parent := p)], root, f,
            Node([item], 0, Leaf, Leaf), item, p)
  {
    ContextRepIds(m, f, root, NULL, p);
    Redirect(m, m[p := WithChild(m[p], f.d, item)][item := RESET.(parent := p)], f, root, root, NULL, item, p);
  }

  /** Hooking out a leaf. */
  lemma CutLeaf(m: Memory, root: Id, f: Context, t: Tree, x: Id, p: Id)
    requires f.Frame? && At(m, root, f, t, x, p)
    ensures p in m && At(m[p := WithChild(m[p], f.d, NULL)], root, f, Leaf, NULL, p)
  {
    ContextRepIds(m, f, root, x, p);
    Redirect(m, m[p := WithChild(m[p], f.d, NULL)], f, root, root, x, NULL, p);
  }

  lemma {:induction false} IdsPlug(c: Context, t: Tree)
    ensures Ids(Plug(c, t)) == Ids(t) + ContextIds(c)
    decreases c
  {
    if c.Frame? {
      IdsPlug(c.up, Join(c.d, t, c.ring, c.bal, c.sib));
    }
  }

  lemma ParentKnown(m: Memory, root: Id, c: Context, t: Tree, x: Id, p: Id)
    requires At(m, root, c, t, x, p)
    ensures p == NULL || p in m
    ensures p == NULL <==> c.Top?
  {
  }

  lemma KidBalance(m: Memory, t: Tree, p: Id, x: Id, d: Dir)
    requires t.Node? && Rep(m, t, p, x) && Kid(t, d).Node?
    ensures Child(m[x], d) in m && m[Child(m[x], d)].bal == Kid(t, d).bal
  {
  }

  /** The cells that rotateOnce() writes are where the source expects them, and are not one another. */
  lemma RotateOnceCells(m: Memory, root: Id, c: Context, t: Tree, x: Id, d: Dir)
    requires x in m && t.Node? && Kid(t, d.Opposite()).Node? && At(m, root, c, t, x, m[x].parent)
    ensures var p, z := m[x].parent, Child(m[x], d.Opposite());
            && (p == NULL || p in m) && z in m && x != z && p !in {x, z} && x != NULL && z != NULL
            && m[z].bal == Kid(t, d.Opposite()).bal
            && {x, z, Child(m[z], d), p} <= Ids(t) + ContextIds(c) + {NULL}
            && var b := Child(m[z], d); b != NULL ==> b in m && b !in {x, z, p}
  {
    hide Rep, Distinct, Ids, ContextRep, ContextDistinct, ContextIds;
    Kids(m, t, m[x].parent, x, d.Opposite());
    Kids(m, Kid(t, d.Opposite()), x, Child(m[x], d.Opposite()), d);
    ParentOutside(m, root, c, t, x, m[x].parent);
    ParentKnown(m, root, c, t, x, m[x].parent);
  }

  lemma RotateTwiceCells(m: Memory, root: Id, c: Context, t: Tree, x: Id, d: Dir)
    requires x in m && t.Node? && Kid(t, d.Opposite()).Node? && Kid(Kid(t, d.Opposite()), d).Node?
    requires At(m, root, c, t, x, m[x].parent)
    ensures var p, z := m[x].parent, Child(m[x], d.Opposite());
            && (p == NULL || p in m) && z in m && x != z && x != NULL && z != NULL
            && var y := Child(m[z], d);
            && y in m && y != x && y != z && y != NULL && p !in {x, z, y}
            && var b, e := Child(m[y], d), Child(m[y], d.Opposite());
            && (b != NULL ==> b in m && b !in {x, z, y, p} && b != e)
            && (e != NULL ==> e in m && e !in {x, z, y, p})
            && {x, z, y, p, b, e} <= Ids(t) + ContextIds(c) + {NULL}
  {
    hide Rep, Distinct, Ids, ContextRep, ContextDistinct, ContextIds;
    var p, z := m[x].parent, Child(m[x], d.Opposite());
    Kids(m, t, p, x, d.Opposite());
    Kids(m, Kid(t, d.Opposite()), x, z, d);
    Kids(m, Kid(Kid(t, d.Opposite()), d), z, Child(m[z], d), d);
    Kids(m, Kid(Kid(t, d.Opposite()), d), z, Child(m[z], d), d.Opposite());
    ParentOutside(m, root, c, t, x, p);
    ParentKnown(m, root, c, t, x, p);
  }

  lemma RootNotNull(m: Memory, root: Id, c: Context, t: Tree, x: Id)
    requires t.Node? && x in m && At(m, root, c, t, x, m[x].parent)
    ensures x != NULL
  {
  }

  lemma NodeBalance(m: Memory, root: Id, c: Context, t: Tree, x: Id, p: Id)
    requires t.Node? && At(m, root, c, t, x, p)
    ensures x in m && m[x].bal == t.bal && m[x].parent == p && x != NULL
  {
  }

  lemma NodeBelow(m: Memory, t: Tree, p: Id, x: Id, d: Dir)
    requires t.Node? && Rep(m, t, p, x)
    ensures Child(m[x], d) == NULL <==> Kid(t, d).Leaf?
    ensures Kid(t, d).Node? ==>
              Child(m[x], d) in m && m[Child(m[x], d)].parent == x && Child(m[x], d) == Head(Kid(t, d).ring)
  {
  }

  /** A node outside the tree may be changed. */
  lemma StrangerChanged(m: Memory, root: Id, t: Tree, x: Id, link: Link)
    requires At(m, root, Top, t, root, NULL) && x !in Ids(t)
    ensures At(m[x := link], root, Top, t, root, NULL)
  {
    RepIds(m, t, NULL, root);
    AtFrame(m, m[x := link], root, Top, t, root, NULL);
  }

  /** The free side of a node is a hole in which the empty tree hangs. */
  lemma FreeSide(m: Memory, root: Id, c: Context, t: Tree, x: Id, d: Dir)
    requires x in m && t.Node? && At(m, root, c, t, x, m[x].parent) && Child(m[x], d) == NULL
    ensures Kid(t, d) == Leaf && At(m, root, Frame(d, t.ring, t.bal, Kid(t, d.Opposite()), c), Leaf, NULL, x)
  {
    NodeBelow(m, t, m[x].parent, x, d);
    ZipDown(m, root, c, t, x, m[x].parent, d);
  }

  lemma OnlyNode(m: Memory, item: Id)
    requires item != NULL
    ensures At(m[item := RESET], item, Top, Node([item], 0, Leaf, Leaf), item, NULL)
  {
  }

  lemma EmptyRoot(m: Memory, root: Id, t: Tree)
    requires At(m, root, Top, t, root, NULL)
    ensures root == NULL <==> t == Leaf
    ensures root != NULL ==> root in m && m[root].parent == NULL && root == Head(t.ring)
  {
  }

  // ----- Changes that erase() makes -----

  /** A node with at most one child, on side `d`, is replaced by that child (or by nothing). */
  lemma SpliceOut(m: Memory, m': Memory, root: Id, root': Id, c: Context, t: Tree, x: Id, d: Dir)
    requires x in m && t.Node? && Kid(t, d.Opposite()).Leaf? && At(m, root, c, t, x, m[x].parent)
    requires var p, y := m[x].parent, Child(m[x], d);
             && DownLinked(m, m', root, root', p, x, y)
             && (y != NULL ==> y in m && y in m' && m'[y] == m[y].(parent := p))
             && SameOn(m, m', m.Keys - {p, y})
    ensures At(m', root', c, Kid(t, d), Child(m[x], d), m[x].parent)
    ensures x !in Ids(Kid(t, d)) && x !in ContextIds(c) && Ids(t) == Ids(Kid(t, d)) + {x}
  {
    var p, y := m[x].parent, Child(m[x], d);
    ParentOutside(m, root, c, t, x, p);
    Kids(m, t, p, x, d);
    assert Ids(Kid(t, d.Opposite())) == {};
    hide Rep, Distinct, Ids, ContextRep, ContextDistinct, ContextIds;
    Reparent(m, m', Kid(t, d), x, p, y);
    Replace(m, m', root, root', c, t, x, p, Kid(t, d), y);
  }

  lemma {:induction false} ZipUpPath(m: Memory, root: Id, base: Context, spine: Context, t: Tree, x: Id, p: Id)
    returns (x0: Id, p0: Id)
    requires At(m, root, Append(spine, base), t, x, p)
    ensures At(m, root, base, Plug(spine, t), x0, p0)
    decreases spine
  {
    if spine.Top? {
      x0, p0 := x, p;
    } else {
      ZipUp(m, root, Append(spine, base), t, x, p);
      x0, p0 := ZipUpPath(m, root, base, spine.up, Join(spine.d, t, spine.ring, spine.bal, spine.sib), p, m[p].parent);
    }
  }

  /** The parent of a hole is the node of the innermost frame. */
  lemma HoleParent(m: Memory, root: Id, f: Context, t: Tree, x: Id, p: Id)
    requires f.Frame? && At(m, root, f, t, x, p)
    ensures p == Head(f.ring) && p in m && p != NULL && f.ring != []
  {
  }

  /** Inside the spine, the node of the base frame is never met. */
  lemma SpineNode(m: Memory, root: Id, spine: Context, base: Context, t: Tree, x: Id, p: Id)
    requires base.Frame? && At(m, root, Append(spine, base), t, x, p)
    ensures p in m && (p == Head(base.ring) <==> spine.Top?)
    ensures p == Head(Append(spine, base).ring)
  {
    if spine.Frame? {
      BaseInAppend(spine.up, base);
    }
  }

  lemma {:induction false} BaseInAppend(spine: Context, base: Context)
    requires base.Frame?
    ensures Head(base.ring) in ContextIds(Append(spine, base))
  {
    if spine.Frame? { BaseInAppend(spine.up, base); }
  }

  lemma {:induction false} AppendIds(spine: Context, base: Context)
    ensures ContextIds(Append(spine, base)) == ContextIds(spine) + ContextIds(base)
  {
    if spine.Frame? { AppendIds(spine.up, base); }
  }

  /** erase() of a head with twins: `n` takes over all links of `x`. */
  method WriteTakeOver(m: Memory, x: Id, n: Id) returns (m': Memory)
    requires x in m && n in m && x != n
    requires var l, r := m[x].left, m[x].right;
             (l != NULL ==> l in m && l !in {x, n}) && (r != NULL ==> r in m && r !in {x, n} && l != r)
    ensures m'.Keys == m.Keys && TakenOver(m, m', x, n)
  {
    m' := m[n := m[n].(parent := m[x].parent)];
    m' := m'[n := m'[n].(left := m'[x].left)];
    m' := m'[n := m'[n].(right := m'[x].right)];
    m' := m'[n := m'[n].(bal := m'[x].bal)];
    if m'[x].left != NULL {
      m' := m'[m'[x].left := m'[m'[x].left].(parent := n)];
    }
    if m'[x].right != NULL {
      m' := m'[m'[x].right := m'[m'[x].right].(parent := n)];
    }
  }

  /** erase() of a node with two children: the successor `n` takes the place of `x`. */
  method WriteReplaceBySuccessor(m: Memory, x: Id, n: Id, first: bool) returns (m': Memory)
    requires x in m && n in m && x != n
    requires var l, r := m[x].left, m[x].right;
             (l != NULL ==> l in m && l !in {x, n}) && (r != NULL ==> r in m && r !in {x, n} && l != r)
    requires first ==> m[n].right == m[x].right
    ensures m'.Keys == m.Keys && TakenOver(m, m', x, n)
  {
    m' := m;
    if m'[x].left != NULL {
      m' := m'[m'[x].left := m'[m'[x].left].(parent := n)];
    }
    if !first {
      m' := m'[n := m'[n].(right := m'[x].right)];
    }
    if m'[x].right != NULL {
      m' := m'[m'[x].right := m'[m'[x].right].(parent := n)];
    }
    m' := m'[n := m'[n].(parent := m'[x].parent)];
    m' := m'[n := m'[n].(bal := m'[x].bal)];
    m' := m'[n := m'[n].(left := m'[x].left)];
  }

  /** `n` has the links of `x`, and the children of `x` have `n` as their parent. */
  predicate TakenOver(m: Memory, m': Memory, x: Id, n: Id) {
    && x in m && n in m'
    && var l, r := m[x].left, m[x].right;
    && m'[n] == m[x]
    && (l != NULL ==> l in m && l in m' && m'[l] == m[l].(parent := n))
    && (r != NULL ==> r in m && r in m' && m'[r] == m[r].(parent := n))
    && SameOn(m, m', m.Keys - {n, l, r})
  }

  /** The cells that a takeover writes are where the source expects them, and are not one another. */
  lemma TakeOverCells(m: Memory, root: Id, c: Context, t: Tree, x: Id, n: Id)
    requires x in m && t.Node? && At(m, root, c, t, x, m[x].parent) && n !in Ids(t) && n !in ContextIds(c) && n != NULL
    ensures var p, l, r := m[x].parent, m[x].left, m[x].right;
            && x != n && x != NULL && (p != NULL ==> p in m && p !in {x, l, r, n})
            && (l != NULL ==> l in m && l !in {x, n}) && (r != NULL ==> r in m && r !in {x, n} && l != r)
            && {x, p, l, r} <= Ids(t) + ContextIds(c) + {NULL}
  {
    var p := m[x].parent;
    ParentKnown(m, root, c, t, x, p);
    ParentOutside(m, root, c, t, x, p);
    Kids(m, t, p, x, Left);
    Kids(m, t, p, x, Right);
    assert c.Frame? ==> p in ContextIds(c);
    hide Rep, Distinct, Ids, ContextRep, ContextDistinct, ContextIds;
  }

  lemma RootInside(m: Memory, root: Id, c: Context, t: Tree, x: Id, p: Id)
    requires At(m, root, c, t, x, p) && t.Node?
    ensures root == x <==> c.Top?
  {
    if c.Frame? {
      ParentOutside(m, root, c, t, x, p);
      RootOfContext(m, root, c, x, p);
    }
  }

  lemma {:induction false} RootOfContext(m: Memory, root: Id, c: Context, x: Id, p: Id)
    requires ContextRep(m, c, root, x, p) && c.Frame?
    ensures root in ContextIds(c)
  {
    if c.up.Frame? {
      RootOfContext(m, root, c.up, p, m[p].parent);
    }
  }

  lemma ZipIds(f: Context, t: Tree)
    requires f.Frame?
    ensures Ids(Join(f.d, t, f.ring, f.bal, f.sib)) + ContextIds(f.up) == Ids(t) + ContextIds(f)
    ensures Head(f.ring) in ContextIds(f)
    ensures Ids(Grown(f, t)) == Ids(Shrunk(f, t)) == Ids(Join(f.d, t, f.ring, f.bal, f.sib))
  {
  }

  lemma KeptOutside(m: Memory, m': Memory, cells: set<Id>, ids: set<Id>)
    requires SameOn(m, m', m.Keys - cells) && cells <= ids + {NULL}
    ensures Kept(m, m', ids)
  {
  }
}
