/**
 The trees that src/common/RTAVLTree.h builds, as values: shape, balance factors and
 rotations, without pointers. A node carries its twin ring, the head of the ring first.

 The in-order list of rings is what the tree means. Rotations keep that list, so search
 order is a property of the list alone.
 */
module AvlShape {
  import opened Arithmetic

  /** Node addresses. 0 is the NULL pointer. */
  type Id = int
  const NULL: Id := 0

  type Ring = seq<Id>

  datatype Dir = Left | Right {
    function Opposite(): Dir { if Left? then Right else Left }
    /** LESS or GREATER, as relationToParent() reports it. */
    function Sign(): int { if Left? then -1 else 1 }
    /** Multiplication by Sign(). */
    function Times(x: int): int { if Left? then -x else x }
  }

  datatype Tree = Leaf | Node(ring: Ring, bal: int, left: Tree, right: Tree)

  /** The way from a subtree up to the root: the subtree hangs on side `d` of the node with ring `ring`. */
  datatype Context = Top | Frame(d: Dir, ring: Ring, bal: int, sib: Tree, up: Context)

  function Max(a: int, b: int): int { if a < b then b else a }
  function Min(a: int, b: int): int { if a < b then a else b }

  /** A node with `near` on side `d` and `far` on the other side. */
  function Join(d: Dir, near: Tree, ring: Ring, bal: int, far: Tree): Tree {
    if d.Left? then Node(ring, bal, near, far) else Node(ring, bal, far, near)
  }

  function Kid(t: Tree, d: Dir): Tree
    requires t.Node?
  {
    if d.Left? then t.left else t.right
  }

  function Plug(c: Context, t: Tree): Tree
    decreases c
  {
    match c
    case Top => t
    case Frame(d, ring, bal, sib, up) => Plug(up, Join(d, t, ring, bal, sib))
  }

  // ----- Meaning -----

  function Elements(t: Tree): seq<Ring> {
    match t
    case Leaf => []
    case Node(ring, _, l, r) => Elements(l) + [ring] + Elements(r)
  }

  function Before(c: Context): seq<Ring> {
    match c
    case Top => []
    case Frame(d, ring, _, sib, up) => if d.Left? then Before(up) else Before(up) + Elements(sib) + [ring]
  }

  function Behind(c: Context): seq<Ring> {
    match c
    case Top => []
    case Frame(d, ring, _, sib, up) => if d.Left? then [ring] + Elements(sib) + Behind(up) else Behind(up)
  }

  lemma {:induction false} PlugElements(c: Context, t: Tree)
    ensures Elements(Plug(c, t)) == Before(c) + Elements(t) + Behind(c)
    decreases c
  {
    match c
    case Top =>
    case Frame(d, ring, bal, sib, up) =>
      PlugElements(up, Join(d, t, ring, bal, sib));
  }

  // ----- Height and balance -----

  function Height(t: Tree): nat {
    match t
    case Leaf => 0
    case Node(_, _, l, r) => Max(Height(l), Height(r)) + 1
  }

  /** Balance factors are exact (right height minus left height) and within -1..1. */
  predicate Avl(t: Tree) {
    match t
    case Leaf => true
    case Node(_, bal, l, r) => bal == Height(r) - Height(l) && -1 <= bal <= 1 && Avl(l) && Avl(r)
  }

  /** The factor of this frame is exact if the subtree in the hole has height `h`. */
  predicate FrameAvl(f: Context, h: int)
    requires f.Frame?
  {
    f.bal == f.d.Times(h - Height(f.sib)) && -1 <= f.bal <= 1 && Avl(f.sib)
  }

  /** The height of the subtree under this frame's node if the hole has height `h`. */
  function UpHeight(f: Context, h: int): int
    requires f.Frame?
  {
    Max(h, Height(f.sib)) + 1
  }

  /** The factors on the way up are exact if the subtree in the hole has height `h`. */
  predicate ContextAvl(c: Context, h: int) {
    c.Frame? ==> FrameAvl(c, h) && ContextAvl(c.up, UpHeight(c, h))
  }

  lemma JoinAvl(f: Context, t: Tree)
    requires f.Frame?
    ensures var j := Join(f.d, t, f.ring, f.bal, f.sib);
            Height(j) == UpHeight(f, Height(t)) && (Avl(j) <==> Avl(t) && FrameAvl(f, Height(t)))
  {
  }

  lemma {:induction false} PlugAvl(c: Context, t: Tree)
    ensures Avl(Plug(c, t)) <==> Avl(t) && ContextAvl(c, Height(t))
    decreases c
  {
    match c
    case Top =>
    case Frame(d, ring, bal, sib, up) =>
      JoinAvl(c, t);
      PlugAvl(up, Join(d, t, ring, bal, sib));
  }

  function Depth(c: Context): nat {
    if c.Top? then 0 else 1 + Depth(c.up)
  }

  /** The way from any node to the root, which descents and climbs follow, is shorter than the tree is high. */
  lemma {:induction false} DepthBound(c: Context, t: Tree)
    ensures Depth(c) + Height(t) <= Height(Plug(c, t))
    decreases c
  {
    if c.Frame? {
      DepthBound(c.up, Join(c.d, t, c.ring, c.bal, c.sib));
    }
  }

  // ----- Composed contexts -----

  function Append(spine: Context, base: Context): Context {
    match spine
    case Top => base
    case Frame(d, ring, bal, sib, up) => Frame(d, ring, bal, sib, Append(up, base))
  }

  lemma {:induction false} PlugAppend(spine: Context, base: Context, t: Tree)
    ensures Plug(Append(spine, base), t) == Plug(base, Plug(spine, t))
    decreases spine
  {
    if spine.Frame? {
      PlugAppend(spine.up, base, Join(spine.d, t, spine.ring, spine.bal, spine.sib));
    }
  }

  lemma {:induction false} AppendTop(c: Context)
    ensures Append(c, Top) == c
  {
    if c.Frame? { AppendTop(c.up); }
  }

  /** Balance does not depend on which ring sits in a node. */
  lemma {:induction false} AppendAvl(spine: Context, base: Context, ring: Ring, h: int)
    requires base.Frame? && ContextAvl(Append(spine, base), h)
    ensures ContextAvl(Append(spine, base.(ring := ring)), h)
  {
    if spine.Frame? {
      var c, c' := Append(spine, base), Append(spine, base.(ring := ring));
      AppendAvl(spine.up, base, ring, UpHeight(c, h));
      assert UpHeight(c', h) == UpHeight(c, h);
    }
  }

  /** Every frame is entered from the left, as on the way to the minimum. */
  predicate LeftSpine(c: Context) {
    c.Frame? ==> c.d.Left? && LeftSpine(c.up)
  }

  lemma {:induction false} LeftSpineElements(c: Context, t: Tree)
    requires LeftSpine(c)
    ensures Elements(Plug(c, t)) == Elements(t) + Behind(c)
  {
    PlugElements(c, t);
    LeftSpineBefore(c);
  }

  lemma {:induction false} LeftSpineBefore(c: Context)
    requires LeftSpine(c)
    ensures Before(c) == []
  {
    if c.Frame? { LeftSpineBefore(c.up); }
  }

  function NodeCount(t: Tree): nat {
    match t
    case Leaf => 0
    case Node(_, _, l, r) => NodeCount(l) + 1 + NodeCount(r)
  }

  function Fib(n: nat): nat {
    if n < 2 then n else Fib(n - 2) + Fib(n - 1)
  }

  lemma {:induction false} FibMonotone(m: nat, n: nat)
    requires m <= n
    ensures Fib(m) <= Fib(n)
    decreases n
  {
    if m < n {
      FibMonotone(m, n - 1);
    }
  }

  lemma FibOfHeights(a: nat, b: nat)
    requires a <= b <= a + 1
    ensures Fib(b + 3) <= Fib(a + 2) + Fib(b + 2)
  {
    FibMonotone(b + 1, a + 2);
    assert Fib(b + 3) == Fib(b + 1) + Fib(b + 2);
  }

  /** The Fibonacci numbers double with every second step. */
  lemma {:induction false} FibGrows(h: nat)
    ensures Pow2(h / 2) <= Fib(h + 2)
    decreases h
  {
    if h >= 2 {
      FibGrows(h - 2);
      FibMonotone(h, h + 1);
      assert h / 2 == (h - 2) / 2 + 1;
    }
  }

  /** A tree of height h has at least 2^(h/2)-1 nodes, whatever the number of twins; the height is logarithmic. */
  lemma HeightIsLogarithmic(t: Tree)
    requires Avl(t)
    ensures Pow2(Height(t) / 2) <= NodeCount(t) + 1
    ensures Fib(Height(t) + 2) <= NodeCount(t) + 1
  {
    hide Fib, Pow2, Avl;
    FibGrows(Height(t));
    NodesOfHeight(t);
  }

  lemma {:induction false} NodesOfHeight(t: Tree)
    requires Avl(t)
    ensures Fib(Height(t) + 2) <= NodeCount(t) + 1
  {
    match t
    case Leaf =>
    case Node(_, _, l, r) =>
      hide Fib;
      NodesOfHeight(l);
      NodesOfHeight(r);
      if Height(l) <= Height(r) {
        FibOfHeights(Height(l), Height(r));
      } else {
        FibOfHeights(Height(r), Height(l));
      }
  }

  lemma {:induction false} ElementsCount(t: Tree)
    ensures |Elements(t)| == NodeCount(t)
  {
    match t
    case Leaf =>
    case Node(_, _, l, r) =>
      ElementsCount(l);
      ElementsCount(r);
  }

  // ----- Rotations -----

  /** Exact factors, but the root may be out of balance by one more. */
  predicate NearlyAvl(t: Tree) {
    t.Node? && Avl(t.left) && Avl(t.right) && t.bal == Height(t.right) - Height(t.left) && -2 <= t.bal <= 2
  }

  /** rotateOnce(): the child on the side opposite to `d` becomes the root. */
  function RotatedOnce(t: Tree, d: Dir): Tree
    requires t.Node? && Kid(t, d.Opposite()).Node?
  {
    var z := Kid(t, d.Opposite());
    var b := z.bal + d.Sign();
    Join(d, Join(d, Kid(t, d), t.ring, -b, Kid(z, d)), z.ring, b, Kid(z, d.Opposite()))
  }

  /** rotateTwice(): the inner grandchild becomes the root. */
  function RotatedTwice(t: Tree, d: Dir): Tree
    requires t.Node? && Kid(t, d.Opposite()).Node? && Kid(Kid(t, d.Opposite()), d).Node?
  {
    var z := Kid(t, d.Opposite());
    var y := Kid(z, d);
    var bl, br := -Max(y.bal, 0), -Min(y.bal, 0);
    Join(d, Join(d, Kid(t, d), t.ring, if d.Left? then bl else br, Kid(y, d)),
         y.ring, 0,
         Join(d, Kid(y, d.Opposite()), z.ring, if d.Left? then br else bl, Kid(z, d.Opposite())))
  }

  lemma NodeOk(ring: Ring, bal: int, l: Tree, r: Tree)
    ensures Height(Node(ring, bal, l, r)) == Max(Height(l), Height(r)) + 1
    ensures Avl(Node(ring, bal, l, r)) <==> Avl(l) && Avl(r) && -1 <= bal <= 1 && bal == Height(r) - Height(l)
  {
  }

  /** Height and balance of a node, seen from side `d`. */
  lemma JoinOk(d: Dir, near: Tree, ring: Ring, bal: int, far: Tree)
    ensures var j := Join(d, near, ring, bal, far);
            && Height(j) == Max(Height(near), Height(far)) + 1
            && (Avl(j) <==> Avl(near) && Avl(far) && -1 <= bal <= 1 && bal == d.Times(Height(near) - Height(far)))
            && Kid(j, d) == near && Kid(j, d.Opposite()) == far
  {
    hide Avl, Height;
    if d.Left? {
      NodeOk(ring, bal, near, far);
    } else {
      NodeOk(ring, bal, far, near);
    }
  }

  lemma Regroup(a: seq<Ring>, x: Ring, b: seq<Ring>, z: Ring, c: seq<Ring>)
    ensures (a + [x] + b) + [z] + c == a + [x] + (b + [z] + c)
  {
  }

  lemma RotatedOnceElements(t: Tree, d: Dir)
    requires t.Node? && Kid(t, d.Opposite()).Node?
    ensures Elements(RotatedOnce(t, d)) == Elements(t)
  {
    var z := Kid(t, d.Opposite());
    if d.Left? {
      Regroup(Elements(t.left), t.ring, Elements(z.left), z.ring, Elements(z.right));
    } else {
      Regroup(Elements(z.left), z.ring, Elements(z.right), t.ring, Elements(t.right));
    }
  }

  lemma RotatedTwiceElements(t: Tree, d: Dir)
    requires t.Node? && Kid(t, d.Opposite()).Node? && Kid(Kid(t, d.Opposite()), d).Node?
    ensures Elements(RotatedTwice(t, d)) == Elements(t)
  {
    var z := Kid(t, d.Opposite());
    var y := Kid(z, d);
    assert Elements(y) == Elements(y.left) + [y.ring] + Elements(y.right);
    if d.Left? {
      Regroup(Elements(t.left), t.ring, Elements(y.left), y.ring, Elements(y.right) + [z.ring] + Elements(z.right));
      Regroup(Elements(y.left), y.ring, Elements(y.right), z.ring, Elements(z.right));
    } else {
      Regroup(Elements(z.left) + [z.ring] + Elements(y.left), y.ring, Elements(y.right), t.ring, Elements(t.right));
      Regroup(Elements(z.left), z.ring, Elements(y.left), y.ring, Elements(y.right));
    }
  }

  lemma RotatedOnceOk(t: Tree, d: Dir)
    requires NearlyAvl(t) && t.bal == d.Times(-2) && Kid(t, d.Opposite()).bal != d.Sign()
    ensures Avl(RotatedOnce(t, d)) && Elements(RotatedOnce(t, d)) == Elements(t)
    ensures Height(RotatedOnce(t, d)) == Height(t) - if Kid(t, d.Opposite()).bal == 0 then 0 else 1
  {
    RotatedOnceElements(t, d);
    var z := Kid(t, d.Opposite());
    JoinOk(d, Kid(z, d), z.ring, z.bal, Kid(z, d.Opposite()));
    var b := z.bal + d.Sign();
    JoinOk(d, Kid(t, d), t.ring, -b, Kid(z, d));
    JoinOk(d, Join(d, Kid(t, d), t.ring, -b, Kid(z, d)), z.ring, b, Kid(z, d.Opposite()));
  }

  lemma RotatedTwiceOk(t: Tree, d: Dir)
    requires NearlyAvl(t) && t.bal == d.Times(-2) && Kid(t, d.Opposite()).bal == d.Sign()
    ensures Kid(Kid(t, d.Opposite()), d).Node?
    ensures Avl(RotatedTwice(t, d)) && Elements(RotatedTwice(t, d)) == Elements(t)
    ensures Height(RotatedTwice(t, d)) == Height(t) - 1
  {
    var z := Kid(t, d.Opposite());
    var y := Kid(z, d);
    hide Height, Elements;
    assert z == Join(d, y, z.ring, z.bal, Kid(z, d.Opposite()));
    JoinOk(d, y, z.ring, z.bal, Kid(z, d.Opposite()));
    assert y == Join(d, Kid(y, d), y.ring, y.bal, Kid(y, d.Opposite()));
    JoinOk(d, Kid(y, d), y.ring, y.bal, Kid(y, d.Opposite()));
    RotatedTwiceElements(t, d);
    var bl, br := -Max(y.bal, 0), -Min(y.bal, 0);
    var bx, bz := if d.Left? then bl else br, if d.Left? then br else bl;
    var x', z' := Join(d, Kid(t, d), t.ring, bx, Kid(y, d)),
        Join(d, Kid(y, d.Opposite()), z.ring, bz, Kid(z, d.Opposite()));
    JoinOk(d, Kid(t, d), t.ring, bx, Kid(y, d));
    JoinOk(d, Kid(y, d.Opposite()), z.ring, bz, Kid(z, d.Opposite()));
    JoinOk(d, x', y.ring, 0, z');
  }

  /** What rebalance() does: it keeps the meaning, restores balance and reports the change of height exactly. */
  predicate Restores(t: Tree, t': Tree, change: int)
    requires NearlyAvl(t)
  {
    && t'.Node? && Avl(t') && Elements(t') == Elements(t)
    && Height(t') == Height(t) - change && 0 <= change <= 1
    && (-1 <= t.bal <= 1 ==> t' == t && change == 0)
    && (t.bal == 2 && t.right.bal != 0 ==> change == 1)
    && (t.bal == -2 && t.left.bal != 0 ==> change == 1)
  }

  // ----- One step of the climb -----

  /** insert(): the subtree on side f.d of this frame grew by one. */
  function Grown(f: Context, t: Tree): Tree
    requires f.Frame?
  {
    Join(f.d, t, f.ring, f.bal + f.d.Sign(), f.sib)
  }

  /** erase(): the subtree on side f.d of this frame shrank by one. */
  function Shrunk(f: Context, t: Tree): Tree
    requires f.Frame?
  {
    Join(f.d, t, f.ring, f.bal - f.d.Sign(), f.sib)
  }

  lemma GrownOk(f: Context, t: Tree)
    requires f.Frame? && Avl(t) && FrameAvl(f, Height(t) - 1)
    ensures var g := Grown(f, t);
            && NearlyAvl(g) && g.bal == f.d.Times(Height(t) - Height(f.sib)) && Height(g) == UpHeight(f, Height(t))
            && (g.bal == 2 ==> f.d.Right? && g.right == t && Height(t) >= 2)
            && (g.bal == -2 ==> f.d.Left? && g.left == t && Height(t) >= 2)
  {
  }

  lemma ShrunkOk(f: Context, t: Tree)
    requires f.Frame? && Avl(t) && FrameAvl(f, Height(t) + 1)
    ensures var g := Shrunk(f, t);
            NearlyAvl(g) && g.bal == f.d.Times(Height(t) - Height(f.sib)) && Height(g) == UpHeight(f, Height(t))
  {
  }

  lemma RestoresMeans(g: Tree, t': Tree, change: int)
    requires NearlyAvl(g) && Restores(g, t', change)
    ensures t'.Node? && Avl(t') && Elements(t') == Elements(g)
  {
  }

  lemma BalancedRestores(g: Tree)
    requires NearlyAvl(g) && g.bal == 0
    ensures Restores(g, g, 0)
  {
  }

  /** The climb changes only the factor of a frame's node, which does not matter for the meaning. */
  lemma JoinElements(f: Context, t: Tree)
    requires f.Frame?
    ensures Elements(Grown(f, t)) == Elements(Shrunk(f, t)) == Elements(Join(f.d, t, f.ring, f.bal, f.sib))
  {
  }

  /** The grown subtree leans to one side, or it is a new leaf. */
  predicate Leaning(t: Tree) {
    t.Node? && (t.bal != 0 || Height(t) == 1)
  }

  /** The new `increase` of insert() when the frame has factor `bal` and rebalance() returned `change`. */
  function NextIncrease(bal: int, change: int): int {
    if bal != 0 then 1 - change else 0
  }

  /** The new `decrease` of erase() when the frame has factor `bal` and rebalance() returned `change`. */
  function NextDecrease(bal: int, change: int): int {
    if bal != 0 then change else 1
  }

  /**
   One step of the climb in insert(): the rebalanced subtree is as high as the context above expects,
   up to `increase`, and a rotation ends the climb.
   */
  lemma GrowStep(f: Context, t: Tree, t': Tree, change: int)
    requires f.Frame? && Avl(t) && FrameAvl(f, Height(t) - 1) && Leaning(t)
    requires NearlyAvl(Grown(f, t)) && Restores(Grown(f, t), t', change)
    ensures var g := Grown(f, t);
            var increase := NextIncrease(g.bal, change);
            && Height(t') - increase == UpHeight(f, Height(t) - 1) && 0 <= increase <= 1
            && (increase == 1 ==> t' == g && Leaning(g))
  {
    GrownOk(f, t);
  }

  /** One step of the climb in erase(). */
  lemma ShrinkStep(f: Context, t: Tree, t': Tree, change: int)
    requires f.Frame? && Avl(t) && FrameAvl(f, Height(t) + 1)
    requires NearlyAvl(Shrunk(f, t)) && Restores(Shrunk(f, t), t', change)
    ensures var decrease := NextDecrease(Shrunk(f, t).bal, change);
            Height(t') + decrease == UpHeight(f, Height(t) + 1) && 0 <= decrease <= 1
  {
    hide Height, Avl, Elements;
    ShrunkOk(f, t);
    ShrinkHeights(f.d, Height(t), Height(f.sib), Shrunk(f, t).bal, change);
  }

  lemma ShrinkHeights(d: Dir, ht: int, hs: int, bal: int, change: int)
    requires -1 <= ht + 1 - hs <= 1 && bal == d.Times(ht - hs) && (-1 <= bal <= 1 ==> change == 0)
    ensures Max(ht, hs) - change + NextDecrease(bal, change) == Max(ht + 1, hs)
  {
  }
}
