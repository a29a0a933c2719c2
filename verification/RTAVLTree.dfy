/**
 Model of class RTAVLTree (src/common/RTAVLTree.h) with T_SAFE = true: an AVL multimap over
 intrusive nodes. Node memory is a pair of maps from addresses to records, and every method
 changes these records in the order in which the source assigns them. The ghost field `shape`
 is the tree that memory represents; ghost parameters say where in it a method works.
 */
module RTAVLTree {
  import opened Arithmetic
  import opened AvlShape
  import opened AvlMemory
  import opened AvlContents

  /** The assignments of rotateOnce() behind the downlink; `z` is the child that becomes the root. */
  method WriteRotateOnce(m: Memory, x: Id, z: Id, d: Dir) returns (m': Memory)
    requires x in m && z in m && x != z
    requires var b := Child(m[z], d); b != NULL ==> b in m && b != x && b != z
    ensures m'.Keys == m.Keys
    ensures var b, bal := Child(m[z], d), m[z].bal + d.Sign();
            && m'[x] == WithChild(m[x], d.Opposite(), b).(parent := z, bal := -bal)
            && m'[z] == WithChild(m[z], d, x).(parent := m[x].parent, bal := bal)
            && (b != NULL ==> m'[b] == m[b].(parent := x))
            && SameOn(m, m', m.Keys - {x, z, b})
  {
    var other := d.Opposite();
    m' := m[z := m[z].(parent := m[x].parent)];
    m' := m'[x := WithChild(m'[x], other, Child(m'[z], d))];
    var b := Child(m'[x], other);
    if b != NULL {
      m' := m'[b := m'[b].(parent := x)];
    }
    m' := m'[x := m'[x].(parent := z)];
    m' := m'[z := WithChild(m'[z], d, x)];
    m' := m'[z := m'[z].(bal := m'[z].bal + d.Sign())];
    m' := m'[x := m'[x].(bal := -m'[z].bal)];
  }

  /** The assignments of rotateTwice() behind the downlink; `y` is the grandchild that becomes the root. */
  method WriteRotateTwice(m: Memory, x: Id, z: Id, y: Id, d: Dir) returns (m': Memory)
    requires x in m && z in m && y in m && x != z && y != x && y != z
    requires var b, e := Child(m[y], d), Child(m[y], d.Opposite());
             && (b != NULL ==> b in m && b !in {x, y, z} && b != e)
             && (e != NULL ==> e in m && e !in {x, y, z})
    ensures m'.Keys == m.Keys
    ensures var b, e := Child(m[y], d), Child(m[y], d.Opposite());
            var bl, br := -Max(m[y].bal, 0), -Min(m[y].bal, 0);
            && m'[x] == WithChild(m[x], d.Opposite(), b).(parent := y, bal := if d.Left? then bl else br)
            && m'[z] == WithChild(m[z], d, e).(parent := y, bal := if d.Left? then br else bl)
            && m'[y] == WithChild(WithChild(m[y], d, x), d.Opposite(), z).(parent := m[x].parent, bal := 0)
            && (b != NULL ==> m'[b] == m[b].(parent := x))
            && (e != NULL ==> m'[e] == m[e].(parent := z))
            && SameOn(m, m', m.Keys - {x, z, y, b, e})
  {
    var other := d.Opposite();
    m' := m[y := m[y].(parent := m[x].parent)];

    m' := m'[x := WithChild(m'[x], other, Child(m'[y], d))];
    var b := Child(m'[x], other);
    if b != NULL {
      m' := m'[b := m'[b].(parent := x)];
    }
    m' := m'[y := WithChild(m'[y], d, x)];
    m' := m'[x := m'[x].(parent := y)];

    m' := m'[z := WithChild(m'[z], d, Child(m'[y], other))];
    var e := Child(m'[z], d);
    if e != NULL {
      m' := m'[e := m'[e].(parent := z)];
    }
    m' := m'[y := WithChild(m'[y], other, z)];
    m' := m'[z := m'[z].(parent := y)];

    var l, r, bal := m'[y].left, m'[y].right, m'[y].bal;
    m' := m'[l := m'[l].(bal := -Max(bal, 0))];
    m' := m'[r := m'[r].(bal := -Min(bal, 0))];
    m' := m'[y := m'[y].(bal := 0)];
  }

  class AvlTree {
    const key: Id -> int
    var links: Memory
    var twins: Twins
    var root: Id
    var nodesCount: int
    ghost var shape: Tree
    ghost var rotations: nat  // single and double rotations made so far
    ghost var rounds: nat     // rounds of all loops up or down the tree so far

    ghost predicate Valid()
      reads this
    {
      && links.Keys == twins.Keys && NULL !in links
      && At(links, root, Top, shape, root, NULL)
      && Avl(shape)
      && RingsOk(key, twins, Elements(shape))
      && nodesCount == Total(Elements(shape))
    }

    /** The height is at most logarithmic in the number of distinct keys. */
    lemma LogarithmicHeight()
      requires Valid()
      ensures Pow2(Height(shape) / 2) <= |Elements(shape)| + 1
      ensures Fib(Height(shape) + 2) <= |Elements(shape)| + 1
    {
      HeightIsLogarithmic(shape);
      ElementsCount(shape);
    }

    // ----- Links -----

    /** Assignment through downLinkTo(node). */
    method SetDownLink(node: Id, to: Id)
      requires node in links && (links[node].parent == NULL || links[node].parent in links)
      modifies `links, `root
      ensures links.Keys == old(links.Keys)
      ensures DownLinked(old(links), links, old(root), root, old(links[node].parent), node, to)
      ensures SameOn(old(links), links, links.Keys - {old(links[node].parent)})
      ensures old(links[node].parent) == NULL ==> links == old(links)
    {
      var p := links[node].parent;
      if p == NULL {
        root := to;
      } else if links[p].left == node {
        links := links[p := links[p].(left := to)];
      } else {
        links := links[p := links[p].(right := to)];
      }
    }

    method RotateOnce(node: Id, d: Dir, ghost c: Context, ghost t: Tree) returns (top: Id, heightChange: int)
      requires node in links && t.Node? && Kid(t, d.Opposite()).Node?
      requires At(links, root, c, t, node, links[node].parent)
      modifies `links, `root, `rotations
      ensures links.Keys == old(links.Keys) && top in links
      ensures At(links, root, c, RotatedOnce(t, d), top, links[top].parent)
      ensures heightChange == if Kid(t, d.Opposite()).bal == 0 then 0 else 1
      ensures Kept(old(links), links, Ids(t) + ContextIds(c))
      ensures Ids(RotatedOnce(t, d)) == Ids(t)
      ensures rotations == old(rotations) + 1
    {
      hide At, Kept, Ids, ContextIds;
      var other := d.Opposite();
      RotateOnceCells(links, root, c, t, node, d);
      heightChange := if links[Child(links[node], other)].bal == 0 then 0 else 1;

      top := Child(links[node], other);
      SetDownLink(node, top);
      links := WriteRotateOnce(links, node, top, d);
      rotations := rotations + 1;
      RotateOnceRep(old(links), links, old(root), root, c, t, node, top, d);
      KeptOutside(old(links), links, old({node, top, links[node].parent, Child(links[top], d)}),
          Ids(t) + ContextIds(c));
    }

    method RotateTwice(node: Id, d: Dir, ghost c: Context, ghost t: Tree) returns (top: Id, heightChange: int)
      requires node in links && t.Node? && Kid(t, d.Opposite()).Node? && Kid(Kid(t, d.Opposite()), d).Node?
      requires At(links, root, c, t, node, links[node].parent)
      modifies `links, `root, `rotations
      ensures links.Keys == old(links.Keys) && top in links
      ensures At(links, root, c, RotatedTwice(t, d), top, links[top].parent)
      ensures heightChange == 1
      ensures Kept(old(links), links, Ids(t) + ContextIds(c))
      ensures Ids(RotatedTwice(t, d)) == Ids(t)
      ensures rotations == old(rotations) + 1
    {
      hide At, Kept, Ids, ContextIds;
      RotateTwiceCells(links, root, c, t, node, d);
      var x := node;
      var z := Child(links[x], d.Opposite());
      var y := Child(links[z], d);

      top := y;
      SetDownLink(x, y);
      links := WriteRotateTwice(links, x, z, y, d);
      rotations := rotations + 1;
      heightChange := 1;
      RotateTwiceRep(old(links), links, old(root), root, c, t, x, z, y, d);
      KeptOutside(old(links), links,
          old({x, z, y, links[x].parent, Child(links[y], d), Child(links[y], d.Opposite())}), Ids(t) + ContextIds(c));
    }

    /** Restores balance at one node and reports by how much the subtree became lower. */
    method Rebalance(node: Id, ghost c: Context, ghost t: Tree) returns (top: Id, heightChange: int, ghost t': Tree)
      requires node in links && NearlyAvl(t) && At(links, root, c, t, node, links[node].parent)
      modifies `links, `root, `rotations
      ensures links.Keys == old(links.Keys) && top in links
      ensures At(links, root, c, t', top, links[top].parent)
      ensures Restores(t, t', heightChange)
      ensures Kept(old(links), links, Ids(t) + ContextIds(c))
      ensures Ids(t') == Ids(t)
      ensures rotations == old(rotations) + if -1 <= t.bal <= 1 then 0 else 1
    {
      top, heightChange, t' := node, 0, t;
      Kids(links, t, links[node].parent, node, Left);
      Kids(links, t, links[node].parent, node, Right);
      if links[node].bal < -1 {
        KidBalance(links, t, links[node].parent, node, Left);
        if links[links[node].left].bal == 1 {
          RotatedTwiceOk(t, Right);
          top, heightChange := RotateTwice(node, Right, c, t);
          t' := RotatedTwice(t, Right);
        } else {
          RotatedOnceOk(t, Right);
          top, heightChange := RotateOnce(node, Right, c, t);
          t' := RotatedOnce(t, Right);
        }
      } else if links[node].bal > 1 {
        KidBalance(links, t, links[node].parent, node, Right);
        if links[links[node].right].bal == -1 {
          RotatedTwiceOk(t, Left);
          top, heightChange := RotateTwice(node, Left, c, t);
          t' := RotatedTwice(t, Left);
        } else {
          RotatedOnceOk(t, Left);
          top, heightChange := RotateOnce(node, Left, c, t);
          t' := RotatedOnce(t, Left);
        }
      }
    }

    /** uplinkDirFrom(): the side on which a node hangs. */
    function UplinkDir(node: Id): Dir
      requires node in links && links[node].parent in links
      reads this
    {
      if links[links[node].parent].left == node then Left else Right
    }

    // ----- Climbing -----

    /** One round of the climb in insert(): the parent of a subtree that grew by one. */
    method GrowParent(child: Id, ghost f: Context, ghost t: Tree) returns (node: Id, increase: int, ghost t': Tree)
      requires child in links && child != NULL && f.Frame? && At(links, root, f, t, child, links[child].parent)
      requires Avl(t) && Leaning(t) && FrameAvl(f, Height(t) - 1)
      modifies `links, `root, `rotations
      ensures links.Keys == old(links.Keys) && node in links
      ensures At(links, root, f.up, t', node, links[node].parent)
      ensures t'.Node? && Avl(t') && Elements(t') == Elements(Join(f.d, t, f.ring, f.bal, f.sib))
      ensures 0 <= increase <= 1 && Height(t') - increase == UpHeight(f, Height(t) - 1)
      ensures increase == 1 ==> Leaning(t') && t' == Grown(f, t)
      ensures Kept(old(links), links, Ids(t) + ContextIds(f)) && Ids(t') + ContextIds(f.up) == Ids(t) + ContextIds(f)
      ensures rotations <= old(rotations) + 1 && (increase == 1 ==> rotations == old(rotations))
    {
      hide Height, Avl, Elements, At, Restores, Leaning, FrameAvl, UpHeight, NearlyAvl, Ids, ContextIds;
      ZipIds(f, t);
      HoleParent(links, root, f, t, child, links[child].parent);
      SideOfHole(links, root, f, t, child, links[child].parent);
      ZipUp(links, root, f, t, child, links[child].parent);
      GrownOk(f, t);
      increase := UplinkDir(child).Sign();
      node := links[child].parent;
      SetBalance(links, root, f.up, Join(f.d, t, f.ring, f.bal, f.sib), node, links[node].parent,
          links[node].bal + increase);
      NodeBalance(links, root, f.up, Join(f.d, t, f.ring, f.bal, f.sib), node, links[node].parent);
      links := links[node := links[node].(bal := links[node].bal + increase)];
      t' := Grown(f, t);
      ghost var change := 0;
      if links[node].bal != 0 {
        var heightChange;
        node, heightChange, t' := Rebalance(node, f.up, t');
        increase, change := 1 - heightChange, heightChange;
      } else {
        increase := 0;
        BalancedRestores(t');
      }
      GrowStep(f, t, t', change);
      RestoresMeans(Grown(f, t), t', change);
      JoinElements(f, t);
    }

    /** The upward loop of insert(). It makes at most one single or double rotation. */
    method ClimbAfterInsert(start: Id, ghost c0: Context, ghost t0: Tree) returns (ghost s: Tree)
      requires start in links && t0.Node? && At(links, root, c0, t0, start, links[start].parent)
      requires Avl(t0) && Leaning(t0) && ContextAvl(c0, Height(t0) - 1)
      modifies `links, `root, `rotations, `rounds
      ensures links.Keys == old(links.Keys)
      ensures At(links, root, Top, s, root, NULL) && Avl(s) && Elements(s) == Elements(Plug(c0, t0))
      ensures rotations <= old(rotations) + 1 && rounds <= old(rounds) + Depth(c0)
      ensures Kept(old(links), links, Ids(t0) + ContextIds(c0))
    {
      hide Height, Avl, Elements, At, Ids, ContextIds;
      var node, increase := start, 1;
      ghost var c, t := c0, t0;
      RootNotNull(links, root, c, t, node);
      ParentKnown(links, root, c, t, node, links[node].parent);
      while links[node].parent != NULL && increase != 0
        invariant links.Keys == old(links.Keys) && node in links && node != NULL
        invariant t.Node? && At(links, root, c, t, node, links[node].parent) && (links[node].parent == NULL <==> c.Top?)
        invariant Avl(t) && 0 <= increase <= 1 && ContextAvl(c, Height(t) - increase)
        invariant increase == 1 ==> Leaning(t) && rotations == old(rotations)
        invariant Elements(Plug(c, t)) == Elements(Plug(c0, t0))
        invariant Kept(old(links), links, Ids(t0) + ContextIds(c0))
                  && Ids(t) + ContextIds(c) == Ids(t0) + ContextIds(c0)
        invariant rotations <= old(rotations) + 1 && rounds + Depth(c) == old(rounds) + Depth(c0)
        decreases c
      {
        ghost var f, u := c, t;
        node, increase, t := GrowParent(node, c, t);
        rounds := rounds + 1;
        c := f.up;
        PlugElements(c, t);
        PlugElements(c, Join(f.d, u, f.ring, f.bal, f.sib));
        RootNotNull(links, root, c, t, node);
        ParentKnown(links, root, c, t, node, links[node].parent);
      }
      s := Plug(c, t);
      PlugAvl(c, t);
      ZipToTop(links, root, c, t, node, links[node].parent);
    }

    /** One round of the climb in erase(): `node` is the parent of a subtree that shrank by one. */
    method ShrinkParent(start: Id, d: Dir, ghost f: Context, ghost t: Tree, ghost x: Id)
      returns (node: Id, decrease: int, ghost t': Tree)
      requires start in links && f.Frame? && f.d == d && At(links, root, f, t, x, start)
      requires Avl(t) && FrameAvl(f, Height(t) + 1)
      modifies `links, `root, `rotations
      ensures links.Keys == old(links.Keys) && node in links
      ensures At(links, root, f.up, t', node, links[node].parent)
      ensures t'.Node? && Avl(t') && Elements(t') == Elements(Join(f.d, t, f.ring, f.bal, f.sib))
      ensures 0 <= decrease <= 1 && Height(t') + decrease == UpHeight(f, Height(t) + 1)
      ensures Kept(old(links), links, Ids(t) + ContextIds(f)) && Ids(t') + ContextIds(f.up) == Ids(t) + ContextIds(f)
    {
      hide Height, Avl, Elements, At, Restores, FrameAvl, UpHeight, NearlyAvl, Ids, ContextIds;
      ZipIds(f, t);
      HoleParent(links, root, f, t, x, start);
      ZipUp(links, root, f, t, x, start);
      ShrunkOk(f, t);
      decrease := d.Sign();
      node := start;
      SetBalance(links, root, f.up, Join(f.d, t, f.ring, f.bal, f.sib), node, links[node].parent,
          links[node].bal - decrease);
      NodeBalance(links, root, f.up, Join(f.d, t, f.ring, f.bal, f.sib), node, links[node].parent);
      links := links[node := links[node].(bal := links[node].bal - decrease)];
      t' := Shrunk(f, t);
      ghost var change := 0;
      if links[node].bal != 0 {
        node, decrease, t' := Rebalance(node, f.up, t');
        change := decrease;
      } else {
        decrease := 1;
        BalancedRestores(t');
      }
      ShrinkStep(f, t, t', change);
      RestoresMeans(Shrunk(f, t), t', change);
      JoinElements(f, t);
    }

    /** The last loop of erase(). */
    method ClimbAfterErase(start: Id, shrunk: int, ghost c0: Context, ghost t0: Tree) returns (ghost s: Tree)
      requires start in links && t0.Node? && At(links, root, c0, t0, start, links[start].parent)
      requires Avl(t0) && 0 <= shrunk <= 1 && ContextAvl(c0, Height(t0) + shrunk)
      modifies `links, `root, `rotations, `rounds
      ensures links.Keys == old(links.Keys)
      ensures At(links, root, Top, s, root, NULL) && Avl(s) && Elements(s) == Elements(Plug(c0, t0))
      ensures Kept(old(links), links, Ids(t0) + ContextIds(c0))
      ensures rounds <= old(rounds) + Depth(c0)
    {
      hide Height, Avl, Elements, At, Ids, ContextIds;
      var node, decrease := start, shrunk;
      ghost var c, t := c0, t0;
      RootNotNull(links, root, c, t, node);
      ParentKnown(links, root, c, t, node, links[node].parent);
      while links[node].parent != NULL && decrease != 0
        invariant links.Keys == old(links.Keys) && node in links && node != NULL
        invariant t.Node? && At(links, root, c, t, node, links[node].parent) && (links[node].parent == NULL <==> c.Top?)
        invariant Avl(t) && 0 <= decrease <= 1 && ContextAvl(c, Height(t) + decrease)
        invariant Elements(Plug(c, t)) == Elements(Plug(c0, t0))
        invariant Kept(old(links), links, Ids(t0) + ContextIds(c0))
                  && Ids(t) + ContextIds(c) == Ids(t0) + ContextIds(c0)
        invariant rounds + Depth(c) == old(rounds) + Depth(c0)
        decreases c
      {
        ghost var f, u := c, t;
        SideOfHole(links, root, c, t, node, links[node].parent);
        var d := UplinkDir(node);
        node, decrease, t := ShrinkParent(links[node].parent, d, c, t, node);
        rounds := rounds + 1;
        c := f.up;
        PlugElements(c, t);
        PlugElements(c, Join(f.d, u, f.ring, f.bal, f.sib));
        RootNotNull(links, root, c, t, node);
        ParentKnown(links, root, c, t, node, links[node].parent);
      }
      s := Plug(c, t);
      PlugAvl(c, t);
      ZipToTop(links, root, c, t, node, links[node].parent);
    }

    // ----- insert() -----

    /** The walk from the root down to a node with the item's key, or to the node under which the item belongs. */
    method Descend(item: Id) returns (node: Id, d: Dir, ghost c: Context, ghost t: Tree)
      requires Valid() && root != NULL
      modifies `rounds
      ensures Valid() && rounds == old(rounds) + Depth(c) + 1
      ensures node in links && t.Node? && At(links, root, c, t, node, links[node].parent)
      ensures Plug(c, t) == shape && node == Head(t.ring) && Between(key, Before(c), Behind(c), item)
      ensures key(node) != key(item) ==>
                d == (if key(item) < key(node) then Left else Right) && Child(links[node], d) == NULL
    {
      node, d, c, t := root, Left, Top, shape;
      while true
        invariant node in links && t.Node? && At(links, root, c, t, node, links[node].parent)
        invariant Plug(c, t) == shape && node == Head(t.ring) && Between(key, Before(c), Behind(c), item)
        invariant rounds == old(rounds) + Depth(c)
        decreases t
      {
        rounds := rounds + 1;
        if key(item) == key(node) {
          return;
        }
        d := if key(item) < key(node) then Left else Right;
        if Child(links[node], d) == NULL {
          return;
        }
        DescendStep(c, t, item, d);
        ZipDown(links, root, c, t, node, links[node].parent, d);
        NodeBelow(links, t, links[node].parent, node, d);
        c, t := Frame(d, t.ring, t.bal, Kid(t, d.Opposite()), c), Kid(t, d);
        node := Child(links[node], d);
      }
    }

    lemma DescendStep(c: Context, t: Tree, item: Id, d: Dir)
      requires Sorted(key, Elements(Plug(c, t))) && t.Node? && Between(key, Before(c), Behind(c), item)
      requires key(item) != KeyOf(key, t.ring) && d == if key(item) < KeyOf(key, t.ring) then Left else Right
      ensures var f := Frame(d, t.ring, t.bal, Kid(t, d.Opposite()), c);
              Between(key, Before(f), Behind(f), item) && Plug(f, Kid(t, d)) == Plug(c, t)
    {
      PlugElements(c, t);
      var l, r := Elements(t.left), Elements(t.right);
      if d.Left? {
        DescendLeft(key, Before(c), l, t.ring, r, Behind(c), item);
      } else {
        DescendRight(key, Before(c), l, t.ring, r, Behind(c), item);
      }
    }

    /** insert() for a key that is in the tree already. */
    method InsertTwin(node: Id, item: Id, ghost c: Context, ghost t: Tree)
      requires Valid() && item in links && !twins[item].mine
      requires node in links && t.Node? && At(links, root, c, t, node, links[node].parent)
      requires Plug(c, t) == shape && node == Head(t.ring) && key(node) == key(item)
               && Between(key, Before(c), Behind(c), item)
      modifies this
      ensures Valid() && links == old(links)[item := RESET] && root == old(root)
      ensures forall x | x in old(twins) && x !in t.ring && x != item :: x in twins && twins[x] == old(twins[x])
      ensures Elements(shape) == Inserted(key, old(Elements(shape)), item)
      ensures rounds == old(rounds) && rotations == old(rotations)
    {
      hide At, Avl, RingOk, RingsOk, Elements, Total, Inserted, Between;
      ghost var a, b, ring := Before(c) + Elements(t.left), Elements(t.right) + Behind(c), t.ring;
      InTheMiddle(c, t);
      HeadTwin(key, twins, a, ring, b);
      BetweenRings(key, twins, a, ring, b, item);
      ItemNotInRing(key, twins, a, ring, b, item);
      LinkedAreItems(key, twins, shape, item);
      links := links[item := RESET];
      StrangerChanged(old(links), root, shape, item, RESET);
      twins := WriteAddTwin(key, twins, node, item, ring);
      nodesCount := nodesCount + 1;
      TwinContents(key, old(twins), twins, a, ring, b, item);
      shape := Plug(c, t.(ring := ring + [item]));
      ReplaceRing(links, root, c, t, ring + [item]);
      InTheMiddle(c, t.(ring := ring + [item]));
    }

    /** insert() into the empty tree. */
    method InsertFirst(item: Id)
      requires Valid() && item in links && root == NULL
      modifies this
      ensures Valid() && links.Keys == old(links.Keys)
      ensures Elements(shape) == Inserted(key, old(Elements(shape)), item) && old(Elements(shape)) == []
      ensures twins == old(twins)[item := ResetTwin(item).(mine := true)]
      ensures links == old(links)[item := RESET]
      ensures rounds == old(rounds) && rotations == old(rotations)
    {
      EmptyRoot(links, root, shape);
      NewRingContents(key, twins, [], [], item);
      NewLeaf(item);
      OnlyNode(links, item);
      links := links[item := RESET];
      twins := twins[item := ResetTwin(item).(mine := true)];
      root := item;
      nodesCount := nodesCount + 1;
      shape := Node([item], 0, Leaf, Leaf);
    }

    /** insert() for a new key: the item becomes a leaf, and the tree is rebalanced from there upwards. */
    method InsertLeaf(node: Id, d: Dir, item: Id, ghost c: Context, ghost t: Tree)
      requires Valid() && item in links && !twins[item].mine
      requires node in links && t.Node? && At(links, root, c, t, node, links[node].parent)
      requires Plug(c, t) == shape && node == Head(t.ring) && Between(key, Before(c), Behind(c), item)
      requires key(node) != key(item) && d == (if key(item) < key(node) then Left else Right)
               && Child(links[node], d) == NULL
      modifies this
      ensures Valid() && links.Keys == old(links.Keys)
      ensures Elements(shape) == Inserted(key, old(Elements(shape)), item)
      ensures forall i | 0 <= i < |old(Elements(shape))| :: KeyOf(key, old(Elements(shape))[i]) != key(item)
      ensures rotations <= old(rotations) + 1 && rounds <= old(rounds) + Depth(c) + 1
      ensures twins == old(twins)[item := ResetTwin(item).(mine := true)]
      ensures Kept(old(links), links, old(Ids(shape)) + {item})
    {
      hide At, Avl, RingOk, RingsOk, Total, Inserted, Between, Sorted, Ids, ContextIds, Before, Behind, Elements,
          Height, ContextAvl;
      ghost var f := Frame(d, t.ring, t.bal, Kid(t, d.Opposite()), c);
      SortedRings(key, twins, Elements(shape));
      DescendStep(c, t, item, d);
      FreeSide(links, root, c, t, node, d);
      HoleParent(links, root, f, Leaf, NULL, node);
      HeadInContext(f);
      StrangerTwin(key, twins, shape, item);
      IdsPlug(f, Leaf);
      AttachLeaf(links, root, f, node, item);
      PlugAvl(f, Leaf);
      PlugElements(f, Leaf);
      ghost var leaf := Node([item], 0, Leaf, Leaf);
      PlugElements(f, leaf);
      NewLeaf(item);
      NewRingContents(key, twins, Before(f), Behind(f), item);
      NoTwinBetween(key, Before(f), Behind(f), item);
      ParentKnown(links, root, f, Leaf, NULL, node);

      links := links[item := RESET];
      twins := twins[item := ResetTwin(item).(mine := true)];
      links := links[node := WithChild(links[node], d, item)];
      links := links[item := links[item].(parent := node)];
      nodesCount := nodesCount + 1;
      assert links == old(links)[node := WithChild(old(links)[node], d, item)][item := RESET.(parent := node)];
      shape := ClimbAfterInsert(item, f, leaf);
    }

    /** Adds an item that is not in the tree; an item that is in the tree is left alone. */
    method Insert(item: Id)
      requires Valid() && item in links
      modifies this
      ensures Valid() && links.Keys == old(links.Keys)
      ensures rotations <= old(rotations) + 1
      ensures rounds <= old(rounds) + 2 * old(Height(shape))
              && Pow2(old(Height(shape)) / 2) <= |old(Elements(shape))| + 1
      ensures old(IsItem(Elements(shape), item)) ==>
                links == old(links) && twins == old(twins) && root == old(root) && shape == old(shape)
      ensures !old(IsItem(Elements(shape), item)) ==> Elements(shape) == Inserted(key, old(Elements(shape)), item)
      ensures !old(IsItem(Elements(shape), item))
              && (exists i :: 0 <= i < |old(Elements(shape))| && KeyOf(key, old(Elements(shape))[i]) == key(item)) ==>
                links == old(links)[item := RESET] && root == old(root)
      ensures forall x | x in old(links) && x != item && !old(IsItem(Elements(shape), x)) ::
                links[x] == old(links[x]) && twins[x] == old(twins[x])
    {
      hide At, Avl, RingOk, Sorted, Total, Inserted, Between, Elements, Ids, Pow2, Fib;
      LogarithmicHeight();
      if twins[item].mine {
        return;
      }
      if root == NULL {
        InsertFirst(item);
        return;
      }
      var node, d;
      ghost var c, t;
      node, d, c, t := Descend(item);
      DepthBound(c, t);
      StrangersOutside(key, twins, c, t);
      if key(node) == key(item) {
        InsertTwin(node, item, c, t);
      } else {
        InsertLeaf(node, d, item, c, t);
      }
    }

    // ----- erase() -----

    /** `node` is where the ring of an item hangs in the tree. */
    ghost predicate Holds(node: Id, c: Context, t: Tree)
      reads this
    {
      && node in links && t.Node? && Plug(c, t) == shape && node == Head(t.ring)
      && At(links, root, c, t, node, links[node].parent)
    }

    /** erase() of a twin that is not the head of its ring. */
    method EraseTwin(item: Id, ghost node: Id, ghost c: Context, ghost t: Tree, ghost k: nat)
      requires Valid() && Holds(node, c, t) && 0 < k < |t.ring| && t.ring[k] == item
      modifies this
      ensures Valid() && links == old(links)[item := RESET] && root == old(root)
      ensures Elements(shape) == Removed(old(Elements(shape)), item)
      ensures forall x | x in old(twins) && x !in t.ring :: x in twins && twins[x] == old(twins[x])
      ensures item in twins && twins[item] == ResetTwin(item)
      ensures rounds == old(rounds) && rotations == old(rotations)
    {
      hide At, Avl, RingOk, RingsOk, Elements, Total, Removed, Before, Behind;
      ghost var ring := t.ring;
      RingInTree(key, twins, c, t, k);
      twins := WriteDropTwin(key, twins, item, ring, k);
      links := links[item := RESET];
      StrangerChanged(old(links), root, shape, item, RESET);
      nodesCount := nodesCount - 1;
      DropInTree(key, old(twins), twins, c, t, k);
      ReplaceRing(links, root, c, t, DropAt(ring, k));
      shape := Plug(c, t.(ring := DropAt(ring, k)));
    }

    /** The twin `n` takes the place of the head `x` in the tree. */
    method TakeOver(x: Id, n: Id, ghost c: Context, ghost t: Tree, ghost ring: Ring)
      requires x in links && n in links && t.Node? && At(links, root, c, t, x, links[x].parent)
      requires n != NULL && n !in Ids(t) && n !in ContextIds(c) && ring != [] && ring[0] == n
      modifies `links, `root
      ensures links.Keys == old(links.Keys) && links[n].parent == old(links[x].parent)
      ensures At(links, root, c, t.(ring := ring), n, links[n].parent)
      ensures Kept(old(links), links, Ids(t) + ContextIds(c) + {n})
    {
      hide At, Ids, ContextIds;
      TakeOverCells(links, root, c, t, x, n);
      links := WriteTakeOver(links, x, n);
      SetDownLink(x, n);
      RenameRep(old(links), links, old(root), root, c, t, x, n, ring);
    }

    /** erase() of the head of a ring that has more twins. */
    method EraseHead(item: Id, ghost c: Context, ghost t: Tree)
      requires Valid() && Holds(item, c, t) && |t.ring| > 1
      modifies this
      ensures Valid() && links.Keys == old(links.Keys)
      ensures Elements(shape) == Removed(old(Elements(shape)), item)
      ensures item in links && links[item] == RESET && item in twins && twins[item] == ResetTwin(item)
      ensures forall x | x in old(twins) && x !in t.ring :: x in twins && twins[x] == old(twins[x])
      ensures Kept(old(links), links, old(Ids(shape)) + {item, t.ring[1]})
      ensures rounds == old(rounds) && rotations == old(rotations)
    {
      hide At, Avl, RingOk, RingsOk, Elements, Total, Removed, Before, Behind, Ids, ContextIds, DropAt;
      ghost var ring := t.ring;
      RingInTree(key, twins, c, t, 1);
      SecondTwin(key, twins, ring);
      var n := twins[item].next;
      IdsPlug(c, t);
      TakeOver(item, n, c, t, ring[1..]);
      twins := WriteDropHead(key, twins, item, ring);
      nodesCount := nodesCount - 1;
      DropFirst(ring);
      DropInTree(key, old(twins), twins, c, t, 0);
      NewRingAtTop(links, root, c, t, n, ring[1..]);
      shape := Plug(c, t.(ring := ring[1..]));
      StrangerTwin(key, twins, shape, item);
      StrangerChanged(links, root, shape, item, RESET);
      links := links[item := RESET];
    }

    /** erase() of a leaf that is not the root. */
    method EraseLeaf(item: Id, ghost c: Context, ghost t: Tree) returns (ghost s: Tree)
      requires item in links && t.Node? && At(links, root, c, t, item, links[item].parent) && Avl(Plug(c, t))
      requires t.left.Leaf? && t.right.Leaf? && c.Frame?
      modifies `links, `root, `rotations, `rounds
      ensures links.Keys == old(links.Keys)
      ensures At(links, root, Top, s, root, NULL) && Avl(s)
      ensures Elements(s) == Before(c) + (Elements(t.left) + Elements(t.right)) + Behind(c)
      ensures Kept(old(links), links, Ids(t) + ContextIds(c))
      ensures rounds <= old(rounds) + Depth(c)
    {
      hide At, Avl, Height, ContextAvl, FrameAvl, UpHeight, Ids, ContextIds;
      HoleParent(links, root, c, t, item, links[item].parent);
      ZipIds(c, Leaf);
      NewLeaf(item);
      RootNotNull(links, root, c, t, item);
      SideOfHole(links, root, c, t, item, links[item].parent);
      CutLeaf(links, root, c, t, item, links[item].parent);
      PlugAvl(c, t);
      LeafFacts(c, t);
      var dir := UplinkDir(item);
      var parent := links[item].parent;
      links := links[parent := WithChild(links[parent], dir, NULL)];
      var node, decrease;
      ghost var t1;
      node, decrease, t1 := ShrinkParent(parent, dir, c, Leaf, NULL);
      rounds := rounds + 1;
      s := ClimbAfterErase(node, decrease, c.up, t1);
      PlugElements(c.up, t1);
      PlugElements(c.up, Join(c.d, Leaf, c.ring, c.bal, c.sib));
      PlugElements(c, Leaf);
    }

    /** The only child of `item`, on side `d`, takes its place. */
    method HookOutBranch(item: Id, ghost c: Context, ghost t: Tree, ghost d: Dir) returns (child: Id)
      requires item in links && t.Node? && At(links, root, c, t, item, links[item].parent)
      requires Kid(t, d).Node? && Kid(t, d.Opposite()).Leaf?
      modifies `links, `root
      ensures links.Keys == old(links.Keys) && child in links
      ensures At(links, root, c, Kid(t, d), child, links[child].parent)
      ensures Kept(old(links), links, Ids(t) + ContextIds(c))
      ensures Ids(Kid(t, d)) <= Ids(t)
    {
      hide At, Ids, ContextIds;
      BranchCells(links, root, c, t, item, d);
      child := if links[item].right != NULL then links[item].right else links[item].left;
      var parent := links[item].parent;
      if item == root {
        root := child;
      } else if links[parent].left == item {
        links := links[parent := links[parent].(left := child)];
      } else {
        links := links[parent := links[parent].(right := child)];
      }
      links := links[child := links[child].(parent := links[item].parent)];
      SpliceOut(old(links), links, old(root), root, c, t, item, d);
    }

    /** erase() of a node with exactly one child. */
    method EraseBranch(item: Id, ghost c: Context, ghost t: Tree) returns (ghost s: Tree)
      requires item in links && t.Node? && At(links, root, c, t, item, links[item].parent) && Avl(Plug(c, t))
      requires t.left.Leaf? <==> t.right.Node?
      modifies `links, `root, `rotations, `rounds
      ensures links.Keys == old(links.Keys)
      ensures At(links, root, Top, s, root, NULL) && Avl(s)
      ensures Elements(s) == Before(c) + (Elements(t.left) + Elements(t.right)) + Behind(c)
      ensures Kept(old(links), links, Ids(t) + ContextIds(c))
      ensures rounds <= old(rounds) + Depth(c)
    {
      hide At, Avl, Height, ContextAvl, Elements, Before, Behind;
      ghost var d := if t.left.Leaf? then Right else Left;
      BranchFacts(c, t, d);
      var child := HookOutBranch(item, c, t, d);
      s := ClimbAfterErase(child, 1, c, Kid(t, d));
      PlugElements(c, Kid(t, d));
    }

    /** The walk from a node to the minimum of its right subtree. */
    method FindSuccessor(item: Id, ghost c: Context, ghost t: Tree)
      returns (node: Id, ghost spine: Context, ghost u: Tree)
      requires item in links && t.Node? && t.right.Node? && At(links, root, c, t, item, links[item].parent)
      modifies `rounds
      ensures rounds == old(rounds) + Depth(spine)
      ensures node in links && u.Node? && u.left.Leaf? && LeftSpine(spine) && Plug(spine, u) == t.right
      ensures At(links, root, Append(spine, Frame(Right, t.ring, t.bal, t.left, c)), u, node, links[node].parent)
    {
      ghost var base := Frame(Right, t.ring, t.bal, t.left, c);
      ZipDown(links, root, c, t, item, links[item].parent, Right);
      NodeBelow(links, t, links[item].parent, item, Right);
      node, spine, u := links[item].right, Top, t.right;
      LeftChild(links, root, base, u, node);
      while links[node].left != NULL
        invariant node in links && u.Node? && LeftSpine(spine) && Plug(spine, u) == t.right
        invariant At(links, root, Append(spine, base), u, node, links[node].parent)
        invariant links[node].left == NULL <==> u.left.Leaf?
        invariant rounds == old(rounds) + Depth(spine)
        decreases u
      {
        rounds := rounds + 1;
        hide At;
        LeftChild(links, root, Append(spine, base), u, node);
        spine, u := Frame(Left, u.ring, u.bal, u.right, spine), u.left;
        node := links[node].left;
        LeftChild(links, root, Append(spine, base), u, node);
      }
    }

    /** The successor is taken out of its place; its right child moves up. */
    method HangOut(dangling: Id, ghost c: Context, ghost u: Tree)
      requires dangling in links && u.Node? && u.left.Leaf? && At(links, root, c, u, dangling, links[dangling].parent)
      modifies `links, `root
      ensures links.Keys == old(links.Keys) && links[dangling] == old(links[dangling])
      ensures At(links, root, c, u.right, links[dangling].right, links[dangling].parent)
      ensures dangling !in Ids(u.right) && dangling !in ContextIds(c) && dangling != NULL
      ensures Kept(old(links), links, Ids(u) + ContextIds(c)) && Ids(u) == Ids(u.right) + {dangling}
    {
      hide At, Ids, ContextIds;
      HangOutCells(links, root, c, u, dangling);
      SetDownLink(dangling, links[dangling].right);
      if links[dangling].right != NULL {
        var r := links[dangling].right;
        links := links[r := links[r].(parent := links[dangling].parent)];
      }
      SpliceOut(old(links), links, old(root), root, c, u, dangling, Right);
    }

    /** The successor `n` takes the place of the item to be erased. */
    method ReplaceBySuccessor(item: Id, n: Id, first: bool, ghost c: Context, ghost t: Tree, ghost ring: Ring)
      requires item in links && n in links && t.Node? && At(links, root, c, t, item, links[item].parent)
      requires n != NULL && n !in Ids(t) && n !in ContextIds(c) && ring != [] && ring[0] == n
      requires first ==> links[n].right == links[item].right
      modifies `links, `root
      ensures links.Keys == old(links.Keys)
      ensures At(links, root, c, t.(ring := ring), n, links[n].parent)
      ensures Ids(t.(ring := ring)) == Ids(t) - {item} + {n}
      ensures Kept(old(links), links, Ids(t) + ContextIds(c) + {n})
    {
      hide At, Ids, ContextIds;
      TakeOverCells(links, root, c, t, item, n);
      links := WriteReplaceBySuccessor(links, item, n, first);
      SetDownLink(item, n);
      RenameRep(old(links), links, old(root), root, c, t, item, n, ring);
    }

    /** Splices the successor in for the item and tells where rebalancing has to start. */
    method SpliceSuccessor(item: Id, dangling: Id, ghost c: Context, ghost t: Tree, ghost spine: Context, ghost u: Tree)
      returns (node: Id, ghost x: Id)
      requires item in links && t.Node? && item == Head(t.ring) && At(links, root, c, t, item, links[item].parent)
      requires dangling in links && u.Node? && u.left.Leaf? && Plug(spine, u) == t.right
      requires At(links, root, Append(spine, Frame(Right, t.ring, t.bal, t.left, c)), u, dangling,
               links[dangling].parent)
      modifies `links, `root
      ensures links.Keys == old(links.Keys) && node in links && dangling == Head(u.ring)
      ensures At(links, root, Append(spine, Frame(Right, u.ring, t.bal, t.left, c)), u.right, x, node)
      ensures Kept(old(links), links, Ids(t) + ContextIds(c))
      ensures Ids(u.right) + ContextIds(Append(spine, Frame(Right, u.ring, t.bal, t.left, c))) <= Ids(t) + ContextIds(c)
    {
      hide At, Ids, ContextIds, Append, Plug;
      ghost var base := Frame(Right, t.ring, t.bal, t.left, c);
      FirstChild(links, root, c, t, item, spine, u, dangling);
      var first := links[item].right == dangling;
      HangOut(dangling, Append(spine, base), u);
      node := if !first then links[dangling].parent else dangling;

      ghost var x0, p0 := ZipUpPath(links, root, base, spine, u.right, links[dangling].right, links[dangling].parent);
      HoleParent(links, root, base, Plug(spine, u.right), x0, p0);
      ZipUp(links, root, base, Plug(spine, u.right), x0, p0);
      ghost var t1 := Node(t.ring, t.bal, t.left, Plug(spine, u.right));
      AppendedIds(spine, base, u, c, t);
      AppendedIds(spine, base, u.right, c, t1);
      AppendedIds(spine, base.(ring := u.ring), u.right, c, t1.(ring := u.ring));
      if first {
        HoleChild(links, root, base, u.right, links[dangling].right, links[dangling].parent);
      }
      ReplaceBySuccessor(item, dangling, first, c, t1, u.ring);
      ZipDown(links, root, c, t1.(ring := u.ring), dangling, links[dangling].parent, Right);
      ghost var p;
      x, p := ZipDownPath(links, root, base.(ring := u.ring), spine, u.right, links[dangling].right, dangling);
      SpineNode(links, root, spine, base.(ring := u.ring), u.right, x, p);
      SameNode(spine, base, u.ring);
    }

    /** The first rebalancing phase of a two-child erase: from the old place of the successor up to its new place. */
    method ShrinkSpine(start: Id, dangling: Id, ghost spine: Context, ghost base: Context, ghost u0: Tree, ghost x0: Id)
      returns (node: Id, decrease: int, ghost t': Tree)
      requires start in links && base.Frame? && base.d.Right? && dangling == Head(base.ring) && LeftSpine(spine)
      requires At(links, root, Append(spine, base), u0, x0, start)
      requires Avl(u0) && ContextAvl(Append(spine, base), Height(u0) + 1)
      modifies `links, `root, `rotations, `rounds
      ensures links.Keys == old(links.Keys) && node in links
      ensures t'.Node? && At(links, root, base.up, t', node, links[node].parent)
      ensures Avl(t') && 0 <= decrease <= 1 && ContextAvl(base.up, Height(t') + decrease)
      ensures Elements(Plug(base.up, t')) == Elements(Plug(Append(spine, base), u0))
      ensures Kept(old(links), links, Ids(u0) + ContextIds(Append(spine, base)))
      ensures Ids(t') + ContextIds(base.up) == Ids(u0) + ContextIds(Append(spine, base))
      ensures rounds == old(rounds) + Depth(spine) + 1
    {
      hide At, Avl, Height, Elements, FrameAvl, UpHeight, Ids, ContextIds;
      ghost var all := Ids(u0) + ContextIds(Append(spine, base));
      node, decrease := start, 1;
      ghost var sp, u, x := spine, u0, x0;
      while true
        invariant links.Keys == old(links.Keys) && node in links && LeftSpine(sp)
        invariant At(links, root, Append(sp, base), u, x, node)
        invariant Avl(u) && 0 <= decrease <= 1 && ContextAvl(Append(sp, base), Height(u) + decrease)
        invariant Elements(Plug(Append(sp, base), u)) == Elements(Plug(Append(spine, base), u0))
        invariant Kept(old(links), links, all) && Ids(u) + ContextIds(Append(sp, base)) == all
        invariant rounds + Depth(sp) == old(rounds) + Depth(spine)
        decreases sp
      {
        rounds := rounds + 1;
        ghost var f, v := Append(sp, base), u;
        SpineNode(links, root, sp, base, u, x, node);
        ZipIds(f, u);
        var isDangling := node == dangling;
        if decrease != 0 {
          node, decrease, u := ShrinkParent(node, if isDangling then Right else Left, f, u, x);
        } else {
          ZipUp(links, root, f, u, x, node);
          JoinAvl(f, u);
          u := Join(f.d, u, f.ring, f.bal, f.sib);
        }
        PlugElements(f.up, u);
        PlugElements(f.up, Join(f.d, v, f.ring, f.bal, f.sib));
        if isDangling {
          t' := u;
          return;
        }
        ParentKnown(links, root, f.up, u, node, links[node].parent);
        sp, x := sp.up, node;
        node := links[node].parent;
        HoleParent(links, root, Append(sp, base), u, x, node);
      }
    }

    /** erase() of a node with two children. */
    method EraseInner(item: Id, ghost c: Context, ghost t: Tree) returns (ghost s: Tree)
      requires item in links && t.Node? && item == Head(t.ring) && At(links, root, c, t, item, links[item].parent)
               && Avl(Plug(c, t))
      requires t.left.Node? && t.right.Node?
      modifies `links, `root, `rotations, `rounds
      ensures links.Keys == old(links.Keys)
      ensures At(links, root, Top, s, root, NULL) && Avl(s)
      ensures Elements(s) == Before(c) + (Elements(t.left) + Elements(t.right)) + Behind(c)
      ensures Kept(old(links), links, Ids(t) + ContextIds(c))
      ensures rounds <= old(rounds) + 2 * Height(Plug(c, t))
    {
      hide At, Avl, Height, Elements, ContextAvl, Append, Plug, Before, Behind, LeftSpine;
      var dangling;
      ghost var spine, u;
      dangling, spine, u := FindSuccessor(item, c, t);
      SpineDepth(c, t, spine, u);
      InnerFacts(c, t, spine, u);
      var node;
      ghost var x;
      node, x := SpliceSuccessor(item, dangling, c, t, spine, u);
      var decrease;
      ghost var t1;
      node, decrease, t1 := ShrinkSpine(node, dangling, spine, Frame(Right, u.ring, t.bal, t.left, c), u.right, x);
      s := ClimbAfterErase(node, decrease, c, t1);
    }

    /** erase() of an item without twins, up to resetting it: one of the three shapes of a node. */
    method Detach(item: Id, ghost c: Context, ghost t: Tree) returns (ghost s: Tree)
      requires item in links && t.Node? && item == Head(t.ring) && At(links, root, c, t, item, links[item].parent)
               && Avl(Plug(c, t))
      requires t.left.Leaf? && t.right.Leaf? ==> root != item
      modifies `links, `root, `rotations, `rounds
      ensures links.Keys == old(links.Keys)
      ensures At(links, root, Top, s, root, NULL) && Avl(s)
      ensures Elements(s) == Before(c) + (Elements(t.left) + Elements(t.right)) + Behind(c)
      ensures Kept(old(links), links, Ids(t) + ContextIds(c))
      ensures rounds <= old(rounds) + 2 * Height(Plug(c, t))
    {
      hide At, Avl, Elements, Before, Behind, Ids, ContextIds;
      BothSides(links, root, c, t, item);
      DepthBound(c, t);
      if links[item].left != NULL && links[item].right != NULL {
        s := EraseInner(item, c, t);
      } else if links[item].left == NULL && links[item].right == NULL {
        s := EraseLeaf(item, c, t);
      } else {
        s := EraseBranch(item, c, t);
      }
    }

    /** erase() of the last item of the tree. */
    method EraseLast(item: Id, ghost c: Context, ghost t: Tree)
      requires Valid() && Holds(item, c, t) && t.ring == [item] && t.left.Leaf? && t.right.Leaf? && root == item
      modifies this
      ensures Valid() && links == old(links)[item := RESET] && twins == old(twins)[item := ResetTwin(item)]
      ensures Elements(shape) == Removed(old(Elements(shape)), item)
      ensures rounds == old(rounds)
    {
      hide At, Avl, RingOk, RingsOk, Removed, Total, Elements;
      BothSides(links, root, c, t, item);
      LastOne(c, t, item);
      SingletonRemoved(key, twins, [], item, []);
      root := NULL;
      nodesCount := 0;
      twins, links := twins[item := ResetTwin(item)], links[item := RESET];
      EmptyTree(links);
      shape := Leaf;
    }

    /** erase() of an item without twins. */
    method EraseNode(item: Id, ghost c: Context, ghost t: Tree)
      requires Valid() && Holds(item, c, t) && t.ring == [item]
      modifies this
      ensures Valid() && links.Keys == old(links.Keys)
      ensures Elements(shape) == Removed(old(Elements(shape)), item)
      ensures item in links && links[item] == RESET && twins == old(twins)[item := ResetTwin(item)]
      ensures Kept(old(links), links, old(Ids(shape)) + {item})
      ensures rounds <= old(rounds) + 2 * old(Height(shape))
    {
      hide At, Avl, RingOk, RingsOk, Removed, Total, Before, Behind, Elements, Ids, ContextIds;
      BothSides(links, root, c, t, item);
      if root == item && links[item].left == NULL && links[item].right == NULL {
        EraseLast(item, c, t);
        return;
      }
      ghost var a, b := Before(c) + Elements(t.left), Elements(t.right) + Behind(c);
      InTheMiddle(c, t);
      IdsPlug(c, t);
      SingletonRemoved(key, twins, a, item, b);
      shape := Detach(item, c, t);
      Reassociate(Before(c), Elements(t.left), Elements(t.right), Behind(c));
      nodesCount := nodesCount - 1;
      twins := twins[item := ResetTwin(item)];
      StrangerTwin(key, twins, shape, item);
      StrangerChanged(links, root, shape, item, RESET);
      links := links[item := RESET];
    }

    /** Removes an item that is in the tree; an item that is not is left alone. */
    method Erase(item: Id)
      requires Valid() && item in links
      modifies this
      ensures Valid() && links.Keys == old(links.Keys)
      ensures !old(IsItem(Elements(shape), item)) ==>
                links == old(links) && twins == old(twins) && root == old(root) && shape == old(shape)
      ensures old(IsItem(Elements(shape), item)) ==>
                && Elements(shape) == Removed(old(Elements(shape)), item)
                && links[item] == RESET && item in twins && twins[item] == ResetTwin(item)
      ensures forall x | x in old(links) && x != item && !old(IsItem(Elements(shape), x)) ::
                links[x] == old(links[x]) && twins[x] == old(twins[x])
      ensures rounds <= old(rounds) + 2 * old(Height(shape))
              && Pow2(old(Height(shape)) / 2) <= |old(Elements(shape))| + 1
    {
      hide At, Avl, RingOk, Sorted, Removed, Total, Elements, Ids, Pow2, Fib;
      LogarithmicHeight();
      if !twins[item].mine {
        return;
      }
      ghost var c, t := Locate(shape, Top, item);
      ghost var x, k := WhereInRing(key, links, twins, root, c, t, item);
      StrangersOutside(key, twins, c, t);
      if !twins[item].head {
        EraseTwin(item, x, c, t, k);
      } else if twins[item].next != item {
        EraseHead(item, c, t);
      } else {
        EraseNode(item, c, t);
      }
    }

    // ----- clear(), size(), count() -----

    /** Erases the root until the tree is empty. Every node that was in the tree is reset. */
    method Clear()
      requires Valid()
      modifies this
      ensures Valid() && links.Keys == old(links.Keys)
      ensures root == NULL && shape == Leaf && nodesCount == 0
      ensures forall x | x in old(links)
              && old(IsItem(Elements(shape), x)) :: links[x] == RESET && twins[x] == ResetTwin(x)
    {
      hide At, Avl, RingOk, RingsOk, Removed, Total, Elements, Ids, IsItem;
      EmptyRoot(links, root, shape);
      ghost var all := Elements(shape);
      while root != NULL
        invariant Valid() && links.Keys == old(links.Keys)
        invariant root == NULL <==> shape == Leaf
        invariant root != NULL ==> root in links && root == Head(shape.ring)
        invariant forall x | x in old(links) && IsItem(all, x) ::
                    IsItem(Elements(shape), x) || (links[x] == RESET && twins[x] == ResetTwin(x))
        decreases Total(Elements(shape))
      {
        ghost var before, item := Elements(shape), root;
        RootIsItem(key, twins, shape);
        Erase(root);
        forall x
          ensures IsItem(before, x) && x != item ==> IsItem(Elements(shape), x)
          ensures Total(Elements(shape)) == Total(before) - 1
        {
          RemovedItems(before, item, x);
        }
        EmptyRoot(links, root, shape);
      }
      LeafHasNone();
      root := NULL;
      nodesCount := 0;
    }

    /** Counts the nodes of a twin ring, starting at its head. */
    method CountTwins(node: Id, ghost ring: Ring) returns (n: int)
      requires RingOk(key, twins, ring) && ring[0] == node
      ensures n == |ring|
    {
      assert TwinOk(key, twins, ring, 0);
      n := 1;
      var twin := twins[node].next;
      while twin != node
        invariant 1 <= n <= |ring| && twin == NextIn(ring, n - 1)
        decreases |ring| - n
      {
        assert TwinOk(key, twins, ring, n);
        n := n + 1;
        twin := twins[twin].next;
      }
    }

    /** count() of a subtree: all items, twins included. */
    method CountFrom(node: Id, ghost t: Tree, ghost p: Id) returns (n: int)
      requires Rep(links, t, p, node)
      requires forall i | 0 <= i < |Elements(t)| :: RingOk(key, twins, Elements(t)[i])
      ensures n == Total(Elements(t))
      decreases t
    {
      if node == NULL {
        return 0;
      }
      SubtreeRings(key, twins, t);
      n := CountTwins(node, t.ring);
      var l := CountFrom(links[node].left, t.left, node);
      var r := CountFrom(links[node].right, t.right, node);
      n := n + l + r;
      TotalAround(Elements(t.left), [t.ring], Elements(t.right));
    }

    /** count() traverses the tree and finds what size() reports. */
    method Count() returns (n: int)
      requires Valid()
      ensures n == nodesCount == Total(Elements(shape))
    {
      n := CountFrom(root, shape, NULL);
    }

    /** An empty tree, and nodes that are in no tree. */
    constructor (nodes: set<Id>, key: Id -> int)
      requires NULL !in nodes
      ensures Valid() && shape == Leaf && links.Keys == nodes && this.key == key
    {
      this.key := key;
      links := map x | x in nodes :: RESET;
      twins := map x | x in nodes :: ResetTwin(x);
      root, nodesCount, shape, rotations, rounds := NULL, 0, Leaf, 0, 0;
    }
  }

  lemma SubtreeRings(key: Id -> int, tw: Twins, t: Tree)
    requires t.Node? && forall i | 0 <= i < |Elements(t)| :: RingOk(key, tw, Elements(t)[i])
    ensures RingOk(key, tw, t.ring)
    ensures forall i | 0 <= i < |Elements(t.left)| :: RingOk(key, tw, Elements(t.left)[i])
    ensures forall i | 0 <= i < |Elements(t.right)| :: RingOk(key, tw, Elements(t.right)[i])
  {
    hide RingOk;
    var es, l, r := Elements(t), Elements(t.left), Elements(t.right);
    assert es[|l|] == t.ring;
    forall i | 0 <= i < |l| ensures RingOk(key, tw, l[i]) { assert es[i] == l[i]; }
    forall i | 0 <= i < |r| ensures RingOk(key, tw, r[i]) { assert es[|l| + 1 + i] == r[i]; }
  }

  lemma LeafHasNone()
    ensures Elements(Leaf) == [] && Total(Elements(Leaf)) == 0 && forall x :: !IsItem(Elements(Leaf), x)
  {
  }

  /** Nodes that are not items are neither linked into the tree nor part of a ring. */
  lemma StrangersOutside(key: Id -> int, tw: Twins, c: Context, t: Tree)
    requires t.Node? && RingsOk(key, tw, Elements(Plug(c, t)))
    ensures forall x | !IsItem(Elements(Plug(c, t)), x) :: x !in Ids(Plug(c, t)) && x !in t.ring
  {
    InTheMiddle(c, t);
    forall x | !IsItem(Elements(Plug(c, t)), x)
      ensures x !in Ids(Plug(c, t)) && x !in t.ring
    {
      LinkedAreItems(key, tw, Plug(c, t), x);
      ItemsOf(Before(c) + Elements(t.left), [t.ring], Elements(t.right) + Behind(c), x);
      SingleItem(t.ring, x);
    }
  }

  /** The node of the innermost frame of a non-empty spine does not depend on the base. */
  lemma SameNode(spine: Context, base: Context, ring: Ring)
    requires base.Frame?
    ensures spine.Frame? ==> Append(spine, base).ring == spine.ring == Append(spine, base.(ring := ring)).ring
    ensures spine.Top? ==> Append(spine, base.(ring := ring)).ring == ring && Plug(spine, Leaf) == Leaf
  {
  }

  lemma AppendedIds(spine: Context, base: Context, u: Tree, c: Context, t: Tree)
    requires base.Frame? && base.up == c && t == Join(base.d, Plug(spine, u), base.ring, base.bal, base.sib)
    ensures Ids(t) + ContextIds(c) == Ids(u) + ContextIds(Append(spine, base))
  {
    AppendIds(spine, base);
    IdsPlug(spine, u);
  }

  /** The successor is the right child of the item exactly if the walk to it made no step to the left. */
  lemma FirstChild(m: Memory, root: Id, c: Context, t: Tree, item: Id, spine: Context, u: Tree, dangling: Id)
    requires item in m && t.Node? && item == Head(t.ring) && At(m, root, c, t, item, m[item].parent)
    requires dangling in m && u.Node? && Plug(spine, u) == t.right
    requires At(m, root, Append(spine, Frame(Right, t.ring, t.bal, t.left, c)), u, dangling, m[dangling].parent)
    ensures m[item].right == dangling <==> spine.Top?
    ensures dangling == Head(u.ring) && u.ring != [] && t.ring != []
    ensures m[dangling].parent == Head(Append(spine, Frame(Right, t.ring, t.bal, t.left, c)).ring)
    ensures spine.Top? ==>
              && Plug(spine, u.right) == u.right
              && Append(spine, Frame(Right, t.ring, t.bal, t.left, c)) == Frame(Right, t.ring, t.bal, t.left, c)
  {
    var base := Frame(Right, t.ring, t.bal, t.left, c);
    SpineNode(m, root, spine, base, u, dangling, m[dangling].parent);
    PlugNode(spine, u);
    NodeBelow(m, t, m[item].parent, item, Right);
  }

  lemma {:induction false} PlugNode(spine: Context, u: Tree)
    requires u.Node?
    ensures Plug(spine, u).Node?
    decreases spine
  {
    if spine.Frame? { PlugNode(spine.up, Join(spine.d, u, spine.ring, spine.bal, spine.sib)); }
  }

  lemma LeftChild(m: Memory, root: Id, c: Context, u: Tree, x: Id)
    requires x in m && u.Node? && At(m, root, c, u, x, m[x].parent)
    ensures m[x].left == NULL <==> u.left.Leaf?
    ensures u.left.Node? ==>
              && m[x].left in m && m[m[x].left].parent == x
              && At(m, root, Frame(Left, u.ring, u.bal, u.right, c), u.left, m[x].left, x)
  {
    NodeBelow(m, u, m[x].parent, x, Left);
    ZipDown(m, root, c, u, x, m[x].parent, Left);
  }

  lemma HangOutCells(m: Memory, root: Id, c: Context, u: Tree, x: Id)
    requires x in m && u.Node? && At(m, root, c, u, x, m[x].parent)
    ensures var p, r := m[x].parent, m[x].right;
            && x != NULL && p != x && (p != NULL ==> p in m)
            && (r != NULL ==> r in m && r != x && r != p)
            && {x, r, p} <= Ids(u) + ContextIds(c) + {NULL}
  {
    Kids(m, u, m[x].parent, x, Right);
    ParentKnown(m, root, c, u, x, m[x].parent);
    ParentOutside(m, root, c, u, x, m[x].parent);
  }

  lemma HoleChild(m: Memory, root: Id, f: Context, t: Tree, x: Id, p: Id)
    requires f.Frame? && At(m, root, f, t, x, p)
    ensures p in m && Child(m[p], f.d) == x && p == Head(f.ring)
  {
  }

  /** A leaf has height one, and the factor of its parent counts it. */
  lemma LeafFacts(c: Context, t: Tree)
    requires t.Node? && t.left.Leaf? && t.right.Leaf? && c.Frame? && ContextAvl(c, Height(t))
    ensures Height(Leaf) == 0 && Avl(Leaf) && FrameAvl(c, 0 + 1) && ContextAvl(c.up, UpHeight(c, 0 + 1))
  {
  }

  lemma BranchFacts(c: Context, t: Tree, d: Dir)
    requires t.Node? && Avl(Plug(c, t)) && Kid(t, d).Node? && Kid(t, d.Opposite()).Leaf?
    ensures Avl(Kid(t, d)) && ContextAvl(c, Height(Kid(t, d)) + 1)
    ensures Elements(t.left) + Elements(t.right) == Elements(Kid(t, d))
  {
    PlugAvl(c, t);
  }

  lemma BranchCells(m: Memory, root: Id, c: Context, t: Tree, x: Id, d: Dir)
    requires x in m && t.Node? && At(m, root, c, t, x, m[x].parent)
    requires Kid(t, d).Node? && Kid(t, d.Opposite()).Leaf?
    ensures var p, y := m[x].parent, Child(m[x], d);
            && y in m && y != NULL && x != NULL && y != x && m[y].parent == x && y != p && p != x
            && Child(m[x], d.Opposite()) == NULL && (p == NULL <==> x == root) && (p != NULL ==> p in m)
            && {x, y, p} <= Ids(t) + ContextIds(c) + {NULL}
  {
    Kids(m, t, m[x].parent, x, d);
    ParentKnown(m, root, c, t, x, m[x].parent);
    ParentOutside(m, root, c, t, x, m[x].parent);
    NodeBelow(m, t, m[x].parent, x, d);
    NodeBelow(m, t, m[x].parent, x, d.Opposite());
    RootInside(m, root, c, t, x, m[x].parent);
  }

  lemma NoTwinBetween(key: Id -> int, a: seq<Ring>, b: seq<Ring>, item: Id)
    requires Between(key, a, b, item)
    ensures var es := a + [] + b; forall i | 0 <= i < |es| :: KeyOf(key, es[i]) != key(item)
  {
    var es := a + [] + b;
    forall i | 0 <= i < |es|
      ensures KeyOf(key, es[i]) != key(item)
    {
      if i < |a| { assert es[i] == a[i]; } else { assert es[i] == b[i - |a|]; }
    }
  }

  lemma HeadInContext(f: Context)
    requires f.Frame?
    ensures Head(f.ring) in ContextIds(f)
  {
  }

  lemma SortedRings(key: Id -> int, tw: Twins, es: seq<Ring>)
    requires RingsOk(key, tw, es)
    ensures Sorted(key, es)
  {
  }

  lemma StrangerTwin(key: Id -> int, tw: Twins, t: Tree, item: Id)
    requires RingsOk(key, tw, Elements(t)) && item in tw && !tw[item].mine
    ensures item !in Ids(t)
  {
    LinkedAreItems(key, tw, t, item);
  }

  lemma NewLeaf(item: Id)
    ensures var leaf := Node([item], 0, Leaf, Leaf);
            Avl(leaf) && Height(leaf) == 1 && Leaning(leaf) && Elements(leaf) == [[item]]
    ensures Height(Leaf) == 0 && Elements(Leaf) == [] && Ids(Leaf) == {} && Ids(Node([item], 0, Leaf, Leaf)) == {item}
  {
  }

  /** The ring of a subtree's root in the list of all rings. */
  lemma InTheMiddle(c: Context, t: Tree)
    requires t.Node?
    ensures Elements(Plug(c, t)) == (Before(c) + Elements(t.left)) + [t.ring] + (Elements(t.right) + Behind(c))
  {
    PlugElements(c, t);
  }

  lemma HeadTwin(key: Id -> int, tw: Twins, a: seq<Ring>, ring: Ring, b: seq<Ring>)
    requires RingsOk(key, tw, a + [ring] + b)
    ensures RingOk(key, tw, ring) && ring != []
  {
    assert (a + [ring] + b)[|a|] == ring;
  }

  lemma BetweenRings(key: Id -> int, tw: Twins, a: seq<Ring>, ring: Ring, b: seq<Ring>, item: Id)
    requires RingsOk(key, tw, a + [ring] + b) && key(item) == KeyOf(key, ring)
    ensures Between(key, a, b, item)
  {
    var es := a + [ring] + b;
    assert es[|a|] == ring;
    forall i | 0 <= i < |a| ensures KeyOf(key, a[i]) < key(item) { assert es[i] == a[i]; }
    forall i | 0 <= i < |b| ensures key(item) < KeyOf(key, b[i]) { assert es[|a| + 1 + i] == b[i]; }
  }

  lemma ItemNotInRing(key: Id -> int, tw: Twins, a: seq<Ring>, ring: Ring, b: seq<Ring>, item: Id)
    requires RingsOk(key, tw, a + [ring] + b) && item in tw && !tw[item].mine
    ensures item !in ring && !IsItem(a + [ring] + b, item)
  {
    ItemsOf(a, [ring], b, item);
    SingleItem(ring, item);
  }

  /** Changing a ring behind its head changes neither the links nor the balance. */
  lemma ReplaceRing(m: Memory, root: Id, c: Context, t: Tree, ring: Ring)
    requires t.Node? && At(m, root, Top, Plug(c, t), root, NULL) && Avl(Plug(c, t))
    requires ring != [] && t.ring != [] && ring[0] == t.ring[0]
    ensures At(m, root, Top, Plug(c, t.(ring := ring)), root, NULL) && Avl(Plug(c, t.(ring := ring)))
  {
    var x, p := ZipDownPath(m, root, Top, c, t, root, NULL);
    AppendTop(c);
    SameHead(m, root, c, t, x, p, ring);
    ZipToTop(m, root, c, t.(ring := ring), x, p);
    PlugAvl(c, t);
    PlugAvl(c, t.(ring := ring));
  }

  lemma SecondTwin(key: Id -> int, tw: Twins, ring: Ring)
    requires RingOk(key, tw, ring) && |ring| > 1
    ensures ring[0] in tw && tw[ring[0]].next == ring[1] && ring[1] != NULL && ring[1] in tw && ring[0] != ring[1]
  {
    assert TwinOk(key, tw, ring, 0) && TwinOk(key, tw, ring, 1);
  }

  lemma SameHeight(t: Tree, ring: Ring)
    requires t.Node?
    ensures Height(t.(ring := ring)) == Height(t) && (Avl(t.(ring := ring)) <==> Avl(t))
  {
  }

  /** A subtree's ring is linked, and its nodes behind the head are not part of the tree. */
  lemma RingInTree(key: Id -> int, tw: Twins, c: Context, t: Tree, k: nat)
    requires t.Node? && RingsOk(key, tw, Elements(Plug(c, t))) && 0 < k < |t.ring|
    ensures RingOk(key, tw, t.ring)
    ensures t.ring[k] !in Ids(Plug(c, t)) && t.ring[k] !in Ids(t) && t.ring[k] !in ContextIds(c)
  {
    hide RingOk, RingsOk, Elements;
    var a := Before(c) + Elements(t.left);
    InTheMiddle(c, t);
    HeadTwin(key, tw, a, t.ring, Elements(t.right) + Behind(c));
    OnlyHeadsAreLinked(key, tw, Plug(c, t), |a|, k);
    IdsPlug(c, t);
  }

  lemma DropInTree(key: Id -> int, tw: Twins, tw': Twins, c: Context, t: Tree, k: nat)
    requires t.Node? && RingsOk(key, tw, Elements(Plug(c, t))) && k < |t.ring| && |t.ring| > 1 && tw'.Keys == tw.Keys
    requires RingOk(key, tw', DropAt(t.ring, k)) && t.ring[k] in tw' && tw'[t.ring[k]] == ResetTwin(t.ring[k])
    requires forall x | x in tw && x !in t.ring :: tw'[x] == tw[x]
    ensures var es, es' := Elements(Plug(c, t)), Elements(Plug(c, t.(ring := DropAt(t.ring, k))));
            RingsOk(key, tw', es') && es' == Removed(es, t.ring[k]) && Total(es') == Total(es) - 1
  {
    hide RingOk, RingsOk, Elements, Removed, Total, DropAt;
    InTheMiddle(c, t);
    InTheMiddle(c, t.(ring := DropAt(t.ring, k)));
    DroppedContents(key, tw, tw', Before(c) + Elements(t.left), t.ring, k, Elements(t.right) + Behind(c));
  }

  lemma DropFirst(ring: Ring)
    requires ring != []
    ensures DropAt(ring, 0) == ring[1..]
  {
  }

  lemma NewRingAtTop(m: Memory, root: Id, c: Context, t: Tree, n: Id, ring: Ring)
    requires t.Node? && n in m && At(m, root, c, t.(ring := ring), n, m[n].parent) && Avl(Plug(c, t))
    ensures At(m, root, Top, Plug(c, t.(ring := ring)), root, NULL) && Avl(Plug(c, t.(ring := ring)))
  {
    ZipToTop(m, root, c, t.(ring := ring), n, m[n].parent);
    PlugAvl(c, t);
    PlugAvl(c, t.(ring := ring));
    SameHeight(t, ring);
  }

  lemma Reassociate(a: seq<Ring>, l: seq<Ring>, r: seq<Ring>, b: seq<Ring>)
    ensures a + (l + r) + b == (a + l) + [] + (r + b)
  {
  }

  lemma NodeElements(t: Tree)
    requires t.Node?
    ensures Elements(t) == Elements(t.left) + [t.ring] + Elements(t.right)
    ensures t.left.Leaf? ==>
              && Elements(t) == [t.ring] + Elements(t.right)
              && (Avl(t) ==> Avl(t.right) && Height(t) == Height(t.right) + 1)
  {
  }

  lemma PlugFrame(f: Context, v: Tree)
    requires f.Frame?
    ensures Plug(f, v) == Plug(f.up, Join(f.d, v, f.ring, f.bal, f.sib))
  {
  }

  lemma InnerElements(c: Context, t: Tree, spine: Context, u: Tree)
    requires t.Node? && u.Node? && u.left.Leaf? && LeftSpine(spine) && Plug(spine, u) == t.right
    ensures Elements(Plug(Append(spine, Frame(Right, u.ring, t.bal, t.left, c)), u.right))
            == Before(c) + (Elements(t.left) + Elements(t.right)) + Behind(c)
  {
    hide Elements, Plug, LeftSpine, Append, Before, Behind;
    var base, v := Frame(Right, u.ring, t.bal, t.left, c), Plug(spine, u.right);
    PlugAppend(spine, base, u.right);
    PlugFrame(base, v);
    var n := Node(u.ring, t.bal, t.left, v);
    PlugElements(c, n);
    NodeElements(n);
    NodeElements(u);
    LeftSpineElements(spine, u);
    LeftSpineElements(spine, u.right);
    assert Elements(n) == Elements(t.left) + Elements(t.right);
  }

  /** The parts of the tree that a two-child erase works on. */
  lemma SpineDepth(c: Context, t: Tree, spine: Context, u: Tree)
    requires t.Node? && u.Node? && Plug(spine, u) == t.right
    ensures Depth(c) + Depth(spine) + 2 <= Height(Plug(c, t))
  {
    DepthBound(c, t);
    DepthBound(spine, u);
  }

  lemma InnerFacts(c: Context, t: Tree, spine: Context, u: Tree)
    requires t.Node? && u.Node? && u.left.Leaf? && LeftSpine(spine) && Plug(spine, u) == t.right && Avl(Plug(c, t))
    ensures Avl(u.right) && ContextAvl(Append(spine, Frame(Right, u.ring, t.bal, t.left, c)), Height(u.right) + 1)
    ensures Elements(Plug(Append(spine, Frame(Right, u.ring, t.bal, t.left, c)), u.right))
            == Before(c) + (Elements(t.left) + Elements(t.right)) + Behind(c)
  {
    hide Plug, Append, ContextAvl, LeftSpine, Elements, Before, Behind, Avl, Height;
    var base := Frame(Right, t.ring, t.bal, t.left, c);
    PlugFrame(base, t.right);
    PlugAppend(spine, base, u);
    PlugAvl(Append(spine, base), u);
    NodeElements(u);
    AppendAvl(spine, base, u.ring, Height(u));
    InnerElements(c, t, spine, u);
  }

  lemma BothSides(m: Memory, root: Id, c: Context, t: Tree, x: Id)
    requires x in m && t.Node? && At(m, root, c, t, x, m[x].parent)
    ensures m[x].left == NULL <==> t.left.Leaf?
    ensures m[x].right == NULL <==> t.right.Leaf?
    ensures root == x <==> c.Top?
  {
    NodeBelow(m, t, m[x].parent, x, Left);
    NodeBelow(m, t, m[x].parent, x, Right);
    RootInside(m, root, c, t, x, m[x].parent);
  }

  lemma LastOne(c: Context, t: Tree, item: Id)
    requires c.Top? && t.Node? && t.left.Leaf? && t.right.Leaf? && t.ring == [item]
    ensures Elements(Plug(c, t)) == [] + [[item]] + []
    ensures Elements(Leaf) == [] + [] + [] && Total([] + [] + []) == 0
  {
  }

  lemma EmptyTree(m: Memory)
    ensures At(m, NULL, Top, Leaf, NULL, NULL) && Avl(Leaf)
  {
  }

  /** Where an item of the tree sits, and what its twin links say about that. */
  lemma WhereInRing(key: Id -> int, m: Memory, tw: Twins, root: Id, c: Context, t: Tree, item: Id)
    returns (x: Id, k: nat)
    requires t.Node? && item in t.ring && RingsOk(key, tw, Elements(Plug(c, t)))
             && At(m, root, Top, Plug(c, t), root, NULL)
    ensures x in m && x == Head(t.ring) && At(m, root, c, t, x, m[x].parent)
    ensures k < |t.ring| && t.ring[k] == item && item in tw
    ensures tw[item].head <==> k == 0
    ensures tw[item].next == item <==> |t.ring| == 1
  {
    InTheMiddle(c, t);
    HeadTwin(key, tw, Before(c) + Elements(t.left), t.ring, Elements(t.right) + Behind(c));
    k :| 0 <= k < |t.ring| && t.ring[k] == item;
    assert TwinOk(key, tw, t.ring, k);
    var p;
    x, p := ZipDownPath(m, root, Top, c, t, root, NULL);
    AppendTop(c);
    NodeBalance(m, root, c, t, x, p);
  }
}
