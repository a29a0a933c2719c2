/**
 The contents of an RTAVLTree (src/common/RTAVLTree.h) as a list of twin rings in key
 order, what insert() and erase() have to do to that list, and how a twin ring is
 linked in memory.
 */
module AvlContents {
  import opened AvlShape
  import opened AvlMemory

  /** The part of a node that links its twin ring. `mine` says that the node's tree pointer is this tree. */
  datatype Twin = Twin(prev: Id, next: Id, head: bool, mine: bool)

  type Twins = map<Id, Twin>

  // ----- Reference behaviour -----

  function KeyOf(key: Id -> int, ring: Ring): int {
    key(Head(ring))
  }

  /** Keys strictly increase along the list. */
  predicate Sorted(key: Id -> int, es: seq<Ring>) {
    forall i, j | 0 <= i < j < |es| :: KeyOf(key, es[i]) < KeyOf(key, es[j])
  }

  /** A new item goes behind its twins, or gets a ring of its own at its place in the order. */
  function Inserted(key: Id -> int, es: seq<Ring>, item: Id): seq<Ring> {
    if es == [] || key(item) < KeyOf(key, es[0]) then [[item]] + es
    else if key(item) == KeyOf(key, es[0]) then [es[0] + [item]] + es[1..]
    else [es[0]] + Inserted(key, es[1..], item)
  }

  function Without(ring: Ring, item: Id): Ring {
    if ring == [] then [] else if ring[0] == item then ring[1..] else [ring[0]] + Without(ring[1..], item)
  }

  /** The item leaves its ring, and the ring leaves the list if it becomes empty. */
  function Removed(es: seq<Ring>, item: Id): seq<Ring> {
    if es == [] then []
    else if item in es[0] then (if Without(es[0], item) == [] then [] else [Without(es[0], item)]) + es[1..]
    else [es[0]] + Removed(es[1..], item)
  }

  function Total(es: seq<Ring>): nat {
    if es == [] then 0 else |es[0]| + Total(es[1..])
  }

  predicate IsItem(es: seq<Ring>, x: Id) {
    exists i :: 0 <= i < |es| && x in es[i]
  }

  // ----- The reference functions at a known place -----

  lemma {:induction false} InsertedBetween(key: Id -> int, a: seq<Ring>, b: seq<Ring>, item: Id)
    requires forall i | 0 <= i < |a| :: KeyOf(key, a[i]) < key(item)
    requires b != [] ==> key(item) < KeyOf(key, b[0])
    ensures Inserted(key, a + b, item) == a + [[item]] + b
  {
    if a == [] {
      assert a + b == b;
    } else {
      assert (a + b)[1..] == a[1..] + b;
      InsertedBetween(key, a[1..], b, item);
      assert a == [a[0]] + a[1..];
    }
  }

  lemma {:induction false} InsertedAsTwin(key: Id -> int, a: seq<Ring>, ring: Ring, b: seq<Ring>, item: Id)
    requires forall i | 0 <= i < |a| :: KeyOf(key, a[i]) < key(item)
    requires key(item) == KeyOf(key, ring)
    ensures Inserted(key, a + [ring] + b, item) == a + [ring + [item]] + b
  {
    var es := a + [ring] + b;
    if a == [] {
      assert es == [ring] + b;
      assert es[1..] == b;
    } else {
      assert es[1..] == a[1..] + [ring] + b;
      InsertedAsTwin(key, a[1..], ring, b, item);
      assert a == [a[0]] + a[1..];
    }
  }

  lemma {:induction false} RemovedAt(a: seq<Ring>, ring: Ring, b: seq<Ring>, item: Id)
    requires item in ring && !IsItem(a, item)
    ensures Removed(a + [ring] + b, item) == a + (if Without(ring, item) == [] then [] else [Without(ring, item)]) + b
  {
    var es := a + [ring] + b;
    if a == [] {
      assert es == [ring] + b;
      assert es[1..] == b;
    } else {
      assert es[1..] == a[1..] + [ring] + b;
      assert item !in a[0];
      assert !IsItem(a[1..], item);
      RemovedAt(a[1..], ring, b, item);
      assert a == [a[0]] + a[1..];
    }
  }

  lemma {:induction false} WithoutAt(ring: Ring, k: nat)
    requires k < |ring| && (forall i | 0 <= i < k :: ring[i] != ring[k])
    ensures Without(ring, ring[k]) == DropAt(ring, k)
  {
    if k > 0 {
      WithoutAt(ring[1..], k - 1);
      assert ring[..k] == [ring[0]] + ring[1..][..k - 1];
    }
  }

  lemma {:induction false} TotalConcat(a: seq<Ring>, b: seq<Ring>)
    ensures Total(a + b) == Total(a) + Total(b)
  {
    if a == [] {
      assert a + b == b;
    } else {
      assert (a + b)[1..] == a[1..] + b;
      TotalConcat(a[1..], b);
    }
  }

  lemma TotalAround(a: seq<Ring>, mid: seq<Ring>, b: seq<Ring>)
    ensures Total(a + mid + b) == Total(a) + Total(mid) + Total(b)
  {
    TotalConcat(a + mid, b);
    TotalConcat(a, mid);
  }

  // ----- Twin rings in memory -----

  function NextIn(ring: Ring, k: nat): Id
    requires k < |ring|
  {
    if k + 1 < |ring| then ring[k + 1] else ring[0]
  }

  function PrevIn(ring: Ring, k: nat): Id
    requires k < |ring|
  {
    if k == 0 then ring[|ring| - 1] else ring[k - 1]
  }

  /** The node at index `k` points to its neighbours, and only the first node is a head. */
  predicate TwinOk(key: Id -> int, tw: Twins, ring: Ring, k: int)
    requires 0 <= k < |ring|
  {
    var x := ring[k];
    && x in tw && x != NULL && key(x) == KeyOf(key, ring)
    && tw[x] == Twin(PrevIn(ring, k), NextIn(ring, k), k == 0, true)
  }

  /** A ring closed in both directions, of distinct nodes with one key. */
  predicate RingOk(key: Id -> int, tw: Twins, ring: Ring) {
    && ring != []
    && (forall k | 0 <= k < |ring| :: TwinOk(key, tw, ring, k))
    && (forall j, k | 0 <= j < k < |ring| :: ring[j] != ring[k])
  }

  ghost predicate RingsOk(key: Id -> int, tw: Twins, es: seq<Ring>) {
    && Sorted(key, es)
    && (forall i | 0 <= i < |es| :: RingOk(key, tw, es[i]))
    && (forall x | x in tw :: tw[x].mine <==> IsItem(es, x))
  }

  /** An item is in one ring only. */
  lemma OneRing(key: Id -> int, tw: Twins, es: seq<Ring>, i: nat, j: nat, x: Id)
    requires RingsOk(key, tw, es) && i < |es| && j < |es| && x in es[i] && x in es[j]
    ensures i == j
  {
    assert RingOk(key, tw, es[i]) && RingOk(key, tw, es[j]);
    var a :| 0 <= a < |es[i]| && es[i][a] == x;
    var b :| 0 <= b < |es[j]| && es[j][b] == x;
    assert TwinOk(key, tw, es[i], a) && TwinOk(key, tw, es[j], b);
  }

  lemma RingFrame(key: Id -> int, tw: Twins, tw': Twins, ring: Ring)
    requires RingOk(key, tw, ring)
    requires forall x | x in ring && x in tw :: x in tw' && tw'[x] == tw[x]
    ensures RingOk(key, tw', ring)
  {
    forall k | 0 <= k < |ring|
      ensures TwinOk(key, tw', ring, k)
    {
      assert TwinOk(key, tw, ring, k) && ring[k] in ring;
    }
  }

  /** Replacing one ring: the other rings are untouched, the new ring is linked, the tree flags follow. */
  lemma RingReplaced(key: Id -> int, tw: Twins, tw': Twins, a: seq<Ring>, old': seq<Ring>, new': seq<Ring>,
      b: seq<Ring>)
    requires RingsOk(key, tw, a + old' + b) && Sorted(key, a + new' + b)
    requires forall i | 0 <= i < |new'| :: RingOk(key, tw', new'[i])
    requires tw'.Keys == tw.Keys
    requires forall x | x in tw && (IsItem(a, x) || IsItem(b, x)) :: tw'[x] == tw[x]
    requires forall x | x in tw && !IsItem(a, x) && !IsItem(b, x) :: tw'[x].mine <==> IsItem(new', x)
    ensures RingsOk(key, tw', a + new' + b)
  {
    hide RingOk, Sorted;
    var es, es' := a + old' + b, a + new' + b;
    forall i | 0 <= i < |a|
      ensures RingOk(key, tw', a[i])
    {
      assert es[i] == a[i];
      RingFrame(key, tw, tw', a[i]);
    }
    forall i | 0 <= i < |b|
      ensures RingOk(key, tw', b[i])
    {
      assert es[|a| + |old'| + i] == b[i];
      RingFrame(key, tw, tw', b[i]);
    }
    AllOf(a, new', b, r => RingOk(key, tw', r));
    forall x | x in tw'
      ensures tw'[x].mine <==> IsItem(es', x)
    {
      ItemsOf(a, new', b, x);
      ItemsOf(a, old', b, x);
    }
  }

  lemma AllOf(a: seq<Ring>, m: seq<Ring>, b: seq<Ring>, ok: Ring -> bool)
    requires forall i | 0 <= i < |a| :: ok(a[i])
    requires forall i | 0 <= i < |m| :: ok(m[i])
    requires forall i | 0 <= i < |b| :: ok(b[i])
    ensures var es := a + m + b; forall i | 0 <= i < |es| :: ok(es[i])
  {
  }

  lemma ItemsOf(a: seq<Ring>, m: seq<Ring>, b: seq<Ring>, x: Id)
    ensures IsItem(a + m + b, x) <==> IsItem(a, x) || IsItem(m, x) || IsItem(b, x)
  {
    var es := a + m + b;
    if IsItem(a, x) {
      var i :| 0 <= i < |a| && x in a[i];
      assert es[i] == a[i];
    }
    if IsItem(m, x) {
      var i :| 0 <= i < |m| && x in m[i];
      assert es[|a| + i] == m[i];
    }
    if IsItem(b, x) {
      var i :| 0 <= i < |b| && x in b[i];
      assert es[|a| + |m| + i] == b[i];
    }
    if IsItem(es, x) {
      var i :| 0 <= i < |es| && x in es[i];
      if i < |a| {
        assert x in a[i];
      } else if i < |a| + |m| {
        assert x in m[i - |a|];
      } else {
        assert x in b[i - |a| - |m|];
      }
    }
  }

  /** In a sorted list the items of the other rings are not in this one. */
  lemma RingApart(key: Id -> int, tw: Twins, a: seq<Ring>, ring: Ring, b: seq<Ring>, x: Id)
    requires RingsOk(key, tw, a + [ring] + b) && x in ring
    ensures !IsItem(a, x) && !IsItem(b, x)
  {
    hide RingsOk;
    var es := a + [ring] + b;
    assert es[|a|] == ring;
    if IsItem(a, x) {
      var i :| 0 <= i < |a| && x in a[i];
      assert es[i] == a[i];
      OneRing(key, tw, es, i, |a|, x);
    }
    if IsItem(b, x) {
      var i :| 0 <= i < |b| && x in b[i];
      assert es[|a| + 1 + i] == b[i];
      OneRing(key, tw, es, |a|, |a| + 1 + i, x);
    }
  }

  // ----- Heads and trees -----

  lemma {:induction false} IdsAreHeads(t: Tree, x: Id)
    requires x in Ids(t)
    ensures exists i :: 0 <= i < |Elements(t)| && Head(Elements(t)[i]) == x
  {
    var es, l := Elements(t), |Elements(t.left)|;
    if x in Ids(t.left) {
      IdsAreHeads(t.left, x);
      var i :| 0 <= i < l && Head(Elements(t.left)[i]) == x;
      assert es[i] == Elements(t.left)[i];
    } else if x == Head(t.ring) {
      assert es[l] == t.ring;
    } else {
      IdsAreHeads(t.right, x);
      var i :| 0 <= i < |Elements(t.right)| && Head(Elements(t.right)[i]) == x;
      assert es[l + 1 + i] == Elements(t.right)[i];
    }
  }

  /** The subtree whose ring holds an item, with the way to it. */
  lemma {:induction false} Locate(t: Tree, c: Context, x: Id) returns (c': Context, s: Tree)
    requires IsItem(Elements(t), x)
    ensures Plug(c', s) == Plug(c, t) && s.Node? && x in s.ring
    decreases t
  {
    ItemsOf(Elements(t.left), [t.ring], Elements(t.right), x);
    if IsItem(Elements(t.left), x) {
      c', s := Locate(t.left, Frame(Left, t.ring, t.bal, t.right, c), x);
    } else if IsItem(Elements(t.right), x) {
      c', s := Locate(t.right, Frame(Right, t.ring, t.bal, t.left, c), x);
    } else {
      c', s := c, t;
    }
  }

  lemma LinkedAreItems(key: Id -> int, tw: Twins, t: Tree, x: Id)
    requires RingsOk(key, tw, Elements(t))
    ensures x in Ids(t) ==> IsItem(Elements(t), x)
  {
    if x in Ids(t) {
      var es := Elements(t);
      IdsAreHeads(t, x);
      var i :| 0 <= i < |es| && Head(es[i]) == x;
      assert RingOk(key, tw, es[i]);
      assert es[i][0] in es[i];
    }
  }

  /** Only the heads of the rings are linked into the tree. */
  lemma OnlyHeadsAreLinked(key: Id -> int, tw: Twins, t: Tree, j: nat, k: nat)
    requires RingsOk(key, tw, Elements(t)) && j < |Elements(t)| && k < |Elements(t)[j]|
    ensures Elements(t)[j][k] in Ids(t) ==> k == 0
  {
    var es := Elements(t);
    var x := es[j][k];
    assert RingOk(key, tw, es[j]);
    if x in Ids(t) {
      IdsAreHeads(t, x);
      var i :| 0 <= i < |es| && Head(es[i]) == x;
      assert RingOk(key, tw, es[i]);
      OneRing(key, tw, es, i, j, x);
    }
  }

  // ----- Search order during a descent -----

  /** The rings before the subtree have smaller keys than the item, the rings behind it larger ones. */
  predicate Between(key: Id -> int, a: seq<Ring>, b: seq<Ring>, item: Id) {
    && (forall i | 0 <= i < |a| :: KeyOf(key, a[i]) < key(item))
    && (forall i | 0 <= i < |b| :: key(item) < KeyOf(key, b[i]))
  }

  lemma DescendLeft(key: Id -> int, a: seq<Ring>, l: seq<Ring>, ring: Ring, r: seq<Ring>, b: seq<Ring>, item: Id)
    requires Sorted(key, a + (l + [ring] + r) + b) && Between(key, a, b, item) && key(item) < KeyOf(key, ring)
    ensures Between(key, a, [ring] + r + b, item)
  {
    var es, b' := a + (l + [ring] + r) + b, [ring] + r + b;
    var n := |a| + |l|;
    assert es[n] == ring;
    forall i | 0 <= i < |b'|
      ensures key(item) < KeyOf(key, b'[i])
    {
      assert es[n + i] == b'[i];
    }
  }

  lemma DescendRight(key: Id -> int, a: seq<Ring>, l: seq<Ring>, ring: Ring, r: seq<Ring>, b: seq<Ring>, item: Id)
    requires Sorted(key, a + (l + [ring] + r) + b) && Between(key, a, b, item) && KeyOf(key, ring) < key(item)
    ensures Between(key, a + l + [ring], b, item)
  {
    var es, a' := a + (l + [ring] + r) + b, a + l + [ring];
    assert es[|a| + |l|] == ring;
    forall i | 0 <= i < |a'|
      ensures KeyOf(key, a'[i]) < key(item)
    {
      assert es[i] == a'[i];
    }
  }

  lemma SortedWithNew(key: Id -> int, a: seq<Ring>, b: seq<Ring>, ring: Ring)
    requires Sorted(key, a + b) && Between(key, a, b, Head(ring))
    ensures Sorted(key, a + [ring] + b)
  {
    var es, es' := a + b, a + [ring] + b;
    forall i, j | 0 <= i < j < |es'|
      ensures KeyOf(key, es'[i]) < KeyOf(key, es'[j])
    {
      if i < |a| { assert es'[i] == es[i] == a[i]; } else if i > |a| { assert es'[i] == es[i - 1]; }
      if j < |a| { assert es'[j] == es[j]; } else if j > |a| { assert es'[j] == es[j - 1] == b[j - |a| - 1]; }
    }
  }

  lemma SortedWithout(key: Id -> int, a: seq<Ring>, ring: Ring, b: seq<Ring>)
    requires Sorted(key, a + [ring] + b)
    ensures Sorted(key, a + b)
  {
    var es, es' := a + [ring] + b, a + b;
    forall i, j | 0 <= i < j < |es'|
      ensures KeyOf(key, es'[i]) < KeyOf(key, es'[j])
    {
      assert es'[i] == if i < |a| then es[i] else es[i + 1];
      assert es'[j] == if j < |a| then es[j] else es[j + 1];
    }
  }

  lemma SortedSameKey(key: Id -> int, a: seq<Ring>, ring: Ring, ring': Ring, b: seq<Ring>)
    requires Sorted(key, a + [ring] + b) && KeyOf(key, ring') == KeyOf(key, ring)
    ensures Sorted(key, a + [ring'] + b)
  {
    var es, es' := a + [ring] + b, a + [ring'] + b;
    forall i, j | 0 <= i < j < |es'|
      ensures KeyOf(key, es'[i]) < KeyOf(key, es'[j])
    {
      assert KeyOf(key, es'[i]) == KeyOf(key, es[i]) && KeyOf(key, es'[j]) == KeyOf(key, es[j]);
    }
  }

  // ----- Assignments to twin links -----

  /** RTAVLNode::reset() on the twin links of a node. */
  function ResetTwin(x: Id): Twin {
    Twin(x, x, true, false)
  }

  /** insert() of an item behind its twins; `node` is the head of the ring. */
  method WriteAddTwin(key: Id -> int, tw: Twins, node: Id, item: Id, ghost ring: Ring) returns (tw': Twins)
    requires RingOk(key, tw, ring) && ring[0] == node && item in tw && item != NULL && item !in ring
             && key(item) == key(node)
    ensures tw'.Keys == tw.Keys
    ensures RingOk(key, tw', ring + [item])
    ensures forall x | x in tw && x !in ring && x != item :: tw'[x] == tw[x]
  {
    ghost var n := |ring|;
    assert TwinOk(key, tw, ring, 0) && TwinOk(key, tw, ring, n - 1);
    var last := tw[node].prev;
    tw' := tw[item := ResetTwin(item).(mine := true)];
    tw' := tw'[last := tw'[last].(next := item)];
    tw' := tw'[item := tw'[item].(prev := tw'[node].prev)];
    tw' := tw'[item := tw'[item].(next := node)];
    tw' := tw'[item := tw'[item].(head := false)];
    tw' := tw'[node := tw'[node].(prev := item)];
    forall k | 0 <= k < n + 1
      ensures TwinOk(key, tw', ring + [item], k)
    {
      if k < n { assert TwinOk(key, tw, ring, k) && ring[k] in ring; }
    }
  }

  function DropAt(ring: Ring, k: nat): Ring
    requires k < |ring|
  {
    ring[..k] + ring[k + 1..]
  }

  /** The neighbours in the ring without index `k`, in terms of the old ring. */
  lemma NeighboursAfterDrop(ring: Ring, k: nat, j: nat)
    requires 0 < k < |ring| && j < |ring| && j != k
    requires forall a, b | 0 <= a < b < |ring| :: ring[a] != ring[b]
    ensures var r, q := DropAt(ring, k), if j < k then j else j - 1;
            && r[q] == ring[j]
            && PrevIn(r, q) == (if PrevIn(ring, j) == ring[k] then PrevIn(ring, k) else PrevIn(ring, j))
            && NextIn(r, q) == (if NextIn(ring, j) == ring[k] then NextIn(ring, k) else NextIn(ring, j))
  {
  }

  /** erase() of a twin that is not the head of its ring. */
  method WriteDropTwin(key: Id -> int, tw: Twins, item: Id, ghost ring: Ring, ghost k: nat) returns (tw': Twins)
    requires RingOk(key, tw, ring) && 0 < k < |ring| && ring[k] == item
    ensures tw'.Keys == tw.Keys && item in tw' && tw'[item] == ResetTwin(item)
    ensures RingOk(key, tw', DropAt(ring, k))
    ensures forall x | x in tw && x !in ring :: tw'[x] == tw[x]
  {
    assert TwinOk(key, tw, ring, k) && TwinOk(key, tw, ring, k - 1)
           && TwinOk(key, tw, ring, if k + 1 < |ring| then k + 1 else 0);
    var prev, next := tw[item].prev, tw[item].next;
    tw' := tw[prev := tw[prev].(next := next)];
    tw' := tw'[next := tw'[next].(prev := prev)];
    tw' := tw'[item := ResetTwin(item)];
    ghost var r := DropAt(ring, k);
    forall q | 0 <= q < |r|
      ensures TwinOk(key, tw', r, q)
    {
      ghost var j := if q < k then q else q + 1;
      assert TwinOk(key, tw, ring, j) && ring[j] in ring && r[0] == ring[0];
      NeighboursAfterDrop(ring, k, j);
    }
  }

  /** erase() of the head of a ring with at least two twins: the next one becomes the head. */
  method WriteDropHead(key: Id -> int, tw: Twins, item: Id, ghost ring: Ring) returns (tw': Twins)
    requires RingOk(key, tw, ring) && |ring| > 1 && ring[0] == item
    ensures tw'.Keys == tw.Keys && item in tw' && tw'[item] == ResetTwin(item)
    ensures RingOk(key, tw', ring[1..])
    ensures forall x | x in tw && x !in ring :: tw'[x] == tw[x]
  {
    ghost var n := |ring|;
    assert TwinOk(key, tw, ring, 0) && TwinOk(key, tw, ring, 1) && TwinOk(key, tw, ring, n - 1);
    var prev, next := tw[item].prev, tw[item].next;
    tw' := tw[next := tw[next].(head := true)];
    tw' := tw'[prev := tw'[prev].(next := next)];
    tw' := tw'[next := tw'[next].(prev := prev)];
    tw' := tw'[item := ResetTwin(item)];
    forall q | 0 <= q < n - 1
      ensures TwinOk(key, tw', ring[1..], q)
    {
      assert TwinOk(key, tw, ring, q + 1) && ring[q + 1] in ring;
    }
  }

  // ----- What the assignments mean for the contents -----

  /** A new key: the item becomes a ring of its own. */
  lemma NewRingContents(key: Id -> int, tw: Twins, a: seq<Ring>, b: seq<Ring>, item: Id)
    requires RingsOk(key, tw, a + [] + b) && Between(key, a, b, item)
    requires item in tw && !tw[item].mine && item != NULL
    ensures RingsOk(key, tw[item := ResetTwin(item).(mine := true)], a + [[item]] + b)
    ensures Inserted(key, a + [] + b, item) == a + [[item]] + b
    ensures Total(a + [[item]] + b) == Total(a + [] + b) + 1
  {
    var tw' := tw[item := ResetTwin(item).(mine := true)];
    assert a + [] + b == a + b;
    SortedWithNew(key, a, b, [item]);
    InsertedBetween(key, a, b, item);
    TotalAround(a, [], b);
    TotalAround(a, [[item]], b);
    ItemsOf(a, [], b, item);
    assert [[item]][0] == [item];
    assert TwinOk(key, tw', [item], 0);
    assert RingOk(key, tw', [item]);
    hide RingOk;
    RingReplaced(key, tw, tw', a, [], [[item]], b);
  }

  /** An existing key: the item goes to the end of its ring. */
  lemma TwinContents(key: Id -> int, tw: Twins, tw': Twins, a: seq<Ring>, ring: Ring, b: seq<Ring>, item: Id)
    requires RingsOk(key, tw, a + [ring] + b) && Between(key, a, b, item) && key(item) == KeyOf(key, ring)
    requires item in tw && !tw[item].mine && tw'.Keys == tw.Keys
    requires ring != [] && RingOk(key, tw', ring + [item])
    requires forall x | x in tw && x !in ring && x != item :: tw'[x] == tw[x]
    ensures RingsOk(key, tw', a + [ring + [item]] + b)
    ensures Inserted(key, a + [ring] + b, item) == a + [ring + [item]] + b
    ensures Total(a + [ring + [item]] + b) == Total(a + [ring] + b) + 1
  {
    var r := ring + [item];
    SortedSameKey(key, a, ring, r, b);
    InsertedAsTwin(key, a, ring, b, item);
    TotalAround(a, [ring], b);
    TotalAround(a, [r], b);
    ItemsOf(a, [ring], b, item);
    forall x | x in ring
      ensures !IsItem(a, x) && !IsItem(b, x)
    {
      RingApart(key, tw, a, ring, b, x);
    }
    forall x | x in tw && !IsItem(a, x) && !IsItem(b, x)
      ensures tw'[x].mine <==> IsItem([r], x)
    {
      ItemsOf(a, [ring], b, x);
      SingleItem(r, x);
      SingleItem(ring, x);
      MembersAreMine(key, tw', r, x);
    }
    hide RingOk;
    RingReplaced(key, tw, tw', a, [ring], [r], b);
  }

  lemma SingleItem(ring: Ring, x: Id)
    ensures IsItem([ring], x) <==> x in ring
  {
    assert [ring][0] == ring;
  }

  lemma MembersAreMine(key: Id -> int, tw: Twins, ring: Ring, x: Id)
    requires RingOk(key, tw, ring)
    ensures x in ring ==> x in tw && tw[x].mine
  {
    if x in ring {
      var k :| 0 <= k < |ring| && ring[k] == x;
      assert TwinOk(key, tw, ring, k);
    }
  }

  /** One of several twins leaves its ring. */
  lemma DroppedContents(key: Id -> int, tw: Twins, tw': Twins, a: seq<Ring>, ring: Ring, k: nat, b: seq<Ring>)
    requires RingsOk(key, tw, a + [ring] + b) && k < |ring| && |ring| > 1 && tw'.Keys == tw.Keys
    requires RingOk(key, tw', DropAt(ring, k)) && ring[k] in tw' && tw'[ring[k]] == ResetTwin(ring[k])
    requires forall x | x in tw && x !in ring :: tw'[x] == tw[x]
    ensures RingsOk(key, tw', a + [DropAt(ring, k)] + b)
    ensures Removed(a + [ring] + b, ring[k]) == a + [DropAt(ring, k)] + b
    ensures Total(a + [DropAt(ring, k)] + b) == Total(a + [ring] + b) - 1
  {
    var r := DropAt(ring, k);
    assert (a + [ring] + b)[|a|] == ring && RingOk(key, tw, ring);
    assert TwinOk(key, tw, ring, 0) && TwinOk(key, tw, ring, 1) && r[0] == (if k == 0 then ring[1] else ring[0]);
    SortedSameKey(key, a, ring, r, b);
    RingApart(key, tw, a, ring, b, ring[k]);
    WithoutAt(ring, k);
    RemovedAt(a, ring, b, ring[k]);
    TotalAround(a, [ring], b);
    TotalAround(a, [r], b);
    forall x | x in ring
      ensures !IsItem(a, x) && !IsItem(b, x)
    {
      RingApart(key, tw, a, ring, b, x);
    }
    forall x | x in tw && !IsItem(a, x) && !IsItem(b, x)
      ensures tw'[x].mine <==> IsItem([r], x)
    {
      ItemsOf(a, [ring], b, x);
      SingleItem(r, x);
      SingleItem(ring, x);
      MembersAreMine(key, tw', r, x);
      InDropped(ring, k, x);
    }
    hide RingOk;
    RingReplaced(key, tw, tw', a, [ring], [r], b);
  }

  lemma InDropped(ring: Ring, k: nat, x: Id)
    requires k < |ring|
    ensures x in ring && x != ring[k] ==> x in DropAt(ring, k)
    ensures x in DropAt(ring, k) ==> x in ring
  {
    if x in ring && x != ring[k] {
      var j :| 0 <= j < |ring| && ring[j] == x;
      assert DropAt(ring, k)[if j < k then j else j - 1] == x;
    }
  }

  /** The only item with its key leaves. */
  lemma SingletonRemoved(key: Id -> int, tw: Twins, a: seq<Ring>, item: Id, b: seq<Ring>)
    requires RingsOk(key, tw, a + [[item]] + b) && item in tw
    ensures RingsOk(key, tw[item := ResetTwin(item)], a + [] + b)
    ensures Removed(a + [[item]] + b, item) == a + [] + b
    ensures Total(a + [] + b) == Total(a + [[item]] + b) - 1
  {
    var tw' := tw[item := ResetTwin(item)];
    SortedWithout(key, a, [item], b);
    assert a + [] + b == a + b;
    RingApart(key, tw, a, [item], b, item);
    assert Without([item], item) == [];
    RemovedAt(a, [item], b, item);
    TotalAround(a, [[item]], b);
    TotalAround(a, [], b);
    forall x | x in tw && !IsItem(a, x) && !IsItem(b, x)
      ensures !tw'[x].mine
    {
      ItemsOf(a, [[item]], b, x);
      SingleItem([item], x);
    }
    hide RingOk;
    RingReplaced(key, tw, tw', a, [[item]], [], b);
  }

  /** Removing an item keeps all others and makes the contents smaller by one. */
  lemma {:induction false} RemovedItems(es: seq<Ring>, item: Id, x: Id)
    requires IsItem(es, item)
    ensures IsItem(es, x) && x != item ==> IsItem(Removed(es, item), x)
    ensures Total(Removed(es, item)) == Total(es) - 1
  {
    var rest := es[1..];
    ItemsOf([es[0]], rest, [], x);
    ItemsOf([es[0]], rest, [], item);
    assert [es[0]] + rest + [] == es;
    SingleItem(es[0], x);
    SingleItem(es[0], item);
    if item in es[0] {
      var w := Without(es[0], item);
      WithoutItems(es[0], item, x);
      var head := if w == [] then [] else [w];
      ItemsOf(head, rest, [], x);
      SingleItem(w, x);
      assert head + rest + [] == Removed(es, item);
      TotalConcat(head, rest);
    } else {
      RemovedItems(rest, item, x);
      ItemsOf([es[0]], Removed(rest, item), [], x);
      assert [es[0]] + Removed(rest, item) + [] == Removed(es, item);
      assert Removed(es, item)[1..] == Removed(rest, item);
    }
  }

  /** Inserting an item keeps all others and makes the contents larger by one. */
  lemma {:induction false} InsertedItems(key: Id -> int, es: seq<Ring>, item: Id, x: Id)
    ensures IsItem(Inserted(key, es, item), x) <==> IsItem(es, x) || x == item
    ensures Total(Inserted(key, es, item)) == Total(es) + 1
    decreases |es|
  {
    var now := Inserted(key, es, item);
    SingleItem([item], x);
    if es == [] || key(item) < KeyOf(key, es[0]) {
      ItemsOf([[item]], es, [], x);
      assert [[item]] + es + [] == now && now[1..] == es;
    } else {
      var rest := es[1..];
      ItemsOf([es[0]], rest, [], x);
      assert [es[0]] + rest + [] == es;
      SingleItem(es[0], x);
      if key(item) == KeyOf(key, es[0]) {
        var ring := es[0] + [item];
        ItemsOf([ring], rest, [], x);
        SingleItem(ring, x);
        assert [ring] + rest + [] == now && now[1..] == rest;
      } else {
        InsertedItems(key, rest, item, x);
        var rest' := Inserted(key, rest, item);
        ItemsOf([es[0]], rest', [], x);
        assert [es[0]] + rest' + [] == now && now[1..] == rest';
      }
    }
  }

  lemma {:induction false} WithoutItems(ring: Ring, item: Id, x: Id)
    requires item in ring
    ensures x in ring && x != item ==> x in Without(ring, item)
    ensures |Without(ring, item)| == |ring| - 1
  {
    if ring[0] != item {
      WithoutItems(ring[1..], item, x);
    }
  }

  lemma RootIsItem(key: Id -> int, tw: Twins, t: Tree)
    requires t.Node? && RingsOk(key, tw, Elements(t))
    ensures IsItem(Elements(t), Head(t.ring))
  {
    LinkedAreItems(key, tw, t, Head(t.ring));
  }
}
