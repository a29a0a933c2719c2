/**
 Model of src/common/Pool.h: a pool of `size` elements that are handed out to lists and given
 back, without allocating memory. List 0 is the freelist; every RTList has a larger number.

 `lists` is what the links mean; each operation states how it changes `lists`, and `Valid()`
 says that the links realize them and that every element is at exactly one place.
 */
module Pool {
  import opened Wrappers
  import opened Arithmetic
  import opened PoolLists
  import opened PoolIds

  // ----- The invariant and what single moves do to it -----

  /** The outer links of the boundary nodes. */
  predicate Sentinels(m: Links, ls: Lists) {
    forall l | 0 <= l < |ls| ::
      && Begin(l) in m.prev && m.prev[Begin(l)] == Begin(l)
      && End(l) in m.next && m.next[End(l)] == End(l)
  }

  /** The lists hold the elements 0 .. size - 1 and no others. */
  ghost predicate Covers(ls: Lists, size: int) {
    forall n: Node :: Holds(ls, n) <==> n.Elem? && 0 <= n.i < size
  }

  ghost predicate PoolOk(m: Links, ls: Lists, size: int) {
    && |ls| >= 1
    && Ok(m, ls)
    && Sentinels(m, ls)
    && Covers(ls, size)
    && Total(ls) == size
  }

  /** Element k of list l goes to position j of list d, counted without it. */
  function Moved(ls: Lists, l: int, k: int, d: int, j: int): Lists
    requires 0 <= l < |ls| && 0 <= k < |ls[l]| && 0 <= d < |ls| && 0 <= j <= |RemoveAt(ls, l, k)[d]|
  {
    InsertAt(RemoveAt(ls, l, k), d, j, ls[l][k])
  }

  /** What such a move does to the lists: within one list, and from one list to another. */
  lemma MovedLists(ls: Lists, l: int, k: int, d: int, j: int)
    requires 0 <= l < |ls| && 0 <= k < |ls[l]| && 0 <= d < |ls|
    requires 0 <= j <= if d == l then |ls[l]| - 1 else |ls[d]|
    ensures j <= |RemoveAt(ls, l, k)[d]| == if d == l then |ls[l]| - 1 else |ls[d]|
    ensures var now, rest, x := Moved(ls, l, k, d, j), ls[l][..k] + ls[l][k + 1..], ls[l][k];
            && |now| == |ls| && (forall a | 0 <= a < |ls| && a != l && a != d :: now[a] == ls[a])
            && (l != d ==> now[l] == rest && now[d] == ls[d][..j] + [x] + ls[d][j..])
            && (l == d ==> now[l] == rest[..j] + [x] + rest[j..])
  {
  }

  /** The last free element goes to another list. */
  lemma TakenFree(ls: Lists, l: int)
    requires 1 <= l < |ls| && ls[FREE] != []
    ensures var n, x := |ls[FREE]| - 1, ls[FREE][|ls[FREE]| - 1];
            && RemoveAt(ls, FREE, n)[l] == ls[l]
            && Moved(ls, FREE, n, l, |ls[l]|) == ls[FREE := ls[FREE][..n]][l := ls[l] + [x]]
            && Moved(ls, FREE, n, l, 0) == ls[FREE := ls[FREE][..n]][l := [x] + ls[l]]
  {
    var n, x := |ls[FREE]| - 1, ls[FREE][|ls[FREE]| - 1];
    assert ls[FREE][..n] + ls[FREE][n + 1..] == ls[FREE][..n];
    assert ls[l][..|ls[l]|] + [x] + ls[l][|ls[l]|..] == ls[l] + [x];
    assert ls[l][..0] + [x] + ls[l][0..] == [x] + ls[l];
  }

  lemma MoveOk(m: Links, ls: Lists, size: int, l: int, k: int, d: int, j: int)
    requires PoolOk(m, ls, size) && 0 <= l < |ls| && 0 <= k < |ls[l]| && 0 <= d < |ls|
             && 0 <= j <= |RemoveAt(ls, l, k)[d]|
    ensures var n, q := ls[l][k], Full(RemoveAt(ls, l, k), d);
            n in m.prev && n in m.next
                && PoolOk(Attached(Detached(m, n), q[j], n, q[j + 1]), Moved(ls, l, k, d, j), size)
  {
    var n, out, q := ls[l][k], RemoveAt(ls, l, k), Full(RemoveAt(ls, l, k), d);
    DetachOk(m, ls, l, k);
    AttachOk(Detached(m, n), out, d, j, n);
    MoveSentinels(m, ls, l, k, d, j);
    MoveCovers(ls, size, l, k, d, j);
    TotalUpdate(ls, l, ls[l][..k] + ls[l][k + 1..]);
    TotalUpdate(out, d, out[d][..j] + [n] + out[d][j..]);
  }

  lemma MoveCovers(ls: Lists, size: int, l: int, k: int, d: int, j: int)
    requires Disjoint(ls) && Covers(ls, size)
    requires 0 <= l < |ls| && 0 <= k < |ls[l]| && 0 <= d < |ls| && 0 <= j <= |RemoveAt(ls, l, k)[d]|
    ensures Covers(Moved(ls, l, k, d, j), size)
  {
    assert ls[l][k] in ls[l];
    forall x: Node
      ensures Holds(Moved(ls, l, k, d, j), x) <==> Holds(ls, x)
    {
      RemovedHolds(ls, l, k, x);
      InsertedHolds(RemoveAt(ls, l, k), d, j, ls[l][k], x);
    }
  }

  lemma MoveSentinels(m: Links, ls: Lists, l: int, k: int, d: int, j: int)
    requires Ok(m, ls) && Sentinels(m, ls)
    requires 0 <= l < |ls| && 0 <= k < |ls[l]| && 0 <= d < |ls| && 0 <= j <= |RemoveAt(ls, l, k)[d]|
    ensures var n, q := ls[l][k], Full(RemoveAt(ls, l, k), d);
            n in m.prev && n in m.next && Sentinels(Attached(Detached(m, n), q[j], n, q[j + 1]), Moved(ls, l, k, d, j))
  {
    var full := Full(ls, l);
    assert full[k + 1] == ls[l][k] && LinkedAt(m, full, k) && LinkedAt(m, full, k + 1);
    NoSentinelInside(ls, l);
    RemovedDisjoint(ls, l, k);
    NoSentinelInside(RemoveAt(ls, l, k), d);
  }

  /** An end sentinel has no successor, a begin sentinel no predecessor. */
  lemma NoSentinelInside(ls: Lists, l: int)
    requires Disjoint(ls) && 0 <= l < |ls|
    ensures var q := Full(ls, l); forall i | 0 <= i < |q| :: (i < |q| - 1 ==> !q[i].End?) && (i > 0 ==> !q[i].Begin?)
  {
  }

  lemma MoveAllOk(m: Links, ls: Lists, size: int, l: int, d: int)
    requires PoolOk(m, ls, size) && 0 <= l < |ls| && 0 <= d < |ls| && l != d && ls[l] != []
    ensures End(d) in m.prev && PoolOk(Spliced(m, l, ls[l][0], ls[l][|ls[l]| - 1], d), MovedAll(ls, l, d), size)
  {
    SpliceOk(m, ls, l, d);
    NoSentinelInside(ls, l);
    NoSentinelInside(ls, d);
    var q := Full(ls, d);
    assert LinkedAt(m, q, |q| - 2);
    forall x: Node
      ensures Holds(MovedAll(ls, l, d), x) <==> Holds(ls, x)
    {
      MovedAllHolds(ls, l, d, x);
    }
    TotalUpdate(ls, l, []);
    TotalUpdate(ls[l := []], d, ls[d] + ls[l]);
  }

  // ----- The filter that a loop with free() or moveToEndOf() computes -----

  /** The elements of s whose test gives b, in order. */
  function Keep(s: seq<Node>, p: Node -> bool, b: bool): seq<Node> {
    if s == [] then [] else
      var rest, x := Keep(s[..|s| - 1], p, b), s[|s| - 1];
      if p(x) == b then rest + [x] else rest
  }

  lemma {:induction false} KeepHolds(s: seq<Node>, p: Node -> bool, b: bool, x: Node)
    ensures x in Keep(s, p, b) <==> x in s && p(x) == b
  {
    if s != [] {
      var n := |s| - 1;
      KeepHolds(s[..n], p, b, x);
      assert s == s[..n] + [s[n]];
    }
  }

  /** The elements are kept in their order. */
  lemma {:induction false} KeepJoin(a: seq<Node>, b: seq<Node>, p: Node -> bool, v: bool)
    ensures Keep([], p, v) == [] && forall x :: Keep([x], p, v) == if p(x) == v then [x] else []
    ensures Keep(a + b, p, v) == Keep(a, p, v) + Keep(b, p, v)
    decreases |b|
  {
    assert forall x: Node :: [x][..0] == [];
    if b == [] {
      assert a + b == a;
    } else {
      var n := |b| - 1;
      assert (a + b)[..|a| + n] == a + b[..n];
      KeepJoin(a, b[..n], p, v);
    }
  }

  /** A loop has decided about the first k elements of l: the others stay, the matching ones are in d. */
  function Filtered(ls: Lists, l: int, d: int, k: int, p: Node -> bool): Lists
    requires 0 <= l < |ls| && 0 <= d < |ls| && 0 <= k <= |ls[l]|
  {
    ls[l := Keep(ls[l][..k], p, false) + ls[l][k..]][d := ls[d] + Keep(ls[l][..k], p, true)]
  }

  lemma FilteredStep(ls: Lists, l: int, d: int, k: int, p: Node -> bool)
    requires 0 <= l < |ls| && 0 <= d < |ls| && l != d && 0 <= k < |ls[l]|
    ensures var now, pos := Filtered(ls, l, d, k, p), |Keep(ls[l][..k], p, false)|;
            && pos < |now[l]| && now[l][pos] == ls[l][k]
            && Filtered(ls, l, d, k + 1, p) == (if p(ls[l][k]) then Moved(now, l, pos, d, |now[d]|) else now)
            && |Keep(ls[l][..k + 1], p, false)| == (if p(ls[l][k]) then pos else pos + 1)
  {
    var s, x := ls[l], ls[l][k];
    assert s[..k + 1][..k] == s[..k] && s[..k + 1][k] == x;
    assert s[k..] == [x] + s[k + 1..];
    var now, pos := Filtered(ls, l, d, k, p), |Keep(s[..k], p, false)|;
    if p(x) {
      var out := RemoveAt(now, l, pos);
      assert out[l] == Keep(s[..k], p, false) + s[k + 1..];
      assert Moved(now, l, pos, d, |now[d]|)[d] == now[d] + [x];
      assert now[d] + [x] == ls[d] + (Keep(s[..k], p, true) + [x]);
    } else {
      assert Keep(s[..k + 1], p, false) + s[k + 1..] == Keep(s[..k], p, false) + s[k..];
    }
  }

  /** All matching elements of l moved to the end of d; the others stay in l; every order is kept. */
  function Parted(ls: Lists, l: int, d: int, p: Node -> bool): Lists
    requires 0 <= l < |ls| && 0 <= d < |ls|
  {
    ls[l := Keep(ls[l], p, false)][d := ls[d] + Keep(ls[l], p, true)]
  }

  lemma FilteredEnds(ls: Lists, l: int, d: int, p: Node -> bool)
    requires 0 <= l < |ls| && 0 <= d < |ls| && l != d
    ensures Filtered(ls, l, d, 0, p) == ls
    ensures Filtered(ls, l, d, |ls[l]|, p) == Parted(ls, l, d, p)
  {
    var s := ls[l];
    assert s[..0] == [] && s[..|s|] == s;
    assert Keep(s[..0], p, false) + s[0..] == s;
    assert Keep(s, p, false) + s[|s|..] == Keep(s, p, false);
    assert ls[d] + Keep(s[..0], p, true) == ls[d];
  }

  /** What an iterator at the first undecided element sees. */
  lemma FilteredAt(ls: Lists, l: int, d: int, k: int, p: Node -> bool)
    requires Disjoint(ls) && 0 <= l < |ls| && 0 <= d < |ls| && l != d && 0 <= k <= |ls[l]|
    ensures var now, pos := Filtered(ls, l, d, k, p), |Keep(ls[l][..k], p, false)|;
            && |now| == |ls| && pos <= |now[l]|
            && Full(now, l)[pos + 1] == (if k < |ls[l]| then ls[l][k] else End(l))
            && (Full(now, l)[pos + 1] == End(l) <==> k == |ls[l]|)
  {
  }

  lemma NotYetKept(ls: Lists, l: int, k: int, p: Node -> bool, b: bool)
    requires Disjoint(ls) && 0 <= l < |ls| && 0 <= k < |ls[l]|
    ensures ls[l][k] !in Keep(ls[l][..k], p, b)
    ensures Keep(ls[l][..k + 1], p, b) ==
            if p(ls[l][k]) == b then Keep(ls[l][..k], p, b) + [ls[l][k]] else Keep(ls[l][..k], p, b)
  {
    var s, x := ls[l], ls[l][k];
    assert s[..k + 1][..k] == s[..k] && s[..k + 1][k] == x;
    KeepHolds(s[..k], p, b, x);
  }

  /** Taking out an element leaves the one before it where it is. */
  lemma FallbackStays(ls: Lists, l: int, k: int, d: int, j: int)
    requires 0 <= l < |ls| && 0 <= k < |ls[l]| && 0 <= d < |ls| && l != d && 0 <= j <= |RemoveAt(ls, l, k)[d]|
    ensures Full(Moved(ls, l, k, d, j), l)[k] == Full(ls, l)[k]
  {
  }

  // ----- How often elements were freed -----

  /** Each element of s was freed once more, no other one. */
  predicate FreedOn(before: seq<nat>, after: seq<nat>, s: seq<Node>) {
    |after| == |before| && forall i | 0 <= i < |before| :: after[i] == before[i] + if Elem(i) in s then 1 else 0
  }

  lemma FreedMeans(before: seq<nat>, after: seq<nat>, s: seq<Node>, p: Node -> bool)
    requires FreedOn(before, after, Keep(s, p, true))
    ensures |after| == |before|
    ensures forall i | 0 <= i < |before| :: after[i] == before[i] + if Elem(i) in s && p(Elem(i)) then 1 else 0
  {
    forall i | 0 <= i < |before|
      ensures Elem(i) in Keep(s, p, true) <==> Elem(i) in s && p(Elem(i))
    {
      KeepHolds(s, p, true, Elem(i));
    }
  }

  lemma FreedEach(before: seq<nat>, after: seq<nat>, s: seq<Node>)
    requires FreedOn(before, after, s)
    ensures |after| == |before|
    ensures forall i | 0 <= i < |before| :: after[i] == before[i] + if Elem(i) in s then 1 else 0
  {
  }

  lemma FreedNone(frees: seq<nat>)
    ensures FreedOn(frees, frees, [])
  {
  }

  lemma FreedOneMore(a: seq<nat>, b: seq<nat>, s: seq<Node>, i: int)
    requires FreedOn(a, b, s) && 0 <= i < |a| && Elem(i) !in s
    ensures FreedOn(a, b[i := b[i] + 1], s + [Elem(i)])
  {
  }

  /** The counters are the numbers of frees, modulo d. */
  predicate CountersMatch(counters: seq<nat>, frees: seq<nat>, d: int)
    requires |counters| == |frees| && d > 0
  {
    forall i | 0 <= i < |frees| :: counters[i] == frees[i] % d
  }

  lemma NoFreesYet(zeros: seq<nat>, d: int)
    requires d > 0 && forall i | 0 <= i < |zeros| :: zeros[i] == 0
    ensures CountersMatch(zeros, zeros, d)
  {
    DivModUnique(0, d, 0, 0);
  }

  /** The counter after one more free. */
  lemma Bumped(f: nat, k: nat)
    ensures BitAnd(f % Pow2(k) + 1, Pow2(k) - 1) == (f + 1) % Pow2(k)
  {
    hide Pow2, BitAnd;
    var d := Pow2(k);
    AndMask(f % d + 1, k);
    DivMod(f, d);
    ModAdd(f, 1, d);
    if f % d + 1 < d {
      DivModUnique(f % d + 1, d, 0, f % d + 1);
    } else {
      DivModUnique(d, d, 1, 0);
    }
  }

  predicate Follows(m: Links, s: seq<Node>, k: int)
    requires 0 <= k < |s| - 1
  {
    s[k] in m.next && m.next[s[k]] == s[k + 1]
  }

  /** The elements of a list still follow each other when the list is cut off from its sentinels. */
  lemma CutOff(m: Links, ls: Lists, l: int)
    requires Ok(m, ls) && 0 <= l < |ls|
    ensures var m' := Links(m.next[Begin(l) := End(l)], m.prev[End(l) := Begin(l)]);
            forall k | 0 <= k < |ls[l]| - 1 :: Follows(m', ls[l], k)
  {
    var q := Full(ls, l);
    forall k | 0 <= k < |ls[l]| - 1
      ensures ls[l][k] in m.next && m.next[ls[l][k]] == ls[l][k + 1] && ls[l][k].Elem?
    {
      assert q[k + 1] == ls[l][k] && q[k + 2] == ls[l][k + 1] && LinkedAt(m, q, k + 1);
    }
  }

  lemma AllMoved(ls: Lists, l: int, d: int)
    requires 0 <= l < |ls| && 0 <= d < |ls|
    ensures MovedAll(ls, l, d) == ls[l := []][d := ls[d] + ls[l]]
  {
  }

  lemma NothingMoved(ls: Lists, l: int, d: int)
    requires 0 <= l < |ls| && 0 <= d < |ls| && l != d && ls[l] == []
    ensures MovedAll(ls, l, d) == ls
  {
    assert ls[d] + ls[l] == ls[d];
  }

  lemma ListEnds(m: Links, ls: Lists, l: int)
    requires Ok(m, ls) && 0 <= l < |ls| && ls[l] != []
    ensures Begin(l) in m.next && m.next[Begin(l)] == ls[l][0]
    ensures End(l) in m.prev && m.prev[End(l)] == ls[l][|ls[l]| - 1]
  {
    assert LinkedAt(m, Full(ls, l), 0) && LinkedAt(m, Full(ls, l), |ls[l]|);
  }

  lemma ClearFacts(m: Links, ls: Lists, size: int, l: int)
    requires PoolOk(m, ls, size) && 1 <= l < |ls| && ls[l] != []
    ensures Begin(l) in m.next && m.next[Begin(l)] == ls[l][0] && ls[l][0].Elem?
    ensures End(l) in m.prev && m.prev[End(l)] == ls[l][|ls[l]| - 1]
    ensures Disjoint(ls) && Covers(ls, size)
    ensures var m' := Links(m.next[Begin(l) := End(l)], m.prev[End(l) := Begin(l)]);
            forall k | 0 <= k < |ls[l]| - 1 :: Follows(m', ls[l], k)
    ensures End(FREE) in m.prev
            && PoolOk(Spliced(m, l, ls[l][0], ls[l][|ls[l]| - 1], FREE), MovedAll(ls, l, FREE), size)
  {
    MoveAllOk(m, ls, size, l, FREE);
    ListEnds(m, ls, l);
    CutOff(m, ls, l);
  }

  // ----- New lists -----

  lemma NewListOk(m: Links, ls: Lists, size: int)
    requires PoolOk(m, ls, size)
    ensures var l := |ls|;
            PoolOk(Links(m.next[Begin(l) := End(l)][End(l) := End(l)],
                m.prev[Begin(l) := Begin(l)][End(l) := Begin(l)]), ls + [[]], size)
  {
    var l := |ls|;
    var m' := Links(m.next[Begin(l) := End(l)][End(l) := End(l)], m.prev[Begin(l) := Begin(l)][End(l) := Begin(l)]);
    var ls': Lists := ls + [[]];
    assert ls'[..l] == ls;
    forall a | 0 <= a < |ls'|
      ensures Linked(m', Full(ls', a))
    {
      if a < l {
        assert Full(ls', a) == Full(ls, a);
        OldListKept(m, m', ls, a);
      }
    }
    forall x: Node
      ensures Holds(ls', x) <==> Holds(ls, x)
    {
      if Holds(ls, x) {
        var a :| 0 <= a < |ls| && x in ls[a];
        assert x in ls'[a];
      }
    }
  }

  lemma OldListKept(m: Links, m': Links, ls: Lists, a: int)
    requires Ok(m, ls) && 0 <= a < |ls|
    requires forall x | x in m.next && x != Begin(|ls|) && x != End(|ls|) :: x in m'.next && m'.next[x] == m.next[x]
    requires forall x | x in m.prev && x != Begin(|ls|) && x != End(|ls|) :: x in m'.prev && m'.prev[x] == m.prev[x]
    ensures Linked(m', Full(ls, a))
  {
    var q := Full(ls, a);
    forall k | 0 <= k < |q| - 1
      ensures LinkedAt(m', q, k)
    {
      assert LinkedAt(m, q, k);
    }
  }

  /** _init() appends the next element to the freelist. */
  lemma GrowOk(m: Links, ls: Lists, size: int)
    requires PoolOk(m, ls, size) && |ls| == 1 && size >= 0
    ensures var s := ls[0]; var q := Full(ls, 0);
            PoolOk(Attached(m, q[|s|], Elem(size), q[|s| + 1]), [s + [Elem(size)]], size + 1)
  {
    var s, n := ls[0], Elem(size);
    assert !Holds(ls, n);
    AttachOk(m, ls, 0, |s|, n);
    var ls': Lists := [s + [n]];
    assert s[..|s|] + [n] + s[|s|..] == s + [n];
    assert InsertAt(ls, 0, |s|, n) == ls';
    NoSentinelInside(ls, 0);
    forall x: Node
      ensures Holds(ls', x) <==> x.Elem? && 0 <= x.i < size + 1
    {
      InsertedHolds(ls, 0, |s|, n, x);
    }
    TotalUpdate(ls, 0, s + [n]);
  }

  lemma FreelistTail(m: Links, ls: Lists, size: int)
    requires PoolOk(m, ls, size)
    ensures End(FREE) in m.prev && m.prev[End(FREE)] == Full(ls, 0)[|ls[0]|] && Full(ls, 0)[|ls[0]| + 1] == End(FREE)
  {
    assert LinkedAt(m, Full(ls, 0), |ls[0]|);
  }

  // ----- The pool -----

  /** Where a loop is, and where it was one step earlier. */
  datatype Iterator = Iterator(current: Node, fallback: Node)

  /** All elements appended to the freelist one after the other. */
  method LinkFreelist(elements: nat) returns (m: Links, ghost ls: Lists)
    ensures PoolOk(m, ls, elements) && |ls| == 1 && |ls[0]| == elements
    ensures forall i | 0 <= i < elements :: ls[0][i] == Elem(i)
  {
    m := Links(map[Begin(FREE) := End(FREE), End(FREE) := End(FREE)],
        map[Begin(FREE) := Begin(FREE), End(FREE) := Begin(FREE)]);
    ls := [[]];
    assert Total(ls) == 0 by { assert ls[..0] == []; }
    var i := 0;
    while i < elements
      invariant 0 <= i <= elements && PoolOk(m, ls, i) && |ls| == 1 && |ls[0]| == i
      invariant forall j | 0 <= j < i :: ls[0][j] == Elem(j)
    {
      FreelistTail(m, ls, i);
      var last := m.prev[End(FREE)];
      GrowOk(m, ls, i);
      hide PoolOk;
      ghost var m0 := m;
      m := m.(next := m.next[last := Elem(i)]);
      m := m.(prev := m.prev[Elem(i) := last]);
      m := m.(next := m.next[Elem(i) := End(FREE)]);
      m := m.(prev := m.prev[End(FREE) := Elem(i)]);
      assert m == Attached(m0, last, Elem(i), End(FREE));
      ls := [ls[0] + [Elem(i)]];
      i := i + 1;
    }
  }

  /** The IDs of the pool leave `counterBits` bits for the reincarnation counter. */
  predicate CounterFits(elements: nat, counterBits: nat) {
    counterBits <= ID_BITS && elements + 1 <= Pow2(ID_BITS - counterBits)
  }

  method PoolSizeBits(elements: nat, counterBits: nat) returns (bits: nat)
    requires CounterFits(elements, counterBits)
    ensures IdLayout(elements, bits, counterBits)
    ensures forall b: nat | elements + 1 <= Pow2(b) :: bits <= b
  {
    hide Pow2;
    bits := BitsForSize(elements + 1);
    ghost var width: nat := ID_BITS - counterBits;
    assert bits <= width;
  }

  class ElementPool {
    const size: nat
    const bits: nat         // poolsizebits
    const counterBits: nat  // width of the reincarnation counter
    var m: Links
    var listCount: nat
    var reincarnation: seq<nat>
    ghost var lists: Lists
    ghost var frees: seq<nat>  // how often each element was freed

    ghost predicate CountersOk()
      reads this
    {
      && IdLayout(size, bits, counterBits)
      && |frees| == size && |reincarnation| == size
      && CountersMatch(reincarnation, frees, Pow2(counterBits))
    }

    ghost predicate Valid()
      reads this
    {
      PoolOk(m, lists, size) && |lists| == listCount && CountersOk()
    }

    /** _init(): all elements are free. */
    constructor (elements: nat, counterBits: nat)
      requires CounterFits(elements, counterBits)
      ensures Valid() && size == elements && this.counterBits == counterBits
      ensures |lists| == 1 && |lists[FREE]| == elements && (forall i | 0 <= i < elements :: lists[FREE][i] == Elem(i))
      ensures |frees| == elements && forall i | 0 <= i < elements :: frees[i] == 0
    {
      hide Pow2, PoolOk, IdLayout, CounterFits, CountersMatch;
      var b := PoolSizeBits(elements, counterBits);
      var links, ls := LinkFreelist(elements);
      size, bits, this.counterBits := elements, b, counterBits;
      m, listCount := links, 1;
      var zeros: seq<nat> := seq(elements, i => 0);
      NoFreesYet(zeros, Pow2(counterBits));
      reincarnation, frees, lists := zeros, zeros, ls;
    }

    /** A new empty RTList. */
    method NewList() returns (l: int)
      requires Valid()
      modifies this
      ensures Valid() && l == |old(lists)| && lists == old(lists) + [[]]
      ensures frees == old(frees)
    {
      NewListOk(m, lists, size);
      l := listCount;
      listCount := l + 1;
      m := m.(next := m.next[Begin(l) := End(l)], prev := m.prev[Begin(l) := Begin(l)]);
      m := m.(next := m.next[End(l) := End(l)], prev := m.prev[End(l) := Begin(l)]);
      lists := lists + [[]];
    }

    // ----- Link operations -----

    method Detach(n: Node)
      requires n in m.prev && n in m.next
      modifies this`m
      ensures m == Detached(old(m), n)
    {
      var prev, next := m.prev[n], m.next[n];
      m := m.(next := m.next[prev := next]);
      m := m.(prev := m.prev[next := prev]);
    }

    method Append(l: int, n: Node)
      requires End(l) in m.prev && n != End(l)
      modifies this`m
      ensures m == Attached(old(m), old(m.prev[End(l)]), n, End(l))
    {
      var last := m.prev[End(l)];
      m := m.(next := m.next[last := n]);
      m := m.(prev := m.prev[n := last]);
      m := m.(next := m.next[n := End(l)]);
      m := m.(prev := m.prev[End(l) := n]);
    }

    method Prepend(l: int, n: Node)
      requires Begin(l) in m.next && n != Begin(l) && n != m.next[Begin(l)]
      modifies this`m
      ensures m == Attached(old(m), Begin(l), n, old(m.next[Begin(l)]))
    {
      var first := m.next[Begin(l)];
      m := m.(next := m.next[Begin(l) := n]);
      m := m.(prev := m.prev[n := Begin(l)]);
      m := m.(next := m.next[n := first]);
      m := m.(prev := m.prev[first := n]);
    }

    method PrependBefore(src: Node, dst: Node)
      requires dst in m.prev
      modifies this`m
      ensures m == Attached(old(m), old(m.prev[dst]), src, dst)
    {
      var prev := m.prev[dst];
      m := m.(next := m.next[prev := src]);
      m := m.(prev := m.prev[dst := src]);
      m := m.(prev := m.prev[src := prev]);
      m := m.(next := m.next[src := dst]);
    }

    method AppendAfter(src: Node, dst: Node)
      requires dst in m.next
      modifies this`m
      ensures m == Attached(old(m), dst, src, old(m.next[dst]))
    {
      var next := m.next[dst];
      m := m.(prev := m.prev[next := src]);
      m := m.(next := m.next[dst := src]);
      m := m.(prev := m.prev[src := dst]);
      m := m.(next := m.next[src := next]);
    }

    // ----- Iterators -----

    /** The iterator stands at position k of list l, and one position before it falls back. */
    ghost predicate Points(it: Iterator, l: int, k: int)
      reads this
    {
      0 <= l < |lists| && 0 <= k <= |lists[l]| && it == Iterator(Full(lists, l)[k + 1], Full(lists, l)[k])
    }

    method First(l: int) returns (it: Iterator)
      requires Valid() && 0 <= l < |lists|
      ensures Points(it, l, 0)
    {
      assert LinkedAt(m, Full(lists, l), 0);
      var n := m.next[Begin(l)];
      it := Iterator(n, m.prev[n]);
    }

    /** ++it; the iterator may have fallen back to the position before the k-th. */
    method Next(it: Iterator, ghost l: int, ghost k: int) returns (r: Iterator)
      requires Valid() && 0 <= l < |lists| && 0 <= k <= |lists[l]| && it.current == Full(lists, l)[k]
      ensures Points(r, l, k)
    {
      assert LinkedAt(m, Full(lists, l), k);
      r := Iterator(m.next[it.current], it.current);
    }

    // ----- Moves -----

    /** detach() followed by prependBefore() or appendAfter(). */
    method Relink(n: Node, dst: Node, before: bool)
      requires n in m.prev && n in m.next
      requires if before then dst in Detached(m, n).prev else dst in Detached(m, n).next
      modifies this`m
      ensures m == if before then BeforeNode(old(m), n, dst) else AfterNode(old(m), n, dst)
    {
      Detach(n);
      if before {
        PrependBefore(n, dst);
      } else {
        AppendAfter(n, dst);
      }
    }

    /** Element k of list l is now at place s of list d, counted without it, and `moved` points there. */
    ghost predicate HasMoved(before: Lists, l: int, k: int, d: int, s: int, moved: Iterator)
      reads this
    {
      && 0 <= l < |before| && 0 <= k < |before[l]| && 0 <= d < |before| && 0 <= s <= |RemoveAt(before, l, k)[d]|
      && lists == Moved(before, l, k, d, s) && Points(moved, d, s)
    }

    /**
     moveBefore(): the element goes before `dst`, which may be any other element or the end of a list. With the
     element itself or the begin of a list as destination, the links form no lists any more.
     */
    method MoveBefore(it: Iterator, dst: Node, ghost l: int, ghost k: int, ghost d: int, ghost j: int)
      returns (moved: Iterator, r: Iterator)
      requires Valid() && 0 <= l < |lists| && 0 <= k < |lists[l]| && it.current == lists[l][k]
      requires 0 <= d < |lists| && 0 <= j < |Full(lists, d)| && dst == Full(lists, d)[j]
      modifies this`m, this`lists
      ensures moved.current == it.current && r == Iterator(it.fallback, it.fallback)
      ensures !dst.Begin? && dst != it.current ==>
                Valid() && HasMoved(old(lists), l, k, d, Slot(l, k, d, j) - 1, moved)
      ensures dst.Begin? || dst == it.current ==> lists == old(lists) && forall ls | Covers(ls, size) :: !Ok(m, ls)
    {
      ghost var s, was := Slot(l, k, d, j) - 1, lists;
      BeforeFacts(m, lists, size, l, k, dst, d, j);
      hide PoolOk, Ok, Full, Covers, Moved, RemoveAt, Detached, BeforeNode, AfterNode, Slot, CountersOk;
      Relink(it.current, dst, true);
      moved := Iterator(it.current, m.prev[it.current]);
      r := Iterator(it.fallback, it.fallback);
      if !dst.Begin? && dst != it.current {
        assert PlacedAt(m, was, size, l, k, d, s);
        lists := Moved(was, l, k, d, s);
      }
    }

    /**
     moveAfter(): the element goes after `dst`, which may be any other element or the begin of a list. With the
     element itself or the end of a list as destination, the links form no lists any more.
     */
    method MoveAfter(it: Iterator, dst: Node, ghost l: int, ghost k: int, ghost d: int, ghost j: int)
      returns (moved: Iterator, r: Iterator)
      requires Valid() && 0 <= l < |lists| && 0 <= k < |lists[l]| && it.current == lists[l][k]
      requires 0 <= d < |lists| && 0 <= j < |Full(lists, d)| && dst == Full(lists, d)[j]
      modifies this`m, this`lists
      ensures moved.current == it.current && r == Iterator(it.fallback, it.fallback)
      ensures !dst.End? && dst != it.current ==>
                Valid() && HasMoved(old(lists), l, k, d, Slot(l, k, d, j), moved)
      ensures dst.End? || dst == it.current ==> lists == old(lists) && forall ls | Covers(ls, size) :: !Ok(m, ls)
    {
      AfterFacts(m, lists, size, l, k, dst, d, j);
      hide PoolOk, Ok, Full, Covers, Moved, RemoveAt, Detached, BeforeNode, AfterNode, Slot, CountersOk;
      Relink(it.current, dst, false);
      moved := Iterator(it.current, m.prev[it.current]);
      r := Iterator(it.fallback, it.fallback);
      if !dst.End? && dst != it.current {
        lists := Moved(lists, l, k, d, Slot(l, k, d, j));
      }
    }

    /** moveToEndOf(), also within one list. */
    method MoveToEndOf(it: Iterator, d: int, ghost l: int, ghost k: int) returns (moved: Iterator, r: Iterator)
      requires Valid() && 0 <= l < |lists| && 0 <= k < |lists[l]| && it.current == lists[l][k] && 0 <= d < |lists|
      modifies this`m, this`lists
      ensures Valid() && lists == Moved(old(lists), l, k, d, |RemoveAt(old(lists), l, k)[d]|)
      ensures Points(moved, d, |lists[d]| - 1) && moved.current == it.current
      ensures r == Iterator(it.fallback, it.fallback)
    {
      ghost var out := RemoveAt(lists, l, k);
      MoveOk(m, lists, size, l, k, d, |out[d]|);
      DetachOk(m, lists, l, k);
      Detach(it.current);
      assert LinkedAt(m, Full(out, d), |out[d]|);
      Append(d, it.current);
      lists := Moved(lists, l, k, d, |out[d]|);
      assert LinkedAt(m, Full(lists, d), |out[d]|);
      moved := Iterator(it.current, m.prev[it.current]);
      r := Iterator(it.fallback, it.fallback);
    }

    /** moveToBeginOf(), also within one list. */
    method MoveToBeginOf(it: Iterator, d: int, ghost l: int, ghost k: int) returns (moved: Iterator, r: Iterator)
      requires Valid() && 0 <= l < |lists| && 0 <= k < |lists[l]| && it.current == lists[l][k] && 0 <= d < |lists|
      modifies this`m, this`lists
      ensures Valid() && lists == Moved(old(lists), l, k, d, 0)
      ensures Points(moved, d, 0) && moved.current == it.current
      ensures r == Iterator(it.fallback, it.fallback)
    {
      ghost var out := RemoveAt(lists, l, k);
      MoveOk(m, lists, size, l, k, d, 0);
      DetachOk(m, lists, l, k);
      Detach(it.current);
      assert LinkedAt(m, Full(out, d), 0);
      NotInFull(out, d, it.current);
      Prepend(d, it.current);
      lists := Moved(lists, l, k, d, 0);
      assert LinkedAt(m, Full(lists, d), 0);
      moved := Iterator(it.current, m.prev[it.current]);
      r := Iterator(it.fallback, it.fallback);
    }

    // ----- Allocation -----

    method IsEmpty(l: int) returns (empty: bool)
      requires Valid() && 0 <= l < |lists|
      ensures empty <==> lists[l] == []
    {
      assert LinkedAt(m, Full(lists, l), 0);
      empty := m.next[Begin(l)] == End(l);
    }

    /** alloc(): takes the last free element out; it is in no list until it is linked in again. */
    method Alloc() returns (it: Iterator)
      requires Valid() && lists[FREE] != []
      modifies this`m
      ensures it == Iterator(lists[FREE][|lists[FREE]| - 1], End(FREE))
      ensures it.current in old(m.prev) && it.current in old(m.next) && m == Detached(old(m), it.current)
    {
      FreelistTail(m, lists, size);
      assert LinkedAt(m, Full(lists, FREE), |lists[FREE]|);
      assert LinkedAt(m, Full(lists, FREE), |lists[FREE]| - 1);
      var n := m.prev[End(FREE)];
      it := Iterator(n, m.next[n]);
      Detach(n);
    }

    /** allocAppend(): the begin() of the list when the pool is exhausted. */
    method AllocAppend(l: int) returns (it: Iterator)
      requires Valid() && 1 <= l < |lists|
      modifies this`m, this`lists
      ensures Valid()
      ensures old(lists[FREE]) == [] ==> lists == old(lists) && it == Iterator(Begin(l), Begin(l))
      ensures old(lists[FREE]) != [] ==>
                && var n := |old(lists[FREE])| - 1;
                && lists == Moved(old(lists), FREE, n, l, |old(lists[l])|)
                && lists == old(lists)[FREE := old(lists[FREE])[..n]][l := old(lists[l]) + [old(lists[FREE])[n]]]
                && it == Iterator(old(lists[FREE][|lists[FREE]| - 1]), End(FREE))
    {
      var empty := IsEmpty(FREE);
      if empty {
        return Iterator(Begin(l), m.prev[Begin(l)]);
      }
      ghost var f, e := |lists[FREE]| - 1, |lists[l]|;
      TakenFree(lists, l);
      MoveOk(m, lists, size, FREE, f, l, e);
      DetachOk(m, lists, FREE, f);
      it := Alloc();
      assert LinkedAt(m, Full(RemoveAt(lists, FREE, f), l), e);
      Append(l, it.current);
      lists := Moved(lists, FREE, f, l, e);
    }

    /** allocPrepend(): the end() of the list when the pool is exhausted. */
    method AllocPrepend(l: int) returns (it: Iterator)
      requires Valid() && 1 <= l < |lists|
      modifies this`m, this`lists
      ensures Valid()
      ensures old(lists[FREE]) == [] ==> lists == old(lists) && it == Iterator(End(l), End(l))
      ensures old(lists[FREE]) != [] ==>
                && var n := |old(lists[FREE])| - 1;
                && lists == Moved(old(lists), FREE, n, l, 0)
                && lists == old(lists)[FREE := old(lists[FREE])[..n]][l := [old(lists[FREE])[n]] + old(lists[l])]
                && it == Iterator(old(lists[FREE][|lists[FREE]| - 1]), End(FREE))
    {
      var empty := IsEmpty(FREE);
      if empty {
        return Iterator(End(l), m.next[End(l)]);
      }
      ghost var f := |lists[FREE]| - 1;
      TakenFree(lists, l);
      ghost var out := RemoveAt(lists, FREE, f);
      MoveOk(m, lists, size, FREE, f, l, 0);
      DetachOk(m, lists, FREE, f);
      it := Alloc();
      assert LinkedAt(m, Full(out, l), 0);
      NotInFull(out, l, it.current);
      Prepend(l, it.current);
      lists := Moved(lists, FREE, f, l, 0);
    }

    /** bumpReincarnation() */
    method Bump(i: int)
      requires CountersOk() && 0 <= i < size
      modifies this`reincarnation, this`frees
      ensures CountersOk() && frees == old(frees)[i := old(frees[i]) + 1]
    {
      Bumped(frees[i], counterBits);
      reincarnation := reincarnation[i := BitAnd(reincarnation[i] + 1, Pow2(counterBits) - 1)];
      frees := frees[i := frees[i] + 1];
    }

    /** free(): the element goes to the end of the freelist, even if it is in the freelist already. */
    method Free(it: Iterator, ghost l: int, ghost k: int) returns (r: Iterator)
      requires Valid() && 0 <= l < |lists| && 0 <= k < |lists[l]| && it.current == lists[l][k]
      modifies this`m, this`lists, this`reincarnation, this`frees
      ensures Valid() && lists == Moved(old(lists), l, k, FREE, |RemoveAt(old(lists), l, k)[FREE]|)
      ensures 0 <= it.current.i < size && frees == old(frees)[it.current.i := old(frees[it.current.i]) + 1]
      ensures r == Iterator(it.fallback, it.fallback)
    {
      ghost var out := RemoveAt(lists, l, k);
      MoveOk(m, lists, size, l, k, FREE, |out[FREE]|);
      DetachOk(m, lists, l, k);
      assert Holds(lists, it.current) by { assert it.current in lists[l]; }
      Detach(it.current);
      Bump(it.current.i);
      assert LinkedAt(m, Full(out, FREE), |out[FREE]|);
      Append(FREE, it.current);
      lists := Moved(lists, l, k, FREE, |out[FREE]|);
      r := Iterator(it.fallback, it.fallback);
    }

    /** clear(): the whole list goes to the end of the freelist, in order. */
    method Clear(l: int)
      requires Valid() && 1 <= l < |lists|
      modifies this`m, this`lists, this`reincarnation, this`frees
      ensures Valid() && lists == MovedAll(old(lists), l, FREE)
      ensures FreedOn(old(frees), frees, old(lists[l]))
      ensures |frees| == size
              && forall i | 0 <= i < size :: frees[i] == old(frees[i]) + if Elem(i) in old(lists[l]) then 1 else 0
      ensures lists == old(lists)[l := []][FREE := old(lists[FREE]) + old(lists[l])]
    {
      hide PoolOk, Full, FreedOn, MovedAll, Covers, Disjoint, CountersMatch, IdLayout;
      ghost var m0 := m;
      AllMoved(lists, l, FREE);
      var empty := IsEmpty(l);
      if empty {
        NothingMoved(lists, l, FREE);
        FreedNone(frees);
        return;
      }
      ClearFacts(m, lists, size, l);
      var first, last := m.next[Begin(l)], m.prev[End(l)];
      m := m.(next := m.next[Begin(l) := End(l)]);
      m := m.(prev := m.prev[End(l) := Begin(l)]);
      BumpAll(first, last, l);
      FreedEach(old(frees), frees, lists[l]);
      var tail := m.prev[End(FREE)];
      m := m.(next := m.next[tail := first]);
      m := m.(prev := m.prev[first := tail]);
      m := m.(next := m.next[last := End(FREE)]);
      m := m.(prev := m.prev[End(FREE) := last]);
      assert m == Spliced(m0, l, first, last, FREE);
      lists := MovedAll(lists, l, FREE);
    }

    /** The loop of freeToPool() over a detached list, along the next links. */
    method BumpAll(first: Node, last: Node, ghost l: int)
      requires CountersOk() && Disjoint(lists) && Covers(lists, size) && 0 <= l < |lists| && lists[l] != []
      requires first == lists[l][0] && last == lists[l][|lists[l]| - 1]
      requires forall k | 0 <= k < |lists[l]| - 1 :: Follows(m, lists[l], k)
      modifies this`reincarnation, this`frees
      ensures CountersOk() && FreedOn(old(frees), frees, lists[l])
    {
      ghost var s, k := lists[l], 0;
      var n := first;
      while true
        invariant 0 <= k < |s| && n == s[k] && CountersOk() && FreedOn(old(frees), frees, s[..k])
        decreases |s| - k
      {
        assert s[..k + 1] == s[..k] + [n] && n !in s[..k];
        assert Holds(lists, n) by { assert n in lists[l]; }
        FreedOneMore(old(frees), frees, s[..k], n.i);
        Bump(n.i);
        if n == last {
          assert s[..k + 1] == s;
          break;
        }
        assert Follows(m, s, k);
        n := m.next[n];
        k := k + 1;
      }
    }

    // ----- Loops that take elements out -----

    /** One round of the loop below, at the k-th of the original elements: if (p(it)) free(it); ++it */
    method FreeRound(it: Iterator, l: int, p: Node -> bool, ghost was: Lists, ghost freed: seq<nat>, ghost k: int)
      returns (r: Iterator)
      requires Valid() && InLoop(it, l, FREE, p, was, k) && it.current != End(l)
      requires FreedOn(freed, frees, Keep(was[l][..k], p, true))
      modifies this`m, this`lists, this`reincarnation, this`frees
      ensures Valid() && InLoop(r, l, FREE, p, was, k + 1)
      ensures 0 <= k < |was[l]| && was[l][..k + 1] == was[l][..k] + [it.current]
      ensures FreedOn(freed, frees, Keep(was[l][..k + 1], p, true))
    {
      LoopElement(it, l, FREE, p, was, k);
      NotYetKept(was, l, k, p, true);
      assert it.current != End(l) && RemoveAt(lists, l, |Keep(was[l][..k], p, false)|)[FREE] == lists[FREE];
      hide Filtered, Keep, Full, PoolOk, CountersOk, Disjoint, RemoveAt, Moved, FreedOn;
      ghost var pos := |Keep(was[l][..k], p, false)|;
      if p(it.current) {
        LoopTaken(l, FREE, p, was, k, lists);
        FreedOneMore(freed, frees, Keep(was[l][..k], p, true), it.current.i);
        r := Free(it, l, pos);
        r := Next(r, l, pos);
      } else {
        LoopKept(l, FREE, p, was, k);
        r := Next(it, l, pos + 1);
      }
    }

    /**
     for (it = first(); it != end(); ++it) if (p(it)) free(it): `tested` are the elements that p was asked about.
     */
    method FreeMatching(l: int, p: Node -> bool) returns (tested: seq<Node>)
      requires Valid() && 1 <= l < |lists|
      modifies this`m, this`lists, this`reincarnation, this`frees
      ensures Valid()
      ensures tested == old(lists[l])
      ensures lists == Parted(old(lists), l, FREE, p)
      ensures FreedOn(old(frees), frees, Keep(old(lists[l]), p, true))
      ensures |frees| == size
              && forall i | 0 <= i < size ::
                  frees[i] == old(frees[i]) + if Elem(i) in old(lists[l]) && p(Elem(i)) then 1 else 0
    {
      ghost var was, freed, k := lists, frees, 0;
      LoopStart(l, FREE, p);
      tested := [];
      var it := First(l);
      hide Parted, Filtered, Keep, FreedOn, PoolOk, CountersOk, Disjoint, Points, Full, Valid;
      while it.current != End(l)
        invariant Valid() && InLoop(it, l, FREE, p, was, k) && tested == was[l][..k]
        invariant FreedOn(freed, frees, Keep(was[l][..k], p, true))
        decreases |was[l]| - k
      {
        tested := tested + [it.current];
        it := FreeRound(it, l, p, was, freed, k);
        k := k + 1;
      }
      LoopEnd(it, l, FREE, p, was, k);
      FreedMeans(freed, frees, was[l], p);
    }

    /** One round with moveToEndOf() another list instead of free(). */
    method MoveRound(it: Iterator, l: int, d: int, p: Node -> bool, ghost was: Lists, ghost k: int)
      returns (r: Iterator)
      requires Valid() && InLoop(it, l, d, p, was, k) && it.current != End(l)
      modifies this`m, this`lists
      ensures Valid() && InLoop(r, l, d, p, was, k + 1)
      ensures 0 <= k < |was[l]| && was[l][..k + 1] == was[l][..k] + [it.current]
    {
      LoopElement(it, l, d, p, was, k);
      ghost var pos := |Keep(was[l][..k], p, false)|;
      assert RemoveAt(lists, l, pos)[d] == lists[d];
      hide Filtered, Keep, Full, PoolOk, CountersOk, Disjoint, RemoveAt, Moved;
      if p(it.current) {
        var moved;
        LoopTaken(l, d, p, was, k, lists);
        moved, r := MoveToEndOf(it, d, l, pos);
        r := Next(r, l, pos);
      } else {
        LoopKept(l, d, p, was, k);
        r := Next(it, l, pos + 1);
      }
    }

    /** The same loop with moveToEndOf(): the matching elements end up behind those of list d, in order. */
    method MoveMatching(l: int, d: int, p: Node -> bool) returns (tested: seq<Node>)
      requires Valid() && 1 <= l < |lists| && 1 <= d < |lists| && l != d
      modifies this`m, this`lists
      ensures Valid()
      ensures tested == old(lists[l])
      ensures lists == Parted(old(lists), l, d, p)
    {
      ghost var was, k := lists, 0;
      LoopStart(l, d, p);
      tested := [];
      var it := First(l);
      hide Parted, Filtered, Keep, PoolOk, CountersOk, Disjoint, Points, Full, Valid;
      while it.current != End(l)
        invariant Valid() && InLoop(it, l, d, p, was, k) && tested == was[l][..k]
        decreases |was[l]| - k
      {
        tested := tested + [it.current];
        it := MoveRound(it, l, d, p, was, k);
        k := k + 1;
      }
      LoopEnd(it, l, d, p, was, k);
    }

    // ----- The state of a loop that takes elements out -----

    /** The loop has decided about k elements of list l as it was; the iterator is at the next one. */
    ghost predicate InLoop(it: Iterator, l: int, d: int, p: Node -> bool, was: Lists, k: int)
      reads this
    {
      && 1 <= l < |was| && 0 <= d < |was| && l != d && Disjoint(was) && 0 <= k <= |was[l]|
      && lists == Filtered(was, l, d, k, p)
      && Points(it, l, |Keep(was[l][..k], p, false)|)
    }

    lemma LoopStart(l: int, d: int, p: Node -> bool)
      requires Valid() && 1 <= l < |lists| && 0 <= d < |lists| && l != d
      ensures forall it | Points(it, l, 0) :: InLoop(it, l, d, p, lists, 0)
      ensures lists[l][..0] == [] && FreedOn(frees, frees, Keep(lists[l][..0], p, true))
    {
      FilteredEnds(lists, l, d, p);
      assert lists[l][..0] == [];
    }

    lemma LoopEnd(it: Iterator, l: int, d: int, p: Node -> bool, was: Lists, k: int)
      requires Valid() && InLoop(it, l, d, p, was, k) && it.current == End(l)
      ensures k == |was[l]| && was[l][..k] == was[l]
      ensures lists == Parted(was, l, d, p)
    {
      LoopElement(it, l, d, p, was, k);
      FilteredEnds(was, l, d, p);
    }

    lemma LoopElement(it: Iterator, l: int, d: int, p: Node -> bool, was: Lists, k: int)
      requires Valid() && InLoop(it, l, d, p, was, k)
      ensures it.current == End(l) <==> k == |was[l]|
      ensures it.current != End(l) ==>
                var pos := |Keep(was[l][..k], p, false)|;
                && k < |was[l]| && it.current == was[l][k] && was[l][..k + 1] == was[l][..k] + [it.current]
                && |was| == |lists| && it.current.Elem? && 0 <= it.current.i < size
                && 0 <= pos < |lists[l]| && it.current == lists[l][pos] && it.fallback == Full(lists, l)[pos]
                && it.current == Full(lists, l)[pos + 1]
    {
      FilteredAt(was, l, d, k, p);
      if it.current != End(l) {
        FilteredStep(was, l, d, k, p);
        assert it.current in lists[l];
        assert Holds(lists, it.current);
      }
    }

    /** An element was taken out and the iterator has fallen back. */
    lemma LoopTaken(l: int, d: int, p: Node -> bool, was: Lists, k: int, before: Lists)
      requires 1 <= l < |was| && 0 <= d < |was| && l != d && Disjoint(was) && 0 <= k < |was[l]|
      requires before == Filtered(was, l, d, k, p) && p(was[l][k])
      ensures var pos := |Keep(was[l][..k], p, false)|;
              var after := Filtered(was, l, d, k + 1, p);
              && pos == |Keep(was[l][..k + 1], p, false)| && |after| == |before| == |was|
              && pos < |before[l]| && after == Moved(before, l, pos, d, |before[d]|)
              && pos <= |after[l]| && Full(after, l)[pos] == Full(before, l)[pos]
    {
      FilteredStep(was, l, d, k, p);
      FilteredAt(was, l, d, k + 1, p);
      FallbackStays(before, l, |Keep(was[l][..k], p, false)|, d, |before[d]|);
    }

    lemma LoopKept(l: int, d: int, p: Node -> bool, was: Lists, k: int)
      requires 1 <= l < |was| && 0 <= d < |was| && l != d && Disjoint(was) && 0 <= k < |was[l]| && !p(was[l][k])
      ensures var pos := |Keep(was[l][..k], p, false)|;
              && pos + 1 == |Keep(was[l][..k + 1], p, false)|
              && Filtered(was, l, d, k, p) == Filtered(was, l, d, k + 1, p)
              && |Filtered(was, l, d, k, p)| == |was| && pos + 1 <= |Filtered(was, l, d, k, p)[l]|
    {
      FilteredStep(was, l, d, k, p);
      FilteredAt(was, l, d, k + 1, p);
    }

    // ----- IDs -----

    function GetId(index: int): int
      reads this
      requires |reincarnation| == size
    {
      if 0 <= index < size then IdOf(size, bits, reincarnation[index], index) else 0
    }

    function FromId(id: int): Option<nat>
      reads this
      requires |reincarnation| == size
    {
      IndexOf(size, bits, reincarnation, id)
    }

    /**
     An ID taken when element `index` had been freed `taken` times leads to the element now exactly
     if the frees since then are a multiple of the counter's modulus, and otherwise to nothing. It is
     the ID getID() gives at that time; the all-ones ID is never accepted.
     */
    lemma IdLifetime(index: nat, taken: nat)
      requires Valid() && index < size && taken <= frees[index]
      ensures var r := taken % Pow2(counterBits);
              var id := IdOf(size, bits, r, index);
              && FromId(id) ==
                 (if (frees[index] - taken) % Pow2(counterBits) == 0 && !IsAllOnes(bits, r, index) then Some(index)
                  else None)
              && (taken == frees[index] ==> GetId(index) == id)
    {
      hide PoolOk, Pow2, IsAllOnes, IndexOf, IdOf;
      StaleIdRejected(size, bits, counterBits, index, taken, frees[index] - taken, reincarnation);
    }
  }

  // ----- Destinations of moveBefore() and moveAfter() -----

  /** moveBefore() with the element itself as destination leaves links that are no lists at all. */
  lemma MoveBeforeItselfBreaks(m: Links, ls: Lists, size: int, l: int, k: int, ls': Lists)
    requires PoolOk(m, ls, size) && 0 <= l < |ls| && 0 <= k < |ls[l]| && Covers(ls', size)
    ensures var n := ls[l][k]; n in m.prev && n in m.next && !Ok(Attached(Detached(m, n), m.prev[n], n, n), ls')
  {
    DetachOk(m, ls, l, k);
    var n := ls[l][k];
    var m' := Attached(Detached(m, n), m.prev[n], n, n);
    assert n in ls[l];
    assert Holds(ls, n) && Holds(ls', n);
    var a :| 0 <= a < |ls'| && n in ls'[a];
    var i :| 0 <= i < |ls'[a]| && ls'[a][i] == n;
    if Ok(m', ls') {
      var q := Full(ls', a);
      assert q[i + 1] == n && LinkedAt(m', q, i + 1);
      OnePlace(ls', a, i + 1, a, i + 2);
    }
  }

  /** So does moveAfter(). */
  lemma MoveAfterItselfBreaks(m: Links, ls: Lists, size: int, l: int, k: int, ls': Lists)
    requires PoolOk(m, ls, size) && 0 <= l < |ls| && 0 <= k < |ls[l]| && Covers(ls', size)
    ensures var n := ls[l][k]; n in m.prev && n in m.next && !Ok(Attached(Detached(m, n), n, n, m.next[n]), ls')
  {
    DetachOk(m, ls, l, k);
    var n := ls[l][k];
    var m' := Attached(Detached(m, n), n, n, m.next[n]);
    assert n in ls[l];
    assert Holds(ls, n) && Holds(ls', n);
    var a :| 0 <= a < |ls'| && n in ls'[a];
    var i :| 0 <= i < |ls'[a]| && ls'[a][i] == n;
    if Ok(m', ls') {
      var q := Full(ls', a);
      assert q[i + 1] == n && LinkedAt(m', q, i);
      OnePlace(ls', a, i, a, i + 1);
    }
  }

  lemma {:induction false} PlaceOf(ls: Lists, n: Node) returns (a: int, i: int)
    requires Holds(ls, n)
    ensures 0 <= a < |ls| && 0 <= i < |ls[a]| && ls[a][i] == n && Full(ls, a)[i + 1] == n
  {
    a :| 0 <= a < |ls| && n in ls[a];
    i :| 0 <= i < |ls[a]| && ls[a][i] == n;
  }

  /** The begin of a list as destination of moveBefore(): an element then has a begin sentinel for its successor. */
  lemma MoveBeforeBeginBreaks(m: Links, ls: Lists, size: int, l: int, k: int, d: int, ls': Lists)
    requires PoolOk(m, ls, size) && 0 <= l < |ls| && 0 <= k < |ls[l]| && Covers(ls', size)
    ensures var n := ls[l][k]; n in m.prev && n in m.next && !Ok(Attached(Detached(m, n), Begin(d), n, Begin(d)), ls')
  {
    DetachOk(m, ls, l, k);
    var n := ls[l][k];
    var m' := Attached(Detached(m, n), Begin(d), n, Begin(d));
    assert n in ls[l];
    assert Holds(ls, n) && Holds(ls', n);
    var a, i := PlaceOf(ls', n);
    if Disjoint(ls') {
      NoSentinelInside(ls', a);
      assert !LinkedAt(m', Full(ls', a), i + 1);
    }
  }

  /** The end of a list as destination of moveAfter(): an element then has an end sentinel for its predecessor. */
  lemma MoveAfterEndBreaks(m: Links, ls: Lists, size: int, l: int, k: int, d: int, ls': Lists)
    requires PoolOk(m, ls, size) && 0 <= l < |ls| && 0 <= k < |ls[l]| && Covers(ls', size)
    ensures var n := ls[l][k]; n in m.prev && n in m.next && !Ok(Attached(Detached(m, n), End(d), n, End(d)), ls')
  {
    DetachOk(m, ls, l, k);
    var n := ls[l][k];
    var m' := Attached(Detached(m, n), End(d), n, End(d));
    assert n in ls[l];
    assert Holds(ls, n) && Holds(ls', n);
    var a, i := PlaceOf(ls', n);
    if Disjoint(ls') {
      NoSentinelInside(ls', a);
      assert !LinkedAt(m', Full(ls', a), i);
    }
  }

  /** The position of node j of list d, sentinels included, after element k of list l was taken out. */
  function Slot(l: int, k: int, d: int, j: int): int {
    if d == l && k + 1 < j then j - 1 else j
  }

  lemma SlotOk(ls: Lists, l: int, k: int, d: int, j: int)
    requires 0 <= l < |ls| && 0 <= k < |ls[l]| && 0 <= d < |ls| && 0 <= j < |Full(ls, d)| && Full(ls, d)[j] != ls[l][k]
    ensures var q, s := Full(RemoveAt(ls, l, k), d), Slot(l, k, d, j);
            && 0 <= s < |q| && q[s] == Full(ls, d)[j]
            && (!q[s].Begin? ==> s >= 1) && (!q[s].End? ==> s + 1 < |q|)
  {
    var full := Full(ls, d);
    if d == l { assert full[k + 1] == ls[l][k]; }
  }

  lemma HasPrev(m: Links, ls: Lists, d: int, j: int)
    requires Ok(m, ls) && Sentinels(m, ls) && 0 <= d < |ls| && 0 <= j < |Full(ls, d)|
    ensures Full(ls, d)[j] in m.prev
  {
    if j > 0 { assert LinkedAt(m, Full(ls, d), j - 1); }
  }

  lemma HasNext(m: Links, ls: Lists, d: int, j: int)
    requires Ok(m, ls) && Sentinels(m, ls) && 0 <= d < |ls| && 0 <= j < |Full(ls, d)|
    ensures Full(ls, d)[j] in m.next
  {
    if j + 1 < |Full(ls, d)| { assert LinkedAt(m, Full(ls, d), j); }
  }

  /** The links that moveBefore() leaves for a bad destination. */
  lemma BadBefore(m: Links, ls: Lists, size: int, l: int, k: int, dst: Node, d: int, j: int)
    requires PoolOk(m, ls, size) && 0 <= l < |ls| && 0 <= k < |ls[l]| && 0 <= d < |ls| && 0 <= j < |Full(ls, d)|
    requires dst == Full(ls, d)[j] && (dst.Begin? || dst == ls[l][k])
    ensures var n := ls[l][k];
            && n in m.prev && n in m.next && dst in Detached(m, n).prev
            && forall ls' | Covers(ls', size) :: !Ok(Attached(Detached(m, n), Detached(m, n).prev[dst], n, dst), ls')
  {
    var n := ls[l][k];
    var q := Full(ls, l);
    assert q[k + 1] == n && LinkedAt(m, q, k) && LinkedAt(m, q, k + 1);
    NoSentinelInside(ls, l);
    NoRepeats(ls, l);
    forall ls' | Covers(ls', size)
      ensures !Ok(Attached(Detached(m, n), Detached(m, n).prev[dst], n, dst), ls')
    {
      if dst == n {
        MoveBeforeItselfBreaks(m, ls, size, l, k, ls');
      } else {
        SentinelAt(ls, d, j);
        MoveBeforeBeginBreaks(m, ls, size, l, k, d, ls');
      }
    }
  }

  lemma SentinelAt(ls: Lists, d: int, j: int)
    requires Disjoint(ls) && 0 <= d < |ls| && 0 <= j < |Full(ls, d)|
    ensures Full(ls, d)[j].Begin? ==> Full(ls, d)[j] == Begin(d)
    ensures Full(ls, d)[j].End? ==> Full(ls, d)[j] == End(d)
  {
  }

  /** The links that moveAfter() leaves for a bad destination. */
  lemma BadAfter(m: Links, ls: Lists, size: int, l: int, k: int, dst: Node, d: int, j: int)
    requires PoolOk(m, ls, size) && 0 <= l < |ls| && 0 <= k < |ls[l]| && 0 <= d < |ls| && 0 <= j < |Full(ls, d)|
    requires dst == Full(ls, d)[j] && (dst.End? || dst == ls[l][k])
    ensures var n := ls[l][k];
            && n in m.prev && n in m.next && dst in Detached(m, n).next
            && forall ls' | Covers(ls', size) :: !Ok(Attached(Detached(m, n), dst, n, Detached(m, n).next[dst]), ls')
  {
    var n := ls[l][k];
    var q := Full(ls, l);
    assert q[k + 1] == n && LinkedAt(m, q, k) && LinkedAt(m, q, k + 1);
    NoSentinelInside(ls, l);
    NoRepeats(ls, l);
    forall ls' | Covers(ls', size)
      ensures !Ok(Attached(Detached(m, n), dst, n, Detached(m, n).next[dst]), ls')
    {
      if dst == n {
        MoveAfterItselfBreaks(m, ls, size, l, k, ls');
      } else {
        SentinelAt(ls, d, j);
        MoveAfterEndBreaks(m, ls, size, l, k, d, ls');
      }
    }
  }

  function BeforeNode(m: Links, n: Node, dst: Node): Links
    requires n in m.prev && n in m.next && dst in Detached(m, n).prev
  {
    Attached(Detached(m, n), Detached(m, n).prev[dst], n, dst)
  }

  function AfterNode(m: Links, n: Node, dst: Node): Links
    requires n in m.prev && n in m.next && dst in Detached(m, n).next
  {
    Attached(Detached(m, n), dst, n, Detached(m, n).next[dst])
  }

  /** All that moveBefore() does: detach() and prependBefore(). */
  lemma BeforeFacts(m: Links, ls: Lists, size: int, l: int, k: int, dst: Node, d: int, j: int)
    requires PoolOk(m, ls, size) && 0 <= l < |ls| && 0 <= k < |ls[l]| && 0 <= d < |ls| && 0 <= j < |Full(ls, d)|
    requires dst == Full(ls, d)[j]
    ensures var n := ls[l][k]; n in m.prev && n in m.next && dst in Detached(m, n).prev
    ensures var n, s := ls[l][k], Slot(l, k, d, j) - 1;
            var m' := BeforeNode(m, n, dst);
            && n in m'.prev
            && (!dst.Begin? && dst != n ==> PlacedAt(m', ls, size, l, k, d, s))
            && (dst.Begin? || dst == n ==> forall ls' | Covers(ls', size) :: !Ok(m', ls'))
  {
    var n, s := ls[l][k], Slot(l, k, d, j) - 1;
    DetachOk(m, ls, l, k);
    HasPrev(m, ls, d, j);
    if !dst.Begin? && dst != n {
      SlotOk(ls, l, k, d, j);
      MoveOk(m, ls, size, l, k, d, s);
      assert LinkedAt(Detached(m, n), Full(RemoveAt(ls, l, k), d), s);
      PlacedOk(Attached(Detached(m, n), Detached(m, n).prev[dst], n, dst), ls, size, l, k, d, s);
    } else {
      BadBefore(m, ls, size, l, k, dst, d, j);
    }
  }

  /** All that moveAfter() does: detach() and appendAfter(). */
  lemma AfterFacts(m: Links, ls: Lists, size: int, l: int, k: int, dst: Node, d: int, j: int)
    requires PoolOk(m, ls, size) && 0 <= l < |ls| && 0 <= k < |ls[l]| && 0 <= d < |ls| && 0 <= j < |Full(ls, d)|
    requires dst == Full(ls, d)[j]
    ensures var n := ls[l][k]; n in m.prev && n in m.next && dst in Detached(m, n).next
    ensures var n, s := ls[l][k], Slot(l, k, d, j);
            var m' := AfterNode(m, n, dst);
            && n in m'.prev
            && (!dst.End? && dst != n ==> PlacedAt(m', ls, size, l, k, d, s))
            && (dst.End? || dst == n ==> forall ls' | Covers(ls', size) :: !Ok(m', ls'))
  {
    var n, s := ls[l][k], Slot(l, k, d, j);
    DetachOk(m, ls, l, k);
    HasNext(m, ls, d, j);
    if !dst.End? && dst != n {
      SlotOk(ls, l, k, d, j);
      MoveOk(m, ls, size, l, k, d, s);
      assert LinkedAt(Detached(m, n), Full(RemoveAt(ls, l, k), d), s);
      PlacedOk(Attached(Detached(m, n), dst, n, Detached(m, n).next[dst]), ls, size, l, k, d, s);
    } else {
      BadAfter(m, ls, size, l, k, dst, d, j);
    }
  }

  /** The element has been moved to place s of list d, and its predecessor there is known. */
  ghost predicate PlacedAt(m: Links, ls: Lists, size: int, l: int, k: int, d: int, s: int)
    requires 0 <= l < |ls| && 0 <= k < |ls[l]|
  {
    && 0 <= d < |ls| && 0 <= s <= |RemoveAt(ls, l, k)[d]|
    && var ls' := Moved(ls, l, k, d, s);
    && PoolOk(m, ls', size) && |ls'| == |ls| && s <= |ls'[d]|
    && s + 1 < |Full(ls', d)| && Full(ls', d)[s + 1] == ls[l][k]
    && ls[l][k] in m.prev && m.prev[ls[l][k]] == Full(ls', d)[s]
  }

  lemma PlacedOk(m: Links, ls: Lists, size: int, l: int, k: int, d: int, s: int)
    requires 0 <= l < |ls| && 0 <= k < |ls[l]| && 0 <= d < |ls| && 0 <= s <= |RemoveAt(ls, l, k)[d]|
    requires PoolOk(m, Moved(ls, l, k, d, s), size)
    ensures PlacedAt(m, ls, size, l, k, d, s)
  {
    var ls': Lists := Moved(ls, l, k, d, s);
    assert Full(ls', d)[s + 1] == ls[l][k];
    assert LinkedAt(m, Full(ls', d), s);
  }
}
