/**
 The doubly linked lists of src/common/Pool.h: every list runs from its begin sentinel to its
 end sentinel, and pool nodes are moved between lists by changing links. List 0 is the freelist
 of the pool.
 */
module PoolLists {

  datatype Node = Elem(i: int) | Begin(list: int) | End(list: int)

  /** next and prev pointers of all nodes, sentinels included. */
  datatype Links = Links(next: map<Node, Node>, prev: map<Node, Node>)

  type Lists = seq<seq<Node>>

  const FREE := 0

  // ----- Lists in memory -----

  /** The nodes of list `l` with its sentinels. */
  function Full(ls: Lists, l: int): seq<Node>
    requires 0 <= l < |ls|
  {
    [Begin(l)] + ls[l] + [End(l)]
  }

  predicate LinkedAt(m: Links, q: seq<Node>, k: int)
    requires 0 <= k < |q| - 1
  {
    && q[k] in m.next && m.next[q[k]] == q[k + 1]
    && q[k + 1] in m.prev && m.prev[q[k + 1]] == q[k]
  }

  predicate Linked(m: Links, q: seq<Node>) {
    forall k | 0 <= k < |q| - 1 :: LinkedAt(m, q, k)
  }

  /** Lists hold pool elements only, and no element is in two places. */
  predicate Disjoint(ls: Lists) {
    && (forall l, k | 0 <= l < |ls| && 0 <= k < |ls[l]| :: ls[l][k].Elem?)
    && (forall l, k, l', k' | 0 <= l < |ls| && 0 <= k < |ls[l]| && 0 <= l' < |ls| && 0 <= k' < |ls[l']|
        && (l != l' || k != k') ::
          ls[l][k] != ls[l'][k'])
  }

  predicate AllLinked(m: Links, ls: Lists) {
    forall l | 0 <= l < |ls| :: Linked(m, Full(ls, l))
  }

  predicate Ok(m: Links, ls: Lists) {
    Disjoint(ls) && AllLinked(m, ls)
  }

  predicate Holds(ls: Lists, n: Node) {
    exists l :: 0 <= l < |ls| && n in ls[l]
  }

  // ----- Reference behaviour -----

  function RemoveAt(ls: Lists, l: int, k: int): Lists
    requires 0 <= l < |ls| && 0 <= k < |ls[l]|
  {
    ls[l := ls[l][..k] + ls[l][k + 1..]]
  }

  function InsertAt(ls: Lists, l: int, k: int, n: Node): Lists
    requires 0 <= l < |ls| && 0 <= k <= |ls[l]|
  {
    ls[l := ls[l][..k] + [n] + ls[l][k..]]
  }

  function Total(ls: Lists): nat {
    if ls == [] then 0 else |ls[|ls| - 1]| + Total(ls[..|ls| - 1])
  }

  lemma {:induction false} TotalUpdate(ls: Lists, l: int, s: seq<Node>)
    requires 0 <= l < |ls|
    ensures Total(ls[l := s]) == Total(ls) - |ls[l]| + |s|
  {
    var n := |ls| - 1;
    if l < n {
      TotalUpdate(ls[..n], l, s);
      assert ls[l := s][..n] == ls[..n][l := s];
    } else {
      assert ls[l := s][..n] == ls[..n];
    }
  }

  // ----- Where nodes are -----

  /** A node of one list is in no other list, and at one place in its own, sentinels included. */
  lemma OnePlace(ls: Lists, l: int, i: int, l': int, j: int)
    requires Disjoint(ls) && 0 <= l < |ls| && 0 <= l' < |ls|
    requires 0 <= i < |Full(ls, l)| && 0 <= j < |Full(ls, l')| && Full(ls, l)[i] == Full(ls, l')[j]
    ensures l == l' && i == j
  {
    var a, b := Full(ls, l), Full(ls, l');
    assert 0 < i < |a| - 1 ==> a[i] == ls[l][i - 1];
    assert 0 < j < |b| - 1 ==> b[j] == ls[l'][j - 1];
  }

  // ----- detach() -----

  /** prev->next = next; next->prev = prev */
  function Detached(m: Links, n: Node): Links
    requires n in m.prev && n in m.next
  {
    var prev, next := m.prev[n], m.next[n];
    Links(m.next[prev := next], m.prev[next := prev])
  }

  lemma DetachOk(m: Links, ls: Lists, l: int, k: int)
    requires Ok(m, ls) && 0 <= l < |ls| && 0 <= k < |ls[l]|
    ensures var n := ls[l][k];
            n in m.prev && n in m.next && Ok(Detached(m, n), RemoveAt(ls, l, k)) && !Holds(RemoveAt(ls, l, k), n)
  {
    var n, q := ls[l][k], Full(ls, l);
    assert q[k + 1] == n;
    assert LinkedAt(m, q, k) && LinkedAt(m, q, k + 1);
    var m', ls' := Detached(m, n), RemoveAt(ls, l, k);
    RemovedDisjoint(ls, l, k);
    forall l' | 0 <= l' < |ls'|
      ensures Linked(m', Full(ls', l'))
    {
      if l' == l {
        ShortenedLinked(m, ls, l, k);
      } else {
        assert Full(ls', l') == Full(ls, l');
        OtherListKept(m, m', ls, l, l', k, k + 2);
      }
    }
  }

  /** Changes to next of position i and prev of position j of one list do not touch another list. */
  lemma OtherListKept(m: Links, m': Links, ls: Lists, l: int, l': int, i: int, j: int)
    requires Ok(m, ls) && 0 <= l < |ls| && 0 <= l' < |ls| && l != l' && 0 <= i < |Full(ls, l)| && 0 <= j < |Full(ls, l)|
    requires forall x | x in m.next && x != Full(ls, l)[i]
             && (x.Elem? ==> Holds(ls, x)) :: x in m'.next && m'.next[x] == m.next[x]
    requires forall x | x in m.prev && x != Full(ls, l)[j]
             && (x.Elem? ==> Holds(ls, x)) :: x in m'.prev && m'.prev[x] == m.prev[x]
    ensures Linked(m', Full(ls, l'))
  {
    var q := Full(ls, l');
    forall k | 0 <= k < |q| - 1
      ensures LinkedAt(m', q, k)
    {
      assert LinkedAt(m, q, k);
      FullHolds(ls, l', k);
      FullHolds(ls, l', k + 1);
      if q[k] == Full(ls, l)[i] { OnePlace(ls, l', k, l, i); }
      if q[k + 1] == Full(ls, l)[j] { OnePlace(ls, l', k + 1, l, j); }
    }
  }

  lemma FullHolds(ls: Lists, l: int, k: int)
    requires 0 <= l < |ls| && 0 <= k < |Full(ls, l)|
    ensures Disjoint(ls) && Full(ls, l)[k].Elem? ==> Holds(ls, Full(ls, l)[k])
  {
    if 0 < k < |Full(ls, l)| - 1 {
      assert Full(ls, l)[k] == ls[l][k - 1];
      assert ls[l][k - 1] in ls[l];
    }
  }

  lemma ShortenedLinked(m: Links, ls: Lists, l: int, k: int)
    requires Ok(m, ls) && 0 <= l < |ls| && 0 <= k < |ls[l]| && ls[l][k] in m.prev && ls[l][k] in m.next
    ensures Linked(Detached(m, ls[l][k]), Full(RemoveAt(ls, l, k), l))
  {
    var n, q := ls[l][k], Full(ls, l);
    var m', q' := Detached(m, n), Full(RemoveAt(ls, l, k), l);
    assert q[k + 1] == n && LinkedAt(m, q, k) && LinkedAt(m, q, k + 1);
    assert q' == q[..k + 1] + q[k + 2..];
    forall j | 0 <= j < |q'| - 1
      ensures LinkedAt(m', q', j)
    {
      var i := if j <= k then j else j + 1;
      assert q'[j] == q[i] && q'[j + 1] == q[if j < k then j + 1 else j + 2];
      assert LinkedAt(m, q, i);
      if q[i] == q[k] { OnePlace(ls, l, i, l, k); }
      if j != k && q[i + 1] == q[k + 2] { OnePlace(ls, l, i + 1, l, k + 2); }
    }
  }

  lemma RemovedDisjoint(ls: Lists, l: int, k: int)
    requires Disjoint(ls) && 0 <= l < |ls| && 0 <= k < |ls[l]|
    ensures Disjoint(RemoveAt(ls, l, k)) && !Holds(RemoveAt(ls, l, k), ls[l][k])
  {
    var ls': Lists, n := RemoveAt(ls, l, k), ls[l][k];
    forall a, i, b, j | 0 <= a < |ls'| && 0 <= i < |ls'[a]| && 0 <= b < |ls'| && 0 <= j < |ls'[b]| && (a != b || i != j)
      ensures ls'[a][i] != ls'[b][j]
    {
      assert ls'[a][i] == ls[a][if a == l && i >= k then i + 1 else i];
      assert ls'[b][j] == ls[b][if b == l && j >= k then j + 1 else j];
    }
    forall a, i | 0 <= a < |ls'| && 0 <= i < |ls'[a]|
      ensures ls'[a][i].Elem? && ls'[a][i] != n
    {
      assert ls'[a][i] == ls[a][if a == l && i >= k then i + 1 else i];
    }
  }

  // ----- append(), prepend(), prependBefore(), appendAfter() -----

  /** The node `n` linked in between the neighbours `a` and `b`. */
  function Attached(m: Links, a: Node, n: Node, b: Node): Links {
    Links(m.next[a := n][n := b], m.prev[b := n][n := a])
  }

  lemma AttachOk(m: Links, ls: Lists, l: int, k: int, n: Node)
    requires Ok(m, ls) && 0 <= l < |ls| && 0 <= k <= |ls[l]| && n.Elem? && !Holds(ls, n)
    ensures var q := Full(ls, l); Ok(Attached(m, q[k], n, q[k + 1]), InsertAt(ls, l, k, n))
  {
    var q := Full(ls, l);
    var m', ls' := Attached(m, q[k], n, q[k + 1]), InsertAt(ls, l, k, n);
    InsertedDisjoint(ls, l, k, n);
    forall l' | 0 <= l' < |ls'|
      ensures Linked(m', Full(ls', l'))
    {
      if l' == l {
        LengthenedLinked(m, ls, l, k, n);
      } else {
        assert Full(ls', l') == Full(ls, l');
        OtherListKept(m, m', ls, l, l', k, k + 1);
      }
    }
  }

  lemma NotInFull(ls: Lists, l: int, n: Node)
    requires 0 <= l < |ls| && n.Elem? && !Holds(ls, n)
    ensures forall j | 0 <= j < |Full(ls, l)| :: Full(ls, l)[j] != n
  {
    forall j | 0 <= j < |Full(ls, l)|
      ensures Full(ls, l)[j] != n
    {
      if 0 < j < |Full(ls, l)| - 1 {
        assert Full(ls, l)[j] == ls[l][j - 1] && ls[l][j - 1] in ls[l];
      }
    }
  }

  lemma NoRepeats(ls: Lists, l: int)
    requires Disjoint(ls) && 0 <= l < |ls|
    ensures var q := Full(ls, l); forall i, j | 0 <= i < j < |q| :: q[i] != q[j]
  {
    var q := Full(ls, l);
    forall i, j | 0 <= i < j < |q|
      ensures q[i] != q[j]
    {
      if q[i] == q[j] { OnePlace(ls, l, i, l, j); }
    }
  }

  lemma LengthenedLinked(m: Links, ls: Lists, l: int, k: int, n: Node)
    requires Ok(m, ls) && 0 <= l < |ls| && 0 <= k <= |ls[l]| && n.Elem? && !Holds(ls, n)
    ensures var q := Full(ls, l); Linked(Attached(m, q[k], n, q[k + 1]), Full(InsertAt(ls, l, k, n), l))
  {
    var q := Full(ls, l);
    var m', q' := Attached(m, q[k], n, q[k + 1]), Full(InsertAt(ls, l, k, n), l);
    assert q' == q[..k + 1] + [n] + q[k + 1..];
    NotInFull(ls, l, n);
    NoRepeats(ls, l);
    assert Linked(m, q);
    hide Disjoint, Holds, AllLinked, Full, InsertAt;
    InsertedLinked(m, q, k, n);
  }

  lemma InsertedLinked(m: Links, q: seq<Node>, k: int, n: Node)
    requires Linked(m, q) && 0 <= k < |q| - 1
    requires forall j | 0 <= j < |q| :: q[j] != n
    requires forall i, j | 0 <= i < j < |q| :: q[i] != q[j]
    ensures Linked(Attached(m, q[k], n, q[k + 1]), q[..k + 1] + [n] + q[k + 1..])
  {
    var m', q' := Attached(m, q[k], n, q[k + 1]), q[..k + 1] + [n] + q[k + 1..];
    forall j | 0 <= j < |q'| - 1
      ensures LinkedAt(m', q', j)
    {
      if j < k {
        assert LinkedAt(m, q, j);
      } else if j > k + 1 {
        assert LinkedAt(m, q, j - 1);
      }
    }
  }

  lemma InsertedDisjoint(ls: Lists, l: int, k: int, n: Node)
    requires Disjoint(ls) && 0 <= l < |ls| && 0 <= k <= |ls[l]| && n.Elem? && !Holds(ls, n)
    ensures Disjoint(InsertAt(ls, l, k, n))
  {
    var ls': Lists := InsertAt(ls, l, k, n);
    forall a, i | 0 <= a < |ls'| && 0 <= i < |ls'[a]|
      ensures ls'[a][i].Elem?
              && ((a == l && i == k) || (ls'[a][i] == ls[a][if a == l && i > k then i - 1 else i] && ls'[a][i] != n))
    {
      if !(a == l && i == k) {
        var j := if a == l && i > k then i - 1 else i;
        assert ls'[a][i] == ls[a][j];
        assert ls[a][j] in ls[a];
      }
    }
  }

  // ----- clear(): a whole list goes to the end of another -----

  /** detach(first, last) followed by append(first, last) on list `d`. */
  function Spliced(m: Links, l: int, first: Node, last: Node, d: int): Links
    requires End(d) in m.prev
  {
    var tail := m.prev[End(d)];
    Links(m.next[Begin(l) := End(l)][tail := first][last := End(d)],
          m.prev[End(l) := Begin(l)][first := tail][End(d) := last])
  }

  function MovedAll(ls: Lists, l: int, d: int): Lists
    requires 0 <= l < |ls| && 0 <= d < |ls|
  {
    ls[l := []][d := ls[d] + ls[l]]
  }

  lemma SpliceOk(m: Links, ls: Lists, l: int, d: int)
    requires Ok(m, ls) && 0 <= l < |ls| && 0 <= d < |ls| && l != d && ls[l] != []
    ensures End(d) in m.prev && Ok(Spliced(m, l, ls[l][0], ls[l][|ls[l]| - 1], d), MovedAll(ls, l, d))
  {
    var qd, ql := Full(ls, d), Full(ls, l);
    assert LinkedAt(m, qd, |qd| - 2);
    var m', ls' := Spliced(m, l, ls[l][0], ls[l][|ls[l]| - 1], d), MovedAll(ls, l, d);
    MovedAllDisjoint(ls, l, d);
    forall l' | 0 <= l' < |ls'|
      ensures Linked(m', Full(ls', l'))
    {
      if l' == l {
        assert Full(ls', l) == [Begin(l), End(l)];
        assert Full(ls, d)[|qd| - 2] != Begin(l) && ls[l][|ls[l]| - 1] != Begin(l);
        if Full(ls, d)[|qd| - 2] == Begin(l) { OnePlace(ls, d, |qd| - 2, l, 0); }
        assert LinkedAt(m', Full(ls', l), 0);
      } else if l' == d {
        JoinedLinked(m, ls, l, d);
      } else {
        assert Full(ls', l') == Full(ls, l');
        ThirdListKept(m, ls, l, d, l');
      }
    }
  }

  lemma MovedAllDisjoint(ls: Lists, l: int, d: int)
    requires Disjoint(ls) && 0 <= l < |ls| && 0 <= d < |ls| && l != d
    ensures Disjoint(MovedAll(ls, l, d))
  {
    var ls': Lists := MovedAll(ls, l, d);
    forall a, i | 0 <= a < |ls'| && 0 <= i < |ls'[a]|
      ensures ls'[a][i] == if a == d && i >= |ls[d]| then ls[l][i - |ls[d]|] else ls[a][i]
    {
    }
  }

  lemma ThirdListKept(m: Links, ls: Lists, l: int, d: int, l': int)
    requires Ok(m, ls) && 0 <= l < |ls| && 0 <= d < |ls| && 0 <= l' < |ls| && l != d && l' != l && l' != d
             && ls[l] != [] && End(d) in m.prev
    ensures Linked(Spliced(m, l, ls[l][0], ls[l][|ls[l]| - 1], d), Full(ls, l'))
  {
    var m', q, ql, qd := Spliced(m, l, ls[l][0], ls[l][|ls[l]| - 1], d), Full(ls, l'), Full(ls, l), Full(ls, d);
    assert LinkedAt(m, qd, |qd| - 2);
    assert ql[1] == ls[l][0] && ql[|ql| - 2] == ls[l][|ls[l]| - 1];
    forall k | 0 <= k < |q| - 1
      ensures LinkedAt(m', q, k)
    {
      assert LinkedAt(m, q, k);
      if q[k] == qd[|qd| - 2] { OnePlace(ls, l', k, d, |qd| - 2); }
      if q[k] == ql[|ql| - 2] { OnePlace(ls, l', k, l, |ql| - 2); }
      if q[k + 1] == ql[1] { OnePlace(ls, l', k + 1, l, 1); }
    }
  }

  lemma JoinedLinked(m: Links, ls: Lists, l: int, d: int)
    requires Ok(m, ls) && 0 <= l < |ls| && 0 <= d < |ls| && l != d && ls[l] != [] && End(d) in m.prev
    ensures Linked(Spliced(m, l, ls[l][0], ls[l][|ls[l]| - 1], d), Full(MovedAll(ls, l, d), d))
  {
    var m', ql, qd := Spliced(m, l, ls[l][0], ls[l][|ls[l]| - 1], d), Full(ls, l), Full(ls, d);
    var q := Full(MovedAll(ls, l, d), d);
    var nd := |qd| - 1;
    assert LinkedAt(m, qd, nd - 1);
    assert ql[1] == ls[l][0] && ql[|ql| - 2] == ls[l][|ls[l]| - 1];
    forall k | 0 <= k < |q| - 1
      ensures LinkedAt(m', q, k)
    {
      if k < nd - 1 {
        assert q[k] == qd[k] && q[k + 1] == qd[k + 1] && LinkedAt(m, qd, k);
        if qd[k] == qd[nd - 1] { OnePlace(ls, d, k, d, nd - 1); }
        if qd[k] == ql[|ql| - 2] { OnePlace(ls, d, k, l, |ql| - 2); }
        if qd[k + 1] == ql[1] { OnePlace(ls, d, k + 1, l, 1); }
      } else if k == nd - 1 {
        assert q[k] == qd[nd - 1] && q[k + 1] == ql[1];
        if qd[nd - 1] == ql[|ql| - 2] { OnePlace(ls, d, nd - 1, l, |ql| - 2); }
      } else if k < |q| - 2 {
        var j := k - nd + 1;
        assert q[k] == ql[j] && q[k + 1] == ql[j + 1] && LinkedAt(m, ql, j);
        if ql[j] == qd[nd - 1] { OnePlace(ls, l, j, d, nd - 1); }
        if ql[j] == ql[|ql| - 2] { OnePlace(ls, l, j, l, |ql| - 2); }
        if ql[j + 1] == ql[1] { OnePlace(ls, l, j + 1, l, 1); }
      } else {
        assert q[k] == ql[|ql| - 2] && q[k + 1] == End(d);
      }
    }
  }

  // ----- Which elements the lists hold -----

  lemma RemovedHolds(ls: Lists, l: int, k: int, x: Node)
    requires Disjoint(ls) && 0 <= l < |ls| && 0 <= k < |ls[l]|
    ensures Holds(RemoveAt(ls, l, k), x) <==> Holds(ls, x) && x != ls[l][k]
  {
    RemovedDisjoint(ls, l, k);
    var ls': Lists := RemoveAt(ls, l, k);
    if Holds(ls', x) {
      var a :| 0 <= a < |ls'| && x in ls'[a];
      assert x in ls[a];
    }
    if Holds(ls, x) && x != ls[l][k] {
      var a :| 0 <= a < |ls| && x in ls[a];
      var i :| 0 <= i < |ls[a]| && ls[a][i] == x;
      assert ls'[a][if a == l && i > k then i - 1 else i] == x;
      assert x in ls'[a];
    }
  }

  lemma InsertedHolds(ls: Lists, l: int, k: int, n: Node, x: Node)
    requires 0 <= l < |ls| && 0 <= k <= |ls[l]|
    ensures Holds(InsertAt(ls, l, k, n), x) <==> Holds(ls, x) || x == n
  {
    var ls': Lists := InsertAt(ls, l, k, n);
    if Holds(ls', x) && x != n {
      var a :| 0 <= a < |ls'| && x in ls'[a];
      assert x in ls[a];
    }
    if Holds(ls, x) {
      var a :| 0 <= a < |ls| && x in ls[a];
      var i :| 0 <= i < |ls[a]| && ls[a][i] == x;
      assert ls'[a][if a == l && i >= k then i + 1 else i] == x;
      assert x in ls'[a];
    }
    if x == n {
      assert ls'[l][k] == n;
      assert n in ls'[l];
    }
  }

  lemma MovedAllHolds(ls: Lists, l: int, d: int, x: Node)
    requires 0 <= l < |ls| && 0 <= d < |ls| && l != d
    ensures Holds(MovedAll(ls, l, d), x) <==> Holds(ls, x)
  {
    var ls': Lists := MovedAll(ls, l, d);
    if Holds(ls', x) {
      var a :| 0 <= a < |ls'| && x in ls'[a];
      assert x in ls[a] || x in ls[l];
    }
    if Holds(ls, x) {
      var a :| 0 <= a < |ls| && x in ls[a];
      assert x in ls'[if a == l then d else a];
    }
  }
}
