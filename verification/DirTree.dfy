/**
 The directory table of the instruments database as a tree: rows refer to their parent row, the
 root has id 0 and the parent id -2, and no two rows share parent and name.

 `depth` witnesses that there is no cycle: it is the number of steps from a directory to the root.
 */
module DirTree {
  import opened Sets
  import opened DbPaths

  datatype Dir = Dir(parent: int, name: string)

  type Dirs = map<int, Dir>
  type Depths = map<int, nat>

  predicate Unique(dirs: Dirs) {
    forall x, y | x in dirs && y in dirs && dirs[x] == dirs[y] :: x == y
  }

  predicate RowOk(dirs: Dirs, depth: Depths, x: int)
    requires x in dirs && x in depth
  {
    && x > 0 && dirs[x].parent in dirs && dirs[x].parent in depth
    && depth[x] == depth[dirs[x].parent] + 1
    && DbName(dirs[x].name)
  }

  predicate Tree(dirs: Dirs, depth: Depths) {
    && depth.Keys == dirs.Keys
    && 0 in dirs && dirs[0].parent == -2 && depth[0] == 0
    && Unique(dirs)
    && forall x | x in dirs && x != 0 :: RowOk(dirs, depth, x)
  }

  // ----- Ancestors -----

  /** Directory x is a or inside a. */
  predicate Below(dirs: Dirs, depth: Depths, a: int, x: int)
    requires Tree(dirs, depth) && x in dirs
    decreases depth[x]
  {
    assert x != 0 ==> RowOk(dirs, depth, x);
    x == a || (x != 0 && Below(dirs, depth, a, dirs[x].parent))
  }

  /** The names on the way from the root to x. */
  function NamesTo(dirs: Dirs, depth: Depths, x: int): seq<string>
    requires Tree(dirs, depth) && x in dirs
    decreases depth[x]
  {
    assert x != 0 ==> RowOk(dirs, depth, x);
    if x == 0 then [] else NamesTo(dirs, depth, dirs[x].parent) + [dirs[x].name]
  }

  lemma {:induction false} NamesToLength(dirs: Dirs, depth: Depths, x: int)
    requires Tree(dirs, depth) && x in dirs
    ensures |NamesTo(dirs, depth, x)| == depth[x]
    ensures forall k | 0 <= k < depth[x] :: DbName(NamesTo(dirs, depth, x)[k])
    decreases depth[x]
  {
    if x != 0 {
      assert RowOk(dirs, depth, x);
      NamesToLength(dirs, depth, dirs[x].parent);
    }
  }

  lemma {:induction false} BelowDepth(dirs: Dirs, depth: Depths, a: int, x: int)
    requires Tree(dirs, depth) && x in dirs && Below(dirs, depth, a, x)
    ensures a in dirs && depth[a] <= depth[x] && (depth[a] == depth[x] ==> a == x)
    decreases depth[x]
  {
    if x != a {
      assert RowOk(dirs, depth, x);
      BelowDepth(dirs, depth, a, dirs[x].parent);
    }
  }

  /** Everything is inside the root. */
  lemma {:induction false} RootAbove(dirs: Dirs, depth: Depths, x: int)
    requires Tree(dirs, depth) && x in dirs
    ensures Below(dirs, depth, 0, x)
    decreases depth[x]
  {
    if x != 0 {
      assert RowOk(dirs, depth, x);
      RootAbove(dirs, depth, dirs[x].parent);
    }
  }

  lemma {:induction false} OneAncestorPerDepth(dirs: Dirs, depth: Depths, a: int, b: int, x: int)
    requires Tree(dirs, depth) && x in dirs && Below(dirs, depth, a, x) && Below(dirs, depth, b, x)
    requires a in dirs && b in dirs && depth[a] == depth[b]
    ensures a == b
    decreases depth[x]
  {
    BelowDepth(dirs, depth, a, x);
    BelowDepth(dirs, depth, b, x);
    if x != a && x != b {
      assert RowOk(dirs, depth, x);
      OneAncestorPerDepth(dirs, depth, a, b, dirs[x].parent);
    }
  }

  lemma {:induction false} BelowTransitive(dirs: Dirs, depth: Depths, a: int, b: int, x: int)
    requires Tree(dirs, depth) && x in dirs && b in dirs && Below(dirs, depth, a, b) && Below(dirs, depth, b, x)
    ensures Below(dirs, depth, a, x)
    decreases depth[x]
  {
    if x != b {
      assert RowOk(dirs, depth, x);
      BelowTransitive(dirs, depth, a, b, dirs[x].parent);
    }
  }

  // ----- Lookup -----

  ghost predicate HasChild(dirs: Dirs, p: int, name: string) {
    exists x :: x in dirs && dirs[x] == Dir(p, name)
  }

  /** SELECT dir_id FROM instr_dirs WHERE parent_dir_id=p AND dir_name=name, with -1 for no row. */
  ghost function Child(dirs: Dirs, p: int, name: string): (r: int)
    ensures HasChild(dirs, p, name) ==> r in dirs && dirs[r] == Dir(p, name)
    ensures !HasChild(dirs, p, name) ==> r == -1
  {
    if HasChild(dirs, p, name) then var x :| x in dirs && dirs[x] == Dir(p, name); x else -1
  }

  lemma ChildIs(dirs: Dirs, x: int)
    requires Unique(dirs) && x in dirs
    ensures Child(dirs, dirs[x].parent, dirs[x].name) == x
  {
    var d := dirs[x];
    assert d == Dir(d.parent, d.name);
    assert HasChild(dirs, d.parent, d.name);
  }

  ghost function Walk(dirs: Dirs, from: int, names: seq<string>): int
    decreases |names|
  {
    if names == [] then from else Walk(dirs, Child(dirs, from, names[0]), names[1..])
  }

  lemma {:induction false} WalkSnoc(dirs: Dirs, from: int, names: seq<string>, n: string)
    ensures Walk(dirs, from, names + [n]) == Child(dirs, Walk(dirs, from, names), n)
    decreases |names|
  {
    if names == [] {
      assert (names + [n])[1..] == [];
    } else {
      assert (names + [n])[1..] == names[1..] + [n];
      WalkSnoc(dirs, Child(dirs, from, names[0]), names[1..], n);
    }
  }

  /** Following names from the root finds the directory with exactly these names, or nothing. */
  lemma {:induction false} WalkFinds(dirs: Dirs, depth: Depths, names: seq<string>)
    requires Tree(dirs, depth)
    ensures var r := Walk(dirs, 0, names);
            r == -1 || (r in dirs && NamesTo(dirs, depth, r) == names)
    decreases |names|
  {
    if names != [] {
      var a, n := names[..|names| - 1], names[|names| - 1];
      assert names == a + [n];
      WalkFinds(dirs, depth, a);
      WalkSnoc(dirs, 0, a, n);
      ChildOfWalk(dirs, depth, Walk(dirs, 0, a), n);
    }
  }

  lemma ChildOfWalk(dirs: Dirs, depth: Depths, p: int, n: string)
    requires Tree(dirs, depth) && (p == -1 || p in dirs)
    ensures var r := Child(dirs, p, n);
            r == -1 || (r in dirs && r != 0 && dirs[r] == Dir(p, n) && p in dirs
                && NamesTo(dirs, depth, r) == NamesTo(dirs, depth, p) + [n])
  {
    var r := Child(dirs, p, n);
    if r != -1 && r != 0 {
      assert RowOk(dirs, depth, r);
    }
    if p in dirs { IdsNotNegative(dirs, depth, p); }
  }

  lemma IdsNotNegative(dirs: Dirs, depth: Depths, p: int)
    requires Tree(dirs, depth) && p in dirs
    ensures p >= 0
  {
    if p != 0 { assert RowOk(dirs, depth, p); }
  }

  /** Every directory is found by its names. */
  lemma {:induction false} WalkComplete(dirs: Dirs, depth: Depths, x: int)
    requires Tree(dirs, depth) && x in dirs
    ensures Walk(dirs, 0, NamesTo(dirs, depth, x)) == x
    decreases depth[x]
  {
    if x != 0 {
      assert RowOk(dirs, depth, x);
      var p := dirs[x].parent;
      WalkComplete(dirs, depth, p);
      WalkSnoc(dirs, 0, NamesTo(dirs, depth, p), dirs[x].name);
      ChildIs(dirs, x);
    }
  }

  /** A directory is inside another one exactly if its names begin with the other's. */
  lemma {:induction false} BelowIffPrefix(dirs: Dirs, depth: Depths, a: int, x: int)
    requires Tree(dirs, depth) && a in dirs && x in dirs
    ensures Below(dirs, depth, a, x) <==> a == x || StrictPrefix(NamesTo(dirs, depth, a), NamesTo(dirs, depth, x))
    decreases depth[x]
  {
    NamesToLength(dirs, depth, a);
    NamesToLength(dirs, depth, x);
    if x != a && x != 0 {
      assert RowOk(dirs, depth, x);
      var p := dirs[x].parent;
      BelowIffPrefix(dirs, depth, a, p);
      NamesToLength(dirs, depth, p);
      var na, np, nx := NamesTo(dirs, depth, a), NamesTo(dirs, depth, p), NamesTo(dirs, depth, x);
      if StrictPrefix(na, nx) {
        assert na == np[..|na|];
        if |na| == |np| {
          WalkComplete(dirs, depth, a);
          WalkComplete(dirs, depth, p);
        }
      }
      if a == p || StrictPrefix(na, np) {
        assert nx[..|na|] == np[..|na|];
      }
    }
  }

  // ----- Adding a directory -----

  lemma AddKeepsTree(dirs: Dirs, depth: Depths, x: int, p: int, name: string)
    requires Tree(dirs, depth) && x > 0 && x !in dirs && p in dirs && DbName(name) && !HasChild(dirs, p, name)
    ensures Tree(dirs[x := Dir(p, name)], depth[x := depth[p] + 1])
  {
    var dirs', depth' := dirs[x := Dir(p, name)], depth[x := depth[p] + 1];
    forall y | y in dirs' && y != 0
      ensures RowOk(dirs', depth', y)
    {
      if y != x { assert RowOk(dirs, depth, y); }
    }
  }

  /** All other directories keep their names. */
  lemma {:induction false} AddKeepsNames(dirs: Dirs, depth: Depths, x: int, p: int, name: string, y: int)
    requires Tree(dirs, depth) && x > 0 && x !in dirs && p in dirs && y in dirs
    requires Tree(dirs[x := Dir(p, name)], depth[x := depth[p] + 1])
    ensures NamesTo(dirs[x := Dir(p, name)], depth[x := depth[p] + 1], y) == NamesTo(dirs, depth, y)
    decreases depth[y]
  {
    if y != 0 {
      assert RowOk(dirs, depth, y);
      AddKeepsNames(dirs, depth, x, p, name, dirs[y].parent);
    }
  }

  // ----- Moving and renaming -----

  /** The depths after directory x got the parent p. */
  function MovedDepths(dirs: Dirs, depth: Depths, x: int, p: int): Depths
    requires Tree(dirs, depth) && x in dirs && p in dirs
  {
    map y | y in dirs ::
        if Below(dirs, depth, x, y) && depth[y] >= depth[x] then depth[y] - depth[x] + depth[p] + 1 else depth[y]
  }

  /** A new parent outside of the directory, and a name that is free there, keep the tree. */
  lemma MoveKeepsTree(dirs: Dirs, depth: Depths, x: int, p: int, name: string)
    requires Tree(dirs, depth) && x in dirs && x != 0 && p in dirs && DbName(name)
    requires !Below(dirs, depth, x, p) && !HasChild(dirs, p, name)
    ensures Tree(dirs[x := Dir(p, name)], MovedDepths(dirs, depth, x, p))
  {
    var dirs', depth' := dirs[x := Dir(p, name)], MovedDepths(dirs, depth, x, p);
    assert RowOk(dirs, depth, x);
    forall y | y in dirs' && y != 0
      ensures RowOk(dirs', depth', y)
    {
      assert RowOk(dirs, depth, y);
      if Below(dirs, depth, x, y) {
        BelowDepth(dirs, depth, x, y);
        if y != x { BelowDepth(dirs, depth, x, dirs[y].parent); }
      }
    }
  }

  /** If the new parent is inside the directory, there is no tree any more. */
  lemma MoveIntoItselfBreaks(dirs: Dirs, depth: Depths, x: int, p: int, name: string, depth': Depths)
    requires Tree(dirs, depth) && x in dirs && x != 0 && p in dirs && Below(dirs, depth, x, p)
    ensures !Tree(dirs[x := Dir(p, name)], depth')
  {
    var dirs' := dirs[x := Dir(p, name)];
    if Tree(dirs', depth') {
      assert RowOk(dirs', depth', x);
      BelowStays(dirs, depth, x, p, name, depth', p);
      BelowDepth(dirs', depth', x, p);
    }
  }

  lemma {:induction false} BelowStays(dirs: Dirs, depth: Depths, x: int, p: int, name: string, depth': Depths, y: int)
    requires Tree(dirs, depth) && x in dirs && y in dirs && Below(dirs, depth, x, y)
    requires Tree(dirs[x := Dir(p, name)], depth')
    ensures Below(dirs[x := Dir(p, name)], depth', x, y)
    decreases depth[y]
  {
    if y != x {
      assert RowOk(dirs, depth, y);
      BelowStays(dirs, depth, x, p, name, depth', dirs[y].parent);
    }
  }

  /** The directories inside x are now found behind the new place of x; all others stay. */
  lemma {:induction false} MovedNames(dirs: Dirs, depth: Depths, x: int, p: int, name: string, y: int)
    requires Tree(dirs, depth) && x in dirs && x != 0 && p in dirs && y in dirs
    requires !Below(dirs, depth, x, p) && Tree(dirs[x := Dir(p, name)], MovedDepths(dirs, depth, x, p))
    ensures var names, names' := NamesTo(dirs, depth, y),
            NamesTo(dirs[x := Dir(p, name)], MovedDepths(dirs, depth, x, p), y);
            if Below(dirs, depth, x, y)
            then depth[x] <= |names| && names' == NamesTo(dirs, depth, p) + [name] + names[depth[x]..]
            else names' == names
    decreases Below(dirs, depth, x, y), depth[y]
  {
    NamesToLength(dirs, depth, y);
    if y == x {
      MovedNames(dirs, depth, x, p, name, p);
      assert NamesTo(dirs, depth, y)[depth[x]..] == [];
    } else if y != 0 {
      assert RowOk(dirs, depth, y);
      var q := dirs[y].parent;
      MovedNames(dirs, depth, x, p, name, q);
      NamesToLength(dirs, depth, q);
      if Below(dirs, depth, x, y) {
        assert NamesTo(dirs, depth, y)[depth[x]..] == NamesTo(dirs, depth, q)[depth[x]..] + [dirs[y].name];
      }
    }
  }

  // ----- Removing directories -----

  /** Removing a directory of s removes all that is in it. */
  predicate Closed(dirs: Dirs, s: set<int>) {
    0 !in s && forall x | x in dirs && dirs[x].parent in s :: x in s
  }

  lemma RemoveKeepsTree(dirs: Dirs, depth: Depths, s: set<int>)
    requires Tree(dirs, depth) && Closed(dirs, s)
    ensures Tree(dirs - s, depth - s)
  {
    var dirs', depth' := dirs - s, depth - s;
    forall y | y in dirs' && y != 0
      ensures RowOk(dirs', depth', y)
    {
      assert RowOk(dirs, depth, y);
    }
  }

  lemma {:induction false} RemoveKeepsBelow(dirs: Dirs, depth: Depths, s: set<int>, a: int, x: int)
    requires Tree(dirs, depth) && Tree(dirs - s, depth - s) && x in dirs && x !in s
    ensures Below(dirs - s, depth - s, a, x) <==> Below(dirs, depth, a, x)
    decreases depth[x]
  {
    if x != 0 && x != a {
      assert RowOk(dirs, depth, x) && RowOk(dirs - s, depth - s, x);
      RemoveKeepsBelow(dirs, depth, s, a, dirs[x].parent);
    }
  }

  lemma {:induction false} RemoveKeepsNames(dirs: Dirs, depth: Depths, s: set<int>, x: int)
    requires Tree(dirs, depth) && Tree(dirs - s, depth - s) && x in dirs && x !in s
    ensures NamesTo(dirs - s, depth - s, x) == NamesTo(dirs, depth, x)
    decreases depth[x]
  {
    if x != 0 {
      assert RowOk(dirs, depth, x) && RowOk(dirs - s, depth - s, x);
      RemoveKeepsNames(dirs, depth, s, dirs[x].parent);
    }
  }

  /** The directories inside d. */
  function Inside(dirs: Dirs, depth: Depths, d: int): set<int>
    requires Tree(dirs, depth)
  {
    set x | x in dirs && x != d && Below(dirs, depth, d, x)
  }

  /** The directories inside the first i of the listed ones. */
  function InsideAny(dirs: Dirs, depth: Depths, ids: seq<int>, i: int): set<int>
    requires Tree(dirs, depth) && 0 <= i <= |ids|
  {
    set j, x | 0 <= j < i && x in Inside(dirs, depth, ids[j]) :: x
  }

  lemma InsideClosed(dirs: Dirs, depth: Depths, d: int)
    requires Tree(dirs, depth)
    ensures Closed(dirs, Inside(dirs, depth, d))
  {
    forall x | x in dirs && dirs[x].parent in Inside(dirs, depth, d)
      ensures x in Inside(dirs, depth, d)
    {
      IdsNotNegative(dirs, depth, dirs[x].parent);
      assert RowOk(dirs, depth, x);
      BelowDepth(dirs, depth, d, dirs[x].parent);
    }
  }

  lemma RootRenameKeepsTree(dirs: Dirs, depth: Depths, name: string)
    requires Tree(dirs, depth)
    ensures Tree(dirs[0 := Dir(-2, name)], depth)
  {
    var dirs' := dirs[0 := Dir(-2, name)];
    forall y | y in dirs' && y != 0
      ensures RowOk(dirs', depth, y)
    {
      assert RowOk(dirs, depth, y);
      IdsNotNegative(dirs, depth, dirs[y].parent);
    }
  }

  lemma NotInsideChild(dirs: Dirs, depth: Depths, x: int)
    requires Tree(dirs, depth) && x in dirs && x != 0
    ensures dirs[x].parent in dirs && !Below(dirs, depth, x, dirs[x].parent)
  {
    assert RowOk(dirs, depth, x);
    if Below(dirs, depth, x, dirs[x].parent) { BelowDepth(dirs, depth, x, dirs[x].parent); }
  }

  // ----- Subtrees of the children of a directory -----

  function Children(dirs: Dirs, d: int): set<int> {
    set x | x in dirs && x != 0 && dirs[x].parent == d
  }

  /** The list holds the children of d, each once. */
  predicate Lists(dirs: Dirs, ids: seq<int>, d: int) {
    Enumerates(ids, Children(dirs, d))
  }

  /** The first i listed directories. */
  function Listed(ids: seq<int>, i: int): set<int>
    requires 0 <= i <= |ids|
  {
    set j | 0 <= j < i :: ids[j]
  }

  /** Inside d is what is one of its children or inside one. */
  lemma InsideByChild(dirs: Dirs, depth: Depths, d: int, x: int)
    requires Tree(dirs, depth) && d in dirs && x in dirs
    ensures x in Inside(dirs, depth, d) <==> exists c :: c in Children(dirs, d) && Below(dirs, depth, c, x)
  {
    if x in Inside(dirs, depth, d) {
      var c := BranchTo(dirs, depth, d, x);
    }
    if c :| c in Children(dirs, d) && Below(dirs, depth, c, x) {
      assert RowOk(dirs, depth, c);
      BelowDepth(dirs, depth, c, x);
      assert Below(dirs, depth, d, c);
      BelowTransitive(dirs, depth, d, c, x);
    }
  }

  /** The child of d on the way to x. */
  function BranchTo(dirs: Dirs, depth: Depths, d: int, x: int): (c: int)
    requires Tree(dirs, depth) && x in Inside(dirs, depth, d)
    ensures c in Children(dirs, d) && Below(dirs, depth, c, x)
    decreases depth[x]
  {
    assert RowOk(dirs, depth, x);
    if dirs[x].parent == d then x else BranchTo(dirs, depth, d, dirs[x].parent)
  }

  lemma InsideSplit(dirs: Dirs, depth: Depths, d: int, ids: seq<int>)
    requires Tree(dirs, depth) && d in dirs && Lists(dirs, ids, d)
    ensures Inside(dirs, depth, d) == InsideAny(dirs, depth, ids, |ids|) + Children(dirs, d)
    ensures Children(dirs, d) == Listed(ids, |ids|)
  {
    forall x | x in dirs
      ensures x in Inside(dirs, depth, d) <==> x in InsideAny(dirs, depth, ids, |ids|) + Children(dirs, d)
    {
      InsideByChild(dirs, depth, d, x);
      if x in Inside(dirs, depth, d) {
        var c := BranchTo(dirs, depth, d, x);
        var j :| 0 <= j < |ids| && ids[j] == c;
        assert x != c ==> x in Inside(dirs, depth, ids[j]);
      }
    }
  }

  lemma InsideAnyClosed(dirs: Dirs, depth: Depths, ids: seq<int>, i: int)
    requires Tree(dirs, depth) && 0 <= i <= |ids|
    ensures Closed(dirs, InsideAny(dirs, depth, ids, i))
  {
    var s := InsideAny(dirs, depth, ids, i);
    forall x | x in dirs && dirs[x].parent in s
      ensures x in s
    {
      var j :| 0 <= j < i && dirs[x].parent in Inside(dirs, depth, ids[j]);
      InsideClosed(dirs, depth, ids[j]);
    }
  }

  /** Subtrees of different children have nothing in common. */
  lemma SubtreesDisjoint(dirs: Dirs, depth: Depths, d: int, ids: seq<int>, i: int, x: int)
    requires Tree(dirs, depth) && Lists(dirs, ids, d) && 0 <= i < |ids| && x in dirs && Below(dirs, depth, ids[i], x)
    ensures x !in InsideAny(dirs, depth, ids, i) && x !in Listed(ids, i)
  {
    forall j | 0 <= j < i
      ensures !Below(dirs, depth, ids[j], x)
    {
      if Below(dirs, depth, ids[j], x) {
        assert ids[j] in Children(dirs, d) && ids[i] in Children(dirs, d);
        assert RowOk(dirs, depth, ids[i]) && RowOk(dirs, depth, ids[j]);
        OneAncestorPerDepth(dirs, depth, ids[i], ids[j], x);
      }
    }
  }

  /** Removing the subtrees before the i-th leaves the i-th as it is. */
  lemma SubtreeStays(dirs: Dirs, depth: Depths, d: int, ids: seq<int>, i: int)
    requires Tree(dirs, depth) && Lists(dirs, ids, d) && 0 <= i < |ids|
    ensures var gone := InsideAny(dirs, depth, ids, i);
            && Tree(dirs - gone, depth - gone) && ids[i] in dirs - gone
            && Inside(dirs - gone, depth - gone, ids[i]) == Inside(dirs, depth, ids[i])
            && InsideAny(dirs, depth, ids, i + 1) == gone + Inside(dirs, depth, ids[i])
  {
    var gone := InsideAny(dirs, depth, ids, i);
    InsideAnyClosed(dirs, depth, ids, i);
    RemoveKeepsTree(dirs, depth, gone);
    assert ids[i] in Children(dirs, d);
    SubtreesDisjoint(dirs, depth, d, ids, i, ids[i]);
    forall x | x in dirs
      ensures x in Inside(dirs - gone, depth - gone, ids[i]) <==> x in Inside(dirs, depth, ids[i])
    {
      if Below(dirs, depth, ids[i], x) { SubtreesDisjoint(dirs, depth, d, ids, i, x); }
      if x !in gone { RemoveKeepsBelow(dirs, depth, gone, ids[i], x); }
    }
    InsideAnyNext(dirs, depth, ids, i);
  }

  lemma InsideAnyNext(dirs: Dirs, depth: Depths, ids: seq<int>, i: int)
    requires Tree(dirs, depth) && 0 <= i < |ids|
    ensures InsideAny(dirs, depth, ids, i + 1) == InsideAny(dirs, depth, ids, i) + Inside(dirs, depth, ids[i])
  {
    forall x
      ensures x in InsideAny(dirs, depth, ids, i + 1) <==>
                x in InsideAny(dirs, depth, ids, i) || x in Inside(dirs, depth, ids[i])
    {
      if x in InsideAny(dirs, depth, ids, i) {
        var j :| 0 <= j < i && x in Inside(dirs, depth, ids[j]);
        assert 0 <= j < i + 1;
      }
      if x in InsideAny(dirs, depth, ids, i + 1) {
        var j :| 0 <= j < i + 1 && x in Inside(dirs, depth, ids[j]);
      }
    }
  }

  lemma InsideAnyGrows(dirs: Dirs, depth: Depths, ids: seq<int>, i: int)
    requires Tree(dirs, depth) && 0 <= i < |ids|
    ensures InsideAny(dirs, depth, ids, i) <= InsideAny(dirs, depth, ids, |ids|)
    ensures Inside(dirs, depth, ids[i]) <= InsideAny(dirs, depth, ids, |ids|)
  {
    forall x | x in InsideAny(dirs, depth, ids, i)
      ensures x in InsideAny(dirs, depth, ids, |ids|)
    {
      var j :| 0 <= j < i && x in Inside(dirs, depth, ids[j]);
      assert 0 <= j < |ids|;
    }
  }

  // ----- The depth of a subtree -----

  /** With d at this level, nothing inside it is at a level beyond `max`. */
  predicate Fits(dirs: Dirs, depth: Depths, d: int, level: int, max: int)
    requires Tree(dirs, depth) && d in dirs
  {
    level <= max && forall x | x in Inside(dirs, depth, d) :: level + depth[x] - depth[d] <= max
  }

  predicate ChildrenFit(dirs: Dirs, depth: Depths, ids: seq<int>, i: int, level: int, max: int)
    requires Tree(dirs, depth) && 0 <= i <= |ids|
  {
    forall j | 0 <= j < i :: ids[j] in dirs && Fits(dirs, depth, ids[j], level, max)
  }

  lemma ChildrenFitStep(dirs: Dirs, depth: Depths, d: int, ids: seq<int>, i: int, level: int, max: int)
    requires Tree(dirs, depth) && Lists(dirs, ids, d) && 0 <= i < |ids| && ChildrenFit(dirs, depth, ids, i, level, max)
    ensures ids[i] in dirs
    ensures Fits(dirs, depth, ids[i], level, max) ==> ChildrenFit(dirs, depth, ids, i + 1, level, max)
    ensures !Fits(dirs, depth, ids[i], level, max) ==> !ChildrenFit(dirs, depth, ids, |ids|, level, max)
  {
    assert ids[i] in Children(dirs, d);
  }

  lemma FitsByChild(dirs: Dirs, depth: Depths, d: int, ids: seq<int>, level: int, max: int)
    requires Tree(dirs, depth) && d in dirs && Lists(dirs, ids, d) && level <= max
    ensures Fits(dirs, depth, d, level, max) <==> ChildrenFit(dirs, depth, ids, |ids|, level + 1, max)
    ensures ChildrenFit(dirs, depth, ids, 0, level + 1, max)
  {
    forall j | 0 <= j < |ids|
      ensures ids[j] in dirs && depth[ids[j]] == depth[d] + 1 && Inside(dirs, depth, ids[j]) <= Inside(dirs, depth, d)
              && ids[j] in Inside(dirs, depth, d)
    {
      assert ids[j] in Children(dirs, d);
      assert RowOk(dirs, depth, ids[j]);
      assert Below(dirs, depth, ids[j], ids[j]);
      InsideByChild(dirs, depth, d, ids[j]);
      forall x | x in Inside(dirs, depth, ids[j])
        ensures x in Inside(dirs, depth, d)
      {
        InsideByChild(dirs, depth, d, x);
      }
    }
    if ChildrenFit(dirs, depth, ids, |ids|, level + 1, max) {
      forall x | x in Inside(dirs, depth, d)
        ensures level + depth[x] - depth[d] <= max
      {
        var c := BranchTo(dirs, depth, d, x);
        var j :| 0 <= j < |ids| && ids[j] == c;
        assert Fits(dirs, depth, ids[j], level + 1, max);
        assert x == c || x in Inside(dirs, depth, c);
      }
    }
  }

  lemma FitsStays(dirs: Dirs, depth: Depths, d: int, ids: seq<int>, i: int, level: int, max: int)
    requires Tree(dirs, depth) && Lists(dirs, ids, d) && 0 <= i < |ids|
    ensures var gone := InsideAny(dirs, depth, ids, i);
            && Tree(dirs - gone, depth - gone) && ids[i] in dirs - gone && ids[i] in dirs
            && (Fits(dirs - gone, depth - gone, ids[i], level, max) <==> Fits(dirs, depth, ids[i], level, max))
  {
    SubtreeStays(dirs, depth, d, ids, i);
    forall x | x in Inside(dirs, depth, ids[i])
      ensures x !in InsideAny(dirs, depth, ids, i)
    {
      SubtreesDisjoint(dirs, depth, d, ids, i, x);
    }
  }

  // ----- A chain of directories -----

  /** Directories 1 .. n, each inside the one before. */
  ghost predicate IsChain(dirs: Dirs, depth: Depths, n: nat) {
    && Tree(dirs, depth) && depth.Keys == dirs.Keys && (forall x :: x in dirs <==> 0 <= x <= n)
    && (forall x | x in dirs :: ChainRow(dirs, depth, x))
  }

  predicate ChainRow(dirs: Dirs, depth: Depths, x: int)
    requires x in dirs && x in depth
  {
    depth[x] == x && (x > 0 ==> dirs[x] == Dir(x - 1, "a"))
  }

  /** Such tables come about by adding a directory to the last one, again and again. */
  lemma {:induction false} MakeChain(n: nat) returns (dirs: Dirs, depth: Depths)
    ensures IsChain(dirs, depth, n)
  {
    if n == 0 {
      dirs, depth := map[0 := Dir(-2, "/")], map[0 := 0];
    } else {
      hide IsChain;
      dirs, depth := MakeChain(n - 1);
      LongerChain(dirs, depth, n - 1);
      dirs, depth := dirs[n := Dir(n - 1, "a")], depth[n := n];
    }
  }

  lemma LongerChain(dirs: Dirs, depth: Depths, n: nat)
    requires IsChain(dirs, depth, n)
    ensures IsChain(dirs[n + 1 := Dir(n, "a")], depth[n + 1 := n + 1], n + 1)
  {
    LastIsEmpty(dirs, depth, n);
    assert ChainRow(dirs, depth, n);
    AddKeepsTree(dirs, depth, n + 1, n, "a");
    hide Tree;
    var dirs', depth' := dirs[n + 1 := Dir(n, "a")], depth[n + 1 := n + 1];
    forall x | x in dirs'
      ensures x in depth' && ChainRow(dirs', depth', x)
    {
      if x != n + 1 { assert ChainRow(dirs, depth, x); }
    }
  }

  lemma LastIsEmpty(dirs: Dirs, depth: Depths, n: nat)
    requires IsChain(dirs, depth, n)
    ensures !HasChild(dirs, n, "a")
  {
    forall x | x in dirs
      ensures dirs[x] != Dir(n, "a")
    {
      assert ChainRow(dirs, depth, x);
    }
  }

  lemma {:induction false} ChainBelow(dirs: Dirs, depth: Depths, n: nat, x: nat)
    requires IsChain(dirs, depth, n) && 1 <= x <= n
    ensures Below(dirs, depth, 1, x)
    decreases x
  {
    if x > 1 {
      ChainBelow(dirs, depth, n, x - 1);
      assert ChainRow(dirs, depth, x);
    }
  }

  /** The first directory of a chain has more than `max` levels inside exactly if the chain is longer than max + 1. */
  lemma ChainFits(dirs: Dirs, depth: Depths, n: nat, max: nat)
    requires IsChain(dirs, depth, n) && n >= 1
    ensures Fits(dirs, depth, 1, 0, max) <==> n <= max + 1
  {
    assert ChainRow(dirs, depth, 1);
    if n > max + 1 {
      ChainBelow(dirs, depth, n, n);
      assert ChainRow(dirs, depth, n);
      assert n in Inside(dirs, depth, 1);
    } else {
      forall x | x in Inside(dirs, depth, 1)
        ensures depth[x] - depth[1] <= max
      {
        assert ChainRow(dirs, depth, x);
      }
    }
  }
}
