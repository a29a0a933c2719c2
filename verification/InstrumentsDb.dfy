/**
 Model of the directory operations of src/db/InstrumentsDb.cpp. The two tables are maps from
 row id to row, and every SQL statement does to them what it means. An operation that throws
 still commits what it has done up to then.
 */
module InstrumentsDb {
  import opened Strings
  import opened Sets
  import opened DbPaths
  import opened DirTree

  datatype Instrument = Instrument(dir: int, name: string)

  type Instruments = map<int, Instrument>

  datatype Outcome =
    | Done
    | InvalidPath | InvalidName | NoParent | Unknown | Exists | InstrumentExists
    | IsRoot | IntoItself | NotEmpty | TooDeep

  const MAX_LEVEL := 1000

  ghost predicate HasInstrument(instrs: Instruments, d: int, name: string) {
    exists i :: i in instrs && instrs[i] == Instrument(d, name)
  }

  predicate InstrumentsOk(dirs: Dirs, instrs: Instruments) {
    && (forall i | i in instrs :: i > 0 && instrs[i].dir in dirs)
    && (forall i, j | i in instrs && j in instrs && instrs[i] == instrs[j] :: i == j)
    && (forall i, x | i in instrs && x in dirs :: dirs[x] != Dir(instrs[i].dir, instrs[i].name))
  }

  /** The directory that a path leads to, -1 for none. */
  ghost function Lookup(dirs: Dirs, path: string): int {
    if path == "" || path[0] != '/' then -1 else Walk(dirs, 0, Names(path))
  }

  lemma LookupNames(dirs: Dirs, depth: Depths, path: string)
    requires Tree(dirs, depth)
    ensures var r := Lookup(dirs, path); r == -1 || (r in dirs && NamesTo(dirs, depth, r) == Names(path))
  {
    WalkFinds(dirs, depth, Names(path));
  }

  /** Every directory has a path that leads to it. */
  lemma EveryDirectoryHasAPath(dirs: Dirs, depth: Depths, x: int)
    requires Tree(dirs, depth) && x in dirs
    ensures var path := PathOf(NamesTo(dirs, depth, x)); ProperPath(path) && Lookup(dirs, path) == x
  {
    NamesToLength(dirs, depth, x);
    PathLeadsAlong(NamesTo(dirs, depth, x));
    WalkComplete(dirs, depth, x);
  }

  /**
   The tests of MoveDirectory() on ids and path strings refuse exactly the destinations that are
   inside the directory.
   */
  lemma MoveTestIsExact(dirs: Dirs, depth: Depths, dir: string, dst: string)
    requires Tree(dirs, depth) && ProperPath(dir) && |dir| >= 2 && ProperPath(dst)
    requires Lookup(dirs, dir) != -1 && Lookup(dirs, dst) != -1
    ensures Lookup(dirs, dst) in dirs
    ensures (Lookup(dirs, dir) == Lookup(dirs, dst) || StartsInside(dir, dst)) <==>
            Below(dirs, depth, Lookup(dirs, dir), Lookup(dirs, dst))
  {
    LookupNames(dirs, depth, dir);
    LookupNames(dirs, depth, dst);
    BelowIffPrefix(dirs, depth, Lookup(dirs, dir), Lookup(dirs, dst));
    StartsInsideIffLonger(dir, dst);
  }

  /** A path of at least one name does not lead to the root, and its last name is that of the directory. */
  lemma LookupLast(dirs: Dirs, depth: Depths, dir: string)
    requires Tree(dirs, depth) && ProperPath(dir) && |dir| >= 2 && Lookup(dirs, dir) != -1
    ensures var x := Lookup(dirs, dir); x in dirs && x != 0 && dirs[x].name == ToDb(GetFileName(Trimmed(dir)))
  {
    LookupNames(dirs, depth, dir);
    ParentAndName(dir);
    var x, a, n := Lookup(dirs, dir), Names(GetParentDirectory(dir)), ToDb(GetFileName(Trimmed(dir)));
    assert NamesTo(dirs, depth, x) == a + [n];
    assert x != 0;
    assert RowOk(dirs, depth, x);
    assert NamesTo(dirs, depth, x)[|a|] == n;
    assert NamesTo(dirs, depth, x) == NamesTo(dirs, depth, dirs[x].parent) + [dirs[x].name];
  }

  lemma DbNamesCons(n: string, rest: seq<string>)
    ensures DbNames([n] + rest) == [ToDb(n)] + DbNames(rest)
  {
  }

  lemma WalkStep(dirs: Dirs, id: int, path: string, i: nat)
    requires i < |path|
    ensures var j := Find(path, i);
            Walk(dirs, id, DbNames(SplitFrom(path, i))) ==
            if j == -1 then Child(dirs, id, ToDb(path[i..]))
                else Walk(dirs, Child(dirs, id, ToDb(path[i..j])), DbNames(SplitFrom(path, j + 1)))
  {
    hide Find, SplitFrom, DbNames, ToDb, Child;
    SplitStep(path, i);
    var j := Find(path, i);
    if j == -1 {
      assert [path[i..]] == [path[i..]] + [];
      DbNamesCons(path[i..], []);
      NoNames();
      WalkCons(dirs, id, ToDb(path[i..]), []);
    } else {
      DbNamesCons(path[i..j], SplitFrom(path, j + 1));
      WalkCons(dirs, id, ToDb(path[i..j]), DbNames(SplitFrom(path, j + 1)));
    }
  }

  lemma NoNames()
    ensures DbNames([]) == []
  {
  }

  lemma WalkCons(dirs: Dirs, id: int, n: string, rest: seq<string>)
    ensures Walk(dirs, id, [n] + rest) == Walk(dirs, Child(dirs, id, n), rest)
  {
    assert ([n] + rest)[1..] == rest;
  }

  class Database {
    var dirs: Dirs
    var instruments: Instruments
    var nextDir: int  // the next id of the directory table
    ghost var depth: Depths

    ghost predicate Valid()
      reads this
    {
      && Tree(dirs, depth)
      && InstrumentsOk(dirs, instruments)
      && nextDir > 0 && forall x | x in dirs :: x < nextDir
    }

    constructor ()
      ensures Valid() && dirs == map[0 := Dir(-2, "/")] && instruments == map[]
    {
      dirs, instruments, nextDir, depth := map[0 := Dir(-2, "/")], map[], 1, map[0 := 0];
    }

    // ----- Lookup -----

    method SelectDirectory(p: int, name: string) returns (id: int)
      requires Valid()
      ensures id == Child(dirs, p, name)
    {
      if x :| x in dirs && dirs[x] == Dir(p, name) {
        ChildIs(dirs, x);
        id := x;
      } else {
        id := -1;
      }
    }

    method GetChildId(p: int, name: string) returns (id: int)
      requires Valid()
      ensures id == Child(dirs, p, ToDb(name))
    {
      var n := ToDbName(name);
      id := SelectDirectory(p, n);
    }

    method GetInstrumentId(d: int, name: string) returns (id: int)
      requires Valid()
      ensures id != -1 <==> d != -1 && name != "" && HasInstrument(instruments, d, ToDb(name))
      ensures id != -1 ==> id in instruments && instruments[id] == Instrument(d, ToDb(name))
    {
      if d == -1 || name == "" {
        return -1;
      }
      var n := ToDbName(name);
      if i :| i in instruments && instruments[i] == Instrument(d, n) {
        id := i;
      } else {
        id := -1;
      }
    }

    method GetDirectoryId(path: string) returns (ok: bool, id: int)
      requires Valid()
      ensures ok <==> !DoubleSlash(path)
      ensures ok ==> id == Lookup(dirs, path)
    {
      ok := CheckPathName(path);
      if !ok {
        return false, -1;
      }
      if path == "" || path[0] != '/' {
        return true, -1;
      } else if |path| == 1 {
        EmptySplit(path);
        NoNames();
        return true, 0;
      }
      hide Find, SplitFrom, Walk, Child, DbNames, DoubleSlash, ToDb;
      id := 0;
      var i := 1;
      var j := Find(path, i);
      while j != -1
        invariant 0 < i < |path| && j == Find(path, i)
        invariant Walk(dirs, 0, Names(path)) == Walk(dirs, id, DbNames(SplitFrom(path, i)))
        decreases |path| - i
      {
        WalkStep(dirs, id, path, i);
        id := GetChildId(id, path[i..j]);
        i := j + 1;
        if i >= |path| {
          EmptySplit(path);
          NoNames();
          WalkNothing(dirs, id);
          return true, id;
        }
        j := Find(path, i);
      }
      WalkStep(dirs, id, path, i);
      id := GetChildId(id, path[i..]);
    }

    // ----- AddDirectory() -----

    method AddDirectory(dir: string) returns (r: Outcome)
      requires Valid()
      modifies this`dirs, this`nextDir, this`depth
      ensures Valid()
      ensures r.Done? <==> old(CanAdd(dir))
      ensures r in {Done, InvalidPath, NoParent, Unknown, Exists, InstrumentExists}
      ensures r.InvalidPath? ==> DoubleSlash(dir)
      ensures r.NoParent? ==> !ProperPath(dir) || |dir| < 2
      ensures r.Unknown? ==> Lookup(dirs, GetParentDirectory(dir)) == -1
      ensures r.Exists? ==> HasChild(dirs, Lookup(dirs, GetParentDirectory(dir)), ToDb(GetFileName(Trimmed(dir))))
      ensures r.InstrumentExists? ==>
                HasInstrument(instruments, Lookup(dirs, GetParentDirectory(dir)), ToDb(GetFileName(Trimmed(dir))))
      ensures r.Done? ==>
                && dirs == old(dirs)[old(nextDir) := Dir(old(Lookup(dirs, GetParentDirectory(dir))),
                    ToDb(GetFileName(Trimmed(dir))))]
                && Lookup(dirs, dir) == old(nextDir) && old(nextDir) !in old(dirs)
      ensures !r.Done? ==> dirs == old(dirs)
    {
      hide Find, RFind, SplitFrom, Names, Walk, Child, NamesTo, ToDb, InstrumentsOk, GetFileName;
      var ok := CheckPathName(dir);
      if !ok {
        return InvalidPath;
      }
      var parentDir := GetParentDirectory(dir);
      var name := GetFileName(Trimmed(dir));
      if parentDir == "" || name == "" {
        if ProperPath(dir) && |dir| >= 2 { ParentAndName(dir); }
        return NoParent;
      }
      ParentAndName(dir);
      var id, id2;
      ok, id := GetDirectoryId(parentDir);
      if !ok {
        return InvalidPath;
      }
      if id == -1 {
        return Unknown;
      }
      id2 := GetChildId(id, name);
      LookupNames(dirs, depth, parentDir);
      ChildOfWalk(dirs, depth, id, ToDb(name));
      if id2 != -1 {
        return Exists;
      }
      id2 := GetInstrumentId(id, name);
      if id2 != -1 {
        return InstrumentExists;
      }
      var dbName := ToDbName(name);
      AddKeepsAll(dirs, depth, instruments, nextDir, id, dbName, dir);
      dirs := dirs[nextDir := Dir(id, dbName)];
      depth := depth[nextDir := depth[id] + 1];
      nextDir := nextDir + 1;
      return Done;
    }

    // ----- RenameDirectory() -----

    method RenameDirectory(dir: string, name: string) returns (r: Outcome)
      requires Valid()
      modifies this`dirs, this`depth
      ensures Valid()
      ensures r.Done? <==> old(CanRename(dir, name))
      ensures r in {Done, InvalidName, InvalidPath, Unknown, Exists, InstrumentExists}
      ensures r.InvalidName? ==> name == ""
      ensures r.InvalidPath? ==> DoubleSlash(dir)
      ensures r.Unknown? ==> Lookup(dirs, dir) == -1
      ensures r.Exists? ==> var x := Lookup(dirs, dir); x in dirs && HasChild(dirs, dirs[x].parent, ToDb(name))
      ensures r.InstrumentExists? ==>
                var x := Lookup(dirs, dir); x in dirs && HasInstrument(instruments, dirs[x].parent, ToDb(name))
      ensures r.Done? ==> var x := old(Lookup(dirs, dir));
                          x in old(dirs) && dirs == old(dirs)[x := Dir(old(dirs)[x].parent, ToDb(name))]
      ensures !r.Done? ==> dirs == old(dirs)
    {
      LookupProper(dirs, depth, dir);
      hide Find, SplitFrom, Names, Walk, DoubleSlash, Tree, InstrumentsOk, HasChild, HasInstrument;
      if name == "" {
        return InvalidName;
      }
      var dbName := ToDbName(name);
      var ok, id := GetDirectoryId(dir);
      if !ok {
        return InvalidPath;
      }
      if id == -1 {
        return Unknown;
      }
      ToDbRoundTrip(name);
      r := RenameRow(id, dbName);
    }

    /** The part of RenameDirectory() that deals with the tables. */
    method RenameRow(id: int, dbName: string) returns (r: Outcome)
      requires Valid() && id in dirs && DbName(dbName) && ToDb(dbName) == dbName
      modifies this`dirs, this`depth
      ensures Valid()
      ensures r.Done? <==>
                old(!HasChild(dirs, dirs[id].parent, dbName) && !HasInstrument(instruments, dirs[id].parent, dbName))
      ensures r in {Done, Exists, InstrumentExists}
      ensures r.Exists? ==> old(HasChild(dirs, dirs[id].parent, dbName))
      ensures r.InstrumentExists? ==> old(HasInstrument(instruments, dirs[id].parent, dbName))
      ensures r.Done? ==> dirs == old(dirs)[id := Dir(old(dirs)[id].parent, dbName)]
      ensures !r.Done? ==> dirs == old(dirs)
    {
      hide Child, Below, MovedDepths;
      var parent := dirs[id].parent;
      if id == 0 {
        RootRenameKeepsTree(dirs, depth, dbName);
      } else {
        NotInsideChild(dirs, depth, id);
        IdsNotNegative(dirs, depth, parent);
      }
      var id2 := GetChildId(parent, dbName);
      if HasChild(dirs, parent, dbName) { IdsNotNegative(dirs, depth, id2); }
      if id2 != -1 {
        return Exists;
      }
      id2 := GetInstrumentId(parent, dbName);
      if id2 != -1 {
        return InstrumentExists;
      }
      if id != 0 {
        MoveKeepsAll(dirs, depth, instruments, id, parent, dbName);
        depth := MovedDepths(dirs, depth, id, parent);
      }
      dirs := dirs[id := Dir(parent, dbName)];
      return Done;
    }

    /** When a directory can be renamed: its parent has nothing of this name yet. The root can be renamed, too. */
    ghost predicate CanRename(dir: string, name: string)
      reads this
    {
      && name != "" && !DoubleSlash(dir)
      && var x := Lookup(dirs, dir);
      x in dirs && !HasChild(dirs, dirs[x].parent, ToDb(name))
          && !HasInstrument(instruments, dirs[x].parent, ToDb(name))
    }

    // ----- MoveDirectory() -----

    method MoveDirectory(dir: string, dst: string) returns (r: Outcome)
      requires Valid()
      modifies this`dirs, this`depth
      ensures Valid()
      ensures r.Done? <==> old(CanMove(dir, dst))
      ensures r in {Done, IsRoot, NoParent, InvalidPath, Unknown, IntoItself, Exists, InstrumentExists}
      ensures r.IsRoot? ==> dir == "/"
      ensures r.NoParent? ==> GetParentDirectory(dir) == ""
      ensures r.InvalidPath? ==> DoubleSlash(dir) || DoubleSlash(dst)
      ensures r.Unknown? ==> Lookup(dirs, dir) == -1 || Lookup(dirs, dst) == -1
      ensures r.IntoItself? ==> Lookup(dirs, dst) in dirs && Below(dirs, depth, Lookup(dirs, dir), Lookup(dirs, dst))
      ensures r.Exists? ==>
                var x := Lookup(dirs, dir); x in dirs && HasChild(dirs, Lookup(dirs, dst), dirs[x].name)
      ensures r.InstrumentExists? ==>
                var x := Lookup(dirs, dir); x in dirs && HasInstrument(instruments, Lookup(dirs, dst), dirs[x].name)
      ensures r.Done? ==>
                && var x, d := old(Lookup(dirs, dir)), old(Lookup(dirs, dst));
                && x in old(dirs) && d in old(dirs) && dirs == old(dirs)[x := Dir(d, old(dirs)[x].name)]
                && depth == MovedDepths(old(dirs), old(depth), x, d)
      ensures !r.Done? ==> dirs == old(dirs) && depth == old(depth)
    {
      assert Tree(dirs, depth);
      hide Find, RFind, SplitFrom, Names, Walk, Child, DoubleSlash, StrictPrefix, Below, MovedDepths, ToDb, HasChild,
          HasInstrument, Lookup, GetFileName, Valid;
      if dir == "/" {
        return IsRoot;
      }
      if GetParentDirectory(dir) == "" {
        return NoParent;
      }
      var ok, id, dstId;
      LookupProper(dirs, depth, dir);
      LookupProper(dirs, depth, dst);
      ok, id := GetDirectoryId(dir);
      if !ok {
        return InvalidPath;
      }
      if id == -1 {
        return Unknown;
      }
      ok, dstId := GetDirectoryId(dst);
      if !ok {
        return InvalidPath;
      }
      if dstId == -1 {
        return Unknown;
      }
      MoveFacts(dirs, depth, dir, dst);
      if id == dstId {
        return IntoItself;
      }
      var d := WithSlash(dir);
      if StrictPrefix(d, dst) {
        return IntoItself;
      }
      r := MoveRow(id, dstId, GetFileName(d[..|d| - 1]));
    }

    /** The part of MoveDirectory() that deals with the tables. */
    method MoveRow(id: int, dstId: int, name: string) returns (r: Outcome)
      requires Valid() && id in dirs && id != 0 && dstId in dirs && !Below(dirs, depth, id, dstId)
      requires name != "" && dirs[id].name == ToDb(name)
      modifies this`dirs, this`depth
      ensures Valid()
      ensures r.Done? <==>
              old(!HasChild(dirs, dstId, dirs[id].name) && !HasInstrument(instruments, dstId, dirs[id].name))
      ensures r in {Done, Exists, InstrumentExists}
      ensures r.Exists? ==> old(HasChild(dirs, dstId, dirs[id].name))
      ensures r.InstrumentExists? ==> old(HasInstrument(instruments, dstId, dirs[id].name))
      ensures r.Done? ==>
                && dirs == old(dirs)[id := Dir(dstId, old(dirs)[id].name)]
                && depth == MovedDepths(old(dirs), old(depth), id, dstId)
      ensures !r.Done? ==> dirs == old(dirs) && depth == old(depth)
    {
      hide MovedDepths, Below;
      IdsNotNegative(dirs, depth, dstId);
      ChildOfWalk(dirs, depth, dstId, ToDb(name));
      assert RowOk(dirs, depth, id);
      var id2 := GetChildId(dstId, name);
      if id2 != -1 {
        return Exists;
      }
      if HasChild(dirs, dstId, ToDb(name)) { IdsNotNegative(dirs, depth, id2); }
      id2 := GetInstrumentId(dstId, name);
      if id2 != -1 {
        return InstrumentExists;
      }
      MoveKeepsAll(dirs, depth, instruments, id, dstId, dirs[id].name);
      depth := MovedDepths(dirs, depth, id, dstId);
      dirs := dirs[id := Dir(dstId, dirs[id].name)];
      return Done;
    }

    /** When a directory can be moved: not into itself, and the destination has nothing of its name. */
    ghost predicate CanMove(dir: string, dst: string)
      requires Tree(dirs, depth)
      reads this
    {
      && ProperPath(dir) && |dir| >= 2 && !DoubleSlash(dst)
      && var x, d := Lookup(dirs, dir), Lookup(dirs, dst);
      && x in dirs && d in dirs && !Below(dirs, depth, x, d)
      && !HasChild(dirs, d, dirs[x].name) && !HasInstrument(instruments, d, dirs[x].name)
    }

    // ----- RemoveDirectory() -----

    /** SELECT dir_id FROM instr_dirs WHERE parent_dir_id=d AND dir_id!=0, in any order. */
    method GetDirectoryIDs(d: int) returns (ids: seq<int>)
      ensures Lists(dirs, ids, d)
    {
      ids := Listing(Children(dirs, d));
    }

    method IsDirectoryEmpty(d: int) returns (empty: bool)
      ensures empty <==> EmptyDir(dirs, instruments, d)
    {
      if x :| x in dirs && dirs[x].parent == d {
        empty := false;
      } else if i :| i in instruments && instruments[i].dir == d {
        empty := false;
      } else {
        empty := true;
      }
    }

    method RemoveAllDirectories(d: int) returns (r: Outcome)
      requires Valid() && d in dirs
      modifies this`dirs, this`depth
      ensures Valid()
      ensures r.Done? <==> forall c | c in Children(old(dirs), d) :: EmptyDir(old(dirs), instruments, c)
      ensures r.Done? ==> dirs == old(dirs) - Children(old(dirs), d) && depth == old(depth) - Children(old(dirs), d)
      ensures !r.Done? ==> dirs == old(dirs) && depth == old(depth)
    {
      var ids := GetDirectoryIDs(d);
      for i := 0 to |ids|
        invariant dirs == old(dirs) && depth == old(depth)
        invariant forall j | 0 <= j < i :: EmptyDir(dirs, instruments, ids[j])
      {
        var empty := IsDirectoryEmpty(ids[i]);
        if !empty {
          assert ids[i] in Children(dirs, d);
          return NotEmpty;
        }
      }
      assert forall c | c in Children(dirs, d) :: EmptyDir(dirs, instruments, c);
      RemoveKeepsAll(dirs, depth, instruments, Children(dirs, d));
      hide EmptyDir, Lists, Tree, InstrumentsOk;
      depth := depth - Children(dirs, d);
      dirs := dirs - Children(dirs, d);
      return Done;
    }

    method RemoveAllInstruments(d: int)
      requires Valid()
      modifies this`instruments
      ensures Valid() && instruments == old(instruments) - InstrumentsIn(old(instruments), {d})
    {
      hide Tree;
      instruments := instruments - InstrumentsIn(instruments, {d});
    }

    /** Exactly the directories inside d, and the instruments in d and in them, are gone. */
    ghost predicate ContentRemoved(dirs0: Dirs, depth0: Depths, instrs0: Instruments, d: int)
      requires Tree(dirs0, depth0)
      reads this
    {
      var inside := Inside(dirs0, depth0, d);
      && dirs == dirs0 - inside && depth == depth0 - inside
      && instruments == instrs0 - InstrumentsIn(instrs0, inside + {d})
    }

    /** What RemoveDirectoryContent() has done after the subtrees of the first i children. */
    ghost predicate EmptiedSo(dirs0: Dirs, depth0: Depths, instrs0: Instruments, ids: seq<int>, i: int)
      requires Tree(dirs0, depth0) && 0 <= i <= |ids|
      reads this
    {
      var gone := InsideAny(dirs0, depth0, ids, i);
      && dirs == dirs0 - gone && depth == depth0 - gone
      && instruments == instrs0 - InstrumentsIn(instrs0, gone + Listed(ids, i))
    }

    method RemoveDirectoryContent(d: int, level: int) returns (r: Outcome)
      requires Valid() && d in dirs && level >= 0
      modifies this`dirs, this`depth, this`instruments
      ensures Valid()
      ensures r.Done? <==> Fits(old(dirs), old(depth), d, level, MAX_LEVEL)
      ensures r.Done? ==> ContentRemoved(old(dirs), old(depth), old(instruments), d)
      ensures !r.Done? ==> PartlyRemoved(old(dirs), old(depth), old(instruments), d, r)
      decreases MAX_LEVEL + 1 - level, 2
    {
      if level > MAX_LEVEL {
        return TooDeep;
      }
      var ids := GetDirectoryIDs(d);
      AllEmptied(dirs, depth, instruments, d, ids);
      hide Tree, InstrumentsOk, Inside, InsideAny, InstrumentsIn, Fits, Lists, Children, EmptyDir, Shrunk, Listed;
      r := RemoveSubtrees(d, level, ids);
      if r.Done? {
        r := RemoveAllDirectories(d);
        RemoveAllInstruments(d);
      }
    }

    /** The loop of RemoveDirectoryContent() over the children of d. */
    method RemoveSubtrees(d: int, level: int, ids: seq<int>) returns (r: Outcome)
      requires Valid() && d in dirs && 0 <= level <= MAX_LEVEL && Lists(dirs, ids, d)
      modifies this`dirs, this`depth, this`instruments
      ensures Valid()
      ensures r.Done? <==> Fits(old(dirs), old(depth), d, level, MAX_LEVEL)
      ensures r.Done? ==> EmptiedSo(old(dirs), old(depth), old(instruments), ids, |ids|)
      ensures !r.Done? ==> PartlyRemoved(old(dirs), old(depth), old(instruments), d, r)
      decreases MAX_LEVEL + 1 - level, 1
    {
      ghost var dirs0, depth0, instrs0 := dirs, depth, instruments;
      NothingEmptied(ids);
      FitsByChild(dirs0, depth0, d, ids, level, MAX_LEVEL);
      hide PartlyRemoved, ChildrenFit, EmptiedSo, Valid, Tree, InstrumentsOk, Inside, InsideAny, InstrumentsIn, Fits,
          Lists, Children, EmptyDir, Shrunk, Listed;
      var i := 0;
      r := Done;
      while i < |ids| && r.Done?
        invariant 0 <= i <= |ids| && Valid()
        invariant r.Done? ==>
                    && EmptiedSo(dirs0, depth0, instrs0, ids, i)
                    && ChildrenFit(dirs0, depth0, ids, i, level + 1, MAX_LEVEL)
        invariant !r.Done? ==>
                    && PartlyRemoved(dirs0, depth0, instrs0, d, r)
                    && !ChildrenFit(dirs0, depth0, ids, |ids|, level + 1, MAX_LEVEL)
        decreases |ids| - i
      {
        ChildrenFitStep(dirs0, depth0, d, ids, i, level + 1, MAX_LEVEL);
        r := RemoveSubtree(d, level, ids, i, dirs0, depth0, instrs0);
        i := i + 1;
      }
    }

    /** The removal stopped at a directory that is too deep; only rows inside d are affected. */
    ghost predicate PartlyRemoved(dirs0: Dirs, depth0: Depths, instrs0: Instruments, d: int, r: Outcome)
      requires Tree(dirs0, depth0)
      reads this
    {
      && r.TooDeep?
      && Shrunk(dirs0, dirs, Inside(dirs0, depth0, d))
      && Shrunk(instrs0, instruments, InstrumentsIn(instrs0, Inside(dirs0, depth0, d) + {d}))
    }

    /** One round of that loop. */
    method RemoveSubtree(d: int, level: int, ids: seq<int>, i: int, ghost dirs0: Dirs, ghost depth0: Depths,
        ghost instrs0: Instruments) returns (r: Outcome)
      requires Valid() && Tree(dirs0, depth0) && d in dirs0 && 0 <= level <= MAX_LEVEL && Lists(dirs0, ids, d)
               && 0 <= i < |ids|
      requires ids[i] in dirs0 && EmptiedSo(dirs0, depth0, instrs0, ids, i)
      modifies this`dirs, this`depth, this`instruments
      ensures Valid()
      ensures r.Done? <==> Fits(dirs0, depth0, ids[i], level + 1, MAX_LEVEL)
      ensures r.Done? ==> EmptiedSo(dirs0, depth0, instrs0, ids, i + 1)
      ensures !r.Done? ==> PartlyRemoved(dirs0, depth0, instrs0, d, r)
      decreases MAX_LEVEL + 1 - level, 0
    {
      FitsStays(dirs0, depth0, d, ids, i, level + 1, MAX_LEVEL);
      SubtreeStays(dirs0, depth0, d, ids, i);
      MoreEmptied(dirs0, depth0, instrs0, d, ids, i);
      hide Tree, InstrumentsOk, Inside, InsideAny, InstrumentsIn, Fits, Lists, Children, EmptyDir, Shrunk, Listed;
      r := RemoveDirectoryContent(ids[i], level + 1);
      if !r.Done? {
        PartlyEmptied(dirs0, depth0, instrs0, dirs, instruments, d, ids, i);
      }
    }

    /** RemoveDirectory() for an id: only an empty directory is removed. */
    method RemoveEmpty(d: int) returns (r: Outcome)
      requires Valid() && d in dirs && d != 0
      modifies this`dirs, this`depth
      ensures Valid()
      ensures r.Done? <==> EmptyDir(old(dirs), instruments, d)
      ensures r.Done? || r.NotEmpty?
      ensures r.Done? ==> dirs == old(dirs) - {d} && depth == old(depth) - {d}
      ensures !r.Done? ==> dirs == old(dirs) && depth == old(depth)
    {
      var empty := IsDirectoryEmpty(d);
      if !empty {
        return NotEmpty;
      }
      assert forall c | c in {d} :: EmptyDir(dirs, instruments, c);
      RemoveKeepsAll(dirs, depth, instruments, {d});
      hide Tree, EmptyDir, InstrumentsOk;
      depth := depth - {d};
      dirs := dirs - {d};
      return Done;
    }

    /** RemoveDirectory() for a path. */
    method RemoveDirectory(dir: string, force: bool) returns (r: Outcome)
      requires Valid()
      modifies this`dirs, this`depth, this`instruments
      ensures Valid()
      ensures r.Done? <==> old(CanRemove(dir, force))
      ensures r in {Done, InvalidPath, Unknown, IsRoot, NotEmpty, TooDeep}
      ensures r.InvalidPath? ==> DoubleSlash(dir)
      ensures r.Unknown? ==> Lookup(dirs, dir) == -1
      ensures r.IsRoot? ==> Lookup(dirs, dir) == 0
      ensures (r.NotEmpty? ==> !force) && (r.TooDeep? ==> force)
      ensures r.Done? ==> SubtreeRemoved(old(dirs), old(depth), old(instruments), old(Lookup(dirs, dir)))
      ensures r.TooDeep? ==> PartlyRemoved(old(dirs), old(depth), old(instruments), old(Lookup(dirs, dir)), r)
      ensures !r.Done? && !r.TooDeep? ==> dirs == old(dirs) && instruments == old(instruments)
    {
      LookupHasParent(dirs, depth, dir);
      assert Tree(dirs, depth);
      hide Tree, InstrumentsOk, Inside, InstrumentsIn, Fits, EmptyDir, Shrunk, Lookup, DoubleSlash, GetParentDirectory;
      var ok, id := GetDirectoryId(dir);
      if !ok {
        return InvalidPath;
      }
      if id == -1 {
        return Unknown;
      }
      if id == 0 {
        return IsRoot;
      }
      if GetParentDirectory(dir) == "" {
        assert false;
      }
      r := RemoveById(id, force);
    }

    method RemoveById(id: int, force: bool) returns (r: Outcome)
      requires Valid() && id in dirs && id != 0
      modifies this`dirs, this`depth, this`instruments
      ensures Valid()
      ensures r.Done? <==> old(if force then Fits(dirs, depth, id, 0, MAX_LEVEL) else EmptyDir(dirs, instruments, id))
      ensures r.Done? || r == if force then TooDeep else NotEmpty
      ensures r.Done? ==> SubtreeRemoved(old(dirs), old(depth), old(instruments), id)
      ensures r.TooDeep? ==> PartlyRemoved(old(dirs), old(depth), old(instruments), id, r)
      ensures !r.Done? && !r.TooDeep? ==> dirs == old(dirs) && instruments == old(instruments)
    {
      if force {
        RemovalFacts(dirs, depth, instruments, id);
        hide Tree, InstrumentsOk, Inside, InstrumentsIn, Fits, EmptyDir, Shrunk;
        r := RemoveDirectoryContent(id, 0);
        if r.Done? {
          r := RemoveEmpty(id);
        }
      } else {
        if EmptyDir(dirs, instruments, id) { EmptyRemovalFacts(dirs, depth, instruments, id); }
        hide Tree, InstrumentsOk, Inside, InstrumentsIn, Fits, EmptyDir, Shrunk;
        r := RemoveEmpty(id);
      }
    }

    ghost predicate CanRemove(dir: string, force: bool)
      requires Tree(dirs, depth)
      reads this
    {
      && !DoubleSlash(dir)
      && var x := Lookup(dirs, dir);
      && x in dirs && x != 0
      && if force then Fits(dirs, depth, x, 0, MAX_LEVEL) else EmptyDir(dirs, instruments, x)
    }

    /** Exactly the directory x with everything inside it, and all instruments there, are gone. */
    ghost predicate SubtreeRemoved(dirs0: Dirs, depth0: Depths, instrs0: Instruments, x: int)
      requires Tree(dirs0, depth0)
      reads this
    {
      var gone := Inside(dirs0, depth0, x) + {x};
      dirs == dirs0 - gone && depth == depth0 - gone && instruments == instrs0 - InstrumentsIn(instrs0, gone)
    }

    lemma NothingEmptied(ids: seq<int>)
      requires Valid()
      ensures EmptiedSo(dirs, depth, instruments, ids, 0)
    {
      var gone := InsideAny(dirs, depth, ids, 0) + Listed(ids, 0);
      assert gone == {};
      assert InstrumentsIn(instruments, gone) == {};
      assert instruments - {} == instruments && dirs - {} == dirs && depth - {} == depth;
    }

    /** When a directory can be added: its parent exists, and has nothing of this name. */
    ghost predicate CanAdd(dir: string)
      reads this
    {
      && ProperPath(dir) && |dir| >= 2
      && var p, name := Lookup(dirs, GetParentDirectory(dir)), ToDb(GetFileName(Trimmed(dir)));
      p != -1 && !HasChild(dirs, p, name) && !HasInstrument(instruments, p, name)
    }
  }

  // ----- Removing -----

  /** The instruments in one of the directories. */
  function InstrumentsIn(instrs: Instruments, s: set<int>): set<int> {
    set i | i in instrs && instrs[i].dir in s
  }

  /** Rows outside of s are all kept, and no row is new or changed. */
  predicate Shrunk<T(==)>(before: map<int, T>, after: map<int, T>, s: set<int>) {
    && (forall x | x in after :: x in before && after[x] == before[x])
    && (forall x | x in before && x !in s :: x in after)
  }

  ghost predicate EmptyDir(dirs: Dirs, instrs: Instruments, d: int) {
    (forall x | x in dirs :: dirs[x].parent != d) && forall i | i in instrs :: instrs[i].dir != d
  }

  lemma RemoveTwice(instrs: Instruments, a: set<int>, b: set<int>)
    ensures var m := instrs - InstrumentsIn(instrs, a); m - InstrumentsIn(m, b) == instrs - InstrumentsIn(instrs, a + b)
  {
  }

  /** An empty directory, or the empty children of one, can be removed. */
  lemma RemoveKeepsAll(dirs: Dirs, depth: Depths, instrs: Instruments, s: set<int>)
    requires Tree(dirs, depth) && InstrumentsOk(dirs, instrs) && 0 !in s
    requires forall c | c in s :: EmptyDir(dirs, instrs, c)
    ensures Tree(dirs - s, depth - s) && InstrumentsOk(dirs - s, instrs)
  {
    assert Closed(dirs, s);
    RemoveKeepsTree(dirs, depth, s);
  }

  /** The state in which the content of the i-th child could not be removed completely. */
  lemma PartlyEmptied(dirs: Dirs, depth: Depths, instrs: Instruments, dirs': Dirs, instrs': Instruments, d: int,
      ids: seq<int>, i: int)
    requires Tree(dirs, depth) && d in dirs && Lists(dirs, ids, d) && 0 <= i < |ids|
    requires var gone := InsideAny(dirs, depth, ids, i);
             var left := instrs - InstrumentsIn(instrs, gone + Listed(ids, i));
             var inside := Inside(dirs, depth, ids[i]);
             && Shrunk(dirs - gone, dirs', inside)
             && Shrunk(left, instrs', InstrumentsIn(left, inside + {ids[i]}))
    ensures var inside := Inside(dirs, depth, d);
            && Shrunk(dirs, dirs', inside)
            && Shrunk(instrs, instrs', InstrumentsIn(instrs, inside + {d}))
  {
    InsideSplit(dirs, depth, d, ids);
    InsideAnyGrows(dirs, depth, ids, i);
    assert ids[i] in Children(dirs, d);
    assert Listed(ids, i) <= Listed(ids, |ids|);
  }

  /** The content of one more child is gone. */
  lemma MoreEmptied(dirs: Dirs, depth: Depths, instrs: Instruments, d: int, ids: seq<int>, i: int)
    requires Tree(dirs, depth) && Lists(dirs, ids, d) && 0 <= i < |ids|
    ensures var gone, gone', inside := InsideAny(dirs, depth, ids, i), InsideAny(dirs, depth, ids, i + 1),
            Inside(dirs, depth, ids[i]);
            var left := instrs - InstrumentsIn(instrs, gone + Listed(ids, i));
            && (dirs - gone) - inside == dirs - gone' && (depth - gone) - inside == depth - gone'
            && left - InstrumentsIn(left, inside + {ids[i]})
                == instrs - InstrumentsIn(instrs, gone' + Listed(ids, i + 1))
  {
    var gone, inside := InsideAny(dirs, depth, ids, i), Inside(dirs, depth, ids[i]);
    InsideAnyNext(dirs, depth, ids, i);
    RemoveTwice(instrs, gone + Listed(ids, i), inside + {ids[i]});
    assert Listed(ids, i + 1) == Listed(ids, i) + {ids[i]};
    assert gone + Listed(ids, i) + (inside + {ids[i]}) == gone + inside + Listed(ids, i + 1);
  }

  /** With the content of all children gone, the children are empty and the rest is easily removed. */
  lemma AllEmptied(dirs: Dirs, depth: Depths, instrs: Instruments, d: int, ids: seq<int>)
    requires Tree(dirs, depth) && d in dirs && Lists(dirs, ids, d)
    ensures var gone, inside, children := InsideAny(dirs, depth, ids, |ids|), Inside(dirs, depth, d), Children(dirs, d);
            var dirs', instrs' := dirs - gone, instrs - InstrumentsIn(instrs, gone + Listed(ids, |ids|));
            && d in dirs' && Children(dirs', d) == children
            && (forall c | c in children :: EmptyDir(dirs', instrs', c))
            && dirs' - children == dirs - inside && (depth - gone) - children == depth - inside
            && instrs' - InstrumentsIn(instrs', {d}) == instrs - InstrumentsIn(instrs, inside + {d})
  {
    var gone, inside, children := InsideAny(dirs, depth, ids, |ids|), Inside(dirs, depth, d), Children(dirs, d);
    InsideSplit(dirs, depth, d, ids);
    RemoveTwice(instrs, gone + Listed(ids, |ids|), {d});
    assert d !in gone;
    forall c | c in children
      ensures c !in gone && EmptyDir(dirs - gone, instrs - InstrumentsIn(instrs, gone + Listed(ids, |ids|)), c)
    {
      ChildEmptied(dirs, depth, d, ids, c);
    }
  }

  lemma ChildEmptied(dirs: Dirs, depth: Depths, d: int, ids: seq<int>, c: int)
    requires Tree(dirs, depth) && d in dirs && Lists(dirs, ids, d) && c in Children(dirs, d)
    ensures c !in InsideAny(dirs, depth, ids, |ids|)
    ensures forall x | x in dirs && dirs[x].parent == c :: x in InsideAny(dirs, depth, ids, |ids|)
  {
    var i :| 0 <= i < |ids| && ids[i] == c;
    InsideAnyGrows(dirs, depth, ids, i);
    assert RowOk(dirs, depth, c);
    assert Below(dirs, depth, c, c);
    forall x | x in dirs && dirs[x].parent == c
      ensures x in Inside(dirs, depth, c)
    {
      assert x != 0 && RowOk(dirs, depth, x);
      assert Below(dirs, depth, c, x);
    }
    forall j | 0 <= j < |ids|
      ensures c !in Inside(dirs, depth, ids[j])
    {
      assert ids[j] in Children(dirs, d);
      assert RowOk(dirs, depth, ids[j]);
      if Below(dirs, depth, ids[j], c) { BelowDepth(dirs, depth, ids[j], c); }
    }
  }

  lemma EmptyRemovalFacts(dirs: Dirs, depth: Depths, instrs: Instruments, x: int)
    requires Tree(dirs, depth) && InstrumentsOk(dirs, instrs) && x in dirs && x != 0 && EmptyDir(dirs, instrs, x)
    ensures var gone := Inside(dirs, depth, x) + {x};
            dirs - {x} == dirs - gone && depth - {x} == depth - gone && instrs == instrs - InstrumentsIn(instrs, gone)
  {
    forall y | y in dirs
      ensures y !in Inside(dirs, depth, x)
    {
      InsideByChild(dirs, depth, x, y);
    }
    var gone := Inside(dirs, depth, x) + {x};
    forall i | i in instrs
      ensures i !in InstrumentsIn(instrs, gone)
    {
      assert instrs[i].dir in dirs && instrs[i].dir != x;
    }
  }

  lemma RemovalFacts(dirs: Dirs, depth: Depths, instrs: Instruments, x: int)
    requires Tree(dirs, depth) && InstrumentsOk(dirs, instrs) && x in dirs && x != 0
    ensures var inside := Inside(dirs, depth, x);
            && x in dirs - inside
            && EmptyDir(dirs - inside, instrs - InstrumentsIn(instrs, inside + {x}), x)
            && (dirs - inside) - {x} == dirs - (inside + {x}) && (depth - inside) - {x} == depth - (inside + {x})
  {
    assert RowOk(dirs, depth, x);
    assert Below(dirs, depth, x, x);
    forall y | y in dirs && dirs[y].parent == x
      ensures y in Inside(dirs, depth, x)
    {
      assert y != 0 && RowOk(dirs, depth, y);
      assert Below(dirs, depth, x, y);
    }
  }

  lemma MoveFacts(dirs: Dirs, depth: Depths, dir: string, dst: string)
    requires Tree(dirs, depth) && ProperPath(dir) && |dir| >= 2 && ProperPath(dst)
    requires Lookup(dirs, dir) != -1 && Lookup(dirs, dst) != -1
    ensures var x, d, w := Lookup(dirs, dir), Lookup(dirs, dst), WithSlash(dir);
            && x in dirs && d in dirs && x != 0 && DbName(dirs[x].name)
            && ((x == d || StrictPrefix(w, dst)) <==> Below(dirs, depth, x, d))
            && GetFileName(w[..|w| - 1]) != "" && ToDb(GetFileName(w[..|w| - 1])) == dirs[x].name
  {
    var x, d, w := Lookup(dirs, dir), Lookup(dirs, dst), WithSlash(dir);
    MoveTestIsExact(dirs, depth, dir, dst);
    LookupLast(dirs, depth, dir);
    ParentAndName(dir);
    assert w[..|w| - 1] == Trimmed(dir);
    assert RowOk(dirs, depth, x);
  }

  /** A path that leads anywhere begins with a slash. */
  lemma LookupProper(dirs: Dirs, depth: Depths, path: string)
    requires Tree(dirs, depth)
    ensures Lookup(dirs, path) != -1 ==> Lookup(dirs, path) in dirs && path != "" && path[0] == '/'
    ensures -1 !in dirs
  {
    LookupNames(dirs, depth, path);
    if -1 in dirs { IdsNotNegative(dirs, depth, -1); }
  }

  /** A chain of 1002 directories: its first directory cannot be removed, although 1001 of them could. */
  lemma TooDeepExample() returns (dirs: Dirs, depth: Depths)
    ensures IsChain(dirs, depth, 1002) && !Fits(dirs, depth, 1, 0, MAX_LEVEL)
  {
    dirs, depth := MakeChain(MAX_LEVEL + 2);
    ChainFits(dirs, depth, MAX_LEVEL + 2, MAX_LEVEL);
  }

  // ----- What can be done, by the tables alone -----

  /** A directory of any free name can be added to any directory. */
  lemma AddIff(db: Database, p: int, name: string)
    requires db.Valid() && p in db.dirs && DbName(name)
    ensures db.CanAdd(PathOf(NamesTo(db.dirs, db.depth, p) + [name])) <==>
              && (forall x | x in db.dirs :: db.dirs[x] != Dir(p, name))
              && (forall i | i in db.instruments :: db.instruments[i] != Instrument(p, name))
  {
    var above := NamesTo(db.dirs, db.depth, p);
    var dir := PathOf(above + [name]);
    NamesToLength(db.dirs, db.depth, p);
    PathLeadsAlong(above + [name]);
    ParentAndName(dir);
    WalkComplete(db.dirs, db.depth, p);
    IdsNotNegative(db.dirs, db.depth, p);
    hide *;
    LastOf(above, name, Names(GetParentDirectory(dir)), ToDb(GetFileName(Trimmed(dir))));
    CanAddThere(db, dir, p, name);
  }

  lemma LastOf<T>(a: seq<T>, x: T, b: seq<T>, y: T)
    requires a + [x] == b + [y]
    ensures a == b && x == y
  {
    assert |a| == |b| && (a + [x])[|a|] == x && (b + [y])[|b|] == y;
    assert (a + [x])[..|a|] == a && (b + [y])[..|b|] == b;
  }

  lemma CanAddThere(db: Database, dir: string, p: int, name: string)
    requires ProperPath(dir) && |dir| >= 2 && p != -1
    requires Lookup(db.dirs, GetParentDirectory(dir)) == p && ToDb(GetFileName(Trimmed(dir))) == name
    ensures db.CanAdd(dir) <==>
              && (forall x | x in db.dirs :: db.dirs[x] != Dir(p, name))
              && (forall i | i in db.instruments :: db.instruments[i] != Instrument(p, name))
  {
    hide Lookup, GetParentDirectory, GetFileName, ToDb;
  }

  /** A directory can be renamed to any free name. */
  lemma RenameIff(db: Database, x: int, name: string)
    requires db.Valid() && x in db.dirs
    ensures db.CanRename(PathOf(NamesTo(db.dirs, db.depth, x)), name) <==>
              && name != ""
              && (forall y | y in db.dirs :: db.dirs[y] != Dir(db.dirs[x].parent, ToDb(name)))
              && (forall i | i in db.instruments :: db.instruments[i] != Instrument(db.dirs[x].parent, ToDb(name)))
  {
    EveryDirectoryHasAPath(db.dirs, db.depth, x);
    hide Lookup, PathOf, NamesTo, ToDb, DoubleSlash, Tree;
  }

  /** A directory other than the root can be moved to any directory that is not inside it and has the name free. */
  lemma MoveIff(db: Database, x: int, d: int)
    requires db.Valid() && x in db.dirs && d in db.dirs && x != 0
    ensures db.CanMove(PathOf(NamesTo(db.dirs, db.depth, x)), PathOf(NamesTo(db.dirs, db.depth, d))) <==>
              && !Below(db.dirs, db.depth, x, d)
              && (forall y | y in db.dirs :: db.dirs[y] != Dir(d, db.dirs[x].name))
              && (forall i | i in db.instruments :: db.instruments[i] != Instrument(d, db.dirs[x].name))
  {
    EveryDirectoryHasAPath(db.dirs, db.depth, x);
    EveryDirectoryHasAPath(db.dirs, db.depth, d);
    PathIsLong(db.dirs, db.depth, x);
    hide Lookup, PathOf, NamesTo, ToDb, DoubleSlash, Tree, Below;
  }

  lemma PathIsLong(dirs: Dirs, depth: Depths, x: int)
    requires Tree(dirs, depth) && x in dirs && x != 0
    ensures |PathOf(NamesTo(dirs, depth, x))| >= 2
  {
    NamesToLength(dirs, depth, x);
    assert RowOk(dirs, depth, x);
    hide PathOf, NamesTo;
    PathLeadsAlong(NamesTo(dirs, depth, x));
  }

  /** A directory other than the root can be removed if it is empty, or by force down to a depth of 1000. */
  lemma RemoveIff(db: Database, x: int)
    requires db.Valid() && x in db.dirs && x != 0
    ensures db.CanRemove(PathOf(NamesTo(db.dirs, db.depth, x)), true) <==>
              forall y | y in db.dirs && Below(db.dirs, db.depth, x, y) :: db.depth[y] <= db.depth[x] + 1000
    ensures db.CanRemove(PathOf(NamesTo(db.dirs, db.depth, x)), false) <==>
              && (forall y | y in db.dirs :: db.dirs[y].parent != x)
              && (forall i | i in db.instruments :: db.instruments[i].dir != x)
  {
    EveryDirectoryHasAPath(db.dirs, db.depth, x);
    hide Lookup, PathOf, NamesTo, DoubleSlash, Tree, Below;
  }

  /** In a chain of directories, the first one can be removed by force exactly up to 1001 directories. */
  lemma ChainRemoval(db: Database, n: nat)
    requires db.Valid() && IsChain(db.dirs, db.depth, n) && n >= 1
    ensures db.CanRemove(PathOf([db.dirs[1].name]), true) <==> n <= 1001
  {
    assert 1 in db.dirs && 0 in db.dirs;
    assert ChainRow(db.dirs, db.depth, 1) && RowOk(db.dirs, db.depth, 1);
    ChainFits(db.dirs, db.depth, n, 1000);
    assert NamesTo(db.dirs, db.depth, 0) == [];
    assert NamesTo(db.dirs, db.depth, 1) == [] + [db.dirs[1].name] == [db.dirs[1].name];
    EveryDirectoryHasAPath(db.dirs, db.depth, 1);
    hide Lookup, PathOf, NamesTo, DoubleSlash, Tree, Below, Inside, IsChain;
  }

  /** A path that leads to a directory other than the root has a parent path. */
  lemma LookupHasParent(dirs: Dirs, depth: Depths, path: string)
    requires Tree(dirs, depth)
    ensures Lookup(dirs, path) !in {-1, 0} ==> GetParentDirectory(path) != ""
    ensures Lookup(dirs, path) != -1 ==> Lookup(dirs, path) in dirs
    ensures -1 !in dirs
  {
    LookupProper(dirs, depth, path);
    if |path| == 1 {
      EmptySplit(path);
      assert SplitFrom(path, 1) == [];
      NoNames();
      WalkNothing(dirs, 0);
    }
  }

  /** A row gets another parent or name; every other part of the tables stays. */
  lemma MoveKeepsAll(dirs: Dirs, depth: Depths, instrs: Instruments, x: int, p: int, name: string)
    requires Tree(dirs, depth) && InstrumentsOk(dirs, instrs) && x in dirs && x != 0 && p in dirs && DbName(name)
    requires !Below(dirs, depth, x, p) && !HasChild(dirs, p, name) && !HasInstrument(instrs, p, name)
    ensures Tree(dirs[x := Dir(p, name)], MovedDepths(dirs, depth, x, p))
            && InstrumentsOk(dirs[x := Dir(p, name)], instrs)
  {
    MoveKeepsTree(dirs, depth, x, p, name);
    forall i | i in instrs
      ensures instrs[i] != Instrument(p, name)
    {
    }
  }

  lemma AddKeepsAll(dirs: Dirs, depth: Depths, instrs: Instruments, x: int, p: int, name: string, path: string)
    requires Tree(dirs, depth) && InstrumentsOk(dirs, instrs) && x > 0 && x !in dirs && p in dirs && DbName(name)
    requires !HasChild(dirs, p, name) && !HasInstrument(instrs, p, name)
    requires path != "" && path[0] == '/' && Names(path) == NamesTo(dirs, depth, p) + [name]
    ensures Tree(dirs[x := Dir(p, name)], depth[x := depth[p] + 1])
    ensures InstrumentsOk(dirs[x := Dir(p, name)], instrs) && Lookup(dirs[x := Dir(p, name)], path) == x
  {
    AddKeepsTree(dirs, depth, x, p, name);
    AddKeepsNames(dirs, depth, x, p, name, p);
    WalkComplete(dirs[x := Dir(p, name)], depth[x := depth[p] + 1], x);
    forall i | i in instrs
      ensures instrs[i] != Instrument(p, name)
    {
    }
  }

  lemma WalkNothing(dirs: Dirs, id: int)
    ensures Walk(dirs, id, []) == id
  {
  }
}
