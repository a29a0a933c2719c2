/**
 Path names of the instruments database (src/db/InstrumentsDb.cpp): '/' separates the names, and
 a slash inside a name is written as NUL in a path and as '/' in the database.
 */
module DbPaths {
  import opened Strings

  const NUL := 0 as char

  // ----- Scanning -----

  /** string::find('/', from), with -1 for npos. */
  function Find(s: string, from: nat): (r: int)
    ensures r == -1 || from <= r < |s|
    ensures r >= 0 ==> s[r] == '/' && forall k | from <= k < r :: s[k] != '/'
    ensures r == -1 ==> forall k | from <= k < |s| :: s[k] != '/'
  {
    FindChar(s, '/', from)
  }

  /** string::rfind('/', from) for a position inside the string, with -1 for npos. */
  function RFind(s: string, from: nat): (r: int)
    requires from < |s|
    ensures -1 <= r <= from
    ensures r >= 0 ==> s[r] == '/'
    ensures forall k | r < k <= from :: s[k] != '/'
  {
    if s[from] == '/' then from else if from == 0 then -1 else RFind(s, from - 1)
  }

  /** Two slashes in a row. */
  ghost predicate DoubleSlash(s: string) {
    exists j :: SlashPair(s, j)
  }

  predicate SlashPair(s: string, j: int) {
    0 <= j < |s| - 1 && s[j] == '/' && s[j + 1] == '/'
  }

  /** CheckPathName() throws exactly if there are two slashes in a row. */
  method CheckPathName(path: string) returns (ok: bool)
    ensures ok <==> !DoubleSlash(path)
  {
    if path == "" {
      return true;
    }
    var i, j := 0, Find(path, 0);
    while j != -1
      invariant 0 <= i <= |path| && j == Find(path, i)
      invariant forall k | 0 <= k < i :: !SlashPair(path, k)
      decreases |path| - i
    {
      if j + 1 >= |path| {
        return true;
      }
      if path[j + 1] == '/' {
        assert SlashPair(path, j);
        return false;
      }
      i := j + 1;
      j := Find(path, i);
    }
    return true;
  }

  // ----- Names in a path -----

  /** The names from position i on; a slash at the end adds none. */
  function SplitFrom(s: string, i: nat): seq<string>
    decreases |s| - i
  {
    if i >= |s| then []
    else
      var j := Find(s, i);
      if j == -1 then [s[i..]] else [s[i..j]] + SplitFrom(s, j + 1)
  }

  /** toDbName(), toAbstractName() */
  function ToDb(name: string): (r: string)
    ensures |r| == |name| && forall k | 0 <= k < |r| :: r[k] == if name[k] == NUL then '/' else name[k]
  {
    seq(|name|, k requires 0 <= k < |name| => if name[k] == NUL then '/' else name[k])
  }

  function ToAbstract(name: string): (r: string)
    ensures |r| == |name| && forall k | 0 <= k < |r| :: r[k] == if name[k] == '/' then NUL else name[k]
  {
    seq(|name|, k requires 0 <= k < |name| => if name[k] == '/' then NUL else name[k])
  }

  method ToDbName(abstractName: string) returns (name: string)
    ensures name == ToDb(abstractName)
  {
    name := abstractName;
    for i := 0 to |name|
      invariant |name| == |abstractName|
      invariant forall k | 0 <= k < i :: name[k] == ToDb(abstractName)[k]
      invariant forall k | i <= k < |name| :: name[k] == abstractName[k]
    {
      if name[i] == NUL {
        name := name[i := '/'];
      }
    }
  }

  predicate NoSlash(s: string) {
    forall k | 0 <= k < |s| :: s[k] != '/'
  }

  /** Names that can be in the database. */
  predicate DbName(s: string) {
    s != "" && forall k | 0 <= k < |s| :: s[k] != NUL
  }

  lemma ToDbRoundTrip(s: string)
    ensures NoSlash(s) ==> ToAbstract(ToDb(s)) == s
    ensures s != "" ==> DbName(ToDb(s))
    ensures DbName(s) ==> NoSlash(ToAbstract(s)) && ToDb(ToAbstract(s)) == s
    ensures ToDb(ToDb(s)) == ToDb(s)
  {
  }

  function DbNames(names: seq<string>): seq<string>
  {
    seq(|names|, k requires 0 <= k < |names| => ToDb(names[k]))
  }

  ghost predicate ProperPath(path: string) {
    path != "" && path[0] == '/' && !DoubleSlash(path)
  }

  /** The database names that a path leads along from the root. */
  function Names(path: string): seq<string> {
    DbNames(SplitFrom(path, 1))
  }

  predicate SplitOk(names: seq<string>) {
    forall k | 0 <= k < |names| :: NoSlash(names[k]) && names[k] != ""
  }

  lemma {:induction false} SplitNames(s: string, i: nat)
    requires !DoubleSlash(s) && 0 < i <= |s| && s[i - 1] == '/'
    ensures SplitOk(SplitFrom(s, i))
    decreases |s| - i
  {
    if i < |s| {
      assert !SlashPair(s, i - 1);
      var j := Find(s, i);
      if j != -1 {
        SplitNames(s, j + 1);
      }
    }
  }

  // ----- GetParentDirectory(), GetFileName() -----

  function GetParentDirectory(dir: string): string {
    if |dir| < 2 || dir[0] != '/' then ""
    else
      var i := RFind(dir, |dir| - 2);
      if i == 0 then "/" else dir[..i]
  }

  function GetFileName(path: string): string {
    if |path| < 2 || path[0] != '/' || path[|path| - 1] == '/' then ""
    else path[RFind(path, |path| - 1) + 1..]
  }

  /** A path without a slash at the end. */
  function Trimmed(path: string): string {
    if |path| > 1 && path[|path| - 1] == '/' then path[..|path| - 1] else path
  }

  lemma {:induction false} FindKept(s: string, t: string, i: nat)
    requires |t| <= |s| && t == s[..|t|]
    ensures Find(t, i) == if Find(s, i) < |t| then Find(s, i) else -1
  {
  }

  lemma FindIs(s: string, i: nat, j: nat)
    requires i <= j < |s| && s[j] == '/' && forall k | i <= k < j :: s[k] != '/'
    ensures Find(s, i) == j
  {
  }

  /** Cutting the string at a slash cuts the list of names. */
  lemma {:induction false} SplitCut(s: string, i: nat, k: nat)
    requires !DoubleSlash(s) && 0 < i < k < |s| && s[k] == '/'
    ensures SplitFrom(s, i) == SplitFrom(s[..k], i) + SplitFrom(s, k + 1)
    decreases k - i
  {
    hide DoubleSlash, Find, SplitFrom;
    var t, j := s[..k], Find(s, i);
    FindKept(s, t, i);
    SplitStep(s, i);
    SplitStep(t, i);
    if j < k {
      NoPair(s, j);
      SplitCut(s, j + 1, k);
      assert t[i..j] == s[i..j];
      JoinAssoc([s[i..j]], SplitFrom(t, j + 1), SplitFrom(s, k + 1));
    } else {
      assert t[i..] == s[i..k];
    }
  }

  lemma NoPair(s: string, j: int)
    requires !DoubleSlash(s)
    ensures !SlashPair(s, j)
  {
  }

  lemma SplitStep(s: string, i: nat)
    requires i < |s|
    ensures var j := Find(s, i); SplitFrom(s, i) == if j == -1 then [s[i..]] else [s[i..j]] + SplitFrom(s, j + 1)
  {
  }

  /** The parent path leads along all names but the last, and that one is the file name. */
  lemma ParentAndName(dir: string)
    requires ProperPath(dir) && |dir| >= 2
    ensures ProperPath(GetParentDirectory(dir)) && GetFileName(Trimmed(dir)) != "" && NoSlash(GetFileName(Trimmed(dir)))
    ensures Names(dir) == Names(GetParentDirectory(dir)) + [ToDb(GetFileName(Trimmed(dir)))]
  {
    hide *;
    NameAfter(dir);
    ParentSplit(dir, GetFileName(Trimmed(dir)));
    NamesSnoc(dir, GetParentDirectory(dir), GetFileName(Trimmed(dir)));
  }

  lemma NamesSnoc(path: string, parent: string, n: string)
    requires SplitFrom(path, 1) == SplitFrom(parent, 1) + [n]
    ensures Names(path) == Names(parent) + [ToDb(n)]
  {
    hide SplitFrom, ToDb, DbNames;
    DbNamesSnoc(SplitFrom(parent, 1), n);
  }

  lemma ParentSplit(dir: string, n: string)
    requires ProperPath(dir) && |dir| >= 2 && RFind(dir, |dir| - 2) >= 0
             && SplitFrom(dir, RFind(dir, |dir| - 2) + 1) == [n]
    ensures ProperPath(GetParentDirectory(dir)) && SplitFrom(dir, 1) == SplitFrom(GetParentDirectory(dir), 1) + [n]
  {
    hide DoubleSlash, Find, RFind, SplitFrom, SlashPair;
    var i, p := RFind(dir, |dir| - 2), GetParentDirectory(dir);
    if i == 0 {
      Root();
      EmptySplit(p);
    } else {
      CutProper(dir, i);
      FirstIsName(dir);
      SplitCut(dir, 1, i);
    }
  }

  lemma FirstIsName(s: string)
    requires ProperPath(s) && |s| >= 2
    ensures s[1] != '/'
  {
    NoPair(s, 0);
  }

  lemma DbNamesSnoc(a: seq<string>, n: string)
    ensures DbNames(a + [n]) == DbNames(a) + [ToDb(n)]
  {
  }

  lemma CutProper(s: string, k: nat)
    requires !DoubleSlash(s) && k <= |s|
    ensures !DoubleSlash(s[..k])
  {
    forall j
      ensures !SlashPair(s[..k], j)
    {
      NoPair(s, j);
    }
  }

  lemma EmptySplit(p: string)
    ensures SplitFrom(p, |p|) == []
  {
  }

  /** Behind the last slash that has a name behind it. */
  lemma NameAfter(dir: string)
    requires ProperPath(dir) && |dir| >= 2
    ensures var i, n := RFind(dir, |dir| - 2), GetFileName(Trimmed(dir));
            i >= 0 && n != "" && NoSlash(n) && SplitFrom(dir, i + 1) == [n]
  {
    hide DoubleSlash, Find, RFind, SplitFrom, GetFileName, Trimmed;
    var i := RFind(dir, |dir| - 2);
    NoPair(dir, |dir| - 2);
    var e := if dir[|dir| - 1] == '/' then |dir| - 1 else |dir|;
    TrimmedName(dir, i, e);
    SplitTail(dir, i + 1, e);
    SliceNoSlash(dir, i + 1, e);
  }

  lemma SliceNoSlash(s: string, i: nat, e: nat)
    requires i < e <= |s| && forall k | i <= k < e :: s[k] != '/'
    ensures s[i..e] != "" && NoSlash(s[i..e])
  {
  }

  lemma TrimmedName(dir: string, i: nat, e: nat)
    requires |dir| >= 2 && dir[0] == '/' && e == (if dir[|dir| - 1] == '/' then |dir| - 1 else |dir|)
    requires i + 1 < e && dir[i] == '/' && forall k | i < k < e :: dir[k] != '/'
    ensures GetFileName(Trimmed(dir)) == dir[i + 1..e]
  {
    hide RFind;
    var d := dir[..e];
    RFindIs(d, e - 1, i);
    assert d[i + 1..] == dir[i + 1..e];
  }

  lemma RFindIs(s: string, from: nat, i: nat)
    requires i <= from < |s| && s[i] == '/' && forall k | i < k <= from :: s[k] != '/'
    ensures RFind(s, from) == i
  {
  }

  /** A name that reaches to the end of the string, with or without a slash. */
  lemma SplitTail(s: string, i: nat, e: nat)
    requires i < e <= |s| && (forall k | i <= k < e :: s[k] != '/') && (e == |s| || (e == |s| - 1 && s[e] == '/'))
    ensures SplitFrom(s, i) == [s[i..e]]
  {
    hide Find, SplitFrom;
    SplitStep(s, i);
    if e < |s| {
      FindIs(s, i, e);
      EmptySplit(s);
    } else {
      assert s[i..] == s[i..e];
    }
  }

  // ----- The test of MoveDirectory() -----

  /** The path with a slash at the end. */
  function WithSlash(path: string): string
    requires path != ""
  {
    if path[|path| - 1] != '/' then path + "/" else path
  }

  /** MoveDirectory() compares the beginning of the destination with the directory. */
  predicate StartsInside(dir: string, dst: string)
    requires dir != ""
  {
    StrictPrefix(WithSlash(dir), dst)
  }

  predicate StrictPrefix<T(==)>(a: seq<T>, b: seq<T>) {
    |a| < |b| && a == b[..|a|]
  }

  /** The names of a path ending with a slash begin those of another path exactly if the string does. */
  lemma {:induction false} PrefixOfNames(p: string, q: string, i: nat)
    requires !DoubleSlash(p) && !DoubleSlash(q) && 0 < i < |p| && i <= |q| && p[..i] == q[..i]
    requires p[i - 1] == '/' && p[|p| - 1] == '/'
    ensures StrictPrefix(p, q) <==> StrictPrefix(SplitFrom(p, i), SplitFrom(q, i))
    decreases |p| - i
  {
    hide DoubleSlash, Find, SplitFrom;
    var j := Find(p, i);
    SplitStep(p, i);
    if j < |q| && p[..j + 1] == q[..j + 1] {
      SharedName(p, q, i);
      if j + 1 < |p| {
        PrefixOfNames(p, q, j + 1);
        SplitStep(q, i);
        PrefixBehind([p[i..j]], SplitFrom(p, j + 1), SplitFrom(q, j + 1));
      } else {
        LastName(p, q, i);
      }
    } else if StrictPrefix(p, q) || StrictPrefix(SplitFrom(p, i), SplitFrom(q, i)) {
      PrefixSharesName(p, q, i);
    }
  }

  lemma PrefixBehind<T>(c: seq<T>, a: seq<T>, b: seq<T>)
    ensures StrictPrefix(c + a, c + b) <==> StrictPrefix(a, b)
  {
    var n := |c| + |a|;
    if |a| < |b| {
      assert (c + b)[..n] == c + b[..|a|];
      if c + a == c + b[..|a|] {
        assert a == (c + a)[|c|..] && b[..|a|] == (c + b[..|a|])[|c|..];
      }
    }
  }

  lemma SharedName(p: string, q: string, i: nat)
    requires i < |p| && 0 <= Find(p, i) < |q| && p[..Find(p, i) + 1] == q[..Find(p, i) + 1]
    ensures Find(q, i) == Find(p, i) && q[i..Find(p, i)] == p[i..Find(p, i)]
  {
    hide Find;
    var j := Find(p, i);
    SlicesAgree(p, q, i, j);
    FindIs(q, i, j);
  }

  lemma SlicesAgree(p: string, q: string, i: nat, j: nat)
    requires i <= j < |p| && j < |q| && p[..j + 1] == q[..j + 1]
    ensures p[i..j] == q[i..j] && forall k | 0 <= k <= j :: p[k] == q[k]
  {
    forall k | 0 <= k <= j
      ensures p[k] == q[k]
    {
      assert p[..j + 1][k] == q[..j + 1][k];
    }
  }

  lemma LastName(p: string, q: string, i: nat)
    requires i < |p| && Find(p, i) == |p| - 1 && |p| <= |q| && p == q[..|p|] && p[i..|p| - 1] == q[i..|p| - 1]
             && Find(q, i) == |p| - 1
    ensures StrictPrefix(p, q) <==> StrictPrefix(SplitFrom(p, i), SplitFrom(q, i))
  {
    assert SplitFrom(p, i) == [p[i..|p| - 1]];
    assert SplitFrom(q, i) == [p[i..|p| - 1]] + SplitFrom(q, |p|);
  }

  /** If names begin other names, the strings agree up to the end of the first one. */
  lemma PrefixSharesName(p: string, q: string, i: nat)
    requires i < |p| && i <= |q| && p[..i] == q[..i] && p[|p| - 1] == '/'
    requires StrictPrefix(p, q) || StrictPrefix(SplitFrom(p, i), SplitFrom(q, i))
    ensures 0 <= Find(p, i) < |q| && p[..Find(p, i) + 1] == q[..Find(p, i) + 1]
  {
    hide Find, SplitFrom;
    var j, k := Find(p, i), Find(q, i);
    if StrictPrefix(p, q) {
      assert p[..j + 1] == q[..|p|][..j + 1] == q[..j + 1];
    } else {
      SplitStep(p, i);
      FirstName(q, i, SplitFrom(p, i));
      SameSpan(p, q, i, j, k);
    }
  }

  /** The first of several names. */
  lemma FirstName(q: string, i: nat, names: seq<string>)
    requires names != [] && StrictPrefix(names, SplitFrom(q, i))
    ensures Find(q, i) >= 0 && q[i..Find(q, i)] == names[0]
  {
    assert names[0] == SplitFrom(q, i)[0];
  }

  lemma SameSpan(p: string, q: string, i: nat, j: nat, k: nat)
    requires i <= j < |p| && i <= k < |q| && p[..i] == q[..i] && p[i..j] == q[i..k] && p[j] == q[k]
    ensures j == k && p[..j + 1] == q[..j + 1]
  {
    assert |p[i..j]| == |q[i..k]|;
    assert p[..j + 1] == p[..i] + p[i..j] + [p[j]];
    assert q[..k + 1] == q[..i] + q[i..k] + [q[k]];
  }

  /** The test finds exactly the paths that lead through the directory and further. */
  lemma StartsInsideIffLonger(dir: string, dst: string)
    requires ProperPath(dir) && |dir| >= 2 && ProperPath(dst)
    ensures StartsInside(dir, dst) <==> StrictPrefix(Names(dir), Names(dst))
  {
    var d := WithSlash(dir);
    WithSlashSame(dir);
    PrefixOfNames(d, dst, 1);
    SplitNames(dir, 1);
    SplitNames(dst, 1);
    DbNamesPrefix(SplitFrom(dir, 1), SplitFrom(dst, 1));
  }

  lemma WithSlashSame(dir: string)
    requires ProperPath(dir) && |dir| >= 2
    ensures !DoubleSlash(WithSlash(dir)) && SplitFrom(WithSlash(dir), 1) == SplitFrom(dir, 1)
  {
    var d := WithSlash(dir);
    if d != dir {
      forall j
        ensures !SlashPair(d, j)
      {
        NoPair(dir, j);
      }
      NoPair(dir, 0);
      hide DoubleSlash, SlashPair, SplitFrom;
      SlashAdded(dir, 1);
    }
  }

  lemma {:induction false} SlashAdded(s: string, i: nat)
    requires i < |s| && s[|s| - 1] != '/'
    ensures SplitFrom(s + "/", i) == SplitFrom(s, i)
    decreases |s| - i
  {
    hide Find, SplitFrom;
    var t, j := s + "/", Find(s, i);
    SplitStep(s, i);
    SplitStep(t, i);
    if j >= 0 {
      FindIs(t, i, j);
      SlashAdded(s, j + 1);
      assert t[i..j] == s[i..j];
    } else {
      FindIs(t, i, |s|);
      assert t[i..|s|] == s[i..];
      EmptySplit(t);
    }
  }

  lemma DbNamesPrefix(a: seq<string>, b: seq<string>)
    requires SplitOk(a) && SplitOk(b)
    ensures StrictPrefix(DbNames(a), DbNames(b)) <==> StrictPrefix(a, b)
  {
    if StrictPrefix(DbNames(a), DbNames(b)) {
      forall k | 0 <= k < |a|
        ensures a[k] == b[k]
      {
        assert DbNames(a)[k] == DbNames(b)[k];
        ToDbRoundTrip(a[k]);
        ToDbRoundTrip(b[k]);
      }
    }
  }

  // ----- Every list of names has a path -----

  function PathOf(names: seq<string>): string {
    if names == [] then "/" else PathOf(names[..|names| - 1]) + ToAbstract(names[|names| - 1]) + "/"
  }

  /** The path built from database names leads along these names. */
  lemma {:induction false} PathLeadsAlong(names: seq<string>)
    requires forall k | 0 <= k < |names| :: DbName(names[k])
    ensures ProperPath(PathOf(names)) && Names(PathOf(names)) == names
    ensures var p := PathOf(names); p[|p| - 1] == '/'
    ensures names != [] ==> |PathOf(names)| >= 2
  {
    hide Find, SplitFrom, DoubleSlash;
    if names == [] {
      Root();
    } else {
      var n := |names| - 1;
      var p, a := PathOf(names[..n]), ToAbstract(names[n]);
      PathLeadsAlong(names[..n]);
      ToDbRoundTrip(names[n]);
      NameAppended(p, a);
      assert names == names[..n] + [names[n]];
    }
  }

  lemma Root()
    ensures ProperPath("/") && Names("/") == []
  {
    assert forall j :: !SlashPair("/", j);
  }

  lemma NameAppended(p: string, a: string)
    requires ProperPath(p) && p[|p| - 1] == '/' && a != "" && NoSlash(a)
    ensures var q := p + a + "/"; ProperPath(q) && SplitFrom(q, 1) == SplitFrom(p, 1) + [a]
  {
    hide Find, SplitFrom, DoubleSlash;
    var q := p + a + "/";
    StillProper(p, a);
    LastIs(p, a);
    if |p| > 1 {
      NoPair(p, |p| - 2);
      FirstIsName(p);
      WithoutSlash(p);
      SplitCut(q, 1, |p| - 1);
      assert q[..|p| - 1] == p[..|p| - 1];
    } else {
      EmptySplit(p);
    }
  }

  lemma WithoutSlash(p: string)
    requires |p| > 2 && p[|p| - 1] == '/' && p[|p| - 2] != '/'
    ensures SplitFrom(p[..|p| - 1], 1) == SplitFrom(p, 1)
  {
    var t := p[..|p| - 1];
    assert t + "/" == p;
    SlashAdded(t, 1);
  }

  lemma StillProper(p: string, a: string)
    requires !DoubleSlash(p) && a != "" && NoSlash(a)
    ensures !DoubleSlash(p + a + "/")
  {
    var q := p + a + "/";
    forall j
      ensures !SlashPair(q, j)
    {
      NoPair(p, j);
    }
  }

  lemma LastIs(p: string, a: string)
    requires a != "" && NoSlash(a)
    ensures SplitFrom(p + a + "/", |p|) == [a]
  {
    var q := p + a + "/";
    hide Find, SplitFrom;
    FindIs(q, |p|, |p| + |a|);
    SplitStep(q, |p|);
    EmptySplit(q);
    assert q[|p|..|p| + |a|] == a;
  }
}
