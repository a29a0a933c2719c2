/**
 Model of gcd() and permute_args() in msvc/compat/getopt.h: two adjacent blocks of an
 argument vector are exchanged in place by following the cycles of the permutation.
 */
module PermuteArgs {
  import opened Arithmetic

  // ----- Divisibility -----

  ghost predicate Divides(d: int, a: int)
  {
    exists k: int :: k * d == a
  }

  lemma DividesSum(d: int, a: int, b: int, q: int)
    requires Divides(d, b) && Divides(d, a)
    ensures Divides(d, a + q * b)
  {
    var kb: int :| kb * d == b;
    var ka: int :| ka * d == a;
    assert (ka + q * kb) * d == ka * d + q * (kb * d);
  }

  /** One Euclidean step keeps a linear combination of the arguments. */
  lemma CombineStep(a0: int, b0: int, a: int, b: int, q: int, xa: int, ya: int, xb: int, yb: int)
    requires a == xa * a0 + ya * b0 && b == xb * a0 + yb * b0
    ensures a - q * b == (xa - q * xb) * a0 + (ya - q * yb) * b0
  {
    assert q * b == q * (xb * a0) + q * (yb * b0);
    assert (xa - q * xb) * a0 == xa * a0 - q * (xb * a0);
    assert (ya - q * yb) * b0 == ya * b0 - q * (yb * b0);
  }

  /** The greatest common divisor: it divides both numbers, and it is a linear combination of them. */
  method Gcd(a0: int, b0: int) returns (g: int, ghost x: int, ghost y: int)
    requires a0 >= 0 && b0 > 0
    ensures g > 0 && Divides(g, a0) && Divides(g, b0)
    ensures g == x * a0 + y * b0
  {
    var a, b := a0, b0;
    ghost var xa, ya := 1, 0;
    x, y := 0, 1;
    var c := a % b;
    while c != 0
      invariant a >= 0 && b > 0 && c == a % b
      invariant a == xa * a0 + ya * b0 && b == x * a0 + y * b0
      invariant forall d: int | Divides(d, a) && Divides(d, b) :: Divides(d, a0) && Divides(d, b0)
      decreases b
    {
      ghost var q := a / b;
      assert c == a - q * b;
      CombineStep(a0, b0, a, b, q, xa, ya, x, y);
      forall d: int | Divides(d, b) && Divides(d, c)
        ensures Divides(d, a0) && Divides(d, b0)
      {
        DividesSum(d, c, b, q);
      }
      xa, ya, x, y := x, y, xa - q * x, ya - q * y;
      a := b;
      b := c;
      c := a % b;
    }
    g := b;
    assert 1 * b == b;
    assert (a / b) * b == a;
  }

  /** Every common divisor divides the result of Gcd. */
  lemma CombinationIsGreatest(a: int, b: int, g: int, x: int, y: int, d: int)
    requires g == x * a + y * b && Divides(d, a) && Divides(d, b)
    ensures Divides(d, g)
  {
    var ka: int :| ka * d == a;
    var kb: int :| kb * d == b;
    assert (x * ka + y * kb) * d == x * (ka * d) + y * (kb * d);
  }

  // ----- The permutation and its cycles -----

  /** Where the inner loop goes from `pos`, counted from the start of the first block of `n` elements. */
  function Next(n: int, m: int, pos: int): int {
    if pos >= n then pos - n else pos + m
  }

  /** Where the element comes from that ends at `t`. */
  function Prev(n: int, m: int, t: int): int {
    if t < m then t + n else t - m
  }

  function Class(t: int, g: int): int
    requires g > 0
  {
    t % g
  }

  /** The k-th position of the cycle that starts at `c`. */
  function Orbit(c: int, m: int, len: int, k: int): int
    requires len > 0
  {
    (c + k * m) % len
  }

  lemma OrbitStep(c: int, n: int, m: int, k: int)
    requires n >= 0 && m > 0 && 0 <= c < n + m
    ensures Orbit(c, m, n + m, k + 1) == Next(n, m, Orbit(c, m, n + m, k))
    ensures 0 <= Orbit(c, m, n + m, k) < n + m
  {
    var l := n + m;
    var p, q := Orbit(c, m, l, k), (c + k * m) / l;
    assert c + k * m == q * l + p;
    assert c + (k + 1) * m == q * l + p + m;
    if p + m < l {
      DivModUnique(c + (k + 1) * m, l, q, p + m);
    } else {
      assert q * l + p + m == (q + 1) * l + (p + m - l);
      DivModUnique(c + (k + 1) * m, l, q + 1, p + m - l);
    }
  }

  lemma OrbitStart(c: int, m: int, l: int)
    requires 0 <= c < l
    ensures Orbit(c, m, l, 0) == c
  {
    DivModUnique(c, l, 0, c);
  }

  /** After `count` steps, where count * g is the whole length, the cycle is back at its start. */
  lemma OrbitCloses(c: int, m: int, l: int, g: int, count: int)
    requires 0 <= c < l && g > 0 && count * g == l && Divides(g, m)
    ensures Orbit(c, m, l, count) == c
  {
    var k: int :| k * g == m;
    assert count * m == k * l by { assert count * (k * g) == k * (count * g); }
    DivModUnique(c + count * m, l, k, c);
  }

  /** Two steps of one round do not meet. */
  lemma OrbitInjective(c: int, m: int, l: int, g: int, count: int, w: int, v: int, i: int, j: int)
    requires 0 <= c < l && g > 0 && count * g == l && g == w * m + v * l
    requires 0 <= i < j < count
    ensures Orbit(c, m, l, i) != Orbit(c, m, l, j)
  {
    if Orbit(c, m, l, i) == Orbit(c, m, l, j) {
      var qi, qj, e := (c + i * m) / l, (c + j * m) / l, j - i;
      var q := qj - qi;
      assert e * m == q * l by {
        assert c + i * m == qi * l + Orbit(c, m, l, i);
        assert c + j * m == qj * l + Orbit(c, m, l, j);
        assert e * m == j * m - i * m;
        assert q * l == qj * l - qi * l;
      }
      var z := w * q + v * e;
      MultipleOfLength(e, m, l, g, q, w, v);
      assert e * g == z * (count * g);
      CancelFactor(e, z, count, g);
      assert e == z * count;
      BetweenMultiples(z, count);
    }
  }

  lemma MultipleOfLength(e: int, m: int, l: int, g: int, q: int, w: int, v: int)
    requires e * m == q * l && g == w * m + v * l
    ensures e * g == (w * q + v * e) * l
  {
    assert e * g == w * (e * m) + v * (e * l) by {
      assert e * (w * m + v * l) == e * (w * m) + e * (v * l);
      assert e * (w * m) == w * (e * m);
      assert e * (v * l) == v * (e * l);
    }
    assert (w * q + v * e) * l == w * (q * l) + v * (e * l);
  }

  lemma CancelFactor(e: int, z: int, count: int, g: int)
    requires g > 0 && e * g == z * (count * g)
    ensures e == z * count
  {
    assert z * (count * g) == (z * count) * g;
    assert (e - z * count) * g == 0;
  }

  lemma CoverSteps(e: int, w: int, s: int, k: int, count: int, g: int, m: int, mg: int, l: int)
    requires e * w == s * count + k && mg * g == m && count * g == l
    ensures k * m == e * (w * m) - (s * mg) * l
  {
    assert count * m == mg * l by { assert count * (mg * g) == mg * (count * g); }
    assert (s * count + k) * m == s * (count * m) + k * m;
    assert s * (mg * l) == (s * mg) * l;
    assert (e * w) * m == e * (w * m);
  }

  lemma CoverDistance(e: int, w: int, v: int, g: int, m: int, l: int)
    requires g == w * m + v * l
    ensures e * (w * m) == e * g - (e * v) * l
  {
    assert e * (w * m + v * l) == e * (w * m) + (e * v) * l;
  }

  /** Every position in the residue class of the start is met. */
  lemma OrbitCovers(c: int, m: int, l: int, g: int, count: int, w: int, v: int, t: int) returns (k: int)
    requires 0 <= c < l && 0 <= t < l && g > 0 && count * g == l && count > 0
    requires Divides(g, m) && g == w * m + v * l && Divides(g, t - c)
    ensures 0 <= k < count && Orbit(c, m, l, k) == t
  {
    var e: int :| e * g == t - c;
    var mg: int :| mg * g == m;
    var ew := e * w;
    var s := ew / count;
    k := ew % count;
    DivMod(ew, count);
    CoverSteps(e, w, s, k, count, g, m, mg, l);
    CoverDistance(e, w, v, g, m, l);
    var q := -(e * v) - s * mg;
    assert q * l == -((e * v) * l) - (s * mg) * l;
    DivModUnique(c + k * m, l, q, t);
  }

  lemma ClassOf(t: int, g: int, n: int, i: int)
    requires g > 0 && Divides(g, n) && 0 <= i < g
    ensures Class(t, g) == i <==> Divides(g, t - (n + i))
  {
    var kn: int :| kn * g == n;
    if Class(t, g) == i {
      DivMod(t, g);
      assert (t / g - kn) * g == (t / g) * g - kn * g;
    }
    if Divides(g, t - (n + i)) {
      var k: int :| k * g == t - (n + i);
      assert (k + kn) * g == k * g + kn * g;
      DivModUnique(t, g, k + kn, i);
    }
  }

  /** A cycle stays in the residue class of its start. */
  lemma OrbitClass(c: int, m: int, l: int, g: int, count: int, k: int)
    requires 0 <= c < l && g > 0 && count * g == l && Divides(g, m)
    ensures Divides(g, Orbit(c, m, l, k) - c)
  {
    var mg: int :| mg * g == m;
    var q := (c + k * m) / l;
    DivMod(c + k * m, l);
    assert k * m == (k * mg) * g;
    assert q * l == (q * count) * g;
    assert (k * mg - q * count) * g == (k * mg) * g - (q * count) * g;
  }

  /** The block lengths and what gcd() says about them. */
  ghost predicate Cycles(n: int, m: int, g: int, count: int, w: int, v: int) {
    && n >= 0 && m > 0 && g > 0 && count > 0 && count * g == n + m
    && Divides(g, n) && Divides(g, m) && g == w * m + v * (n + m)
  }

  predicate Follows(n: int, m: int, orb: seq<int>, k: int)
    requires 0 < k < |orb|
  {
    orb[k] == Next(n, m, orb[k - 1])
  }

  /**
   The i-th cycle, started at n + i: `count` distinct positions, each the successor of the one before,
   which are exactly the positions with residue i.
   */
  ghost predicate IsCycle(n: int, m: int, g: int, count: int, i: int, orb: seq<int>)
    requires g > 0
  {
    && |orb| == count > 0 && orb[0] == n + i
    && (forall k | 0 <= k < count :: 0 <= orb[k] < n + m)
    && (forall k | 0 < k < count :: Follows(n, m, orb, k))
    && Next(n, m, orb[count - 1]) == orb[0]
    && (forall j, k | 0 <= j < k < count :: orb[j] != orb[k])
    && (forall t | 0 <= t < n + m :: t in orb <==> Class(t, g) == i)
  }

  lemma DividesBound(g: int, m: int)
    requires g > 0 && m > 0 && Divides(g, m)
    ensures g <= m
  {
    var k: int :| k * g == m;
    assert k >= 1;
  }

  lemma MakeCycle(n: int, m: int, g: int, count: int, w: int, v: int, i: int) returns (orb: seq<int>)
    requires Cycles(n, m, g, count, w, v) && 0 <= i < g
    ensures IsCycle(n, m, g, count, i, orb)
  {
    var c, l := n + i, n + m;
    DividesBound(g, m);
    orb := seq(count, k => Orbit(c, m, l, k));
    OrbitStart(c, m, l);
    forall k | 0 <= k < count
      ensures 0 <= orb[k] < l && Class(orb[k], g) == i
      ensures k > 0 ==> Follows(n, m, orb, k)
    {
      OrbitStep(c, n, m, k);
      OrbitClass(c, m, l, g, count, k);
      ClassOf(orb[k], g, n, i);
      if k > 0 { OrbitStep(c, n, m, k - 1); }
    }
    OrbitStep(c, n, m, count - 1);
    OrbitCloses(c, m, l, g, count);
    forall j, k | 0 <= j < k < count
      ensures orb[j] != orb[k]
    {
      OrbitInjective(c, m, l, g, count, w, v, j, k);
    }
    forall t | 0 <= t < l && Class(t, g) == i
      ensures t in orb
    {
      ClassOf(t, g, n, i);
      var k := OrbitCovers(c, m, l, g, count, w, v, t);
      assert orb[k] == t;
    }
  }

  // ----- permute_args() -----

  /** The vector after the first `i` cycles: residues below i are in place, the others untouched. */
  ghost predicate Progress<T>(now: seq<T>, old': seq<T>, start: int, n: int, m: int, g: int, i: int)
    requires g > 0 && n >= 0 && m >= 0 && 0 <= start && start + n + m <= |old'| == |now|
  {
    && (forall t | 0 <= t < n + m && Class(t, g) < i :: now[start + t] == old'[start + Prev(n, m, t)])
    && (forall t | 0 <= t < n + m && Class(t, g) >= i :: now[start + t] == old'[start + t])
    && (forall p | 0 <= p < |now| && !(start <= p < start + n + m) :: now[p] == old'[p])
  }

  /** The k-th position of the cycle has received its element if the walk has passed it. */
  ghost predicate Placed<T>(now: seq<T>, before: seq<T>, start: int, orb: seq<int>, j: int, k: int)
    requires 0 < k < |orb| && 0 <= start && |now| == |before|
    requires forall i | 0 <= i < |orb| :: 0 <= start + orb[i] < |now|
  {
    now[start + orb[k]] == before[start + (if k <= j then orb[k - 1] else orb[k])]
  }

  /** The vector inside a cycle, after `j` of its steps. */
  ghost predicate InCycle<T>(now: seq<T>, before: seq<T>, start: int, n: int, m: int, orb: seq<int>, j: int)
    requires n >= 0 && m >= 0 && 0 <= start && start + n + m <= |before| == |now|
    requires 0 <= j <= |orb| && |orb| > 0 && forall k | 0 <= k < |orb| :: 0 <= orb[k] < n + m
  {
    && (forall k | 0 < k < |orb| :: Placed(now, before, start, orb, j, k))
    && now[start + orb[0]] == before[start + orb[if j < |orb| then j else j - 1]]
    && (forall p | 0 <= p < |now| && (p - start) !in orb :: now[p] == before[p])
  }

  lemma CycleDone<T>(now: seq<T>, before: seq<T>, old': seq<T>, start: int, n: int, m: int, g: int, count: int,
      i: int, orb: seq<int>)
    requires g > 0 && n >= 0 && m > 0 && 0 <= start && start + n + m <= |old'| == |before| == |now|
    requires IsCycle(n, m, g, count, i, orb) && Progress(before, old', start, n, m, g, i)
    requires InCycle(now, before, start, n, m, orb, count)
    ensures Progress(now, old', start, n, m, g, i + 1)
  {
    forall t | 0 <= t < n + m && Class(t, g) == i
      ensures now[start + t] == old'[start + Prev(n, m, t)]
    {
      var k :| 0 <= k < count && orb[k] == t;
      var p := orb[if k > 0 then k - 1 else count - 1];
      if k > 0 {
        assert Follows(n, m, orb, k) && Placed(now, before, start, orb, count, k);
      }
      assert t == Next(n, m, p) && Prev(n, m, t) == p;
      assert p in orb && Class(p, g) == i;
    }
    forall t | 0 <= t < n + m && Class(t, g) != i
      ensures now[start + t] == before[start + t]
    {
      assert (start + t) - start == t && t !in orb;
    }
    forall p | 0 <= p < |now| && !(start <= p < start + n + m)
      ensures now[p] == old'[p]
    {
      assert (p - start) !in orb;
    }
  }

  /** Exchanges the block nonoptStart..nonoptEnd with the block nonoptEnd..optEnd, keeping the order inside each. */
  method Permute<T>(nonoptStart: int, nonoptEnd: int, optEnd: int, nargv: array<T>)
    requires 0 <= nonoptStart <= nonoptEnd < optEnd <= nargv.Length
    modifies nargv
    ensures nargv[..] == old(nargv[..nonoptStart] + nargv[nonoptEnd..optEnd] + nargv[nonoptStart..nonoptEnd]
            + nargv[optEnd..])
  {
    var nnonopts := nonoptEnd - nonoptStart;
    var nopts := optEnd - nonoptEnd;
    ghost var x, y;
    var ncycle;
    ncycle, x, y := Gcd(nnonopts, nopts);
    var cyclelen := (optEnd - nonoptStart) / ncycle;
    CycleLength(nnonopts, nopts, ncycle, cyclelen, x, y);
    ghost var old' := nargv[..];
    ClassRange(nnonopts + nopts, ncycle);

    var i := 0;
    while i < ncycle
      invariant 0 <= i <= ncycle && |nargv[..]| == |old'|
      invariant Progress(nargv[..], old', nonoptStart, nnonopts, nopts, ncycle, i)
    {
      ghost var orb := MakeCycle(nnonopts, nopts, ncycle, cyclelen, y - x, x, i);
      var cstart := nonoptEnd + i;
      RunCycle(nonoptStart, nonoptEnd, optEnd, nargv, cstart, cyclelen, ncycle, i, orb, old');
      i := i + 1;
    }
    Exchanged(nargv[..], old', nonoptStart, nonoptEnd, optEnd, ncycle);
  }

  /** The inner loop of permute_args(). */
  method RunCycle<T>(nonoptStart: int, nonoptEnd: int, optEnd: int, nargv: array<T>, cstart: int, cyclelen: int,
                     ghost ncycle: int, ghost i: int, ghost orb: seq<int>, ghost old': seq<T>)
    requires 0 <= nonoptStart <= nonoptEnd < optEnd <= nargv.Length && ncycle > 0 && |old'| == nargv.Length
    requires IsCycle(nonoptEnd - nonoptStart, optEnd - nonoptEnd, ncycle, cyclelen, i, orb) && cstart == nonoptEnd + i
    requires Progress(nargv[..], old', nonoptStart, nonoptEnd - nonoptStart, optEnd - nonoptEnd, ncycle, i)
    modifies nargv
    ensures Progress(nargv[..], old', nonoptStart, nonoptEnd - nonoptStart, optEnd - nonoptEnd, ncycle, i + 1)
  {
    hide IsCycle, Progress, InCycle;
    var nnonopts, nopts := nonoptEnd - nonoptStart, optEnd - nonoptEnd;
    ghost var before := nargv[..];
    CycleRange(nnonopts, nopts, ncycle, cyclelen, i, orb);
    CycleStart(before, nonoptStart, nnonopts, nopts, orb);
    var pos := cstart;
    var j := 0;
    while j < cyclelen
      invariant 0 <= j <= cyclelen && |nargv[..]| == |before|
      invariant pos == nonoptStart + orb[if j < cyclelen then j else 0]
      invariant InCycle(nargv[..], before, nonoptStart, nnonopts, nopts, orb, j)
    {
      ghost var pre := nargv[..];
      if pos >= nonoptEnd {
        pos := pos - nnonopts;
      } else {
        pos := pos + nopts;
      }
      CycleStep(nnonopts, nopts, ncycle, cyclelen, i, orb, j);
      var swap := nargv[pos];
      nargv[pos] := nargv[cstart];
      nargv[cstart] := swap;
      SwapInCycle(pre, nargv[..], before, nonoptStart, nnonopts, nopts, orb, j);
      j := j + 1;
    }
    CycleDone(nargv[..], before, old', nonoptStart, nnonopts, nopts, ncycle, cyclelen, i, orb);
  }

  lemma CycleRange(n: int, m: int, g: int, count: int, i: int, orb: seq<int>)
    requires g > 0 && IsCycle(n, m, g, count, i, orb)
    ensures |orb| == count > 0 && orb[0] == n + i
    ensures forall k | 0 <= k < |orb| :: 0 <= orb[k] < n + m
    ensures forall a, b | 0 <= a < b < |orb| :: orb[a] != orb[b]
  {
  }

  lemma CycleStep(n: int, m: int, g: int, count: int, i: int, orb: seq<int>, j: int)
    requires g > 0 && IsCycle(n, m, g, count, i, orb) && 0 <= j < count
    ensures Next(n, m, orb[j]) == orb[if j + 1 < count then j + 1 else 0]
  {
    assert j + 1 < count ==> Follows(n, m, orb, j + 1);
  }

  lemma CycleStart<T>(before: seq<T>, start: int, n: int, m: int, orb: seq<int>)
    requires n >= 0 && m >= 0 && 0 <= start && start + n + m <= |before|
    requires |orb| > 0 && forall k | 0 <= k < |orb| :: 0 <= orb[k] < n + m
    ensures InCycle(before, before, start, n, m, orb, 0)
  {
  }

  lemma SwapInCycle<T>(pre: seq<T>, now: seq<T>, before: seq<T>, start: int, n: int, m: int, orb: seq<int>, j: int)
    requires n >= 0 && m >= 0 && 0 <= start && start + n + m <= |before| == |now| == |pre|
    requires 0 <= j < |orb| && forall k | 0 <= k < |orb| :: 0 <= orb[k] < n + m
    requires forall a, b | 0 <= a < b < |orb| :: orb[a] != orb[b]
    requires InCycle(pre, before, start, n, m, orb, j)
    requires var c, p := start + orb[0], start + orb[if j + 1 < |orb| then j + 1 else 0];
             now == pre[p := pre[c]][c := pre[p]]
    ensures InCycle(now, before, start, n, m, orb, j + 1)
  {
    var c, p := start + orb[0], start + orb[if j + 1 < |orb| then j + 1 else 0];
    var j' := j + 1;
    forall k | 0 < k < |orb|
      ensures Placed(now, before, start, orb, j', k)
    {
      assert Placed(pre, before, start, orb, j, k);
    }
    if j + 1 < |orb| {
      assert Placed(pre, before, start, orb, j, j + 1);
    }
    forall q | 0 <= q < |now| && (q - start) !in orb
      ensures now[q] == before[q]
    {
      assert q != c && q != p;
    }
  }

  lemma ClassRange(l: int, g: int)
    requires g > 0
    ensures forall t | 0 <= t < l :: 0 <= Class(t, g) < g
  {
  }

  lemma CycleLength(n: int, m: int, g: int, count: int, x: int, y: int)
    requires n >= 0 && m > 0 && g > 0 && Divides(g, n) && Divides(g, m) && g == x * n + y * m && count == (n + m) / g
    ensures Cycles(n, m, g, count, y - x, x)
  {
    var kn: int :| kn * g == n;
    var km: int :| km * g == m;
    assert (kn + km) * g == n + m;
    DivModUnique(n + m, g, kn + km, 0);
    assert (y - x) * m + x * (n + m) == x * n + y * m;
    DividesBound(g, m);
    assert km >= 1;
    assert kn >= 0;
  }

  /** When all cycles are done, the two blocks have changed places. */
  lemma Exchanged<T>(now: seq<T>, old': seq<T>, start: int, mid: int, end: int, g: int)
    requires g > 0 && 0 <= start <= mid < end <= |old'| == |now|
    requires forall t | 0 <= t < end - start :: Class(t, g) < g
    requires Progress(now, old', start, mid - start, end - mid, g, g)
    ensures now == old'[..start] + old'[mid..end] + old'[start..mid] + old'[end..]
  {
    var want := old'[..start] + old'[mid..end] + old'[start..mid] + old'[end..];
    forall p | 0 <= p < |now|
      ensures now[p] == want[p]
    {
      if start <= p < end {
        var t := p - start;
        assert now[start + t] == old'[start + Prev(mid - start, end - mid, t)];
      }
    }
  }
}
