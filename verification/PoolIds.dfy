/**
 Element IDs of src/common/Pool.h: an ID packs the index of an element and its reincarnation
 counter, so that an ID taken before the element was freed is recognized as stale. The
 counter is kept to `k` bits.
 */
module PoolIds {
  import opened Wrappers
  import opened Arithmetic

  const ID_BITS := 64

  /** bitsForSize(): the least number of bits that tell `n` elements apart. */
  method BitsForSize(n: nat) returns (bits: nat)
    ensures n <= Pow2(bits)
    ensures forall b: nat | n <= Pow2(b) :: bits <= b
  {
    if n == 0 {
      return 0;
    }
    hide Pow2;
    FourTimes(0);
    var size := n - 1;
    bits := 0;
    // size is (n - 1) / 2^bits
    ghost var rest := 0;
    while size > 1
      invariant size >= 0 && 0 <= rest < Pow2(bits) && n - 1 == size * Pow2(bits) + rest
      invariant bits > 0 ==> n - 1 >= Pow2(bits - 1)
    {
      ghost var p := Pow2(bits);
      FourTimes(bits);
      QuarterStep(n - 1, size, p, rest);
      rest := (size % 4) * p + rest;
      bits, size := bits + 2, size / 4;
    }
    FourTimes(bits);
    bits := bits + size;
    LeastBits(n, bits);
  }

  lemma LeastBits(n: nat, bits: nat)
    requires bits > 0 ==> Pow2(bits - 1) < n
    ensures forall b: nat | n <= Pow2(b) :: bits <= b
  {
    forall b: nat | n <= Pow2(b)
      ensures bits <= b
    {
      if b < bits { Pow2Monotone(b, bits - 1); }
    }
  }

  lemma FourTimes(b: nat)
    ensures Pow2(0) == 1 && Pow2(b + 1) == 2 * Pow2(b) && Pow2(b + 2) == 4 * Pow2(b)
  {
    assert Pow2(b + 2) == 2 * Pow2(b + 1);
  }

  lemma QuarterStep(n: int, size: int, p: int, rest: int)
    requires p >= 1 && size > 1 && 0 <= rest < p && n == size * p + rest
    ensures var rest' := (size % 4) * p + rest; 0 <= rest' < 4 * p && n == (size / 4) * (4 * p) + rest' && n >= 2 * p
  {
    assert size * p == (size / 4) * (4 * p) + (size % 4) * p;
    assert (size % 4) * p <= 3 * p;
    assert size * p >= 2 * p;
  }

  lemma {:induction false} Pow2Monotone(a: nat, b: nat)
    requires a <= b
    ensures Pow2(a) <= Pow2(b)
    decreases b - a
  {
    if a < b {
      Pow2Monotone(a, b - 1);
    }
  }

  /** getID(): 0 for an object that is not in the pool; arithmetic on 64 bits. */
  function IdOf(size: nat, bits: nat, reincarnation: nat, index: int): int {
    if size == 0 || index < 0 || index >= size then 0
    else (BitOr(reincarnation * Pow2(bits) % Pow2(ID_BITS), index) + 1) % Pow2(ID_BITS)
  }

  /** The pool's configuration: IDs of `bits` index bits and `k` counter bits fit into 64 bits. */
  predicate IdLayout(size: nat, bits: nat, k: nat) {
    size + 1 <= Pow2(bits) && bits + k <= ID_BITS
  }

  /** The index that fromID() finds in `id`, if its counter is the element's current one. */
  function IndexOf(size: nat, bits: nat, reincarnation: seq<nat>, id: int): Option<nat>
    requires |reincarnation| == size
  {
    if id <= 0 || id == Pow2(ID_BITS) - 1 then None
    else
      var index := BitAnd(id - 1, Pow2(bits) - 1);
      if index >= size then None
      else if (id - 1) / Pow2(bits) != reincarnation[index] then None
      else Some(index)
  }

  /** The bits of an ID: no overflow, and never zero for an element of the pool. */
  lemma IdValue(size: nat, bits: nat, k: nat, r: nat, index: nat)
    requires IdLayout(size, bits, k) && r < Pow2(k) && index < size
    ensures IdOf(size, bits, r, index) == r * Pow2(bits) + index + 1
    ensures 0 < IdOf(size, bits, r, index) < Pow2(ID_BITS)
  {
    hide Pow2, BitOr;
    var p, all := Pow2(bits), Pow2(ID_BITS);
    PackedBelow(bits, k, r);
    assert r * p >= 0;
    DivModUnique(r * p, all, 0, r * p);
    OrIsPlus(r, index, bits);
    DivModUnique(r * p + index + 1, all, 0, r * p + index + 1);
  }

  lemma PackedBelow(bits: nat, k: nat, r: nat)
    requires bits + k <= ID_BITS && r < Pow2(k)
    ensures r * Pow2(bits) <= Pow2(ID_BITS) - Pow2(bits)
  {
    hide Pow2;
    Pow2Add(k, bits);
    Pow2Monotone(k + bits, ID_BITS);
    ProductBelow(r, Pow2(k), Pow2(bits));
  }

  lemma ProductBelow(r: nat, q: nat, p: nat)
    requires r < q
    ensures r * p <= q * p - p
  {
    assert (q - r - 1) * p >= 0;
    assert (q - r - 1) * p == q * p - r * p - p;
  }

  /** getID() tells elements apart, and also the reincarnations of one element. */
  lemma IdsDistinct(size: nat, bits: nat, k: nat, r: nat, i: nat, r': nat, j: nat)
    requires IdLayout(size, bits, k) && r < Pow2(k) && r' < Pow2(k) && i < size && j < size
    requires i != j || r != r'
    ensures IdOf(size, bits, r, i) != IdOf(size, bits, r', j)
  {
    IdValue(size, bits, k, r, i);
    IdValue(size, bits, k, r', j);
    DivModUnique(r * Pow2(bits) + i, Pow2(bits), r, i);
    DivModUnique(r' * Pow2(bits) + j, Pow2(bits), r', j);
  }

  /** The only ID of a pool element that fromID() takes for its "invalid" mark -1. */
  predicate IsAllOnes(bits: nat, r: nat, index: nat)
    requires bits <= ID_BITS
  {
    r == Pow2(ID_BITS - bits) - 1 && index == Pow2(bits) - 2
  }

  /**
   An ID taken at counter `r` is accepted, and then leads back to its element, exactly if the
   counter has this value again; the one exception is the all-ones ID, which is never accepted.
   */
  lemma FromIdOfGetId(size: nat, bits: nat, k: nat, r: nat, index: nat, now: seq<nat>)
    requires IdLayout(size, bits, k) && r < Pow2(k) && index < size && |now| == size
    ensures IndexOf(size, bits, now, IdOf(size, bits, r, index))
         == if now[index] == r && !IsAllOnes(bits, r, index) then Some(index) else None
  {
    hide Pow2, BitAnd, IdOf, IsAllOnes;
    var p := Pow2(bits);
    IdValue(size, bits, k, r, index);
    AndMask(r * p + index, bits);
    DivModUnique(r * p + index, p, r, index);
    AllOnes(size, bits, k, r, index);
  }

  lemma AllOnes(size: nat, bits: nat, k: nat, r: nat, index: nat)
    requires IdLayout(size, bits, k) && r < Pow2(k) && index < size
    ensures r * Pow2(bits) + index + 1 == Pow2(ID_BITS) - 1 <==> IsAllOnes(bits, r, index)
  {
    hide Pow2;
    var p, q := Pow2(bits), Pow2(ID_BITS - bits);
    Pow2Add(ID_BITS - bits, bits);
    LastNumber(q, p, r, index);
  }

  lemma LastNumber(q: int, p: int, r: int, index: int)
    requires 0 <= index < p - 1
    ensures r * p + index == q * p - 2 <==> r == q - 1 && index == p - 2
  {
    assert (q - 1) * p + (p - 2) == q * p - 2;
    if r * p + index == q * p - 2 {
      DivModUnique(r * p + index, p, r, index);
      DivModUnique(r * p + index, p, q - 1, p - 2);
    }
  }

  /** Any ID that fromID() accepts is the current ID of the element it yields. */
  lemma AcceptedIsCurrent(size: nat, bits: nat, k: nat, now: seq<nat>, id: int)
    requires IdLayout(size, bits, k) && |now| == size && (forall i | 0 <= i < size :: now[i] < Pow2(k))
    requires IndexOf(size, bits, now, id).Some?
    ensures var i := IndexOf(size, bits, now, id).value; i < size && IdOf(size, bits, now[i], i) == id
  {
    var i := IndexOf(size, bits, now, id).value;
    AndMask(id - 1, bits);
    DivMod(id - 1, Pow2(bits));
    IdValue(size, bits, k, now[i], i);
  }

  /** The counter of an element after `frees` frees comes back to its value only after a multiple of 2^k frees. */
  lemma StaleIdRejected(size: nat, bits: nat, k: nat, index: nat, taken: nat, frees: nat, now: seq<nat>)
    requires IdLayout(size, bits, k) && index < size && |now| == size
    requires now[index] == (taken + frees) % Pow2(k)
    ensures var id := IdOf(size, bits, taken % Pow2(k), index);
            IndexOf(size, bits, now, id) == Some(index) <==>
            frees % Pow2(k) == 0 && !IsAllOnes(bits, taken % Pow2(k), index)
    ensures IndexOf(size, bits, now, IdOf(size, bits, taken % Pow2(k), index)) in {None, Some(index)}
  {
    var d := Pow2(k);
    FromIdOfGetId(size, bits, k, taken % d, index, now);
    SameRemainder(taken, frees, d);
  }

  lemma SameRemainder(taken: nat, frees: nat, d: nat)
    requires d > 0
    ensures (taken + frees) % d == taken % d <==> frees % d == 0
  {
    DivMod(taken, d);
    DivMod(frees, d);
    DivMod(taken + frees, d);
    var a, b, c := taken / d, frees / d, (taken + frees) / d;
    if frees % d == 0 {
      assert taken + frees == (a + b) * d + taken % d by { assert (a + b) * d == a * d + b * d; }
      DivModUnique(taken + frees, d, a + b, taken % d);
    }
    if (taken + frees) % d == taken % d {
      assert frees == (c - a) * d by { assert (c - a) * d == c * d - a * d; }
      DivModUnique(frees, d, c - a, 0);
    }
  }

  /** A counter that does not use all bits beside the index, as with the int-width mask, makes no ID of all ones. */
  lemma NarrowCounterNeverAllOnes(bits: nat, k: nat, r: nat, index: nat)
    requires bits + k < ID_BITS && r < Pow2(k)
    ensures !IsAllOnes(bits, r, index)
  {
    hide Pow2;
    var w := ID_BITS - bits - 1;
    Pow2Monotone(k, w);
    FourTimes(w);
  }

  /**
   A pool of one element after 2^63 - 1 frees, with a counter of 63 bits: the element has the all-ones ID, which is
   not accepted although it is the current one.
   */
  lemma AllOnesExample()
    ensures var r := Pow2(63) - 1;
            && IdLayout(1, 1, 63) && IsAllOnes(1, r, 0)
            && IndexOf(1, 1, [r], IdOf(1, 1, r, 0)) == None
  {
    FourTimes(0);
    assert Pow2(1) == 2;
    hide Pow2;
    FromIdOfGetId(1, 1, 63, Pow2(63) - 1, 0, [Pow2(63) - 1]);
  }
}
