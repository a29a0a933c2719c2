/** Iteration over a set, in an order that is not specified. */
module Sets {

  /** The list holds the members of s, each once. */
  predicate Enumerates(list: seq<int>, s: set<int>) {
    && (forall i, j | 0 <= i < j < |list| :: list[i] != list[j])
    && (forall x | x in s :: x in list)
    && (forall i | 0 <= i < |list| :: list[i] in s)
  }

  method Listing(s: set<int>) returns (list: seq<int>)
    ensures Enumerates(list, s)
  {
    var rest := s;
    list := [];
    while exists x :: x in rest
      invariant forall x | x in s :: x in list || x in rest
      invariant rest <= s
      invariant forall i | 0 <= i < |list| :: list[i] in s && list[i] !in rest
      invariant forall i, j | 0 <= i < j < |list| :: list[i] != list[j]
      decreases |rest|
    {
      var x :| x in rest;
      rest, list := rest - {x}, list + [x];
    }
  }
}
