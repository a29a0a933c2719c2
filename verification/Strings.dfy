/** Searching in strings as std::string does, with -1 for npos. */
module Strings {

  /** string::find(c, from) */
  function FindChar(s: string, c: char, from: nat): (r: int)
    ensures r == -1 || from <= r < |s|
    ensures r >= 0 ==> s[r] == c && forall k | from <= k < r :: s[k] != c
    ensures r == -1 ==> forall k | from <= k < |s| :: s[k] != c
    decreases |s| - from
  {
    if from >= |s| then -1 else if s[from] == c then from else FindChar(s, c, from + 1)
  }

  /** string::find_first_not_of(c, from) */
  function FindOther(s: string, c: char, from: nat): (r: int)
    ensures r == -1 || from <= r < |s|
    ensures r >= 0 ==> s[r] != c && forall k | from <= k < r :: s[k] == c
    ensures r == -1 ==> forall k | from <= k < |s| :: s[k] == c
    decreases |s| - from
  {
    if from >= |s| then -1 else if s[from] != c then from else FindOther(s, c, from + 1)
  }

  lemma JoinAssoc<T>(a: seq<T>, b: seq<T>, c: seq<T>)
    ensures a + (b + c) == (a + b) + c
  {
  }
}
