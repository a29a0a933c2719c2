/**
 Model of getopt_long() as msvc/compat/getopt.h implements it: getopt_internal() with
 FLAG_PERMUTE, for an option string that starts with neither '+' nor '-' and without
 POSIXLY_CORRECT. Non-options that are skipped are moved behind the options, call by call.

 A C string is a Dafny string; reading its terminator is reading past its end.
 */
module Getopt {
  import opened Wrappers
  import opened PermuteArgs
  import opened GetoptSpec

  // ----- Reference behaviour -----

  /** The elements that carry the mark `b`, in their order. */
  function Pick<T>(s: seq<T>, marks: seq<bool>, b: bool): seq<T>
    requires |marks| == |s|
  {
    if s == [] then []
    else
      var n := |s| - 1;
      Pick(s[..n], marks[..n], b) + if marks[n] == b then [s[n]] else []
  }

  lemma PickAppend<T>(s: seq<T>, marks: seq<bool>, b: bool, x: T, c: bool)
    requires |marks| == |s|
    ensures Pick(s + [x], marks + [c], b) == Pick(s, marks, b) + if c == b then [x] else []
  {
    assert (s + [x])[..|s|] == s && (marks + [c])[..|s|] == marks;
  }

  lemma {:induction false} PickCount<T>(s: seq<T>, marks: seq<bool>)
    requires |marks| == |s|
    ensures |Pick(s, marks, true)| + |Pick(s, marks, false)| == |s|
  {
    if s != [] {
      PickCount(s[..|s| - 1], marks[..|s| - 1]);
    }
  }

  lemma MultisetAppend<T>(s: seq<T>, x: T)
    ensures multiset(s + [x]) == multiset(s) + multiset{x}
  {
  }

  /** Every word is picked once. */
  lemma {:induction false} PickPermutes<T>(s: seq<T>, marks: seq<bool>)
    requires |marks| == |s|
    ensures multiset(Pick(s, marks, true)) + multiset(Pick(s, marks, false)) == multiset(s)
  {
    if s != [] {
      var n := |s| - 1;
      assert s == s[..n] + [s[n]] && marks == marks[..n] + [marks[n]];
      hide Pick;
      PickPermutes(s[..n], marks[..n]);
      PickAppend(s[..n], marks[..n], true, s[n], marks[n]);
      PickAppend(s[..n], marks[..n], false, s[n], marks[n]);
      OneMorePicked(Pick(s[..n], marks[..n], true), Pick(s[..n], marks[..n], false), s[..n], s[n], marks[n]);
    }
  }

  lemma OneMorePicked<T>(used: seq<T>, skipped: seq<T>, s: seq<T>, x: T, c: bool)
    requires multiset(used) + multiset(skipped) == multiset(s)
    ensures multiset(used + if c == true then [x] else []) + multiset(skipped + if c == false then [x] else [])
            == multiset(s + [x])
  {
    MultisetAppend(s, x);
    if c {
      MultisetAppend(used, x);
      assert skipped + [] == skipped;
    } else {
      MultisetAppend(skipped, x);
      assert used + [] == used;
    }
  }

  // ----- The vector between two calls -----

  /**
   The vector while words first..optind of the original one have been looked at. `marks` says which
   of them were consumed as options or option arguments; the others were skipped. Skipped words form
   one block, which still has the words consumed after it behind it if `nonoptEnd` is set.
   */
  ghost predicate Layout(now: seq<string>, orig: seq<string>, first: int, optind: int, marks: seq<bool>,
      nonoptStart: int, nonoptEnd: int) {
    && 0 <= first <= optind <= |orig| && |marks| == optind - first
    && var seen := orig[first..optind];
    && var used, skipped := Pick(seen, marks, true), Pick(seen, marks, false);
    && (nonoptStart == -1 ==> nonoptEnd == -1 && skipped == [])
    && (nonoptStart != -1 ==> skipped != [] && first <= nonoptStart <= first + |used|)
    && (nonoptStart != -1 && nonoptEnd == -1 ==> nonoptStart == first + |used|)
    && (nonoptEnd != -1 ==> nonoptEnd == nonoptStart + |skipped|)
    && Looks(now, orig[..first], used, skipped,
        if nonoptStart == -1 then |used| else nonoptStart - first, orig[optind..])
  }

  predicate Looks(now: seq<string>, pre: seq<string>, used: seq<string>, skipped: seq<string>, at: int,
      rest: seq<string>) {
    now == pre + Arranged(used, skipped, at) + rest
  }

  /** The skipped words inserted into the consumed ones at index `at`. */
  function Arranged(used: seq<string>, skipped: seq<string>, at: int): seq<string> {
    if 0 <= at <= |used| then used[..at] + skipped + used[at..] else []
  }

  lemma Sizes(orig: seq<string>, first: int, optind: int, marks: seq<bool>)
    requires 0 <= first <= optind <= |orig| && |marks| == optind - first
    ensures |Pick(orig[first..optind], marks, true)| + |Pick(orig[first..optind], marks, false)| == optind - first
  {
    PickCount(orig[first..optind], marks);
  }

  /** One more word is looked at. */
  lemma OneMore(orig: seq<string>, first: int, optind: int, marks: seq<bool>, c: bool)
    requires 0 <= first <= optind < |orig| && |marks| == optind - first
    ensures forall b :: Pick(orig[first..optind + 1], marks + [c], b)
                        == Pick(orig[first..optind], marks, b) + if c == b then [orig[optind]] else []
    ensures orig[optind..] == [orig[optind]] + orig[optind + 1..]
  {
    assert orig[first..optind + 1] == orig[first..optind] + [orig[optind]];
    forall b {
      PickAppend(orig[first..optind], marks, b, orig[optind], c);
    }
  }

  lemma SkipWord(now: seq<string>, orig: seq<string>, first: int, optind: int, marks: seq<bool>, nonoptStart: int)
    requires Layout(now, orig, first, optind, marks, nonoptStart, -1) && optind < |orig|
    ensures Layout(now, orig, first, optind + 1, marks + [false], if nonoptStart == -1 then optind else nonoptStart, -1)
  {
    hide Pick;
    Sizes(orig, first, optind, marks);
    OneMore(orig, first, optind, marks, false);
    var used, skipped := Pick(orig[first..optind], marks, true), Pick(orig[first..optind], marks, false);
    assert used[..|used|] == used && used[|used|..] == [];
    assert now == orig[..first] + (used + skipped + []) + ([orig[optind]] + orig[optind + 1..]);
    assert now == orig[..first] + (used + (skipped + [orig[optind]]) + []) + orig[optind + 1..];
  }

  lemma ConsumeWord(now: seq<string>, orig: seq<string>, first: int, optind: int, marks: seq<bool>, nonoptStart: int,
      nonoptEnd: int)
    requires Layout(now, orig, first, optind, marks, nonoptStart, nonoptEnd) && optind < |orig|
    requires nonoptStart != -1 ==> nonoptEnd != -1
    ensures Layout(now, orig, first, optind + 1, marks + [true], nonoptStart, nonoptEnd)
  {
    hide Pick, Looks;
    Sizes(orig, first, optind, marks);
    OneMore(orig, first, optind, marks, true);
    var used, skipped := Pick(orig[first..optind], marks, true), Pick(orig[first..optind], marks, false);
    var at := if nonoptStart == -1 then |used| else nonoptStart - first;
    assert skipped + [] == skipped;
    LooksConsumed(now, orig[..first], used, skipped, at, orig[optind], orig[optind + 1..]);
  }

  lemma LooksConsumed(now: seq<string>, pre: seq<string>, used: seq<string>, skipped: seq<string>, at: int, w: string,
      rest: seq<string>)
    requires 0 <= at <= |used| && Looks(now, pre, used, skipped, at, [w] + rest)
    ensures Looks(now, pre, used + [w], skipped, at, rest)
    ensures skipped == [] ==> Looks(now, pre, used + [w], skipped, |used| + 1, rest)
  {
    hide Arranged;
    ArrangedAppend(used, skipped, at, w);
    Regroup(pre, Arranged(used, skipped, at), [w], rest);
  }

  lemma ArrangedAppend(used: seq<string>, skipped: seq<string>, at: int, w: string)
    requires 0 <= at <= |used|
    ensures Arranged(used, skipped, at) + [w] == Arranged(used + [w], skipped, at)
    ensures skipped == [] ==> Arranged(used, skipped, at) + [w] == Arranged(used + [w], skipped, |used| + 1)
  {
    var used' := used + [w];
    assert used'[..at] == used[..at] && used'[at..] == used[at..] + [w];
    assert used'[..|used'|] == used' && used'[|used'|..] == [];
  }

  lemma Regroup<T>(a: seq<T>, b: seq<T>, c: seq<T>, d: seq<T>)
    ensures a + b + (c + d) == a + (b + c) + d
  {
  }

  /** Four blocks, of which the middle ones are exchanged. */
  lemma SwappedBlocks(p: seq<string>, s: seq<string>, b: seq<string>, rest: seq<string>)
    ensures var now := p + s + b + rest; Swapped(now, |p|, |p| + |s|, |p| + |s| + |b|) == p + b + s + rest
  {
    var now := p + s + b + rest;
    assert now[..|p|] == p;
    assert now[|p|..|p| + |s|] == s;
    assert now[|p| + |s|..|p| + |s| + |b|] == b;
    assert now[|p| + |s| + |b|..] == rest;
  }

  lemma {:induction false} ConsumeWords(now: seq<string>, orig: seq<string>, first: int, optind: int,
      marks: seq<bool>, nonoptStart: int, nonoptEnd: int, k: nat)
    requires Layout(now, orig, first, optind, marks, nonoptStart, nonoptEnd) && optind + k <= |orig|
    requires nonoptStart != -1 ==> nonoptEnd != -1
    ensures Layout(now, orig, first, optind + k, marks + Trues(k), nonoptStart, nonoptEnd)
  {
    hide Layout;
    if k == 0 {
      assert marks + Trues(0) == marks;
    } else {
      ConsumeWords(now, orig, first, optind, marks, nonoptStart, nonoptEnd, k - 1);
      ConsumeWord(now, orig, first, optind + k - 1, marks + Trues(k - 1), nonoptStart, nonoptEnd);
      assert marks + Trues(k) == marks + Trues(k - 1) + [true];
    }
  }

  /** The next word is an option: the block of skipped words ends here. */
  lemma BlockEnds(now: seq<string>, orig: seq<string>, first: int, optind: int, marks: seq<bool>, nonoptStart: int)
    requires Layout(now, orig, first, optind, marks, nonoptStart, -1) && nonoptStart != -1
    ensures Layout(now, orig, first, optind, marks, nonoptStart, optind)
  {
    Sizes(orig, first, optind, marks);
  }

  /** What permute_args() makes of the vector. */
  function Swapped(now: seq<string>, start: int, mid: int, end: int): seq<string>
    requires 0 <= start <= mid <= end <= |now|
  {
    now[..start] + now[mid..end] + now[start..mid] + now[end..]
  }

  lemma PermuteWords(now: seq<string>, orig: seq<string>, first: int, optind: int, marks: seq<bool>, nonoptStart: int,
      nonoptEnd: int)
    requires Layout(now, orig, first, optind, marks, nonoptStart, nonoptEnd) && nonoptEnd != -1
    ensures 0 <= nonoptStart < nonoptEnd <= optind <= |now| == |orig|
    ensures Layout(Swapped(now, nonoptStart, nonoptEnd, optind), orig, first, optind, marks,
            optind - (nonoptEnd - nonoptStart), -1)
  {
    hide Pick, Arranged, Swapped;
    Sizes(orig, first, optind, marks);
    var used, skipped := Pick(orig[first..optind], marks, true), Pick(orig[first..optind], marks, false);
    SwappedArranged(orig[..first], used, skipped, nonoptStart - first, orig[optind..]);
  }

  lemma SwappedArranged(pre: seq<string>, used: seq<string>, skipped: seq<string>, at: int, rest: seq<string>)
    requires 0 <= at <= |used|
    ensures var now, start, end := pre + Arranged(used, skipped, at) + rest, |pre| + at, |pre| + |used| + |skipped|;
            && end <= |now| == end + |rest|
            && Swapped(now, start, start + |skipped|, end) == pre + Arranged(used, skipped, |used|) + rest
  {
    var a, b := used[..at], used[at..];
    ArrangedIs(used, skipped, at);
    ArrangedIs(used, skipped, |used|);
    assert used == a + b;
    hide Arranged, Swapped;
    Flat(pre, a, skipped, b, rest);
    SwappedBlocks(pre + a, skipped, b, rest);
    Flat(pre, a, b, skipped, rest);
    assert used + skipped + [] == a + b + skipped;
  }

  lemma Flat<T>(p: seq<T>, a: seq<T>, s: seq<T>, b: seq<T>, rest: seq<T>)
    ensures p + (a + s + b) + rest == (p + a) + s + b + rest
  {
  }

  lemma ArrangedIs(used: seq<string>, skipped: seq<string>, at: int)
    requires 0 <= at <= |used|
    ensures Arranged(used, skipped, at) == used[..at] + skipped + used[at..]
    ensures used[..|used|] == used && used[|used|..] == []
  {
  }

  // ----- The end of a run -----

  /** Consumed words first, then the skipped ones, both in their original order, then what was not looked at. */
  ghost predicate InOrder(now: seq<string>, orig: seq<string>, first: int, scanned: int, marks: seq<bool>,
      optind: int) {
    && 0 <= first <= scanned <= |orig| && |marks| == scanned - first
    && var used, skipped := Pick(orig[first..scanned], marks, true), Pick(orig[first..scanned], marks, false);
    && now == orig[..first] + used + skipped + orig[scanned..]
    && optind == first + |used|
  }

  lemma SettledIsInOrder(now: seq<string>, orig: seq<string>, first: int, scanned: int, marks: seq<bool>,
      nonoptStart: int)
    requires Layout(now, orig, first, scanned, marks, nonoptStart, -1)
    ensures InOrder(now, orig, first, scanned, marks, if nonoptStart == -1 then scanned else nonoptStart)
  {
    hide Pick;
    Sizes(orig, first, scanned, marks);
    var used, skipped := Pick(orig[first..scanned], marks, true), Pick(orig[first..scanned], marks, false);
    assert used[..|used|] == used && used[|used|..] == [];
    assert now == orig[..first] + (used + skipped + []) + orig[scanned..];
  }

  lemma {:induction false} SkippedAreNonOptions(options: string, s: seq<string>, marks: seq<bool>)
    requires |marks| == |s| && forall k | 0 <= k < |s| && !marks[k] :: IsNonOption(options, s[k])
    ensures forall x | x in Pick(s, marks, false) :: IsNonOption(options, x)
    decreases |s|
  {
    hide IsNonOption;
    if s != [] {
      var n := |s| - 1;
      SkippedAreNonOptions(options, s[..n], marks[..n]);
    }
  }

  /** From optind on to the end of what was looked at there are the non-options. */
  lemma NonOptionsFromOptind(c: Setting, now: seq<string>, orig: seq<string>, first: int, marks: seq<bool>, optind: int)
    requires InOrder(now, orig, first, first + |marks|, marks, optind) && MarksOk(c, orig[first..], marks)
    ensures first <= optind <= first + |marks| <= |now|
    ensures forall i | optind <= i < first + |marks| :: IsNonOption(c.options, now[i])
  {
    var seen := orig[first..first + |marks|];
    forall k | 0 <= k < |seen| && !marks[k]
      ensures IsNonOption(c.options, seen[k])
    {
      assert MarkOk(c, orig[first..], marks, k) && seen[k] == orig[first..][k];
    }
    SkippedAreNonOptions(c.options, seen, marks);
    Sizes(orig, first, first + |marks|, marks);
    hide Pick, IsNonOption, MarksOk;
    var used, skipped := Pick(seen, marks, true), Pick(seen, marks, false);
    forall i | optind <= i < first + |marks|
      ensures now[i] == skipped[i - optind] && now[i] in skipped
    {
    }
  }

  /** The vector stays a permutation of the original one. */
  lemma InOrderPermutes(now: seq<string>, orig: seq<string>, first: int, scanned: int, marks: seq<bool>, optind: int)
    requires InOrder(now, orig, first, scanned, marks, optind)
    ensures multiset(now) == multiset(orig)
  {
    var seen := orig[first..scanned];
    var used, skipped := Pick(seen, marks, true), Pick(seen, marks, false);
    PickPermutes(seen, marks);
    assert now == orig[..first] + (used + skipped) + orig[scanned..];
    assert orig == orig[..first] + seen + orig[scanned..];
  }

  // ----- parse_long_options() -----

  /** The part of a long option before '=', and the part behind it if there is one. */
  method SplitAtEqual(word: string) returns (name: string, arg: Option<string>)
    ensures '=' !in name && word == name + (if arg.Some? then "=" + arg.value else "")
    ensures name == NameOf(word) && arg == ArgOf(word)
  {
    var i := 0;
    while i < |word| && word[i] != '='
      invariant 0 <= i <= |word| && '=' !in word[..i]
    {
      i := i + 1;
    }
    name := word[..i];
    FirstEqual(word, i);
    if i < |word| {
      arg := Some(word[i + 1..]);
      assert word == word[..i] + "=" + word[i + 1..];
    } else {
      arg := None;
    }
  }

  lemma FirstEqual(word: string, i: nat)
    requires i <= |word| && '=' !in word[..i] && (i < |word| ==> word[i] == '=')
    ensures IndexOf(word, '=') == if i < |word| then i else -1
  {
    var j := IndexOf(word, '=');
    assert forall k | 0 <= k < i :: word[k] == word[..i][k];
    assert forall k | 0 <= k < j :: word[k] == word[..j][k];
  }

  /**
   The long option a word stands for: the first one with exactly that name, or else the first one whose
   name the word abbreviates. It is ambiguous if another abbreviated option means something else.
   */
  method FindLong(longs: seq<LongOption>, word: string) returns (found: int, ambiguous: bool)
    ensures -1 <= found < |longs|
    ensures MeaningOf(longs, word) ==
            if ambiguous then Ambiguous else if found == -1 then Unknown else Known(longs[found])
  {
    found, ambiguous := -1, false;
    var i := 0;
    while i < |longs|
      invariant 0 <= i <= |longs| && -1 <= found < i
      invariant forall k | 0 <= k < i :: longs[k].name != word
      invariant found == -1 ==> !ambiguous && forall k | 0 <= k < i :: !IsPrefixOf(word, longs[k].name)
      invariant found >= 0 ==>
                  IsPrefixOf(word, longs[found].name) && forall k | 0 <= k < found :: !IsPrefixOf(word, longs[k].name)
      invariant found >= 0 ==> (ambiguous <==>
                  exists k :: found < k < i && IsPrefixOf(word, longs[k].name) && !SameMeaning(longs[k], longs[found]))
    {
      if IsPrefixOf(word, longs[i].name) {
        if |longs[i].name| == |word| {
          found, ambiguous := i, false;
          assert longs[i].name == word;
          assert FirstNamed(longs, word) == i;
          return;
        }
        if found == -1 {
          found := i;
        } else if !SameMeaning(longs[i], longs[found]) {
          ambiguous := true;
        }
      }
      i := i + 1;
    }
    assert FirstAbbreviated(longs, word) == found;
  }

  // ----- getopt_internal() -----

  predicate IsSuffixOf(part: string, word: string) {
    |part| <= |word| && word[|word| - |part|..] == part
  }

  /** What is still to be read at word optind, from the part `place` of it on if that is not empty. */
  ghost function Pending(c: Setting, orig: seq<string>, optind: int, place: string): Parse
    requires 0 <= optind <= |orig| && (place != "" ==> optind < |orig|)
  {
    if place == "" then Read(c, orig[optind..]) else ReadWord(c, orig[optind..], place)
  }

  lemma AfterAfter(r: seq<Report>, m: seq<bool>, r': seq<Report>, m': seq<bool>, p: Parse)
    ensures After(r, m, After(r', m', p)) == After(r + r', m + m', p)
  {
  }

  lemma AfterNothing(r: seq<Report>, m: seq<bool>)
    ensures r + [] == r && m + [] == m
  {
  }

  lemma PendingSkip(c: Setting, orig: seq<string>, optind: int, reports: seq<Report>, marks: seq<bool>)
    requires 0 <= optind < |orig| && IsNonOption(c.options, orig[optind])
    ensures After(reports, marks, Pending(c, orig, optind, ""))
            == After(reports, marks + [false], Pending(c, orig, optind + 1, ""))
  {
    assert orig[optind..][1..] == orig[optind + 1..];
    AfterAfter(reports, marks, [], [false], Pending(c, orig, optind + 1, ""));
    assert reports + [] == reports;
  }

  lemma PendingWord(c: Setting, orig: seq<string>, optind: int)
    requires 0 <= optind < |orig| && !IsNonOption(c.options, orig[optind])
    ensures Pending(c, orig, optind, "")
         == if orig[optind] == "--" then Parse([], [true], AtEnd) else Pending(c, orig, optind, Letters(orig[optind]))
  {
  }

  lemma PendingEnd(c: Setting, orig: seq<string>, reports: seq<Report>, marks: seq<bool>)
    ensures After(reports, marks, Pending(c, orig, |orig|, "")) == Parse(reports, marks, AtEnd)
  {
  }

  lemma Tail<T>(s: seq<T>, i: nat, n: nat)
    requires i + n <= |s|
    ensures s[i..][n..] == s[i + n..]
  {
  }

  /** How a run ends whose last call has this effect. */
  function EndingOf(e: Effect): Ending
    requires !e.Effect?
  {
    match e
    case Stuck => AtStuck
    case Returned(words) => AtReturned(words)
    case Misread(words) => AtMisread(words)
  }

  /** A call at an option that ends the run, as the reference reads it. */
  lemma PendingStops(c: Setting, orig: seq<string>, optind: nat, place: string)
    requires optind < |orig| && place != "" && !EffectOf(c, orig[optind], place, orig[optind + 1..]).Effect?
    ensures Pending(c, orig, optind, place)
            == Parse([], [], EndingOf(EffectOf(c, orig[optind], place, orig[optind + 1..])))
  {
    hide EffectOf;
    Tail(orig, optind, 1);
  }

  /** A call that leaves a rest of the word. */
  lemma PendingRest(c: Setting, orig: seq<string>, optind: nat, place: string, reports: seq<Report>, marks: seq<bool>,
      e: Effect)
    requires optind < |orig| && place != "" && e == EffectOf(c, orig[optind], place, orig[optind + 1..])
    requires e.Effect? && e.rest != ""
    ensures After(reports, marks, Pending(c, orig, optind, place))
         == After(reports + [e.report], marks, Pending(c, orig, optind, e.rest))
  {
    hide EffectOf;
    Tail(orig, optind, 1);
    AfterAfter(reports, marks, [e.report], [], ReadWord(c, orig[optind..], e.rest));
    AfterNothing(reports, marks);
  }

  /** A call that uses up the word, and the words it takes. */
  lemma PendingNext(c: Setting, orig: seq<string>, optind: nat, place: string, reports: seq<Report>, marks: seq<bool>,
      e: Effect)
    requires optind < |orig| && place != "" && e == EffectOf(c, orig[optind], place, orig[optind + 1..])
    requires e.Effect? && e.rest == ""
    ensures optind + 1 + e.taken <= |orig|
    ensures After(reports, marks, Pending(c, orig, optind, place))
         == After(reports + [e.report], marks + Trues(1 + e.taken), Pending(c, orig, optind + 1 + e.taken, ""))
  {
    hide EffectOf, Read;
    Tail(orig, optind, 1);
    Tail(orig, optind, 1 + e.taken);
    AfterAfter(reports, marks, [e.report], Trues(1 + e.taken), Read(c, orig[optind + 1 + e.taken..]));
  }

  class Parser {
    const setting: Setting
    const nargv: array<string>
    var optind: int
    var place: string
    var nonoptStart: int
    var nonoptEnd: int
    var optarg: Option<string>
    var optopt: int
    ghost const orig: seq<string>     // the vector before the first call
    ghost const first: int            // optind before the first call
    ghost var marks: seq<bool>        // which words were consumed
    ghost var reports: seq<Report>    // what the calls have reported

    /** The state between two calls, before the end is reported. */
    ghost predicate Valid()
      reads this, nargv
    {
      && |orig| == nargv.Length
      && Layout(nargv[..], orig, first, optind, marks, nonoptStart, nonoptEnd)
      && (place != "" ==>
            && optind < nargv.Length && IsSuffixOf(place, nargv[optind]) && !IsNonOption(setting.options, nargv[optind])
            && (nonoptStart != -1 ==> nonoptEnd != -1))
      && (place == "" && nonoptEnd != -1 ==> nonoptEnd < optind)
      && Read(setting, orig[first..]) == After(reports, marks, Pending(setting, orig, optind, place))
    }

    constructor (setting: Setting, nargv: array<string>)
      requires nargv.Length >= 1
      ensures Valid() && this.setting == setting && this.nargv == nargv
      ensures orig == nargv[..] && first == 1 && reports == [] && marks == []
    {
      this.setting, this.nargv := setting, nargv;
      optind, place, nonoptStart, nonoptEnd, optarg, optopt := 1, "", -1, -1, None, BADCH;
      orig, first, marks, reports := nargv[..], 1, [], [];
      new;
      assert orig[1..1] == [] && nargv[..] == orig[..1] + orig[1..];
    }

    method PermuteSkipped()
      requires |orig| == nargv.Length && Layout(nargv[..], orig, first, optind, marks, nonoptStart, nonoptEnd)
      requires nonoptEnd != -1 && nonoptEnd < optind
      modifies nargv
      ensures Layout(nargv[..], orig, first, optind, marks, optind - (nonoptEnd - nonoptStart), -1)
    {
      hide Layout;
      PermuteWords(nargv[..], orig, first, optind, marks, nonoptStart, nonoptEnd);
      Permute(nonoptStart, nonoptEnd, optind, nargv);
    }

    /** Reports the end: skipped words are moved behind the consumed ones, and optind is the first of them. */
    method Finish()
      requires |orig| == nargv.Length && Layout(nargv[..], orig, first, optind, marks, nonoptStart, nonoptEnd)
      requires nonoptEnd != -1 ==> nonoptEnd < optind
      requires nonoptStart != -1 && nonoptEnd == -1 ==> optind == nargv.Length
      modifies this`optind, this`nonoptStart, this`nonoptEnd, nargv
      ensures InOrder(nargv[..], orig, first, old(optind), marks, optind)
    {
      if nonoptEnd != -1 {
        PermuteSkipped();
        SettledIsInOrder(nargv[..], orig, first, optind, marks, optind - (nonoptEnd - nonoptStart));
        optind := optind - (nonoptEnd - nonoptStart);
      } else {
        SettledIsInOrder(nargv[..], orig, first, optind, marks, nonoptStart);
        if nonoptStart != -1 {
          optind := nonoptStart;
        }
      }
      nonoptStart, nonoptEnd := -1, -1;
    }

    /** Skips the words up to the next option or the end of the vector. */
    method SkipNonOptions()
      requires Valid() && place == ""
      modifies this`optind, this`nonoptStart, this`nonoptEnd, this`marks, nargv
      ensures Valid() && optind >= old(optind)
      ensures optind < nargv.Length ==> nargv[optind] == orig[optind] && !IsNonOption(setting.options, nargv[optind])
    {
      hide Layout, IsNonOption, Read, ReadWord, After, Pending;
      SameTail(nargv[..], orig, first, optind, marks, nonoptStart, nonoptEnd);
      while optind < nargv.Length && IsNonOption(setting.options, nargv[optind])
        invariant Valid() && place == "" && old(optind) <= optind <= nargv.Length && |marks| == optind - first
        invariant optind < nargv.Length ==> nargv[optind] == orig[optind]
        decreases nargv.Length - optind
      {
        if nonoptEnd != -1 {
          PermuteSkipped();
          nonoptStart := optind - (nonoptEnd - nonoptStart);
          nonoptEnd := -1;
        }
        SkipWord(nargv[..], orig, first, optind, marks, nonoptStart);
        PendingSkip(setting, orig, optind, reports, marks);
        if nonoptStart == -1 {
          nonoptStart := optind;
        }
        marks := marks + [false];
        optind := optind + 1;
        SameTail(nargv[..], orig, first, optind, marks, nonoptStart, nonoptEnd);
      }
    }

    /** The scanning part: skips non-options until the next option, "--", or the end of the vector. */
    method Scan() returns (ended: bool)
      requires Valid() && place == ""
      modifies this`optind, this`place, this`nonoptStart, this`nonoptEnd, this`marks, nargv
      ensures !ended ==> Valid() && place != "" && optind >= old(optind)
      ensures ended ==>
                && Read(setting, orig[first..]) == Parse(reports, marks, AtEnd)
                && InOrder(nargv[..], orig, first, first + |marks|, marks, optind)
    {
      hide Layout, InOrder, Read, ReadWord, After, Pending;
      SkipNonOptions();
      SameTail(nargv[..], orig, first, optind, marks, nonoptStart, nonoptEnd);
      if optind >= nargv.Length {
        PendingEnd(setting, orig, reports, marks);
        Finish();
        return true;
      }
      var word := nargv[optind];
      PendingWord(setting, orig, optind);
      if nonoptStart != -1 && nonoptEnd == -1 {
        BlockEnds(nargv[..], orig, first, optind, marks, nonoptStart);
        nonoptEnd := optind;
      }
      if word == "--" {
        ConsumeWord(nargv[..], orig, first, optind, marks, nonoptStart, nonoptEnd);
        ReportsKept(reports, marks);
        optind := optind + 1;
        marks := marks + [true];
        Finish();
        return true;
      }
      place := if |word| > 1 then word[1..] else word;
      return false;
    }

    /** What optopt is after a call with this effect. */
    ghost function OptOptAfter(e: Effect, before: int): int {
      if e.Effect? && e.bad.Some? then e.bad.value else before
    }

    /** parse_long_options(): consumes the word and, if the option needs one, the word behind it as its argument. */
    method ParseLong() returns (ret: int)
      requires 0 <= optind < nargv.Length && optarg.None?
      modifies this`optind, this`optarg, this`optopt
      ensures var e := LongEffect(setting, place, nargv[old(optind) + 1..]);
              && (e.Effect? ==> e.report == Report(ret, optarg) && optind == old(optind) + 1 + e.taken)
              && (e.Misread? ==> ret == END && optind == old(optind) + e.words)
              && (e.Effect? ==> optopt == OptOptAfter(e, old(optopt)))
    {
      hide MeaningOf, NameOf, ArgOf;
      optind := optind + 1;
      var name, arg := SplitAtEqual(place);
      var found, ambiguous := FindLong(setting.longs, name);
      if ambiguous {
        optopt := 0;
        return BADCH;
      }
      if found == -1 {
        optopt := 0;
        return BADCH;
      }
      var o := setting.longs[found];
      if o.hasArg == NO_ARGUMENT && arg.Some? {
        optopt := if o.flag == 0 then o.val else 0;
        return BadArg(setting.options);
      }
      if o.hasArg == REQUIRED_ARGUMENT || o.hasArg == OPTIONAL_ARGUMENT {
        if arg.Some? {
          optarg := arg;
        } else if o.hasArg == REQUIRED_ARGUMENT {
          optarg := if optind < nargv.Length then Some(nargv[optind]) else None;   // nargv[nargc] is NULL
          optind := optind + 1;
        }
      }
      if o.hasArg == REQUIRED_ARGUMENT && optarg.None? {
        optopt := if o.flag == 0 then o.val else 0;
        optind := optind - 1;
        return BadArg(setting.options);
      }
      ret := if o.flag != 0 then 0 else o.val;
    }

    /**
     The part of getopt_internal() behind the scan, up to the point where the -1 of a long option behind "--" is
     taken for no long option: then `misread` is set, and `place` is the name with whose letters the source goes on.
     */
    method OptionPart() returns (ret: int, misread: bool)
      requires 0 <= optind < nargv.Length && place != "" && optarg.None?
      modifies this`optind, this`place, this`optarg, this`optopt
      ensures var e := EffectOf(setting, nargv[old(optind)], old(place), nargv[old(optind) + 1..]);
              && (misread <==> e.Misread?)
              && (e.Misread? ==> place == old(place)[1..] && optind == old(optind) + e.words)
              && (e.Stuck? ==> ret == END && optind == old(optind))
              && (e.Returned? ==> ret == END && optind == old(optind) + e.words && place == "")
              && (e.Effect? ==>
                    && e.report == Report(ret, optarg) && place == e.rest && optopt == OptOptAfter(e, old(optopt))
                    && optind == old(optind) + if e.rest == "" then 1 + e.taken else 0)
    {
      hide LongEffect, LetterEffect;
      misread := false;
      if setting.hasLong && place != nargv[optind] && place[0] == '-' {
        place := place[1..];
        ret := ParseLong();
        misread := ret == END;
        if !misread {
          place := "";
        }
        return;
      }
      ret := LetterPart();
    }

    /** The part for a single option letter. */
    method LetterPart() returns (ret: int)
      requires 0 <= optind < nargv.Length && place != "" && optarg.None?
      modifies this`optind, this`place, this`optarg, this`optopt
      ensures var e := LetterEffect(setting, old(place), nargv[old(optind) + 1..]);
              && (e.Stuck? ==> ret == END && optind == old(optind))
              && (e.Returned? ==> ret == END && optind == old(optind) + e.words && place == "")
              && (e.Effect? ==>
                    && e.report == Report(ret, optarg) && place == e.rest && optopt == OptOptAfter(e, old(optopt))
                    && optind == old(optind) + if e.rest == "" then 1 + e.taken else 0)
    {
      hide LongByLetter;
      var optchar := place[0];
      place := place[1..];
      var oli := IndexOf(setting.options, optchar);
      if optchar == ':' || (optchar == '-' && place != "") || oli == -1 {
        if optchar == '-' && place == "" {
          return END;
        }
        if place == "" {
          optind := optind + 1;
        }
        optopt := optchar as int;
        return BADCH;
      }
      if setting.hasLong && optchar == 'W' && CharAt(setting.options, oli + 1) == ';' {
        ret := LongWordPart();
        return;
      }
      if CharAt(setting.options, oli + 1) != ':' {
        if place == "" {
          optind := optind + 1;
        }
        ret := optchar as int;
      } else {
        ret := ArgumentPart(optchar, oli);
      }
    }

    /** The option letter -W, behind which a long option follows. */
    method LongWordPart() returns (ret: int)
      requires 0 <= optind < nargv.Length && optarg.None?
      modifies this`optind, this`place, this`optarg, this`optopt
      ensures var e := LongByLetter(setting, old(place), nargv[old(optind) + 1..]);
              && (e.Returned? ==> ret == END && optind == old(optind) + e.words && place == "")
              && (e.Effect? ==>
                    && e.report == Report(ret, optarg) && place == "" && optopt == OptOptAfter(e, old(optopt))
                    && optind == old(optind) + 1 + e.taken)
    {
      hide LongEffect, ReturnsEnd, ReturnsEndByLetter, BadArg;
      if place == "" {
        optind := optind + 1;
        if optind >= nargv.Length {
          optopt := 'W' as int;
          return BadArg(setting.options);
        }
        place := nargv[optind];
        assert nargv[old(optind) + 1..][1..] == nargv[optind + 1..];
      }
      ret := ParseLong();
      place := "";
    }

    /** An option letter that takes an argument. */
    method ArgumentPart(optchar: char, oli: int) returns (ret: int)
      requires 0 <= optind < nargv.Length
      modifies this`optind, this`place, this`optarg, this`optopt
      ensures var next := nargv[old(optind) + 1..];
              var takes := old(place) == "" && CharAt(setting.options, oli + 2) != ':';
              && place == ""
              && (takes && next == [] ==>
                    ret == BadArg(setting.options) && optarg == None && optopt == optchar as int
                        && optind == old(optind) + 1)
              && (!(takes && next == []) ==> ret == optchar as int && optopt == old(optopt))
              && (takes && next != [] ==> optarg == Some(next[0]) && optind == old(optind) + 2)
              && (!takes ==>
                optarg == (if old(place) != "" then Some(old(place)) else None) && optind == old(optind) + 1)
    {
      optarg := None;
      if place != "" {
        optarg := Some(place);
      } else if CharAt(setting.options, oli + 2) != ':' {
        optind := optind + 1;
        if optind >= nargv.Length {
          optopt := optchar as int;
          return BadArg(setting.options);
        }
        optarg := Some(nargv[optind]);
      }
      place := "";
      optind := optind + 1;
      ret := optchar as int;
    }

    /**
     One call of getopt_long(): the next report of the reference, or its end.
     */
    method Call() returns (ret: int, ended: Option<Ending>)
      requires Valid()
      modifies this, nargv
      ensures ended.None? ==>
                && Valid() && ret != END && reports == old(reports) + [Report(ret, optarg)]
                && Advanced(old(optind), old(place), optind, place)
      ensures ended.Some? ==>
                && reports == old(reports)
                && Read(setting, orig[first..]) == Parse(reports, marks, ended.value)
      ensures ended == Some(AtEnd) ==> ret == END && InOrder(nargv[..], orig, first, first + |marks|, marks, optind)
      ensures ended.Some? && ended.value != AtEnd ==> EndsHere(ended.value) && (!ended.value.AtMisread? ==> ret == END)
    {
      hide Layout, InOrder, Read, After, Pending;
      optarg := None;
      if place == "" {
        var atEnd := Scan();
        if atEnd {
          return END, Some(AtEnd);
        }
      }
      ret, ended := AtOption();
    }

    /** The rest of a call that has found an option. */
    method AtOption() returns (ret: int, ended: Option<Ending>)
      requires Valid() && place != "" && optarg.None?
      modifies this
      ensures ended.None? ==>
                && Valid() && ret != END && reports == old(reports) + [Report(ret, optarg)]
                && Advanced(old(optind), old(place), optind, place)
      ensures ended.Some? ==>
                && reports == old(reports) && ended != Some(AtEnd)
                && Read(setting, orig[first..]) == Parse(reports, marks, ended.value)
      ensures ended.Some? ==> EndsHere(ended.value) && (!ended.value.AtMisread? ==> ret == END)
    {
      hide Layout, IsNonOption, Read, ReadWord, After, Pending, EffectOf, IsSuffixOf;
      SameTail(nargv[..], orig, first, optind, marks, nonoptStart, nonoptEnd);
      assert nargv[optind + 1..] == orig[optind + 1..];
      ReportsKept(reports, marks);
      var from := optind;
      ghost var e, p := EffectOf(setting, nargv[optind], place, nargv[optind + 1..]), place;
      if !e.Effect? {
        PendingStops(setting, orig, optind, place);
      } else if e.rest != "" {
        PendingRest(setting, orig, optind, place, reports, marks, e);
      } else {
        PendingNext(setting, orig, optind, place, reports, marks, e);
      }
      var misread;
      ret, misread := OptionPart();
      if misread {
        return ret, Some(AtMisread(optind - from));
      }
      if ret == END {
        return END, Some(if optind == from then AtStuck else AtReturned(optind - from));
      }
      RestIsSuffix(p, nargv[from], e);
      reports := reports + [Report(ret, optarg)];
      if place == "" {
        ConsumeWords(nargv[..], orig, first, from, marks, nonoptStart, nonoptEnd, 1 + e.taken);
        marks := marks + Trues(1 + e.taken);
      }
      return ret, None;
    }

    /** The vector when a run ends at an option: the words that the last call has used up are not permuted. */
    ghost predicate EndsHere(ending: Ending)
      reads this, nargv
    {
      var words := if ending.AtReturned? || ending.AtMisread? then ending.words else 0;
      && |orig| == nargv.Length && 0 <= optind - words < nargv.Length
      && Layout(nargv[..], orig, first, optind - words, marks, nonoptStart, nonoptEnd)
      && (nonoptStart != -1 ==> nonoptEnd != -1)
      && nargv[optind - words] == orig[optind - words] && !IsNonOption(setting.options, nargv[optind - words])
    }

    /**
     A complete run: getopt_long() is called until it returns -1, or until it takes the -1 of a long option for
     no long option. The reports, the consumed words and the ending are those of the reference. At a normal end,
     the consumed words come first, then the skipped non-options, each group in its original order, and optind is
     the first non-option. All other endings are at an option word and leave skipped words before it.
     */
    method Run() returns (found: seq<Report>, ending: Ending)
      requires Valid()
      modifies this, nargv
      ensures Read(setting, orig[first..]) == Parse(old(reports) + found, marks, ending)
      ensures ending.AtEnd? ==>
                && InOrder(nargv[..], orig, first, first + |marks|, marks, optind)
                && multiset(nargv[..]) == multiset(orig)
                && MarksOk(setting, orig[first..], marks)
                && forall i | optind <= i < first + |marks| ::
                    0 <= i < nargv.Length && IsNonOption(setting.options, nargv[i])
      ensures !ending.AtEnd? ==> EndsHere(ending)
      ensures ending.AtStuck? <==>
                !setting.hasLong && '-' !in setting.options && MeetsStuckWord(setting.options, orig[first..])
      ensures ending.AtReturned? <==> setting.hasLong && MeetsReturn(setting, orig[first..])
      ensures ending.AtMisread? <==> setting.hasLong && MeetsMisread(setting, orig[first..])
    {
      hide Layout, InOrder, IsNonOption, Read, ReadWord, After, Pending;
      hide MarksOk, MeetsStuckWord, MeetsReturn, MeetsMisread;
      found := [];
      SameTail(nargv[..], orig, first, optind, marks, nonoptStart, nonoptEnd);
      StuckIff(setting, orig[first..]);
      ReturnsEndIff(setting, orig[first..]);
      MarksMean(setting, orig[first..]);
      while true
        invariant Valid() && optind <= nargv.Length && reports == old(reports) + found
        decreases nargv.Length - optind, if place == "" then 1 else 0, |place|
      {
        var ret, ended := Call();
        if ended.Some? {
          ending := ended.value;
          if ending.AtEnd? {
            InOrderPermutes(nargv[..], orig, first, first + |marks|, marks, optind);
            NonOptionsFromOptind(setting, nargv[..], orig, first, marks, optind);
          }
          return;
        }
        found := found + [Report(ret, optarg)];
        SameTail(nargv[..], orig, first, optind, marks, nonoptStart, nonoptEnd);
      }
    }
  }

  lemma RestIsSuffix(p: string, word: string, e: Effect)
    requires IsSuffixOf(p, word) && p != "" && e.Effect? && (e.rest != "" ==> e.rest == p[1..])
    ensures IsSuffixOf(e.rest, word) && |e.rest| < |p|
  {
  }

  /**
   A run that gets stuck: getopt("a") on "prog x -a-" reports the option a and then ends in the middle of the
   last word. The vector is as it was: optind is the option word, and the non-option x is before it.
   */
  method StuckExample() returns (p: Parser)
    ensures fresh(p) && fresh(p.nargv) && p.nargv[..] == ["prog", "x", "-a-"] && p.optind == 2
    ensures !IsNonOption("a", "-a-") && IsNonOption("a", "x")
  {
    var nargv := new string[3];
    nargv[0], nargv[1], nargv[2] := "prog", "x", "-a-";
    p := new Parser(Setting("a", false, []), nargv);
    assert nargv[..] == ["prog", "x", "-a-"];
    assert p.orig[1..] == ["x", "-a-"];
    StuckExampleRead(p.setting);
    hide Layout, Read, InOrder, MarksOk, MeetsStuckWord, MeetsReturn, MeetsMisread, IsNonOption, Parser.Valid;
    var found, ending := p.Run();
    StuckExampleLayout(p.nargv[..], p.orig, p.optind, p.marks, p.nonoptStart, p.nonoptEnd);
  }

  lemma StuckExampleLayout(now: seq<string>, orig: seq<string>, optind: int, marks: seq<bool>, nonoptStart: int,
      nonoptEnd: int)
    requires orig == ["prog", "x", "-a-"] && marks == [false]
    requires Layout(now, orig, 1, optind, marks, nonoptStart, nonoptEnd)
    ensures now == orig && optind == 2
  {
    assert orig[1..2] == ["x"];
    assert Pick(["x"], [false], true) == [] && Pick(["x"], [false], false) == ["x"];
    assert Arranged([], ["x"], 0) == ["x"];
  }

  /**
   A run that ends with the value of a long option: the option string "W;" and a long option x with value -1, on
   "prog y -W x". The vector is as it was, and the non-option y is before the option.
   */
  method ReturnExample() returns (p: Parser)
    ensures fresh(p) && fresh(p.nargv) && p.nargv[..] == ["prog", "y", "-W", "x"] && p.optind == 4
    ensures !IsNonOption("W;", "-W") && IsNonOption("W;", "y")
  {
    var nargv := new string[4];
    nargv[0], nargv[1], nargv[2], nargv[3] := "prog", "y", "-W", "x";
    p := new Parser(Setting("W;", true, [LongOption("x", NO_ARGUMENT, 0, END)]), nargv);
    assert nargv[..] == ["prog", "y", "-W", "x"];
    assert p.orig[1..] == ["y", "-W", "x"];
    ReturnExampleRead(p.setting);
    hide Layout, Read, InOrder, MarksOk, MeetsStuckWord, MeetsReturn, MeetsMisread, IsNonOption, Parser.Valid;
    var found, ending := p.Run();
    ReturnExampleLayout(p.nargv[..], p.orig, p.optind - 2, p.marks, p.nonoptStart, p.nonoptEnd);
  }

  lemma ReturnExampleRead(c: Setting)
    requires c == Setting("W;", true, [LongOption("x", NO_ARGUMENT, 0, END)])
    ensures Read(c, ["y", "-W", "x"]) == Parse([], [false], AtReturned(2))
  {
    var words := ["-W", "x"];
    assert ["y", "-W", "x"][1..] == words && words[1..] == ["x"];
    assert Letters("-W") == "W";
    assert NameOf("x") == "x" && ArgOf("x") == None;
    assert MeaningOf(c.longs, "x") == Known(c.longs[0]);
    assert ["x"][1..] == [];
    assert LongEffect(c, "x", []) == Misread(1);
    assert LongByLetter(c, "", ["x"]) == Returned(2);
    assert EffectOf(c, "-W", "W", ["x"]) == Returned(2);
    assert ReadWord(c, words, "W") == Parse([], [], AtReturned(2));
  }

  lemma ReturnExampleLayout(now: seq<string>, orig: seq<string>, optind: int, marks: seq<bool>, nonoptStart: int,
      nonoptEnd: int)
    requires orig == ["prog", "y", "-W", "x"] && marks == [false]
    requires Layout(now, orig, 1, optind, marks, nonoptStart, nonoptEnd)
    ensures now == orig && optind == 2
  {
    assert orig[1..2] == ["y"];
    assert Pick(["y"], [false], true) == [] && Pick(["y"], [false], false) == ["y"];
    assert Arranged([], ["y"], 0) == ["y"];
  }

  lemma StuckExampleRead(c: Setting)
    requires c == Setting("a", false, [])
    ensures Read(c, ["x", "-a-"]) == Parse([Report('a' as int, None)], [false], AtStuck)
  {
    var words := ["-a-"];
    assert ["x", "-a-"][1..] == words;
    assert Letters("-a-") == "a-";
    assert EffectOf(c, "-a-", "a-", []) == Effect(Report('a' as int, None), "-", 0, None);
    assert EffectOf(c, "-a-", "-", []) == Stuck;
    assert ReadWord(c, words, "-") == Parse([], [], AtStuck);
    assert ReadWord(c, words, "a-") == Parse([Report('a' as int, None)], [], AtStuck);
  }

  lemma ReportsKept(reports: seq<Report>, marks: seq<bool>)
    ensures After(reports, marks, Parse([], [true], AtEnd)) == Parse(reports, marks + [true], AtEnd)
    ensures forall e :: After(reports, marks, Parse([], [], e)) == Parse(reports, marks, e)
  {
  }

  /** A call gets on in the vector, or in the current word. */
  predicate Advanced(optind: int, place: string, optind': int, place': string) {
    || optind < optind'
    || (optind == optind' && place' != "" && (place == "" || |place'| < |place|))
  }

  lemma SameTail(now: seq<string>, orig: seq<string>, first: int, optind: int, marks: seq<bool>, nonoptStart: int,
      nonoptEnd: int)
    requires Layout(now, orig, first, optind, marks, nonoptStart, nonoptEnd)
    ensures |now| == |orig| && now[optind..] == orig[optind..]
    ensures optind < |orig| ==> now[optind] == orig[optind]
    ensures nonoptEnd <= optind
    ensures 0 <= first <= optind <= |orig| && |marks| == optind - first
  {
    hide Pick;
    Sizes(orig, first, optind, marks);
    assert optind < |orig| ==> now[optind] == now[optind..][0] && orig[optind] == orig[optind..][0];
  }
}
