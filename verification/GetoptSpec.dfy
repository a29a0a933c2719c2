/**
 What getopt_long() of msvc/compat/getopt.h makes of an argument vector, as a function of the
 vector alone: which words are options, how many words each option takes, what is reported for it,
 and how the run ends. The parser itself, with its state between calls, is in module Getopt.
 */
module GetoptSpec {
  import opened Wrappers
  import opened Strings

  /** struct option. `flag` is 0 for a NULL pointer. */
  datatype LongOption = LongOption(name: string, hasArg: int, flag: int, val: int)

  /** The fixed arguments of all calls; `hasLong` is false if long_options is NULL. */
  datatype Setting = Setting(options: string, hasLong: bool, longs: seq<LongOption>)

  const NO_ARGUMENT := 0
  const REQUIRED_ARGUMENT := 1
  const OPTIONAL_ARGUMENT := 2

  const END := -1
  const BADCH := '?' as int

  // ----- Characters and words -----

  /** strchr(): the index of the first c, or -1. */
  function IndexOf(s: string, c: char): (i: int)
    ensures i == -1 <==> c !in s
    ensures i != -1 ==> 0 <= i < |s| && s[i] == c && c !in s[..i]
  {
    FindChar(s, c, 0)
  }

  /** The i-th character of a C string, or the terminator. */
  function CharAt(s: string, i: int): char {
    if 0 <= i < |s| then s[i] else '\0'
  }

  /** A word that is skipped: it does not start with '-', or it is "-" and '-' is no option letter. */
  predicate IsNonOption(options: string, word: string) {
    word == "" || word[0] != '-' || (|word| == 1 && '-' !in options)
  }

  /** The value for a missing argument. */
  function BadArg(options: string): int {
    if CharAt(options, 0) == ':' then ':' as int else BADCH
  }

  // ----- Long options -----

  predicate IsPrefixOf(word: string, name: string) {
    |word| <= |name| && name[..|word|] == word
  }

  /** IDENTICAL_INTERPRETATION */
  predicate SameMeaning(a: LongOption, b: LongOption) {
    a.hasArg == b.hasArg && a.flag == b.flag && a.val == b.val
  }

  datatype Meaning = Unknown | Ambiguous | Known(o: LongOption)

  function FirstNamed(longs: seq<LongOption>, word: string): (r: int)
    ensures -1 <= r < |longs|
    ensures r == -1 <==> forall i | 0 <= i < |longs| :: longs[i].name != word
    ensures r >= 0 ==> longs[r].name == word && forall i | 0 <= i < r :: longs[i].name != word
  {
    if longs == [] then -1
    else
      var n := |longs| - 1;
      var r := FirstNamed(longs[..n], word);
      if r >= 0 then r else if longs[n].name == word then n else -1
  }

  function FirstAbbreviated(longs: seq<LongOption>, word: string): (r: int)
    ensures -1 <= r < |longs|
    ensures r == -1 <==> forall i | 0 <= i < |longs| :: !IsPrefixOf(word, longs[i].name)
    ensures r >= 0 ==> IsPrefixOf(word, longs[r].name) && forall i | 0 <= i < r :: !IsPrefixOf(word, longs[i].name)
  {
    if longs == [] then -1
    else
      var n := |longs| - 1;
      var r := FirstAbbreviated(longs[..n], word);
      if r >= 0 then r else if IsPrefixOf(word, longs[n].name) then n else -1
  }

  /** Another option than the f-th is abbreviated by the word, and means something else. */
  predicate Clashes(longs: seq<LongOption>, word: string, f: int)
    requires 0 <= f < |longs|
  {
    exists i :: f < i < |longs| && IsPrefixOf(word, longs[i].name) && !SameMeaning(longs[i], longs[f])
  }

  /** An option of exactly that name, or else the one that the word abbreviates. */
  function MeaningOf(longs: seq<LongOption>, word: string): Meaning {
    var e, a := FirstNamed(longs, word), FirstAbbreviated(longs, word);
    if e >= 0 then Known(longs[e])
    else if a == -1 then Unknown
    else if Clashes(longs, word, a) then Ambiguous
    else Known(longs[a])
  }

  /** The part of a long option before the first '=', and the part behind it if there is one. */
  function NameOf(body: string): string {
    var i := IndexOf(body, '=');
    if i == -1 then body else body[..i]
  }

  function ArgOf(body: string): Option<string> {
    var i := IndexOf(body, '=');
    if i == -1 then None else Some(body[i + 1..])
  }

  /** What a long option returns if nothing is wrong. */
  function Value(o: LongOption): int {
    if o.flag != 0 then 0 else o.val
  }

  function OptOpt(o: LongOption): int {
    if o.flag == 0 then o.val else 0
  }

  // ----- One call -----

  /** What a call returns, and the option argument it leaves in optarg. */
  datatype Report = Report(value: int, arg: Option<string>)

  /**
   What a call does with an option: the report, the rest of the word that is left for the next call, the
   number of following words it takes if the word is used up, and the value for optopt if there is one.

   Stuck: -1 is returned in the middle of a word. Returned: the long option behind -W has no flag and the value
   -1, which is returned. Misread: such an option behind "--"; the caller takes the -1 for "no long option", and
   goes on with the letters of its name. Both have used up a number of words.
   */
  datatype Effect =
    | Effect(report: Report, rest: string, taken: nat, bad: Option<int>)
    | Stuck
    | Returned(words: nat)
    | Misread(words: nat)

  function Wrong(value: int, rest: string, bad: int): Effect {
    Effect(Report(value, None), rest, 0, Some(bad))
  }

  /** A long option without its dashes; `next` are the words behind it. */
  function LongEffect(c: Setting, body: string, next: seq<string>): (e: Effect)
    ensures e.Effect? || e.Misread?
    ensures e.Effect? ==> e.rest == "" && e.taken <= |next| && e.taken <= 1 && e.report.value != END
    ensures e.Misread? ==> 1 <= e.words <= 1 + |next|
    ensures e.Misread? <==> ReturnsEnd(c, body, next)
  {
    var arg := ArgOf(body);
    match MeaningOf(c.longs, NameOf(body))
    case Unknown => Wrong(BADCH, "", 0)
    case Ambiguous => Wrong(BADCH, "", 0)
    case Known(o) =>
      var taken := if o.hasArg == REQUIRED_ARGUMENT && arg.None? then 1 else 0;
      if o.hasArg == NO_ARGUMENT && arg.Some? then Wrong(BadArg(c.options), "", OptOpt(o))
      else if taken > |next| then Wrong(BadArg(c.options), "", OptOpt(o))
      else if Value(o) == END then Misread(1 + taken)
      else if taken == 1 then Effect(Report(Value(o), Some(next[0])), "", 1, None)
      else
        var given := if o.hasArg == REQUIRED_ARGUMENT || o.hasArg == OPTIONAL_ARGUMENT then arg else None;
        Effect(Report(Value(o), given), "", 0, None)
  }

  /** The word means a long option without a flag and with the value -1, and nothing is wrong with its argument. */
  predicate ReturnsEnd(c: Setting, body: string, next: seq<string>) {
    var m, arg := MeaningOf(c.longs, NameOf(body)), ArgOf(body);
    && m.Known? && m.o.flag == 0 && m.o.val == END
    && !(m.o.hasArg == NO_ARGUMENT && arg.Some?)
    && !(m.o.hasArg == REQUIRED_ARGUMENT && arg.None? && next == [])
  }

  /** "-W name": a long option in the next word, or in the rest of this one. */
  function LongByLetter(c: Setting, rest: string, next: seq<string>): (e: Effect)
    ensures e.Effect? || e.Returned?
    ensures e.Effect? ==> e.rest == "" && e.taken <= |next| && e.report.value != END
    ensures e.Returned? ==> 1 <= e.words <= 1 + |next|
    ensures e.Returned? <==> ReturnsEndByLetter(c, rest, next)
  {
    if rest != "" then
      var e := LongEffect(c, rest, next);
      if e.Effect? then e else Returned(e.words)
    else if next == [] then Wrong(BadArg(c.options), "", 'W' as int)
    else
      var e := LongEffect(c, next[0], next[1..]);
      if e.Effect? then e.(taken := e.taken + 1) else Returned(1 + e.words)
  }

  predicate ReturnsEndByLetter(c: Setting, rest: string, next: seq<string>) {
    if rest != "" then ReturnsEnd(c, rest, next) else next != [] && ReturnsEnd(c, next[0], next[1..])
  }

  /** An option letter that takes an argument, and one that cannot do without. */
  predicate TakesArgument(options: string, ch: char) {
    ch != ':' && ch in options && CharAt(options, IndexOf(options, ch) + 1) == ':'
  }

  predicate NeedsArgument(options: string, ch: char) {
    TakesArgument(options, ch) && CharAt(options, IndexOf(options, ch) + 2) != ':'
  }

  /** The letter W, if "W;" in the option string says that a long option follows it. */
  predicate IsLongLetter(c: Setting, ch: char) {
    c.hasLong && ch == 'W' && 'W' in c.options && CharAt(c.options, IndexOf(c.options, 'W') + 1) == ';'
  }

  /** The letter p[0] of an option word; `next` are the words behind that word. */
  function LetterEffect(c: Setting, p: string, next: seq<string>): (e: Effect)
    requires p != ""
    ensures e.Effect? ==>
              && |e.rest| < |p| && e.taken <= |next| && (e.rest != "" ==> e.rest == p[1..] && e.taken == 0)
              && e.report.value != END
    ensures e.Stuck? <==> p == "-" && '-' !in c.options
    ensures !e.Misread? && (e.Returned? ==> 1 <= e.words <= 1 + |next|)
    ensures e.Returned? <==> IsLongLetter(c, p[0]) && ReturnsEndByLetter(c, p[1..], next)
  {
    var ch, rest := p[0], p[1..];
    if ch == ':' || (ch == '-' && rest != "") || ch !in c.options then
      if ch == '-' && rest == "" then Stuck else Wrong(BADCH, rest, ch as int)
    else if IsLongLetter(c, ch) then
      LongByLetter(c, rest, next)
    else if !TakesArgument(c.options, ch) then Effect(Report(ch as int, None), rest, 0, None)
    else if rest != "" then Effect(Report(ch as int, Some(rest)), "", 0, None)
    else if !NeedsArgument(c.options, ch) then Effect(Report(ch as int, None), "", 0, None)
    else if next == [] then Wrong(BadArg(c.options), "", ch as int)
    else Effect(Report(ch as int, Some(next[0])), "", 1, None)
  }

  /** A call at the part p of an option word. */
  function EffectOf(c: Setting, word: string, p: string, next: seq<string>): (e: Effect)
    requires p != ""
    ensures e.Effect? ==>
              && |e.rest| < |p| && e.taken <= |next| && (e.rest != "" ==> e.rest == p[1..] && e.taken == 0)
              && e.report.value != END
    ensures e.Misread? || e.Returned? ==> c.hasLong && 1 <= e.words <= 1 + |next|
  {
    if c.hasLong && p != word && p[0] == '-' then LongEffect(c, p[1..], next) else LetterEffect(c, p, next)
  }

  // ----- A complete run -----

  /** The words that the last call has used up have no marks. */
  datatype Ending = AtEnd | AtStuck | AtReturned(words: nat) | AtMisread(words: nat)

  /**
   A run over a list of words: the reports, a mark for every word that was looked at, true for option
   words and the words they take, and how the run ends.
   */
  datatype Parse = Parse(reports: seq<Report>, marks: seq<bool>, ending: Ending)

  function Trues(k: nat): (r: seq<bool>)
    ensures |r| == k
  {
    if k == 0 then [] else Trues(k - 1) + [true]
  }

  /** A run that has reported and marked something already. */
  function After(reports: seq<Report>, marks: seq<bool>, rest: Parse): Parse {
    Parse(reports + rest.reports, marks + rest.marks, rest.ending)
  }

  /** Where the letters of an option word begin. */
  function Letters(word: string): string {
    if |word| > 1 then word[1..] else word
  }

  function Read(c: Setting, words: seq<string>): Parse
    decreases |words|, 1, 0
  {
    if words == [] then Parse([], [], AtEnd)
    else if IsNonOption(c.options, words[0]) then After([], [false], Read(c, words[1..]))
    else if words[0] == "--" then Parse([], [true], AtEnd)
    else ReadWord(c, words, Letters(words[0]))
  }

  /** A run that goes on at the part p of the first word. */
  function ReadWord(c: Setting, words: seq<string>, p: string): Parse
    requires words != [] && p != ""
    decreases |words|, 0, |p|
  {
    match EffectOf(c, words[0], p, words[1..])
    case Stuck => Parse([], [], AtStuck)
    case Returned(words) => Parse([], [], AtReturned(words))
    case Misread(words) => Parse([], [], AtMisread(words))
    case Effect(report, rest, taken, _) =>
      if rest != "" then After([report], [], ReadWord(c, words, rest))
      else After([report], Trues(1 + taken), Read(c, words[1 + taken..]))
  }

  // ----- What the marks mean -----

  /** How many words the option word at the front takes up, itself included; 0 if the run ends in it. */
  function Span(c: Setting, words: seq<string>, p: string): (n: nat)
    requires words != [] && p != ""
    ensures n <= |words|
    decreases |p|
  {
    match EffectOf(c, words[0], p, words[1..])
    case Stuck => 0
    case Returned(_) => 0
    case Misread(_) => 0
    case Effect(_, rest, taken, _) => if rest != "" then Span(c, words, rest) else 1 + taken
  }

  lemma {:induction false} WordMarks(c: Setting, words: seq<string>, p: string)
    requires words != [] && p != ""
    ensures var n, r := Span(c, words, p), ReadWord(c, words, p);
            if n == 0 then r.marks == [] && !r.ending.AtEnd?
            else r.marks == Trues(n) + Read(c, words[n..]).marks && r.ending == Read(c, words[n..]).ending
    decreases |p|
  {
    var e := EffectOf(c, words[0], p, words[1..]);
    if e.Effect? && e.rest != "" {
      WordMarks(c, words, e.rest);
      var r := ReadWord(c, words, e.rest);
      assert [] + r.marks == r.marks;
    }
  }

  lemma {:induction false} TruesAreTrue(k: nat)
    ensures forall i | 0 <= i < k :: Trues(k)[i]
  {
    if k > 0 { TruesAreTrue(k - 1); }
  }

  /** Word j is an option word that takes up word k. */
  predicate TakenBy(c: Setting, words: seq<string>, j: int, k: int) {
    && 0 <= j <= k < |words| && !IsNonOption(c.options, words[j])
    && (k > j ==> words[j] != "--" && k < j + Span(c, words[j..], Letters(words[j])))
  }

  /** What the marks of a run over the words say. */
  ghost predicate MarksOk(c: Setting, words: seq<string>, marks: seq<bool>) {
    && |marks| <= |words|
    && (forall k | 0 <= k < |marks| :: MarkOk(c, words, marks, k))
  }

  ghost predicate MarkOk(c: Setting, words: seq<string>, marks: seq<bool>, k: int)
    requires 0 <= k < |marks| <= |words|
  {
    if marks[k] then exists j :: TakenBy(c, words, j, k) && marks[j] else IsNonOption(c.options, words[k])
  }

  /** A run that ends normally has looked at all words, or up to "--". */
  predicate EndOk(words: seq<string>, r: Parse) {
    r.ending.AtEnd? && |r.marks| < |words| ==> |r.marks| > 0 && words[|r.marks| - 1] == "--" && r.marks[|r.marks| - 1]
  }

  /**
   The marked words are the option words and the words they take; all other words that were looked at are
   non-options.
   */
  lemma {:induction false} MarksMean(c: Setting, words: seq<string>)
    ensures MarksOk(c, words, Read(c, words).marks) && EndOk(words, Read(c, words))
    decreases |words|
  {
    if words == [] {
    } else if IsNonOption(c.options, words[0]) {
      MarksMean(c, words[1..]);
      MarksShift(c, words, 1, [false], Read(c, words[1..]));
    } else if words[0] == "--" {
      assert TakenBy(c, words, 0, 0);
    } else {
      var p := Letters(words[0]);
      var n := Span(c, words, p);
      WordMarks(c, words, p);
      if n > 0 {
        MarksMean(c, words[n..]);
        SpanMarks(c, words, n);
        hide MarksOk, EndOk, IsNonOption;
        MarksShift(c, words, n, Trues(n), Read(c, words[n..]));
      }
    }
  }

  /** An option word marks the words it takes up. */
  lemma SpanMarks(c: Setting, words: seq<string>, n: nat)
    requires words != [] && !IsNonOption(c.options, words[0]) && words[0] != "--"
             && n == Span(c, words, Letters(words[0]))
    ensures MarksOk(c, words, Trues(n))
  {
    TruesAreTrue(n);
    assert words[0..] == words;
    forall k | 0 <= k < n
      ensures MarkOk(c, words, Trues(n), k)
    {
      assert TakenBy(c, words, 0, k);
    }
  }

  /** What marks mean for the words behind the first n also holds within all words. */
  lemma MarksShift(c: Setting, words: seq<string>, n: nat, before: seq<bool>, rest: Parse)
    requires n <= |words| && |before| == n && MarksOk(c, words, before)
    requires MarksOk(c, words[n..], rest.marks) && EndOk(words[n..], rest)
    ensures MarksOk(c, words, before + rest.marks)
    ensures forall rs :: EndOk(words, Parse(rs, before + rest.marks, rest.ending))
  {
    var marks := before + rest.marks;
    forall k | 0 <= k < |marks|
      ensures MarkOk(c, words, marks, k)
    {
      if k < n {
        assert MarkOk(c, words, before, k);
        if before[k] {
          var j :| TakenBy(c, words, j, k) && before[j];
          assert marks[j];
        }
      } else {
        assert MarkOk(c, words[n..], rest.marks, k - n);
        if marks[k] {
          var j :| TakenBy(c, words[n..], j, k - n) && rest.marks[j];
          assert words[n..][j..] == words[j + n..];
          assert TakenBy(c, words, j + n, k) && marks[j + n];
        }
      }
    }
  }

  // ----- When a run gets stuck -----

  /** Option letters without arguments, and then a '-'. */
  predicate StuckWord(options: string, word: string) {
    |word| >= 3 && word[0] == '-' && word[|word| - 1] == '-' && NoneTakes(options, word, |word| - 1)
  }

  predicate NoneTakes(options: string, word: string, n: int)
    requires n <= |word|
  {
    forall j | 1 <= j < n :: !TakesArgument(options, word[j])
  }

  /** The last letter of the word needs an argument, and no letter before it takes the rest of the word. */
  predicate TakesNext(options: string, word: string) {
    |word| >= 2 && NoneTakes(options, word, |word| - 1) && NeedsArgument(options, word[|word| - 1])
  }

  /** Without long options: the i-th word is looked at as a word of its own. */
  predicate IsLookedAt(options: string, words: seq<string>, i: nat)
    decreases |words|
  {
    if words == [] then false
    else if i == 0 then true
    else if IsNonOption(options, words[0]) then IsLookedAt(options, words[1..], i - 1)
    else if words[0] == "--" || StuckWord(options, words[0]) then false
    else if TakesNext(options, words[0]) && |words| > 1 then i >= 2 && IsLookedAt(options, words[2..], i - 2)
    else IsLookedAt(options, words[1..], i - 1)
  }

  /** How a word ends of which the letters before the k-th take no argument. */
  lemma {:induction false} WordEnds(c: Setting, words: seq<string>, k: nat)
    requires words != [] && !c.hasLong && '-' !in c.options && 1 <= k < |words[0]| && words[0][0] == '-'
    requires NoneTakes(c.options, words[0], k) && words[0] != "--"
    ensures var w, r := words[0], ReadWord(c, words, words[0][k..]);
            if StuckWord(c.options, w) then r.ending.AtStuck?
            else r.ending == Read(c, words[if TakesNext(c.options, w) && |words| > 1 then 2 else 1..]).ending
    decreases |words[0]| - k
  {
    var w := words[0];
    var p := w[k..];
    var e := EffectOf(c, w, p, words[1..]);
    assert p[0] == w[k] && p[1..] == w[k + 1..];
    if e.Effect? && e.rest != "" {
      assert e.rest == w[k + 1..];
      WordEnds(c, words, k + 1);
    }
  }

  /** Without long options: some word that is looked at stops the run. */
  ghost predicate MeetsStuckWord(options: string, words: seq<string>) {
    exists i :: 0 <= i < |words| && IsLookedAt(options, words, i) && StuckWord(options, words[i])
  }

  lemma MeetsLater(options: string, words: seq<string>, n: nat)
    requires 0 < n <= |words| && !StuckWord(options, words[0])
    requires forall i: nat | i < |words| ::
             IsLookedAt(options, words, i) <==> i == 0 || (i >= n && IsLookedAt(options, words[n..], i - n))
    ensures MeetsStuckWord(options, words) <==> MeetsStuckWord(options, words[n..])
  {
    hide IsLookedAt, StuckWord;
    if i :| 0 <= i < |words| && IsLookedAt(options, words, i) && StuckWord(options, words[i]) {
      assert words[n..][i - n] == words[i];
    }
    if i :| 0 <= i < |words[n..]| && IsLookedAt(options, words[n..], i) && StuckWord(options, words[n..][i]) {
      var i' := i + n;
      assert words[n..][i] == words[i'] && IsLookedAt(options, words, i');
    }
  }

  lemma {:induction false} StuckWithoutLong(c: Setting, words: seq<string>)
    requires !c.hasLong && '-' !in c.options
    ensures Read(c, words).ending.AtStuck? <==> MeetsStuckWord(c.options, words)
    decreases |words|
  {
    if words == [] {
    } else if IsNonOption(c.options, words[0]) {
      StuckWithoutLong(c, words[1..]);
      MeetsLater(c.options, words, 1);
    } else if words[0] == "--" {
    } else {
      var w := words[0];
      assert w[1..] == Letters(w);
      WordEnds(c, words, 1);
      if StuckWord(c.options, w) {
        assert IsLookedAt(c.options, words, 0);
      } else {
        var n := if TakesNext(c.options, w) && |words| > 1 then 2 else 1;
        StuckWithoutLong(c, words[n..]);
        MeetsLater(c.options, words, n);
      }
    }
  }

  lemma {:induction false} NotStuckInWord(c: Setting, words: seq<string>, p: string)
    requires words != [] && p != "" && (c.hasLong || '-' in c.options) && !IsNonOption(c.options, words[0])
    ensures var n, r := Span(c, words, p), ReadWord(c, words, p); n == 0 ==> !r.ending.AtStuck?
    decreases |p|
  {
    var e := EffectOf(c, words[0], p, words[1..]);
    if e.Effect? && e.rest != "" {
      NotStuckInWord(c, words, e.rest);
    }
  }

  lemma {:induction false} NeverStuck(c: Setting, words: seq<string>)
    requires c.hasLong || '-' in c.options
    ensures !Read(c, words).ending.AtStuck?
    decreases |words|
  {
    if words == [] {
    } else if IsNonOption(c.options, words[0]) {
      NeverStuck(c, words[1..]);
    } else if words[0] != "--" {
      var p := Letters(words[0]);
      WordMarks(c, words, p);
      NotStuckInWord(c, words, p);
      if Span(c, words, p) > 0 { NeverStuck(c, words[Span(c, words, p)..]); }
    }
  }

  /**
   A run returns -1 in the middle of a word exactly if there are no long options, '-' is no option letter, and
   it looks at a word of option letters without arguments that ends in '-'.
   */
  lemma StuckIff(c: Setting, words: seq<string>)
    ensures Read(c, words).ending.AtStuck? <==> !c.hasLong && '-' !in c.options && MeetsStuckWord(c.options, words)
  {
    if !c.hasLong && '-' !in c.options {
      StuckWithoutLong(c, words);
    } else {
      NeverStuck(c, words);
    }
  }

  // ----- When a long option returns -1 -----

  /** The i-th word is looked at as a word of its own. */
  predicate IsRead(c: Setting, words: seq<string>, i: nat)
    decreases |words|
  {
    if words == [] then false
    else if i == 0 then true
    else if IsNonOption(c.options, words[0]) then IsRead(c, words[1..], i - 1)
    else if words[0] == "--" then false
    else
      var n := Span(c, words, Letters(words[0]));
      n > 0 && i >= n && IsRead(c, words[n..], i - n)
  }

  /** A call at this letter leaves the rest of the word to the next call. */
  predicate Passes(c: Setting, ch: char) {
    ch != '-' && !IsLongLetter(c, ch) && !TakesArgument(c.options, ch)
  }

  predicate AllPass(c: Setting, word: string, k: int)
    requires k <= |word|
  {
    forall j | 1 <= j < k :: Passes(c, word[j])
  }

  /** Behind letters without arguments there is a '-' and an option that returns -1; this includes "--name". */
  predicate MisreadAt(c: Setting, word: string, next: seq<string>, k: int) {
    1 <= k < |word| && AllPass(c, word, k) && c.hasLong && word[k] == '-' && ReturnsEnd(c, word[k + 1..], next)
  }

  /** Behind letters without arguments there is a W and an option that returns -1. */
  predicate ReturnsAt(c: Setting, word: string, next: seq<string>, k: int) {
    && 1 <= k < |word| && AllPass(c, word, k)
    && IsLongLetter(c, word[k]) && ReturnsEndByLetter(c, word[k + 1..], next)
  }

  ghost predicate IsMisread(c: Setting, word: string, next: seq<string>) {
    exists k :: MisreadAt(c, word, next, k)
  }

  ghost predicate Returns(c: Setting, word: string, next: seq<string>) {
    exists k :: ReturnsAt(c, word, next, k)
  }

  predicate IsOption(c: Setting, word: string) {
    !IsNonOption(c.options, word) && word != "--"
  }

  ghost predicate MeetsMisread(c: Setting, words: seq<string>) {
    exists i, k :: MisreadIn(c, words, i, k)
  }

  ghost predicate MeetsReturn(c: Setting, words: seq<string>) {
    exists i, k :: ReturnIn(c, words, i, k)
  }

  predicate MisreadIn(c: Setting, words: seq<string>, i: int, k: int) {
    0 <= i < |words| && IsRead(c, words, i) && IsOption(c, words[i]) && MisreadAt(c, words[i], words[i + 1..], k)
  }

  predicate ReturnIn(c: Setting, words: seq<string>, i: int, k: int) {
    0 <= i < |words| && IsRead(c, words, i) && IsOption(c, words[i]) && ReturnsAt(c, words[i], words[i + 1..], k)
  }

  /** In a word whose letters before the k-th pass, the run ends exactly at a later letter of this kind. */
  lemma {:induction false} EndsInWord(c: Setting, words: seq<string>, k: nat)
    requires words != [] && c.hasLong && 1 <= k < |words[0]| && AllPass(c, words[0], k)
    ensures var w, r, n := words[0], ReadWord(c, words, words[0][k..]), Span(c, words, words[0][k..]);
            && (n == 0 ==> r.ending.AtMisread? || r.ending.AtReturned? || r.ending.AtStuck?)
            && (n == 0 && r.ending.AtMisread? <==> IsMisread(c, w, words[1..]))
            && (n == 0 && r.ending.AtReturned? <==> Returns(c, w, words[1..]))
    decreases |words[0]| - k
  {
    var w, next := words[0], words[1..];
    EffectAt(c, w, k, next);
    hide EffectOf, MisreadAt, ReturnsAt, IsMisread, Returns, Read, Passes, AllPass;
    if Passes(c, w[k]) {
      if k + 1 < |w| {
        PassOneMore(c, w, k);
        EndsInWord(c, words, k + 1);
      } else {
        NoneBehind(c, w, next, k);
      }
    } else {
      OnlyHere(c, w, next, k);
    }
  }

  lemma PassOneMore(c: Setting, w: string, k: nat)
    requires k < |w| && AllPass(c, w, k) && Passes(c, w[k])
    ensures AllPass(c, w, k + 1)
  {
  }

  /** What a call at the k-th letter does. */
  lemma EffectAt(c: Setting, w: string, k: nat, next: seq<string>)
    requires c.hasLong && 1 <= k < |w| && AllPass(c, w, k)
    ensures var e := EffectOf(c, w, w[k..], next);
            && !e.Stuck?
            && (Passes(c, w[k]) ==> e.Effect? && e.rest == w[k + 1..] && e.taken == 0)
            && (!Passes(c, w[k]) ==>
                  && (e.Effect? ==> e.rest == "")
                  && (e.Misread? <==> MisreadAt(c, w, next, k)) && (e.Returned? <==> ReturnsAt(c, w, next, k)))
  {
    var p := w[k..];
    assert p[0] == w[k] && p[1..] == w[k + 1..] && p != w;
    hide ReturnsEnd, ReturnsEndByLetter, LongEffect, LongByLetter;
  }

  /** The run can end only at the first letter that does not pass. */
  lemma OnlyHere(c: Setting, w: string, next: seq<string>, k: nat)
    requires 1 <= k < |w| && AllPass(c, w, k) && !Passes(c, w[k])
    ensures IsMisread(c, w, next) <==> MisreadAt(c, w, next, k)
    ensures Returns(c, w, next) <==> ReturnsAt(c, w, next, k)
  {
    forall j | MisreadAt(c, w, next, j) || ReturnsAt(c, w, next, j)
      ensures j == k
    {
      assert !Passes(c, w[j]);
    }
  }

  lemma NoneBehind(c: Setting, w: string, next: seq<string>, k: nat)
    requires k + 1 == |w| && AllPass(c, w, k) && Passes(c, w[k])
    ensures !IsMisread(c, w, next) && !Returns(c, w, next)
  {
    forall j
      ensures !MisreadAt(c, w, next, j) && !ReturnsAt(c, w, next, j)
    {
      assert 1 <= j < |w| ==> Passes(c, w[j]);
    }
  }

  /** What is met behind the first n words, if the run does not end in these. */
  lemma MetLater(c: Setting, words: seq<string>, n: nat)
    requires 0 < n <= |words|
    requires forall i: nat | i < |words| :: IsRead(c, words, i) <==> i == 0 || (i >= n && IsRead(c, words[n..], i - n))
    requires IsOption(c, words[0]) ==>
               !IsMisread(c, words[0], words[1..]) && !Returns(c, words[0], words[1..])
    ensures MeetsMisread(c, words) <==> MeetsMisread(c, words[n..])
    ensures MeetsReturn(c, words) <==> MeetsReturn(c, words[n..])
  {
    hide IsRead, IsOption, MisreadAt, ReturnsAt;
    forall i, k | 0 <= i < |words[n..]|
      ensures MisreadIn(c, words[n..], i, k) <==> MisreadIn(c, words, i + n, k)
      ensures ReturnIn(c, words[n..], i, k) <==> ReturnIn(c, words, i + n, k)
    {
      assert words[n..][i] == words[i + n] && words[n..][i + 1..] == words[i + n + 1..];
    }
    if i, k :| MisreadIn(c, words, i, k) { var i' := i - n; assert MisreadIn(c, words[n..], i', k); }
    if i, k :| ReturnIn(c, words, i, k) { var i' := i - n; assert ReturnIn(c, words[n..], i', k); }
    if i, k :| MisreadIn(c, words[n..], i, k) { var i' := i + n; assert MisreadIn(c, words, i', k); }
    if i, k :| ReturnIn(c, words[n..], i, k) { var i' := i + n; assert ReturnIn(c, words, i', k); }
  }

  /** The front word ends the run, or nothing of the kind is in it. */
  lemma FrontWord(c: Setting, words: seq<string>)
    requires words != [] && c.hasLong && IsOption(c, words[0])
    ensures var r, n := ReadWord(c, words, Letters(words[0])), Span(c, words, Letters(words[0]));
            && (n == 0 ==> r.ending.AtMisread? || r.ending.AtReturned?)
            && (n == 0 && r.ending.AtMisread? <==> IsMisread(c, words[0], words[1..]))
            && (n == 0 && r.ending.AtReturned? <==> Returns(c, words[0], words[1..]))
  {
    var w := words[0];
    NotStuckInWord(c, words, Letters(w));
    if |w| > 1 {
      EndsInWord(c, words, 1);
    }
  }

  /** Endings with a -1 that a long option has for its value, as conditions on table and words. */
  lemma {:induction false} ReturnsEndIff(c: Setting, words: seq<string>)
    ensures Read(c, words).ending.AtMisread? <==> c.hasLong && MeetsMisread(c, words)
    ensures Read(c, words).ending.AtReturned? <==> c.hasLong && MeetsReturn(c, words)
    decreases |words|, 1
  {
    if words == [] {
    } else if !c.hasLong {
      NoReturnWithoutLong(c, words);
    } else if IsNonOption(c.options, words[0]) {
      ReadLater(c, words, 1);
      hide IsRead, MeetsMisread, MeetsReturn, IsMisread, Returns;
      ReturnsEndIff(c, words[1..]);
      MetLater(c, words, 1);
    } else if words[0] == "--" {
    } else {
      ReturnsEndIffOption(c, words);
    }
  }

  lemma {:induction false} ReturnsEndIffOption(c: Setting, words: seq<string>)
    requires words != [] && c.hasLong && IsOption(c, words[0])
    ensures Read(c, words).ending.AtMisread? <==> MeetsMisread(c, words)
    ensures Read(c, words).ending.AtReturned? <==> MeetsReturn(c, words)
    decreases |words|, 0
  {
    var p := Letters(words[0]);
    var n := Span(c, words, p);
    assert Read(c, words) == ReadWord(c, words, p);
    hide IsRead, MeetsMisread, MeetsReturn, IsMisread, Returns, Read, ReadWord, Span, IsNonOption;
    FrontWord(c, words);
    WordMarks(c, words, p);
    if n == 0 {
      EndsAtFront(c, words);
    } else {
      ReadLater(c, words, n);
      ReturnsEndIff(c, words[n..]);
      MetLater(c, words, n);
    }
  }

  /** Which words are looked at behind the first n. */
  lemma ReadLater(c: Setting, words: seq<string>, n: nat)
    requires words != [] && 0 < n
    requires n == if IsNonOption(c.options, words[0]) then 1 else Span(c, words, Letters(words[0]))
    requires words[0] != "--"
    ensures n <= |words|
    ensures forall i: nat | i < |words| :: IsRead(c, words, i) <==> i == 0 || (i >= n && IsRead(c, words[n..], i - n))
  {
    hide Span;
  }

  /** If the run ends in the front word, no other word is looked at. */
  lemma EndsAtFront(c: Setting, words: seq<string>)
    requires words != [] && IsOption(c, words[0]) && Span(c, words, Letters(words[0])) == 0
    ensures MeetsMisread(c, words) <==> IsMisread(c, words[0], words[1..])
    ensures MeetsReturn(c, words) <==> Returns(c, words[0], words[1..])
  {
    forall i, k
      ensures MisreadIn(c, words, i, k) <==> i == 0 && MisreadAt(c, words[0], words[1..], k)
      ensures ReturnIn(c, words, i, k) <==> i == 0 && ReturnsAt(c, words[0], words[1..], k)
    {
    }
    if k :| MisreadAt(c, words[0], words[1..], k) { assert MisreadIn(c, words, 0, k); }
    if k :| ReturnsAt(c, words[0], words[1..], k) { assert ReturnIn(c, words, 0, k); }
  }

  lemma {:induction false} NoReturnWithoutLong(c: Setting, words: seq<string>)
    requires !c.hasLong
    ensures !Read(c, words).ending.AtMisread? && !Read(c, words).ending.AtReturned?
    decreases |words|, 1, 0
  {
    if words == [] {
    } else if IsNonOption(c.options, words[0]) {
      NoReturnWithoutLong(c, words[1..]);
    } else if words[0] != "--" {
      NoReturnInWord(c, words, Letters(words[0]));
    }
  }

  lemma {:induction false} NoReturnInWord(c: Setting, words: seq<string>, p: string)
    requires !c.hasLong && words != [] && p != ""
    ensures !ReadWord(c, words, p).ending.AtMisread? && !ReadWord(c, words, p).ending.AtReturned?
    decreases |words|, 0, |p|
  {
    var e := EffectOf(c, words[0], p, words[1..]);
    if e.Effect? {
      if e.rest != "" { NoReturnInWord(c, words, e.rest); } else { NoReturnWithoutLong(c, words[1 + e.taken..]); }
    }
  }

  /** A complete run leaves the vector in order exactly if it meets none of the three. */
  lemma EndsNormallyIff(c: Setting, words: seq<string>)
    ensures Read(c, words).ending.AtEnd? <==>
              && !(!c.hasLong && '-' !in c.options && MeetsStuckWord(c.options, words))
              && !(c.hasLong && (MeetsMisread(c, words) || MeetsReturn(c, words)))
  {
    StuckIff(c, words);
    ReturnsEndIff(c, words);
  }
}
