/**
 What getopt_long() promises its users, stated on words and option strings: which long option a name means, and
 what the run of module GetoptSpec reports for each form of an option.
 */
module GetoptLaws {
  import opened Wrappers
  import opened GetoptSpec

  // ----- What a name means -----

  predicate Differ(a: LongOption, b: LongOption) {
    a.hasArg != b.hasArg || a.flag != b.flag || a.val != b.val
  }

  /** The i-th option is the first one that has exactly this name. */
  predicate IsExact(longs: seq<LongOption>, name: string, i: int) {
    0 <= i < |longs| && longs[i].name == name && forall j | 0 <= j < i :: longs[j].name != name
  }

  ghost predicate NoneExact(longs: seq<LongOption>, name: string) {
    forall i | 0 <= i < |longs| :: longs[i].name != name
  }

  /** The name is the beginning of the names of two options that mean different things. */
  ghost predicate TwoMeanings(longs: seq<LongOption>, name: string) {
    exists i, j | 0 <= i < |longs| && 0 <= j < |longs| ::
      name <= longs[i].name && name <= longs[j].name && Differ(longs[i], longs[j])
  }

  lemma ExactNameWins(longs: seq<LongOption>, name: string, i: int)
    requires IsExact(longs, name, i)
    ensures MeaningOf(longs, name) == Known(longs[i])
  {
  }

  lemma UnknownIff(longs: seq<LongOption>, name: string)
    ensures MeaningOf(longs, name).Unknown? <==> forall i | 0 <= i < |longs| :: !(name <= longs[i].name)
  {
    forall i | 0 <= i < |longs|
      ensures IsPrefixOf(name, longs[i].name) <==> name <= longs[i].name
      ensures longs[i].name == name ==> name <= longs[i].name
    {
    }
  }

  lemma AmbiguousIff(longs: seq<LongOption>, name: string)
    ensures MeaningOf(longs, name).Ambiguous? <==> NoneExact(longs, name) && TwoMeanings(longs, name)
  {
    forall i | 0 <= i < |longs|
      ensures IsPrefixOf(name, longs[i].name) <==> name <= longs[i].name
    {
    }
    var a := FirstAbbreviated(longs, name);
    if a >= 0 && Clashes(longs, name, a) {
      var i :| a < i < |longs| && IsPrefixOf(name, longs[i].name) && !SameMeaning(longs[i], longs[a]);
      assert Differ(longs[i], longs[a]);
      assert TwoMeanings(longs, name);
    } else if a >= 0 {
      forall i | 0 <= i < |longs| && name <= longs[i].name
        ensures !Differ(longs[i], longs[a])
      {
        assert i > a ==> SameMeaning(longs[i], longs[a]);
      }
    }
  }

  /** An abbreviation stands for the first of the options it begins, if these all mean the same. */
  lemma AbbreviationMeans(longs: seq<LongOption>, name: string, i: int)
    requires NoneExact(longs, name) && !TwoMeanings(longs, name)
    requires 0 <= i < |longs| && name <= longs[i].name && forall j | 0 <= j < i :: !(name <= longs[j].name)
    ensures MeaningOf(longs, name) == Known(longs[i])
  {
    forall j | 0 <= j < |longs|
      ensures IsPrefixOf(name, longs[j].name) <==> name <= longs[j].name
    {
    }
    UnknownIff(longs, name);
    AmbiguousIff(longs, name);
  }

  // ----- Long options -----

  /** The words "--name=value" and "--name". */
  function Given(name: string, value: string): string {
    "--" + name + "=" + value
  }

  function Bare(name: string): string {
    "--" + name
  }

  /** A run that begins with one report and a number of words that belong to options. */
  predicate Begins(p: Parse, report: Report, marks: seq<bool>, rest: Parse) {
    p.reports == [report] + rest.reports && p.marks == marks + rest.marks && p.ending == rest.ending
  }

  lemma FirstAt(s: string, ch: char, n: int)
    requires 0 <= n < |s| && s[n] == ch && ch !in s[..n]
    ensures IndexOf(s, ch) == n
  {
    var k := IndexOf(s, ch);
    assert forall i | 0 <= i < n :: s[i] == s[..n][i];
    assert forall i | 0 <= i < k :: s[i] == s[..k][i];
  }

  lemma GivenParts(name: string, value: string)
    requires '=' !in name
    ensures var body := name + "=" + value; NameOf(body) == name && ArgOf(body) == Some(value)
    ensures var w := Given(name, value); |w| > 2 && w[0] == '-' && Letters(w) == "-" + (name + "=" + value)
  {
    var body := name + "=" + value;
    assert body[..|name|] == name && body[|name|] == '=';
    FirstAt(body, '=', |name|);
    assert body[|name| + 1..] == value;
    assert Given(name, value)[1..] == "-" + body;
  }

  lemma BareParts(name: string)
    requires '=' !in name && name != ""
    ensures NameOf(name) == name && ArgOf(name) == None
    ensures var w := Bare(name); |w| > 2 && w[0] == '-' && Letters(w) == "-" + name
  {
    assert Bare(name)[1..] == "-" + name;
  }

  /** A word of a long option is one call. */
  lemma OneLongCall(c: Setting, word: string, body: string, words: seq<string>)
    requires c.hasLong && |word| > 2 && word[0] == '-' && Letters(word) == "-" + body
    ensures EffectOf(c, word, Letters(word), words) == LongEffect(c, body, words)
    ensures var e, r := LongEffect(c, body, words), Read(c, [word] + words);
            e.Effect? && e.taken == 0 ==> Begins(r, e.report, [true], Read(c, words))
    ensures var e, r := LongEffect(c, body, words), Read(c, [word] + words);
            e.Effect? && e.taken == 1 ==> words != [] && Begins(r, e.report, [true, true], Read(c, words[1..]))
  {
    hide LongEffect;
    var all, p := [word] + words, Letters(word);
    assert p[0] == '-' && p[1..] == body && p != word;
    assert all[0] == word && all[1..] == words;
    var e := LongEffect(c, body, words);
    assert EffectOf(c, word, p, words) == e;
    assert Read(c, all) == ReadWord(c, all, p);
    if e.Effect? && e.taken == 0 {
      assert Trues(1) == [true];
    }
    if e.Effect? && e.taken == 1 {
      assert all[2..] == words[1..];
      assert Trues(2) == [true, true];
    }
  }

  /** "--name=value" for an option that takes an argument. */
  lemma LongWithValue(c: Setting, name: string, o: LongOption, value: string, words: seq<string>)
    requires c.hasLong && '=' !in name && MeaningOf(c.longs, name) == Known(o) && (o.flag == 0 ==> o.val != -1)
    requires o.hasArg == 1 || o.hasArg == 2
    ensures var w, v := Given(name, value), if o.flag == 0 then o.val else 0;
            && EffectOf(c, w, Letters(w), words) == Effect(Report(v, Some(value)), "", 0, None)
            && Begins(Read(c, [w] + words), Report(v, Some(value)), [true], Read(c, words))
  {
    GivenParts(name, value);
    OneLongCall(c, Given(name, value), name + "=" + value, words);
    hide Read, MeaningOf, NameOf, ArgOf, Letters, Given;
  }

  /** "--name=value" for an option that takes none. */
  lemma LongWithUnwantedValue(c: Setting, name: string, o: LongOption, value: string, words: seq<string>)
    requires c.hasLong && '=' !in name && MeaningOf(c.longs, name) == Known(o) && o.hasArg == 0
    ensures var w, v := Given(name, value), Missing(c);
            && EffectOf(c, w, Letters(w), words)
               == Effect(Report(v, None), "", 0, Some(if o.flag == 0 then o.val else 0))
            && Begins(Read(c, [w] + words), Report(v, None), [true], Read(c, words))
  {
    GivenParts(name, value);
    OneLongCall(c, Given(name, value), name + "=" + value, words);
    hide Read, MeaningOf, NameOf, ArgOf, Letters, Given;
  }

  /** A colon at the front of the option string changes what a missing argument is reported as. */
  function Missing(c: Setting): int {
    if c.options != "" && c.options[0] == ':' then ':' as int else '?' as int
  }

  /** "--name" for an option without argument, or with one that may be left out. */
  lemma LongAlone(c: Setting, name: string, o: LongOption, words: seq<string>)
    requires c.hasLong && '=' !in name && name != "" && MeaningOf(c.longs, name) == Known(o)
    requires o.hasArg != 1 && (o.flag == 0 ==> o.val != -1)
    ensures var w, v := Bare(name), if o.flag == 0 then o.val else 0;
            && EffectOf(c, w, Letters(w), words) == Effect(Report(v, None), "", 0, None)
            && Begins(Read(c, [w] + words), Report(v, None), [true], Read(c, words))
  {
    BareParts(name);
    OneLongCall(c, Bare(name), name, words);
    hide Read, MeaningOf, NameOf, ArgOf, Letters, Bare;
  }

  /** "--name value" for an option with a required argument. */
  lemma LongThenValue(c: Setting, name: string, o: LongOption, value: string, words: seq<string>)
    requires c.hasLong && '=' !in name && name != "" && MeaningOf(c.longs, name) == Known(o)
    requires o.hasArg == 1 && (o.flag == 0 ==> o.val != -1)
    ensures var w, v := Bare(name), if o.flag == 0 then o.val else 0;
            && EffectOf(c, w, Letters(w), [value] + words) == Effect(Report(v, Some(value)), "", 1, None)
            && Begins(Read(c, [w, value] + words), Report(v, Some(value)), [true, true], Read(c, words))
  {
    BareParts(name);
    OneLongCall(c, Bare(name), name, [value] + words);
    assert [Bare(name)] + ([value] + words) == [Bare(name), value] + words;
    assert ([value] + words)[1..] == words;
    hide Read, MeaningOf, NameOf, ArgOf, Letters, Bare;
  }

  /** "--name" at the end of the vector, where the argument is missing. */
  lemma LongWithoutValue(c: Setting, name: string, o: LongOption)
    requires c.hasLong && '=' !in name && name != "" && MeaningOf(c.longs, name) == Known(o) && o.hasArg == 1
    ensures var w := Bare(name);
            && EffectOf(c, w, Letters(w), [])
               == Effect(Report(Missing(c), None), "", 0, Some(if o.flag == 0 then o.val else 0))
            && Begins(Read(c, [w]), Report(Missing(c), None), [true], Parse([], [], AtEnd))
  {
    BareParts(name);
    OneLongCall(c, Bare(name), name, []);
    assert [Bare(name)] + [] == [Bare(name)];
    assert Read(c, []) == Parse([], [], AtEnd);
    hide Read, MeaningOf, NameOf, ArgOf, Letters, Bare;
  }

  /** A name that means nothing, or more than one thing. */
  lemma LongRefused(c: Setting, name: string, value: Option<string>, words: seq<string>)
    requires c.hasLong && '=' !in name && (value.Some? || name != "") && !MeaningOf(c.longs, name).Known?
    ensures var w := if value.Some? then Given(name, value.value) else Bare(name);
            && EffectOf(c, w, Letters(w), words) == Effect(Report('?' as int, None), "", 0, Some(0))
            && Begins(Read(c, [w] + words), Report('?' as int, None), [true], Read(c, words))
  {
    if value.Some? {
      GivenParts(name, value.value);
      OneLongCall(c, Given(name, value.value), name + "=" + value.value, words);
    } else {
      BareParts(name);
      OneLongCall(c, Bare(name), name, words);
    }
    hide Read, MeaningOf, NameOf, ArgOf, Letters, Given, Bare;
  }

  // ----- Option letters -----

  /** In the option string, this letter is followed by `post`. */
  predicate Declared(c: Setting, ch: char, pre: string, post: string) {
    c.options == pre + [ch] + post && ch !in pre && ch != ':' && ch != '-' && !BeforeLong(c, ch, post)
  }

  /** "W;" announces long options. */
  predicate BeforeLong(c: Setting, ch: char, post: string) {
    c.hasLong && ch == 'W' && post != "" && post[0] == ';'
  }

  predicate Colons(post: string, n: nat) {
    n <= |post| && (forall i | 0 <= i < n :: post[i] == ':')
  }

  lemma DeclaredAt(c: Setting, ch: char, pre: string, post: string)
    requires Declared(c, ch, pre, post)
    ensures ch in c.options && IndexOf(c.options, ch) == |pre|
    ensures CharAt(c.options, |pre| + 1) == ':' <==> Colons(post, 1)
    ensures Colons(post, 1) ==> (CharAt(c.options, |pre| + 2) == ':' <==> Colons(post, 2))
    ensures !IsLongLetter(c, ch)
  {
    var s, n := c.options, |pre|;
    assert s[n] == ch && s[..n] == pre;
    FirstAt(s, ch, n);
    assert post != "" ==> s[n + 1] == post[0];
    assert |post| > 1 ==> s[n + 2] == post[1];
  }

  /** A letter without argument; the rest of the word is left. */
  lemma LetterAlone(c: Setting, word: string, ch: char, pre: string, post: string, rest: string, next: seq<string>)
    requires Declared(c, ch, pre, post) && !Colons(post, 1)
    ensures EffectOf(c, word, [ch] + rest, next) == Effect(Report(ch as int, None), rest, 0, None)
  {
    DeclaredAt(c, ch, pre, post);
    assert ([ch] + rest)[1..] == rest;
    hide IndexOf, CharAt, IsLongLetter, Declared;
  }

  /** A letter with an argument, from the rest of the word. */
  lemma LetterWithRest(c: Setting, word: string, ch: char, pre: string, post: string, rest: string,
      next: seq<string>)
    requires Declared(c, ch, pre, post) && Colons(post, 1) && rest != ""
    ensures EffectOf(c, word, [ch] + rest, next) == Effect(Report(ch as int, Some(rest)), "", 0, None)
  {
    DeclaredAt(c, ch, pre, post);
    assert ([ch] + rest)[1..] == rest;
    hide IndexOf, CharAt, IsLongLetter, Declared;
  }

  /** Two colons: the argument may be left out, and is never the next word. */
  lemma LetterWithoutRest(c: Setting, word: string, ch: char, pre: string, post: string, next: seq<string>)
    requires Declared(c, ch, pre, post) && Colons(post, 2)
    ensures EffectOf(c, word, [ch], next) == Effect(Report(ch as int, None), "", 0, None)
  {
    DeclaredAt(c, ch, pre, post);
    assert Colons(post, 1);
    assert [ch][1..] == "";
    hide IndexOf, CharAt, IsLongLetter, Declared;
  }

  /** One colon: the argument is the next word, if there is one. */
  lemma LetterThenValue(c: Setting, word: string, ch: char, pre: string, post: string, next: seq<string>)
    requires Declared(c, ch, pre, post) && Colons(post, 1) && !Colons(post, 2)
    ensures EffectOf(c, word, [ch], next) ==
            if next == [] then Effect(Report(Missing(c), None), "", 0, Some(ch as int))
            else Effect(Report(ch as int, Some(next[0])), "", 1, None)
  {
    DeclaredAt(c, ch, pre, post);
    assert [ch][1..] == "";
    hide IndexOf, IsLongLetter, Declared;
  }

  /** A character that is no option letter. */
  lemma LetterRefused(c: Setting, word: string, ch: char, rest: string, next: seq<string>)
    requires ch != '-' && (ch == ':' || ch !in c.options)
    ensures EffectOf(c, word, [ch] + rest, next) == Effect(Report('?' as int, None), rest, 0, Some(ch as int))
  {
    assert ([ch] + rest)[1..] == rest;
  }

  /** "-Wname" is like "--name", and so is "-W" with the name in the next word; only a value -1 is returned. */
  lemma LongAfterW(c: Setting, pre: string, post: string, name: string, next: seq<string>)
    requires c.hasLong && c.options == pre + "W;" + post && 'W' !in pre && name != ""
    ensures var e, w := EffectOf(c, Bare(name), "-" + name, next), "-W" + name;
            EffectOf(c, w, "W" + name, next) == if e.Misread? then Returned(e.words) else e
    ensures var e := EffectOf(c, Bare(name), "-" + name, next);
            e.Effect? ==> EffectOf(c, "-W", "W", [name] + next) == e.(taken := e.taken + 1)
    ensures var e := EffectOf(c, Bare(name), "-" + name, next);
            e.Misread? ==> EffectOf(c, "-W", "W", [name] + next) == Returned(1 + e.words)
    ensures EffectOf(c, "-W", "W", []) == Effect(Report(Missing(c), None), "", 0, Some('W' as int))
  {
    var s, n := c.options, |pre|;
    assert s[n] == 'W' && s[n + 1] == ';' && s[..n] == pre;
    FirstAt(s, 'W', n);
    assert IsLongLetter(c, 'W');
    assert ("W" + name)[1..] == name && ("-" + name)[1..] == name && "W"[1..] == "";
    assert ([name] + next)[0] == name && ([name] + next)[1..] == next;
    assert Bare(name)[1] == '-' && |Bare(name)| == |name| + 2;
    hide LongEffect, IsLongLetter;
  }

  // ----- Words -----

  /** The rest of a word is read alike behind different beginnings. */
  lemma {:induction false} SameRest(c: Setting, v: string, w: string, p: string, words: seq<string>)
    requires p != "" && |p| < |v| && |p| < |w|
    ensures ReadWord(c, [v] + words, p) == ReadWord(c, [w] + words, p)
    decreases |p|
  {
    var a, b := [v] + words, [w] + words;
    assert a[1..] == words && b[1..] == words;
    var e := EffectOf(c, v, p, words);
    assert e == EffectOf(c, w, p, words) by { hide LongEffect, LetterEffect; }
    if e.Effect? {
      if e.rest != "" {
        SameRest(c, v, w, e.rest, words);
      } else {
        assert a[1 + e.taken..] == words[e.taken..] && b[1 + e.taken..] == words[e.taken..];
      }
    }
  }

  /** Letters without arguments can be bundled: "-ab" is "-a" and "-b". */
  lemma Bundled(c: Setting, ch: char, pre: string, post: string, rest: string, words: seq<string>)
    requires Declared(c, ch, pre, post) && !Colons(post, 1) && rest != "" && rest[0] != '-'
    ensures var r := Read(c, ["-" + rest] + words);
            Read(c, ["-" + [ch] + rest] + words) == Parse([Report(ch as int, None)] + r.reports, r.marks, r.ending)
  {
    var v, w, p := "-" + [ch] + rest, "-" + rest, [ch] + rest;
    assert Letters(v) == p && Letters(w) == rest && v[1] == ch && w[1] == rest[0];
    var a, b := [v] + words, [w] + words;
    assert a[0] == v && a[1..] == words && b[0] == w;
    LetterAlone(c, v, ch, pre, post, rest, words);
    hide EffectOf, Declared;
    assert Read(c, a) == ReadWord(c, a, p);
    assert Read(c, b) == ReadWord(c, b, rest);
    SameRest(c, v, w, rest, words);
    var r := Read(c, b);
    assert [] + r.marks == r.marks;
  }

  /** The last letter of a word; `taken` tells how many words behind it belong to it. */
  lemma LastLetter(c: Setting, ch: char, rest: string, words: seq<string>, report: Report, taken: nat,
      bad: Option<int>)
    requires ch != '-' && taken <= |words|
    requires var w := "-" + [ch] + rest; EffectOf(c, w, [ch] + rest, words) == Effect(report, "", taken, bad)
    ensures Begins(Read(c, ["-" + [ch] + rest] + words), report, [true] + Trues(taken), Read(c, words[taken..]))
  {
    var w, p := "-" + [ch] + rest, [ch] + rest;
    assert Letters(w) == p && w[1] == ch;
    var all := [w] + words;
    assert all[0] == w && all[1..] == words && all[1 + taken..] == words[taken..];
    hide EffectOf;
    assert Read(c, all) == ReadWord(c, all, p);
    OneMoreTrue(taken);
  }

  lemma {:induction false} OneMoreTrue(k: nat)
    ensures Trues(1 + k) == [true] + Trues(k)
  {
    if k > 0 { OneMoreTrue(k - 1); }
  }

  /** "-a" for a letter without argument. */
  lemma LetterWord(c: Setting, ch: char, pre: string, post: string, words: seq<string>)
    requires Declared(c, ch, pre, post) && (!Colons(post, 1) || Colons(post, 2))
    ensures Begins(Read(c, ["-" + [ch]] + words), Report(ch as int, None), [true], Read(c, words))
  {
    var w := "-" + [ch] + "";
    assert w == "-" + [ch] && [ch] + "" == [ch];
    if Colons(post, 2) {
      LetterWithoutRest(c, w, ch, pre, post, words);
    } else {
      LetterAlone(c, w, ch, pre, post, "", words);
    }
    hide EffectOf, Read;
    LastLetter(c, ch, "", words, Report(ch as int, None), 0, None);
    assert [true] + Trues(0) == [true] && words[0..] == words;
  }

  /** "-aVALUE", and "-a VALUE" with a required argument. */
  lemma LetterValueWords(c: Setting, ch: char, pre: string, post: string, value: string, words: seq<string>)
    requires Declared(c, ch, pre, post) && Colons(post, 1)
    ensures value != "" ==>
              Begins(Read(c, ["-" + [ch] + value] + words), Report(ch as int, Some(value)), [true], Read(c, words))
    ensures !Colons(post, 2) ==>
              Begins(Read(c, ["-" + [ch], value] + words), Report(ch as int, Some(value)), [true, true],
                     Read(c, words))
    ensures !Colons(post, 2) ==>
              Begins(Read(c, ["-" + [ch]]), Report(Missing(c), None), [true], Parse([], [], AtEnd))
  {
    var w := "-" + [ch] + "";
    assert w == "-" + [ch] && [ch] + "" == [ch];
    assert Read(c, []) == Parse([], [], AtEnd);
    assert Trues(0) == [] && Trues(1) == [true];
    hide EffectOf, Read, Trues, Declared;
    if value != "" {
      LetterWithRest(c, "-" + [ch] + value, ch, pre, post, value, words);
      LastLetter(c, ch, value, words, Report(ch as int, Some(value)), 0, None);
      assert [true] + [] == [true] && words[0..] == words;
    }
    if !Colons(post, 2) {
      var next := [value] + words;
      assert next[0] == value && next[1..] == words;
      LetterThenValue(c, w, ch, pre, post, next);
      LastLetter(c, ch, "", next, Report(ch as int, Some(value)), 1, None);
      assert [w] + next == [w, value] + words && [true] + [true] == [true, true];
      LetterThenValue(c, w, ch, pre, post, []);
      LastLetter(c, ch, "", [], Report(Missing(c), None), 0, Some(ch as int));
      assert [w] + [] == [w] && [true] + [] == [true];
    }
  }

  /** "-x" where x is no option letter, and the rest of a word behind it. */
  lemma RefusedWord(c: Setting, ch: char, rest: string, words: seq<string>)
    requires ch != '-' && (ch == ':' || ch !in c.options) && (rest != "" ==> rest[0] != '-')
    ensures rest == "" ==> Begins(Read(c, ["-" + [ch]] + words), Report('?' as int, None), [true], Read(c, words))
    ensures var r := Read(c, ["-" + rest] + words);
            rest != "" ==>
              Read(c, ["-" + [ch] + rest] + words) == Parse([Report('?' as int, None)] + r.reports, r.marks, r.ending)
  {
    var v, w, p := "-" + [ch] + rest, "-" + rest, [ch] + rest;
    LetterRefused(c, v, ch, rest, words);
    if rest == "" {
      assert v == "-" + [ch];
      hide EffectOf, Read;
      LastLetter(c, ch, "", words, Report('?' as int, None), 0, Some(ch as int));
      assert [true] + Trues(0) == [true] && words[0..] == words;
    } else {
      assert Letters(v) == p && Letters(w) == rest && v[1] == ch && w[1] == rest[0];
      var a, b := [v] + words, [w] + words;
      assert a[0] == v && a[1..] == words && b[0] == w;
      hide EffectOf;
      assert Read(c, a) == ReadWord(c, a, p);
      assert Read(c, b) == ReadWord(c, b, rest);
      SameRest(c, v, w, rest, words);
      assert [] + Read(c, b).marks == Read(c, b).marks;
    }
  }

  /** Words that are no options are skipped, up to a word "--", which ends the run. */
  lemma OtherWords(c: Setting, word: string, words: seq<string>)
    ensures Read(c, []) == Parse([], [], AtEnd)
    ensures Read(c, ["--"] + words) == Parse([], [true], AtEnd)
    ensures var r := Read(c, words);
            (word == "" || word[0] != '-' || (word == "-" && '-' !in c.options)) ==>
              Read(c, [word] + words) == Parse(r.reports, [false] + r.marks, r.ending)
  {
    var r := Read(c, words);
    assert ([word] + words)[0] == word && ([word] + words)[1..] == words;
    assert (["--"] + words)[0] == "--";
    assert [] + r.reports == r.reports;
  }
}
