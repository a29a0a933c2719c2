/**
 Model of toEscapedText() and toNonEscapedText() of src/db/InstrumentsDb.cpp, by which file names and
 descriptions are written into the database and read back.
 */
module DbEscapes {
  import opened Wrappers
  import opened Strings

  /** The character that stands for x behind a backslash. */
  function CodeOf(x: char): Option<char> {
    match x
    case '\\' => Some('\\')
    case '\'' => Some('\'')
    case '"' => Some('"')
    case '\r' => Some('r')
    case '\n' => Some('n')
    case _ => None
  }

  /** The character that a code behind a backslash stands for. */
  function MeaningOf(c: char): Option<char> {
    match c
    case '\\' => Some('\\')
    case '\'' => Some('\'')
    case '"' => Some('"')
    case 'r' => Some('\r')
    case 'n' => Some('\n')
    case _ => None
  }

  function EscapedChar(x: char): string {
    var c := CodeOf(x);
    if c.Some? then ['\\', c.value] else [x]
  }

  function Escaped(s: string): string {
    if s == "" then "" else Escaped(s[..|s| - 1]) + EscapedChar(s[|s| - 1])
  }

  /** What is read back; None for the exception at a backslash at the end. An unknown code is dropped. */
  function Unescaped(s: string): Option<string>
    decreases |s|
  {
    if s == "" then Some("")
    else if s[0] != '\\' then Prepended([s[0]], Unescaped(s[1..]))
    else if |s| == 1 then None
    else
      var x := MeaningOf(s[1]);
      Prepended(if x.Some? then [x.value] else "", Unescaped(s[2..]))
  }

  function Prepended(a: string, r: Option<string>): Option<string> {
    if r.None? then None else Some(a + r.value)
  }

  // ----- The loops -----

  method ToEscapedText(s: string) returns (text: string)
    ensures text == Escaped(s)
  {
    hide Escaped;
    text := s;
    var i := 0;
    ghost var k := 0;
    EscapeStart(s);
    while i < |text|
      invariant 0 <= k <= |s| && 0 <= i <= |text| && text[..i] == Escaped(s[..k]) && text[i..] == s[k..]
      decreases |s| - k
    {
      EscapeStep(s, k, text, i);
      var code := CodeOf(text[i]);
      if code.Some? {
        text := text[..i] + ['\\', code.value] + text[i + 1..];
        i := i + 1;
      }
      i := i + 1;
      k := k + 1;
    }
    EscapeEnd(s, k, text, i);
  }

  lemma EscapeStart(s: string)
    ensures s[..0] == Escaped(s[..0]) && s[0..] == s
  {
  }

  lemma EscapeEnd(s: string, k: nat, text: string, i: nat)
    requires k <= |s| && i == |text| && text[..i] == Escaped(s[..k]) && text[i..] == s[k..]
    ensures text == Escaped(s)
  {
    assert |text[i..]| == |s[k..]|;
    assert s[..k] == s && text[..i] == text;
  }

  lemma EscapeStep(s: string, k: nat, text: string, i: nat)
    requires k <= |s| && i < |text| && text[..i] == Escaped(s[..k]) && text[i..] == s[k..]
    ensures k < |s| && text[i] == s[k]
    ensures var e := EscapedChar(text[i]);
            var text', i' := text[..i] + e + text[i + 1..], i + |e|;
            text'[..i'] == Escaped(s[..k + 1]) && text'[i'..] == s[k + 1..] && (|e| == 1 ==> text' == text)
  {
    assert |text[i..]| == |s[k..]| && text[i..][0] == s[k..][0];
    assert text[i + 1..] == text[i..][1..] && s[k + 1..] == s[k..][1..];
    var t := s[..k + 1];
    assert t[..k] == s[..k] && t[k] == s[k];
    var e := EscapedChar(text[i]);
    assert |e| == 1 ==> text == text[..i] + e + text[i + 1..];
  }

  /** The loop of toNonEscapedText(); None if it throws. */
  method ToNonEscapedText(text: string) returns (r: Option<string>)
    ensures r == Unescaped(text)
  {
    hide Unescaped;
    var sb, i := "", 0;
    UnescapeStart(text);
    while i < |text|
      invariant 0 <= i <= |text| && Unescaped(text) == Prepended(sb, Unescaped(text[i..]))
      decreases |text| - i
    {
      UnescapeStep(text, i, sb);
      var c := text[i];
      if c == '\\' {
        i := i + 1;
        if i >= |text| {
          return None;
        }
        var x := MeaningOf(text[i]);
        if x.Some? {
          sb := sb + [x.value];
        }
      } else {
        sb := sb + [c];
      }
      i := i + 1;
    }
    UnescapeEnd(text, sb);
    return Some(sb);
  }

  lemma UnescapeStart(text: string)
    ensures Unescaped(text) == Prepended("", Unescaped(text[0..]))
  {
    assert text[0..] == text;
    var r := Unescaped(text);
    if r.Some? { assert "" + r.value == r.value; }
  }

  lemma UnescapeEnd(text: string, sb: string)
    ensures Prepended(sb, Unescaped(text[|text|..])) == Some(sb)
  {
    assert text[|text|..] == "" && sb + "" == sb;
  }

  lemma UnescapeStep(text: string, i: nat, sb: string)
    requires i < |text|
    ensures var rest := text[i..];
            Prepended(sb, Unescaped(rest)) ==
            if text[i] != '\\' then Prepended(sb + [text[i]], Unescaped(text[i + 1..]))
            else if i + 1 == |text| then None
            else
              var x := MeaningOf(text[i + 1]);
              Prepended(if x.Some? then sb + [x.value] else sb, Unescaped(text[i + 2..]))
  {
    var rest := text[i..];
    assert rest[0] == text[i] && rest[1..] == text[i + 1..];
    if text[i] != '\\' {
      PrependedTwice(sb, [text[i]], Unescaped(text[i + 1..]));
    } else if i + 1 < |text| {
      assert rest[1] == text[i + 1] && rest[2..] == text[i + 2..];
      var x := MeaningOf(text[i + 1]);
      PrependedTwice(sb, if x.Some? then [x.value] else "", Unescaped(text[i + 2..]));
      assert sb + "" == sb;
    }
  }

  lemma PrependedTwice(a: string, b: string, r: Option<string>)
    ensures Prepended(a, Prepended(b, r)) == Prepended(a + b, r)
  {
    if r.Some? { JoinAssoc(a, b, r.value); }
  }

  // ----- Round trip -----

  lemma {:induction false} EscapedCons(x: char, rest: string)
    ensures Escaped([x] + rest) == EscapedChar(x) + Escaped(rest)
    decreases |rest|
  {
    if rest == "" {
      assert [x] + rest == [x] && [x][..0] == "";
    } else {
      var a, y := rest[..|rest| - 1], rest[|rest| - 1];
      assert rest == a + [y] && [x] + rest == ([x] + a) + [y];
      hide Escaped, EscapedChar;
      EscapedCons(x, a);
      EscapedSnoc([x] + a, y);
      EscapedSnoc(a, y);
      JoinAssoc(EscapedChar(x), Escaped(a), EscapedChar(y));
    }
  }

  lemma EscapedSnoc(s: string, y: char)
    ensures Escaped(s + [y]) == Escaped(s) + EscapedChar(y)
  {
    assert (s + [y])[..|s|] == s;
  }

  lemma UnescapedChar(x: char, rest: string)
    ensures Unescaped(EscapedChar(x) + rest) == Prepended([x], Unescaped(rest))
  {
    var s := EscapedChar(x) + rest;
    if CodeOf(x).Some? {
      assert s[2..] == rest;
    } else {
      assert s[1..] == rest;
    }
  }

  /** Every text, whatever characters it contains, is read back as it was written. */
  lemma {:induction false} TextRoundTrip(s: string)
    ensures Unescaped(Escaped(s)) == Some(s)
    decreases |s|
  {
    if s != "" {
      var x, rest := s[0], s[1..];
      assert s == [x] + rest;
      hide Escaped, Unescaped;
      EscapedCons(x, rest);
      UnescapedChar(x, Escaped(rest));
      TextRoundTrip(rest);
    }
  }

  // ----- What the texts look like -----

  lemma {:induction false} EscapedJoin(a: string, b: string)
    ensures Escaped(a + b) == Escaped(a) + Escaped(b)
    decreases |b|
  {
    if b == "" {
      assert a + b == a;
    } else {
      var b', x := b[..|b| - 1], b[|b| - 1];
      assert b == b' + [x] && a + b == (a + b') + [x];
      hide Escaped, EscapedChar;
      EscapedJoin(a, b');
      EscapedSnoc(a + b', x);
      EscapedSnoc(b', x);
      JoinAssoc(Escaped(a), Escaped(b'), EscapedChar(x));
    }
  }

  /** The escaping, character by character. */
  lemma EscapedLetters(a: string, x: char, b: string)
    ensures Escaped("") == ""
    ensures Escaped(a + [x] + b) ==
            Escaped(a) +
            (if x == '\\' then "\\\\" else if x == '\'' then "\\'" else if x == '"' then "\\\""
            else if x == '\r' then "\\r" else if x == '\n' then "\\n" else [x]) +
            Escaped(b)
  {
    EscapedSnoc("", x);
    assert Escaped("") == "" && "" + [x] == [x];
    hide Escaped;
    EscapedJoin(a + [x], b);
    EscapedJoin(a, [x]);
  }

  /** What is read back, code by code. */
  lemma UnescapedCodes(x: char, rest: string)
    requires x != '\\'
    ensures Unescaped("") == Some("") && Unescaped("\\") == None
    ensures Unescaped([x] + rest) == Prepended([x], Unescaped(rest))
    ensures Unescaped("\\\\" + rest) == Prepended("\\", Unescaped(rest))
    ensures Unescaped("\\" + [x] + rest) ==
            Prepended(
                if x == '\'' then "'" else if x == '"' then "\"" else if x == 'r' then "\r"
                else if x == 'n' then "\n" else "",
                Unescaped(rest))
  {
    assert ([x] + rest)[1..] == rest;
    assert ("\\\\" + rest)[2..] == rest;
    assert ("\\" + [x] + rest)[2..] == rest;
  }

  /** Behind every backslash there is a character that belongs to it; nothing else is a quote or ends a line. */
  predicate NothingBare(text: string)
    decreases |text|
  {
    if text == "" then true
    else if text[0] == '\\' then |text| > 1 && NothingBare(text[2..])
    else text[0] != '\'' && text[0] != '"' && NothingBare(text[1..])
  }

  /** An escaped text can stand between quotes, on one line. */
  lemma {:induction false} EscapedHasNothingBare(s: string)
    ensures NothingBare(Escaped(s)) && '\r' !in Escaped(s) && '\n' !in Escaped(s)
    decreases |s|
  {
    if s != "" {
      var x, rest := s[0], s[1..];
      assert s == [x] + rest;
      hide Escaped;
      EscapedCons(x, rest);
      EscapedHasNothingBare(rest);
      var e, r := EscapedChar(x), Escaped(rest);
      assert (e + r)[|e|..] == r;
    }
  }
}
