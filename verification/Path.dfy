/**
 Model of the converters of src/common/Path.cpp between a path, which is a list of names, and
 its POSIX and database notations, with hexToNumber() of src/common/global_private.cpp.
 Names may contain any character.
 */
module Path {
  import opened Strings
  import opened DbPaths

  // ----- Replacing characters -----

  function Put(x: char, c: char, code: string): string {
    if x == c then code else [x]
  }

  /** Every c of s replaced. */
  function Replaced(s: string, c: char, code: string): string {
    if s == "" then "" else Replaced(s[..|s| - 1], c, code) + Put(s[|s| - 1], c, code)
  }

  lemma ReplacedLast(s: string, x: char, c: char, code: string)
    ensures Replaced(s + [x], c, code) == Replaced(s, c, code) + Put(x, c, code)
  {
    assert (s + [x])[..|s|] == s;
  }

  lemma {:induction false} ReplacedJoin(a: string, b: string, c: char, code: string)
    ensures Replaced(a + b, c, code) == Replaced(a, c, code) + Replaced(b, c, code)
    decreases |b|
  {
    if b == "" {
      assert a + b == a;
    } else {
      var b', x := b[..|b| - 1], b[|b| - 1];
      assert b == b' + [x] && a + b == (a + b') + [x];
      hide Replaced, Put;
      ReplacedJoin(a, b', c, code);
      ReplacedLast(a + b', x, c, code);
      ReplacedLast(b', x, c, code);
      JoinAssoc(Replaced(a, c, code), Replaced(b', c, code), Put(x, c, code));
    }
  }

  lemma {:induction false} ReplacedNothing(s: string, c: char, code: string)
    requires forall k | 0 <= k < |s| :: s[k] != c
    ensures Replaced(s, c, code) == s
    decreases |s|
  {
    if s != "" {
      ReplacedNothing(s[..|s| - 1], c, code);
    }
  }

  lemma ReplacedOne(x: char, c: char, code: string)
    ensures Replaced([x], c, code) == Put(x, c, code)
  {
    assert [x][..0] == "";
  }

  /** The loops of toPosix(): the search goes on behind each replacement. */
  method ReplaceAll(s: string, c: char, code: string) returns (e: string)
    ensures e == Replaced(s, c, code)
  {
    hide Replaced, FindChar;
    e := s;
    var pos := FindChar(e, c, 0);
    ghost var p, k := 0, 0;
    NothingReplaced(s, c, code);
    while pos != -1
      invariant 0 <= k <= |s| && 0 <= p <= |e| && e[..p] == Replaced(s[..k], c, code) && e[p..] == s[k..]
      invariant pos == FindChar(e, c, p)
      decreases |s| - k
    {
      ReplaceStep(s, c, code, e, p, k, pos);
      e := e[..pos] + code + e[pos + 1..];
      k := k + (pos - p) + 1;
      p := pos + |code|;
      pos := FindChar(e, c, pos + |code|);
    }
    ReplaceEnd(s, c, code, e, p, k);
  }

  lemma NothingReplaced(s: string, c: char, code: string)
    ensures s[..0] == Replaced(s[..0], c, code) && s[0..] == s
  {
  }

  lemma ReplaceEnd(s: string, c: char, code: string, e: string, p: nat, k: nat)
    requires k <= |s| && p <= |e| && e[..p] == Replaced(s[..k], c, code) && e[p..] == s[k..]
    requires forall i | p <= i < |e| :: e[i] != c
    ensures e == Replaced(s, c, code)
  {
    hide Replaced;
    assert forall i | 0 <= i < |e[p..]| :: e[p..][i] == e[p + i];
    ReplacedNothing(s[k..], c, code);
    ReplacedJoin(s[..k], s[k..], c, code);
    assert s == s[..k] + s[k..] && e == e[..p] + e[p..];
  }

  lemma ReplaceStep(s: string, c: char, code: string, e: string, p: nat, k: nat, pos: nat)
    requires k <= |s| && p <= pos < |e| && e[..p] == Replaced(s[..k], c, code) && e[p..] == s[k..]
    requires e[pos] == c && forall i | p <= i < pos :: e[i] != c
    ensures var k', e', p' := k + (pos - p) + 1, e[..pos] + code + e[pos + 1..], pos + |code|;
            k' <= |s| && e'[..p'] == Replaced(s[..k'], c, code) && e'[p'..] == s[k'..]
  {
    hide Replaced;
    var k', plain := k + (pos - p) + 1, e[p..pos];
    var j := k' - 1;
    TailSlices(s, e, p, k, pos);
    ReplacedNothing(plain, c, code);
    ReplacedJoin(s[..k], plain, c, code);
    assert s[..k] + plain == s[..j];
    assert e[..p] + plain == e[..pos];
    assert s[..k'] == s[..j] + [c];
    ReplacedLast(s[..j], c, c, code);
  }

  lemma TailSlices(s: string, e: string, p: nat, k: nat, pos: nat)
    requires k <= |s| && p <= pos < |e| && e[p..] == s[k..]
    ensures var j := k + (pos - p); j < |s| && s[k..j] == e[p..pos] && s[j] == e[pos] && s[j + 1..] == e[pos + 1..]
  {
    var j := k + (pos - p);
    assert |e[p..]| == |s[k..]|;
    assert forall i | 0 <= i < |e| - p :: e[p..][i] == s[k..][i];
    assert e[p..][..pos - p] == e[p..pos] && s[k..][..pos - p] == s[k..j];
    assert e[p..][pos - p + 1..] == e[pos + 1..] && s[k..][pos - p + 1..] == s[j + 1..];
  }

  // ----- Names in POSIX notation -----

  /** "%" becomes "%%", then "/" becomes "%2f". */
  function Encoded(name: string): string {
    Replaced(Replaced(name, '%', "%%"), '/', "%2f")
  }

  function HexToNumber(c: char): int {
    if '0' <= c <= '9' then c as int - '0' as int
    else if 'a' <= c <= 'f' then c as int - 'a' as int + 10
    else if 'A' <= c <= 'F' then c as int - 'A' as int + 10
    else 0
  }

  /** The text that replaces "%" and the two digits; a NUL makes an empty C string. */
  function FromHex(high: char, low: char): string {
    var n := HexToNumber(high) * 16 + HexToNumber(low);
    if n == 0 then "" else [n as char]
  }

  /**
   What fromPosix() makes of the rest of a name. The search goes on one position behind the start of
   a replacement, so a character that follows an empty replacement is taken over as it is.
   */
  function Decoded(s: string): string
    decreases |s|
  {
    if s == "" then ""
    else if s[0] != '%' then [s[0]] + Decoded(s[1..])
    else if |s| == 1 then "?"
    else if s[1] == '%' then "%" + Decoded(s[2..])
    else if |s| == 2 then "?"
    else
      var r := FromHex(s[1], s[2]) + s[3..];
      if r == "" then "" else [r[0]] + Decoded(r[1..])
  }

  /** The text from a "%" on after the escape sequence there is replaced. */
  function Resolved(s: string): (r: string)
    requires s != ""
    ensures |r| <= |s|
  {
    if |s| == 1 then "?" + s[1..]
    else if s[1] == '%' then "%" + s[2..]
    else if |s| == 2 then "?" + s[2..]
    else FromHex(s[1], s[2]) + s[3..]
  }

  /** Decoding goes on one position behind the start of the replacement. */
  lemma DecodeStep(s: string, pos: nat)
    requires pos < |s| && s[pos] == '%'
    ensures var s' := s[..pos] + Resolved(s[pos..]);
            var n := if pos + 1 <= |s'| then pos + 1 else |s'|;
            s[..pos] + Decoded(s[pos..]) == s'[..n] + Decoded(s'[n..])
  {
    hide Decoded, Resolved;
    var a, t, r := s[..pos], s[pos..], Resolved(s[pos..]);
    DecodedIs(t);
    var s' := a + r;
    if r == "" {
      assert s' == a && s'[..pos] == a && s'[pos..] == "";
      DecodedNothing();
    } else {
      assert s'[..pos + 1] == a + [r[0]] && s'[pos + 1..] == r[1..];
      JoinAssoc(a, [r[0]], Decoded(r[1..]));
    }
  }

  lemma DecodedIs(t: string)
    requires t != "" && t[0] == '%'
    ensures var r := Resolved(t); Decoded(t) == if r == "" then "" else [r[0]] + Decoded(r[1..])
  {
    var r := Resolved(t);
    if |t| == 1 || (t[1] != '%' && |t| == 2) {
      assert r == "?" && r[1..] == "";
    } else if t[1] == '%' {
      assert r[1..] == t[2..];
    }
  }

  /** The loop of fromPosix() over one name. */
  method ResolveEscapes(name: string) returns (s: string)
    ensures s == Decoded(name)
  {
    hide Decoded, Resolved, FindChar;
    s := name;
    var pos := FindChar(s, '%', 0);
    ghost var n := 0;
    assert s[..0] == "" && s[0..] == s;
    while pos != -1
      invariant 0 <= n <= |s| && Decoded(name) == s[..n] + Decoded(s[n..]) && pos == FindChar(s, '%', n)
      decreases |s| - n
    {
      SkipPlain(s, n, pos);
      DecodeStep(s, pos);
      s := s[..pos] + Resolved(s[pos..]);
      n := if pos + 1 <= |s| then pos + 1 else |s|;
      pos := FindChar(s, '%', pos + 1);
    }
    SkipPlain(s, n, |s|);
    assert s[|s|..] == "" && s[..|s|] == s;
    DecodedNothing();
  }

  lemma DecodedNothing()
    ensures Decoded("") == ""
  {
  }

  /** Characters before the next "%" are taken over. */
  lemma {:induction false} SkipPlain(s: string, n: nat, pos: nat)
    requires n <= pos <= |s| && forall k | n <= k < pos :: s[k] != '%'
    ensures s[..n] + Decoded(s[n..]) == s[..pos] + Decoded(s[pos..])
    decreases pos - n
  {
    if n < pos {
      SkipPlain(s, n + 1, pos);
      assert s[n..][0] == s[n] && s[n..][1..] == s[n + 1..];
      assert s[..n] + [s[n]] == s[..n + 1];
    }
  }

  /** What toPosix() makes of one character. */
  function Code(x: char): string {
    if x == '%' then "%%" else if x == '/' then "%2f" else [x]
  }

  lemma EncodedCons(x: char, rest: string)
    ensures Encoded([x] + rest) == Code(x) + Encoded(rest)
  {
    hide Replaced, Put;
    ReplacedJoin([x], rest, '%', "%%");
    CodeOfOne(x);
    ReplacedJoin(Replaced([x], '%', "%%"), Replaced(rest, '%', "%%"), '/', "%2f");
  }

  lemma CodeOfOne(x: char)
    ensures Replaced(Replaced([x], '%', "%%"), '/', "%2f") == Code(x)
  {
    ReplacedOne(x, '%', "%%");
    if x == '%' {
      ReplacedNothing("%%", '/', "%2f");
    } else {
      ReplacedOne(x, '/', "%2f");
    }
  }

  lemma DecodedCode(x: char, rest: string)
    ensures Decoded(Code(x) + rest) == [x] + Decoded(rest)
  {
    var s := Code(x) + rest;
    if x == '%' {
      assert s[2..] == rest;
    } else if x == '/' {
      assert s[1] == '2' && s[2] == 'f' && s[3..] == rest;
      assert FromHex('2', 'f') == "/";
      assert ("/" + rest)[1..] == rest;
    } else {
      assert s[1..] == rest;
    }
  }

  /** Decoding an encoded name gives the name, and the encoding has no slash. */
  lemma {:induction false} DecodedEncoded(name: string)
    ensures Decoded(Encoded(name)) == name && NoSlash(Encoded(name)) && (name != "" ==> Encoded(name) != "")
    decreases |name|
  {
    if name == "" {
      DecodedNothing();
    } else {
      var x, rest := name[0], name[1..];
      assert name == [x] + rest;
      hide Encoded, Decoded;
      EncodedCons(x, rest);
      DecodedCode(x, Encoded(rest));
      DecodedEncoded(rest);
    }
  }

  /** The encoding, character by character. */
  lemma EncodedLetters(a: string, x: char, b: string)
    ensures Encoded("") == ""
    ensures Encoded(a + [x] + b) ==
            Encoded(a) + (if x == '%' then "%%" else if x == '/' then "%2f" else [x]) + Encoded(b)
  {
    hide Replaced, Put;
    ReplacedNothing("", '%', "%%");
    ReplacedNothing("", '/', "%2f");
    ReplacedJoin(a + [x], b, '%', "%%");
    ReplacedJoin(a, [x], '%', "%%");
    CodeOfOne(x);
    var ra, rx, rb := Replaced(a, '%', "%%"), Replaced([x], '%', "%%"), Replaced(b, '%', "%%");
    ReplacedJoin(ra + rx, rb, '/', "%2f");
    ReplacedJoin(ra, rx, '/', "%2f");
  }

  /** The 22 hexadecimal digits. */
  predicate IsHexDigit(c: char, value: int) {
    0 <= value < 16 && (c == "0123456789abcdef"[value] || c == "0123456789ABCDEF"[value])
  }

  /** "%" and two digits become the character of that number, and decoding goes on behind it. */
  lemma DecodedHex(high: char, h: int, low: char, l: int, rest: string)
    requires IsHexDigit(high, h) && IsHexDigit(low, l)
    ensures HexToNumber(high) == h && HexToNumber(low) == l
    ensures 16 * h + l > 0 ==> Decoded("%" + [high, low] + rest) == [(16 * h + l) as char] + Decoded(rest)
    ensures 16 * h + l == 0 ==>
              Decoded("%" + [high, low] + rest) == if rest == "" then "" else [rest[0]] + Decoded(rest[1..])
  {
    HexDigit(high, h);
    HexDigit(low, l);
    hide HexToNumber, IsHexDigit;
    var s, n := "%" + [high, low] + rest, 16 * h + l;
    assert s[1] == high && s[2] == low && s[3..] == rest;
    assert high != '%';
    if n > 0 {
      assert ([n as char] + rest)[1..] == rest;
    } else {
      assert "" + rest == rest;
    }
  }

  lemma HexDigit(c: char, value: int)
    requires IsHexDigit(c, value)
    ensures HexToNumber(c) == value && c != '%'
  {
    assert "0123456789abcdef"[value] as int == if value < 10 then 48 + value else 87 + value;
    assert "0123456789ABCDEF"[value] as int == if value < 10 then 48 + value else 55 + value;
  }

  /** All other texts: plain characters, "%%", and a "%" without two characters behind it. */
  lemma DecodedOthers(x: char, rest: string)
    requires x != '%'
    ensures Decoded("") == "" && Decoded("%") == "?" && Decoded("%" + [x]) == "?"
    ensures Decoded([x] + rest) == [x] + Decoded(rest)
    ensures Decoded("%%" + rest) == "%" + Decoded(rest)
  {
    assert ([x] + rest)[1..] == rest;
    assert ("%%" + rest)[2..] == rest;
  }

  // ----- Splitting at slashes -----

  /** The pieces between slashes from position i on. */
  function Nodes(path: string, i: nat): seq<string>
    decreases |path| - i
  {
    var b := FindOther(path, '/', i);
    if b == -1 then []
    else
      var e := FindChar(path, '/', b);
      if e == -1 then [path[b..]] else [path[b..e]] + Nodes(path, e)
  }

  /** Every name with a slash before it. */
  function Joined(names: seq<string>): string {
    if names == [] then "" else Joined(names[..|names| - 1]) + "/" + names[|names| - 1]
  }

  function Notation(names: seq<string>): string {
    if names == [] then "/" else Joined(names)
  }

  predicate Plain(names: seq<string>) {
    forall k | 0 <= k < |names| :: names[k] != "" && NoSlash(names[k])
  }

  lemma {:induction false} JoinedCons(n: string, rest: seq<string>)
    ensures Joined([n] + rest) == "/" + n + Joined(rest)
    decreases |rest|
  {
    if rest == [] {
      assert [n] + rest == [n] && [n][..0] == [];
    } else {
      var r, x := rest[..|rest| - 1], rest[|rest| - 1];
      assert ([n] + rest)[..|rest|] == [n] + r && ([n] + rest)[|rest|] == x;
      JoinedCons(n, r);
      JoinAssoc("/" + n, Joined(r), "/" + x);
      JoinAssoc(Joined(r), "/", x);
      JoinAssoc("/" + n + Joined(r), "/", x);
    }
  }

  lemma FindCharIs(s: string, c: char, i: nat, j: nat)
    requires i <= j <= |s| && (j == |s| || s[j] == c) && forall k | i <= k < j :: s[k] != c
    ensures FindChar(s, c, i) == if j == |s| then -1 else j
  {
  }

  /** Splitting behind a prefix finds the names that were joined. */
  lemma {:induction false} NodesOfJoined(prefix: string, names: seq<string>)
    requires Plain(names)
    ensures Nodes(prefix + Joined(names), |prefix|) == names
    decreases |names|
  {
    hide Nodes, Joined;
    JoinedEnds(names);
    if names == [] {
      assert prefix + Joined(names) == prefix;
      NodesPastEnd(prefix);
    } else {
      var n, rest := names[0], names[1..];
      assert names == [n] + rest;
      JoinedCons(n, rest);
      JoinedEnds(rest);
      var prefix' := prefix + "/" + n;
      PrefixJoin(prefix, "/" + n, Joined(rest));
      assert prefix + ("/" + n) == prefix';
      FirstNode(prefix + "/", n, Joined(rest));
      NodesOfJoined(prefix', rest);
    }
  }

  lemma PrefixJoin(a: string, b: string, c: string)
    ensures a + (b + c) == a + b + c
  {
  }

  lemma NodesPastEnd(s: string)
    ensures Nodes(s, |s|) == []
  {
  }

  lemma JoinedEnds(names: seq<string>)
    ensures if names == [] then Joined(names) == "" else Joined(names) != "" && Joined(names)[0] == '/'
  {
    if names != [] {
      assert names == [names[0]] + names[1..];
      JoinedCons(names[0], names[1..]);
    }
  }

  lemma FirstNode(a: string, n: string, tail: string)
    requires a != "" && a[|a| - 1] == '/' && n != "" && NoSlash(n) && (tail == "" || tail[0] == '/')
    ensures Nodes(a + n + tail, |a| - 1) == if tail == "" then [n] else [n] + Nodes(a + n + tail, |a| + |n|)
  {
    hide Nodes, NoSlash;
    MiddleSlice(a, n, tail);
    NodeAt(a + n + tail, |a| - 1, |a| + |n|);
  }

  lemma MiddleSlice(a: string, n: string, tail: string)
    ensures var path, e := a + n + tail, |a| + |n|;
            && path[|a|..e] == n && (a != "" ==> path[|a| - 1] == a[|a| - 1])
            && (NoSlash(n) ==> forall k | |a| <= k < e :: path[k] != '/')
            && (tail != "" ==> path[e] == tail[0])
  {
    var path := a + n + tail;
    forall k | |a| <= k < |a| + |n|
      ensures path[k] == n[k - |a|]
    {
    }
  }

  lemma NodeAt(path: string, i: nat, e: nat)
    requires i + 1 < e <= |path| && path[i] == '/' && (forall k | i < k < e :: path[k] != '/')
             && (e == |path| || path[e] == '/')
    ensures Nodes(path, i) == if e == |path| then [path[i + 1..e]] else [path[i + 1..e]] + Nodes(path, e)
  {
    assert FindOther(path, '/', i) == i + 1;
    FindCharIs(path, '/', i + 1, e);
    hide FindOther, FindChar;
    if e == |path| { assert path[i + 1..] == path[i + 1..e]; }
  }

  lemma {:induction false} NodesShift(a: string, s: string, i: nat)
    requires i <= |s|
    ensures Nodes(a + s, |a| + i) == Nodes(s, i)
    decreases |s| - i
  {
    hide FindOther, FindChar, Nodes;
    var t, b := a + s, FindOther(s, '/', i);
    OtherShift(a, s, i);
    NodesStep(s, i);
    NodesStep(t, |a| + i);
    if b != -1 {
      var e := FindChar(s, '/', b);
      CharShift(a, s, b);
      if e == -1 {
        assert t[|a| + b..] == s[b..];
      } else {
        assert t[|a| + b..|a| + e] == s[b..e];
        NodesShift(a, s, e);
      }
    }
  }

  lemma NodesStep(path: string, i: nat)
    ensures var b := FindOther(path, '/', i);
            var e := if b == -1 then -1 else FindChar(path, '/', b);
            Nodes(path, i) ==
              if b == -1 then [] else if e == -1 then [path[b..]] else [path[b..e]] + Nodes(path, e)
  {
    hide FindOther, FindChar;
  }

  lemma {:induction false} OtherShift(a: string, s: string, i: nat)
    requires i <= |s|
    ensures FindOther(a + s, '/', |a| + i) == if FindOther(s, '/', i) == -1 then -1 else |a| + FindOther(s, '/', i)
    decreases |s| - i
  {
    if i < |s| { OtherShift(a, s, i + 1); }
  }

  lemma {:induction false} CharShift(a: string, s: string, i: nat)
    requires i <= |s|
    ensures FindChar(a + s, '/', |a| + i) == if FindChar(s, '/', i) == -1 then -1 else |a| + FindChar(s, '/', i)
    decreases |s| - i
  {
    if i < |s| { CharShift(a, s, i + 1); }
  }

  /** Any number of slashes separates two pieces, and slashes at the ends do not matter. */
  lemma NodesOfPieces(n: string, tail: string)
    requires n != "" && NoSlash(n) && (tail == "" || tail[0] == '/')
    ensures Nodes("", 0) == []
    ensures Nodes("/" + tail, 0) == Nodes(tail, 0)
    ensures Nodes(n + tail, 0) == [n] + Nodes(tail, 0)
  {
    var s := n + tail;
    NodesShift("/", tail, 0);
    NodesShift(n, tail, 0);
    SlashSkipped(tail);
    assert FindOther(s, '/', 0) == 0;
    assert forall k | 0 <= k < |n| :: s[k] == n[k];
    FindCharIs(s, '/', 0, |n|);
    hide Nodes;
    NodesBegin(n, tail);
  }

  lemma SlashSkipped(tail: string)
    ensures Nodes("/" + tail, 0) == Nodes("/" + tail, 1)
  {
    assert FindOther("/" + tail, '/', 0) == FindOther("/" + tail, '/', 1);
  }

  lemma NodesBegin(n: string, tail: string)
    requires n != "" && (tail == "" || tail[0] == '/')
    requires FindOther(n + tail, '/', 0) == 0 && FindChar(n + tail, '/', 0) == if tail == "" then -1 else |n|
    ensures Nodes(n + tail, 0) == [n] + if tail == "" then [] else Nodes(n + tail, |n|)
  {
    var s := n + tail;
    hide FindOther, FindChar;
    assert s[0..|n|] == n;
    assert tail == "" ==> s == n && s[0..] == n;
  }

  // ----- The converters -----

  function EncodedAll(names: seq<string>): seq<string> {
    seq(|names|, k requires 0 <= k < |names| => Encoded(names[k]))
  }

  function DecodedAll(nodes: seq<string>): seq<string> {
    seq(|nodes|, k requires 0 <= k < |nodes| => Decoded(nodes[k]))
  }

  function Posix(names: seq<string>): string {
    Notation(EncodedAll(names))
  }

  function DbPath(names: seq<string>): string {
    Notation(AbstractAll(names))
  }

  function AbstractAll(names: seq<string>): seq<string> {
    seq(|names|, k requires 0 <= k < |names| => ToAbstract(names[k]))
  }

  method ToPosix(names: seq<string>) returns (result: string)
    ensures result == Posix(names)
  {
    result := "";
    for i := 0 to |names|
      invariant result == Joined(EncodedAll(names)[..i])
    {
      var e := ReplaceAll(names[i], '%', "%%");
      e := ReplaceAll(e, '/', "%2f");
      JoinedSnoc(EncodedAll(names), i);
      result := result + ("/" + e);
    }
    assert EncodedAll(names)[..|names|] == EncodedAll(names);
    JoinedEnds(EncodedAll(names));
    if result == "" {
      result := "/";
    }
  }

  method ToDbPath(names: seq<string>) returns (result: string)
    ensures result == DbPath(names)
  {
    result := "";
    for i := 0 to |names|
      invariant result == Joined(AbstractAll(names)[..i])
    {
      JoinedSnoc(AbstractAll(names), i);
      result := result + ("/" + ToAbstract(names[i]));
    }
    assert AbstractAll(names)[..|names|] == AbstractAll(names);
    JoinedEnds(AbstractAll(names));
    if result == "" {
      result := "/";
    }
  }

  lemma JoinedSnoc(names: seq<string>, i: nat)
    requires i < |names|
    ensures Joined(names[..i + 1]) == Joined(names[..i]) + ("/" + names[i])
  {
    assert names[..i + 1][..i] == names[..i];
    JoinAssoc(Joined(names[..i]), "/", names[i]);
  }

  /** The loop over the nodes in fromPosix() and fromDbPath(); no node is empty. */
  method SplitNodes(path: string) returns (nodes: seq<string>)
    ensures nodes == Nodes(path, 0)
  {
    nodes := [];
    var begin := FindOther(path, '/', 0);
    ghost var i := 0;
    hide FindOther, FindChar;
    while begin != -1
      invariant 0 <= i <= |path| && begin == FindOther(path, '/', i) && Nodes(path, 0) == nodes + Nodes(path, i)
      decreases |path| - i
    {
      var end := FindChar(path, '/', begin);
      if end == -1 {
        nodes := nodes + [path[begin..]];
        return;
      }
      JoinAssoc(nodes, [path[begin..end]], Nodes(path, end));
      nodes := nodes + [path[begin..end]];
      begin := FindOther(path, '/', end);
      i := end;
    }
  }

  method FromPosix(path: string) returns (names: seq<string>)
    ensures names == DecodedAll(Nodes(path, 0))
  {
    names := SplitNodes(path);
    ghost var nodes := names;
    for i := 0 to |names|
      invariant |names| == |nodes|
      invariant forall k | 0 <= k < i :: names[k] == Decoded(nodes[k])
      invariant forall k | i <= k < |names| :: names[k] == nodes[k]
    {
      var s := ResolveEscapes(names[i]);
      names := names[i := s];
    }
  }

  method FromDbPath(path: string) returns (names: seq<string>)
    ensures names == DbNames(Nodes(path, 0))
  {
    var nodes := SplitNodes(path);
    names := [];
    for i := 0 to |nodes|
      invariant |names| == i && forall k | 0 <= k < i :: names[k] == ToDb(nodes[k])
    {
      var s := ToDbName(nodes[i]);
      names := names + [s];
    }
  }

  // ----- Round trips -----

  predicate NonEmpty(names: seq<string>) {
    forall k | 0 <= k < |names| :: names[k] != ""
  }

  lemma NodesOfNotation(names: seq<string>)
    requires Plain(names)
    ensures Nodes(Notation(names), 0) == names
  {
    if names == [] {
      assert Nodes("/", 0) == [];
    } else {
      assert "" + Joined(names) == Joined(names);
      NodesOfJoined("", names);
    }
  }

  /** fromPosix(toPosix(p)) restores every path, whatever characters its names contain. */
  lemma PosixRoundTrip(names: seq<string>)
    requires NonEmpty(names)
    ensures DecodedAll(Nodes(Posix(names), 0)) == names
  {
    var es := EncodedAll(names);
    forall k | 0 <= k < |names|
      ensures es[k] != "" && NoSlash(es[k]) && Decoded(es[k]) == names[k]
    {
      DecodedEncoded(names[k]);
    }
    NodesOfNotation(es);
  }

  /** Every name has a slash before it, and no name at all is written as one slash. */
  lemma NotationOfNames(n: string, rest: seq<string>)
    ensures Posix([]) == "/" && DbPath([]) == "/"
    ensures Posix([n] + rest) == "/" + Encoded(n) + if rest == [] then "" else Posix(rest)
    ensures DbPath([n] + rest) == "/" + ToAbstract(n) + if rest == [] then "" else DbPath(rest)
  {
    hide Encoded, ToAbstract, Joined;
    assert EncodedAll([n] + rest) == [Encoded(n)] + EncodedAll(rest);
    assert AbstractAll([n] + rest) == [ToAbstract(n)] + AbstractAll(rest);
    JoinedCons(Encoded(n), EncodedAll(rest));
    JoinedCons(ToAbstract(n), AbstractAll(rest));
    JoinedEnds([]);
  }

  predicate NoNul(s: string) {
    forall k | 0 <= k < |s| :: s[k] != NUL
  }

  /** fromDbPath(toDbPath(p)) restores a path exactly if no name contains a NUL. */
  lemma DbPathRoundTrip(names: seq<string>)
    requires NonEmpty(names)
    ensures DbNames(Nodes(DbPath(names), 0)) == names <==> forall k | 0 <= k < |names| :: NoNul(names[k])
  {
    var es := AbstractAll(names);
    NodesOfNotation(es);
    var back := DbNames(es);
    forall k | 0 <= k < |names|
      ensures back[k] == names[k] <==> NoNul(names[k])
    {
      NameRoundTrip(names[k]);
    }
    if back == names {
      forall k | 0 <= k < |names|
        ensures NoNul(names[k])
      {
        assert back[k] == names[k];
      }
    }
  }

  lemma NameRoundTrip(s: string)
    ensures ToDb(ToAbstract(s)) == s <==> NoNul(s)
  {
    var t := ToDb(ToAbstract(s));
    if t == s {
      forall k | 0 <= k < |s|
        ensures s[k] != NUL
      {
        assert t[k] == s[k];
      }
    }
  }
}
