/** The Python string operations the record formats are built from:
    str.split() and str.split(sep), str.join, str.strip, file.readlines(),
    str(int) and int(str), and sequence slicing with Python's index rules. */
module PyText {
  import opened Wrappers

  /** str.isspace() on the ASCII range: space, \t \n \v \f \r and \x1c-\x1f. */
  predicate IsSpace(c: char) {
    c == ' ' || 9 <= c as int <= 13 || 28 <= c as int <= 31
  }

  predicate NoSpace(s: string) {
    forall j :: 0 <= j < |s| ==> !IsSpace(s[j])
  }

  /** Index of the first whitespace character of s, or |s| when there is none. */
  function WordEnd(s: string): (i: nat)
    ensures i <= |s|
    ensures NoSpace(s[..i])
    ensures i < |s| ==> IsSpace(s[i])
    ensures NoSpace(s) ==> i == |s|
  {
    if s == [] || IsSpace(s[0]) then 0 else 1 + WordEnd(s[1..])
  }

  /** str.split() without an argument: the maximal runs of non-whitespace. */
  function Tokens(s: string): (ts: seq<string>)
    ensures forall t :: t in ts ==> t != [] && NoSpace(t)
    decreases |s|
  {
    if s == [] then []
    else if IsSpace(s[0]) then Tokens(s[1..])
    else
      var i := WordEnd(s);
      [s[..i]] + Tokens(s[i..])
  }

  /** str.strip() without an argument. */
  function StripLeft(s: string): (r: string)
    ensures r == [] || !IsSpace(r[0])
  {
    if s != [] && IsSpace(s[0]) then StripLeft(s[1..]) else s
  }

  function StripRight(s: string): (r: string)
    ensures r == [] || !IsSpace(r[|r| - 1])
  {
    if s != [] && IsSpace(s[|s| - 1]) then StripRight(s[..|s| - 1]) else s
  }

  function Strip(s: string): string {
    StripRight(StripLeft(s))
  }

  /** Index of the first occurrence of c in s, or |s|. */
  function IndexOf(s: string, c: char): (i: nat)
    ensures i <= |s|
    ensures i < |s| ==> s[i] == c
    ensures c !in s[..i]
    ensures c !in s ==> i == |s|
  {
    if s == [] || s[0] == c then 0 else 1 + IndexOf(s[1..], c)
  }

  /** str.split(c) for a one-character separator: never empty. */
  function SplitOn(s: string, c: char): (parts: seq<string>)
    ensures |parts| >= 1
    decreases |s|
  {
    var i := IndexOf(s, c);
    if i == |s| then [s] else [s[..i]] + SplitOn(s[i + 1..], c)
  }

  /** No part of a split holds the separator. */
  lemma {:induction false} SplitOnParts(s: string, c: char)
    ensures forall p :: p in SplitOn(s, c) ==> c !in p
    decreases |s|
  {
    var i := IndexOf(s, c);
    if i < |s| {
      SplitOnParts(s[i + 1..], c);
    }
  }

  /** sep.join(parts). */
  function Join(sep: string, parts: seq<string>): string {
    if parts == [] then ""
    else if |parts| == 1 then parts[0]
    else parts[0] + sep + Join(sep, parts[1..])
  }

  predicate IsLineBreak(c: char) {
    c == '\n' || c == '\r'
  }

  /** Index of the first '\n' or '\r' of s, or |s| when there is none. */
  function LineEnd(s: string): (i: nat)
    ensures i <= |s|
    ensures i < |s| ==> IsLineBreak(s[i])
    ensures forall j :: 0 <= j < i ==> !IsLineBreak(s[j])
    ensures '\n' !in s && '\r' !in s ==> i == |s|
  {
    if s == [] || IsLineBreak(s[0]) then 0 else 1 + LineEnd(s[1..])
  }

  /** file.readlines() on a file opened in text mode: a line ends at "\n",
      at "\r\n" or at a lone "\r", and every ending reads as "\n"; a last
      line without an ending keeps none; no empty line at the end. */
  function ReadLines(s: string): (lines: seq<string>)
    decreases |s|
  {
    if s == [] then []
    else
      var i := LineEnd(s);
      if i == |s| then [s] else [s[..i] + "\n"] + ReadLines(s[LineAfter(s, i)..])
  }

  /** Where the next line starts after the break at i: past "\r\n" as one
      break, past a lone "\r" or "\n" otherwise. */
  function LineAfter(s: string, i: nat): (next: nat)
    requires i < |s|
    ensures i < next <= |s|
  {
    if s[i] == '\r' && i + 1 < |s| && s[i + 1] == '\n' then i + 2 else i + 1
  }

  /** Python slicing s[lo:hi] with step 1: negative bounds count from the end
      and every bound is clamped to the sequence. */
  function PyIndex(i: int, len: nat): (r: nat)
    ensures r <= len
    ensures 0 <= i <= len ==> r == i
  {
    if i < 0 then (if len + i < 0 then 0 else len + i)
    else if i > len then len
    else i
  }

  function PySlice<T>(s: seq<T>, lo: int, hi: int): (r: seq<T>)
    ensures |r| <= |s|
    ensures 0 <= lo <= hi <= |s| ==> r == s[lo..hi]
  {
    var a, b := PyIndex(lo, |s|), PyIndex(hi, |s|);
    if a < b then s[a..b] else []
  }

  /** s[:n] holds at most n elements, all of them from s. */
  lemma SliceFront<T>(s: seq<T>, n: int)
    ensures n >= 0 ==> |PySlice(s, 0, n)| <= n
    ensures forall x :: x in PySlice(s, 0, n) ==> x in s
  {
  }

  predicate IsDigit(c: char) {
    '0' <= c <= '9'
  }

  predicate AllDigits(s: string) {
    forall j :: 0 <= j < |s| ==> IsDigit(s[j])
  }

  function DigitChar(d: nat): (c: char)
    requires d < 10
    ensures IsDigit(c) && c as int - '0' as int == d
  {
    (d + '0' as int) as char
  }

  /** str(n) for a natural number: its decimal digits. */
  function NatToString(n: nat): (s: string)
    ensures s != [] && AllDigits(s)
  {
    if n < 10 then [DigitChar(n)] else NatToString(n / 10) + [DigitChar(n % 10)]
  }

  /** str(i): a minus sign before the digits of a negative number. */
  function IntToString(i: int): (s: string)
    ensures s != [] && NoSpace(s)
  {
    if i < 0 then "-" + NatToString(-i) else NatToString(i)
  }

  /** The value of a string of decimal digits. */
  function DigitsValue(s: string): nat
    requires AllDigits(s)
  {
    if s == [] then 0 else DigitsValue(s[..|s| - 1]) * 10 + (s[|s| - 1] as int - '0' as int)
  }

  /** ASCII digits in which single underscores may separate two digits,
      as int() accepts them: "1_000" but not "_1", "1_" or "1__0". */
  predicate DigitGroups(s: string)
    decreases |s|
  {
    && s != [] && IsDigit(s[0])
    && (|s| == 1 || if s[1] == '_' then DigitGroups(s[2..]) else DigitGroups(s[1..]))
  }

  /** s without its underscores. */
  function Ungrouped(s: string): string {
    if s == [] then []
    else if s[0] == '_' then Ungrouped(s[1..])
    else [s[0]] + Ungrouped(s[1..])
  }

  /** Grouped digits lose only underscores: what is left is digits. */
  lemma {:induction false} GroupedUngrouped(s: string)
    requires DigitGroups(s)
    ensures AllDigits(Ungrouped(s))
    decreases |s|
  {
    if |s| > 1 {
      if s[1] == '_' {
        GroupedUngrouped(s[2..]);
        assert s[1..][1..] == s[2..];
      } else {
        GroupedUngrouped(s[1..]);
      }
    }
  }

  /** Plain digits have no underscore to lose. */
  lemma {:induction false} PlainUngrouped(s: string)
    requires AllDigits(s)
    ensures Ungrouped(s) == s
  {
    if s != [] {
      PlainUngrouped(s[1..]);
      assert s == [s[0]] + s[1..];
    }
  }

  /** int(s) for a token: an optional sign followed by digits, which single
      underscores may group; ValueError for anything else. */
  function ParseInt(s: string): (r: Result<int>)
    ensures r.Err? ==> r.error == ValueError
    ensures AllDigits(s) && s != [] ==> r == Ok(DigitsValue(s))
  {
    if s != [] && (s[0] == '-' || s[0] == '+') then
      if DigitGroups(s[1..]) then
        GroupedUngrouped(s[1..]);
        var v := DigitsValue(Ungrouped(s[1..]));
        Ok(if s[0] == '-' then -(v as int) else v)
      else Err(ValueError)
    else if DigitGroups(s) then
      GroupedUngrouped(s);
      assert AllDigits(s) ==> Ungrouped(s) == s by {
        if AllDigits(s) {
          PlainUngrouped(s);
        }
      }
      Ok(DigitsValue(Ungrouped(s)))
    else
      assert !(AllDigits(s) && s != []) by {
        if AllDigits(s) && s != [] {
          DigitsGrouped(s);
        }
      }
      Err(ValueError)
  }

  /** int() accepts exactly an optional sign followed by grouped digits. */
  lemma ParseIntAccepts(s: string)
    ensures ParseInt(s).Ok? <==> DigitGroups(s) || (s != [] && (s[0] == '-' || s[0] == '+') && DigitGroups(s[1..]))
  {
  }

  /** int() reads digits with one underscore between them as the digits
      alone: int("1_0") == int("10"). */
  lemma UnderscoreSeparator(a: string, b: string)
    requires a != [] && b != [] && AllDigits(a) && AllDigits(b)
    ensures ParseInt(a + "_" + b) == ParseInt(a + b)
  {
    var s := a + "_" + b;
    UnderscoreGroups(a, b);
    ParseGrouped(s);
    UngroupedPrefix(a, "_" + b);
    assert s == a + ("_" + b);
    assert Ungrouped("_" + b) == Ungrouped(b) by {
      assert ("_" + b)[1..] == b;
    }
    PlainUngrouped(b);
    assert AllDigits(a + b);
  }

  /** Grouped digits without a sign parse to the value of their digits. */
  lemma ParseGrouped(s: string)
    requires DigitGroups(s)
    ensures AllDigits(Ungrouped(s)) && ParseInt(s) == Ok(DigitsValue(Ungrouped(s)))
  {
    GroupedUngrouped(s);
  }

  /** One underscore between two digit strings groups them. */
  lemma UnderscoreGroups(a: string, b: string)
    requires a != [] && b != [] && AllDigits(a) && AllDigits(b)
    ensures DigitGroups(a + "_" + b)
  {
    var last := a[|a| - 1..];
    DigitsGrouped(b);
    assert DigitGroups(last + "_" + b) by {
      assert (last + "_" + b)[2..] == b;
    }
    GroupsPrefix(a[..|a| - 1], last + "_" + b);
    assert a[..|a| - 1] + (last + "_" + b) == a + "_" + b;
  }

  /** Plain digits are grouped digits without an underscore. */
  lemma {:induction false} DigitsGrouped(d: string)
    requires d != [] && AllDigits(d)
    ensures DigitGroups(d)
  {
    if |d| > 1 {
      DigitsGrouped(d[1..]);
    }
  }

  /** Digits in front of grouped digits keep them grouped. */
  lemma {:induction false} GroupsPrefix(a: string, t: string)
    requires AllDigits(a) && DigitGroups(t)
    ensures DigitGroups(a + t)
  {
    if a != [] {
      GroupsPrefix(a[1..], t);
      assert (a + t)[1..] == a[1..] + t;
      assert (a + t)[1] == (a[1..] + t)[0];
    } else {
      assert a + t == t;
    }
  }

  lemma {:induction false} UngroupedPrefix(a: string, t: string)
    requires AllDigits(a)
    ensures Ungrouped(a + t) == a + Ungrouped(t)
  {
    if a == [] {
      assert a + t == t;
    } else {
      assert a + t == [a[0]] + (a[1..] + t);
      UngroupedCons(a[0], a[1..] + t);
      UngroupedPrefix(a[1..], t);
      assert a == [a[0]] + a[1..];
    }
  }

  lemma UngroupedCons(c: char, rest: string)
    requires c != '_'
    ensures Ungrouped([c] + rest) == [c] + Ungrouped(rest)
  {
    assert ([c] + rest)[1..] == rest;
  }

  /** map(int, tokens): ValueError at the first token that is not an integer. */
  function ParseInts(ts: seq<string>): (r: Result<seq<int>>)
    ensures r.Ok? ==> |r.value| == |ts|
    ensures r.Err? ==> r.error == ValueError
  {
    if ts == [] then Ok([])
    else
      var x :- ParseInt(ts[0]);
      var xs :- ParseInts(ts[1..]);
      Ok([x] + xs)
  }

  /** The token texts of a sequence of integers, as map(str, xs). */
  function IntStrings(xs: seq<int>): (ts: seq<string>)
    ensures |ts| == |xs|
    ensures forall j :: 0 <= j < |xs| ==> ts[j] == IntToString(xs[j])
  {
    seq(|xs|, j requires 0 <= j < |xs| => IntToString(xs[j]))
  }

  // ---------------------------------------------------------------------
  // Round trips
  // ---------------------------------------------------------------------

  lemma {:induction false} DigitsRoundTrip(n: nat)
    ensures DigitsValue(NatToString(n)) == n
  {
    if n >= 10 {
      var s := NatToString(n);
      assert s[..|s| - 1] == NatToString(n / 10);
      DigitsRoundTrip(n / 10);
    }
  }

  /** int(str(i)) == i. */
  lemma IntRoundTrip(i: int)
    ensures ParseInt(IntToString(i)) == Ok(i)
  {
    if i < 0 {
      DigitsRoundTrip(-i);
      ParseNegative(NatToString(-i));
    } else {
      DigitsRoundTrip(i);
    }
  }

  /** int("-" + digits) is minus their value. */
  lemma ParseNegative(d: string)
    requires d != [] && AllDigits(d)
    ensures ParseInt("-" + d) == Ok(-(DigitsValue(d) as int))
  {
    DigitsGrouped(d);
    PlainUngrouped(d);
    assert ("-" + d)[1..] == d;
  }

  lemma {:induction false} IntsRoundTrip(xs: seq<int>)
    ensures ParseInts(IntStrings(xs)) == Ok(xs)
  {
    if xs != [] {
      var ts := IntStrings(xs);
      IntRoundTrip(xs[0]);
      assert ts[1..] == IntStrings(xs[1..]);
      IntsRoundTrip(xs[1..]);
      assert ParseInts(ts) == Ok([xs[0]] + xs[1..]);
      assert [xs[0]] + xs[1..] == xs;
    }
  }

  /** A whitespace character separates tokens completely. */
  lemma {:induction false} TokensAroundSpace(x: string, c: char, y: string)
    requires IsSpace(c)
    ensures Tokens(x + [c] + y) == Tokens(x) + Tokens(y)
    decreases |x|, 1
  {
    var s := x + [c] + y;
    if x == [] {
      assert s[1..] == y;
    } else if IsSpace(x[0]) {
      assert s[1..] == x[1..] + [c] + y;
      TokensAroundSpace(x[1..], c, y);
    } else {
      TokensAroundSpaceWord(x, c, y);
    }
  }

  /** The case of TokensAroundSpace where x starts with a word. */
  lemma {:induction false} TokensAroundSpaceWord(x: string, c: char, y: string)
    requires IsSpace(c) && x != [] && !IsSpace(x[0])
    ensures Tokens(x + [c] + y) == Tokens(x) + Tokens(y)
    decreases |x|, 0
  {
    var s := x + [c] + y;
    var i := WordEnd(x);
    assert Tokens(s) == [x[..i]] + Tokens(x[i..] + [c] + y) by {
      WordEndPrefix(x, [c] + y);
      assert s == x + ([c] + y);
      assert s[..i] == x[..i];
      assert s[i..] == x[i..] + [c] + y;
    }
    TokensAroundSpace(x[i..], c, y);
  }

  lemma {:induction false} WordEndPrefix(x: string, y: string)
    requires y != [] && IsSpace(y[0])
    ensures WordEnd(x + y) == WordEnd(x)
    decreases |x|
  {
    if x != [] && !IsSpace(x[0]) {
      assert (x + y)[1..] == x[1..] + y;
      WordEndPrefix(x[1..], y);
    }
  }

  lemma SingleToken(t: string)
    requires t != [] && NoSpace(t)
    ensures Tokens(t) == [t]
  {
    assert t[..WordEnd(t)] == t;
    assert t[WordEnd(t)..] == [];
  }

  /** str.split() undoes ' '.join when no part is empty or holds whitespace. */
  lemma {:induction false} TokensOfJoin(parts: seq<string>)
    requires forall p :: p in parts ==> p != [] && NoSpace(p)
    ensures Tokens(Join(" ", parts)) == parts
  {
    if |parts| == 1 {
      assert parts[0] in parts;
      SingleToken(parts[0]);
    } else if |parts| > 1 {
      assert parts[0] in parts;
      assert forall p :: p in parts[1..] ==> p in parts;
      TokensAroundSpace(parts[0], ' ', Join(" ", parts[1..]));
      SingleToken(parts[0]);
      TokensOfJoin(parts[1..]);
    }
  }

  /** Trailing whitespace does not change the tokens. */
  lemma TokensTrailingSpace(x: string, c: char)
    requires IsSpace(c)
    ensures Tokens(x + [c]) == Tokens(x)
  {
    TokensAroundSpace(x, c, []);
    assert x + [c] + [] == x + [c];
  }

  /** line.strip().split() and line.split() are the same tokens. */
  lemma {:induction false} TokensStripLeft(s: string)
    ensures Tokens(StripLeft(s)) == Tokens(s)
  {
    if s != [] && IsSpace(s[0]) { TokensStripLeft(s[1..]); }
  }

  lemma {:induction false} TokensStripRight(s: string)
    ensures Tokens(StripRight(s)) == Tokens(s)
  {
    if s != [] && IsSpace(s[|s| - 1]) {
      TokensStripRight(s[..|s| - 1]);
      TokensTrailingSpace(s[..|s| - 1], s[|s| - 1]);
      assert s[..|s| - 1] + [s[|s| - 1]] == s;
    }
  }

  lemma TokensStrip(s: string)
    ensures Tokens(Strip(s)) == Tokens(s)
  {
    TokensStripRight(StripLeft(s));
    TokensStripLeft(s);
  }

  lemma {:induction false} IndexOfConcat(x: string, c: char, y: string)
    requires c !in x
    ensures IndexOf(x + [c] + y, c) == |x|
    decreases |x|
  {
    if x != [] {
      assert (x + [c] + y)[1..] == x[1..] + [c] + y;
      IndexOfConcat(x[1..], c, y);
    }
  }

  /** s.split(c) undoes c.join when no part contains c. */
  lemma {:induction false} SplitOfJoin(parts: seq<string>, c: char)
    requires |parts| >= 1
    requires forall p :: p in parts ==> c !in p
    ensures SplitOn(Join([c], parts), c) == parts
  {
    if |parts| == 1 {
      assert parts[0] in parts;
    } else {
      var rest := Join([c], parts[1..]);
      var s := parts[0] + [c] + rest;
      IndexOfConcat(parts[0], c, rest);
      assert s[..|parts[0]|] == parts[0];
      assert s[|parts[0]| + 1..] == rest;
      SplitOfJoin(parts[1..], c);
    }
  }

  /** sep + p for every p of parts, in order: the text a loop produces when
      it writes a separator before each part. */
  function Prefixed(sep: string, parts: seq<string>): string {
    if parts == [] then "" else sep + parts[0] + Prefixed(sep, parts[1..])
  }

  /** Writing one more part appends the separator and that part. */
  lemma {:induction false} PrefixedSnoc(sep: string, parts: seq<string>, p: string)
    ensures Prefixed(sep, parts + [p]) == Prefixed(sep, parts) + sep + p
  {
    if parts == [] {
      assert [] + [p] == [p];
    } else {
      assert (parts + [p])[1..] == parts[1..] + [p];
      PrefixedSnoc(sep, parts[1..], p);
    }
  }

  /** A join is its first part followed by the separated rest. */
  lemma {:induction false} JoinPrefixed(sep: string, h: string, parts: seq<string>)
    ensures Join(sep, [h] + parts) == h + Prefixed(sep, parts)
    decreases |parts|
  {
    if parts != [] {
      assert ([h] + parts)[1..] == [parts[0]] + parts[1..];
      JoinPrefixed(sep, parts[0], parts[1..]);
    }
  }

  /** readlines() cuts after the first newline. */
  lemma ReadLinesCons(x: string, rest: string)
    requires '\n' !in x && '\r' !in x
    ensures ReadLines(x + "\n" + rest) == [x + "\n"] + ReadLines(rest)
  {
    var s := x + "\n" + rest;
    LineEndAt(x, "\n" + rest);
    assert s == x + ("\n" + rest);
    assert s[..|x|] == x;
    assert s[|x| + 1..] == rest;
  }

  /** A lone "\r" ends a line just as "\n" does. */
  lemma ReadLinesReturn(x: string, rest: string)
    requires '\n' !in x && '\r' !in x
    requires rest == [] || rest[0] != '\n'
    ensures ReadLines(x + "\r" + rest) == [x + "\n"] + ReadLines(rest)
  {
    var s := x + "\r" + rest;
    LineEndAt(x, "\r" + rest);
    assert s == x + ("\r" + rest);
    assert s[|x|] == '\r' && s[..|x|] == x && s[|x| + 1..] == rest;
    if |x| + 1 < |s| {
      assert s[|x| + 1] == rest[0];
    }
    assert LineAfter(s, |x|) == |x| + 1;
  }

  /** "\r\n" ends a line just as "\n" does, and reads as one "\n". */
  lemma ReadLinesReturnNewline(x: string, rest: string)
    requires '\n' !in x && '\r' !in x
    ensures ReadLines(x + "\r\n" + rest) == [x + "\n"] + ReadLines(rest)
  {
    var s := x + "\r\n" + rest;
    LineEndAt(x, "\r\n" + rest);
    assert s == x + ("\r\n" + rest);
    assert s[..|x|] == x;
    assert s[|x| + 2..] == rest;
  }

  /** The first line break of x + y is the first character of y when x has none. */
  lemma {:induction false} LineEndAt(x: string, y: string)
    requires '\n' !in x && '\r' !in x
    requires y != [] && IsLineBreak(y[0])
    ensures LineEnd(x + y) == |x|
    decreases |x|
  {
    if x != [] {
      assert (x + y)[1..] == x[1..] + y;
      assert x[0] in x;
      LineEndAt(x[1..], y);
    }
  }

  /** Concatenation regroups freely. */
  lemma Assoc(a: string, b: string, c: string)
    ensures a + (b + c) == a + b + c
  {
  }

  /** A join is at least as long as its first part. */
  lemma JoinStarts(sep: string, parts: seq<string>)
    requires |parts| >= 1
    ensures |Join(sep, parts)| >= |parts[0]|
  {
    if |parts| > 1 {
      assert Join(sep, parts) == parts[0] + sep + Join(sep, parts[1..]);
    }
  }

  lemma IntStringsCons(x: int, xs: seq<int>)
    ensures IntStrings([x] + xs) == [IntToString(x)] + IntStrings(xs)
  {
    var a, b := IntStrings([x] + xs), [IntToString(x)] + IntStrings(xs);
    forall j | 0 <= j < |a| ensures a[j] == b[j] {
      if j > 0 {
        assert ([x] + xs)[j] == xs[j - 1];
      }
    }
  }

  /** map(str, xs + ys) is map(str, xs) followed by map(str, ys). */
  lemma IntStringsAppend(xs: seq<int>, ys: seq<int>)
    ensures IntStrings(xs + ys) == IntStrings(xs) + IntStrings(ys)
  {
    var l, a, b := IntStrings(xs + ys), IntStrings(xs), IntStrings(ys);
    assert |l| == |a + b|;
    forall i | 0 <= i < |l| ensures l[i] == (a + b)[i] {
      if i < |xs| {
        assert (xs + ys)[i] == xs[i] && (a + b)[i] == a[i];
      } else {
        assert (xs + ys)[i] == ys[i - |xs|] && (a + b)[i] == b[i - |xs|];
      }
    }
  }

  /** Every written int is one non-empty token. */
  lemma IntStringsWords(xs: seq<int>)
    ensures forall p :: p in IntStrings(xs) ==> p != [] && NoSpace(p)
  {
    forall p | p in IntStrings(xs) ensures p != [] && NoSpace(p) {
      var k :| 0 <= k < |xs| && IntStrings(xs)[k] == p;
    }
  }

  /** Space-joined ints read back as the same tokens. */
  lemma TokensOfInts(xs: seq<int>)
    ensures Tokens(Join(" ", IntStrings(xs))) == IntStrings(xs)
  {
    IntStringsWords(xs);
    TokensOfJoin(IntStrings(xs));
  }

  /** Every line followed by a newline. */
  function Terminated(lines: seq<string>): string {
    if lines == [] then "" else lines[0] + "\n" + Terminated(lines[1..])
  }

  lemma {:induction false} TerminatedSnoc(lines: seq<string>, l: string)
    ensures Terminated(lines + [l]) == Terminated(lines) + l + "\n"
  {
    if lines == [] {
      assert [] + [l] == [l];
    } else {
      assert (lines + [l])[1..] == lines[1..] + [l];
      TerminatedSnoc(lines[1..], l);
      Assoc(lines[0] + "\n", Terminated(lines[1..]) + l, "\n");
      Assoc(lines[0] + "\n", Terminated(lines[1..]), l);
    }
  }

  /** readlines() of newline-terminated lines gives each line back with its
      newline. */
  lemma {:induction false} ReadTerminated(lines: seq<string>)
    requires forall l :: l in lines ==> '\n' !in l && '\r' !in l
    ensures |ReadLines(Terminated(lines))| == |lines|
    ensures forall i :: 0 <= i < |lines| ==> ReadLines(Terminated(lines))[i] == lines[i] + "\n"
  {
    if lines != [] {
      assert lines[0] in lines;
      assert forall l :: l in lines[1..] ==> l in lines;
      ReadTerminatedCons(lines);
      ReadTerminated(lines[1..]);
      NewlinedCons(ReadLines(Terminated(lines)), ReadLines(Terminated(lines[1..])), lines);
    }
  }

  /** Each line followed by a newline, one step at a time. */
  lemma NewlinedCons(r: seq<string>, tail: seq<string>, lines: seq<string>)
    requires lines != [] && r == [lines[0] + "\n"] + tail
    requires |tail| == |lines| - 1 && forall j :: 0 <= j < |tail| ==> tail[j] == lines[1..][j] + "\n"
    ensures |r| == |lines| && forall i :: 0 <= i < |lines| ==> r[i] == lines[i] + "\n"
  {
    forall i | 1 <= i < |lines| ensures r[i] == lines[i] + "\n" {
      assert r[i] == tail[i - 1];
    }
  }

  lemma ReadTerminatedCons(lines: seq<string>)
    requires lines != [] && '\n' !in lines[0] && '\r' !in lines[0]
    ensures ReadLines(Terminated(lines)) == [lines[0] + "\n"] + ReadLines(Terminated(lines[1..]))
  {
    var rest := Terminated(lines[1..]);
    assert Terminated(lines) == lines[0] + "\n" + rest;
    ReadLinesCons(lines[0], rest);
  }

  lemma {:induction false} JoinNoNewline(parts: seq<string>)
    requires forall p :: p in parts ==> NoSpace(p)
    ensures '\n' !in Join(" ", parts) && '\r' !in Join(" ", parts)
  {
    if |parts| == 1 {
      assert parts[0] in parts;
    } else if |parts| > 1 {
      assert parts[0] in parts;
      assert forall p :: p in parts[1..] ==> p in parts;
      JoinNoNewline(parts[1..]);
    }
  }
}
