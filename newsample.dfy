/** newsample.py, first half: the trace file format and the grouping of
    traces by label and suffix. */
module Traces {
  import opened Wrappers
  import opened PyText
  import Random
  import Seqs

  /** A (label, length, trace) tuple; the trace is the string of symbols. */
  datatype Trace = Trace(classLabel: int, length: int, symbols: string)

  // ---------------------------------------------------------------------
  // read_traces / write_traces
  // ---------------------------------------------------------------------

  /** f.readline() for line i: "" once the file is exhausted. */
  function ReadLine(lines: seq<string>, i: nat): string {
    if i < |lines| then lines[i] else ""
  }

  /** n, m = map(int, line.split()): a ValueError unless the line holds
      exactly two integers. */
  function ParseHeader(line: string): (r: Result<(int, int)>)
    ensures r.Err? ==> r.error == ValueError
    ensures r.Ok? ==> |Tokens(line)| == 2
  {
    var xs :- ParseInts(Tokens(line));
    if |xs| != 2 then Err(ValueError) else Ok((xs[0], xs[1]))
  }

  /** One record: label and length from the first two tokens (an
      IndexError when they are missing, a ValueError when they are not
      integers), the trace the remaining tokens concatenated. */
  function ParseRecord(line: string): (r: Result<Trace>)
    ensures Tokens(line) == [] ==> r == Err(IndexError)
    ensures r.Err? ==> r.error == IndexError || r.error == ValueError
    ensures r.Ok? ==> |Tokens(line)| >= 2
  {
    var parts := Tokens(line);
    if |parts| == 0 then Err(IndexError)
    else
      var lab :- ParseInt(parts[0]);
      if |parts| < 2 then Err(IndexError)
      else
        var length :- ParseInt(parts[1]);
        Ok(Trace(lab, length, Join("", parts[2..])))
  }

  /** The first n records after the header line. */
  function Records(lines: seq<string>, n: nat): (r: Result<seq<Trace>>)
    ensures r.Ok? ==> |r.value| == n
  {
    if n == 0 then Ok([])
    else
      var done :- Records(lines, n - 1);
      var t :- ParseRecord(ReadLine(lines, n));
      Ok(done + [t])
  }

  /** What read_traces returns for a file text: exactly n records after
      the header, and the alphabet size m. */
  function TracesOf(text: string): Result<(seq<Trace>, int)> {
    var lines := ReadLines(text);
    var header :- ParseHeader(ReadLine(lines, 0));
    var traces :- Records(lines, if header.0 < 0 then 0 else header.0);
    Ok((traces, header.1))
  }

  /** read_traces, reading record by record. */
  method ReadTraces(text: string) returns (r: Result<(seq<Trace>, int)>)
    ensures r == TracesOf(text)
  {
    var lines := ReadLines(text);
    var header := ParseHeader(ReadLine(lines, 0));
    if header.Err? {
      return Err(header.error);
    }
    var (n, m) := header.value;
    var count: nat := if n < 0 then 0 else n;
    var traces := [];
    for i := 0 to count
      invariant Records(lines, i) == Ok(traces)
    {
      var record := ParseRecord(ReadLine(lines, i + 1));
      if record.Err? {
        RecordsFail(lines, i + 1, count);
        return Err(record.error);
      }
      traces := traces + [record.value];
    }
    r := Ok((traces, m));
  }

  /** A failed record fails the whole read with the same error. */
  lemma {:induction false} RecordsFail(lines: seq<string>, i: nat, n: nat)
    requires i <= n && Records(lines, i).Err?
    ensures Records(lines, n) == Err(Records(lines, i).error)
    decreases n - i
  {
    if i < n {
      RecordsFail(lines, i + 1, n);
    }
  }

  /** The symbols of a trace as one-character strings. */
  function Chars(s: string): (cs: seq<string>)
    ensures |cs| == |s|
    ensures forall i :: 0 <= i < |s| ==> cs[i] == [s[i]]
  {
    seq(|s|, i requires 0 <= i < |s| => [s[i]])
  }

  /** f"{label} {length} {' '.join(trace)}" */
  function TraceLine(t: Trace): string {
    Join(" ", IntStrings([t.classLabel, t.length])) + " " + Join(" ", Chars(t.symbols))
  }

  function TraceLines(traces: seq<Trace>): (ls: seq<string>)
    ensures |ls| == |traces|
    ensures forall i :: 0 <= i < |traces| ==> ls[i] == TraceLine(traces[i])
  {
    seq(|traces|, i requires 0 <= i < |traces| => TraceLine(traces[i]))
  }

  /** f"{len(traces)} {alphabet_size}" */
  function TracesHeader(count: int, alphabetSize: int): string {
    Join(" ", IntStrings([count, alphabetSize]))
  }

  /** The text write_traces writes: the header and one line per trace,
      each ending in a newline. */
  function TracesText(traces: seq<Trace>, alphabetSize: int): string {
    Terminated([TracesHeader(|traces|, alphabetSize)] + TraceLines(traces))
  }

  /** write_traces, writing the header and then line by line. */
  method WriteTraces(traces: seq<Trace>, alphabetSize: int) returns (out: string)
    ensures out == TracesText(traces, alphabetSize)
  {
    var header := TracesHeader(|traces|, alphabetSize);
    out := header + "\n";
    for i := 0 to |traces|
      invariant out == header + "\n" + Terminated(TraceLines(traces[..i]))
    {
      var t := traces[i];
      var line := Join(" ", IntStrings([t.classLabel, t.length])) + " " + Join(" ", Chars(t.symbols));
      ghost var before := Terminated(TraceLines(traces[..i]));
      TerminatedSnoc(TraceLines(traces[..i]), line);
      assert TraceLines(traces[..i + 1]) == TraceLines(traces[..i]) + [line];
      Assoc(header + "\n", before + line, "\n");
      Assoc(header + "\n", before, line);
      out := out + line + "\n";
    }
    assert traces[..|traces|] == traces;
    assert ([header] + TraceLines(traces))[1..] == TraceLines(traces);
  }

  /** Traces whose symbols are all non-whitespace characters: the ones
      write_traces can write so that they read back. */
  predicate Writable(traces: seq<Trace>) {
    forall i :: 0 <= i < |traces| ==> NoSpace(traces[i].symbols)
  }

  /** read_traces(write_traces(traces, m)) gives back the traces, in order,
      and m, when every symbol is a single non-whitespace character. */
  lemma WriteReadRoundTrip(traces: seq<Trace>, alphabetSize: int)
    requires Writable(traces)
    ensures TracesOf(TracesText(traces, alphabetSize)) == Ok((traces, alphabetSize))
  {
    var header := TracesHeader(|traces|, alphabetSize);
    var lines := [header] + TraceLines(traces);
    WrittenLinesPlain(traces, alphabetSize);
    ReadTerminated(lines);
    var read := ReadLines(TracesText(traces, alphabetSize));
    assert ParseHeader(ReadLine(read, 0)) == Ok((|traces|, alphabetSize)) by {
      assert ReadLine(read, 0) == header + "\n";
      TokensTrailingSpace(header, '\n');
      TokensOfInts([|traces|, alphabetSize]);
      IntsRoundTrip([|traces|, alphabetSize]);
    }
    forall i | 0 <= i < |traces| ensures ParseRecord(ReadLine(read, i + 1)) == Ok(traces[i]) {
      assert ReadLine(read, i + 1) == TraceLine(traces[i]) + "\n";
      TraceLineParse(traces[i]);
    }
    RecordsAll(read, traces, |traces|);
    assert traces[..|traces|] == traces;
  }

  lemma {:induction false} RecordsAll(lines: seq<string>, traces: seq<Trace>, n: nat)
    requires n <= |traces|
    requires forall i :: 0 <= i < |traces| ==> ParseRecord(ReadLine(lines, i + 1)) == Ok(traces[i])
    ensures Records(lines, n) == Ok(traces[..n])
  {
    if n > 0 {
      RecordsAll(lines, traces, n - 1);
      Seqs.TakeSnoc(traces, n);
    }
  }

  lemma WrittenLinesPlain(traces: seq<Trace>, alphabetSize: int)
    requires Writable(traces)
    ensures forall l :: l in [TracesHeader(|traces|, alphabetSize)] + TraceLines(traces) ==> '\n' !in l && '\r' !in l
  {
    var lines := [TracesHeader(|traces|, alphabetSize)] + TraceLines(traces);
    forall l | l in lines ensures '\n' !in l && '\r' !in l {
      var i :| 0 <= i < |lines| && lines[i] == l;
      if i > 0 {
        var t := traces[i - 1];
        assert l == TraceLine(t);
        IntStringsWords([t.classLabel, t.length]);
        CharsWords(t.symbols);
        JoinNoNewline(IntStrings([t.classLabel, t.length]));
        JoinNoNewline(Chars(t.symbols));
      } else {
        IntStringsWords([|traces|, alphabetSize]);
        JoinNoNewline(IntStrings([|traces|, alphabetSize]));
      }
    }
  }

  /** The characters of a whitespace-free string are tokens. */
  lemma CharsWords(s: string)
    requires NoSpace(s)
    ensures forall p :: p in Chars(s) ==> p != [] && NoSpace(p)
  {
    forall p | p in Chars(s) ensures p != [] && NoSpace(p) {
      var i :| 0 <= i < |s| && Chars(s)[i] == p;
    }
  }

  /** ''.join of the one-character strings of s is s. */
  lemma {:induction false} JoinChars(s: string)
    ensures Join("", Chars(s)) == s
  {
    if |s| > 1 {
      assert Chars(s)[1..] == Chars(s[1..]);
      JoinChars(s[1..]);
      assert [s[0]] + s[1..] == s;
    } else if |s| == 1 {
      assert [s[0]] == s;
    }
  }

  /** One written line, with its newline, reads back as its trace. */
  lemma TraceLineParse(t: Trace)
    requires NoSpace(t.symbols)
    ensures ParseRecord(TraceLine(t) + "\n") == Ok(t)
  {
    var head := Join(" ", IntStrings([t.classLabel, t.length]));
    var tail := Join(" ", Chars(t.symbols));
    TokensTrailingSpace(TraceLine(t), '\n');
    TokensAroundSpace(head, ' ', tail);
    TokensOfInts([t.classLabel, t.length]);
    CharsWords(t.symbols);
    TokensOfJoin(Chars(t.symbols));
    var parts := IntStrings([t.classLabel, t.length]) + Chars(t.symbols);
    assert Tokens(TraceLine(t) + "\n") == parts;
    IntRoundTrip(t.classLabel);
    IntRoundTrip(t.length);
    assert parts[2..] == Chars(t.symbols);
    JoinChars(t.symbols);
  }

  // ---------------------------------------------------------------------
  // group_by_suffix
  // ---------------------------------------------------------------------

  /** The group key of a trace: its label and trace[-k:] when k does not
      exceed the trace's length, else the whole trace. */
  function SuffixKey(t: Trace, k: int): (int, string) {
    (t.classLabel, if k <= |t.symbols| then PySlice(t.symbols, -k, |t.symbols|) else t.symbols)
  }

  /** The key is the label with the last k symbols; the whole trace when k
      is 0 or exceeds its length; a negative k drops that many symbols from
      the front. */
  lemma SuffixKeyShape(t: Trace, k: int)
    ensures SuffixKey(t, k).0 == t.classLabel
    ensures 0 < k <= |t.symbols| ==> SuffixKey(t, k).1 == t.symbols[|t.symbols| - k..]
    ensures (k == 0 || k > |t.symbols|) ==> SuffixKey(t, k).1 == t.symbols
    ensures k < 0 && -k <= |t.symbols| ==> SuffixKey(t, k).1 == t.symbols[-k..]
  {
  }

  /** One entry of the insertion-ordered dict of lists. */
  datatype Group = Group(key: (int, string), members: seq<Trace>)

  function Keys(groups: seq<Group>): (ks: seq<(int, string)>)
    ensures |ks| == |groups|
    ensures forall i :: 0 <= i < |groups| ==> ks[i] == groups[i].key
  {
    seq(|groups|, i requires 0 <= i < |groups| => groups[i].key)
  }

  /** groups[key].append(t): the group with that key grows at its end, or a
      new group is opened after all the others. */
  function Append(groups: seq<Group>, key: (int, string), t: Trace): (r: seq<Group>)
    ensures key in Keys(r)
  {
    var i := KeyIndex(groups, key);
    if i < |groups| then
      var r := groups[i := Group(key, groups[i].members + [t])];
      assert Keys(r)[i] == key;
      r
    else
      var r := groups + [Group(key, [t])];
      assert Keys(r)[|groups|] == key;
      r
  }

  /** The position of the group with the given key, |groups| when none. */
  function KeyIndex(groups: seq<Group>, key: (int, string)): (i: nat)
    ensures i <= |groups|
    ensures i < |groups| ==> groups[i].key == key
    ensures forall j :: 0 <= j < i ==> groups[j].key != key
  {
    if groups == [] || groups[0].key == key then 0 else 1 + KeyIndex(groups[1..], key)
  }

  /** The dict group_by_suffix returns, in insertion order. */
  function Grouped(traces: seq<Trace>, k: int): seq<Group> {
    if traces == [] then []
    else
      var t := traces[|traces| - 1];
      Append(Grouped(traces[..|traces| - 1], k), SuffixKey(t, k), t)
  }

  /** The traces with the given key, in their input order. */
  function WithKey(traces: seq<Trace>, k: int, key: (int, string)): (r: seq<Trace>)
    ensures forall x :: x in r ==> x in traces && SuffixKey(x, k) == key
  {
    if traces == [] then []
    else
      var t := traces[|traces| - 1];
      var rest := WithKey(traces[..|traces| - 1], k, key);
      if SuffixKey(t, k) == key then rest + [t] else rest
  }

  /** The groups of traces: distinct keys, one for every trace; each group
      holds exactly the traces with its key, in input order, and is never
      empty. So every trace is in exactly one group. */
  ghost predicate GroupsOf(groups: seq<Group>, traces: seq<Trace>, k: int) {
    Random.Distinct(Keys(groups))
    && (forall i :: 0 <= i < |groups| ==>
          groups[i].members == WithKey(traces, k, groups[i].key) && groups[i].members != [])
    && (forall j :: 0 <= j < |traces| ==> SuffixKey(traces[j], k) in Keys(groups))
  }

  lemma {:induction false} GroupedGroups(traces: seq<Trace>, k: int)
    ensures GroupsOf(Grouped(traces, k), traces, k)
  {
    if traces != [] {
      var n := |traces| - 1;
      var prefix, t := traces[..n], traces[n];
      assert prefix + [t] == traces;
      GroupedGroups(prefix, k);
      AppendGroups(Grouped(prefix, k), prefix, k, t);
      assert Grouped(traces, k) == Append(Grouped(prefix, k), SuffixKey(t, k), t);
    }
  }

  /** Adding one trace keeps the grouping. */
  lemma AppendGroups(groups: seq<Group>, traces: seq<Trace>, k: int, t: Trace)
    requires GroupsOf(groups, traces, k)
    ensures GroupsOf(Append(groups, SuffixKey(t, k), t), traces + [t], k)
  {
    var key := SuffixKey(t, k);
    var after := Append(groups, key, t);
    var all := traces + [t];
    assert all[..|traces|] == traces;
    var i := KeyIndex(groups, key);
    if i < |groups| {
      assert Keys(after) == Keys(groups);
      forall g | 0 <= g < |after|
        ensures after[g].members == WithKey(all, k, after[g].key)
      {
        assert WithKey(all, k, after[g].key) ==
          if key == after[g].key then WithKey(traces, k, after[g].key) + [t] else WithKey(traces, k, after[g].key);
      }
    } else {
      assert key !in Keys(groups);
      assert Keys(after) == Keys(groups) + [key];
      KeyMissing(traces, k, key);
      forall g | 0 <= g < |after|
        ensures after[g].members == WithKey(all, k, after[g].key)
      {
        assert WithKey(all, k, after[g].key) ==
          if key == after[g].key then WithKey(traces, k, after[g].key) + [t] else WithKey(traces, k, after[g].key);
      }
    }
    forall j | 0 <= j < |all| ensures SuffixKey(all[j], k) in Keys(after) {
      if j < |traces| {
        assert all[j] == traces[j];
      }
    }
  }

  /** A key no trace has gathers no traces. */
  lemma {:induction false} KeyMissing(traces: seq<Trace>, k: int, key: (int, string))
    requires forall j :: 0 <= j < |traces| ==> SuffixKey(traces[j], k) != key
    ensures WithKey(traces, k, key) == []
  {
    if traces != [] {
      KeyMissing(traces[..|traces| - 1], k, key);
    }
  }

  /** There are groups exactly when there are traces, and never more groups
      than traces. */
  lemma {:induction false} GroupedCount(traces: seq<Trace>, k: int)
    ensures |Grouped(traces, k)| <= |traces|
    ensures |Grouped(traces, k)| == 0 <==> traces == []
  {
    if traces != [] {
      GroupedCount(traces[..|traces| - 1], k);
    }
  }

  /** group_by_suffix, adding the traces one at a time. */
  method GroupBySuffix(traces: seq<Trace>, k: int) returns (groups: seq<Group>)
    ensures groups == Grouped(traces, k)
  {
    groups := [];
    for i := 0 to |traces|
      invariant groups == Grouped(traces[..i], k)
    {
      var t := traces[i];
      assert traces[..i + 1][..i] == traces[..i];
      groups := Append(groups, SuffixKey(t, k), t);
    }
    assert traces[..|traces|] == traces;
  }

  /** The number of distinct suffix keys among the traces. */
  function GroupCount(traces: seq<Trace>, k: int): nat {
    |set t | t in traces :: SuffixKey(t, k)|
  }

  /** group_by_suffix opens exactly one group per distinct suffix key. */
  lemma GroupedCountsKeys(traces: seq<Trace>, k: int)
    ensures |Grouped(traces, k)| == GroupCount(traces, k)
  {
    var groups := Grouped(traces, k);
    GroupedGroups(traces, k);
    var keys := set t | t in traces :: SuffixKey(t, k);
    forall key | key in keys ensures key in Keys(groups) {
      var t :| t in traces && SuffixKey(t, k) == key;
      var j :| 0 <= j < |traces| && traces[j] == t;
    }
    forall key | key in Keys(groups) ensures key in keys {
      var i :| 0 <= i < |groups| && Keys(groups)[i] == key;
      var x := groups[i].members[0];
      assert x in WithKey(traces, k, key);
    }
    assert (set key | key in Keys(groups)) == keys;
    Random.DistinctCard(Keys(groups));
  }

  /** The nested num_groups(k) of binary_search_k. */
  method NumGroups(traces: seq<Trace>, k: int) returns (n: nat)
    ensures n == GroupCount(traces, k)
  {
    var groups := GroupBySuffix(traces, k);
    GroupedCountsKeys(traces, k);
    n := |groups|;
  }
}

/** newsample.py, second half: the four ways of drawing a subset of the
    traces. */
module Sampling {
  import opened Wrappers
  import opened PyText
  import Random
  import opened Traces
  import Seqs

  // ---------------------------------------------------------------------
  // sample_diverse_traces
  // ---------------------------------------------------------------------

  /** Python's < on strings: code point by code point, a proper prefix
      first. */
  predicate StrBelow(a: string, b: string)
    decreases |a|
  {
    b != [] && (a == [] || a[0] < b[0] || (a[0] == b[0] && StrBelow(a[1..], b[1..])))
  }

  lemma {:induction false} StrBelowAsym(a: string, b: string)
    ensures !(StrBelow(a, b) && StrBelow(b, a))
    decreases |a|
  {
    if a != [] && b != [] && a[0] == b[0] {
      StrBelowAsym(a[1..], b[1..]);
    }
  }

  lemma {:induction false} StrBelowTotal(a: string, b: string)
    ensures a == b || StrBelow(a, b) || StrBelow(b, a)
    decreases |a|
  {
    if a != [] && b != [] && a[0] == b[0] {
      StrBelowTotal(a[1..], b[1..]);
      if a[1..] == b[1..] {
        assert a == [a[0]] + a[1..] && b == [b[0]] + b[1..];
      }
    }
  }

  /** A (nearest distance, trace tuple) pair of sample_diverse_traces. */
  type Score = (nat, Trace)

  /** Python's < on score tuples: distance, then label, then length, then
      the trace string. */
  predicate Below(x: Score, y: Score) {
    x.0 < y.0 || (x.0 == y.0 &&
      (x.1.classLabel < y.1.classLabel || (x.1.classLabel == y.1.classLabel &&
        (x.1.length < y.1.length || (x.1.length == y.1.length && StrBelow(x.1.symbols, y.1.symbols))))))
  }

  lemma BelowAsym(x: Score, y: Score)
    ensures !(Below(x, y) && Below(y, x))
  {
    StrBelowAsym(x.1.symbols, y.1.symbols);
  }

  lemma BelowTotal(x: Score, y: Score)
    ensures x == y || Below(x, y) || Below(y, x)
  {
    StrBelowTotal(x.1.symbols, y.1.symbols);
  }

  /** Descending order, as sort(reverse=True) leaves it. */
  predicate SortedDown(s: seq<Score>) {
    forall i :: 0 <= i < |s| - 1 ==> !Below(s[i], s[i + 1])
  }

  function Items(s: seq<Score>): (ts: seq<Trace>)
    ensures |ts| == |s|
    ensures forall i :: 0 <= i < |s| ==> ts[i] == s[i].1
  {
    seq(|s|, i requires 0 <= i < |s| => s[i].1)
  }

  /** x placed into a descending sequence, before the first score it is
      not below. */
  function Insert(x: Score, s: seq<Score>): (r: seq<Score>)
    ensures |r| == |s| + 1
  {
    if s == [] || !Below(x, s[0]) then [x] + s
    else [s[0]] + Insert(x, s[1..])
  }

  /** Inserting into a descending sequence keeps it descending, and the
      new head is x or the old head. */
  lemma {:induction false} InsertSorted(x: Score, s: seq<Score>)
    requires SortedDown(s)
    ensures SortedDown(Insert(x, s))
    ensures Insert(x, s)[0] == x || (s != [] && Insert(x, s)[0] == s[0])
  {
    if s != [] && Below(x, s[0]) {
      InsertSorted(x, s[1..]);
      BelowAsym(x, s[0]);
    }
  }

  /** Inserting adds x and nothing else. */
  lemma {:induction false} InsertPerm(x: Score, s: seq<Score>)
    ensures multiset(Insert(x, s)) == multiset(s) + multiset{x}
  {
    if s != [] && Below(x, s[0]) {
      InsertPerm(x, s[1..]);
      Seqs.ConsTail(s);
    }
  }

  /** Inserting adds x's trace tuple and nothing else to the items. */
  lemma {:induction false} InsertItems(x: Score, s: seq<Score>)
    ensures multiset(Items(Insert(x, s))) == multiset(Items(s)) + multiset{x.1}
  {
    if s == [] || !Below(x, s[0]) {
      ItemsAppend([x], s);
    } else {
      InsertItems(x, s[1..]);
      ItemsAppend([s[0]], Insert(x, s[1..]));
      ItemsAppend([s[0]], s[1..]);
      Seqs.ConsTail(s);
    }
  }

  /** sorted(s, reverse=True) */
  function SortDown(s: seq<Score>): (r: seq<Score>)
    ensures |r| == |s|
  {
    if s == [] then [] else Insert(s[0], SortDown(s[1..]))
  }

  /** sorted(reverse=True) leaves the scores descending and permutes
      them, and their traces with them. */
  lemma SortDownSpec(s: seq<Score>)
    ensures SortedDown(SortDown(s))
    ensures multiset(SortDown(s)) == multiset(s)
    ensures multiset(Items(SortDown(s))) == multiset(Items(s))
  {
    SortDownSorted(s);
    SortDownPerm(s);
    SortDownItems(s);
  }

  lemma {:induction false} SortDownSorted(s: seq<Score>)
    ensures SortedDown(SortDown(s))
  {
    if s != [] {
      SortDownSorted(s[1..]);
      InsertSorted(s[0], SortDown(s[1..]));
    }
  }

  lemma {:induction false} SortDownPerm(s: seq<Score>)
    ensures multiset(SortDown(s)) == multiset(s)
  {
    if s != [] {
      SortDownPerm(s[1..]);
      InsertPerm(s[0], SortDown(s[1..]));
      Seqs.ConsTail(s);
    }
  }

  lemma {:induction false} SortDownItems(s: seq<Score>)
    ensures multiset(Items(SortDown(s))) == multiset(Items(s))
  {
    if s != [] {
      var t := SortDown(s[1..]);
      SortDownItems(s[1..]);
      InsertItems(s[0], t);
      assert Items(s) == [s[0].1] + Items(s[1..]);
    }
  }

  /** The items of a leading slice are among the items of the whole. */
  lemma TopItems(sc: seq<Score>, n: int)
    ensures multiset(Items(PySlice(sc, 0, n))) <= multiset(Items(sc))
  {
    var top := PySlice(sc, 0, n);
    assert top == sc[..|top|];
    ItemsAppend(top, sc[|top|..]);
    assert sc == top + sc[|top|..];
  }

  lemma ItemsAppend(a: seq<Score>, b: seq<Score>)
    ensures Items(a + b) == Items(a) + Items(b)
  {
  }

  function MinOf(ds: seq<nat>): (m: nat)
    requires ds != []
    ensures m in ds
    ensures forall i :: 0 <= i < |ds| ==> m <= ds[i]
  {
    if |ds| == 1 then ds[0]
    else
      var rest := MinOf(ds[1..]);
      if ds[0] <= rest then ds[0] else rest
  }

  /** The distance from trace i to its nearest other trace. */
  function Nearest(dist: (string, string) -> nat, ts: seq<string>, i: nat): (d: nat)
    requires |ts| >= 2 && i < |ts|
    ensures exists j :: 0 <= j < |ts| && j != i && d == dist(ts[i], ts[j])
    ensures forall j :: 0 <= j < |ts| && j != i ==> d <= dist(ts[i], ts[j])
  {
    NearestOthers(dist, ts, i);
    MinOf(Others(dist, ts, i))
  }

  /** The distances from trace i to every other trace, in order. */
  function Others(dist: (string, string) -> nat, ts: seq<string>, i: nat): (os: seq<nat>)
    requires |ts| >= 2 && i < |ts|
    ensures |os| == |ts| - 1
  {
    seq(|ts| - 1, k requires 0 <= k < |ts| - 1 => dist(ts[i], ts[if k < i then k else k + 1]))
  }

  lemma NearestOthers(dist: (string, string) -> nat, ts: seq<string>, i: nat)
    requires |ts| >= 2 && i < |ts|
    ensures var d := MinOf(Others(dist, ts, i));
      && (exists j :: 0 <= j < |ts| && j != i && d == dist(ts[i], ts[j]))
      && (forall j :: 0 <= j < |ts| && j != i ==> d <= dist(ts[i], ts[j]))
  {
    NearestAttained(dist, ts, i);
    NearestBelow(dist, ts, i);
  }

  lemma NearestAttained(dist: (string, string) -> nat, ts: seq<string>, i: nat)
    requires |ts| >= 2 && i < |ts|
    ensures exists j :: 0 <= j < |ts| && j != i && MinOf(Others(dist, ts, i)) == dist(ts[i], ts[j])
  {
    var os := Others(dist, ts, i);
    var k :| 0 <= k < |os| && os[k] == MinOf(os);
    var j := if k < i then k else k + 1;
    assert os[k] == dist(ts[i], ts[j]);
  }

  lemma NearestBelow(dist: (string, string) -> nat, ts: seq<string>, i: nat)
    requires |ts| >= 2 && i < |ts|
    ensures forall j :: 0 <= j < |ts| && j != i ==> MinOf(Others(dist, ts, i)) <= dist(ts[i], ts[j])
  {
    var os := Others(dist, ts, i);
    forall j | 0 <= j < |ts| && j != i ensures MinOf(os) <= dist(ts[i], ts[j]) {
      var k := if j < i then j else j - 1;
      assert os[k] == dist(ts[i], ts[j]);
    }
  }

  function TraceStrings(tuples: seq<Trace>): (ts: seq<string>)
    ensures |ts| == |tuples|
    ensures forall i :: 0 <= i < |tuples| ==> ts[i] == tuples[i].symbols
  {
    seq(|tuples|, i requires 0 <= i < |tuples| => tuples[i].symbols)
  }

  /** Every tuple paired with its nearest-neighbour distance. */
  function Scores(dist: (string, string) -> nat, tuples: seq<Trace>): (sc: seq<Score>)
    requires |tuples| >= 2
    ensures |sc| == |tuples|
    ensures forall i :: 0 <= i < |tuples| ==> sc[i] == (Nearest(dist, TraceStrings(tuples), i), tuples[i])
    ensures Items(sc) == tuples
  {
    seq(|tuples|, i requires 0 <= i < |tuples| => (Nearest(dist, TraceStrings(tuples), i), tuples[i]))
  }

  /** sample_diverse_traces(trace_tuples, num_samples) with the distance
      as a parameter: the input itself when it is small enough, else the
      first num_samples tuples of the scores sorted in descending order.
      A single tuple with nothing to compare against is a ValueError from
      min() of nothing. */
  function SampleDiverse(tuples: seq<Trace>, numSamples: int, dist: (string, string) -> nat): (r: Result<seq<Trace>>)
    ensures r.Err? <==> |tuples| == 1 && numSamples < 1
    ensures r.Err? ==> r.error == ValueError
    ensures |tuples| <= numSamples ==> r == Ok(tuples)
    ensures r.Ok? ==> multiset(r.value) <= multiset(tuples)
    ensures r.Ok? && 0 <= numSamples < |tuples| ==> |r.value| == numSamples
    ensures r.Ok? && numSamples < |tuples| && |tuples| >= 2 ==>
      exists sc :: SortedDown(sc) && multiset(sc) == multiset(Scores(dist, tuples))
                   && r.value == Items(PySlice(sc, 0, numSamples))
  {
    if |tuples| <= numSamples then Ok(tuples)
    else if |tuples| == 0 then Ok([])
    else if |tuples| == 1 then Err(ValueError)
    else
      var sc := SortDown(Scores(dist, tuples));
      SortDownSpec(Scores(dist, tuples));
      TopItems(sc, numSamples);
      Ok(Items(PySlice(sc, 0, numSamples)))
  }

  // ---------------------------------------------------------------------
  // dynamic_k_sampling
  // ---------------------------------------------------------------------

  function Max(a: int, b: int): int {
    if a < b then b else a
  }

  function Min(a: int, b: int): int {
    if a < b then a else b
  }

  /** dynamic_k_sampling(traces, target_samples, initial_k): round after
      round, with k growing from initial_k, draw up to an equal share of
      the missing samples from each suffix group; stop once target_samples
      are drawn and cut to that many. Every round draws at least one
      trace, so it ends; duplicates across rounds are possible. With no
      traces there are no groups, and the share divides by zero. */
  method DynamicKSampling(traces: seq<Trace>, targetSamples: int, initialK: int) returns (r: Result<seq<Trace>>)
    ensures r.Err? <==> traces == [] && targetSamples > 0
    ensures r.Err? ==> r.error == ZeroDivisionError
    ensures r.Ok? ==> |r.value| == Max(0, targetSamples)
    ensures r.Ok? ==> forall x :: x in r.value ==> x in traces
  {
    var sampled: seq<Trace> := [];
    var k := initialK;
    while |sampled| < targetSamples
      invariant forall x :: x in sampled ==> x in traces
      invariant traces == [] ==> sampled == []
      invariant targetSamples <= 0 ==> sampled == []
      decreases targetSamples - |sampled|
    {
      var groups := GroupBySuffix(traces, k);
      GroupedGroups(traces, k);
      GroupedCount(traces, k);
      if |groups| == 0 {
        return Err(ZeroDivisionError);
      }
      var perGroup := Max(1, (targetSamples - |sampled|) / |groups|);
      ghost var start := |sampled|;
      var i := 0;
      while i < |groups| && |sampled| < targetSamples
        invariant 0 <= i <= |groups|
        invariant i == 0 ==> |sampled| == start
        invariant i > 0 ==> |sampled| > start
        invariant forall x :: x in sampled ==> x in traces
      {
        var members := groups[i].members;
        var drawn, picks := Random.Sample(members, Min(|members|, perGroup));
        assert forall x :: x in drawn.value ==> x in members;
        sampled := sampled + drawn.value;
        i := i + 1;
      }
      k := k + 1;
    }
    r := Ok(PySlice(sampled, 0, targetSamples));
  }

  // ---------------------------------------------------------------------
  // binary_search_k
  // ---------------------------------------------------------------------

  /** max(int(len(trace) / 2) for each trace) */
  function MaxHalf(traces: seq<Trace>): (h: nat)
    requires traces != []
    ensures forall i :: 0 <= i < |traces| ==> |traces[i].symbols| / 2 <= h
    ensures exists i :: 0 <= i < |traces| && |traces[i].symbols| / 2 == h
  {
    if |traces| == 1 then |traces[0].symbols| / 2
    else
      var rest := MaxHalf(traces[1..]);
      assert forall i :: 1 <= i < |traces| ==> traces[i] == traces[1..][i - 1];
      Max(|traces[0].symbols| / 2, rest)
  }

  /** The loop of binary_search_k between 1 and top. */
  method Search(traces: seq<Trace>, top: nat, targetGroups: int) returns (low: int)
    ensures 1 <= low && (low == 1 || low <= top)
    ensures low == 1 || GroupCount(traces, low - 1) <= targetGroups
    ensures low >= top || GroupCount(traces, low) > targetGroups || GroupCount(traces, low + 1) > targetGroups
  {
    var high: int;
    low, high := 1, top;
    while low < high
      invariant 1 <= low && (low == 1 || low <= top) && high <= top && low <= high + 1
      invariant low == 1 || GroupCount(traces, low - 1) <= targetGroups
      invariant high == top || GroupCount(traces, high + 1) > targetGroups
      decreases high - low
    {
      low, high := SearchStep(traces, top, targetGroups, low, high);
    }
  }

  /** (low + high) // 2 for 1 <= low <= high, where floor and Euclidean
      division agree. */
  function Midpoint(low: int, high: int): (mid: int)
    requires low <= high
    ensures low <= mid <= high
    ensures mid - low <= high - mid <= mid - low + 1
  {
    (low + high) / 2
  }

  /** One halving of the search interval. */
  method SearchStep(traces: seq<Trace>, top: nat, targetGroups: int, low: int, high: int)
    returns (low': int, high': int)
    requires 1 <= low < high <= top
    requires low == 1 || GroupCount(traces, low - 1) <= targetGroups
    requires high == top || GroupCount(traces, high + 1) > targetGroups
    ensures 1 <= low' <= top && high' <= top && low' <= high' + 1
    ensures high' - low' < high - low
    ensures low' == 1 || GroupCount(traces, low' - 1) <= targetGroups
    ensures high' == top || GroupCount(traces, high' + 1) > targetGroups
  {
    var mid := Midpoint(low, high);
    var count := NumGroups(traces, mid);
    if count > targetGroups {
      low', high' := low, mid - 1;
      assert high' + 1 == mid;
    } else {
      low', high' := mid + 1, high;
      assert low' - 1 == mid;
    }
  }

  /** max(1, target_samples // 5); the divisor is positive, so Euclidean
      and floor division agree. */
  function TargetGroups(targetSamples: int): int {
    Max(1, targetSamples / 5)
  }

  /** What binary_search_k promises of the k it returns: k lies between 1
      and the largest half trace length (at least 1); the search moved
      above k - 1 only because k - 1 gives at most the target number of
      groups, and it stopped at the top or next to a k giving more. */
  predicate SearchedK(traces: seq<Trace>, targetSamples: int, k: int)
    requires traces != []
  {
    && 1 <= k && (k == 1 || k <= MaxHalf(traces))
    && (k == 1 || GroupCount(traces, k - 1) <= TargetGroups(targetSamples))
    && (k >= MaxHalf(traces)
        || GroupCount(traces, k) > TargetGroups(targetSamples)
        || GroupCount(traces, k + 1) > TargetGroups(targetSamples))
  }

  /** binary_search_k(traces, target_samples): a k as SearchedK describes;
      max() of no traces is a ValueError. */
  method BinarySearchK(traces: seq<Trace>, targetSamples: int) returns (r: Result<int>)
    ensures r.Err? <==> traces == []
    ensures r.Err? ==> r.error == ValueError
    ensures r.Ok? ==> SearchedK(traces, targetSamples, r.value)
  {
    if traces == [] {
      return Err(ValueError);
    }
    var low := Search(traces, MaxHalf(traces), TargetGroups(targetSamples));
    r := Ok(low);
  }

  // ---------------------------------------------------------------------
  // sample_with_binary_search and random_sampling
  // ---------------------------------------------------------------------

  /** [x for x in xs if x not in ys] */
  function Without(xs: seq<Trace>, ys: seq<Trace>): (r: seq<Trace>)
    ensures forall x :: x in r <==> x in xs && x !in ys
  {
    if xs == [] then []
    else
      var rest := Without(xs[1..], ys);
      assert forall x :: x in xs <==> x == xs[0] || x in xs[1..];
      if xs[0] in ys then rest else [xs[0]] + rest
  }

  /** A permutation of groups with distinct keys has distinct keys. */
  lemma PermutedKeys(groups: seq<Group>, shuffled: seq<Group>)
    requires Random.Distinct(Keys(groups)) && multiset(shuffled) == multiset(groups)
    ensures Random.Distinct(Keys(shuffled))
  {
    assert Random.Distinct(groups) by {
      forall i, j | 0 <= i < j < |groups| ensures groups[i] != groups[j] {
        assert Keys(groups)[i] != Keys(groups)[j];
      }
    }
    forall i, j | 0 <= i < j < |shuffled| ensures shuffled[i].key != shuffled[j].key {
      assert shuffled[i] in multiset(groups) && shuffled[j] in multiset(groups);
      var p :| 0 <= p < |groups| && groups[p] == shuffled[i];
      var q :| 0 <= q < |groups| && groups[q] == shuffled[j];
      if shuffled[i].key == shuffled[j].key {
        assert Keys(groups)[p] == Keys(groups)[q];
        Random.CountTwice(shuffled, i, j);
        Random.CountOnce(groups, shuffled[i]);
      }
    }
  }

  /** A group of the grouping is non-empty and holds traces with its
      key only. */
  lemma GroupMembers(groups: seq<Group>, traces: seq<Trace>, k: int, g: Group)
    requires GroupsOf(groups, traces, k) && g in multiset(groups)
    ensures g.members != []
    ensures forall x :: x in g.members ==> x in traces && SuffixKey(x, k) == g.key
  {
    var p :| 0 <= p < |groups| && groups[p] == g;
  }

  /** The representatives of sample_with_binary_search: the groups in
      shuffled order, one random member of each. */
  method PickRepresentatives(groups: seq<Group>, ghost traces: seq<Trace>, ghost k: int) returns (reps: seq<Trace>)
    requires GroupsOf(groups, traces, k)
    ensures |reps| == |groups|
    ensures forall i, j :: 0 <= i < j < |reps| ==> SuffixKey(reps[i], k) != SuffixKey(reps[j], k)
    ensures forall x :: x in reps ==> x in traces
  {
    var shuffled := Random.Shuffle(groups);
    PermutedKeys(groups, shuffled);
    reps := [];
    for i := 0 to |shuffled|
      invariant |reps| == i
      invariant forall j :: 0 <= j < i ==> reps[j] in traces && SuffixKey(reps[j], k) == shuffled[j].key
    {
      GroupMembers(groups, traces, k, shuffled[i]);
      var representative := Random.Choice(shuffled[i].members);
      reps := reps + [representative.value];
    }
    RepKeysDistinct(reps, shuffled, k);
  }

  /** Representatives taken one per group, in the groups' order, have
      pairwise different suffix keys when the groups' keys differ. */
  lemma RepKeysDistinct(reps: seq<Trace>, shuffled: seq<Group>, k: int)
    requires |reps| == |shuffled| && Random.Distinct(Keys(shuffled))
    requires forall j :: 0 <= j < |reps| ==> SuffixKey(reps[j], k) == shuffled[j].key
    ensures forall i, j :: 0 <= i < j < |reps| ==> SuffixKey(reps[i], k) != SuffixKey(reps[j], k)
  {
    forall i, j | 0 <= i < j < |reps| ensures SuffixKey(reps[i], k) != SuffixKey(reps[j], k) {
      assert Keys(shuffled)[i] != Keys(shuffled)[j];
    }
  }

  /** The diverse picks of one group: up to five members that are not
      representatives, for a group with more than one member; none
      otherwise. Five samples never make sample_diverse_traces fail. */
  function GroupExtras(g: Group, reps: seq<Trace>, dist: (string, string) -> nat): seq<Trace> {
    if |g.members| > 1 then SampleDiverse(Without(g.members, reps), 5, dist).value else []
  }

  /** The extra list of sample_with_binary_search before it is cut: the
      diverse picks of every group, in the dict's order. */
  function Extras(groups: seq<Group>, reps: seq<Trace>, dist: (string, string) -> nat): seq<Trace> {
    if groups == [] then []
    else Extras(groups[..|groups| - 1], reps, dist) + GroupExtras(groups[|groups| - 1], reps, dist)
  }

  /** The extra samples of sample_with_binary_search: from every group with
      more than one member, up to five diverse members that are not
      representatives, cut to the number still missing. */
  method PickExtras(groups: seq<Group>, reps: seq<Trace>, remaining: int, dist: (string, string) -> nat,
                    ghost traces: seq<Trace>, ghost k: int)
    returns (extra: seq<Trace>)
    requires GroupsOf(groups, traces, k)
    ensures extra == PySlice(Extras(groups, reps, dist), 0, remaining)
    ensures remaining >= 0 ==> |extra| <= remaining
    ensures forall x :: x in extra ==> x in traces && x !in reps
  {
    var more := [];
    for i := 0 to |groups|
      invariant more == Extras(groups[..i], reps, dist)
      invariant forall x :: x in more ==> x in traces && x !in reps
    {
      assert groups[..i + 1][..i] == groups[..i];
      if |groups[i].members| > 1 {
        var others := Without(groups[i].members, reps);
        var chosen := SampleDiverse(others, 5, dist);
        assert forall x :: x in chosen.value ==> x in multiset(others);
        more := more + chosen.value;
      }
    }
    assert groups[..|groups|] == groups;
    extra := PySlice(more, 0, remaining);
    SliceFront(more, remaining);
  }

  /** sample_with_binary_search(traces, target_samples), with the distance
      as a parameter: one randomly chosen representative of every suffix
      group for the searched k, in shuffled group order; then, if more
      samples are wanted, diverse traces from the larger groups that are
      not among the representatives; cut to target_samples. The ghost
      results name k, the representatives and the extra traces used. */
  method SampleWithBinarySearch(traces: seq<Trace>, targetSamples: int, dist: (string, string) -> nat)
    returns (r: Result<seq<Trace>>, ghost k: int, ghost reps: seq<Trace>, ghost extra: seq<Trace>)
    ensures r.Err? <==> traces == []
    ensures r.Err? ==> r.error == ValueError
    ensures r.Ok? ==> SearchedK(traces, targetSamples, k)
    ensures r.Ok? ==> r.value == PySlice(reps + extra, 0, targetSamples)
    ensures r.Ok? ==> extra == if targetSamples - |reps| > 0
                               then PySlice(Extras(Grouped(traces, k), reps, dist), 0, targetSamples - |reps|)
                               else []
    ensures r.Ok? && targetSamples >= 0 ==> |r.value| <= targetSamples
    ensures r.Ok? ==> |reps| == GroupCount(traces, k)
    ensures r.Ok? ==> forall i, j :: 0 <= i < j < |reps| ==> SuffixKey(reps[i], k) != SuffixKey(reps[j], k)
    ensures r.Ok? ==> forall x :: x in reps ==> x in traces
    ensures r.Ok? ==> forall x :: x in extra ==> x in traces && x !in reps
    ensures r.Ok? ==> forall x :: x in r.value ==> x in traces
  {
    extra := [];
    var searched := BinarySearchK(traces, targetSamples);
    if searched.Err? {
      return Err(ValueError), 0, [], [];
    }
    var searchedK := searched.value;
    k := searchedK;
    var groups := GroupBySuffix(traces, searchedK);
    GroupedGroups(traces, k);
    GroupedCountsKeys(traces, k);
    var sampled := PickRepresentatives(groups, traces, k);
    reps := sampled;
    var remaining := targetSamples - |sampled|;
    if remaining > 0 {
      var added := PickExtras(groups, sampled, remaining, dist, traces, k);
      sampled := sampled + added;
      extra := added;
    }
    assert sampled == reps + extra;
    SliceFront(sampled, targetSamples);
    r := Ok(PySlice(sampled, 0, targetSamples));
  }

  /** random_sampling(traces, target_samples): min(len(traces), target)
      traces from distinct positions; a negative target is a ValueError. */
  method RandomSampling(traces: seq<Trace>, targetSamples: int) returns (r: Result<seq<Trace>>, ghost picks: seq<nat>)
    ensures r.Err? <==> targetSamples < 0
    ensures r.Err? ==> r.error == ValueError
    ensures r.Ok? ==> |r.value| == |picks| == Min(|traces|, targetSamples) && Random.Distinct(picks)
    ensures r.Ok? ==> forall i :: 0 <= i < |r.value| ==> picks[i] < |traces| && r.value[i] == traces[picks[i]]
  {
    r, picks := Random.Sample(traces, Min(|traces|, targetSamples));
  }
}
