/** split.py: read a trace file, drop duplicate traces, shuffle them and
    write the two halves as trace files of the same alphabet. A trace is
    the (label, length, symbols) record of the cross-validation format,
    whose symbol list is never cut to its length field. */
module TraceSplit {
  import opened Wrappers
  import opened PyText
  import Random
  import Traces
  import Cross
  import Seqs

  type Record = Cross.Example

  // ---------------------------------------------------------------------
  // str.splitlines()
  // ---------------------------------------------------------------------

  /** The ASCII line boundaries of str.splitlines(): \n, \v, \f, \r and
      \x1c-\x1e. */
  predicate IsLineBreak(c: char) {
    10 <= c as int <= 13 || 28 <= c as int <= 30
  }

  /** A text with no line boundary in it. */
  predicate Plain(s: string) {
    forall c :: c in s ==> !IsLineBreak(c)
  }

  /** Index of the first line boundary of s, or |s| when there is none. */
  function LineEnd(s: string): (i: nat)
    ensures i <= |s|
    ensures i < |s| ==> IsLineBreak(s[i])
    ensures Plain(s[..i])
  {
    if s == [] || IsLineBreak(s[0]) then 0
    else
      var i := 1 + LineEnd(s[1..]);
      assert s[..i] == [s[0]] + s[1..][..i - 1];
      i
  }

  /** str.splitlines(): the lines of s without their boundaries; "\r\n" is
      a single boundary, and a boundary at the very end opens no line. */
  function SplitLines(s: string): (lines: seq<string>)
    ensures forall l :: l in lines ==> Plain(l)
    ensures s == [] <==> lines == []
    decreases |s|
  {
    if s == [] then []
    else
      var i := LineEnd(s);
      if i == |s| then
        assert s[..i] == s;
        [s]
      else
        var next := if s[i] == '\r' && i + 1 < |s| && s[i + 1] == '\n' then i + 2 else i + 1;
        [s[..i]] + SplitLines(s[next..])
  }

  lemma {:induction false} LineEndConcat(x: string, y: string)
    requires Plain(x)
    ensures LineEnd(x + "\n" + y) == |x|
  {
    if x != [] {
      assert x[0] in x;
      assert (x + "\n" + y)[1..] == x[1..] + "\n" + y;
      LineEndConcat(x[1..], y);
    }
  }

  /** A line followed by a newline is split off the front. */
  lemma SplitLinesCons(x: string, rest: string)
    requires Plain(x)
    ensures SplitLines(x + "\n" + rest) == [x] + SplitLines(rest)
  {
    var s := x + "\n" + rest;
    LineEndConcat(x, rest);
    assert s[..|x|] == x && s[|x|] == '\n' && s[|x| + 1..] == rest;
  }

  /** splitlines() undoes writing lines each followed by a newline, when
      the text ends in a non-empty last line without a newline. */
  lemma {:induction false} SplitLinesTerminated(front: seq<string>, last: string)
    requires forall l :: l in front ==> Plain(l)
    requires last != [] && Plain(last)
    ensures SplitLines(Terminated(front) + last) == front + [last]
  {
    if front == [] {
      assert Terminated(front) + last == last;
      SplitLinesPlain(last);
    } else {
      var rest := Terminated(front[1..]) + last;
      assert front[0] in front;
      assert forall l :: l in front[1..] ==> l in front;
      assert Terminated(front) + last == front[0] + "\n" + rest;
      SplitLinesCons(front[0], rest);
      SplitLinesTerminated(front[1..], last);
      Seqs.ConsSnoc(front, last);
    }
  }

  /** A non-empty text with no line boundary is a single line. */
  lemma SplitLinesPlain(s: string)
    requires s != [] && Plain(s)
    ensures SplitLines(s) == [s]
  {
    assert s[..|s|] == s;
  }

  // ---------------------------------------------------------------------
  // str.strip() of a written file
  // ---------------------------------------------------------------------

  /** Stripping the right of a text whose last non-space character is in
      its second half leaves the first half alone. */
  lemma {:induction false} StripRightAppend(a: string, b: string)
    requires StripRight(b) != []
    ensures StripRight(a + b) == a + StripRight(b)
    decreases |b|
  {
    if b != [] && IsSpace(b[|b| - 1]) {
      assert (a + b)[..|a + b| - 1] == a + b[..|b| - 1];
      StripRightAppend(a, b[..|b| - 1]);
    }
  }

  /** Stripping the right of a text that starts with a non-space character
      keeps a non-empty prefix of it. */
  lemma {:induction false} StripRightPrefix(s: string)
    requires s != [] && !IsSpace(s[0])
    ensures StripRight(s) != [] && StripRight(s) <= s
  {
    if IsSpace(s[|s| - 1]) {
      StripRightPrefix(s[..|s| - 1]);
    }
  }

  lemma PlainPrefix(s: string, p: string)
    requires Plain(s) && p <= s
    ensures Plain(p)
  {
    forall c | c in p ensures !IsLineBreak(c) {
      var j :| 0 <= j < |p| && p[j] == c;
      assert s[j] == c;
    }
  }

  lemma NoSpacePlain(s: string)
    requires NoSpace(s)
    ensures Plain(s)
  {
    forall c | c in s ensures !IsLineBreak(c) {
      var j :| 0 <= j < |s| && s[j] == c;
    }
  }

  lemma {:induction false} JoinPlain(parts: seq<string>)
    requires forall p :: p in parts ==> NoSpace(p)
    ensures Plain(Join(" ", parts))
  {
    if |parts| >= 1 {
      assert parts[0] in parts;
      NoSpacePlain(parts[0]);
    }
    if |parts| > 1 {
      assert forall p :: p in parts[1..] ==> p in parts;
      JoinPlain(parts[1..]);
    }
  }

  // ---------------------------------------------------------------------
  // read_trace_file
  // ---------------------------------------------------------------------

  /** One trace line: every token of line.strip().split() must be an int
      (ValueError); the label and the length are the first two (IndexError
      when missing); the sequence is all the remaining ones. */
  function ParseRecord(line: string): (r: Result<Record>)
    ensures r.Err? ==> r.error == ValueError || r.error == IndexError
    ensures r.Err? && r.error == IndexError ==> |Tokens(line)| < 2
    ensures r.Ok? ==> ParseInts(Tokens(line)) == Ok([r.value.classLabel, r.value.length] + r.value.features)
  {
    TokensStrip(line);
    var parts :- ParseInts(Tokens(Strip(line)));
    if |parts| < 2 then Err(IndexError)
    else
      assert parts == [parts[0], parts[1]] + parts[2..];
      Ok(Cross.Example(parts[0], parts[1], parts[2..]))
  }

  /** The traces of the lines after the header, in order; the first line
      that does not parse decides the error. */
  function RecordsOf(lines: seq<string>): (r: Result<seq<Record>>)
    ensures r.Ok? ==> |r.value| == |lines|
  {
    if lines == [] then Ok([])
    else
      var done :- RecordsOf(lines[..|lines| - 1]);
      var t :- ParseRecord(lines[|lines| - 1]);
      Ok(done + [t])
  }

  /** What read_trace_file returns for a file text: the alphabet size of
      the header (its trace count is not used) and one trace per later
      line. A text that strips to nothing has no header line: IndexError. */
  function ReadText(text: string): (r: Result<(int, seq<Record>)>)
    ensures Strip(text) == [] ==> r == Err(IndexError)
    ensures r.Ok? ==> |r.value.1| + 1 == |SplitLines(Strip(text))|
  {
    var lines := SplitLines(Strip(text));
    if lines == [] then Err(IndexError)
    else
      var header :- Traces.ParseHeader(lines[0]);
      var traces :- RecordsOf(lines[1..]);
      Ok((header.1, traces))
  }

  /** read_trace_file, appending one trace per line. */
  method ReadTraceFile(text: string) returns (r: Result<(int, seq<Record>)>)
    ensures r == ReadText(text)
  {
    var lines := SplitLines(Strip(text));
    if lines == [] {
      return Err(IndexError);
    }
    var header := Traces.ParseHeader(lines[0]);
    if header.Err? {
      return Err(header.error);
    }
    var body := lines[1..];
    var traces := [];
    for i := 0 to |body|
      invariant RecordsOf(body[..i]) == Ok(traces)
    {
      assert body[..i + 1][..i] == body[..i];
      var record := ParseRecord(body[i]);
      if record.Err? {
        RecordsPrefixErr(body, i + 1);
        return Err(record.error);
      }
      traces := traces + [record.value];
    }
    assert body[..|body|] == body;
    r := Ok((header.value.1, traces));
  }

  /** A line that fails makes the whole read fail the same way. */
  lemma {:induction false} RecordsPrefixErr(lines: seq<string>, n: nat)
    requires n <= |lines| && RecordsOf(lines[..n]).Err?
    ensures RecordsOf(lines) == RecordsOf(lines[..n])
    decreases |lines| - n
  {
    if n < |lines| {
      assert lines[..n + 1][..n] == lines[..n];
      RecordsPrefixErr(lines, n + 1);
    } else {
      assert lines[..n] == lines;
    }
  }

  // ---------------------------------------------------------------------
  // write_trace_file
  // ---------------------------------------------------------------------

  /** The text write_trace_file writes: "<count> <alphabet size>", then
      "<label> <length> <symbols...>" per trace, every line ending in a
      newline. */
  function WrittenText(alphabetSize: int, traces: seq<Record>): string {
    Terminated([Traces.TracesHeader(|traces|, alphabetSize)] + Cross.SaveLines(traces))
  }

  /** write_trace_file, writing the header and then line by line. */
  method WriteTraceFile(alphabetSize: int, traces: seq<Record>) returns (out: string)
    ensures out == WrittenText(alphabetSize, traces)
  {
    var header := Traces.TracesHeader(|traces|, alphabetSize);
    out := header + "\n";
    for i := 0 to |traces|
      invariant out == header + "\n" + Terminated(Cross.SaveLines(traces[..i]))
    {
      var t := traces[i];
      var line := Join(" ", IntStrings([t.classLabel, t.length])) + " " + Join(" ", IntStrings(t.features));
      Cross.SaveStep(header + "\n", traces, i);
      out := out + line + "\n";
    }
    assert traces[..|traces|] == traces;
    assert ([header] + Cross.SaveLines(traces))[1..] == Cross.SaveLines(traces);
  }

  /** A written line: it starts with a non-space character, has no line
      boundary, and its tokens are the given ints. */
  predicate WrittenLine(line: string, ints: seq<int>) {
    LineShape(line) && Tokens(line) == IntStrings(ints)
  }

  /** A line that starts with a non-space character and has no line
      boundary. */
  predicate LineShape(line: string) {
    line != [] && !IsSpace(line[0]) && Plain(line)
  }

  /** "<a> <b>" is a written line of a and b. */
  lemma HeadLine(a: int, b: int)
    ensures WrittenLine(Join(" ", IntStrings([a, b])), [a, b])
  {
    HeadStart(a, b);
    IntStringsWords([a, b]);
    JoinPlain(IntStrings([a, b]));
    TokensOfInts([a, b]);
  }

  /** "<a> <b>", a space and the rest's ints joined by spaces is a written
      line of a, b and the rest. */
  lemma HeadMoreLine(a: int, b: int, more: seq<int>)
    ensures WrittenLine(Join(" ", IntStrings([a, b])) + " " + Join(" ", IntStrings(more)), [a, b] + more)
  {
    var head, tail := Join(" ", IntStrings([a, b])), Join(" ", IntStrings(more));
    HeadLine(a, b);
    IntStringsWords(more);
    JoinPlain(IntStrings(more));
    PlainAroundSpace(head, tail);
    TokensAroundSpace(head, ' ', tail);
    TokensOfInts(more);
    IntStringsAppend([a, b], more);
    assert head + " " + tail == head + [' '] + tail;
  }

  lemma PlainAroundSpace(x: string, y: string)
    requires Plain(x) && Plain(y)
    ensures Plain(x + " " + y) && (x + " " + y)[..|x|] == x
  {
    assert forall c :: c in x + " " + y ==> c in x || c == ' ' || c in y;
  }

  /** "<a> <b>" starts with the first character of str(a). */
  lemma HeadStart(a: int, b: int)
    ensures Join(" ", IntStrings([a, b])) != []
    ensures !IsSpace(Join(" ", IntStrings([a, b]))[0])
  {
    var ss := IntStrings([a, b]);
    assert ss == [IntToString(a), IntToString(b)];
    assert ss[1..] == [IntToString(b)];
    assert Join(" ", ss) == IntToString(a) + " " + IntToString(b);
  }

  lemma HeaderLine(count: int, alphabetSize: int)
    ensures WrittenLine(Traces.TracesHeader(count, alphabetSize), [count, alphabetSize])
  {
    HeadLine(count, alphabetSize);
  }

  lemma RecordLine(t: Record)
    ensures WrittenLine(Cross.SaveLine(t), RecordInts(t))
  {
    HeadMoreLine(t.classLabel, t.length, t.features);
  }

  /** Stripping the right of a written line keeps it a written line. */
  lemma StrippedLine(line: string, ints: seq<int>)
    requires WrittenLine(line, ints)
    ensures WrittenLine(StripRight(line), ints)
  {
    StripRightPrefix(line);
    PlainPrefix(line, StripRight(line));
    TokensStripRight(line);
  }

  /** The lines read back from a file of newline-terminated lines, the
      first starting with a non-space character and the last holding one:
      all but the last as written, the last stripped of trailing
      whitespace. */
  lemma ReadWrittenLines(lines: seq<string>)
    requires |lines| >= 1 && lines[0] != [] && !IsSpace(lines[0][0])
    requires StripRight(lines[|lines| - 1]) != [] && Plain(StripRight(lines[|lines| - 1]))
    requires forall l :: l in lines[..|lines| - 1] ==> Plain(l)
    ensures SplitLines(Strip(Terminated(lines))) == lines[..|lines| - 1] + [StripRight(lines[|lines| - 1])]
  {
    StripTerminated(lines);
    SplitLinesTerminated(lines[..|lines| - 1], StripRight(lines[|lines| - 1]));
  }

  /** Lines that start with a non-space character and have no line
      boundary: the first starts with one, the last keeps one after
      stripping, and all are plain. */
  lemma WrittenShape(lines: seq<string>)
    requires |lines| >= 1
    requires forall i :: 0 <= i < |lines| ==> LineShape(lines[i])
    ensures lines[0] != [] && !IsSpace(lines[0][0])
    ensures StripRight(lines[|lines| - 1]) != [] && Plain(StripRight(lines[|lines| - 1]))
    ensures forall l :: l in lines[..|lines| - 1] ==> Plain(l)
  {
    var n := |lines|;
    assert LineShape(lines[0]);
    assert LineShape(lines[n - 1]);
    StripRightPrefix(lines[n - 1]);
    PlainPrefix(lines[n - 1], StripRight(lines[n - 1]));
    forall l | l in lines[..n - 1] ensures Plain(l) {
      var i :| 0 <= i < n - 1 && lines[..n - 1][i] == l;
      assert LineShape(lines[i]);
    }
  }

  /** Stripping the last written line keeps every line written. */
  lemma WrittenStripped(lines: seq<string>, ints: seq<seq<int>>)
    requires |lines| == |ints| >= 1
    requires forall i :: 0 <= i < |lines| ==> WrittenLine(lines[i], ints[i])
    ensures var r := lines[..|lines| - 1] + [StripRight(lines[|lines| - 1])];
      |r| == |lines| && forall i :: 0 <= i < |lines| ==> WrittenLine(r[i], ints[i])
  {
    var n := |lines|;
    var r := lines[..n - 1] + [StripRight(lines[n - 1])];
    forall i | 0 <= i < n ensures WrittenLine(r[i], ints[i]) {
      if i < n - 1 {
        assert r[i] == lines[i];
      } else {
        StrippedLine(lines[n - 1], ints[n - 1]);
      }
    }
  }

  /** strip() of newline-terminated lines, the first starting with a
      non-space character and the last holding one, removes the final
      newline and the last line's trailing whitespace only. */
  lemma StripTerminated(lines: seq<string>)
    requires |lines| >= 1 && lines[0] != [] && !IsSpace(lines[0][0])
    requires StripRight(lines[|lines| - 1]) != []
    ensures Strip(Terminated(lines)) == Terminated(lines[..|lines| - 1]) + StripRight(lines[|lines| - 1])
  {
    StripLeftTerminated(lines);
    StripRightTerminated(lines);
  }

  lemma StripLeftTerminated(lines: seq<string>)
    requires |lines| >= 1 && lines[0] != [] && !IsSpace(lines[0][0])
    ensures StripLeft(Terminated(lines)) == Terminated(lines)
  {
    var text := Terminated(lines);
    assert text == lines[0] + "\n" + Terminated(lines[1..]);
    assert text[0] == lines[0][0];
  }

  lemma StripRightTerminated(lines: seq<string>)
    requires |lines| >= 1
    requires StripRight(lines[|lines| - 1]) != []
    ensures StripRight(Terminated(lines)) == Terminated(lines[..|lines| - 1]) + StripRight(lines[|lines| - 1])
  {
    var n := |lines|;
    var front, last := lines[..n - 1], lines[n - 1];
    Seqs.FrontLast(lines);
    TerminatedSnoc(front, last);
    var tf := Terminated(front);
    assert Terminated(lines) == tf + last + "\n";
    StripNewline(last);
    Assoc(tf, last, "\n");
    StripRightAppend(tf, last + "\n");
  }

  lemma StripNewline(s: string)
    ensures StripRight(s + "\n") == StripRight(s)
  {
    assert (s + "\n")[..|s|] == s;
  }

  /** Every read line of the records parses back to its trace. */
  lemma {:induction false} RecordsAll(lines: seq<string>, traces: seq<Record>)
    requires |lines| == |traces|
    requires forall i :: 0 <= i < |lines| ==> ParseRecord(lines[i]) == Ok(traces[i])
    ensures RecordsOf(lines) == Ok(traces)
  {
    if lines != [] {
      var n := |lines| - 1;
      RecordsAll(lines[..n], traces[..n]);
      Seqs.FrontLast(traces);
    }
  }

  /** The ints a written trace line holds. */
  function RecordInts(t: Record): seq<int> {
    [t.classLabel, t.length] + t.features
  }

  /** The ints of every line write_trace_file writes. */
  function WrittenInts(alphabetSize: int, traces: seq<Record>): (ints: seq<seq<int>>)
    ensures |ints| == |traces| + 1 && ints[0] == [|traces|, alphabetSize]
    ensures forall i :: 1 <= i < |ints| ==> ints[i] == RecordInts(traces[i - 1])
  {
    [[|traces|, alphabetSize]] + seq(|traces|, i requires 0 <= i < |traces| => RecordInts(traces[i]))
  }

  lemma WrittenLines(alphabetSize: int, traces: seq<Record>)
    ensures var lines := [Traces.TracesHeader(|traces|, alphabetSize)] + Cross.SaveLines(traces);
      && (forall i :: 0 <= i < |lines| ==> WrittenLine(lines[i], WrittenInts(alphabetSize, traces)[i]))
      && (forall i :: 0 <= i < |lines| ==> LineShape(lines[i]))
  {
    var lines := [Traces.TracesHeader(|traces|, alphabetSize)] + Cross.SaveLines(traces);
    var ints := WrittenInts(alphabetSize, traces);
    forall i | 0 <= i < |lines| ensures WrittenLine(lines[i], ints[i]) {
      if i == 0 {
        HeaderLine(|traces|, alphabetSize);
      } else {
        RecordLineAt(traces, lines, i);
      }
    }
  }

  lemma RecordLineAt(traces: seq<Record>, lines: seq<string>, i: nat)
    requires |lines| == |traces| + 1 && 1 <= i < |lines|
    requires lines[1..] == Cross.SaveLines(traces)
    ensures WrittenLine(lines[i], RecordInts(traces[i - 1]))
  {
    assert lines[i] == lines[1..][i - 1];
    RecordLine(traces[i - 1]);
  }

  /** A written trace line parses back to its trace. */
  lemma ParseWritten(line: string, t: Record)
    requires WrittenLine(line, RecordInts(t))
    ensures ParseRecord(line) == Ok(t)
  {
    TokensStrip(line);
    IntsRoundTrip(RecordInts(t));
    assert RecordInts(t)[2..] == t.features;
  }

  /** A written header line parses back to its two ints. */
  lemma ParseWrittenHeader(line: string, count: int, alphabetSize: int)
    requires WrittenLine(line, [count, alphabetSize])
    ensures Traces.ParseHeader(line) == Ok((count, alphabetSize))
  {
    IntsRoundTrip([count, alphabetSize]);
  }

  /** read_trace_file(write_trace_file(m, traces)) gives back m and the
      traces in order, for every list of traces: every symbol is an int
      token and the length field is carried as it is. */
  lemma WriteReadRoundTrip(alphabetSize: int, traces: seq<Record>)
    ensures ReadText(WrittenText(alphabetSize, traces)) == Ok((alphabetSize, traces))
  {
    var lines := [Traces.TracesHeader(|traces|, alphabetSize)] + Cross.SaveLines(traces);
    var ints := WrittenInts(alphabetSize, traces);
    WrittenLines(alphabetSize, traces);
    WrittenShape(lines);
    ReadWrittenLines(lines);
    WrittenStripped(lines, ints);
    var read := SplitLines(Strip(WrittenText(alphabetSize, traces)));
    ParseWrittenHeader(read[0], |traces|, alphabetSize);
    ReadRecords(read, ints, traces);
  }

  /** The lines after the header of a written file parse back to the
      traces. */
  lemma ReadRecords(read: seq<string>, ints: seq<seq<int>>, traces: seq<Record>)
    requires |read| == |ints| == |traces| + 1
    requires forall i :: 0 <= i < |read| ==> WrittenLine(read[i], ints[i])
    requires forall i :: 0 <= i < |traces| ==> ints[i + 1] == RecordInts(traces[i])
    ensures RecordsOf(read[1..]) == Ok(traces)
  {
    forall i | 0 <= i < |traces| ensures ParseRecord(read[1..][i]) == Ok(traces[i]) {
      assert WrittenLine(read[i + 1], ints[i + 1]);
      ParseWritten(read[i + 1], traces[i]);
    }
    RecordsAll(read[1..], traces);
  }

  // ---------------------------------------------------------------------
  // process_trace_file
  // ---------------------------------------------------------------------

  /** list(set(traces)): every trace once, in no promised order. */
  method Dedupe(traces: seq<Record>) returns (unique: seq<Record>)
    ensures Random.Distinct(unique)
    ensures forall x :: x in unique <==> x in traces
  {
    unique := [];
    for i := 0 to |traces|
      invariant Random.Distinct(unique)
      invariant forall x :: x in unique <==> x in traces[..i]
    {
      assert traces[..i + 1] == traces[..i] + [traces[i]];
      if traces[i] !in unique {
        unique := unique + [traces[i]];
      }
    }
    assert traces[..|traces|] == traces;
  }

  /** process_trace_file on the input text: the unique traces, shuffled,
      cut at floor(u / 2); the first part and the rest written as two trace
      files with the input's alphabet size. The ghost results name the two
      parts. A failed read is the process's error. */
  method ProcessTraceFile(input: string) returns (r: Result<(string, string)>, ghost split1: seq<Record>, ghost split2: seq<Record>)
    ensures r.Err? <==> ReadText(input).Err?
    ensures r.Err? ==> r.error == ReadText(input).error
    ensures r.Ok? ==> var (m, traces) := ReadText(input).value;
      && r.value == (WrittenText(m, split1), WrittenText(m, split2))
      && ReadText(r.value.0) == Ok((m, split1))
      && ReadText(r.value.1) == Ok((m, split2))
      && Random.Distinct(split1 + split2)
      && (forall x :: x in split1 + split2 <==> x in traces)
      && |split1 + split2| == |set x | x in traces|
      && |split1| == |split1 + split2| / 2
  {
    var read := ReadTraceFile(input);
    if read.Err? {
      return Err(read.error), [], [];
    }
    var (alphabetSize, traces) := read.value;
    var unique := Dedupe(traces);
    var shuffled := Random.Shuffle(unique);
    Random.PermutedDistinct(unique, shuffled);
    var mid := |shuffled| / 2;
    var first, second := shuffled[..mid], shuffled[mid..];
    assert first + second == shuffled;
    Random.DistinctCard(shuffled);
    assert (set x | x in shuffled) == (set x | x in traces);
    var out1 := WriteTraceFile(alphabetSize, first);
    var out2 := WriteTraceFile(alphabetSize, second);
    WriteReadRoundTrip(alphabetSize, first);
    WriteReadRoundTrip(alphabetSize, second);
    split1, split2 := first, second;
    r := Ok((out1, out2));
  }
}
