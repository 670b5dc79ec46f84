/** The record format of cross.py: load_dataset and save_dataset over the
    text "<count> 2", then "<label> <length> <features...>" per line. */
module Cross {
  import opened Wrappers
  import opened PyText
  import opened Automaton
  import opened Dataset

  datatype Example = Example(classLabel: int, length: int, features: seq<int>)

  /** One line of load_dataset: every token must parse as an int (otherwise
      ValueError); a line with fewer than two tokens is skipped (None); the
      features are tokens[2:2+length]. */
  function ParseLine(line: string): (r: Result<Option<Example>>)
    ensures r.Err? ==> r.error == ValueError
  {
    var tokens :- ParseInts(Tokens(Strip(line)));
    if |tokens| < 2 then Ok(None)
    else
      var length := tokens[1];
      Ok(Some(Example(tokens[0], length, PySlice(tokens, 2, 2 + length))))
  }

  /** load_dataset skips exactly the lines with fewer than two tokens, and
      keeps min(length, tokens - 2) features of the others. */
  lemma ParseLineShape(line: string)
    requires ParseLine(line).Ok?
    ensures var tokens := ParseInts(Tokens(Strip(line))).value;
      && (ParseLine(line).value.None? <==> |tokens| < 2)
      && (ParseLine(line).value.Some? ==>
            var e := ParseLine(line).value.value;
            e.classLabel == tokens[0] && e.length == tokens[1]
            && e.features == PySlice(tokens, 2, 2 + e.length)
            && (e.length >= 0 ==> |e.features| == Min(e.length, |tokens| - 2)))
  {
    var tokens := ParseInts(Tokens(Strip(line))).value;
    if |tokens| >= 2 && tokens[1] >= 0 {
      FeatureCount(tokens, tokens[1]);
    }
  }

  /** tokens[2:2+length] holds min(length, tokens - 2) features. */
  lemma FeatureCount(tokens: seq<int>, length: int)
    requires |tokens| >= 2 && length >= 0
    ensures |PySlice(tokens, 2, 2 + length)| == Min(length, |tokens| - 2)
  {
    assert PySlice(tokens, 2, 2 + length) == tokens[2..Min(2 + length, |tokens|)];
  }

  function Min(a: int, b: int): int {
    if a < b then a else b
  }

  /** The examples of the given lines, in order; the first malformed line
      makes the whole load a ValueError. */
  function LoadLines(lines: seq<string>): (r: Result<seq<Example>>)
    ensures r.Ok? ==> |r.value| <= |lines|
    ensures r.Err? ==> r.error == ValueError
  {
    if lines == [] then Ok([])
    else
      var first :- ParseLine(lines[0]);
      var rest :- LoadLines(lines[1..]);
      Ok((if first.Some? then [first.value] else []) + rest)
  }

  /** load_dataset on the file's text: the first line is skipped. */
  function LoadText(text: string): (r: Result<seq<Example>>)
    ensures r.Ok? ==> |r.value| <= |ReadLines(text)|
  {
    var lines := ReadLines(text);
    LoadLines(PySlice(lines, 1, |lines|))
  }

  /** load_dataset, one line at a time as the source loops. */
  method LoadDataset(text: string) returns (r: Result<seq<Example>>)
    ensures r == LoadText(text)
  {
    var lines := ReadLines(text);
    var body := PySlice(lines, 1, |lines|);
    var examples := [];
    assert body[0..] == body;
    if LoadLines(body).Ok? {
      assert [] + LoadLines(body).value == LoadLines(body).value;
    }
    for i := 0 to |body|
      invariant LoadLines(body) == After(examples, LoadLines(body[i..]))
    {
      assert body[i..][0] == body[i] && body[i..][1..] == body[i + 1..];
      var parsed := ParseInts(Tokens(Strip(body[i])));
      if parsed.Err? {
        LoadStepErr(body[i..]);
        return Err(ValueError);
      }
      LoadStepOk(body[i..], examples);
      var tokens := parsed.value;
      if |tokens| < 2 {
        assert examples + [] == examples;
        continue;
      }
      var length := tokens[1];
      examples := examples + [Example(tokens[0], length, PySlice(tokens, 2, 2 + length))];
    }
    assert body[|body|..] == [] && examples + [] == examples;
    r := Ok(examples);
  }

  /** The example a parsed line contributes: none for a skipped line. */
  function Found(line: Option<Example>): (es: seq<Example>)
    ensures |es| <= 1
  {
    if line.Some? then [line.value] else []
  }

  /** A malformed next line ends the load with a ValueError. */
  lemma LoadStepErr(lines: seq<string>)
    requires lines != [] && ParseLine(lines[0]).Err?
    ensures LoadLines(lines) == Err(ValueError)
  {
  }

  /** A well-formed next line adds its example, if any, to those already
      loaded. */
  lemma LoadStepOk(lines: seq<string>, done: seq<Example>)
    requires lines != [] && ParseLine(lines[0]).Ok?
    ensures After(done, LoadLines(lines)) == After(done + Found(ParseLine(lines[0]).value), LoadLines(lines[1..]))
  {
    var head := Found(ParseLine(lines[0]).value);
    var rest := LoadLines(lines[1..]);
    assert LoadLines(lines) == After(head, rest);
    if rest.Ok? {
      assert done + (head + rest.value) == done + head + rest.value;
    }
  }

  /** The examples loaded so far, followed by whatever the rest yields. */
  function After(done: seq<Example>, rest: Result<seq<Example>>): Result<seq<Example>> {
    if rest.Ok? then Ok(done + rest.value) else rest
  }

  // ---------------------------------------------------------------------
  // save_dataset
  // ---------------------------------------------------------------------

  /** f"{label} {length} " followed by the features joined by spaces. */
  function SaveLine(e: Example): string {
    Join(" ", IntStrings([e.classLabel, e.length])) + " " + Join(" ", IntStrings(e.features))
  }

  function SaveLines(examples: seq<Example>): (ls: seq<string>)
    ensures |ls| == |examples|
    ensures forall i :: 0 <= i < |examples| ==> ls[i] == SaveLine(examples[i])
  {
    seq(|examples|, i requires 0 <= i < |examples| => SaveLine(examples[i]))
  }

  /** The text save_dataset writes: the header "<count> 2" and one line per
      example, each ending in a newline. */
  function SaveText(examples: seq<Example>): string {
    Terminated([Header(|examples|)] + SaveLines(examples))
  }

  /** save_dataset, writing the header and then line by line. */
  method SaveDataset(examples: seq<Example>) returns (out: string)
    ensures out == SaveText(examples)
  {
    out := Header(|examples|) + "\n";
    for i := 0 to |examples|
      invariant out == Header(|examples|) + "\n" + Terminated(SaveLines(examples[..i]))
    {
      var e := examples[i];
      var line := Join(" ", IntStrings([e.classLabel, e.length])) + " " + Join(" ", IntStrings(e.features));
      SaveStep(Header(|examples|) + "\n", examples, i);
      out := out + line + "\n";
    }
    assert examples[..|examples|] == examples;
    assert ([Header(|examples|)] + SaveLines(examples))[1..] == SaveLines(examples);
  }

  /** One step of save_dataset: writing the next example's line extends
      the text of the examples written so far. */
  lemma SaveStep(h: string, examples: seq<Example>, i: nat)
    requires i < |examples|
    ensures h + Terminated(SaveLines(examples[..i])) + SaveLine(examples[i]) + "\n"
         == h + Terminated(SaveLines(examples[..i + 1]))
  {
    var before := Terminated(SaveLines(examples[..i]));
    var line := SaveLine(examples[i]);
    TerminatedSnoc(SaveLines(examples[..i]), line);
    SaveLinesSnoc(examples, i);
    Assoc(h, before + line, "\n");
    Assoc(h, before, line);
  }

  lemma SaveLinesSnoc(examples: seq<Example>, i: nat)
    requires i < |examples|
    ensures SaveLines(examples[..i + 1]) == SaveLines(examples[..i]) + [SaveLine(examples[i])]
  {
    var a, b := SaveLines(examples[..i + 1]), SaveLines(examples[..i]) + [SaveLine(examples[i])];
    assert |a| == |b|;
    forall k | 0 <= k < |a| ensures a[k] == b[k] {
      if k < i {
        assert examples[..i + 1][k] == examples[..i][k];
      }
    }
  }

  // ---------------------------------------------------------------------
  // Round trips
  // ---------------------------------------------------------------------

  /** readlines() of lines joined by newlines: each line, all but the last
      keeping a newline. */
  lemma {:induction false} ReadJoined(lines: seq<string>)
    requires |lines| >= 1
    requires forall l :: l in lines ==> l != [] && '\n' !in l && '\r' !in l
    ensures ReadLines(Join("\n", lines)) == NewlineEnded(lines)
  {
    assert lines[0] in lines;
    if |lines| > 1 {
      var rest := Join("\n", lines[1..]);
      assert Join("\n", lines) == lines[0] + "\n" + rest;
      assert forall l :: l in lines[1..] ==> l in lines;
      ReadLinesCons(lines[0], rest);
      ReadJoined(lines[1..]);
    }
  }

  /** The lines, each followed by a newline except the last. */
  function NewlineEnded(lines: seq<string>): (r: seq<string>)
    requires |lines| >= 1
    ensures |r| == |lines|
  {
    if |lines| == 1 then [lines[0]] else [lines[0] + "\n"] + NewlineEnded(lines[1..])
  }

  lemma {:induction false} NewlineEndedAt(lines: seq<string>)
    requires |lines| >= 1
    ensures |NewlineEnded(lines)| == |lines|
    ensures forall i :: 0 <= i < |lines| - 1 ==> NewlineEnded(lines)[i] == lines[i] + "\n"
    ensures NewlineEnded(lines)[|lines| - 1] == lines[|lines| - 1]
  {
    if |lines| > 1 {
      NewlineEndedAt(lines[1..]);
      var r, tail := NewlineEnded(lines), lines[1..];
      forall i | 1 <= i < |lines| ensures r[i] == NewlineEnded(tail)[i - 1] && tail[i - 1] == lines[i] {
      }
    }
  }

  /** A line of ints written with single spaces, whose second int counts
      the ints after it, parses back to that example. */
  lemma ParseIntsLine(line: string, lab: int, features: seq<int>)
    requires Tokens(line) == IntStrings([lab, |features|] + features)
    ensures ParseLine(line) == Ok(Some(Example(lab, |features|, features)))
  {
    TokensStrip(line);
    IntsRoundTrip([lab, |features|] + features);
    CountedFeatures(lab, features);
  }

  lemma CountedFeatures(lab: int, features: seq<int>)
    ensures PySlice([lab, |features|] + features, 2, 2 + |features|) == features
  {
    assert ([lab, |features|] + features)[2..2 + |features|] == features;
  }

  /** A trailing newline does not change how a line parses. */
  lemma ParseLineNewline(line: string)
    ensures ParseLine(line + "\n") == ParseLine(line)
  {
    StripNewlineTokens(line);
  }

  lemma StripNewlineTokens(line: string)
    ensures Tokens(Strip(line + "\n")) == Tokens(Strip(line))
  {
    TokensStrip(line + "\n");
    TokensStrip(line);
    TokensTrailingSpace(line, '\n');
  }

  lemma SaveLineTokens(e: Example)
    ensures Tokens(SaveLine(e)) == IntStrings([e.classLabel, e.length] + e.features)
  {
    var head := [e.classLabel, e.length];
    TokensAroundSpace(Join(" ", IntStrings(head)), ' ', Join(" ", IntStrings(e.features)));
    TokensOfInts(head);
    TokensOfInts(e.features);
    IntStringsAppend(head, e.features);
  }

  /** Every example whose length field counts its features comes back from
      save_dataset followed by load_dataset unchanged. */
  lemma SaveLoadRoundTrip(examples: seq<Example>)
    requires forall i :: 0 <= i < |examples| ==> examples[i].length == |examples[i].features|
    ensures LoadText(SaveText(examples)) == Ok(examples)
  {
    var read := ReadLines(SaveText(examples));
    ReadSaved(examples);
    var body := PySlice(read, 1, |read|);
    forall i | 0 <= i < |examples| ensures ParseLine(body[i]) == Ok(Some(examples[i])) {
      assert body[i] == read[i + 1];
      SaveLineParse(examples[i]);
    }
    LoadAll(body, examples);
  }

  /** The lines read back from save_dataset's text: the header and each
      example's line, every one with its newline. */
  lemma ReadSaved(examples: seq<Example>)
    ensures |ReadLines(SaveText(examples))| == |examples| + 1
    ensures forall i :: 0 <= i < |examples| ==> ReadLines(SaveText(examples))[i + 1] == SaveLine(examples[i]) + "\n"
  {
    var lines := [Header(|examples|)] + SaveLines(examples);
    SavedLinesPlain(examples);
    ReadTerminated(lines);
    var r := ReadLines(SaveText(examples));
    forall i | 0 <= i < |examples| ensures r[i + 1] == SaveLine(examples[i]) + "\n" {
      assert lines[i + 1] == SaveLine(examples[i]);
    }
  }

  lemma SavedLinesPlain(examples: seq<Example>)
    ensures forall l :: l in [Header(|examples|)] + SaveLines(examples) ==> '\n' !in l && '\r' !in l
  {
    var lines := [Header(|examples|)] + SaveLines(examples);
    forall l | l in lines ensures '\n' !in l && '\r' !in l {
      var i :| 0 <= i < |lines| && lines[i] == l;
      if i > 0 {
        var e := examples[i - 1];
        assert l == SaveLine(e);
        IntStringsWords([e.classLabel, e.length]);
        IntStringsWords(e.features);
        JoinNoNewline(IntStrings([e.classLabel, e.length]));
        JoinNoNewline(IntStrings(e.features));
      } else {
        JoinNoNewline([IntToString(|examples|), "2"]);
      }
    }
  }

  /** One saved line, with its newline, parses back to its example. */
  lemma SaveLineParse(e: Example)
    requires e.length == |e.features|
    ensures ParseLine(SaveLine(e) + "\n") == Ok(Some(e))
  {
    ParseLineNewline(SaveLine(e));
    SaveLineTokens(e);
    ParseIntsLine(SaveLine(e), e.classLabel, e.features);
  }

  /** The example load_dataset reads back for a word of str(training_data):
      label 1 exactly when simulate accepts it, and its true length. */
  function Labelled(nodes: map<int, Node>, w: seq<int>): (e: Example)
    ensures e.classLabel == 1 <==> Accepts(nodes, w) == Ok(true)
    ensures e.length == |e.features| && e.features == w
  {
    Example(if Accepts(nodes, w) == Ok(true) then 1 else 0, |w|, w)
  }

  /** Loading the text of a training set gives back each word with the
      label simulate assigns it and its length. */
  lemma LoadDatasetText(nodes: map<int, Node>, words: seq<seq<int>>)
    requires DatasetText(nodes, words).Ok?
    ensures LoadText(DatasetText(nodes, words).value) ==
      Ok(seq(|words|, i requires 0 <= i < |words| => Labelled(nodes, words[i])))
  {
    var read := ReadLines(DatasetText(nodes, words).value);
    var examples := seq(|words|, i requires 0 <= i < |words| => Labelled(nodes, words[i]));
    DatasetBody(nodes, words);
    var body := PySlice(read, 1, |read|);
    forall i | 0 <= i < |body| ensures ParseLine(body[i]) == Ok(Some(examples[i])) {
      assert body[i] == read[i + 1];
    }
    LoadAll(body, examples);
  }

  /** Every line after the header of a training set's text loads as its
      labelled word. */
  lemma DatasetBody(nodes: map<int, Node>, words: seq<seq<int>>)
    requires DatasetText(nodes, words).Ok?
    ensures |ReadLines(DatasetText(nodes, words).value)| == |words| + 1
    ensures forall i :: 0 <= i < |words| ==>
      ParseLine(ReadLines(DatasetText(nodes, words).value)[i + 1]) == Ok(Some(Labelled(nodes, words[i])))
  {
    var lines := [Header(|words|)] + Lines(nodes, words);
    assert DatasetText(nodes, words).value == Join("\n", lines);
    DatasetLinesPlain(nodes, words);
    ReadJoined(lines);
    NewlineEndedAt(lines);
    forall i | 0 <= i < |words| ensures ParseLine(NewlineEnded(lines)[i + 1]) == Ok(Some(Labelled(nodes, words[i]))) {
      DatasetLineAt(nodes, words, lines, i);
    }
  }

  lemma DatasetLineAt(nodes: map<int, Node>, words: seq<seq<int>>, lines: seq<string>, i: nat)
    requires lines == [Header(|words|)] + Lines(nodes, words) && i < |words|
    ensures ParseLine(NewlineEnded(lines)[i + 1]) == Ok(Some(Labelled(nodes, words[i])))
  {
    var w := words[i];
    var line := WordLine(Label(nodes, w), w);
    assert lines[i + 1] == line;
    NewlineEndedLine(lines, i + 1);
    WordLineRead(nodes, w, NewlineEnded(lines)[i + 1]);
  }

  lemma NewlineEndedLine(lines: seq<string>, j: nat)
    requires j < |lines|
    ensures NewlineEnded(lines)[j] == lines[j] + "\n" || NewlineEnded(lines)[j] == lines[j]
  {
    NewlineEndedAt(lines);
  }

  /** Every line of a training set's text is non-empty and has no newline. */
  lemma DatasetLinesPlain(nodes: map<int, Node>, words: seq<seq<int>>)
    ensures forall l :: l in [Header(|words|)] + Lines(nodes, words) ==> l != [] && '\n' !in l && '\r' !in l
  {
    var lines := [Header(|words|)] + Lines(nodes, words);
    forall l | l in lines ensures l != [] && '\n' !in l && '\r' !in l {
      var i :| 0 <= i < |lines| && lines[i] == l;
      if i > 0 {
        var w := words[i - 1];
        assert l == WordLine(Label(nodes, w), w);
        WordLineParts(Label(nodes, w), w);
        WordLineNonEmpty(Label(nodes, w), w);
        JoinNoNewline([Label(nodes, w)] + ([IntToString(|w|)] + IntStrings(w)));
      } else {
        JoinNoNewline([IntToString(|words|), "2"]);
      }
    }
  }

  /** A word's line, with or without its newline, loads as the labelled
      word. */
  lemma WordLineRead(nodes: map<int, Node>, w: seq<int>, line: string)
    requires line == WordLine(Label(nodes, w), w) + "\n" || line == WordLine(Label(nodes, w), w)
    ensures ParseLine(line) == Ok(Some(Labelled(nodes, w)))
  {
    ParseLineNewline(WordLine(Label(nodes, w), w));
    WordLineParse(nodes, w);
  }

  lemma WordLineParts(mark: string, w: seq<int>)
    requires mark == "1" || mark == "0"
    ensures forall p :: p in [mark] + ([IntToString(|w|)] + IntStrings(w)) ==> p != [] && NoSpace(p)
  {
    var n := IntToString(|w|);
    IntStringsWords(w);
    forall p | p in [mark] + ([n] + IntStrings(w)) ensures p == mark || p == n || p in IntStrings(w) {
    }
  }

  lemma WordLineNonEmpty(mark: string, w: seq<int>)
    requires mark == "1" || mark == "0"
    ensures WordLine(mark, w) != []
  {
    var parts := [mark] + ([IntToString(|w|)] + IntStrings(w));
    JoinStarts(" ", parts);
  }

  lemma WordLineParse(nodes: map<int, Node>, w: seq<int>)
    ensures ParseLine(WordLine(Label(nodes, w), w)) == Ok(Some(Labelled(nodes, w)))
  {
    var lab := if Accepts(nodes, w) == Ok(true) then 1 else 0;
    assert Label(nodes, w) == IntToString(lab);
    WordLineTokens(lab, w);
    ParseIntsLine(WordLine(IntToString(lab), w), lab, w);
  }

  /** The tokens of a word's line are its label, its length and its
      symbols, as written ints. */
  lemma WordLineTokens(lab: int, w: seq<int>)
    requires lab == 0 || lab == 1
    ensures Tokens(WordLine(IntToString(lab), w)) == IntStrings([lab, |w|] + w)
  {
    var parts := [IntToString(lab)] + ([IntToString(|w|)] + IntStrings(w));
    var head := IntStrings([lab, |w|]);
    assert head == [IntToString(lab), IntToString(|w|)];
    IntStringsAppend([lab, |w|], w);
    assert parts == head + IntStrings(w);
    IntStringsWords([lab, |w|] + w);
    TokensOfJoin(parts);
  }

  lemma {:induction false} LoadAll(body: seq<string>, examples: seq<Example>)
    requires |body| == |examples|
    requires forall i :: 0 <= i < |body| ==> ParseLine(body[i]) == Ok(Some(examples[i]))
    ensures LoadLines(body) == Ok(examples)
  {
    if body != [] {
      LoadAll(body[1..], examples[1..]);
      assert [examples[0]] + examples[1..] == examples;
    }
  }
}
