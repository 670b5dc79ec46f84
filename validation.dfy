/** validation.py: an inferred machine loaded into a string-keyed table with
    default-value lookups, the traversal of a space-separated trace through
    that table, and the confusion counts over a test file. */
module Validation {
  import opened Wrappers
  import opened PyText
  import Seqs

  // ---------------------------------------------------------------------
  // The nested defaultdict
  // ---------------------------------------------------------------------

  /** defaultdict(lambda: defaultdict(str)): state -> symbol -> target, with
      the node type stored under the key "type". */
  type Rows = map<string, map<string, string>>

  /** What dfa[s][k] evaluates to: the stored string, or "" when either key
      is missing. */
  function Get(rows: Rows, s: string, k: string): string {
    if s in rows && k in rows[s] then rows[s][k] else ""
  }

  /** The table after evaluating dfa[s][k]: both levels insert their default
      on a miss, and no lookup changes. */
  function Touch(rows: Rows, s: string, k: string): (r: Rows)
    ensures s in r && k in r[s]
  {
    var inner := if s in rows then rows[s] else map[];
    rows[s := if k in inner then inner else inner[k := ""]]
  }

  /** Same lookups: what no sequence of lookups can tell apart. */
  ghost predicate SameLookups(rows1: Rows, rows2: Rows) {
    forall s, k :: Get(rows1, s, k) == Get(rows2, s, k)
  }

  lemma TouchSameLookups(rows: Rows, s: string, k: string)
    ensures SameLookups(Touch(rows, s, k), rows)
  {
  }

  /** The table after dfa[s][k] = v. */
  function Store(rows: Rows, s: string, k: string, v: string): (r: Rows)
    ensures s in r && k in r[s] && r[s][k] == v
  {
    var inner := if s in rows then rows[s] else map[];
    rows[s := inner[k := v]]
  }

  /** A store changes the one lookup it writes and no other. */
  lemma StoreGet(rows: Rows, s: string, k: string, v: string, s2: string, k2: string)
    ensures Get(Store(rows, s, k, v), s2, k2) == if s2 == s && k2 == k then v else Get(rows, s2, k2)
  {
  }

  // ---------------------------------------------------------------------
  // The machine file and the node types
  // ---------------------------------------------------------------------

  datatype MachineEdge = MachineEdge(source: int, symbol: string, target: int)
  /** A node record; finalCounts is None when the record has no final_counts. */
  datatype MachineNode = MachineNode(id: int, finalCounts: Option<map<string, int>>)
  datatype Machine = Machine(edges: seq<MachineEdge>, nodes: seq<MachineNode>, types: seq<string>)

  /** The node type of load_model: "-1" without final counts; a positive
      count for "0" decides first, then a positive count for "1"; the
      labels are swapped unless the first machine type is "0". */
  function NodeType(finalCounts: Option<map<string, int>>, acceptingIsOne: bool): (t: string)
    ensures finalCounts.None? ==> t == "-1"
    ensures finalCounts.Some? && "0" in finalCounts.value && finalCounts.value["0"] > 0 ==>
      t == if acceptingIsOne then "0" else "1"
    ensures (finalCounts.Some? && !("0" in finalCounts.value && finalCounts.value["0"] > 0)
             && "1" in finalCounts.value && finalCounts.value["1"] > 0) ==>
      t == if acceptingIsOne then "1" else "0"
    ensures t == "-1" <==> (finalCounts.None?
      || (!("0" in finalCounts.value && finalCounts.value["0"] > 0)
          && !("1" in finalCounts.value && finalCounts.value["1"] > 0)))
  {
    if finalCounts.None? then "-1"
    else if "0" in finalCounts.value && finalCounts.value["0"] > 0 then
      (if acceptingIsOne then "0" else "1")
    else if "1" in finalCounts.value && finalCounts.value["1"] > 0 then
      (if acceptingIsOne then "1" else "0")
    else "-1"
  }

  /** The table after the edge loop of load_model. */
  function EdgeTable(edges: seq<MachineEdge>): Rows {
    if edges == [] then map[]
    else
      var e := edges[|edges| - 1];
      Store(EdgeTable(edges[..|edges| - 1]), IntToString(e.source), e.symbol, IntToString(e.target))
  }

  /** The table after the node loop of load_model, starting from rows. */
  function NodeTable(rows: Rows, nodes: seq<MachineNode>, acceptingIsOne: bool): Rows {
    if nodes == [] then rows
    else
      var n := nodes[|nodes| - 1];
      Store(NodeTable(rows, nodes[..|nodes| - 1], acceptingIsOne), IntToString(n.id), "type",
            NodeType(n.finalCounts, acceptingIsOne))
  }

  /** The target of the last edge from s labelled k, "" when there is none. */
  function LastTarget(edges: seq<MachineEdge>, s: string, k: string): string {
    if edges == [] then ""
    else
      var e := edges[|edges| - 1];
      if IntToString(e.source) == s && e.symbol == k then IntToString(e.target)
      else LastTarget(edges[..|edges| - 1], s, k)
  }

  /** The edge loop keeps, for each source and label, the last edge's target. */
  lemma {:induction false} EdgeTableLast(edges: seq<MachineEdge>, s: string, k: string)
    ensures Get(EdgeTable(edges), s, k) == LastTarget(edges, s, k)
  {
    if edges != [] {
      var e := edges[|edges| - 1];
      EdgeTableLast(edges[..|edges| - 1], s, k);
      StoreGet(EdgeTable(edges[..|edges| - 1]), IntToString(e.source), e.symbol, IntToString(e.target), s, k);
    }
  }

  /** The node loop writes only the "type" entries: the type of the last
      record with a given id. */
  lemma {:induction false} NodeTableType(rows: Rows, nodes: seq<MachineNode>, acceptingIsOne: bool, i: nat)
    requires i < |nodes|
    requires forall j :: i < j < |nodes| ==> nodes[j].id != nodes[i].id
    ensures Get(NodeTable(rows, nodes, acceptingIsOne), IntToString(nodes[i].id), "type")
      == NodeType(nodes[i].finalCounts, acceptingIsOne)
  {
    var last := |nodes| - 1;
    var prefix := nodes[..last];
    NodeTableLast(rows, nodes, acceptingIsOne, IntToString(nodes[i].id), "type");
    if i < last {
      assert prefix[i] == nodes[i];
      assert forall j :: i < j < |prefix| ==> prefix[j] == nodes[j];
      NodeTableType(rows, prefix, acceptingIsOne, i);
      IntInjective(nodes[last].id, nodes[i].id);
    }
  }

  /** One step of the node loop, as a lookup. */
  lemma NodeTableLast(rows: Rows, nodes: seq<MachineNode>, acceptingIsOne: bool, s: string, k: string)
    requires nodes != []
    ensures var n := nodes[|nodes| - 1];
      Get(NodeTable(rows, nodes, acceptingIsOne), s, k)
      == if s == IntToString(n.id) && k == "type" then NodeType(n.finalCounts, acceptingIsOne)
         else Get(NodeTable(rows, nodes[..|nodes| - 1], acceptingIsOne), s, k)
  {
    var n := nodes[|nodes| - 1];
    StoreGet(NodeTable(rows, nodes[..|nodes| - 1], acceptingIsOne), IntToString(n.id), "type",
             NodeType(n.finalCounts, acceptingIsOne), s, k);
  }

  lemma {:induction false} NodeTableOther(rows: Rows, nodes: seq<MachineNode>, acceptingIsOne: bool, s: string, k: string)
    requires k != "type"
    ensures Get(NodeTable(rows, nodes, acceptingIsOne), s, k) == Get(rows, s, k)
  {
    if nodes != [] {
      NodeTableOther(rows, nodes[..|nodes| - 1], acceptingIsOne, s, k);
      NodeTableLast(rows, nodes, acceptingIsOne, s, k);
    }
  }

  lemma IntInjective(a: int, b: int)
    requires a != b
    ensures IntToString(a) != IntToString(b)
  {
    IntRoundTrip(a);
    IntRoundTrip(b);
  }

  /** No key of a loaded table is "": every id is written as an int. */
  lemma {:induction false} EdgeTableKeys(edges: seq<MachineEdge>)
    ensures "" !in EdgeTable(edges)
  {
    if edges != [] {
      EdgeTableKeys(edges[..|edges| - 1]);
    }
  }

  lemma {:induction false} NodeTableKeys(rows: Rows, nodes: seq<MachineNode>, acceptingIsOne: bool)
    requires "" !in rows
    ensures "" !in NodeTable(rows, nodes, acceptingIsOne)
  {
    if nodes != [] {
      NodeTableKeys(rows, nodes[..|nodes| - 1], acceptingIsOne);
    }
  }

  // ---------------------------------------------------------------------
  // traverse
  // ---------------------------------------------------------------------

  /** event.split(":")[0]: the text of an event before its first ':'. */
  function EventSymbol(event: string): (sym: string)
    ensures |sym| <= |event|
    ensures ':' !in sym && sym == event[..|sym|]
    ensures |sym| < |event| ==> event[|sym|] == ':'
    ensures ':' !in event ==> sym == event
  {
    var i := IndexOf(event, ':');
    assert SplitOn(event, ':')[0] == event[..i];
    SplitOn(event, ':')[0]
  }

  function Symbols(events: seq<string>): (syms: seq<string>)
    ensures |syms| == |events|
    ensures forall i :: 0 <= i < |events| ==> syms[i] == EventSymbol(events[i])
  {
    seq(|events|, i requires 0 <= i < |events| => EventSymbol(events[i]))
  }

  /** The state reached from state by the given symbols. */
  function Run(rows: Rows, state: string, syms: seq<string>): string
    decreases |syms|
  {
    if syms == [] then state else Run(rows, Get(rows, state, syms[0]), syms[1..])
  }

  /** traverse(start, dfa, sequence): whether the state the sequence leads
      to has type "1"; the empty sequence asks the start state itself. */
  function Traversal(rows: Rows, start: int, sequence: string): bool {
    var state := IntToString(start);
    if |sequence| == 0 then Get(rows, state, "type") == "1"
    else Get(rows, Run(rows, state, Symbols(SplitOn(sequence, ' '))), "type") == "1"
  }

  /** The missing state "" takes every symbol back to itself. */
  lemma {:induction false} DeadStateAbsorbs(rows: Rows, syms: seq<string>)
    requires "" !in rows
    ensures Run(rows, "", syms) == ""
  {
    if syms != [] {
      DeadStateAbsorbs(rows, syms[1..]);
    }
  }

  /** A symbol without a transition rejects the trace, whatever follows. */
  lemma MissingTransitionRejects(rows: Rows, start: int, sequence: string, i: nat)
    requires "" !in rows && |sequence| > 0
    requires var syms := Symbols(SplitOn(sequence, ' '));
      i < |syms| && Get(rows, Run(rows, IntToString(start), syms[..i]), syms[i]) == ""
    ensures !Traversal(rows, start, sequence)
  {
    var syms := Symbols(SplitOn(sequence, ' '));
    RunConcat(rows, IntToString(start), syms[..i], syms[i..]);
    Seqs.TakeDrop(syms, i);
    DeadStateAbsorbs(rows, syms[i + 1..]);
  }

  lemma {:induction false} RunConcat(rows: Rows, state: string, u: seq<string>, v: seq<string>)
    ensures Run(rows, state, u + v) == Run(rows, Run(rows, state, u), v)
    decreases |u|
  {
    if u == [] {
      assert u + v == v;
    } else {
      assert (u + v)[1..] == u[1..] + v;
      RunConcat(rows, Get(rows, state, u[0]), u[1..], v);
    }
  }

  // ---------------------------------------------------------------------
  // calculate_accuracy
  // ---------------------------------------------------------------------

  /** The confusion counts, the number of correct predictions and the number
      of samples. */
  datatype Counts = Counts(tp: nat, tn: nat, fp: nat, fn: nat, correct: nat, total: nat)

  /** A test row "<label> <length> <events...>" as (events joined by spaces,
      label). */
  function Sample(row: string): (s: (string, string)) {
    var path := SplitOn(row, ' ');
    (Join(" ", PySlice(path, 2, |path|)), path[0])
  }

  /** The samples of a test file: every row after the first. */
  function Samples(text: string): (ss: seq<(string, string)>)
    ensures |ss| == |SplitOn(text, '\n')| - 1
  {
    var rows := SplitOn(text, '\n');
    seq(|rows| - 1, i requires 0 <= i < |rows| - 1 => Sample(rows[i + 1]))
  }

  /** The counts after the given samples. */
  function Tally(rows: Rows, start: int, samples: seq<(string, string)>): (c: Counts)
    ensures c.total == |samples|
  {
    if samples == [] then Counts(0, 0, 0, 0, 0, 0)
    else
      var c := Tally(rows, start, samples[..|samples| - 1]);
      var s := samples[|samples| - 1];
      Count(c, Traversal(rows, start, s.0), s.1 == "1")
  }

  /** One prediction added to the counts. */
  function Count(c: Counts, accepted: bool, positive: bool): Counts {
    Counts(
      c.tp + (if accepted && positive then 1 else 0),
      c.tn + (if !accepted && !positive then 1 else 0),
      c.fp + (if accepted && !positive then 1 else 0),
      c.fn + (if !accepted && positive then 1 else 0),
      c.correct + (if accepted == positive then 1 else 0),
      c.total + 1)
  }

  /** Every sample lands in exactly one cell, and the correct predictions
      are the true positives and true negatives. */
  lemma {:induction false} TallyAddsUp(rows: Rows, start: int, samples: seq<(string, string)>)
    ensures var c := Tally(rows, start, samples);
      c.tp + c.tn + c.fp + c.fn == |samples| && c.correct == c.tp + c.tn
  {
    if samples != [] {
      TallyAddsUp(rows, start, samples[..|samples| - 1]);
    }
  }

  /** The labels of the samples, in order. */
  function Labels(samples: seq<(string, string)>): (ls: seq<string>)
    ensures |ls| == |samples|
    ensures forall i :: 0 <= i < |samples| ==> ls[i] == samples[i].1
  {
    seq(|samples|, i requires 0 <= i < |samples| => samples[i].1)
  }

  /** The positives (true positives and false negatives) are exactly the
      samples labelled "1". */
  lemma {:induction false} TallyPositives(rows: Rows, start: int, samples: seq<(string, string)>)
    ensures var c := Tally(rows, start, samples);
      c.tp + c.fn == multiset(Labels(samples))["1"]
  {
    if samples != [] {
      var n := |samples| - 1;
      TallyPositives(rows, start, samples[..n]);
      assert Labels(samples) == Labels(samples[..n]) + [samples[n].1];
    }
  }

  /** The sensitivity of calculate_accuracy over the reals: 1 when no
      sample is positive. */
  function Sensitivity(c: Counts): (r: real)
    ensures 0.0 <= r <= 1.0
    ensures r == 0.0 <==> c.tp == 0 && c.fn > 0
    ensures r == 1.0 <==> c.fn == 0
  {
    if c.tp + c.fn > 0 then c.tp as real / (c.tp + c.fn) as real else 1.0
  }

  /** The specificity over the reals: 1 when no sample is negative. */
  function Specificity(c: Counts): (r: real)
    ensures 0.0 <= r <= 1.0
    ensures r == 0.0 <==> c.tn == 0 && c.fp > 0
    ensures r == 1.0 <==> c.fp == 0
  {
    if c.tn + c.fp > 0 then c.tn as real / (c.tn + c.fp) as real else 1.0
  }

  /** The balanced classification rate, the harmonic mean of sensitivity
      and specificity: a ZeroDivisionError when both are 0, that is when
      every sample of both classes is misclassified. */
  function Bcr(c: Counts): (r: Result<real>)
    ensures r.Err? <==> c.tp == 0 && c.fn > 0 && c.tn == 0 && c.fp > 0
    ensures r.Err? ==> r.error == ZeroDivisionError
    ensures r.Ok? ==> 0.0 <= r.value <= 1.0
    ensures r.Ok? ==> (r.value == 1.0 <==> c.fn == 0 && c.fp == 0)
  {
    var se, sp := Sensitivity(c), Specificity(c);
    if se + sp == 0.0 then Err(ZeroDivisionError)
    else
      var b := 2.0 * se * sp / (se + sp);
      HarmonicMeanBounds(se, sp);
      Ok(b)
  }

  /** The harmonic mean of two numbers in [0, 1] lies in [0, 1], and is 1
      exactly when both are. */
  lemma HarmonicMeanBounds(x: real, y: real)
    requires 0.0 <= x <= 1.0 && 0.0 <= y <= 1.0 && x + y > 0.0
    ensures 0.0 <= 2.0 * x * y / (x + y) <= 1.0
    ensures 2.0 * x * y / (x + y) == 1.0 <==> x == 1.0 && y == 1.0
  {
    var m := 2.0 * x * y / (x + y);
    assert m * (x + y) == 2.0 * x * y;
    assert x * y <= x by { assert x * (1.0 - y) >= 0.0; }
    assert x * y <= y by { assert y * (1.0 - x) >= 0.0; }
    assert x * y >= 0.0;
    // x + y - 2xy == x(1 - y) + y(1 - x), a sum of two non-negative terms
    if m == 1.0 {
      assert x * (1.0 - y) + y * (1.0 - x) == 0.0;
      assert x * (1.0 - y) >= 0.0 && y * (1.0 - x) >= 0.0;
      assert x * (1.0 - y) == 0.0 && y * (1.0 - x) == 0.0;
    }
  }

  /** A file ending in a newline has a last sample that is the empty trace
      with an empty label: a negative sample. */
  lemma TrailingNewlineSample(text: string)
    ensures var ss := Samples(text + "\n");
      |ss| >= 1 && ss[|ss| - 1] == ("", "")
  {
    var rows := SplitOn(text + "\n", '\n');
    TrailingSplit(text, '\n');
    assert rows[|rows| - 1] == "";
    assert SplitOn("", ' ') == [""];
    assert PySlice([""], 2, 1) == [];
    assert Sample("") == ("", "");
  }

  /** Splitting a text that ends in the separator gives a last empty part. */
  lemma TrailingSplit(s: string, c: char)
    ensures var parts := SplitOn(s + [c], c);
      |parts| >= 2 && parts[|parts| - 1] == []
  {
    EndingSplit(s + [c], c);
  }

  /** A text ending in the separator splits into at least two parts, the
      last of them empty. */
  lemma {:induction false} EndingSplit(t: string, c: char)
    requires t != [] && t[|t| - 1] == c
    ensures var parts := SplitOn(t, c);
      |parts| >= 2 && parts[|parts| - 1] == []
    decreases |t|
  {
    var i := FirstSeparator(t, c);
    if i == |t| - 1 {
      EndingOnly(t, c);
    } else {
      var rest := t[i + 1..];
      EndingSplit(rest, c);
      Seqs.ConsLast(t[..i], SplitOn(rest, c));
    }
  }

  /** The first separator of a text ending in one; the split is the part
      before it and the split of the rest. */
  lemma FirstSeparator(t: string, c: char) returns (i: nat)
    requires t != [] && t[|t| - 1] == c
    ensures i == IndexOf(t, c) && i < |t|
    ensures SplitOn(t, c) == [t[..i]] + SplitOn(t[i + 1..], c)
    ensures i < |t| - 1 ==> t[i + 1..] != [] && t[i + 1..][|t[i + 1..]| - 1] == c
  {
    assert t[|t| - 1] in t;
    i := IndexOf(t, c);
    SplitOnAt(t, c);
    if i < |t| - 1 {
      assert t[i + 1..][|t| - i - 2] == t[|t| - 1];
    }
  }

  /** A text whose only separator ends it splits into it and "". */
  lemma EndingOnly(t: string, c: char)
    requires t != [] && IndexOf(t, c) == |t| - 1
    ensures SplitOn(t, c) == [t[..|t| - 1], []]
  {
    assert t[|t|..] == [];
  }

  lemma SplitOnAt(t: string, c: char)
    requires IndexOf(t, c) < |t|
    ensures var i := IndexOf(t, c);
      SplitOn(t, c) == [t[..i]] + SplitOn(t[i + 1..], c)
  {
  }

  // ---------------------------------------------------------------------
  // The table object
  // ---------------------------------------------------------------------

  /** What calculate_accuracy returns: the counts and the balanced
      classification rate. */
  datatype Report = Report(counts: Counts, bcr: real)

  /** The sample list of calculate_accuracy: every row after the first,
      split on spaces. */
  method ReadSamples(testTraces: string) returns (samples: seq<(string, string)>)
    ensures samples == Samples(testTraces)
  {
    var lines := SplitOn(testTraces, '\n');
    samples := [];
    for i := 0 to |lines|
      invariant |samples| == if i == 0 then 0 else i - 1
      invariant forall j :: 0 <= j < |samples| ==> samples[j] == Sample(lines[j + 1])
    {
      if i == 0 {
        continue;
      }
      var path := SplitOn(lines[i], ' ');
      samples := samples + [(Join(" ", PySlice(path, 2, |path|)), path[0])];
    }
  }

  lemma SameLookupsTrans(rows1: Rows, rows2: Rows, rows3: Rows)
    requires SameLookups(rows1, rows2) && SameLookups(rows2, rows3)
    ensures SameLookups(rows1, rows3)
  {
  }

  class Table {
    var rows: Rows

    /** defaultdict(lambda: defaultdict(str)) */
    constructor ()
      ensures rows == map[]
    {
      rows := map[];
    }

    /** dfa[s][k] as an expression: never a KeyError; inserts the defaults. */
    method Lookup(s: string, k: string) returns (v: string)
      modifies this
      ensures v == Get(old(rows), s, k)
      ensures rows == Touch(old(rows), s, k)
    {
      if s !in rows {
        rows := rows[s := map[]];
      }
      if k !in rows[s] {
        rows := rows[s := rows[s][k := ""]];
      }
      v := rows[s][k];
    }

    /** dfa[s][k] = v */
    method Put(s: string, k: string, v: string)
      modifies this
      ensures rows == Store(old(rows), s, k, v)
    {
      var inner := if s in rows then rows[s] else map[];
      rows := rows[s := inner[k := v]];
    }

    /** A fresh table filled by the edge loop of load_model. */
    method FillEdges(edges: seq<MachineEdge>)
      modifies this
      ensures rows == EdgeTable(edges)
    {
      rows := map[];
      for i := 0 to |edges|
        invariant rows == EdgeTable(edges[..i])
      {
        var e := edges[i];
        assert edges[..i + 1][..i] == edges[..i];
        Put(IntToString(e.source), e.symbol, IntToString(e.target));
      }
      assert edges[..|edges|] == edges;
    }

    /** The node loop of load_model. */
    method FillTypes(nodes: seq<MachineNode>, acceptingIsOne: bool)
      modifies this
      ensures rows == NodeTable(old(rows), nodes, acceptingIsOne)
    {
      for i := 0 to |nodes|
        invariant rows == NodeTable(old(rows), nodes[..i], acceptingIsOne)
      {
        var n := nodes[i];
        assert nodes[..i + 1][..i] == nodes[..i];
        Put(IntToString(n.id), "type", NodeType(n.finalCounts, acceptingIsOne));
      }
      assert nodes[..|nodes|] == nodes;
    }

    /** load_model on an already parsed machine: a fresh table filled by the
        edge loop and then the node loop; the first node's id is the start.
        An empty types or nodes list is an IndexError. */
    method LoadModel(m: Machine) returns (r: Result<int>)
      modifies this
      ensures r.Err? <==> m.types == [] || m.nodes == []
      ensures r.Err? ==> r.error == IndexError
      ensures r.Ok? ==> r.value == m.nodes[0].id
      ensures r.Ok? ==> rows == NodeTable(EdgeTable(m.edges), m.nodes, m.types[0] == "0")
    {
      FillEdges(m.edges);
      if |m.types| == 0 {
        return Err(IndexError);
      }
      FillTypes(m.nodes, m.types[0] == "0");
      if |m.nodes| == 0 {
        return Err(IndexError);
      }
      r := Ok(m.nodes[0].id);
    }

    /** The event loop of traverse: the state the events lead to. */
    method Follow(start: string, events: seq<string>) returns (state: string)
      modifies this
      ensures state == Run(old(rows), start, Symbols(events))
      ensures SameLookups(rows, old(rows))
    {
      state := start;
      ghost var syms := Symbols(events);
      for i := 0 to |events|
        invariant SameLookups(rows, old(rows))
        invariant Run(old(rows), start, syms) == Run(old(rows), state, syms[i..])
      {
        var sym := SplitOn(events[i], ':')[0];
        assert syms[i..][0] == sym && syms[i..][1..] == syms[i + 1..];
        ghost var before := rows;
        state := Lookup(state, sym);
        TouchSameLookups(before, state, sym);
        SameLookupsTrans(rows, before, old(rows));
      }
      assert syms[|events|..] == [];
    }

    /** traverse(start, dfa, sequence), with the lookups' insertions. */
    method Traverse(start: int, sequence: string) returns (accepted: bool)
      modifies this
      ensures accepted == Traversal(old(rows), start, sequence)
      ensures SameLookups(rows, old(rows))
    {
      var state := IntToString(start);
      if |sequence| > 0 {
        state := Follow(state, SplitOn(sequence, ' '));
      }
      ghost var before := rows;
      var t := Lookup(state, "type");
      TouchSameLookups(before, state, "type");
      SameLookupsTrans(rows, before, old(rows));
      accepted := t == "1";
    }

    /** The counting loop of calculate_accuracy. */
    method CountSamples(samples: seq<(string, string)>, start: int) returns (c: Counts)
      modifies this
      ensures c == Tally(old(rows), start, samples)
      ensures SameLookups(rows, old(rows))
    {
      c := Counts(0, 0, 0, 0, 0, 0);
      for i := 0 to |samples|
        invariant SameLookups(rows, old(rows))
        invariant c == Tally(old(rows), start, samples[..i])
      {
        var isPositive := samples[i].1 == "1";
        ghost var before := rows;
        var isAccepted := Traverse(start, samples[i].0);
        TraversalSameLookups(old(rows), before, start, samples[i].0);
        SameLookupsTrans(rows, before, old(rows));
        assert samples[..i + 1][..i] == samples[..i];
        c := Count(c, isAccepted, isPositive);
      }
      assert samples[..|samples|] == samples;
    }

    /** calculate_accuracy(test_traces, start, dfa). */
    method CalculateAccuracy(testTraces: string, start: int) returns (r: Result<Report>)
      modifies this
      ensures var c := Tally(old(rows), start, Samples(testTraces));
        r == if Bcr(c).Err? then Err(ZeroDivisionError) else Ok(Report(c, Bcr(c).value))
      ensures SameLookups(rows, old(rows))
    {
      var samples := ReadSamples(testTraces);
      var c := CountSamples(samples, start);
      var b := Bcr(c);
      if b.Err? {
        return Err(ZeroDivisionError);
      }
      r := Ok(Report(c, b.value));
    }
  }

  /** Tables with the same lookups traverse alike. */
  lemma TraversalSameLookups(rows1: Rows, rows2: Rows, start: int, sequence: string)
    requires SameLookups(rows1, rows2)
    ensures Traversal(rows1, start, sequence) == Traversal(rows2, start, sequence)
  {
    if |sequence| > 0 {
      RunSameLookups(rows1, rows2, IntToString(start), Symbols(SplitOn(sequence, ' ')));
    }
  }

  lemma {:induction false} RunSameLookups(rows1: Rows, rows2: Rows, state: string, syms: seq<string>)
    requires SameLookups(rows1, rows2)
    ensures Run(rows1, state, syms) == Run(rows2, state, syms)
    decreases |syms|
  {
    if syms != [] {
      RunSameLookups(rows1, rows2, Get(rows1, state, syms[0]), syms[1..]);
    }
  }
}
