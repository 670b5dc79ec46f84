# DFASampling in Dafny

A model of the core of DFASampling, a toolkit for experiments in learning
deterministic finite acceptors from labelled traces. The toolkit does four
things, and the model covers each of them:

- **Generating data** (`GeneratorFunctions.py`). It builds a random acceptor:
  - states `-1 .. n-2`, where `-1` is the start state;
  - `int(n * 0.5)` accepting states;
  - a random spanning tree of transitions, so every state is reachable;
  - then a transition for every missing (state, symbol) pair.

  It then collects positive words by random walks and negative words by
  length-perturbed random words, and writes them as a training file of
  `"<count> 2"` followed by one `"<label> <length> <symbols...>"` line per word.
- **Splitting trace files**. `split.py` dedupes a trace file, shuffles it and
  cuts it into two halves. `cross.py` reads and writes the same record format
  for cross-validation folds.
- **Sampling traces** (`newsample.py`):
  - grouping traces by label and their last `k` symbols;
  - choosing `k` by binary search;
  - picking one representative per group plus diverse extras, ranked by
    nearest-neighbour edit distance;
  - the dynamic-`k` and plain random alternatives.
- **Validation** (`validation.py`). An inferred machine is loaded into a nested
  string table with default values. Test traces are run through it, and the
  confusion counts and the balanced classification rate are computed.

Modules:

| module | file | models |
|---|---|---|
| `Wrappers` | wrappers.dfy | Python exceptions as `Result`/`Outcome` values (`KeyError`, `IndexError`, `ValueError`, `ZeroDivisionError`, `AttributeError`, plus `OutOfFuel` for a retry budget) |
| `Seqs` | seqs.dfy | small facts about taking sequences apart |
| `PyText` | pytext.dfy | the Python string operations the formats use: `str.split()`, `str.split(c)`, `strip()`, `readlines()`, `int()`, `str()`, `join`, slicing with negative bounds |
| `Random` | random.dfy | `random.shuffle`, `random.sample`, `random.choice` as nondeterministic choice |
| `Automaton` | automaton.dfy | `Edge`, `Node`, the `DFA` class (`Dfa`, with its node map and edge list updated in place), `simulate`, `generate` |
| `Dataset` | dataset.dfy | the `TrainingData` class: positive and negative word generation, shuffle, split, merge, `__str__` |
| `Validation` | validation.dfy | `load_model`, `traverse`, `calculate_accuracy` over the nested default table (class `Table`) |
| `Cross` | cross.dfy | `load_dataset` and `save_dataset` |
| `TraceSplit` | tracesplit.dfy | `read_trace_file`, `write_trace_file`, `process_trace_file` |
| `Traces`, `Sampling` | newsample.dfy | `read_traces`, `write_traces`, `group_by_suffix`, and the four sampling methods |

### How the source is modelled

- **Randomness.** Every random draw is a `:|` choice over the values the
  library call could return. So every property below holds for every outcome
  of the draws.
- **Retry loops.** The spanning loop of `generate` and the retry loops of
  `generate_positive` and `generate_negatives` have no bound in the source.
  Here they take a `fuel` argument and end with `OutOfFuel` when it is spent.
- **Distances and files.** The Levenshtein distance is a function parameter.
  File contents are strings.

### Behaviour of the source worth knowing

- **Edge removal.** `DFA.__sub__` takes the edge out of the list and then
  passes the target id to `Node.__sub__`, which raises `AttributeError`. The
  source node's symbol map keeps the edge, so the list and the map no longer
  agree (see Findings).
- **Unbounded retries.** The spanning loop of `generate` and the retry loops
  of `generate_positive` and `generate_negatives` have no bound. The fuel
  argument described above stands in for that.
- **No shuffling when serialized.** `TrainingData.__str__` writes the words
  in the order they are held. Only `split_into_training_and_test_data`
  shuffles them.

## Model

| member | source | states |
|---|---|---|
| Automaton.AddToNode | GeneratorFunctions.py:63-65 | the edge is stored under its symbol, replacing any earlier edge for it; every other symbol's edge, the id and the accept flag are unchanged |
| Automaton.RemoveFromNode | GeneratorFunctions.py:68-70 | `KeyError` exactly when the node has no edge for the symbol; otherwise only that symbol's entry is removed |
| Automaton.Accepts | GeneratorFunctions.py:136-146 | simulation fails with `KeyError` exactly when there is no start state `-1`; the empty word is accepted exactly when `-1` accepts |
| Automaton.WalkConcat | GeneratorFunctions.py:140-144 | following `u + v` is following `u` and then `v` from wherever `u` ended |
| Automaton.RejectsAtMissingEdge | GeneratorFunctions.py:141-142 | a word is rejected as soon as a symbol has no transition, whatever follows it |
| Automaton.WalkTotal | GeneratorFunctions.py:182-184 | in a complete acceptor whose targets exist, every word over the alphabet can be followed to the end |
| Automaton.WalkExtends | GeneratorFunctions.py:111-114 | adding transitions never changes where an existing successful walk ends |
| Automaton.ReachableExtends | GeneratorFunctions.py:164-184 | the reachability paths from the spanning loop stay valid while the completion pass adds edges |
| Automaton.ExtendsAccepting | GeneratorFunctions.py:164-184 | adding transitions leaves the set of accepting states unchanged |
| Automaton.SymbolRange | GeneratorFunctions.py:151 | `list(range(k))`: `k` symbols (none when `k <= 0`) and symbol `i` at position `i` |
| Automaton.IdList | GeneratorFunctions.py:155 | `range(-1, n-1)`: `n` ids, id `i - 1` at position `i` |
| Automaton.IdRangeMember | GeneratorFunctions.py:155 | `x` is a created id exactly when `-1 <= x < n - 1` |
| Automaton.Missing | GeneratorFunctions.py:171 | `set(alphabet) - set(edges.keys())`: exactly the symbols of the alphabet with no edge; listed without repetitions when the alphabet has none |
| Automaton.FirstIndex | GeneratorFunctions.py:118 | the position of the first occurrence of `x`, before which `x` does not occur |
| Automaton.RemoveFirst | GeneratorFunctions.py:118 | `list.remove(x)`: one fewer element, and the multiset loses exactly one `x` |
| Automaton.RemoveFirstDistinct | GeneratorFunctions.py:177 | `unvisited_nodes.remove(target)` keeps the list free of repetitions and drops exactly `target` |
| Automaton.RemoveFirstAt | GeneratorFunctions.py:118 | removing `x` keeps the elements before its first occurrence in place and shifts the rest down by one |
| Automaton.AddKeepsAgreement | GeneratorFunctions.py:111-114 | adding an edge for an unused symbol keeps the edge list and the per-node maps holding the same edges |
| Automaton.AddKeepsConsistency | GeneratorFunctions.py:111-114 | adding an edge for an unused symbol keeps all four edge invariants: agreement, keyed by symbol, targets exist, symbols below `k` |
| Automaton.RemoveKeepsAgreement | GeneratorFunctions.py:117-120 | removing an edge from both the list and its node's map keeps the two views in agreement (the evidently intended `__sub__`) |
| Automaton.RemoveEdgeBreaksAgreement | GeneratorFunctions.py:117-120 | removing an edge only from the list, as the code does before it raises, leaves the two views disagreeing |
| Automaton.EdgeCount | GeneratorFunctions.py:182-184 | a complete acceptor whose list agrees with its maps has exactly (number of states) × (alphabet size) edges |
| Automaton.PairsSize | GeneratorFunctions.py:182-184 | the (state, symbol) pairs of a set of states number the states times `k` |
| Automaton.PairsSplit | GeneratorFunctions.py:182-184 | the pairs split into those of one state and those of the rest, with no overlap |
| Automaton.EdgeKeysSize | GeneratorFunctions.py:87 | edges with distinct (source, symbol) keys have as many keys as edges |
| Automaton.DistinctSize | GeneratorFunctions.py:165 | a list without repetitions has as many elements as its set |
| Automaton.NextMissing | GeneratorFunctions.py:183-184 | the next missing symbol is in range and not yet in the map, and adding it extends the covered symbols by one |
| Automaton.MissingComplete | GeneratorFunctions.py:183-184 | once every missing symbol is added, the node has an edge for exactly the symbols `0 .. k-1` |
| Automaton.SpanStep | GeneratorFunctions.py:176-180 | the spanning edge `source -symbol-> target` makes `target` reachable along `source`'s path plus `symbol` |
| Automaton.Dfa.constructor | GeneratorFunctions.py:91-94 | a new acceptor has an empty alphabet, no nodes and no edges, in containers of its own |
| Automaton.Dfa.Get | GeneratorFunctions.py:98-99 | the node stored under the key; `KeyError` exactly when there is none |
| Automaton.Dfa.Set | GeneratorFunctions.py:102-103 | the node map gains or replaces that one entry; alphabet and edges unchanged |
| Automaton.Dfa.Delete | GeneratorFunctions.py:106-107 | the key is gone from the map; `KeyError` exactly when it was absent |
| Automaton.Dfa.AddEdge | GeneratorFunctions.py:111-114 | the edge is appended to the list whatever happens; stored at its source node when that node exists, otherwise `KeyError` with the map unchanged |
| Automaton.Dfa.RemoveEdge | GeneratorFunctions.py:117-120 | as written: `ValueError` if the edge is not in the list; otherwise it leaves the list and the call fails anyway, with `KeyError` for a missing source and `AttributeError` otherwise. The node map never changes |
| Automaton.Dfa.RemoveEdgeFixed | GeneratorFunctions.py:117-120 | as intended: the edge leaves both the list and its node's map, and agreement between them is kept |
| Automaton.Dfa.Simulate | GeneratorFunctions.py:136-146 | the step-by-step loop returns exactly `Accepts` of the node map and the word |
| Automaton.Dfa.Generate | GeneratorFunctions.py:149-186 | alphabet `0 .. k-1`; `ValueError` when `n <= -2`; `IndexError` when a spanning step has no symbols to choose from. On success: states exactly `-1 .. n-2`, `int(n*0.5)` of them accepting, complete over the alphabet, targets exist, list and maps agree, exactly states × symbols edges, every state reachable from `-1` |
| Automaton.Dfa.CreateNodes | GeneratorFunctions.py:152-156 | the node map is exactly the fresh non-accepting nodes `-1 .. n-2` with no edges |
| Automaton.Dfa.MarkAccepting | GeneratorFunctions.py:159-162 | `ValueError` when `n <= -2` (negative sample size); otherwise exactly `int(n*0.5)` states accept, and ids and edges are untouched |
| Automaton.Dfa.SpanningTree | GeneratorFunctions.py:164-180 | only adds edges; `IndexError` exactly when there are unvisited states and an empty alphabet. On success all edge invariants hold and every state has a path from `-1` |
| Automaton.Dfa.CompleteTransitions | GeneratorFunctions.py:182-184 | only adds edges, keeps the edge invariants and makes every state complete over the alphabet |
| Automaton.Dfa.CompleteNode | GeneratorFunctions.py:183-184 | one state becomes complete over the alphabet, other states are unchanged, and the invariants are kept |
| Dataset.SplitPoint | GeneratorFunctions.py:277 | `int(n * 0.8)`: the largest `r` with `5r <= 4n` |
| Dataset.NegativeLength | GeneratorFunctions.py:263-265 | `max(0, len(ref) + int(b - p/2))`: 0 or the reference length plus the truncated perturbation, never below `len(ref) - p // 2` |
| Dataset.Label | GeneratorFunctions.py:307 | `"1"` exactly when the word is accepted, otherwise `"0"` |
| Dataset.Lines | GeneratorFunctions.py:306-312 | one line per word, in order, with its recomputed label |
| Dataset.DatasetText | GeneratorFunctions.py:304-314 | `str(training_data)` fails with `KeyError` exactly when there are words and no start state |
| Dataset.WordLineText | GeneratorFunctions.py:308-312 | a word's line is its label, `" "`, its length, then `" "` and each symbol |
| Dataset.TrainingData.constructor | GeneratorFunctions.py:210-213 | keeps the acceptor and folds, with no words |
| Dataset.TrainingData.GeneratePositive | GeneratorFunctions.py:215-249 | replaces the words with exactly `total_count` words, or fails with `KeyError` exactly when words are wanted and there is no start state. Every word is shorter than 150, and accepted when edges are keyed by symbol |
| Dataset.TrainingData.RandomWalk | GeneratorFunctions.py:221-247 | a walk is shorter than 150, and a kept walk is accepted by the acceptor |
| Dataset.TrainingData.GenerateNegatives | GeneratorFunctions.py:251-273 | appends one word per success and keeps the earlier words. Every new word is rejected, uses only alphabet symbols and has the perturbed length of some earlier positive. Errors: `ValueError` without positives, `IndexError` with an empty alphabet, `KeyError` without a start state |
| Dataset.TrainingData.NegativeWord | GeneratorFunctions.py:256-271 | a returned word is rejected, over the alphabet, and of length `NegativeLength` for valid draws |
| Dataset.TrainingData.RandomWord | GeneratorFunctions.py:267 | `n` symbols from the alphabet; `IndexError` exactly when `n > 0` and the alphabet is empty |
| Dataset.TrainingData.Shuffle | GeneratorFunctions.py:291-292 | the words are permuted |
| Dataset.TrainingData.Split | GeneratorFunctions.py:275-285 | shuffles in place, then returns two fresh sets on the same acceptor with folds 0: the first `int(0.8n)` words and the rest, which together are the shuffled words |
| Dataset.TrainingData.Merge | GeneratorFunctions.py:295-299 | the other set's words are appended in order |
| Dataset.TrainingData.ToText | GeneratorFunctions.py:304-314 | the loop builds exactly `DatasetText` |
| Dataset.AppendSymbols | GeneratorFunctions.py:311-312 | appends `" "` and each symbol |
| Validation.Touch | validation.py:21 | evaluating `dfa[s][k]` leaves both keys present |
| Validation.TouchSameLookups | validation.py:21 | the defaults a lookup inserts are never observable by later lookups |
| Validation.Store | validation.py:24 | after `dfa[s][k] = v`, `dfa[s][k]` holds `v` |
| Validation.StoreGet | validation.py:24 | a store changes the one lookup it writes and no other |
| Validation.NodeType | validation.py:27-46 | `"-1"` without final counts or positive counts; a positive `"0"` count wins over `"1"`; the labels are kept when the machine's first type is `"0"` and flipped otherwise |
| Validation.EdgeTableLast | validation.py:23-24 | after the edge loop, `dfa[s][k]` is the target of the last edge from `s` labelled `k`, and `""` when there is none |
| Validation.NodeTableType | validation.py:32-48 | the type entry of a node is `NodeType` of its last record |
| Validation.NodeTableOther | validation.py:32-48 | the node loop changes no entry other than `"type"` |
| Validation.EdgeTableKeys | validation.py:23-24 | no state of a loaded table is `""`, because ids are written with `str(int)` |
| Validation.EventSymbol | validation.py:67 | `event.split(":")[0]`: the prefix of the event before its first `':'`, or all of it |
| Validation.DeadStateAbsorbs | validation.py:68-71 | the missing state `""` takes every symbol back to itself |
| Validation.MissingTransitionRejects | validation.py:66-83 | a symbol without a transition makes the trace rejected, whatever follows |
| Validation.RunConcat | validation.py:66-73 | running `u + v` is running `u` and then `v` |
| Validation.Samples | validation.py:95-102 | one sample per row after the first |
| Validation.Tally | validation.py:109-129 | the total is the number of samples |
| Validation.TallyAddsUp | validation.py:109-129 | every sample lands in exactly one confusion cell, and the correct count is `tp + tn` |
| Validation.TallyPositives | validation.py:110-129 | `tp + fn` is the number of samples labelled `"1"` |
| Validation.Sensitivity | validation.py:130 | lies in [0, 1]; 0 exactly when there are positives and none is accepted; 1 exactly when no positive is rejected |
| Validation.Specificity | validation.py:131 | lies in [0, 1]; 0 exactly when there are negatives and none is rejected; 1 exactly when no negative is accepted |
| Validation.Bcr | validation.py:132 | `ZeroDivisionError` exactly when both rates are 0; otherwise in [0, 1], and 1 exactly when `fn = fp = 0` |
| Validation.HarmonicMeanBounds | validation.py:132 | the harmonic mean of two rates in [0, 1] is in [0, 1], and 1 only when both are 1 |
| Validation.TrailingNewlineSample | validation.py:95-102 | a test text ending in a newline yields a final empty sample with label `""`, which is counted as a negative |
| Validation.ReadSamples | validation.py:95-102 | the loop builds exactly `Samples` |
| Validation.TraversalSameLookups | validation.py:53-83 | tables with the same lookups give the same verdict for every trace |
| Validation.Table.constructor | validation.py:21 | an empty table |
| Validation.Table.Lookup | validation.py:21 | the value is the lookup in the old table, and the table gains only the defaults |
| Validation.Table.Put | validation.py:24 | the table is `Store` of the old table |
| Validation.Table.FillEdges | validation.py:21-24 | the table is `EdgeTable` of the edges |
| Validation.Table.FillTypes | validation.py:32-48 | the table is `NodeTable` of the old table |
| Validation.Table.LoadModel | validation.py:6-50 | `IndexError` exactly when the type list or the node list is empty; otherwise returns the first node's id, with the edge loop and then the node loop applied |
| Validation.Table.Follow | validation.py:66-73 | the state the events lead to in the old table; lookups are unchanged |
| Validation.Table.Traverse | validation.py:53-83 | the verdict of `Traversal` on the old table; lookups are unchanged |
| Validation.Table.CountSamples | validation.py:104-129 | the counts are `Tally` of the samples |
| Validation.Table.CalculateAccuracy | validation.py:86-133 | the counts of the samples with their rate, or `ZeroDivisionError` exactly when `Bcr` fails; lookups are unchanged |
| Cross.ParseLine | cross.py:13-19 | a line fails only with `ValueError`, when a token is not an integer |
| Cross.ParseLineShape | cross.py:13-19 | a line is skipped exactly when it has fewer than two tokens; otherwise it gives label, length and `tokens[2:2+length]` |
| Cross.LoadLines | cross.py:12-19 | never more examples than lines; the only error is `ValueError` |
| Cross.LoadText | cross.py:7-21 | never more examples than lines read |
| Cross.LoadStepErr | cross.py:13 | a malformed line ends the load with `ValueError` |
| Cross.LoadStepOk | cross.py:12-19 | a well-formed line adds its example, if any, after those already loaded |
| Cross.LoadDataset | cross.py:7-21 | the line loop computes exactly `LoadText` |
| Cross.SaveLines | cross.py:27-29 | one line per example, in order |
| Cross.SaveDataset | cross.py:24-29 | the writes build exactly `SaveText` |
| Cross.SaveLoadRoundTrip | cross.py:7-29 | loading what `save_dataset` wrote gives back every example whose length field counts its features, in order |
| Cross.ReadSaved | cross.py:11 | `readlines()` of the saved text gives the header and each example's line with its newline |
| Cross.SaveLineParse | cross.py:13-19 | a saved line, with its newline, parses back to its example |
| Cross.ParseIntsLine | cross.py:13-19 | a line whose tokens are a label, a length and that many features parses to that example |
| Cross.ParseLineNewline | cross.py:13 | a trailing newline does not change how a line parses |
| Cross.ReadJoined | cross.py:11 | `readlines()` of lines joined by newlines gives each line with its newline, except the last |
| Cross.Labelled | cross.py:13-19 | the example read back for a word is labelled 1 exactly when the word is accepted, with the word as features |
| Cross.LoadDatasetText | cross.py:7-21 | loading `str(training_data)` gives back every word with its recomputed label, in order |
| Cross.DatasetBody | GeneratorFunctions.py:304-314 | the training text reads back as the header and one line per word |
| Cross.WordLineParse | GeneratorFunctions.py:307-312 | a word's line parses to its labelled example |
| Cross.LoadAll | cross.py:12-19 | lines that each parse to an example load as those examples, in order |
| TraceSplit.LineEnd | split.py:7 | the first line boundary of `splitlines()`, with no boundary before it |
| TraceSplit.SplitLines | split.py:7 | `splitlines()`: no line holds a boundary, and there are no lines only for the empty text |
| TraceSplit.SplitLinesCons | split.py:7 | a plain line followed by `"\n"` is split off the front |
| TraceSplit.SplitLinesTerminated | split.py:7 | `splitlines()` undoes writing plain lines each followed by a newline |
| TraceSplit.StripRightAppend | split.py:7 | right-stripping only reaches into the last part when it is all whitespace |
| TraceSplit.ParseRecord | split.py:13-17 | all tokens must be integers (`ValueError`); fewer than two tokens is `IndexError`; otherwise the tokens are the label, the length and the sequence |
| TraceSplit.RecordsOf | split.py:12-17 | one trace per line after the header |
| TraceSplit.ReadText | split.py:5-19 | an all-whitespace text is `IndexError`; otherwise one trace per line after the first |
| TraceSplit.ReadTraceFile | split.py:5-19 | the line loop computes exactly `ReadText` |
| TraceSplit.RecordsPrefixErr | split.py:12-17 | a failing line makes the whole read fail in the same way |
| TraceSplit.WriteTraceFile | split.py:22-27 | the writes build exactly `WrittenText` |
| TraceSplit.StrippedLine | split.py:13 | right-stripping a written line keeps it a written line of the same ints |
| TraceSplit.ReadWrittenLines | split.py:7 | `strip().splitlines()` of a written file gives back its lines, the last one right-stripped |
| TraceSplit.StripTerminated | split.py:7 | `strip()` of newline-terminated lines only strips the last line's right end |
| TraceSplit.ParseWritten | split.py:13-17 | a written trace line parses back to its trace |
| TraceSplit.ParseWrittenHeader | split.py:9 | a written header parses back to the count and the alphabet size |
| TraceSplit.WriteReadRoundTrip | split.py:5-27 | `read_trace_file(write_trace_file(m, traces))` is `(m, traces)` for every list of traces |
| TraceSplit.Dedupe | split.py:34 | `list(set(traces))`: every trace exactly once |
| TraceSplit.ProcessTraceFile | split.py:30-46 | fails exactly when the read fails, with its error. Otherwise it writes two trace files with the input's alphabet size that read back as two parts of `floor(u/2)` and `u - floor(u/2)` traces; together the parts hold every input trace exactly once |
| Traces.ParseHeader | newsample.py:7 | `ValueError` unless the line has exactly two integer tokens |
| Traces.ParseRecord | newsample.py:10-14 | an empty line is `IndexError`; a non-integer label or length is `ValueError`; a parsed record had at least two tokens |
| Traces.Records | newsample.py:9-14 | exactly `n` records, read from the lines after the header |
| Traces.RecordsFail | newsample.py:9-14 | a failing record fails the read with the same error |
| Traces.ReadTraces | newsample.py:5-15 | the record loop computes exactly `TracesOf` |
| Traces.TraceLines | newsample.py:20-21 | one line per trace, in order |
| Traces.WriteTraces | newsample.py:17-21 | the writes build exactly `TracesText` |
| Traces.WriteReadRoundTrip | newsample.py:5-21 | `read_traces(write_traces(traces, m))` is `(traces, m)` when no trace symbol is whitespace |
| Traces.JoinChars | newsample.py:13 | `''.join` of a trace's characters is the trace |
| Traces.TraceLineParse | newsample.py:10-14 | a written trace line reads back as its trace |
| Traces.SuffixKeyShape | newsample.py:26 | the key is the label with `trace[-k:]` for `0 < k <= len`, the whole trace for `k = 0` or `k > len`, and Python's negative-bound slice for `k < 0` |
| Traces.KeyIndex | newsample.py:27 | the first group with the key, or none |
| Traces.Append | newsample.py:27 | after `groups[key].append(t)` the key is present |
| Traces.WithKey | newsample.py:25-27 | the traces with a given key, drawn from the input |
| Traces.GroupedGroups | newsample.py:23-28 | the groups have distinct keys, one for every trace, and each holds exactly the traces with its key in input order |
| Traces.AppendGroups | newsample.py:25-27 | adding a trace keeps the grouping |
| Traces.GroupedCount | newsample.py:23-28 | there are groups exactly when there are traces, and never more groups than traces |
| Traces.GroupBySuffix | newsample.py:23-28 | the loop computes exactly `Grouped` |
| Traces.GroupedCountsKeys | newsample.py:23-28 | the number of groups is the number of distinct suffix keys |
| Traces.NumGroups | newsample.py:61-62 | `num_groups(k)` is the number of distinct suffix keys |
| Sampling.StrBelowTotal | newsample.py:41 | Python string order is total |
| Sampling.BelowAsym | newsample.py:41 | the score order is asymmetric |
| Sampling.BelowTotal | newsample.py:41 | the score order is total |
| Sampling.InsertSorted | newsample.py:41 | inserting into a descending list keeps it descending |
| Sampling.InsertPerm | newsample.py:41 | inserting adds exactly the one score |
| Sampling.InsertItems | newsample.py:41 | inserting adds exactly the one score's trace tuple |
| Sampling.SortDownPerm | newsample.py:41 | sorting permutes the scores |
| Sampling.SortDownItems | newsample.py:41 | sorting permutes the trace tuples with their scores |
| Sampling.SortDownSpec | newsample.py:41 | `sort(reverse=True)` leaves the scores descending and permutes them and their trace tuples |
| Sampling.MinOf | newsample.py:36-39 | `min`: an element no larger than any other |
| Sampling.Nearest | newsample.py:36-39 | the distance from trace `i` to some other trace, and no larger than its distance to any other trace |
| Sampling.NearestOthers | newsample.py:36-39 | `min` over the other traces is that nearest distance |
| Sampling.Scores | newsample.py:34-40 | each tuple is paired with its nearest distance, in order |
| Sampling.SampleDiverse | newsample.py:30-42 | the input when it fits. `ValueError` exactly for one tuple and `num_samples < 1`, where `min` has no other trace. Otherwise `num_samples` of the tuples: the leading tuples of a descending ordering of the (nearest distance, tuple) scores |
| Sampling.TopItems | newsample.py:42 | a leading slice of the scores holds a sub-multiset of their tuples |
| Sampling.DynamicKSampling | newsample.py:44-55 | `ZeroDivisionError` exactly when there are no traces and samples are wanted; otherwise exactly `max(0, target)` traces, all from the input |
| Sampling.MaxHalf | newsample.py:58 | `max(int(len/2))` over the traces: attained, and no smaller than any trace's half |
| Sampling.Midpoint | newsample.py:65 | `(low + high) // 2` lies between the bounds and halves the interval |
| Sampling.Search | newsample.py:64-70 | the `k` found is at least 1, at most `high` unless it is 1; `k - 1` gives at most the target number of groups, and `k` or `k + 1` gives more unless `k` reached `high` |
| Sampling.SearchStep | newsample.py:65-69 | one halving keeps the search invariants and shrinks the interval |
| Sampling.BinarySearchK | newsample.py:57-70 | `ValueError` exactly for no traces (`max` of nothing). Otherwise `k` is at least 1 and at most `max(int(len/2))` unless it is 1; `k - 1` gives at most the target number of groups; and `k` is the upper bound or `k` or `k + 1` gives more groups than the target |
| Sampling.Without | newsample.py:96 | exactly the members not already sampled |
| Sampling.PermutedKeys | newsample.py:81-82 | shuffling the groups keeps their keys distinct |
| Sampling.GroupMembers | newsample.py:84 | a group is never empty, so `random.choice` cannot fail, and holds traces with its key |
| Sampling.PickRepresentatives | newsample.py:81-87 | one input trace per group, no two with the same key |
| Sampling.RepKeysDistinct | newsample.py:81-87 | one representative per group, in the groups' order, gives pairwise different suffix keys |
| Sampling.PickExtras | newsample.py:90-99 | the extras are exactly `extra[:remaining]` of the diverse picks (up to five non-representatives) of every group with more than one member, in the dict's order. So there are at most `remaining` of them, all from the input and none a representative |
| Sampling.SampleWithBinarySearch | newsample.py:73-101 | `ValueError` exactly for no traces. Otherwise `k` meets the binary search's guarantees, and the result is the representatives (one per distinct key) followed by the extras, cut to `target_samples`, all from the input. The extras are the groups' diverse picks cut to the number still missing, and none when nothing is missing |
| Sampling.RandomSampling | newsample.py:104-105 | `min(len, target)` traces at distinct positions; `ValueError` exactly when the target is negative |
| Random.Shuffle | split.py:37 | a permutation |
| Random.Sample | newsample.py:51 | `k` elements at distinct positions; `ValueError` exactly when `k < 0` or `k > len` |
| Random.Choice | GeneratorFunctions.py:167-169 | an element of the list; `IndexError` exactly when it is empty |
| Random.PermutedDistinct | split.py:34-37 | shuffling a list without repetitions keeps it without repetitions, with the same elements |
| Random.DistinctCard | split.py:34 | a list without repetitions has as many elements as its set |
| PyText.WordEnd | cross.py:13 | the end of the first whitespace-free run |
| PyText.Tokens | cross.py:13 | `str.split()`: non-empty tokens without whitespace |
| PyText.TokensOfJoin | cross.py:28 | `split()` undoes `' '.join` of non-empty whitespace-free parts |
| PyText.TokensStrip | cross.py:13 | `line.strip().split()` equals `line.split()` |
| PyText.TokensAroundSpace | cross.py:13 | a whitespace character separates tokens completely |
| PyText.IndexOf | validation.py:66 | the first occurrence of the separator |
| PyText.SplitOn | validation.py:95 | `str.split(c)` is never empty |
| PyText.SplitOnParts | validation.py:66 | no part of a split holds the separator |
| PyText.SplitOfJoin | validation.py:102 | `split(c)` undoes `c.join` of parts without `c` |
| PyText.ReadLinesCons | cross.py:11 | `readlines()` cuts after the first newline |
| PyText.ReadLinesReturn | cross.py:11 | in text mode a lone carriage return ends a line and reads as a newline |
| PyText.ReadLinesReturnNewline | newsample.py:7-10 | in text mode a carriage return and newline end one line and read as one newline |
| PyText.LineEnd | cross.py:11 | the first line break, a newline or a carriage return |
| PyText.ReadTerminated | cross.py:11 | `readlines()` of newline-terminated lines gives each line with its newline |
| PyText.PySlice | newsample.py:26 | slicing with negative or out-of-range bounds, as Python does |
| PyText.ParseInt | cross.py:13 | `int(token)`: `ValueError` or the value; digit strings give their value |
| PyText.ParseIntAccepts | cross.py:13 | `int(token)` succeeds exactly for an optional sign followed by digits that single underscores may group |
| PyText.UnderscoreSeparator | newsample.py:11-12 | one underscore between digits is ignored: `int("1_0") == int("10")` |
| PyText.ParseNegative | cross.py:13 | a minus sign before digits negates their value |
| PyText.SliceFront | newsample.py:99 | `s[:n]` holds at most `n` elements, all from `s` |
| PyText.ParseInts | cross.py:13 | `map(int, tokens)`: one int per token or `ValueError` |
| PyText.IntStrings | cross.py:28 | `map(str, xs)`: one text per int |
| PyText.IntRoundTrip | cross.py:13 | `int(str(i)) == i` |
| PyText.IntsRoundTrip | cross.py:13 | `map(int, map(str, xs)) == xs` |
| PyText.DigitsRoundTrip | cross.py:13 | the digits of `n` read back as `n` |
| PyText.IntStringsAppend | cross.py:28 | `map(str, xs + ys)` is `map(str, xs)` followed by `map(str, ys)` |
| PyText.JoinPrefixed | GeneratorFunctions.py:309-312 | a join is its first part followed by the separator and each later part |
| PyText.PrefixedSnoc | GeneratorFunctions.py:311-312 | writing one more part appends the separator and that part |
| PyText.TerminatedSnoc | cross.py:28-29 | writing one more line appends it and a newline |

## Left out

- Probabilities are not modelled. Every random draw may take any value the library call could return: the acceptance coin `1/(1+2·outdegree)`, the Poisson and binomial draws, and the uniform choices. Distribution properties are not stated.
- Floating point is left out. `int(n * 0.5)`, `int(n * 0.8)` and `n/2` are modelled exactly as truncations. The balanced classification rate is computed over exact reals.
- File I/O, `open`, `json` and command-line handling are left out: `save_to_file`, `DFA.load_from_file`, `evaluate_and_log`, `main` and `run_sampling` in each script. File contents are strings; a parsed machine is a `Machine` value.
- The regular expression in `load_model` that repairs labels split across lines is left out, because regular expressions are outside the model.
- `TestingData` is left out: it is declared with `def` instead of `class`, so its methods can never be called.
- `pvalue.py` and the `KFold` split in `cross.py` are left out, because they rely on external libraries.
- The `str` and `repr` methods of `Edge`, `Node` and `DFA` are left out, because they are only used for display.
- Shared mutable defaults are not modelled: `DFA()` shares its default containers between instances. `Dfa.constructor` gives every acceptor containers of its own.
- Aliasing between the node values in a `DFA` and other references to them is not modelled. `Node` is a value stored in the map.
- Automaton.Dfa.Generate: the spanning loop stops with `OutOfFuel` after `fuel` attempts, because the source retries without a bound.
- Dataset.TrainingData.GeneratePositive: retries end with `OutOfFuel`, because the source retries without a bound.
- Dataset.TrainingData.GenerateNegatives: retries end with `OutOfFuel`, because the source retries without a bound.
- `TrainingData(dfa=None)` is not modelled, so the `AttributeError` it would cause is not either: the class always holds an acceptor.
- Dataset.TrainingData.Merge: requires the other set to be a different object, because `tr + tr` never terminates in the source (the list grows while it is being iterated).
- Iteration order of `set` and `dict` is not modelled. `list(set(...))` order and the symbol order in `generate` are left open: any order is allowed.
- TraceSplit.Dedupe: states that every trace appears exactly once, not the order `list(set(...))` produces.
- `splitlines()` is modelled only on the ASCII boundaries `\n`, `\r`, `\r\n`, `\v`, `\f` and `\x1c`-`\x1e`; `\x85`, U+2028 and U+2029 are not modelled. Likewise `str.isspace()` and `int()` are modelled on the ASCII range: Unicode digits and spaces are not.
- The Levenshtein distance is not defined: it is a function parameter, and every property holds for any distance function.
- `Node.__sub__` raising `AttributeError` is modelled only as the outcome of `Dfa.RemoveEdge`, not as a separate operation on integers.
- Automaton.Dfa.RemoveEdge: edges compare by value here. `Edge` has no `__eq__`, so the source's `list.remove` matches the very same object only, and removing a freshly built equal edge raises `ValueError` there. `Dfa.RemoveEdgeFixed` and `RemoveFirst` share this simplification.
- Text files are read as text mode does on every platform: `\n`, `\r\n` and a lone `\r` end a line and read as `\n`. Other `newline=` settings of `open()` are not modelled.

## Findings

| source | as written | input that shows it | evidently intended | confidence | as-written member | corrected member |
|---|---|---|---|---|---|---|
| GeneratorFunctions.py:117-120 | `DFA.__sub__` removes the edge from the list, then calls `Node.__sub__` with `other.target`, an int; `int.symbol` raises `AttributeError` | any edge object present in the list, e.g. `e = Edge(-1, 0, 0); dfa += e; dfa -= e`: the list loses it, the node map keeps it, and the call raises | remove the edge from the list and from its source node's symbol map, keeping both views in agreement | high (not executed) | Automaton.Dfa.RemoveEdge, Automaton.RemoveEdgeBreaksAgreement | Automaton.Dfa.RemoveEdgeFixed, Automaton.RemoveKeepsAgreement |
