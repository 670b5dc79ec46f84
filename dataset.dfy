/** TrainingData (GeneratorFunctions.py): an ordered list of words over a
    generated acceptor, with the positive random walk, the negative
    rejection sampler, the 80/20 split, merging and the text serialiser. */
module Dataset {
  import opened Wrappers
  import opened Automaton
  import opened PyText
  import Random

  /** generate_positive gives up on a walk once it would reach this length. */
  const MaxWordSize := 150

  /** int(n * 0.8): the size of the training half of a split. */
  function SplitPoint(n: nat): (r: nat)
    ensures r <= n
    ensures 5 * r <= 4 * n < 5 * r + 5
  {
    4 * n / 5
  }

  /** The draws behind one appended negative word: the Poisson draw, the
      binomial draw and the index of the positive word it is sized after. */
  datatype Draw = Draw(poisson: nat, binomial: nat, reference: nat)
  {
    predicate Valid(positiveCount: nat) {
      poisson >= 1 && binomial <= poisson && reference < positiveCount
    }
  }

  /** max(0, len(ref) + int(b - p/2)): the length of a negative word. */
  function NegativeLength(refLength: nat, d: Draw): (r: nat)
    ensures r == 0 || r == refLength + TruncHalf(2 * d.binomial - d.poisson)
    ensures d.binomial <= d.poisson ==> r <= refLength + d.poisson / 2
    ensures refLength - d.poisson / 2 <= r
  {
    var n := refLength + TruncHalf(2 * d.binomial - d.poisson);
    if n < 0 then 0 else n
  }

  // ---------------------------------------------------------------------
  // The text of __str__
  // ---------------------------------------------------------------------

  /** The label simulate gives a word: "1" when it is accepted. */
  function Label(nodes: map<int, Node>, w: seq<int>): (r: string)
    ensures r == "1" <==> Accepts(nodes, w) == Ok(true)
    ensures r == "1" || r == "0"
  {
    if Accepts(nodes, w) == Ok(true) then "1" else "0"
  }

  /** "<label> <length> <s1> ... <sn>" */
  function WordLine(mark: string, w: seq<int>): string {
    Join(" ", [mark] + ([IntToString(|w|)] + IntStrings(w)))
  }

  /** "<count> 2": the alphabet field is always 2. */
  function Header(count: int): string {
    Join(" ", [IntToString(count), "2"])
  }

  function Lines(nodes: map<int, Node>, words: seq<seq<int>>): (ls: seq<string>)
    ensures |ls| == |words|
    ensures forall i :: 0 <= i < |words| ==> ls[i] == WordLine(Label(nodes, words[i]), words[i])
  {
    seq(|words|, i requires 0 <= i < |words| => WordLine(Label(nodes, words[i]), words[i]))
  }

  /** str(training_data): the header and one line per word, separated by
      newlines; simulate raises KeyError on the first word when there is no
      start node. */
  function DatasetText(nodes: map<int, Node>, words: seq<seq<int>>): (r: Result<string>)
    ensures r.Err? <==> words != [] && -1 !in nodes
    ensures r.Err? ==> r.error == KeyError
  {
    if words != [] && -1 !in nodes then Err(KeyError)
    else Ok(Join("\n", [Header(|words|)] + Lines(nodes, words)))
  }

  /** A word line is the mark, then " " and each field after it. */
  lemma WordLineText(mark: string, w: seq<int>)
    ensures WordLine(mark, w) == mark + " " + IntToString(|w|) + Prefixed(" ", IntStrings(w))
  {
    var n := IntToString(|w|);
    var syms := IntStrings(w);
    var fields := [n] + syms;
    JoinPrefixed(" ", mark, fields);
    assert fields[0] == n && fields[1..] == syms;
    Assoc(mark, " " + n, Prefixed(" ", syms));
    Assoc(mark, " ", n);
  }

  lemma LinesSnoc(nodes: map<int, Node>, words: seq<seq<int>>, i: nat)
    requires i < |words|
    ensures Lines(nodes, words[..i + 1]) == Lines(nodes, words[..i]) + [WordLine(Label(nodes, words[i]), words[i])]
  {
  }

  class TrainingData {
    var dfa: Dfa
    var folds: int
    var words: seq<seq<int>>

    /** TrainingData(dfa, folds): no words yet. */
    constructor (dfa: Dfa, folds: int)
      ensures this.dfa == dfa && this.folds == folds && words == []
    {
      this.dfa := dfa;
      this.folds := folds;
      words := [];
    }

    /** generate_positive(total_count): clear the words, then collect walks
        from node -1 that stop on an accepting node until there are
        total_count of them. A walk that stops elsewhere is retried, at the
        cost of one unit of fuel. */
    method GeneratePositive(totalCount: int, fuel: nat) returns (r: Outcome)
      modifies this
      ensures dfa == old(dfa) && folds == old(folds)
      ensures r == Fail(KeyError) <==> totalCount > 0 && -1 !in dfa.nodes
      ensures r.Fail? ==> r.error == KeyError || r.error == OutOfFuel
      ensures r.Pass? ==> |words| == if totalCount < 0 then 0 else totalCount
      ensures forall i :: 0 <= i < |words| ==> |words[i]| < MaxWordSize
      ensures KeyedBySymbol(dfa.nodes) ==>
        forall i :: 0 <= i < |words| ==> Accepts(dfa.nodes, words[i]) == Ok(true)
    {
      words := [];
      var fuelLeft := fuel;
      while |words| < totalCount
        invariant dfa == old(dfa) && folds == old(folds)
        invariant words != [] ==> -1 in dfa.nodes
        invariant |words| <= if totalCount < 0 then 0 else totalCount
        invariant forall i :: 0 <= i < |words| ==> |words[i]| < MaxWordSize
        invariant KeyedBySymbol(dfa.nodes) ==>
          forall i :: 0 <= i < |words| ==> Accepts(dfa.nodes, words[i]) == Ok(true)
        decreases totalCount - |words|, fuelLeft
      {
        if -1 !in dfa.nodes {
          return Fail(KeyError);
        }
        var found, word := RandomWalk();
        if found {
          words := words + [word];
        } else {
          if fuelLeft == 0 {
            return Fail(OutOfFuel);
          }
          fuelLeft := fuelLeft - 1;
        }
      }
      r := Pass;
    }

    /** One walk of generate_positive from node -1. At an accepting node a
        coin decides whether to stop there (it always does when the node has
        no edge); otherwise the walk follows a random edge, and gives up at a
        node without edges, at an edge to a missing node, or when the word
        would reach MaxWordSize symbols. */
    method RandomWalk() returns (found: bool, word: seq<int>)
      requires -1 in dfa.nodes
      ensures |word| < MaxWordSize
      ensures found && KeyedBySymbol(dfa.nodes) ==> Accepts(dfa.nodes, word) == Ok(true)
    {
      var node := dfa.nodes[-1];
      ghost var at := -1;
      word := [];
      var length := 0;
      while true
        invariant at in dfa.nodes && node == dfa.nodes[at]
        invariant length == |word| < MaxWordSize
        invariant KeyedBySymbol(dfa.nodes) ==> Walk(dfa.nodes, -1, word) == Some(at)
        decreases MaxWordSize - length
      {
        var coin: bool :| |node.out| == 0 ==> coin;
        if node.accept && coin {
          return true, word;
        } else if |node.out| == 0 {
          return false, word;
        }
        if forall s :: s !in node.out {
          assert false;
        }
        var key :| key in node.out;
        var edge := node.out[key];
        if edge.target !in dfa.nodes {
          return false, word;
        }
        length := length + 1;
        if length >= MaxWordSize {
          return false, word;
        }
        if KeyedBySymbol(dfa.nodes) {
          WalkConcat(dfa.nodes, -1, word, [edge.symbol]);
        }
        word := word + [edge.symbol];
        node := dfa.nodes[edge.target];
        at := edge.target;
      }
    }

    /** generate_negatives(negative_count): append negative_count words that
        simulate rejects. Each word is as long as a randomly chosen one of the
        words present at the start, moved by int(b - p/2) for a Poisson draw
        p >= 1 and a binomial draw b <= p, and is made of random alphabet
        symbols. */
    method GenerateNegatives(negativeCount: int, fuel: nat) returns (r: Outcome, ghost draws: seq<Draw>)
      modifies this
      ensures dfa == old(dfa) && folds == old(folds)
      ensures |old(words)| <= |words| && words[..|old(words)|] == old(words)
      ensures |draws| == |words| - |old(words)|
      ensures forall i :: |old(words)| <= i < |words| ==> Accepts(dfa.nodes, words[i]) == Ok(false)
      ensures forall i, j :: |old(words)| <= i < |words| && 0 <= j < |words[i]| ==> words[i][j] in dfa.alphabet
      ensures forall i :: 0 <= i < |draws| ==>
        draws[i].Valid(|old(words)|)
        && |words[|old(words)| + i]| == NegativeLength(|old(words)[draws[i].reference]|, draws[i])
      ensures r == Fail(ValueError) ==> negativeCount > 0 && old(words) == []
      ensures r == Fail(IndexError) ==> dfa.alphabet == []
      ensures r == Fail(KeyError) ==> -1 !in dfa.nodes
      ensures r.Fail? ==> r.error in {ValueError, IndexError, KeyError, OutOfFuel}
      ensures r.Pass? ==> |words| == |old(words)| + if negativeCount < 0 then 0 else negativeCount
      ensures r.Pass? && negativeCount > 0 ==> old(words) != [] && -1 in dfa.nodes
    {
      var positiveCount := |words|;
      draws := [];
      var count := 0;
      while count < negativeCount
        invariant dfa == old(dfa) && folds == old(folds)
        invariant |words| == positiveCount + count && words[..positiveCount] == old(words)
        invariant |draws| == count && count <= if negativeCount < 0 then 0 else negativeCount
        invariant forall i :: positiveCount <= i < |words| ==> Accepts(dfa.nodes, words[i]) == Ok(false)
        invariant forall i, j :: positiveCount <= i < |words| && 0 <= j < |words[i]| ==> words[i][j] in dfa.alphabet
        invariant forall i :: 0 <= i < |draws| ==>
          draws[i].Valid(positiveCount)
          && |words[positiveCount + i]| == NegativeLength(|old(words)[draws[i].reference]|, draws[i])
        invariant count > 0 ==> positiveCount > 0 && -1 in dfa.nodes
      {
        var word, d := NegativeWord(positiveCount, fuel);
        if word.Err? {
          return Fail(word.error), draws;
        }
        words := words + [word.value];
        draws := draws + [d];
        count := count + 1;
      }
      r := Pass;
    }

    /** The retry loop of generate_negatives for one word: a Poisson draw of
        0 is drawn again, and so is a word simulate accepts; each retry costs
        one unit of fuel. */
    method NegativeWord(positiveCount: nat, fuel: nat) returns (r: Result<seq<int>>, ghost d: Draw)
      requires positiveCount <= |words|
      ensures r.Ok? ==> Accepts(dfa.nodes, r.value) == Ok(false)
      ensures r.Ok? ==> forall j :: 0 <= j < |r.value| ==> r.value[j] in dfa.alphabet
      ensures r.Ok? ==> d.Valid(positiveCount) && |r.value| == NegativeLength(|words[d.reference]|, d)
      ensures r == Err(ValueError) ==> positiveCount == 0
      ensures r == Err(IndexError) ==> dfa.alphabet == []
      ensures r == Err(KeyError) ==> -1 !in dfa.nodes
      ensures r.Err? ==> r.error in {ValueError, IndexError, KeyError, OutOfFuel}
    {
      var fuelLeft := fuel;
      d := Draw(0, 0, 0);
      while true
        decreases fuelLeft
      {
        var n: nat :| true;
        if n == 0 {
          if fuelLeft == 0 {
            return Err(OutOfFuel), d;
          }
          fuelLeft := fuelLeft - 1;
          continue;
        }
        var binom: nat :| binom <= n;
        var shift := TruncHalf(2 * binom - n);
        if positiveCount == 0 {
          return Err(ValueError), d;
        }
        var reference :| 0 <= reference < positiveCount;
        d := Draw(n, binom, reference);
        var wordLen := |words[reference]| + shift;
        wordLen := if wordLen < 0 then 0 else wordLen;
        var word := RandomWord(wordLen);
        if word.Err? {
          return word, d;
        }
        var accepted := dfa.Simulate(word.value);
        if accepted.Err? {
          return Err(KeyError), d;
        }
        if !accepted.value {
          return word, d;
        }
        if fuelLeft == 0 {
          return Err(OutOfFuel), d;
        }
        fuelLeft := fuelLeft - 1;
      }
    }

    /** [random.choice(alphabet) for _ in range(n)]: IndexError when there
        is a symbol to draw and the alphabet is empty. */
    method RandomWord(n: nat) returns (r: Result<seq<int>>)
      ensures r.Err? <==> n > 0 && dfa.alphabet == []
      ensures r.Err? ==> r.error == IndexError
      ensures r.Ok? ==> |r.value| == n && forall j :: 0 <= j < n ==> r.value[j] in dfa.alphabet
    {
      var word := [];
      for j := 0 to n
        invariant |word| == j && forall i :: 0 <= i < j ==> word[i] in dfa.alphabet
        invariant j > 0 ==> dfa.alphabet != []
      {
        var symbol := Random.Choice(dfa.alphabet);
        if symbol.Err? {
          return Err(IndexError);
        }
        word := word + [symbol.value];
      }
      r := Ok(word);
    }

    /** shuffle(): the words in some order. */
    method Shuffle()
      modifies this
      ensures dfa == old(dfa) && folds == old(folds)
      ensures |words| == |old(words)| && multiset(words) == multiset(old(words))
    {
      words := Random.Shuffle(words);
    }

    /** split_into_training_and_test_data(): shuffle in place, then two new
        sets over the same acceptor holding the first int(0.8 n) words and
        the rest. */
    method Split() returns (train: TrainingData, test: TrainingData)
      modifies this
      ensures dfa == old(dfa) && folds == old(folds)
      ensures |words| == |old(words)| && multiset(words) == multiset(old(words))
      ensures fresh(train) && fresh(test) && train != test
      ensures train.dfa == dfa && test.dfa == dfa && train.folds == 0 && test.folds == 0
      ensures |train.words| == SplitPoint(|words|)
      ensures train.words + test.words == words
    {
      Shuffle();
      var splitPoint := SplitPoint(|words|);
      train := new TrainingData(dfa, 0);
      test := new TrainingData(dfa, 0);
      train.words := train.words + words[..splitPoint];
      test.words := test.words + words[splitPoint..];
      assert words[..splitPoint] + words[splitPoint..] == words;
    }

    /** self + other: other's words appended to this set's in order. Adding a
        set to itself never returns, which the precondition excludes. */
    method Merge(other: TrainingData)
      requires other != this
      modifies this
      ensures dfa == old(dfa) && folds == old(folds)
      ensures words == old(words) + other.words
    {
      for i := 0 to |other.words|
        invariant dfa == old(dfa) && folds == old(folds)
        invariant words == old(words) + other.words[..i]
      {
        assert other.words[..i + 1] == other.words[..i] + [other.words[i]];
        words := words + [other.words[i]];
      }
      assert other.words[..|other.words|] == other.words;
    }

    /** str(self), built line by line as __str__ does. */
    method ToText() returns (r: Result<string>)
      ensures r == DatasetText(dfa.nodes, words)
    {
      var result := "";
      for i := 0 to |words|
        invariant i > 0 ==> -1 in dfa.nodes
        invariant result == Prefixed("\n", Lines(dfa.nodes, words[..i]))
      {
        var word := words[i];
        var accepted := dfa.Simulate(word);
        if accepted.Err? {
          return Err(KeyError);
        }
        var isAccepting := if accepted.value then "1" else "0";
        ghost var before := result;
        result := result + "\n" + isAccepting + " " + IntToString(|word|);
        result := AppendSymbols(result, word);
        WordLineText(isAccepting, word);
        ghost var x := before + "\n";
        Assoc(x, isAccepting + " " + IntToString(|word|), Prefixed(" ", IntStrings(word)));
        Assoc(x, isAccepting + " ", IntToString(|word|));
        Assoc(x, isAccepting, " ");
        LinesSnoc(dfa.nodes, words, i);
        PrefixedSnoc("\n", Lines(dfa.nodes, words[..i]), WordLine(isAccepting, word));
      }
      assert words[..|words|] == words;
      JoinPrefixed("\n", Header(|words|), Lines(dfa.nodes, words));
      r := Ok(Header(|words|) + result);
    }
  }

  /** The inner loop of __str__: " " and the symbol, for each symbol. */
  method AppendSymbols(text: string, word: seq<int>) returns (r: string)
    ensures r == text + Prefixed(" ", IntStrings(word))
  {
    r := text;
    for j := 0 to |word|
      invariant r == text + Prefixed(" ", IntStrings(word[..j]))
    {
      SymbolStep(text, word, j);
      r := r + " " + IntToString(word[j]);
    }
    assert word[..|word|] == word;
  }

  /** Writing the next symbol extends the written prefix of the word. */
  lemma SymbolStep(text: string, word: seq<int>, j: nat)
    requires j < |word|
    ensures text + Prefixed(" ", IntStrings(word[..j])) + " " + IntToString(word[j])
         == text + Prefixed(" ", IntStrings(word[..j + 1]))
  {
    var done := Prefixed(" ", IntStrings(word[..j]));
    var symbol := IntToString(word[j]);
    PrefixedSnoc(" ", IntStrings(word[..j]), symbol);
    IntStringsAppend(word[..j], [word[j]]);
    assert word[..j] + [word[j]] == word[..j + 1];
    assert IntStrings([word[j]]) == [symbol];
    Assoc(text, done + " ", symbol);
    Assoc(text, done, " ");
  }
}
