/** The acceptor of GeneratorFunctions.py: edges, nodes keyed by id, the
    simulator, and the invariants a generated acceptor satisfies. */
module Automaton {
  import opened Wrappers
  import Random

  /** Edge: source --symbol-> target. */
  datatype Edge = Edge(source: int, target: int, symbol: int)

  /** Node: its id, its outgoing edges keyed by symbol, its accept flag. */
  datatype Node = Node(id: int, out: map<int, Edge>, accept: bool)

  /** Node.__add__: the edge is stored under its own symbol, replacing any
      earlier edge for that symbol; nothing else changes. */
  function AddToNode(n: Node, e: Edge): (r: Node)
    ensures r.id == n.id && r.accept == n.accept
    ensures r.out.Keys == n.out.Keys + {e.symbol} && r.out[e.symbol] == e
    ensures forall s :: s in n.out && s != e.symbol ==> r.out[s] == n.out[s]
  {
    n.(out := n.out[e.symbol := e])
  }

  /** Node.__sub__: deletes the entry for the edge's symbol; KeyError when
      the node has none. */
  function RemoveFromNode(n: Node, e: Edge): (r: Result<Node>)
    ensures r.Ok? <==> e.symbol in n.out
    ensures r.Err? ==> r.error == KeyError
    ensures r.Ok? ==> r.value.id == n.id && r.value.accept == n.accept
    ensures r.Ok? ==> r.value.out.Keys == n.out.Keys - {e.symbol}
    ensures r.Ok? ==> forall s :: s in r.value.out ==> r.value.out[s] == n.out[s]
  {
    if e.symbol in n.out then Ok(n.(out := n.out - {e.symbol})) else Err(KeyError)
  }

  // ---------------------------------------------------------------------
  // Simulation
  // ---------------------------------------------------------------------

  /** The id reached by following word from id; None as soon as a symbol has
      no edge at the current node or that edge's target is not a node. */
  function Walk(nodes: map<int, Node>, id: int, word: seq<int>): (r: Option<int>)
    requires id in nodes
    ensures r.Some? ==> r.value in nodes
    decreases |word|
  {
    if word == [] then Some(id)
    else
      var out := nodes[id].out;
      if word[0] !in out || out[word[0]].target !in nodes then None
      else Walk(nodes, out[word[0]].target, word[1..])
  }

  /** DFA.simulate: KeyError without a start node -1, otherwise the accept
      flag of the node the word leads to, and false when it leads nowhere. */
  function Accepts(nodes: map<int, Node>, word: seq<int>): (r: Result<bool>)
    ensures r.Err? <==> -1 !in nodes
    ensures r.Err? ==> r.error == KeyError
    ensures -1 in nodes && word == [] ==> r == Ok(nodes[-1].accept)
  {
    if -1 !in nodes then Err(KeyError)
    else
      match Walk(nodes, -1, word)
      case Some(t) => Ok(nodes[t].accept)
      case None => Ok(false)
  }

  /** Walking u then v is walking u + v. */
  lemma {:induction false} WalkConcat(nodes: map<int, Node>, id: int, u: seq<int>, v: seq<int>)
    requires id in nodes
    ensures Walk(nodes, id, u + v) ==
      match Walk(nodes, id, u)
      case None => None
      case Some(m) => Walk(nodes, m, v)
    decreases |u|
  {
    if u == [] {
      assert u + v == v;
    } else {
      assert (u + v)[0] == u[0] && (u + v)[1..] == u[1..] + v;
      var out := nodes[id].out;
      if u[0] in out && out[u[0]].target in nodes {
        WalkConcat(nodes, out[u[0]].target, u[1..], v);
      }
    }
  }

  /** simulate rejects as soon as a symbol cannot be followed, whatever
      comes after it. */
  lemma RejectsAtMissingEdge(nodes: map<int, Node>, u: seq<int>, s: int, v: seq<int>)
    requires -1 in nodes && Walk(nodes, -1, u).Some?
    requires var m := Walk(nodes, -1, u).value;
      s !in nodes[m].out || nodes[m].out[s].target !in nodes
    ensures Accepts(nodes, u + [s] + v) == Ok(false)
  {
    var m := Walk(nodes, -1, u).value;
    WalkConcat(nodes, -1, u, [s] + v);
    assert u + [s] + v == u + ([s] + v);
    assert Walk(nodes, m, [s] + v) == None;
  }

  // ---------------------------------------------------------------------
  // Invariants of a generated acceptor
  // ---------------------------------------------------------------------

  /** range(k) as a list. */
  function SymbolRange(k: int): (r: seq<int>)
    ensures |r| == if k <= 0 then 0 else k
    ensures forall i :: 0 <= i < |r| ==> r[i] == i
  {
    if k <= 0 then [] else seq(k, i => i)
  }

  /** The ids -1 .. n-2 that generate creates, in creation order. */
  function IdList(n: int): (r: seq<int>)
    ensures |r| == if n <= 0 then 0 else n
    ensures forall i :: 0 <= i < |r| ==> r[i] == i - 1
  {
    if n <= 0 then [] else seq(n, i => i - 1)
  }

  ghost function IdRange(n: int): set<int> {
    set x | x in IdList(n)
  }

  lemma IdRangeMember(n: int, x: int)
    ensures x in IdRange(n) <==> -1 <= x < n - 1
  {
    if -1 <= x < n - 1 {
      assert IdList(n)[x + 1] == x;
    }
  }

  /** int(n * 0.5): half of n rounded toward zero. */
  function TruncHalf(n: int): int {
    if n >= 0 then n / 2 else -((-n) / 2)
  }

  /** The node ids are exactly -1 .. n-2 and every node carries its own id. */
  ghost predicate Shape(nodes: map<int, Node>, n: int) {
    nodes.Keys == IdRange(n) && forall id :: id in nodes ==> nodes[id].id == id
  }

  ghost function AcceptingIds(nodes: map<int, Node>): set<int> {
    set id | id in nodes && nodes[id].accept
  }

  /** Every edge is stored under its own symbol at its own source. */
  ghost predicate KeyedBySymbol(nodes: map<int, Node>) {
    forall id, s :: id in nodes && s in nodes[id].out ==>
      nodes[id].out[s].source == id && nodes[id].out[s].symbol == s
  }

  /** Every edge target is an existing id. */
  ghost predicate TargetsExist(nodes: map<int, Node>) {
    forall id, s :: id in nodes && s in nodes[id].out ==> nodes[id].out[s].target in nodes
  }

  /** Every node has an edge for exactly the symbols 0 .. k-1. */
  ghost predicate Total(nodes: map<int, Node>, k: int) {
    forall id, s :: id in nodes ==> (s in nodes[id].out <==> 0 <= s < k)
  }

  /** Edges only use symbols 0 .. k-1. */
  ghost predicate SymbolsBelow(nodes: map<int, Node>, k: int) {
    forall id, s :: id in nodes && s in nodes[id].out ==> 0 <= s < k
  }

  /** The global edge list and the per-node maps hold the same edges,
      one list entry per (source, symbol) pair. */
  ghost predicate EdgesAgree(nodes: map<int, Node>, edges: seq<Edge>) {
    && (forall i :: 0 <= i < |edges| ==>
          edges[i].source in nodes && edges[i].symbol in nodes[edges[i].source].out
          && nodes[edges[i].source].out[edges[i].symbol] == edges[i])
    && (forall i, j :: 0 <= i < j < |edges| ==>
          edges[i].source != edges[j].source || edges[i].symbol != edges[j].symbol)
    && (forall id, s :: id in nodes && s in nodes[id].out ==> nodes[id].out[s] in edges)
  }

  /** paths[id] leads from the start node -1 to id, for every node. */
  ghost predicate Reachable(nodes: map<int, Node>, paths: map<int, seq<int>>) {
    forall id :: id in nodes ==> -1 in nodes && id in paths && Walk(nodes, -1, paths[id]) == Some(id)
  }

  /** nodes2 has the same nodes as nodes1 with the same ids and flags, and
      keeps every edge of nodes1 (it may have more). */
  ghost predicate Extends(nodes2: map<int, Node>, nodes1: map<int, Node>) {
    && nodes2.Keys == nodes1.Keys
    && (forall id :: id in nodes1 ==> nodes2[id].id == nodes1[id].id && nodes2[id].accept == nodes1[id].accept)
    && (forall id :: id in nodes1 ==> OutGrows(nodes2[id].out, nodes1[id].out))
  }

  /** Every entry of out1 is in out2 with the same edge. */
  ghost predicate OutGrows(out2: map<int, Edge>, out1: map<int, Edge>) {
    out1.Keys <= out2.Keys && forall s :: s in out1 ==> out2[s] == out1[s]
  }

  lemma OutGrowsAt(out2: map<int, Edge>, out1: map<int, Edge>, s: int)
    requires OutGrows(out2, out1) && s in out1
    ensures s in out2 && out2[s] == out1[s]
  {}

  /** Adding edges never breaks a walk that already succeeded. */
  lemma {:induction false} WalkExtends(nodes2: map<int, Node>, nodes1: map<int, Node>, id: int, w: seq<int>)
    requires Extends(nodes2, nodes1) && id in nodes1
    requires Walk(nodes1, id, w).Some?
    ensures Walk(nodes2, id, w) == Walk(nodes1, id, w)
    decreases |w|
  {
    if w != [] {
      var e := nodes1[id].out[w[0]];
      assert OutGrows(nodes2[id].out, nodes1[id].out);
      OutGrowsAt(nodes2[id].out, nodes1[id].out, w[0]);
      assert e.target in nodes2;
      WalkExtends(nodes2, nodes1, e.target, w[1..]);
      assert Walk(nodes2, id, w) == Walk(nodes2, e.target, w[1..]);
    }
  }

  lemma ReachableExtends(nodes2: map<int, Node>, nodes1: map<int, Node>, paths: map<int, seq<int>>)
    requires Extends(nodes2, nodes1) && Reachable(nodes1, paths)
    ensures Reachable(nodes2, paths)
  {
    forall id | id in nodes2
      ensures -1 in nodes2 && id in paths && Walk(nodes2, -1, paths[id]) == Some(id)
    {
      WalkExtends(nodes2, nodes1, -1, paths[id]);
    }
  }

  /** In a total acceptor whose targets exist, every word over the alphabet
      leads somewhere: simulate's verdict is the reached node's flag. */
  lemma {:induction false} WalkTotal(nodes: map<int, Node>, k: int, id: int, w: seq<int>)
    requires Total(nodes, k) && TargetsExist(nodes) && id in nodes
    requires forall j :: 0 <= j < |w| ==> 0 <= w[j] < k
    ensures Walk(nodes, id, w).Some?
    decreases |w|
  {
    if w != [] {
      assert w[0] in nodes[id].out;
      WalkTotal(nodes, k, nodes[id].out[w[0]].target, w[1..]);
    }
  }

  // ---------------------------------------------------------------------
  // Counting
  // ---------------------------------------------------------------------

  lemma IdRangeSize(n: int)
    requires n >= 0
    ensures |IdRange(n)| == n
  {
    DistinctSize(IdList(n));
  }

  lemma {:induction false} DistinctSize(s: seq<int>)
    requires forall i, j :: 0 <= i < j < |s| ==> s[i] != s[j]
    ensures |set x | x in s| == |s|
  {
    if s != [] {
      var p := s[..|s| - 1];
      DistinctSize(p);
      assert (set x | x in s) == (set x | x in p) + {s[|s| - 1]};
      assert s[|s| - 1] !in p;
    } else {
      assert (set x | x in s) == {};
    }
  }

  ghost function EdgeKeys(edges: seq<Edge>): set<(int, int)> {
    set i | 0 <= i < |edges| :: (edges[i].source, edges[i].symbol)
  }

  lemma {:induction false} EdgeKeysSize(edges: seq<Edge>)
    requires forall i, j :: 0 <= i < j < |edges| ==>
      edges[i].source != edges[j].source || edges[i].symbol != edges[j].symbol
    ensures |EdgeKeys(edges)| == |edges|
  {
    if edges != [] {
      var p := edges[..|edges| - 1];
      var last := edges[|edges| - 1];
      EdgeKeysSize(p);
      assert EdgeKeys(edges) == EdgeKeys(p) + {(last.source, last.symbol)};
      assert (last.source, last.symbol) !in EdgeKeys(p);
    } else {
      assert EdgeKeys(edges) == {};
    }
  }

  ghost function Row(x: int, k: nat): set<(int, int)> {
    set s | 0 <= s < k :: (x, s)
  }

  ghost function Pairs(ids: set<int>, k: nat): set<(int, int)> {
    set id, s | id in ids && 0 <= s < k :: (id, s)
  }

  lemma {:induction false} RowSize(x: int, k: nat)
    ensures |Row(x, k)| == k
  {
    if k > 0 {
      RowSize(x, k - 1);
      assert Row(x, k) == Row(x, k - 1) + {(x, k - 1)};
    } else {
      assert Row(x, k) == {};
    }
  }

  lemma {:induction false} PairsSize(ids: set<int>, k: nat)
    ensures |Pairs(ids, k)| == |ids| * k
    decreases |ids|
  {
    if ids != {} {
      if forall y :: y !in ids {
        assert false;
      }
      var x :| x in ids;
      PairsSize(ids - {x}, k);
      RowSize(x, k);
      PairsSplit(ids, x, k);
      MulSucc(|ids - {x}|, k);
    } else {
      assert Pairs(ids, k) == {};
    }
  }

  lemma MulSucc(n: nat, k: nat)
    ensures (n + 1) * k == n * k + k
  {
  }

  /** The pairs of a set of ids are those of one id and those of the rest. */
  lemma PairsSplit(ids: set<int>, x: int, k: nat)
    requires x in ids
    ensures Pairs(ids, k) == Pairs(ids - {x}, k) + Row(x, k)
    ensures Pairs(ids - {x}, k) !! Row(x, k)
  {
  }

  /** A total acceptor whose edge list agrees with its maps has exactly
      (number of nodes) * k edges. */
  lemma EdgeCount(nodes: map<int, Node>, edges: seq<Edge>, k: nat)
    requires EdgesAgree(nodes, edges) && KeyedBySymbol(nodes) && Total(nodes, k)
    ensures |edges| == |nodes.Keys| * k
  {
    EdgeKeysSize(edges);
    PairsSize(nodes.Keys, k);
    forall id, s | id in nodes.Keys && 0 <= s < k ensures (id, s) in EdgeKeys(edges) {
      var e := nodes[id].out[s];
      assert e in edges;
      var i :| 0 <= i < |edges| && edges[i] == e;
      assert (edges[i].source, edges[i].symbol) == (id, s);
    }
    assert EdgeKeys(edges) == Pairs(nodes.Keys, k);
  }

  // ---------------------------------------------------------------------
  // Edge insertion and removal on the two views
  // ---------------------------------------------------------------------

  /** The symbols of alphabet that out has no edge for, in alphabet order:
      list(set(alphabet) - set(out.keys())). */
  function Missing(alphabet: seq<int>, out: map<int, Edge>): (r: seq<int>)
    ensures forall s :: s in r <==> s in alphabet && s !in out
    ensures |r| <= |alphabet|
    ensures (forall i, j :: 0 <= i < j < |alphabet| ==> alphabet[i] != alphabet[j]) ==>
      forall i, j :: 0 <= i < j < |r| ==> r[i] != r[j]
  {
    if alphabet == [] then []
    else if alphabet[0] in out then Missing(alphabet[1..], out)
    else [alphabet[0]] + Missing(alphabet[1..], out)
  }

  /** The position of the first occurrence of x in s. */
  function FirstIndex<T(==)>(s: seq<T>, x: T): (i: nat)
    requires x in s
    ensures i < |s| && s[i] == x && x !in s[..i]
  {
    if s[0] == x then 0 else 1 + FirstIndex(s[1..], x)
  }

  /** list.remove(x): the list without the first occurrence of x. */
  function RemoveFirst<T(==)>(s: seq<T>, x: T): (r: seq<T>)
    requires x in s
    ensures |r| == |s| - 1
    ensures multiset(r) == multiset(s) - multiset{x}
  {
    var i := FirstIndex(s, x);
    assert s == s[..i] + [x] + s[i + 1..];
    s[..i] + s[i + 1..]
  }

  /** On a list without repeats, remove drops exactly the one element. */
  lemma RemoveFirstDistinct<T>(s: seq<T>, x: T)
    requires x in s && Random.Distinct(s)
    ensures Random.Distinct(RemoveFirst(s, x))
    ensures forall y :: y in RemoveFirst(s, x) <==> y in s && y != x
  {
    RemoveFirstAt(s, x);
    var i := FirstIndex(s, x);
    var r := RemoveFirst(s, x);
    forall y ensures y in r <==> y in s && y != x {
      if y in r {
        var j :| 0 <= j < |r| && r[j] == y;
      }
      if y in s && y != x {
        var j :| 0 <= j < |s| && s[j] == y;
        assert j != i;
        assert r[if j < i then j else j - 1] == y;
      }
    }
  }

  /** The list without its first x, element by element. */
  lemma RemoveFirstAt<T>(s: seq<T>, x: T)
    requires x in s
    ensures var i, r := FirstIndex(s, x), RemoveFirst(s, x);
      forall j :: 0 <= j < |r| ==> r[j] == if j < i then s[j] else s[j + 1]
  {
    var i := FirstIndex(s, x);
    assert RemoveFirst(s, x) == s[..i] + s[i + 1..];
  }

  /** Adding an edge for a symbol its source has no edge for yet keeps the
      list and the maps in agreement, and only adds that one edge. */
  lemma AddKeepsAgreement(nodes: map<int, Node>, edges: seq<Edge>, e: Edge, k: int)
    requires EdgesAgree(nodes, edges) && KeyedBySymbol(nodes)
    requires TargetsExist(nodes) && SymbolsBelow(nodes, k)
    requires e.source in nodes && e.symbol !in nodes[e.source].out
    requires e.target in nodes && 0 <= e.symbol < k
    ensures var nodes2 := nodes[e.source := AddToNode(nodes[e.source], e)];
      && EdgesAgree(nodes2, edges + [e]) && KeyedBySymbol(nodes2)
      && TargetsExist(nodes2) && SymbolsBelow(nodes2, k) && Extends(nodes2, nodes)
  {
    var nodes2 := nodes[e.source := AddToNode(nodes[e.source], e)];
    var edges2 := edges + [e];
    forall i | 0 <= i < |edges2|
      ensures edges2[i].source in nodes2 && edges2[i].symbol in nodes2[edges2[i].source].out
      ensures nodes2[edges2[i].source].out[edges2[i].symbol] == edges2[i]
    {
      if i < |edges| {
        assert edges2[i] == edges[i];
        assert edges[i].source != e.source || edges[i].symbol != e.symbol;
      }
    }
    forall i, j | 0 <= i < j < |edges2|
      ensures edges2[i].source != edges2[j].source || edges2[i].symbol != edges2[j].symbol
    {
      if j == |edges| {
        assert edges2[i] == edges[i];
      }
    }
    forall id, s | id in nodes2 && s in nodes2[id].out
      ensures nodes2[id].out[s] in edges2
    {
      if id != e.source || s != e.symbol {
        assert nodes2[id].out[s] == nodes[id].out[s];
        assert nodes[id].out[s] in edges;
      } else {
        assert edges2[|edges|] == e;
      }
    }
    forall id | id in nodes ensures OutGrows(nodes2[id].out, nodes[id].out) {
    }
  }

  /** The four edge invariants generate keeps at every step. */
  ghost predicate Consistent(nodes: map<int, Node>, edges: seq<Edge>, k: int) {
    EdgesAgree(nodes, edges) && KeyedBySymbol(nodes) && TargetsExist(nodes) && SymbolsBelow(nodes, k)
  }

  ghost predicate Complete(out: map<int, Edge>, k: int) {
    forall s :: s in out <==> 0 <= s < k
  }

  lemma AddKeepsConsistency(nodes: map<int, Node>, edges: seq<Edge>, e: Edge, k: int)
    requires Consistent(nodes, edges, k)
    requires e.source in nodes && e.symbol !in nodes[e.source].out
    requires e.target in nodes && 0 <= e.symbol < k
    ensures var nodes2 := nodes[e.source := AddToNode(nodes[e.source], e)];
      Consistent(nodes2, edges + [e], k) && Extends(nodes2, nodes)
  {
    AddKeepsAgreement(nodes, edges, e, k);
  }

  /** The missing removal of the map entry (see the findings) is what
      DFA.__sub__ needs: with it, agreement is kept. */
  lemma RemoveKeepsAgreement(nodes: map<int, Node>, edges: seq<Edge>, e: Edge)
    requires EdgesAgree(nodes, edges) && KeyedBySymbol(nodes) && e in edges
    ensures e.source in nodes && e.symbol in nodes[e.source].out
    ensures var n := nodes[e.source];
      var nodes2 := nodes[e.source := n.(out := n.out - {e.symbol})];
      EdgesAgree(nodes2, RemoveFirst(edges, e)) && KeyedBySymbol(nodes2)
  {
    var i := FirstIndex(edges, e);
    var n := nodes[e.source];
    var nodes2 := nodes[e.source := n.(out := n.out - {e.symbol})];
    var r := RemoveFirst(edges, e);
    assert r == edges[..i] + edges[i + 1..];
    forall j | 0 <= j < |r|
      ensures r[j] == edges[if j < i then j else j + 1]
    {
    }
    forall j | 0 <= j < |r|
      ensures r[j].source in nodes2 && r[j].symbol in nodes2[r[j].source].out
      ensures nodes2[r[j].source].out[r[j].symbol] == r[j]
    {
      var j' := if j < i then j else j + 1;
      assert r[j] == edges[j'];
      assert edges[j'].source != e.source || edges[j'].symbol != e.symbol;
    }
    forall a, b | 0 <= a < b < |r|
      ensures r[a].source != r[b].source || r[a].symbol != r[b].symbol
    {
      var a', b' := if a < i then a else a + 1, if b < i then b else b + 1;
      assert r[a] == edges[a'] && r[b] == edges[b'] && a' < b';
    }
    forall id, s | id in nodes2 && s in nodes2[id].out
      ensures nodes2[id].out[s] in r
    {
      var f := nodes[id].out[s];
      assert nodes2[id].out[s] == f;
      assert f in edges;
      var j :| 0 <= j < |edges| && edges[j] == f;
      assert f.source == id && f.symbol == s;
      assert j != i;
      if j < i {
        assert r[j] == f;
      } else {
        assert r[j - 1] == f;
      }
    }
  }

  /** Finding: DFA.__sub__ as written removes the edge from the list but
      leaves it in its source's map, so the two views disagree afterwards. */
  lemma RemoveEdgeBreaksAgreement(nodes: map<int, Node>, edges: seq<Edge>, e: Edge)
    requires EdgesAgree(nodes, edges) && e in edges
    ensures !EdgesAgree(nodes, RemoveFirst(edges, e))
  {
    var i := FirstIndex(edges, e);
    var r := RemoveFirst(edges, e);
    assert r == edges[..i] + edges[i + 1..];
    assert nodes[e.source].out[e.symbol] == e;
    forall j | 0 <= j < |r| ensures r[j] != e {
      var j' := if j < i then j else j + 1;
      assert r[j] == edges[j'];
      assert edges[j'].source != e.source || edges[j'].symbol != e.symbol;
    }
    assert nodes[e.source].out[e.symbol] !in r;
  }

  // ---------------------------------------------------------------------
  // The acceptor object
  // ---------------------------------------------------------------------

  /** DFA: the alphabet, the nodes keyed by id, and the global edge list.
      Start is node -1. */
  class Dfa {
    var alphabet: seq<int>
    var nodes: map<int, Node>
    var edges: seq<Edge>

    /** DFA(): an acceptor owning fresh, empty containers. */
    constructor ()
      ensures alphabet == [] && nodes == map[] && edges == []
    {
      alphabet := [];
      nodes := map[];
      edges := [];
    }

    /** DFA.__getitem__: the node stored under key, KeyError if none. */
    function Get(key: int): (r: Result<Node>)
      reads this
      ensures r.Ok? <==> key in nodes
      ensures r.Err? ==> r.error == KeyError
      ensures r.Ok? ==> r.value == nodes[key]
    {
      if key in nodes then Ok(nodes[key]) else Err(KeyError)
    }

    /** DFA.__setitem__: stores value under key, replacing any node there. */
    method Set(key: int, value: Node)
      modifies this
      ensures nodes == old(nodes)[key := value]
      ensures alphabet == old(alphabet) && edges == old(edges)
    {
      nodes := nodes[key := value];
    }

    /** DFA.__delitem__: removes the node under key, KeyError if none; the
        edge list is not touched. */
    method Delete(key: int) returns (r: Outcome)
      modifies this
      ensures r == if key in old(nodes) then Pass else Fail(KeyError)
      ensures nodes == old(nodes) - {key}
      ensures alphabet == old(alphabet) && edges == old(edges)
    {
      if key !in nodes {
        return Fail(KeyError);
      }
      nodes := nodes - {key};
      r := Pass;
    }

    /** DFA.__add__: appends the edge to the list, then stores it in its
        source's map (replacing an earlier edge for the same symbol); a
        missing source raises KeyError after the append. */
    method AddEdge(e: Edge) returns (r: Outcome)
      modifies this
      ensures edges == old(edges) + [e] && alphabet == old(alphabet)
      ensures r == if e.source in old(nodes) then Pass else Fail(KeyError)
      ensures r.Pass? ==> nodes == old(nodes)[e.source := AddToNode(old(nodes)[e.source], e)]
      ensures r.Fail? ==> nodes == old(nodes)
    {
      edges := edges + [e];
      if e.source !in nodes {
        return Fail(KeyError);
      }
      nodes := nodes[e.source := AddToNode(nodes[e.source], e)];
      r := Pass;
    }

    /** DFA.__sub__ as written: removes the first equal edge from the list
        (ValueError if there is none), then always raises: KeyError for a
        missing source, otherwise AttributeError, because it hands the
        target id to Node.__sub__, which reads a symbol from it. The maps
        are never changed. */
    method RemoveEdge(e: Edge) returns (r: Outcome)
      modifies this
      ensures nodes == old(nodes) && alphabet == old(alphabet)
      ensures e !in old(edges) ==> r == Fail(ValueError) && edges == old(edges)
      ensures e in old(edges) ==> edges == RemoveFirst(old(edges), e)
      ensures e in old(edges) ==>
        r == if e.source in old(nodes) then Fail(AttributeError) else Fail(KeyError)
    {
      if e !in edges {
        return Fail(ValueError);
      }
      edges := RemoveFirst(edges, e);
      if e.source !in nodes {
        return Fail(KeyError);
      }
      r := Fail(AttributeError);
    }

    /** DFA.__sub__ as intended: the edge leaves both the list and its
        source's map, so an acceptor whose views agree keeps them in
        agreement. */
    method RemoveEdgeFixed(e: Edge) returns (r: Outcome)
      modifies this
      ensures alphabet == old(alphabet)
      ensures e !in old(edges) ==> r == Fail(ValueError) && edges == old(edges) && nodes == old(nodes)
      ensures e in old(edges) ==> edges == RemoveFirst(old(edges), e)
      ensures r.Pass? ==> (e.source in old(nodes) && RemoveFromNode(old(nodes)[e.source], e).Ok? &&
        nodes == old(nodes)[e.source := RemoveFromNode(old(nodes)[e.source], e).value])
      ensures EdgesAgree(old(nodes), old(edges)) && KeyedBySymbol(old(nodes)) && e in old(edges) ==>
        r.Pass? && EdgesAgree(nodes, edges) && KeyedBySymbol(nodes)
    {
      if e !in edges {
        return Fail(ValueError);
      }
      if EdgesAgree(nodes, edges) && KeyedBySymbol(nodes) {
        RemoveKeepsAgreement(nodes, edges, e);
      }
      edges := RemoveFirst(edges, e);
      if e.source !in nodes {
        return Fail(KeyError);
      }
      var n := RemoveFromNode(nodes[e.source], e);
      if n.Err? {
        return Fail(n.error);
      }
      nodes := nodes[e.source := n.value];
      r := Pass;
    }

    /** DFA.simulate, step by step from the start node -1. */
    method Simulate(word: seq<int>) returns (r: Result<bool>)
      ensures r == Accepts(nodes, word)
    {
      if -1 !in nodes {
        return Err(KeyError);
      }
      var node := nodes[-1];
      ghost var at := -1;
      var i := 0;
      while i < |word|
        invariant 0 <= i <= |word|
        invariant at in nodes && node == nodes[at]
        invariant Walk(nodes, -1, word[..i]) == Some(at)
      {
        var symbol := word[i];
        WalkConcat(nodes, -1, word[..i], word[i..]);
        assert word[..i] + word[i..] == word;
        if symbol !in node.out || node.out[symbol].target !in nodes {
          return Ok(false);
        }
        WalkConcat(nodes, -1, word[..i], [symbol]);
        assert word[..i + 1] == word[..i] + [symbol];
        at := node.out[symbol].target;
        node := nodes[node.out[symbol].target];
        i := i + 1;
      }
      assert word[..i] == word;
      r := Ok(node.accept);
    }
  
    /** DFA.generate(alphabet_size, node_count): the alphabet 0 .. k-1;
        nodes -1 .. n-2; floor(n/2) of them accepting (the start node
        included among the candidates); a spanning tree from -1, one new
        edge per other node; then an edge to some existing id for every
        (node, symbol) pair still without one. Each random draw is a free
        choice; fuel bounds the retries of the spanning loop. */
    method Generate(alphabetSize: int, nodeCount: int, fuel: nat) returns (r: Outcome, ghost paths: map<int, seq<int>>)
      modifies this
      ensures alphabet == SymbolRange(alphabetSize)
      ensures r == Fail(ValueError) <==> nodeCount <= -2
      ensures r == Fail(IndexError) <==> nodeCount >= 2 && alphabetSize <= 0
      ensures r.Fail? ==> r.error == ValueError || r.error == IndexError || r.error == OutOfFuel
      ensures r.Pass? ==> Shape(nodes, nodeCount) && |nodes.Keys| == (if nodeCount < 0 then 0 else nodeCount)
      ensures r.Pass? ==> |AcceptingIds(nodes)| == TruncHalf(nodeCount)
      ensures r.Pass? ==> Total(nodes, |alphabet|) && TargetsExist(nodes)
      ensures r.Pass? ==> KeyedBySymbol(nodes) && EdgesAgree(nodes, edges)
      ensures r.Pass? ==> |edges| == |nodes.Keys| * |alphabet|
      ensures r.Pass? ==> Reachable(nodes, paths)
    {
      alphabet := SymbolRange(alphabetSize);
      edges := [];
      paths := map[];
      CreateNodes(nodeCount);
      r := MarkAccepting(nodeCount);
      if r.Fail? {
        return;
      }
      ghost var sampled := nodes;

      r, paths := SpanningTree(nodeCount, fuel);
      if r.Fail? {
        return;
      }
      ghost var spanned := nodes;
      CompleteTransitions(nodeCount);

      ReachableExtends(nodes, spanned, paths);
      ExtendsAccepting(nodes, spanned);
      ExtendsAccepting(spanned, sampled);
      EdgeCount(nodes, edges, |alphabet|);
      if nodeCount >= 0 {
        IdRangeSize(nodeCount);
      } else {
        assert nodes.Keys == {} by {
          forall x ensures x !in IdRange(nodeCount) { IdRangeMember(nodeCount, x); }
        }
      }
    }

    /** Lines 152 and 155-156: the node table holds exactly the fresh nodes
        -1 .. n-2, none accepting and none with an edge. */
    method CreateNodes(nodeCount: int)
      modifies this
      ensures alphabet == old(alphabet) && edges == old(edges)
      ensures nodes.Keys == IdRange(nodeCount)
      ensures forall x :: x in nodes ==> nodes[x] == Node(x, map[], false)
    {
      nodes := map[];
      var id := -1;
      while id < nodeCount - 1
        invariant -1 <= id <= (if nodeCount < 0 then -1 else nodeCount - 1)
        invariant forall x :: x in nodes <==> -1 <= x < id
        invariant forall x :: x in nodes ==> nodes[x] == Node(x, map[], false)
        invariant alphabet == old(alphabet) && edges == old(edges)
      {
        nodes := nodes[id := Node(id, map[], false)];
        id := id + 1;
      }
      forall x ensures x in nodes <==> x in IdRange(nodeCount) {
        IdRangeMember(nodeCount, x);
      }
    }

    /** Lines 159-162: int(n * 0.5) distinct node ids are sampled and marked
        accepting; a negative sample size is a ValueError. */
    method MarkAccepting(nodeCount: int) returns (r: Outcome)
      requires nodes.Keys == IdRange(nodeCount)
      requires forall x :: x in nodes ==> nodes[x] == Node(x, map[], false)
      modifies this
      ensures alphabet == old(alphabet) && edges == old(edges)
      ensures r == Fail(ValueError) <==> nodeCount <= -2
      ensures r.Fail? ==> r.error == ValueError
      ensures r.Pass? ==> nodes.Keys == IdRange(nodeCount)
      ensures r.Pass? ==> forall x :: x in nodes ==> nodes[x].id == x && nodes[x].out == map[]
      ensures r.Pass? ==> |AcceptingIds(nodes)| == TruncHalf(nodeCount)
    {
      var size := TruncHalf(nodeCount);
      var sample, picks := Random.Sample(IdList(nodeCount), size);
      if sample.Err? {
        return Fail(ValueError);
      }
      var positives := sample.value;
      forall j | 0 <= j < |positives| ensures positives[j] in nodes {
        IdRangeMember(nodeCount, positives[j]);
      }
      var j := 0;
      while j < |positives|
        invariant 0 <= j <= |positives|
        invariant nodes.Keys == IdRange(nodeCount)
        invariant forall x :: x in nodes ==> nodes[x].id == x && nodes[x].out == map[]
        invariant forall x :: x in nodes ==> (nodes[x].accept <==> x in positives[..j])
        invariant alphabet == old(alphabet) && edges == old(edges)
      {
        var pid := positives[j];
        assert positives[..j + 1] == positives[..j] + [pid];
        nodes := nodes[pid := nodes[pid].(accept := true)];
        j := j + 1;
      }
      assert positives[..j] == positives;
      assert AcceptingIds(nodes) == set x | x in positives;
      DistinctSize(positives);
      r := Pass;
    }

    /** The spanning loop of generate (lines 164-180): pick a visited source,
        an unvisited target and a symbol the source does not use yet; retry
        (one unit of fuel) when the source uses every symbol. */
    method SpanningTree(nodeCount: int, fuel: nat) returns (r: Outcome, ghost paths: map<int, seq<int>>)
      requires nodeCount >= -1 && nodes.Keys == IdRange(nodeCount)
      requires forall x :: x in nodes ==> nodes[x].out == map[]
      requires edges == [] && alphabet == SymbolRange(|alphabet|)
      modifies this
      ensures alphabet == old(alphabet) && Extends(nodes, old(nodes))
      ensures r == Fail(IndexError) <==> nodeCount >= 2 && alphabet == []
      ensures r.Fail? ==> r.error == IndexError || r.error == OutOfFuel
      ensures r.Pass? ==> Consistent(nodes, edges, |alphabet|) && Reachable(nodes, paths)
    {
      var visited := [-1];
      var unvisited := SymbolRange(nodeCount - 1);
      forall x | x in nodes ensures x == -1 || x in unvisited {
        IdRangeMember(nodeCount, x);
        if 0 <= x < nodeCount - 1 { assert unvisited[x] == x; }
      }
      forall x | x in unvisited ensures x in nodes && x != -1 {
        IdRangeMember(nodeCount, x);
      }
      IdRangeMember(nodeCount, -1);
      paths := map[-1 := []];
      ExtendsRefl(nodes);
      var fuelLeft := fuel;
      while |unvisited| > 0
        invariant alphabet == old(alphabet) && Extends(nodes, old(nodes))
        invariant Consistent(nodes, edges, |alphabet|)
        invariant Random.Distinct(unvisited)
        invariant forall x :: x in nodes ==> x in visited || x in unvisited
        invariant forall x :: x in unvisited ==> x in nodes && x !in visited
        invariant nodeCount >= 1 ==> -1 in nodes && Spanned(nodes, visited, paths)
        invariant nodeCount >= 1 ==> forall v :: v in visited ==> v in nodes
        invariant -1 in visited && (unvisited != [] ==> nodeCount >= 2)
        invariant alphabet == [] && nodeCount >= 2 ==> unvisited != []
        decreases |unvisited|, fuelLeft
      {
        var si :| 0 <= si < |visited|;
        var ti :| 0 <= ti < |unvisited|;
        var source, target := visited[si], unvisited[ti];
        if alphabet == [] {
          return Fail(IndexError), paths;
        }
        var selectable := Missing(alphabet, nodes[source].out);
        if selectable == [] {
          if fuelLeft == 0 {
            return Fail(OutOfFuel), paths;
          }
          fuelLeft := fuelLeft - 1;
          continue;
        }
        var yi :| 0 <= yi < |selectable|;
        var symbol := selectable[yi];
        assert 0 <= symbol < |alphabet| by {
          assert symbol in alphabet;
        }
        RemoveFirstDistinct(unvisited, target);
        visited := visited + [target];
        unvisited := RemoveFirst(unvisited, target);
        var e := Edge(source, target, symbol);
        ghost var before := nodes;
        AddKeepsConsistency(nodes, edges, e, |alphabet|);
        var added := AddEdge(e);
        SpanStep(nodes, before, visited[..|visited| - 1], paths, e);
        assert visited[..|visited| - 1] + [target] == visited;
        paths := paths[target := paths[source] + [symbol]];
        ExtendsTrans(nodes, before, old(nodes));
      }
      r := Pass;
      forall x | x in nodes ensures -1 in nodes && x in paths && Walk(nodes, -1, paths[x]) == Some(x) {
        assert x in visited;
      }
    }

    /** The completion pass of generate (lines 182-184): every node gets an
        edge, to an id drawn from -1 .. n-2, for each symbol it lacks. */
    method CompleteTransitions(nodeCount: int)
      requires nodeCount >= -1 && nodes.Keys == IdRange(nodeCount)
      requires Consistent(nodes, edges, |alphabet|)
      requires alphabet == SymbolRange(|alphabet|)
      modifies this
      ensures alphabet == old(alphabet) && Extends(nodes, old(nodes))
      ensures Consistent(nodes, edges, |alphabet|) && Total(nodes, |alphabet|)
    {
      var id := -1;
      while id < nodeCount - 1
        invariant -1 <= id <= (if nodeCount < 0 then -1 else nodeCount - 1)
        invariant alphabet == old(alphabet) && Extends(nodes, old(nodes))
        invariant Consistent(nodes, edges, |alphabet|)
        invariant forall x :: x in nodes && x < id ==> Complete(nodes[x].out, |alphabet|)
      {
        IdRangeMember(nodeCount, id);
        ghost var before := nodes;
        CompleteNode(id, nodeCount);
        ExtendsTrans(nodes, before, old(nodes));
        id := id + 1;
      }
      forall x, s | x in nodes ensures s in nodes[x].out <==> 0 <= s < |alphabet| {
        IdRangeMember(nodeCount, x);
        assert Complete(nodes[x].out, |alphabet|);
      }
    }

    /** One node of the completion pass: an edge for each missing symbol. */
    method CompleteNode(id: int, nodeCount: int)
      requires id in nodes && nodes.Keys == IdRange(nodeCount)
      requires Consistent(nodes, edges, |alphabet|)
      requires alphabet == SymbolRange(|alphabet|)
      modifies this
      ensures alphabet == old(alphabet) && Extends(nodes, old(nodes))
      ensures Consistent(nodes, edges, |alphabet|) && Complete(nodes[id].out, |alphabet|)
      ensures forall x :: x in nodes && x != id ==> nodes[x] == old(nodes)[x]
    {
      var missing := Missing(alphabet, nodes[id].out);
      ghost var start := nodes[id].out;
      var m := 0;
      while m < |missing|
        invariant 0 <= m <= |missing| && nodes.Keys == IdRange(nodeCount)
        invariant alphabet == old(alphabet) && Extends(nodes, old(nodes))
        invariant Consistent(nodes, edges, |alphabet|)
        invariant forall x :: x in nodes && x != id ==> nodes[x] == old(nodes)[x]
        invariant forall s :: s in nodes[id].out <==> s in start || s in missing[..m]
      {
        var target :| -1 <= target <= nodeCount - 2;
        IdRangeMember(nodeCount, target);
        var e := Edge(id, target, missing[m]);
        NextMissing(alphabet, start, nodes[id].out, missing, m);
        ghost var before := nodes;
        AddKeepsConsistency(nodes, edges, e, |alphabet|);
        var added := AddEdge(e);
        ExtendsTrans(nodes, before, old(nodes));
        m := m + 1;
      }
      MissingComplete(alphabet, start, nodes[id].out, missing);
    }
  }

  /** The next missing symbol is in range and not yet in out; adding it
      extends the symbols added so far by one. */
  lemma NextMissing(alphabet: seq<int>, start: map<int, Edge>, out: map<int, Edge>, missing: seq<int>, m: nat)
    requires alphabet == SymbolRange(|alphabet|)
    requires missing == Missing(alphabet, start) && m < |missing|
    requires forall s :: s in out <==> s in start || s in missing[..m]
    ensures missing[m] !in out && 0 <= missing[m] < |alphabet|
    ensures forall s :: s in out || s == missing[m] <==> s in start || s in missing[..m + 1]
  {
    assert missing[m] in missing;
    var j :| 0 <= j < |alphabet| && alphabet[j] == missing[m];
    assert missing[m] !in missing[..m];
    assert missing[..m + 1] == missing[..m] + [missing[m]];
  }

  /** Once every missing symbol is added, out holds exactly the alphabet. */
  lemma MissingComplete(alphabet: seq<int>, start: map<int, Edge>, out: map<int, Edge>, missing: seq<int>)
    requires alphabet == SymbolRange(|alphabet|)
    requires missing == Missing(alphabet, start)
    requires forall s :: s in out <==> s in start || s in missing[..|missing|]
    requires forall s :: s in out ==> 0 <= s < |alphabet|
    ensures Complete(out, |alphabet|)
  {
    assert missing[..|missing|] == missing;
    forall s ensures s in out <==> 0 <= s < |alphabet| {
      if 0 <= s < |alphabet| {
        assert alphabet[s] == s;
      }
    }
  }

  lemma ExtendsRefl(nodes: map<int, Node>)
    ensures Extends(nodes, nodes)
  {
    forall id | id in nodes ensures OutGrows(nodes[id].out, nodes[id].out) {
    }
  }

  /** Every node visited so far is reached from -1 along its recorded path. */
  ghost predicate Spanned(nodes: map<int, Node>, visited: seq<int>, paths: map<int, seq<int>>)
    requires -1 in nodes
  {
    forall v :: v in visited ==> v in paths && Walk(nodes, -1, paths[v]) == Some(v)
  }

  /** Adding the spanning edge source -symbol-> target reaches the target by
      the source's path followed by the symbol, and keeps every older path. */
  lemma SpanStep(nodes2: map<int, Node>, nodes1: map<int, Node>, visited: seq<int>,
                 paths: map<int, seq<int>>, e: Edge)
    requires -1 in nodes1 && Extends(nodes2, nodes1) && Spanned(nodes1, visited, paths)
    requires e.source in visited && e.target in nodes2
    requires e.symbol in nodes2[e.source].out && nodes2[e.source].out[e.symbol] == e
    ensures Spanned(nodes2, visited + [e.target], paths[e.target := paths[e.source] + [e.symbol]])
  {
    var paths2 := paths[e.target := paths[e.source] + [e.symbol]];
    forall v | v in visited + [e.target]
      ensures v in paths2 && Walk(nodes2, -1, paths2[v]) == Some(v)
    {
      if v == e.target {
        WalkExtends(nodes2, nodes1, -1, paths[e.source]);
        WalkConcat(nodes2, -1, paths[e.source], [e.symbol]);
        assert Walk(nodes2, e.source, [e.symbol]) == Walk(nodes2, e.target, []);
      } else {
        WalkExtends(nodes2, nodes1, -1, paths[v]);
      }
    }
  }

  /** Adding edges leaves the accepting ids as they were. */
  lemma ExtendsAccepting(nodes2: map<int, Node>, nodes1: map<int, Node>)
    requires Extends(nodes2, nodes1)
    ensures AcceptingIds(nodes2) == AcceptingIds(nodes1)
  {
    forall id ensures id in AcceptingIds(nodes2) <==> id in AcceptingIds(nodes1) {
      if id in nodes1 {
        assert nodes2[id].accept == nodes1[id].accept;
      }
    }
  }

  lemma ExtendsTrans(nodes3: map<int, Node>, nodes2: map<int, Node>, nodes1: map<int, Node>)
    requires Extends(nodes3, nodes2) && Extends(nodes2, nodes1)
    ensures Extends(nodes3, nodes1)
  {
    forall id | id in nodes1 ensures OutGrows(nodes3[id].out, nodes1[id].out) {
      assert OutGrows(nodes3[id].out, nodes2[id].out);
      assert OutGrows(nodes2[id].out, nodes1[id].out);
      forall s | s in nodes1[id].out ensures s in nodes3[id].out && nodes3[id].out[s] == nodes1[id].out[s] {
        OutGrowsAt(nodes2[id].out, nodes1[id].out, s);
        OutGrowsAt(nodes3[id].out, nodes2[id].out, s);
      }
    }
  }
}
