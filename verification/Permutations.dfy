/** Splits a set of order changes into chains, which end at a free index, and cycles. */
module Permutations {
  import opened Prelude
  import opened Components

  ghost predicate Edge(edges: seq<OrderChange>, a: int, b: int) {
    OrderChange(a, b) in edges
  }

  ghost predicate Entered(edges: seq<OrderChange>, x: int) {
    exists a :: Edge(edges, a, x)
  }

  ghost predicate Left(edges: seq<OrderChange>, x: int) {
    exists b :: Edge(edges, x, b)
  }

  /** No index is left twice or entered twice, and nothing moves onto itself. */
  ghost predicate Matching(edges: seq<OrderChange>) {
    && (forall i, j | 0 <= i < j < |edges| :: edges[i].prev != edges[j].prev && edges[i].next != edges[j].next)
    && (forall i | 0 <= i < |edges| :: edges[i].prev != edges[i].next)
  }

  ghost predicate OneToOne(edges: seq<OrderChange>) {
    && (forall a, b, c | Edge(edges, a, b) && Edge(edges, a, c) :: b == c)
    && (forall a, b, c | Edge(edges, a, c) && Edge(edges, b, c) :: a == b)
    && (forall a, b | Edge(edges, a, b) :: a != b)
  }

  lemma MatchingIsOneToOne(edges: seq<OrderChange>)
    requires Matching(edges)
    ensures OneToOne(edges)
  {
    forall a, b, c | Edge(edges, a, b) && Edge(edges, a, c) ensures b == c {
      var i :| 0 <= i < |edges| && edges[i] == OrderChange(a, b);
      var j :| 0 <= j < |edges| && edges[j] == OrderChange(a, c);
    }
    forall a, b, c | Edge(edges, a, c) && Edge(edges, b, c) ensures a == b {
      var i :| 0 <= i < |edges| && edges[i] == OrderChange(a, c);
      var j :| 0 <= j < |edges| && edges[j] == OrderChange(b, c);
    }
  }

  /** A list of distinct indices in which each one moves to the next. */
  ghost predicate Walk(edges: seq<OrderChange>, w: seq<int>) {
    && w != [] && NoRepeats(w)
    && forall i | 0 <= i < |w| - 1 :: Edge(edges, w[i], w[i + 1])
  }

  /** A walk that nothing enters at its start and nothing leaves at its end. */
  ghost predicate Chain(edges: seq<OrderChange>, w: seq<int>) {
    && Walk(edges, w) && |w| >= 2
    && !Entered(edges, w[0]) && !Left(edges, w[|w| - 1])
  }

  ghost predicate Cycle(edges: seq<OrderChange>, w: seq<int>) {
    Walk(edges, w) && |w| >= 2 && Edge(edges, w[|w| - 1], w[0])
  }

  /** The ascending list of everything linked to one of its members. */
  ghost predicate Component(edges: seq<OrderChange>, nodes: seq<int>) {
    && |nodes| >= 2 && Ascending(nodes)
    && Closed(edges, Elements(nodes))
    && forall x, y | x in nodes && y in nodes :: Linked(edges, x, y)
  }

  // ---------------------------------------------------------------- walks inside one component

  lemma StepOut(edges: seq<OrderChange>, w: seq<int>, a: int, b: int)
    requires OneToOne(edges) && Walk(edges, w)
    requires Edge(edges, a, b) && a in w && a != w[|w| - 1]
    ensures b in w && b != w[0]
  {
    var i :| 0 <= i < |w| && w[i] == a;
    assert Edge(edges, w[i], w[i + 1]);
  }

  lemma StepIn(edges: seq<OrderChange>, w: seq<int>, a: int, b: int)
    requires OneToOne(edges) && Walk(edges, w)
    requires Edge(edges, a, b) && b in w && b != w[0]
    ensures a in w && a != w[|w| - 1]
  {
    var i :| 0 <= i < |w| && w[i] == b;
    assert Edge(edges, w[i - 1], w[i - 1 + 1]);
  }

  /** A walk whose ends are free or joined to each other is closed under the edges ... */
  lemma WalkIsClosed(edges: seq<OrderChange>, w: seq<int>)
    requires OneToOne(edges) && Walk(edges, w)
    requires Entered(edges, w[0]) || Left(edges, w[|w| - 1]) ==> Edge(edges, w[|w| - 1], w[0])
    ensures Closed(edges, Elements(w))
  {
    var last := |w| - 1;
    forall e | e in edges ensures e.prev in Elements(w) <==> e.next in Elements(w) {
      assert Edge(edges, e.prev, e.next);
      if e.prev in w && e.prev != w[last] {
        StepOut(edges, w, e.prev, e.next);
      }
      if e.next in w && e.next != w[0] {
        StepIn(edges, w, e.prev, e.next);
      }
    }
  }

  /** ... and so visits its whole component. */
  lemma ClosedWalkCovers(edges: seq<OrderChange>, w: seq<int>, nodes: seq<int>)
    requires OneToOne(edges) && Walk(edges, w) && Component(edges, nodes) && w[0] in nodes
    requires Entered(edges, w[0]) || Left(edges, w[|w| - 1]) ==> Edge(edges, w[|w| - 1], w[0])
    ensures forall y | y in nodes :: y in w
  {
    WalkIsClosed(edges, w);
    forall y | y in nodes ensures y in w {
      assert Linked(edges, w[0], y);
      assert y in Elements(w);
    }
  }

  lemma WalkFits(edges: seq<OrderChange>, w: seq<int>, nodes: seq<int>)
    requires Walk(edges, w) && forall x | x in w :: x in nodes
    requires Ascending(nodes)
    ensures |w| <= |nodes|
    ensures |w| == |nodes| ==> forall x | x in nodes :: x in w
  {
    NoRepeatsSize(w);
    NoRepeatsSize(nodes);
    forall x | x in Elements(w) ensures x in Elements(nodes) {
      assert x in nodes;
    }
    SubsetSize(Elements(w), Elements(nodes));
    assert forall x | x in nodes :: x in Elements(nodes);
  }

  lemma SameSize(w: seq<int>, nodes: seq<int>)
    requires NoRepeats(w) && Ascending(nodes)
    requires (forall x | x in w :: x in nodes) && (forall x | x in nodes :: x in w)
    ensures |w| == |nodes| && Elements(w) == Elements(nodes)
  {
    NoRepeatsSize(w);
    NoRepeatsSize(nodes);
    forall x ensures x in Elements(w) <==> x in Elements(nodes) {
      assert x in w <==> x in nodes;
    }
    assert Elements(w) == Elements(nodes);
  }

  /** A successor already visited can only be the start of the walk, and then nothing is left to visit. */
  lemma ReturnsToStart(edges: seq<OrderChange>, w: seq<int>, y: int, nodes: seq<int>)
    requires OneToOne(edges) && Walk(edges, w) && Component(edges, nodes)
    requires forall x | x in w :: x in nodes
    requires Edge(edges, w[|w| - 1], y) && y in w
    ensures y == w[0] && |w| == |nodes|
  {
    if y != w[0] {
      StepIn(edges, w, w[|w| - 1], y);
      assert false;
    }
    ClosedWalkCovers(edges, w, nodes);
    SameSize(w, nodes);
  }

  lemma Extend(edges: seq<OrderChange>, w: seq<int>, y: int)
    requires Walk(edges, w) && Edge(edges, w[|w| - 1], y) && y !in w
    ensures Walk(edges, w + [y])
  {
    var v := w + [y];
    forall i | 0 <= i < |v| - 1 ensures Edge(edges, v[i], v[i + 1]) {
      if i < |w| - 1 {
        assert Edge(edges, w[i], w[i + 1]);
      }
    }
  }

  /** From an index nothing enters, following the moves visits the whole component and stops. */
  lemma {:induction false} ChainFrom(edges: seq<OrderChange>, w: seq<int>, nodes: seq<int>) returns (p: seq<int>)
    requires OneToOne(edges) && Walk(edges, w) && Component(edges, nodes)
    requires forall x | x in w :: x in nodes
    requires !Entered(edges, w[0])
    ensures Chain(edges, p) && p[0] == w[0]
    ensures forall x :: x in p <==> x in nodes
    decreases |nodes| - |w|
  {
    WalkFits(edges, w, nodes);
    if Left(edges, w[|w| - 1]) {
      var y :| Edge(edges, w[|w| - 1], y);
      if y in w {
        ReturnsToStart(edges, w, y, nodes);
        assert false;
      }
      assert y in Elements(nodes);
      Extend(edges, w, y);
      WalkFits(edges, w + [y], nodes);
      p := ChainFrom(edges, w + [y], nodes);
    } else {
      ClosedWalkCovers(edges, w, nodes);
      SameSize(w, nodes);
      p := w;
    }
  }

  /** When everything in a component is entered, everything in it is left. */
  lemma {:induction false} NoSink(edges: seq<OrderChange>, w: seq<int>, nodes: seq<int>)
    requires OneToOne(edges) && Walk(edges, w) && Component(edges, nodes)
    requires forall x | x in w :: x in nodes
    requires forall x | x in nodes :: Entered(edges, x)
    requires !Left(edges, w[|w| - 1])
    ensures false
    decreases |nodes| - |w|
  {
    assert w[0] in nodes by {
      var x := w[0];
      assert x in w;
      assert x in nodes;
    }
    var a :| Edge(edges, a, w[0]);
    assert a in Elements(nodes);
    if a in w {
      StepOut(edges, w, a, w[0]);
      assert false;
    }
    var v := [a] + w;
    assert Walk(edges, v) by {
      forall i | 0 <= i < |v| - 1 ensures Edge(edges, v[i], v[i + 1]) {
        if i > 0 {
          assert Edge(edges, w[i - 1], w[i - 1 + 1]);
        }
      }
    }
    WalkFits(edges, v, nodes);
    NoSink(edges, v, nodes);
  }

  // ---------------------------------------------------------------- the algorithm

  /** `graph` points every index that moves at its target. */
  ghost predicate GraphOf(graph: seq<Option<int>>, edges: seq<OrderChange>) {
    forall x | 0 <= x < |graph| ::
      if graph[x].Some? then Edge(edges, x, graph[x].value) else !Left(edges, x)
  }

  method BuildGraph(edges: seq<OrderChange>, n: nat) returns (graph: array<Option<int>>)
    requires InRange(edges, n) && Matching(edges)
    ensures fresh(graph) && graph.Length == n && GraphOf(graph[..], edges)
  {
    graph := new Option<int>[n](i => None);
    for k := 0 to |edges|
      invariant forall x | 0 <= x < n && graph[x].Some? :: Edge(edges, x, graph[x].value)
      invariant forall j | 0 <= j < k :: graph[edges[j].prev].Some?
    {
      assert edges[k] in edges;
      graph[edges[k].prev] := Some(edges[k].next);
    }
    forall x | 0 <= x < n && graph[x].None? ensures !Left(edges, x) {
      assert forall e | e in edges :: graph[e.prev].Some?;
    }
  }

  /** Every in-degree is 0 or 1, so the counters say exactly which indices are entered. */
  method CountInDegrees(edges: seq<OrderChange>, n: nat) returns (inDegree: array<int>)
    requires InRange(edges, n) && Matching(edges)
    ensures fresh(inDegree) && inDegree.Length == n
    ensures forall x | 0 <= x < n :: inDegree[x] == if Entered(edges, x) then 1 else 0
  {
    inDegree := new int[n](i => 0);
    for k := 0 to |edges|
      invariant forall x | 0 <= x < n ::
        inDegree[x] == if exists j :: 0 <= j < k && edges[j].next == x then 1 else 0
    {
      assert edges[k] in edges;
      inDegree[edges[k].next] := inDegree[edges[k].next] + 1;
    }
    forall x | 0 <= x < n ensures Entered(edges, x) <==> exists j :: 0 <= j < |edges| && edges[j].next == x {
      if exists j :: 0 <= j < |edges| && edges[j].next == x {
        var j :| 0 <= j < |edges| && edges[j].next == x;
        assert Edge(edges, edges[j].prev, x);
      }
    }
  }

  /** One step around a component in which everything is entered: there is a next index, and it is new
      until the whole component has been visited. */
  lemma NextOnCycle(edges: seq<OrderChange>, nodes: seq<int>, w: seq<int>, y: int)
    requires OneToOne(edges) && Component(edges, nodes) && (forall x | x in nodes :: Entered(edges, x))
    requires Walk(edges, w) && (forall x | x in w :: x in nodes)
    requires Edge(edges, w[|w| - 1], y)
    ensures y in nodes && (y in w ==> |w| == |nodes|)
  {
    assert w[|w| - 1] in w;
    assert w[|w| - 1] in Elements(nodes) && y in Elements(nodes);
    if y in w {
      ReturnsToStart(edges, w, y, nodes);
    }
  }

  lemma CycleGoesOn(edges: seq<OrderChange>, nodes: seq<int>, x: int)
    requires OneToOne(edges) && Component(edges, nodes) && (forall y | y in nodes :: Entered(edges, y)) && x in nodes
    ensures Left(edges, x)
  {
    if !Left(edges, x) {
      NoSink(edges, [x], nodes);
    }
  }

  /** Follows the moves once around a component in which everything is entered. */
  method WalkCycle(graph: array<Option<int>>, edges: seq<OrderChange>, nodes: seq<int>) returns (cycle: seq<int>)
    requires OneToOne(edges) && GraphOf(graph[..], edges) && Component(edges, nodes)
    requires forall x | x in nodes :: 0 <= x < graph.Length && Entered(edges, x)
    ensures Cycle(edges, cycle)
    ensures forall x :: x in cycle <==> x in nodes
  {
    var orderedCycle := new int[|nodes|];
    var first := nodes[0];
    ghost var w: seq<int> := [];
    for i := 0 to |nodes|
      invariant orderedCycle[..i] == w && forall x | x in w :: x in nodes
      invariant first in nodes
      invariant w != [] ==> Walk(edges, w) && Edge(edges, w[|w| - 1], first)
      invariant i < |nodes| ==> first !in w
    {
      orderedCycle[i] := first;
      if w != [] {
        Extend(edges, w, first);
      }
      w := w + [first];
      CycleGoesOn(edges, nodes, first);
      assert 0 <= first < graph.Length;
      first := graph[first].value;
      assert Edge(edges, w[|w| - 1], first);
      NextOnCycle(edges, nodes, w, first);
    }
    cycle := orderedCycle[..];
    assert cycle == w;
    WalkFits(edges, cycle, nodes);
    ReturnsToStart(edges, cycle, first, nodes);
  }

  /** Collects the indices of a component that nothing enters. */
  method ZeroInDegree(inDegree: array<int>, nodes: seq<int>) returns (zero: seq<int>)
    requires Ascending(nodes) && forall x | x in nodes :: 0 <= x < inDegree.Length
    ensures NoRepeats(zero)
    ensures forall x :: x in zero <==> x in nodes && inDegree[x] == 0
  {
    zero := [];
    for i := 0 to |nodes|
      invariant NoRepeats(zero)
      invariant forall x :: x in zero <==> 0 <= x < inDegree.Length && x in nodes[..i] && inDegree[x] == 0
    {
      assert nodes[i] in nodes;
      if inDegree[nodes[i]] == 0 {
        assert nodes[i] !in nodes[..i];
        zero := zero + [nodes[i]];
      }
    }
  }

  /** Along a chain the graph leads from each index to the next and stops at the last. */
  lemma GraphFollowsChain(graph: seq<Option<int>>, edges: seq<OrderChange>, p: seq<int>)
    requires OneToOne(edges) && GraphOf(graph, edges) && Chain(edges, p)
    requires forall k | 0 <= k < |p| :: 0 <= p[k] < |graph|
    ensures forall k | 0 <= k < |p| :: graph[p[k]] == if k + 1 < |p| then Some(p[k + 1]) else None
    ensures forall k | 0 < k < |p| :: Entered(edges, p[k])
  {
    forall k | 0 <= k < |p| - 1 ensures graph[p[k]] == Some(p[k + 1]) {
      assert Edge(edges, p[k], p[k + 1]);
    }
    forall k | 0 < k < |p| ensures Entered(edges, p[k]) {
      assert Edge(edges, p[k - 1], p[k - 1 + 1]);
    }
  }

  /** Kahn's loop on a chain: the queue holds the next index until the chain ends. */
  method Drain(graph: array<Option<int>>, inDegree: array<int>, start: seq<int>, ghost p: seq<int>)
    returns (topoSorted: seq<int>)
    requires graph.Length == inDegree.Length && p != [] && NoRepeats(p) && start == [p[0]]
    requires forall k | 0 <= k < |p| :: 0 <= p[k] < graph.Length
    requires forall k | 0 <= k < |p| :: graph[p[k]] == if k + 1 < |p| then Some(p[k + 1]) else None
    requires forall k | 0 < k < |p| :: inDegree[p[k]] == 1
    modifies inDegree
    ensures topoSorted == p
  {
    topoSorted := [];
    var zeroInDegree := start;
    ghost var k := 0;
    while |zeroInDegree| > 0
      invariant 0 <= k <= |p| && topoSorted == p[..k]
      invariant zeroInDegree == if k < |p| then [p[k]] else []
      invariant forall j | k < j < |p| :: inDegree[p[j]] == 1
      decreases |p| - k
    {
      var node := zeroInDegree[0];
      zeroInDegree := zeroInDegree[1..];
      topoSorted := topoSorted + [node];
      var next := graph[node];
      assert node == p[k] && next == if k + 1 < |p| then Some(p[k + 1]) else None;
      k := k + 1;
      if next.None? {
        continue;
      }
      assert next.value == p[k] && 0 <= p[k] < inDegree.Length && inDegree[p[k]] == 1;
      inDegree[next.value] := inDegree[next.value] - 1;
      if inDegree[next.value] == 0 {
        zeroInDegree := zeroInDegree + [next.value];
      }
    }
  }

  /** Kahn's walk from the one index of a component that nothing enters. */
  method SortChain(graph: array<Option<int>>, inDegree: array<int>, start: seq<int>,
                   edges: seq<OrderChange>, nodes: seq<int>)
    returns (topoSorted: seq<int>)
    requires OneToOne(edges) && GraphOf(graph[..], edges) && Component(edges, nodes)
    requires graph.Length == inDegree.Length
    requires forall x | x in nodes :: 0 <= x < graph.Length
    requires forall x | x in nodes :: inDegree[x] == if Entered(edges, x) then 1 else 0
    requires start != [] && NoRepeats(start)
    requires forall x | x in start :: x in nodes && !Entered(edges, x)
    modifies inDegree
    ensures Chain(edges, topoSorted)
    ensures forall x :: x in topoSorted <==> x in nodes
  {
    ghost var p := ChainFrom(edges, [start[0]], nodes);
    OnlyOneStart(edges, p, start);
    assert forall k | 0 <= k < |p| :: p[k] in p;
    GraphFollowsChain(graph[..], edges, p);
    topoSorted := Drain(graph, inDegree, start, p);
  }

  lemma StartIsOnlyUnentered(edges: seq<OrderChange>, p: seq<int>, x: int)
    requires Walk(edges, p) && x in p && x != p[0]
    ensures Entered(edges, x)
  {
    var i :| 0 <= i < |p| && p[i] == x;
    assert Edge(edges, p[i - 1], p[i - 1 + 1]);
  }

  lemma OnlyOneStart(edges: seq<OrderChange>, p: seq<int>, start: seq<int>)
    requires OneToOne(edges) && Chain(edges, p)
    requires start != [] && NoRepeats(start) && p[0] == start[0]
    requires forall x | x in start :: x in p && !Entered(edges, x)
    ensures start == [p[0]]
  {
    if |start| > 1 {
      var x := start[1];
      assert x in start;
      StartIsOnlyUnentered(edges, p, x);
      assert false;
    }
  }

  /** One component becomes a chain when something in it is not entered, and a cycle otherwise. */
  method CheckCycleOrTopoSort(graph: array<Option<int>>, edges: seq<OrderChange>, nodes: seq<int>, n: nat)
    returns (sorted: seq<int>, isTree: bool)
    requires InRange(edges, n) && Matching(edges) && Component(edges, nodes)
    requires graph.Length == n && GraphOf(graph[..], edges)
    requires forall x | x in nodes :: 0 <= x < n
    ensures if isTree then Chain(edges, sorted) else Cycle(edges, sorted)
    ensures forall x :: x in sorted <==> x in nodes
  {
    MatchingIsOneToOne(edges);
    var inDegree := CountInDegrees(edges, n);
    var zeroInDegree := ZeroInDegree(inDegree, nodes);
    if |zeroInDegree| == 0 {
      sorted := WalkCycle(graph, edges, nodes);
      isTree := false;
    } else {
      sorted := SortChain(graph, inDegree, zeroInDegree, edges, nodes);
      isTree := true;
    }
  }

  ghost predicate Apart(a: seq<int>, b: seq<int>) {
    forall x | x in a :: x !in b
  }

  ghost predicate NodeDisjoint(trees: seq<seq<int>>, cycles: seq<seq<int>>) {
    && (forall i, j | 0 <= i < j < |trees| :: Apart(trees[i], trees[j]))
    && (forall i, j | 0 <= i < j < |cycles| :: Apart(cycles[i], cycles[j]))
    && (forall i, j | 0 <= i < |trees| && 0 <= j < |cycles| :: Apart(trees[i], cycles[j]))
  }

  ghost predicate InSome(parts: seq<seq<int>>, x: int) {
    exists i :: 0 <= i < |parts| && x in parts[i]
  }

  ghost predicate Touched(edges: seq<OrderChange>, x: int) {
    Entered(edges, x) || Left(edges, x)
  }

  /** Node-disjoint chains and cycles of the edges that cover exactly the touched indices. */
  ghost predicate Decomposes(edges: seq<OrderChange>, trees: seq<seq<int>>, cycles: seq<seq<int>>) {
    && (forall i | 0 <= i < |trees| :: Chain(edges, trees[i]))
    && (forall i | 0 <= i < |cycles| :: Cycle(edges, cycles[i]))
    && NodeDisjoint(trees, cycles)
    && (forall x :: Touched(edges, x) <==> InSome(trees, x) || InSome(cycles, x))
  }

  lemma BucketIsComponent(edges: seq<OrderChange>, root: seq<int>, nodes: seq<int>, r: int)
    requires RootsAreLinks(edges, root) && InRange(edges, |root|)
    requires |nodes| >= 2 && Ascending(nodes)
    requires forall x :: x in nodes <==> 0 <= x < |root| && root[x] == r
    ensures Component(edges, nodes)
  {
    forall e | e in edges ensures e.prev in Elements(nodes) <==> e.next in Elements(nodes) {
      EdgeEndsAreLinked(edges, e);
      assert root[e.prev] == root[e.next];
    }
  }

  /** Everything in a chain or a cycle is touched. */
  lemma WalkIsTouched(edges: seq<OrderChange>, w: seq<int>, x: int)
    requires Walk(edges, w) && |w| >= 2 && x in w
    ensures Touched(edges, x)
  {
    if x == w[0] {
      assert Edge(edges, w[0], w[0 + 1]);
    } else {
      StartIsOnlyUnentered(edges, w, x);
    }
  }

  /** An index alone in its component is touched by no edge. */
  lemma AloneIsUntouched(edges: seq<OrderChange>, root: seq<int>, nodes: seq<int>, x: int)
    requires RootsAreLinks(edges, root) && InRange(edges, |root|) && OneToOne(edges)
    requires nodes == [x] && 0 <= x < |root|
    requires forall y :: y in nodes <==> 0 <= y < |root| && root[y] == root[x]
    ensures !Touched(edges, x)
  {
    forall e | e in edges ensures e.prev != x && e.next != x {
      EdgeEndsAreLinked(edges, e);
      assert Edge(edges, e.prev, e.next);
      assert root[e.prev] == root[e.next];
    }
  }

  /** What the component loop has done once only the roots in `todo` are left. */
  ghost predicate Progress(edges: seq<OrderChange>, root: seq<int>, todo: set<int>,
                           trees: seq<seq<int>>, cycles: seq<seq<int>>) {
    && (forall i | 0 <= i < |trees| :: Chain(edges, trees[i]))
    && (forall i | 0 <= i < |cycles| :: Cycle(edges, cycles[i]))
    && NodeDisjoint(trees, cycles)
    && (forall x :: InSome(trees, x) || InSome(cycles, x) <==>
          0 <= x < |root| && root[x] !in todo && Touched(edges, x))
  }

  lemma AddTree(edges: seq<OrderChange>, root: seq<int>, todo: set<int>,
                trees: seq<seq<int>>, cycles: seq<seq<int>>, r: int, tree: seq<int>)
    requires Progress(edges, root, todo, trees, cycles) && r in todo
    requires Chain(edges, tree) && forall x :: x in tree <==> 0 <= x < |root| && root[x] == r
    ensures Progress(edges, root, todo - {r}, trees + [tree], cycles)
  {
    forall i, x | 0 <= i < |trees| && x in trees[i] ensures x !in tree { assert InSome(trees, x); }
    forall i, x | 0 <= i < |cycles| && x in cycles[i] ensures x !in tree { assert InSome(cycles, x); }
    forall x | x in tree ensures Touched(edges, x) { WalkIsTouched(edges, tree, x); }
    InSomeAppend(trees, tree);
  }

  lemma AddCycle(edges: seq<OrderChange>, root: seq<int>, todo: set<int>,
                 trees: seq<seq<int>>, cycles: seq<seq<int>>, r: int, cycle: seq<int>)
    requires Progress(edges, root, todo, trees, cycles) && r in todo
    requires Cycle(edges, cycle) && forall x :: x in cycle <==> 0 <= x < |root| && root[x] == r
    ensures Progress(edges, root, todo - {r}, trees, cycles + [cycle])
  {
    forall i, x | 0 <= i < |trees| && x in trees[i] ensures x !in cycle { assert InSome(trees, x); }
    forall i, x | 0 <= i < |cycles| && x in cycles[i] ensures x !in cycle { assert InSome(cycles, x); }
    forall x | x in cycle ensures Touched(edges, x) { WalkIsTouched(edges, cycle, x); }
    InSomeAppend(cycles, cycle);
  }

  lemma InSomeAppend(parts: seq<seq<int>>, part: seq<int>)
    ensures forall x :: InSome(parts + [part], x) <==> InSome(parts, x) || x in part
  {
    var parts' := parts + [part];
    forall x ensures InSome(parts', x) <==> InSome(parts, x) || x in part {
      if InSome(parts, x) {
        var i :| 0 <= i < |parts| && x in parts[i];
        assert x in parts'[i];
      }
      if x in part {
        assert x in parts'[|parts|];
      }
    }
  }

  /** Splits the order changes; components are visited in whatever order the map gives. */
  method FindTreesAndCycles(edges: seq<OrderChange>, n: nat) returns (trees: seq<seq<int>>, cycles: seq<seq<int>>)
    requires InRange(edges, n) && Matching(edges)
    ensures Decomposes(edges, trees, cycles)
  {
    MatchingIsOneToOne(edges);
    var components, root := FindConnectedComponents(n, edges);
    var graph := BuildGraph(edges, n);
    trees, cycles := [], [];
    var todo: set<int> := components.Keys;
    while todo != {}
      invariant todo <= components.Keys
      invariant GraphOf(graph[..], edges)
      invariant Progress(edges, root, todo, trees, cycles)
    {
      var r := AnyOf(todo);
      var nodes := components[r];
      if |nodes| == 1 {
        assert nodes[0] in nodes;
        AloneIsUntouched(edges, root, nodes, nodes[0]);
        todo := todo - {r};
        continue;
      }
      BucketIsComponent(edges, root, nodes, r);
      var sorted, isTree := CheckCycleOrTopoSort(graph, edges, nodes, n);
      if isTree {
        AddTree(edges, root, todo, trees, cycles, r, sorted);
        trees := trees + [sorted];
      } else {
        AddCycle(edges, root, todo, trees, cycles, r, sorted);
        cycles := cycles + [sorted];
      }
      todo := todo - {r};
    }
  }

  // ---------------------------------------------------------------- what a decomposition means

  /** A position in a decomposition: the step out of element `pos` of one chain or cycle. */
  datatype Place = Place(inCycle: bool, part: nat, pos: nat)

  /** The step at `p` is the edge `e`. */
  ghost predicate StepAt(trees: seq<seq<int>>, cycles: seq<seq<int>>, p: Place, e: OrderChange) {
    if p.inCycle then
      && p.part < |cycles| && p.pos < |cycles[p.part]|
      && cycles[p.part][p.pos] == e.prev
      && (if p.pos + 1 < |cycles[p.part]| then cycles[p.part][p.pos + 1] else cycles[p.part][0]) == e.next
    else
      && p.part < |trees| && p.pos + 1 < |trees[p.part]|
      && trees[p.part][p.pos] == e.prev && trees[p.part][p.pos + 1] == e.next
  }

  /** Every edge is the step at some position of a chain or cycle ... */
  lemma EdgeHasPlace(edges: seq<OrderChange>, trees: seq<seq<int>>, cycles: seq<seq<int>>, e: OrderChange)
    returns (p: Place)
    requires OneToOne(edges) && Decomposes(edges, trees, cycles) && e in edges
    ensures StepAt(trees, cycles, p, e)
  {
    assert Edge(edges, e.prev, e.next);
    assert Touched(edges, e.prev);
    if InSome(trees, e.prev) {
      var i :| 0 <= i < |trees| && e.prev in trees[i];
      assert Chain(edges, trees[i]);
      var k :| 0 <= k < |trees[i]| && trees[i][k] == e.prev;
      assert Edge(edges, trees[i][k], trees[i][k + 1]);
      p := Place(false, i, k);
    } else {
      var i :| 0 <= i < |cycles| && e.prev in cycles[i];
      assert Cycle(edges, cycles[i]);
      var k :| 0 <= k < |cycles[i]| && cycles[i][k] == e.prev;
      if k + 1 < |cycles[i]| {
        assert Edge(edges, cycles[i][k], cycles[i][k + 1]);
      }
      p := Place(true, i, k);
    }
  }

  /** ... and of no other: the decomposition uses every edge exactly once. */
  lemma EveryEdgeExactlyOnce(edges: seq<OrderChange>, trees: seq<seq<int>>, cycles: seq<seq<int>>, e: OrderChange)
    requires Matching(edges) && Decomposes(edges, trees, cycles) && e in edges
    ensures exists p :: StepAt(trees, cycles, p, e) && forall q | StepAt(trees, cycles, q, e) :: q == p
  {
    MatchingIsOneToOne(edges);
    var p := EdgeHasPlace(edges, trees, cycles, e);
    forall q | StepAt(trees, cycles, q, e) ensures q == p {
      PlaceIsUnique(edges, trees, cycles, e.prev, p, q);
    }
  }

  /** The element found at a place. */
  ghost predicate ElementAt(trees: seq<seq<int>>, cycles: seq<seq<int>>, p: Place, x: int) {
    if p.inCycle then p.part < |cycles| && p.pos < |cycles[p.part]| && cycles[p.part][p.pos] == x
    else p.part < |trees| && p.pos < |trees[p.part]| && trees[p.part][p.pos] == x
  }

  lemma PlaceIsUnique(edges: seq<OrderChange>, trees: seq<seq<int>>, cycles: seq<seq<int>>,
                      x: int, p: Place, q: Place)
    requires Decomposes(edges, trees, cycles)
    requires ElementAt(trees, cycles, p, x) && ElementAt(trees, cycles, q, x)
    ensures p == q
  {
    if p.inCycle && q.inCycle {
      NotApart(cycles[p.part], cycles[q.part], x);
      assert Cycle(edges, cycles[p.part]);
    } else if !p.inCycle && !q.inCycle {
      NotApart(trees[p.part], trees[q.part], x);
      assert Chain(edges, trees[p.part]);
    } else if p.inCycle {
      NotApart(trees[q.part], cycles[p.part], x);
    } else {
      NotApart(trees[p.part], cycles[q.part], x);
    }
  }

  lemma NotApart(a: seq<int>, b: seq<int>, x: int)
    requires x in a && x in b
    ensures !Apart(a, b) && !Apart(b, a)
  {
  }

  /** Conversely, every step of a decomposition is one of the edges. */
  lemma EveryStepIsAnEdge(edges: seq<OrderChange>, trees: seq<seq<int>>, cycles: seq<seq<int>>,
                          p: Place, e: OrderChange)
    requires Decomposes(edges, trees, cycles) && StepAt(trees, cycles, p, e)
    ensures e in edges
  {
    if p.inCycle {
      assert Cycle(edges, cycles[p.part]);
      if p.pos + 1 < |cycles[p.part]| {
        assert Edge(edges, cycles[p.part][p.pos], cycles[p.part][p.pos + 1]);
      }
    } else {
      assert Chain(edges, trees[p.part]);
      assert Edge(edges, trees[p.part][p.pos], trees[p.part][p.pos + 1]);
    }
  }
}
