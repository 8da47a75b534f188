/** Connected components of a set of order changes, by union-find with path halving. */
module Components {
  /** One item moves from index `prev` to index `next`. */
  datatype OrderChange = OrderChange(prev: int, next: int)

  ghost predicate InRange(edges: seq<OrderChange>, n: nat) {
    forall e | e in edges :: 0 <= e.prev < n && 0 <= e.next < n
  }

  // ---------------------------------------------------------------- union-find

  /** Index `x` hangs in the tree named `root[x]`, with a rank above its parent's unless it is the root. */
  ghost predicate Hangs(parent: seq<int>, root: seq<int>, rank: seq<nat>, x: int)
    requires |root| == |parent| == |rank| && 0 <= x < |parent|
  {
    && 0 <= parent[x] < |parent|
    && 0 <= root[x] < |parent|
    && parent[root[x]] == root[x]
    && root[parent[x]] == root[x]
    && (parent[x] == x ==> root[x] == x)
    && (parent[x] != x ==> rank[parent[x]] < rank[x])
  }

  /** `parent` is a forest: no link closes a cycle and every index leads to its root. */
  ghost predicate Forest(parent: seq<int>, root: seq<int>, rank: seq<nat>) {
    && |root| == |parent| == |rank|
    && forall x {:trigger Hangs(parent, root, rank, x)} | 0 <= x < |parent| :: Hangs(parent, root, rank, x)
  }

  /** The parent array alone determines every root, whatever ranks witness the forest. */
  lemma {:induction false} RootsAreUnique(parent: seq<int>, root: seq<int>, rank: seq<nat>,
                                          root': seq<int>, rank': seq<nat>, x: int)
    requires Forest(parent, root, rank) && Forest(parent, root', rank')
    requires 0 <= x < |parent|
    ensures root[x] == root'[x]
    decreases rank[x]
  {
    assert Hangs(parent, root, rank, x) && Hangs(parent, root', rank', x);
    if parent[x] != x {
      RootsAreUnique(parent, root, rank, root', rank', parent[x]);
    }
  }

  /** Path halving at `x` keeps the forest and every root. */
  lemma HalvingKeepsRoots(parent: seq<int>, root: seq<int>, rank: seq<nat>, x: int)
    requires Forest(parent, root, rank)
    requires 0 <= x < |parent| && parent[x] != x
    ensures 0 <= parent[x] < |parent| && 0 <= parent[parent[x]] < |parent|
    ensures Forest(parent[x := parent[parent[x]]], root, rank)
    ensures root[parent[parent[x]]] == root[x] && rank[parent[parent[x]]] < rank[x]
  {
    assert Hangs(parent, root, rank, x);
    assert Hangs(parent, root, rank, parent[x]);
    var parent' := parent[x := parent[parent[x]]];
    forall y | 0 <= y < |parent'| ensures Hangs(parent', root, rank, y) {
      assert Hangs(parent, root, rank, y);
      assert Hangs(parent, root, rank, root[y]);
    }
  }

  /** The root never ranks above its members. */
  lemma {:induction false} RootRanksLowest(parent: seq<int>, root: seq<int>, rank: seq<nat>, x: int)
    requires Forest(parent, root, rank)
    requires 0 <= x < |parent|
    ensures 0 <= root[x] < |parent|
    ensures if parent[x] == x then root[x] == x else rank[root[x]] < rank[x]
    decreases rank[x]
  {
    assert Hangs(parent, root, rank, x);
    if parent[x] != x {
      RootRanksLowest(parent, root, rank, parent[x]);
    }
  }

  /** Pointing `x` straight at its root keeps the forest and every root. */
  lemma FlatteningKeepsRoots(parent: seq<int>, root: seq<int>, rank: seq<nat>, x: int)
    requires Forest(parent, root, rank)
    requires 0 <= x < |parent|
    ensures Forest(parent[x := root[x]], root, rank)
  {
    var parent' := parent[x := root[x]];
    RootRanksLowest(parent, root, rank, x);
    forall y | 0 <= y < |parent'| ensures Hangs(parent', root, rank, y) {
      assert Hangs(parent, root, rank, y);
      assert Hangs(parent, root, rank, x);
      assert Hangs(parent, root, rank, root[x]);
    }
  }

  /** Finds the root of `start`, halving the path on the way; no index changes its root. */
  method Merge(parent: array<int>, start: int, ghost root: seq<int>, ghost rank: seq<nat>) returns (x: int)
    requires Forest(parent[..], root, rank)
    requires 0 <= start < parent.Length
    modifies parent
    ensures Forest(parent[..], root, rank)
    ensures x == root[start] && 0 <= x < parent.Length && parent[x] == x
    ensures forall i | 0 <= i < parent.Length && old(parent[i]) == root[i] :: parent[i] == root[i]
  {
    x := start;
    assert Hangs(parent[..], root, rank, x);
    while parent[x] != x
      invariant 0 <= x < parent.Length
      invariant Forest(parent[..], root, rank) && Hangs(parent[..], root, rank, x)
      invariant root[x] == root[start]
      invariant forall i | 0 <= i < parent.Length && old(parent[i]) == root[i] :: parent[i] == root[i]
      decreases rank[x]
    {
      ghost var before := parent[..];
      HalvingKeepsRoots(before, root, rank, x);
      assert Hangs(before, root, rank, before[x]);
      parent[x] := parent[parent[x]];
      assert parent[..] == before[x := before[before[x]]];
      x := parent[x];
      assert Hangs(parent[..], root, rank, x);
    }
  }

  /** Linking root `a` under root `b` is again a forest; exactly the members of `a` move to `b`. */
  lemma UnionForest(parent: seq<int>, root: seq<int>, rank: seq<nat>, a: int, b: int)
    returns (root': seq<int>, rank': seq<nat>)
    requires Forest(parent, root, rank)
    requires 0 <= a < |parent| && 0 <= b < |parent| && parent[a] == a && parent[b] == b
    ensures Forest(parent[a := b], root', rank')
    ensures forall x | 0 <= x < |parent| :: root'[x] == if root[x] == a then b else root[x]
  {
    root' := seq(|root|, x requires 0 <= x < |root| => if root[x] == a then b else root[x]);
    rank' := seq(|rank|, x requires 0 <= x < |rank| => 
      if a != b && root[x] == a then rank[x] + rank[b] + 1 else rank[x]);
    var parent' := parent[a := b];
    assert Hangs(parent, root, rank, a) && Hangs(parent, root, rank, b);
    forall y | 0 <= y < |parent'| ensures Hangs(parent', root', rank', y) {
      assert Hangs(parent, root, rank, y);
    }
  }

  // ---------------------------------------------------------------- connectivity

  ghost predicate Closed(edges: seq<OrderChange>, s: set<int>) {
    forall e | e in edges :: e.prev in s <==> e.next in s
  }

  /** The undirected closure of the edges: `j` is in every edge-closed set that holds `i`. */
  ghost predicate Linked(edges: seq<OrderChange>, i: int, j: int) {
    forall s: set<int> | Closed(edges, s) && i in s :: j in s
  }

  ghost predicate RootsAreLinks(edges: seq<OrderChange>, root: seq<int>) {
    forall i, j | 0 <= i < |root| && 0 <= j < |root| :: root[i] == root[j] <==> Linked(edges, i, j)
  }

  lemma NoEdgesNoLinks(i: int, j: int)
    ensures Linked([], i, j) <==> i == j
  {
    assert Closed([], {i});
  }

  /** Adding an edge and joining the two roots keeps "same root" equal to "linked". */
  lemma UnionLinks(edges: seq<OrderChange>, e: OrderChange, root: seq<int>, root': seq<int>)
    requires RootsAreLinks(edges, root)
    requires |root'| == |root| && 0 <= e.prev < |root| && 0 <= e.next < |root|
    requires forall x | 0 <= x < |root| ::
               root'[x] == if root[x] == root[e.prev] then root[e.next] else root[x]
    requires InRange(edges, |root|)
    ensures RootsAreLinks(edges + [e], root')
  {
    var edges' := edges + [e];
    forall i, j | 0 <= i < |root| && 0 <= j < |root|
      ensures root'[i] == root'[j] <==> Linked(edges', i, j)
    {
      if root'[i] == root'[j] {
        forall s: set<int> | Closed(edges', s) && i in s ensures j in s {
          assert e in edges';
          assert Closed(edges, s) by {
            forall f | f in edges ensures f.prev in s <==> f.next in s { assert f in edges'; }
          }
          assert forall x, y | 0 <= x < |root| && 0 <= y < |root| && root[x] == root[y] && x in s ::
                   Linked(edges, x, y) && y in s;
        }
      }
      if Linked(edges', i, j) {
        var s := set x | 0 <= x < |root| && root'[x] == root'[i];
        assert Closed(edges', s) by {
          forall f | f in edges' ensures f.prev in s <==> f.next in s {
            if f in edges {
              EdgeEndsAreLinked(edges, f);
              assert root[f.prev] == root[f.next];
            }
          }
        }
      }
    }
  }

  lemma EdgeEndsAreLinked(edges: seq<OrderChange>, e: OrderChange)
    requires e in edges
    ensures Linked(edges, e.prev, e.next) && Linked(edges, e.next, e.prev)
  {
  }

  // ---------------------------------------------------------------- components

  ghost predicate Ascending(s: seq<int>) {
    forall i, j | 0 <= i < j < |s| :: s[i] < s[j]
  }

  /** The members below `k` of the tree with root `r`, in ascending order. */
  ghost function Bucket(root: seq<int>, r: int, k: nat): seq<int>
    requires k <= |root|
  {
    if k == 0 then [] else Bucket(root, r, k - 1) + if root[k - 1] == r then [k - 1] else []
  }

  lemma {:induction false} BucketMembers(root: seq<int>, r: int, k: nat)
    requires k <= |root|
    ensures Ascending(Bucket(root, r, k))
    ensures forall x :: x in Bucket(root, r, k) <==> 0 <= x < k && root[x] == r
  {
    if k > 0 {
      BucketMembers(root, r, k - 1);
      var rest := Bucket(root, r, k - 1);
      assert forall i | 0 <= i < |rest| :: rest[i] in rest;
    }
  }

  /** `components` maps each root to the ascending list of all its members. */
  ghost predicate Partition(components: map<int, seq<int>>, root: seq<int>) {
    && (forall i | 0 <= i < |root| :: root[i] in components)
    && (forall r | r in components ::
          && components[r] != [] && Ascending(components[r])
          && (forall x :: x in components[r] <==> 0 <= x < |root| && root[x] == r))
  }

  /** Some bucket holds both indices. */
  ghost predicate Together(components: map<int, seq<int>>, i: int, j: int) {
    exists r | r in components :: i in components[r] && j in components[r]
  }

  /** The buckets are ascending lists of indices below `n`, none is empty, no index is in two of them, and
      two indices (so also an index and itself) are together exactly when the edges link them. */
  ghost predicate LinkedBuckets(components: map<int, seq<int>>, edges: seq<OrderChange>, n: nat) {
    && (forall r | r in components ::
          components[r] != [] && Ascending(components[r]) && forall x | x in components[r] :: 0 <= x < n)
    && (forall r, s, x | r in components && s in components && x in components[r] && x in components[s] :: r == s)
    && (forall i, j | 0 <= i < n && 0 <= j < n :: Together(components, i, j) <==> Linked(edges, i, j))
  }

  lemma RootsMakeBuckets(components: map<int, seq<int>>, edges: seq<OrderChange>, root: seq<int>)
    requires Partition(components, root) && RootsAreLinks(edges, root)
    ensures LinkedBuckets(components, edges, |root|)
  {
    forall i, j | 0 <= i < |root| && 0 <= j < |root|
      ensures Together(components, i, j) <==> Linked(edges, i, j)
    {
      var r := root[i];
      assert r in components;
      assert i in components[r];
      assert j in components[r] <==> root[j] == r;
      if Together(components, i, j) {
        var s :| s in components && i in components[s] && j in components[s];
        assert root[i] == s == root[j];
      }
    }
  }

  /** Buckets partition `0..n`, each ascending, and two indices share one exactly when linked. */
  method FindConnectedComponents(n: nat, edges: seq<OrderChange>)
    returns (components: map<int, seq<int>>, ghost root: seq<int>)
    requires InRange(edges, n)
    ensures LinkedBuckets(components, edges, n)
    ensures |root| == n && Partition(components, root)
    ensures RootsAreLinks(edges, root)
  {
    var parent := new int[n](i => i);
    root := seq(n, i => i);
    ghost var rank: seq<nat> := seq(n, i => 0);
    assert RootsAreLinks([], root) by {
      forall i, j | 0 <= i < n && 0 <= j < n ensures root[i] == root[j] <==> Linked([], i, j) {
        NoEdgesNoLinks(i, j);
      }
    }
    assert edges[..0] == [];
    for k := 0 to |edges|
      invariant |root| == n && Forest(parent[..], root, rank)
      invariant RootsAreLinks(edges[..k], root)
    {
      assert edges[k] in edges;
      var from := Merge(parent, edges[k].prev, root, rank);
      assert Hangs(parent[..], root, rank, from);
      var to := Merge(parent, edges[k].next, root, rank);
      ghost var root', rank' := UnionForest(parent[..], root, rank, from, to);
      UnionLinks(edges[..k], edges[k], root, root');
      assert edges[..k + 1] == edges[..k] + [edges[k]];
      ghost var before := parent[..];
      parent[from] := to;
      assert parent[..] == before[from := to];
      root, rank := root', rank';
    }
    assert edges[..|edges|] == edges;
    Flatten(parent, root, rank);
    components := CollectBuckets(parent, root);
    RootsMakeBuckets(components, edges, root);
  }

  /** Points every index straight at its root. */
  method Flatten(parent: array<int>, ghost root: seq<int>, ghost rank: seq<nat>)
    requires Forest(parent[..], root, rank)
    modifies parent
    ensures parent[..] == root
  {
    for i := 0 to parent.Length
      invariant Forest(parent[..], root, rank)
      invariant forall x | 0 <= x < i :: parent[x] == root[x]
    {
      var p := parent[i];
      assert Hangs(parent[..], root, rank, i);
      var r := Merge(parent, p, root, rank);
      ghost var before := parent[..];
      FlatteningKeepsRoots(before, root, rank, i);
      parent[i] := r;
      assert parent[..] == before[i := root[i]];
    }
  }

  /** Collects the members of each root in ascending order. */
  method CollectBuckets(parent: array<int>, ghost root: seq<int>) returns (components: map<int, seq<int>>)
    requires parent[..] == root
    ensures Partition(components, root)
  {
    components := map[];
    for i := 0 to parent.Length
      invariant forall x | 0 <= x < i :: root[x] in components
      invariant forall r | r in components :: components[r] == Bucket(root, r, i) && components[r] != []
      invariant forall r | r !in components :: Bucket(root, r, i) == []
    {
      var p := parent[i];
      assert p == root[i];
      var members := if p in components then components[p] else [];
      components := components[p := members + [i]];
    }
    forall r | r in components
      ensures Ascending(components[r])
      ensures forall x :: x in components[r] <==> 0 <= x < |root| && root[x] == r
    {
      BucketMembers(root, r, |root|);
    }
  }
}
