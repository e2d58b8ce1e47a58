// Directed graphs with node attributes, paths in them, and the breadth-first closure
// used by the relational queries.
module Digraph {
  import opened Common

  type Edge = (string, string)

  /** Nodes in insertion order with their attributes; at most one edge per ordered pair. */
  datatype Graph<+A> = Graph(nodes: seq<string>, attrs: map<string, A>, edges: seq<Edge>)

  ghost predicate Valid<A>(g: Graph<A>) {
    && NoDup(g.nodes) && NoDup(g.edges)
    && g.attrs.Keys == Elems(g.nodes)
    && forall e :: e in g.edges ==> e.0 in g.nodes && e.1 in g.nodes
  }

  function Targets(edges: seq<Edge>, u: string): seq<string> {
    if edges == [] then []
    else (if edges[0].0 == u then [edges[0].1] else []) + Targets(edges[1..], u)
  }

  function OutNeighbors<A>(g: Graph<A>, u: string): seq<string> {
    Targets(g.edges, u)
  }

  lemma {:induction false} TargetsExact(edges: seq<Edge>, u: string, v: string)
    ensures v in Targets(edges, u) <==> (u, v) in edges
  {
    if edges != [] {
      TargetsExact(edges[1..], u, v);
      assert (u, v) in edges <==> edges[0] == (u, v) || (u, v) in edges[1..];
    }
  }

  lemma OutNeighborsExact<A>(g: Graph<A>, u: string)
    ensures forall v :: v in OutNeighbors(g, u) <==> (u, v) in g.edges
  {
    forall v ensures v in OutNeighbors(g, u) <==> (u, v) in g.edges {
      TargetsExact(g.edges, u, v);
    }
  }

  function Reverse<A>(g: Graph<A>): Graph<A> {
    g.(edges := seq(|g.edges|, i requires 0 <= i < |g.edges| => (g.edges[i].1, g.edges[i].0)))
  }

  // ---- Paths ----

  ghost predicate StepAt<A>(g: Graph<A>, p: seq<string>, i: int) {
    0 <= i < |p| - 1 && (p[i], p[i + 1]) in g.edges
  }

  ghost predicate IsPath<A>(g: Graph<A>, p: seq<string>) {
    forall i :: 0 <= i < |p| - 1 ==> StepAt(g, p, i)
  }

  ghost predicate PathFromTo<A>(g: Graph<A>, p: seq<string>, u: string, v: string) {
    |p| >= 2 && p[0] == u && p[|p| - 1] == v && IsPath(g, p)
  }

  /** There is a path of at least one edge from u to v. */
  ghost predicate Reaches<A>(g: Graph<A>, u: string, v: string) {
    exists p :: PathFromTo(g, p, u, v)
  }

  lemma EdgeReaches<A>(g: Graph<A>, u: string, v: string)
    requires (u, v) in g.edges
    ensures Reaches(g, u, v)
  {
    assert PathFromTo(g, [u, v], u, v);
  }

  lemma ReachesTransitive<A>(g: Graph<A>, u: string, v: string, w: string)
    requires Reaches(g, u, v) && Reaches(g, v, w)
    ensures Reaches(g, u, w)
  {
    var p :| PathFromTo(g, p, u, v);
    var q :| PathFromTo(g, q, v, w);
    var r := p + q[1..];
    forall i | 0 <= i < |r| - 1 ensures StepAt(g, r, i) {
      if i < |p| - 1 {
        assert StepAt(g, p, i);
      } else {
        assert StepAt(g, q, i - |p| + 1);
      }
    }
    assert PathFromTo(g, r, u, w);
  }

  lemma PathInReverse<A>(g: Graph<A>, p: seq<string>, u: string, v: string)
    requires PathFromTo(g, p, u, v)
    ensures Reaches(Reverse(g), v, u)
  {
    var q := seq(|p|, i requires 0 <= i < |p| => p[|p| - 1 - i]);
    forall i | 0 <= i < |q| - 1 ensures StepAt(Reverse(g), q, i) {
      var j := |p| - 2 - i;
      assert StepAt(g, p, j);
      var k :| 0 <= k < |g.edges| && g.edges[k] == (p[j], p[j + 1]);
      assert Reverse(g).edges[k] == (q[i], q[i + 1]);
    }
    assert PathFromTo(Reverse(g), q, v, u);
  }

  lemma ReachesReversed<A>(g: Graph<A>, u: string, v: string)
    ensures Reaches(Reverse(g), v, u) <==> Reaches(g, u, v)
  {
    if Reaches(g, u, v) {
      var p :| PathFromTo(g, p, u, v);
      PathInReverse(g, p, u, v);
    }
    if Reaches(Reverse(g), v, u) {
      var p :| PathFromTo(Reverse(g), p, v, u);
      PathInReverse(Reverse(g), p, v, u);
      assert Reverse(Reverse(g)).edges == g.edges;
      var q :| PathFromTo(Reverse(Reverse(g)), q, u, v);
      assert PathFromTo(g, q, u, v);
    }
  }

  /** A set that holds the successors of u, and of its own members, holds all that u reaches. */
  lemma {:induction false} ClosedSetHoldsPath<A>(g: Graph<A>, c: set<string>, p: seq<string>, u: string, k: nat)
    requires p != [] && p[0] == u && IsPath(g, p) && 1 <= k < |p|
    requires forall v :: (u, v) in g.edges ==> v in c
    requires forall x, v :: x in c && (x, v) in g.edges ==> v in c
    ensures p[k] in c
  {
    assert StepAt(g, p, k - 1);
    if k > 1 {
      ClosedSetHoldsPath(g, c, p, u, k - 1);
    }
  }

  // ---- Breadth-first closure ----

  /** All nodes reached from `source` by at least one edge, in the order of discovery. */
  method BfsFrom<A>(g: Graph<A>, source: string) returns (found: seq<string>)
    requires Valid(g)
    ensures NoDup(found)
    ensures forall v :: v in found <==> Reaches(g, source, v)
  {
    found := [];
    var visited: set<string> := {};
    var queue := OutNeighbors(g, source);
    OutNeighborsExact(g, source);
    forall v | v in queue ensures Reaches(g, source, v) { EdgeReaches(g, source, v); }
    while queue != []
      invariant visited == Elems(found) && NoDup(found)
      invariant forall v :: v in queue ==> Reaches(g, source, v) && v in g.nodes
      invariant forall v :: v in visited ==> Reaches(g, source, v) && v in g.nodes
      invariant forall v :: (source, v) in g.edges ==> v in visited || v in queue
      invariant forall x, v :: x in visited && (x, v) in g.edges ==> v in visited || v in queue
      decreases Elems(g.nodes) - visited, |queue|
    {
      var current := queue[0];
      var waiting := queue;
      queue := queue[1..];
      assert forall v :: v in waiting ==> v == current || v in queue;
      if current !in visited {
        assert current in Elems(g.nodes) - visited;
        found := found + [current];
        visited := visited + {current};
        OutNeighborsExact(g, current);
        forall v | v in OutNeighbors(g, current) ensures Reaches(g, source, v) {
          EdgeReaches(g, current, v);
          ReachesTransitive(g, source, current, v);
        }
        queue := queue + OutNeighbors(g, current);
      }
    }
    forall v | Reaches(g, source, v) ensures v in found {
      var p :| PathFromTo(g, p, source, v);
      ClosedSetHoldsPath(g, visited, p, source, |p| - 1);
    }
  }

  function PairKey(e: Edge): string {
    e.0 + "->" + e.1
  }

  /** Distinct reachable pairs are printed differently. */
  ghost predicate KeysDistinct<A>(g: Graph<A>) {
    forall e: Edge, e': Edge :: Reaches(g, e.0, e.1) && Reaches(g, e'.0, e'.1) && PairKey(e) == PairKey(e') ==> e == e'
  }

  /** Every reachable pair once. Pairs are remembered by their printed form, so the list
      is the whole reachability relation if and only if no two reachable pairs print alike. */
  method EnumerateReachablePairs<A>(g: Graph<A>) returns (pairs: seq<Edge>)
    requires Valid(g)
    ensures forall e :: e in pairs ==> Reaches(g, e.0, e.1)
    ensures forall i, j :: 0 <= i < j < |pairs| ==> PairKey(pairs[i]) != PairKey(pairs[j])
    ensures (forall u, v :: Reaches(g, u, v) ==> (u, v) in pairs) <==> KeysDistinct(g)
  {
    pairs := [];
    var seen: set<string> := {};
    for n := 0 to |g.nodes|
      invariant PairsSeen(g, pairs, seen)
      invariant forall i, v :: 0 <= i < n && Reaches(g, g.nodes[i], v) ==> PairKey((g.nodes[i], v)) in seen
    {
      var source := g.nodes[n];
      var found := BfsFrom(g, source);
      ghost var before := seen;
      for m := 0 to |found|
        invariant PairsSeen(g, pairs, seen) && before <= seen
        invariant forall i :: 0 <= i < m ==> PairKey((source, found[i])) in seen
      {
        var key := PairKey((source, found[m]));
        if key !in seen {
          assert found[m] in found;
          OnePairMore(g, pairs, seen, (source, found[m]));
          seen := seen + {key};
          pairs := pairs + [(source, found[m])];
        }
      }
    }
    PairsCoverKeys(g, pairs, seen);
  }

  /** Reachable pairs with distinct printed forms; `seen` holds those forms. */
  ghost predicate PairsSeen<A>(g: Graph<A>, pairs: seq<Edge>, seen: set<string>) {
    && (forall e :: e in pairs ==> Reaches(g, e.0, e.1))
    && (forall i, j :: 0 <= i < j < |pairs| ==> PairKey(pairs[i]) != PairKey(pairs[j]))
    && (forall e :: e in pairs ==> PairKey(e) in seen)
    && forall k :: k in seen ==> exists e :: e in pairs && PairKey(e) == k
  }

  lemma OnePairMore<A>(g: Graph<A>, pairs: seq<Edge>, seen: set<string>, e: Edge)
    requires PairsSeen(g, pairs, seen) && Reaches(g, e.0, e.1) && PairKey(e) !in seen
    ensures PairsSeen(g, pairs + [e], seen + {PairKey(e)})
  {
    var more := pairs + [e];
    assert more[|pairs|] == e && e in more;
    forall k | k in seen ensures exists x :: x in more && PairKey(x) == k {
      var x :| x in pairs && PairKey(x) == k;
      assert x in more;
    }
    forall i | 0 <= i < |pairs| ensures PairKey(pairs[i]) != PairKey(e) {
      assert pairs[i] in pairs;
    }
  }

  lemma PairsCoverKeys<A>(g: Graph<A>, pairs: seq<Edge>, seen: set<string>)
    requires Valid(g)
    requires forall e :: e in pairs ==> Reaches(g, e.0, e.1)
    requires forall i, j :: 0 <= i < j < |pairs| ==> PairKey(pairs[i]) != PairKey(pairs[j])
    requires forall k :: k in seen ==> exists e :: e in pairs && PairKey(e) == k
    requires forall i, v :: 0 <= i < |g.nodes| && Reaches(g, g.nodes[i], v) ==> PairKey((g.nodes[i], v)) in seen
    ensures (forall u, v :: Reaches(g, u, v) ==> (u, v) in pairs) <==> KeysDistinct(g)
  {
    if KeysDistinct(g) {
      forall u, v | Reaches(g, u, v) ensures (u, v) in pairs {
        var p :| PathFromTo(g, p, u, v);
        assert StepAt(g, p, 0);
        assert u in g.nodes;
        var e :| e in pairs && PairKey(e) == PairKey((u, v));
        assert e == (u, v);
      }
    }
    if forall u, v :: Reaches(g, u, v) ==> (u, v) in pairs {
      forall e: Edge, e': Edge | Reaches(g, e.0, e.1) && Reaches(g, e'.0, e'.1) && PairKey(e) == PairKey(e')
        ensures e == e'
      {
        assert (e.0, e.1) in pairs && (e'.0, e'.1) in pairs;
      }
    }
  }

  /** Node ids without '>' never print alike. */
  lemma KeysDistinctWithoutArrows<A>(g: Graph<A>)
    requires Valid(g)
    requires forall id :: id in g.nodes ==> '>' !in id
    ensures KeysDistinct(g)
  {
    forall e: Edge, e': Edge | Reaches(g, e.0, e.1) && Reaches(g, e'.0, e'.1) && PairKey(e) == PairKey(e')
      ensures e == e'
    {
      ReachedAreNodes(g, e.0, e.1);
      ReachedAreNodes(g, e'.0, e'.1);
      ArrowAt(e);
      ArrowAt(e');
      assert PairKey(e')[|e.0| + 1] == '>' && PairKey(e)[|e.0| + 1] == '>';
      assert e.0 == PairKey(e)[..|e.0|] == e'.0;
      assert e.1 == PairKey(e)[|e.0| + 2..] == e'.1;
    }
  }

  lemma ArrowAt(e: Edge)
    requires '>' !in e.0 && '>' !in e.1
    ensures forall k :: 0 <= k < |PairKey(e)| ==> (PairKey(e)[k] == '>' <==> k == |e.0| + 1)
    ensures |PairKey(e)| > |e.0| + 1
  {
    forall k | 0 <= k < |PairKey(e)| ensures PairKey(e)[k] == '>' <==> k == |e.0| + 1 {
      if k < |e.0| {
        assert PairKey(e)[k] == e.0[k];
      } else if k >= |e.0| + 2 {
        assert PairKey(e)[k] == e.1[k - |e.0| - 2];
      }
    }
  }

  lemma ReachedAreNodes<A>(g: Graph<A>, u: string, v: string)
    requires Valid(g) && Reaches(g, u, v)
    ensures u in g.nodes && v in g.nodes
  {
    var p :| PathFromTo(g, p, u, v);
    assert StepAt(g, p, 0);
    assert StepAt(g, p, |p| - 2);
  }

  /** Ids that contain the arrow can: here one of two reachable pairs is lost. */
  lemma KeysCollide()
    ensures var g := Graph(["a", "b->c", "a->b", "c"], map["a" := 0, "b->c" := 0, "a->b" := 0, "c" := 0],
                           [("a", "b->c"), ("a->b", "c")]);
      !KeysDistinct(g)
  {
    var g := Graph(["a", "b->c", "a->b", "c"], map["a" := 0, "b->c" := 0, "a->b" := 0, "c" := 0],
                   [("a", "b->c"), ("a->b", "c")]);
    EdgeReaches(g, "a", "b->c");
    EdgeReaches(g, "a->b", "c");
    assert PairKey(("a", "b->c")) == "a->b->c" == PairKey(("a->b", "c"));
    assert "a" != "a->b";
  }
}
