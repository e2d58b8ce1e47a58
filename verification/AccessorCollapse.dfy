// Removing accessor nodes from a traced graph while keeping every connection they
// carried between the nodes that stay.
module AccessorCollapse {
  import opened Common
  import opened Digraph

  datatype Attrs = Attrs(labelText: string, kind: string, namespace: string, relationLevel: int)

  /** Which nodes of a graph are indirections. */
  type IsAccessorFn = (Graph<Attrs>, string) -> bool

  const ACCESSOR_PREFIX := "Core|accessor"

  /** The default test: the label starts with "Core|accessor". */
  predicate DefaultIsAccessor(g: Graph<Attrs>, id: string) {
    id in g.attrs && ACCESSOR_PREFIX <= g.attrs[id].labelText
  }

  /** By default, the accessors are the nodes whose label starts with "Core|accessor". */
  lemma DefaultAccessorExact(g: Graph<Attrs>, id: string)
    ensures DefaultIsAccessor(g, id) <==>
      id in g.attrs && exists rest :: g.attrs[id].labelText == "Core|accessor" + rest
  {
    if DefaultIsAccessor(g, id) {
      var text := g.attrs[id].labelText;
      assert text == "Core|accessor" + text[|ACCESSOR_PREFIX|..];
    }
  }

  // ---- Specification ----

  /** A path whose inner nodes are all accessors. */
  ghost predicate AccessorPath(g: Graph<Attrs>, acc: IsAccessorFn, p: seq<string>, u: string, v: string) {
    PathFromTo(g, p, u, v) && forall i :: 0 < i < |p| - 1 ==> acc(g, p[i])
  }

  ghost predicate Linked(g: Graph<Attrs>, acc: IsAccessorFn, u: string, v: string) {
    exists p :: AccessorPath(g, acc, p, u, v)
  }

  function Kept(g: Graph<Attrs>, acc: IsAccessorFn, ids: seq<string>): seq<string> {
    if ids == [] then []
    else (if acc(g, ids[0]) then [] else [ids[0]]) + Kept(g, acc, ids[1..])
  }

  /** `r` keeps exactly the non-accessors of `g`, with their attributes, and joins two
      different kept nodes exactly when accessors alone lie on some path between them. */
  ghost predicate IsCollapse(g: Graph<Attrs>, acc: IsAccessorFn, r: Graph<Attrs>) {
    && Valid(r)
    && r.nodes == Kept(g, acc, g.nodes)
    && (forall id :: id in r.nodes ==> id in g.attrs && r.attrs[id] == g.attrs[id])
    && forall u, v :: (u, v) in r.edges <==> Joined(g, acc, r.nodes, u, v)
  }

  ghost predicate Joined(g: Graph<Attrs>, acc: IsAccessorFn, kept: seq<string>, u: string, v: string) {
    u in kept && v in kept && u != v && Linked(g, acc, u, v)
  }

  lemma {:induction false} KeptExact(g: Graph<Attrs>, acc: IsAccessorFn, ids: seq<string>)
    ensures forall id :: id in Kept(g, acc, ids) <==> id in ids && !acc(g, id)
    ensures NoDup(ids) ==> NoDup(Kept(g, acc, ids))
  {
    if ids != [] {
      KeptExact(g, acc, ids[1..]);
      assert forall id :: id in ids <==> id == ids[0] || id in ids[1..];
    }
  }

  // ---- The search ----

  lemma ExtendLink(g: Graph<Attrs>, acc: IsAccessorFn, u: string, v: string, w: string)
    requires Linked(g, acc, u, v) && acc(g, v) && (v, w) in g.edges
    ensures Linked(g, acc, u, w)
  {
    var p :| AccessorPath(g, acc, p, u, v);
    var q := p + [w];
    forall i | 0 <= i < |q| - 1 ensures StepAt(g, q, i) {
      if i < |p| - 1 { assert StepAt(g, p, i); }
    }
    assert AccessorPath(g, acc, q, u, w);
  }

  lemma FirstLinks(g: Graph<Attrs>, acc: IsAccessorFn, source: string)
    requires Valid(g)
    ensures forall v :: v in OutNeighbors(g, source) <==> (source, v) in g.edges
    ensures forall v :: v in OutNeighbors(g, source) ==> Linked(g, acc, source, v) && v in g.nodes
  {
    OutNeighborsExact(g, source);
    forall v | v in OutNeighbors(g, source) ensures Linked(g, acc, source, v) {
      assert AccessorPath(g, acc, [source, v], source, v);
    }
  }

  lemma NextLinks(g: Graph<Attrs>, acc: IsAccessorFn, source: string, id: string)
    requires Valid(g) && Linked(g, acc, source, id) && acc(g, id)
    ensures forall v :: v in OutNeighbors(g, id) <==> (id, v) in g.edges
    ensures forall v :: v in OutNeighbors(g, id) ==> Linked(g, acc, source, v) && v in g.nodes
  {
    OutNeighborsExact(g, id);
    forall v | v in OutNeighbors(g, id) ensures Linked(g, acc, source, v) {
      ExtendLink(g, acc, source, id, v);
    }
  }

  /** Everything the search has met is linked to the source, and what the source and the
      accessors visited point at has been met. */
  ghost predicate Explores(g: Graph<Attrs>, acc: IsAccessorFn, source: string, visited: set<string>, queue: seq<string>)
  {
    && (forall v :: v in queue ==> Linked(g, acc, source, v) && v in g.nodes)
    && (forall v :: v in visited && v != source ==> v in queue)
    && (forall v :: (source, v) in g.edges ==> v in queue)
    && forall x, v :: x in visited && x != source && acc(g, x) && (x, v) in g.edges ==> v in queue
  }

  /** Breadth-first search from `source` that walks on through accessors only; the first
      non-accessors met are the result. */
  method ReachNonAccessor(g: Graph<Attrs>, source: string, acc: IsAccessorFn) returns (result: seq<string>)
    requires Valid(g)
    ensures NoDup(result)
    ensures forall v :: v in result <==> v != source && !acc(g, v) && Linked(g, acc, source, v)
  {
    result := [];
    var visited := {source};
    var queue := OutNeighbors(g, source);
    FirstLinks(g, acc, source);
    var i := 0;
    while i < |queue|
      invariant 0 <= i <= |queue| && source in visited
      invariant NoDup(result) && source !in result
      invariant Explores(g, acc, source, visited, queue)
      invariant forall v :: v in result <==> v in visited && v != source && !acc(g, v)
      invariant forall k :: 0 <= k < i ==> queue[k] in visited
      decreases Elems(g.nodes) - visited, |queue| - i
    {
      var id := queue[i];
      assert id in queue && Linked(g, acc, source, id);
      if id !in visited {
        assert id in Elems(g.nodes) - visited;
        if acc(g, id) {
          NextLinks(g, acc, source, id);
          queue := queue + OutNeighbors(g, id);
        } else {
          result := result + [id];
        }
        visited := visited + {id};
      }
      i := i + 1;
    }
    forall v | v != source && !acc(g, v) ensures v in result <==> Linked(g, acc, source, v) {
      SearchIsExact(g, acc, source, visited, queue, v);
    }
  }

  lemma SearchIsExact(g: Graph<Attrs>, acc: IsAccessorFn, source: string, visited: set<string>, queue: seq<string>,
                      v: string)
    requires Explores(g, acc, source, visited, queue) && forall w :: w in queue ==> w in visited
    requires v != source
    ensures v in visited <==> Linked(g, acc, source, v)
  {
    if Linked(g, acc, source, v) {
      var p :| AccessorPath(g, acc, p, source, v);
      SearchHoldsPath(g, acc, visited, queue, p, source, v, |p| - 1);
    }
  }

  lemma {:induction false} SearchHoldsPath(g: Graph<Attrs>, acc: IsAccessorFn, visited: set<string>, queue: seq<string>,
                                           p: seq<string>, source: string, v: string, k: nat)
    requires AccessorPath(g, acc, p, source, v) && 1 <= k < |p|
    requires Explores(g, acc, source, visited, queue) && forall w :: w in queue ==> w in visited
    ensures p[k] in queue
  {
    assert StepAt(g, p, k - 1);
    if k > 1 {
      SearchHoldsPath(g, acc, visited, queue, p, source, v, k - 1);
    }
  }

  /** The kept nodes with their attributes, without edges. */
  method KeepNodes(g: Graph<Attrs>, acc: IsAccessorFn) returns (r: Graph<Attrs>)
    requires Valid(g)
    ensures Valid(r) && r.nodes == Kept(g, acc, g.nodes) && r.edges == []
    ensures forall id :: id in r.nodes ==> id in g.attrs && r.attrs[id] == g.attrs[id]
  {
    r := Graph([], map[], []);
    for n := 0 to |g.nodes|
      invariant r.nodes == Kept(g, acc, g.nodes[..n]) && r.edges == []
      invariant r.attrs.Keys == Elems(r.nodes)
      invariant forall id :: id in r.nodes ==> id in g.attrs && r.attrs[id] == g.attrs[id]
    {
      var id := g.nodes[n];
      KeptAppend(g, acc, g.nodes[..n], id);
      assert g.nodes[..n + 1] == g.nodes[..n] + [id];
      assert id in Elems(g.nodes);
      if !acc(g, id) {
        r := r.(nodes := r.nodes + [id], attrs := r.attrs[id := g.attrs[id]]);
      }
    }
    assert g.nodes[..|g.nodes|] == g.nodes;
    KeptExact(g, acc, g.nodes);
  }

  /** Edges from one kept node to its targets; targets outside the graph are skipped. */
  method AddEdges(r: Graph<Attrs>, id: string, targets: seq<string>) returns (r': Graph<Attrs>)
    requires Valid(r) && id in r.nodes
    ensures Valid(r') && r'.nodes == r.nodes && r'.attrs == r.attrs
    ensures forall u, v :: (u, v) in r'.edges <==> (u, v) in r.edges || (u == id && v in targets && v in r.nodes)
  {
    r' := r;
    for m := 0 to |targets|
      invariant Valid(r') && r'.nodes == r.nodes && r'.attrs == r.attrs
      invariant forall u, v :: (u, v) in r'.edges <==>
        (u, v) in r.edges || (u == id && v in targets[..m] && v in r.nodes)
    {
      var target := targets[m];
      assert targets[..m + 1] == targets[..m] + [target];
      if target in r'.nodes && (id, target) !in r'.edges {
        r' := r'.(edges := r'.edges + [(id, target)]);
      }
    }
    assert targets[..|targets|] == targets;
  }

  method CollapseAccessorPaths(g: Graph<Attrs>, acc: IsAccessorFn) returns (r: Graph<Attrs>)
    requires Valid(g)
    ensures IsCollapse(g, acc, r)
  {
    KeptExact(g, acc, g.nodes);
    r := KeepNodes(g, acc);
    ghost var kept := r;
    for n := 0 to |g.nodes|
      invariant Valid(r) && r.nodes == kept.nodes && r.attrs == kept.attrs
      invariant forall u, v :: (u, v) in r.edges <==> u in g.nodes[..n] && Joined(g, acc, kept.nodes, u, v)
    {
      var id := g.nodes[n];
      assert g.nodes[..n + 1] == g.nodes[..n] + [id];
      if !acc(g, id) {
        var targets := ReachNonAccessor(g, id, acc);
        r := AddEdges(r, id, targets);
      }
    }
    assert g.nodes[..|g.nodes|] == g.nodes;
  }

  lemma {:induction false} KeptAppend(g: Graph<Attrs>, acc: IsAccessorFn, ids: seq<string>, id: string)
    ensures Kept(g, acc, ids + [id]) == Kept(g, acc, ids) + (if acc(g, id) then [] else [id])
  {
    if ids == [] {
      assert [] + [id] == [id] && [id][1..] == [];
    } else {
      assert (ids + [id])[1..] == ids[1..] + [id];
      KeptAppend(g, acc, ids[1..], id);
    }
  }

  // ---- What collapsing preserves ----

  /** Between different kept nodes, the collapsed graph reaches exactly what the original did. */
  lemma ReachabilityPreserved(g: Graph<Attrs>, acc: IsAccessorFn, r: Graph<Attrs>, u: string, v: string)
    requires Valid(g) && IsCollapse(g, acc, r)
    requires u in r.nodes && v in r.nodes && u != v
    ensures Reaches(r, u, v) <==> Reaches(g, u, v)
  {
    if Reaches(g, u, v) {
      var p :| PathFromTo(g, p, u, v);
      PathSurvives(g, acc, r, p, u, v);
    }
    if Reaches(r, u, v) {
      var p :| PathFromTo(r, p, u, v);
      PathExpands(g, acc, r, p, u, |p| - 1);
    }
  }

  lemma {:induction false} PathSurvives(g: Graph<Attrs>, acc: IsAccessorFn, r: Graph<Attrs>, p: seq<string>, u: string,
                                        v: string)
    requires Valid(g) && IsCollapse(g, acc, r) && PathFromTo(g, p, u, v)
    requires u in r.nodes && v in r.nodes && u != v
    ensures Reaches(r, u, v)
    decreases |p|
  {
    KeptExact(g, acc, g.nodes);
    var k := FirstKept(g, acc, p, u, v);
    var w := p[k];
    PathSplit(g, acc, p, u, v, k);
    ReachedAreNodes(g, u, w);
    if w != u {
      assert Joined(g, acc, r.nodes, u, w);
      EdgeReaches(r, u, w);
    }
    if w != v {
      PathSurvives(g, acc, r, p[k..], w, v);
      if w != u { ReachesTransitive(r, u, w, v); }
    }
  }

  lemma PathSplit(g: Graph<Attrs>, acc: IsAccessorFn, p: seq<string>, u: string, v: string, k: nat)
    requires PathFromTo(g, p, u, v)
    requires 0 < k < |p| && forall i :: 0 < i < k ==> acc(g, p[i])
    ensures Linked(g, acc, u, p[k]) && Reaches(g, u, p[k])
    ensures k < |p| - 1 ==> PathFromTo(g, p[k..], p[k], v)
  {
    var q := p[..k + 1];
    forall i | 0 <= i < |q| - 1 ensures StepAt(g, q, i) {
      assert StepAt(g, p, i);
    }
    assert AccessorPath(g, acc, q, u, p[k]);
    forall i | 0 <= i < |p[k..]| - 1 ensures StepAt(g, p[k..], i) {
      assert StepAt(g, p, k + i);
    }
  }

  /** The first node after the start of a path that is not an accessor. */
  lemma FirstKept(g: Graph<Attrs>, acc: IsAccessorFn, p: seq<string>, u: string, v: string) returns (k: nat)
    requires PathFromTo(g, p, u, v) && !acc(g, v)
    ensures 0 < k < |p| && !acc(g, p[k]) && forall i :: 0 < i < k ==> acc(g, p[i])
  {
    k := 1;
    while acc(g, p[k])
      invariant 0 < k < |p| && forall i :: 0 < i < k ==> acc(g, p[i])
      decreases |p| - k
    {
      k := k + 1;
    }
  }

  lemma {:induction false} PathExpands(g: Graph<Attrs>, acc: IsAccessorFn, r: Graph<Attrs>, p: seq<string>, u: string,
                                       k: nat)
    requires IsCollapse(g, acc, r) && p != [] && p[0] == u && IsPath(r, p) && 1 <= k < |p|
    ensures Reaches(g, u, p[k])
  {
    assert StepAt(r, p, k - 1);
    assert Joined(g, acc, r.nodes, p[k - 1], p[k]);
    var q :| AccessorPath(g, acc, q, p[k - 1], p[k]);
    assert Reaches(g, p[k - 1], p[k]);
    if k > 1 {
      PathExpands(g, acc, r, p, u, k - 1);
      ReachesTransitive(g, u, p[k - 1], p[k]);
    }
  }

  /** Collapsing a second time changes nothing if and only if the nodes that were kept are
      still no accessors in the new graph. */
  lemma CollapseIdempotentIff(g: Graph<Attrs>, acc: IsAccessorFn, r: Graph<Attrs>, r': Graph<Attrs>)
    requires Valid(g) && IsCollapse(g, acc, r) && IsCollapse(r, acc, r')
    ensures (r'.nodes == r.nodes && r'.attrs == r.attrs && Elems(r'.edges) == Elems(r.edges)) <==>
      forall id :: id in r.nodes ==> !acc(r, id)
  {
    if forall id :: id in r.nodes ==> !acc(r, id) {
      CollapseTwice(g, acc, r, r');
    }
    KeptExact(r, acc, r.nodes);
  }

  lemma CollapseTwice(g: Graph<Attrs>, acc: IsAccessorFn, r: Graph<Attrs>, r': Graph<Attrs>)
    requires Valid(g) && IsCollapse(g, acc, r) && IsCollapse(r, acc, r')
    requires forall id :: id in r.nodes ==> !acc(r, id)
    ensures r'.nodes == r.nodes && r'.attrs == r.attrs && Elems(r'.edges) == Elems(r.edges)
  {
    AllKept(r, acc, r.nodes);
    SameAttrs(r, r');
    forall e: Edge ensures e in r'.edges <==> e in r.edges {
      SameEdge(g, acc, r, r', e.0, e.1);
    }
  }

  lemma SameAttrs(r: Graph<Attrs>, r': Graph<Attrs>)
    requires Valid(r) && Valid(r') && r'.nodes == r.nodes
    requires forall id :: id in r'.nodes ==> id in r.attrs && r'.attrs[id] == r.attrs[id]
    ensures r'.attrs == r.attrs
  {
    assert r'.attrs.Keys == r.attrs.Keys;
    forall id | id in r'.attrs ensures r'.attrs[id] == r.attrs[id] {
      assert id in Elems(r'.nodes);
    }
  }

  lemma SameEdge(g: Graph<Attrs>, acc: IsAccessorFn, r: Graph<Attrs>, r': Graph<Attrs>, u: string, v: string)
    requires IsCollapse(g, acc, r) && IsCollapse(r, acc, r') && r'.nodes == r.nodes
    requires forall id :: id in r.nodes ==> !acc(r, id)
    ensures (u, v) in r'.edges <==> (u, v) in r.edges
  {
    LinkedWithoutAccessors(r, acc, u, v);
    assert (u, v) in r'.edges <==> Joined(r, acc, r'.nodes, u, v);
    assert (u, v) in r.edges <==> Joined(g, acc, r.nodes, u, v);
  }

  lemma LinkedWithoutAccessors(g: Graph<Attrs>, acc: IsAccessorFn, u: string, v: string)
    requires Valid(g) && forall id :: id in g.nodes ==> !acc(g, id)
    ensures Linked(g, acc, u, v) <==> (u, v) in g.edges
  {
    if Linked(g, acc, u, v) {
      var p :| AccessorPath(g, acc, p, u, v);
      assert StepAt(g, p, 0);
      assert !acc(g, p[1]);
    }
    if (u, v) in g.edges {
      assert AccessorPath(g, acc, [u, v], u, v);
    }
  }

  lemma {:induction false} AllKept(g: Graph<Attrs>, acc: IsAccessorFn, ids: seq<string>)
    requires forall id :: id in ids ==> !acc(g, id)
    ensures Kept(g, acc, ids) == ids
  {
    if ids != [] {
      AllKept(g, acc, ids[1..]);
    }
  }

  /** With the default test the proviso always holds. */
  lemma DefaultCollapseIdempotent(g: Graph<Attrs>, r: Graph<Attrs>, r': Graph<Attrs>)
    requires Valid(g) && IsCollapse(g, DefaultIsAccessor, r) && IsCollapse(r, DefaultIsAccessor, r')
    ensures r'.nodes == r.nodes && r'.attrs == r.attrs && Elems(r'.edges) == Elems(r.edges)
  {
    KeptExact(g, DefaultIsAccessor, g.nodes);
    forall id | id in r.nodes ensures !DefaultIsAccessor(r, id) {
      assert !DefaultIsAccessor(g, id);
    }
    CollapseTwice(g, DefaultIsAccessor, r, r');
  }

  /** A test a caller may pass: nodes without outgoing edges. */
  predicate IsSink(g: Graph<Attrs>, id: string) {
    OutNeighbors(g, id) == []
  }

  lemma SinkExact(g: Graph<Attrs>, id: string)
    ensures IsSink(g, id) <==> forall v :: (id, v) !in g.edges
  {
    OutNeighborsExact(g, id);
    if !IsSink(g, id) {
      assert OutNeighbors(g, id)[0] in OutNeighbors(g, id);
    }
  }

  function ChainOfThree(x: Attrs): Graph<Attrs> {
    Graph(["a", "b", "c"], map["a" := x, "b" := x, "c" := x], [("a", "b"), ("b", "c")])
  }

  function ChainOfTwo(x: Attrs): Graph<Attrs> {
    Graph(["a", "b"], map["a" := x, "b" := x], [("a", "b")])
  }

  lemma ChainSinks(x: Attrs, id: string)
    ensures IsSink(ChainOfThree(x), id) <==> id != "a" && id != "b"
    ensures IsSink(ChainOfTwo(x), id) <==> id != "a"
  {
    var g, r := ChainOfThree(x), ChainOfTwo(x);
    assert g.edges[0] == ("a", "b") && g.edges[1] == ("b", "c") && r.edges[0] == ("a", "b");
    SinkExact(g, id);
    SinkExact(r, id);
  }

  lemma ChainKept(x: Attrs)
    ensures Kept(ChainOfThree(x), IsSink, ["a", "b", "c"]) == ["a", "b"]
    ensures Kept(ChainOfTwo(x), IsSink, ["a", "b"]) == ["a"]
  {
    var g, r := ChainOfThree(x), ChainOfTwo(x);
    ChainSinks(x, "a");
    ChainSinks(x, "b");
    ChainSinks(x, "c");
    assert ["a", "b", "c"][1..] == ["b", "c"] && ["b", "c"][1..] == ["c"] && ["c"][1..] == [];
    assert Kept(g, IsSink, ["c"]) == [] && Kept(g, IsSink, ["b", "c"]) == ["b"];
    assert ["a", "b"][1..] == ["b"] && ["b"][1..] == [] && Kept(r, IsSink, ["b"]) == [];
  }

  lemma ChainEdges(x: Attrs)
    ensures Valid(ChainOfThree(x)) && Valid(ChainOfTwo(x))
    ensures forall u, v :: (u, v) in ChainOfThree(x).edges <==> (u == "a" && v == "b") || (u == "b" && v == "c")
    ensures forall u, v :: (u, v) in ChainOfTwo(x).edges <==> u == "a" && v == "b"
  {
    var g, r := ChainOfThree(x), ChainOfTwo(x);
    assert g.edges[0] == ("a", "b") && g.edges[1] == ("b", "c") && r.edges[0] == ("a", "b");
    assert Elems(g.nodes) == {"a", "b", "c"} && Elems(r.nodes) == {"a", "b"};
  }

  lemma ChainJoined(x: Attrs, u: string, v: string)
    ensures Joined(ChainOfThree(x), IsSink, ["a", "b"], u, v) <==> u == "a" && v == "b"
  {
    var g := ChainOfThree(x);
    ChainEdges(x);
    assert ["a", "b"][0] == "a" && ["a", "b"][1] == "b";
    if u == "a" && v == "b" {
      assert AccessorPath(g, IsSink, ["a", "b"], u, v);
    }
    if u == "b" && v == "a" { NothingLeadsTo(g, IsSink, u, v); }
  }

  lemma ChainsValid(x: Attrs)
    ensures Valid(ChainOfThree(x)) && Valid(ChainOfTwo(x))
  {
    assert Elems(["a", "b", "c"]) == {"a", "b", "c"} && Elems(["a", "b"]) == {"a", "b"};
  }

  lemma FirstCollapse(x: Attrs)
    ensures Valid(ChainOfThree(x)) && IsCollapse(ChainOfThree(x), IsSink, ChainOfTwo(x))
  {
    var g, r := ChainOfThree(x), ChainOfTwo(x);
    ChainsValid(x);
    ChainKept(x);
    ChainEdges(x);
    assert r.nodes == Kept(g, IsSink, g.nodes);
    assert forall id :: id in r.nodes ==> id in g.attrs && r.attrs[id] == g.attrs[id];
    forall u, v ensures (u, v) in r.edges <==> Joined(g, IsSink, r.nodes, u, v) {
      ChainJoined(x, u, v);
    }
  }

  lemma SecondCollapse(x: Attrs)
    ensures IsCollapse(ChainOfTwo(x), IsSink, Graph(["a"], map["a" := x], []))
  {
    var r, one := ChainOfTwo(x), Graph(["a"], map["a" := x], []);
    ChainKept(x);
    assert Elems(one.nodes) == {"a"};
    assert Valid(one);
    assert one.nodes == Kept(r, IsSink, r.nodes);
    assert forall u, v :: !Joined(r, IsSink, one.nodes, u, v);
  }

  /** With that test the chain a -> b -> c loses c, and then b as well. */
  lemma SinksCollapseAgain(x: Attrs)
    ensures Valid(ChainOfThree(x)) && IsCollapse(ChainOfThree(x), IsSink, ChainOfTwo(x))
    ensures IsCollapse(ChainOfTwo(x), IsSink, Graph(["a"], map["a" := x], []))
    ensures ChainOfTwo(x).nodes != ["a"]
  {
    FirstCollapse(x);
    SecondCollapse(x);
    assert |ChainOfTwo(x).nodes| == 2;
  }

  lemma NothingLeadsTo(g: Graph<Attrs>, acc: IsAccessorFn, u: string, v: string)
    requires forall x :: (x, v) !in g.edges
    ensures !Linked(g, acc, u, v)
  {
    if Linked(g, acc, u, v) {
      var p :| AccessorPath(g, acc, p, u, v);
      LastEdge(g, p, u, v);
    }
  }

  lemma LastEdge(g: Graph<Attrs>, p: seq<string>, u: string, v: string)
    requires PathFromTo(g, p, u, v)
    ensures exists x :: (x, v) in g.edges
  {
    assert StepAt(g, p, |p| - 2);
  }
}
