// Topology facts of a propagator network, seen twice: by the Datalog reachability
// program and as a directed graph. Both give the same reachability between cells.
module Topology {
  import opened Common
  import opened LogicProgram
  import opened LeastModel
  import opened Digraph

  // ---- The graph built from topology facts ----

  datatype NodeAttrs = NodeAttrs(labelText: string, kind: string, namespace: string, level: string,
                                 shown: Option<string>)

  const UNSEEN := (id: string) => NodeAttrs(id, "cell", "unknown", "0", None)

  /** One fact about a node overrides what earlier facts said. */
  function Refine(acc: NodeAttrs, f: Fact): NodeAttrs
    requires |f| >= 2
  {
    if |f| < 3 || !f[2].Str? then acc
    else if f[0] == Str("cell") || f[0] == Str("propagator") || f[0] == Str("label") then acc.(labelText := f[2].s)
    else if f[0] == Str("namespace") then acc.(namespace := f[2].s)
    else if f[0] == Str("level") then acc.(level := f[2].s)
    else if f[0] == Str("kind") && f[2].s == "cell" then acc.(kind := "cell")
    else if f[0] == Str("kind") && f[2].s == "prop" then acc.(kind := "propagator")
    else if f[0] == Str("value") then acc.(shown := Some(f[2].s))
    else acc
  }

  predicate IsAbout(f: Fact, id: string) {
    |f| >= 2 && f[1] == Str(id)
  }

  /** The attributes of a node after all facts, the last fact of a kind winning. */
  function AttrsFrom(facts: seq<Fact>, id: string): NodeAttrs {
    if facts == [] then UNSEEN(id)
    else
      var last := facts[|facts| - 1];
      var acc := AttrsFrom(facts[..|facts| - 1], id);
      if IsAbout(last, id) then Refine(acc, last) else acc
  }

  /** A fact about the node under one of these tags, with one of these texts (any, if none
      are given). */
  ghost predicate Says(f: Fact, id: string, tags: seq<string>, texts: seq<string>) {
    && |f| >= 3 && f[0].Str? && f[0].s in tags && f[1] == Str(id)
    && f[2].Str? && (texts == [] || f[2].s in texts)
  }

  /** The last such fact has the text `v`. */
  ghost predicate LastSays(facts: seq<Fact>, id: string, tags: seq<string>, texts: seq<string>, v: string) {
    exists i :: 0 <= i < |facts| && Says(facts[i], id, tags, texts) && facts[i][2] == Str(v)
      && forall j :: i < j < |facts| ==> !Says(facts[j], id, tags, texts)
  }

  ghost predicate NoneSays(facts: seq<Fact>, id: string, tags: seq<string>, texts: seq<string>) {
    forall j :: 0 <= j < |facts| ==> !Says(facts[j], id, tags, texts)
  }

  ghost predicate Decides(facts: seq<Fact>, id: string, tags: seq<string>, default: string, v: string) {
    LastSays(facts, id, tags, [], v) || (NoneSays(facts, id, tags, []) && v == default)
  }

  ghost predicate KindDecided(facts: seq<Fact>, id: string, kind: string) {
    || (kind == "cell" && LastSays(facts, id, ["kind"], ["cell", "prop"], "cell"))
    || (kind == "cell" && NoneSays(facts, id, ["kind"], ["cell", "prop"]))
    || (kind == "propagator" && LastSays(facts, id, ["kind"], ["cell", "prop"], "prop"))
  }

  ghost predicate ValueDecided(facts: seq<Fact>, id: string, shown: Option<string>) {
    match shown
    case None => NoneSays(facts, id, ["value"], [])
    case Some(v) => LastSays(facts, id, ["value"], [], v)
  }

  /** Every attribute of a node is what the last fact that bears on it says. */
  ghost predicate LastFactsDecide(facts: seq<Fact>, id: string, a: NodeAttrs) {
    && Decides(facts, id, ["cell", "propagator", "label"], id, a.labelText)
    && Decides(facts, id, ["namespace"], "unknown", a.namespace)
    && Decides(facts, id, ["level"], "0", a.level)
    && KindDecided(facts, id, a.kind)
    && ValueDecided(facts, id, a.shown)
  }

  /** One more fact: it decides if it bears on the attribute, else what was said stands. */
  lemma OneMoreSays(facts: seq<Fact>, f: Fact, id: string, tags: seq<string>, texts: seq<string>)
    ensures Says(f, id, tags, texts) ==> LastSays(facts + [f], id, tags, texts, f[2].s)
    ensures !Says(f, id, tags, texts) ==>
      && (NoneSays(facts, id, tags, texts) ==> NoneSays(facts + [f], id, tags, texts))
      && forall v :: LastSays(facts, id, tags, texts, v) ==> LastSays(facts + [f], id, tags, texts, v)
  {
    var all := facts + [f];
    assert all[|facts|] == f && forall j :: 0 <= j < |facts| ==> all[j] == facts[j];
    if !Says(f, id, tags, texts) {
      forall v | LastSays(facts, id, tags, texts, v) ensures LastSays(all, id, tags, texts, v) {
        var i :| 0 <= i < |facts| && Says(facts[i], id, tags, texts) && facts[i][2] == Str(v)
          && forall j :: i < j < |facts| ==> !Says(facts[j], id, tags, texts);
        assert Says(all[i], id, tags, texts);
      }
    }
  }

  lemma OneMoreDecides(facts: seq<Fact>, f: Fact, id: string, tags: seq<string>, default: string, v: string)
    requires Decides(facts, id, tags, default, v)
    ensures Decides(facts + [f], id, tags, default, if Says(f, id, tags, []) then f[2].s else v)
  {
    OneMoreSays(facts, f, id, tags, []);
  }

  lemma KindSaid(f: Fact, id: string, a: NodeAttrs)
    ensures var k := if IsAbout(f, id) then Refine(a, f).kind else a.kind;
      if !Says(f, id, ["kind"], ["cell", "prop"]) then k == a.kind
      else (f[2] == Str("cell") && k == "cell") || (f[2] == Str("prop") && k == "propagator")
  {
  }

  lemma KindRefined(facts: seq<Fact>, f: Fact, id: string, a: NodeAttrs)
    requires KindDecided(facts, id, a.kind)
    ensures KindDecided(facts + [f], id, if IsAbout(f, id) then Refine(a, f).kind else a.kind)
  {
    OneMoreSays(facts, f, id, ["kind"], ["cell", "prop"]);
    KindSaid(f, id, a);
  }

  lemma ValueRefined(facts: seq<Fact>, f: Fact, id: string, a: NodeAttrs)
    requires ValueDecided(facts, id, a.shown)
    ensures ValueDecided(facts + [f], id, if IsAbout(f, id) then Refine(a, f).shown else a.shown)
  {
    OneMoreSays(facts, f, id, ["value"], []);
  }

  lemma TextsRefined(f: Fact, id: string, a: NodeAttrs)
    ensures var a' := if IsAbout(f, id) then Refine(a, f) else a;
      && a'.labelText == (if Says(f, id, ["cell", "propagator", "label"], []) then f[2].s else a.labelText)
      && a'.namespace == (if Says(f, id, ["namespace"], []) then f[2].s else a.namespace)
      && a'.level == (if Says(f, id, ["level"], []) then f[2].s else a.level)
  {
  }

  lemma {:induction false} AttrsExact(facts: seq<Fact>, id: string)
    ensures LastFactsDecide(facts, id, AttrsFrom(facts, id))
  {
    if facts != [] {
      var init, last := facts[..|facts| - 1], facts[|facts| - 1];
      var a := AttrsFrom(init, id);
      AttrsExact(init, id);
      TextsRefined(last, id, a);
      OneMoreDecides(init, last, id, ["cell", "propagator", "label"], id, a.labelText);
      OneMoreDecides(init, last, id, ["namespace"], "unknown", a.namespace);
      OneMoreDecides(init, last, id, ["level"], "0", a.level);
      KindRefined(init, last, id, a);
      ValueRefined(init, last, id, a);
      assert facts == init + [last];
    }
  }

  predicate Links(f: Fact, tag: string, p: string, c: string) {
    |f| >= 3 && f[0] == Str(tag) && f[1] == Str(p) && f[2] == Str(c)
  }

  /** A read leads from cell to propagator, a write from propagator to cell. */
  ghost predicate FactEdge(facts: seq<Fact>, u: string, v: string) {
    exists f :: f in facts && (Links(f, "reads", v, u) || Links(f, "writes", u, v))
  }

  method AddEdgeOnce(g: Graph<NodeAttrs>, u: string, v: string) returns (g': Graph<NodeAttrs>)
    requires Valid(g) && u in g.nodes && v in g.nodes
    ensures Valid(g') && g'.nodes == g.nodes && g'.attrs == g.attrs
    ensures forall e :: e in g'.edges <==> e in g.edges || e == (u, v)
  {
    g' := if (u, v) in g.edges then g else g.(edges := g.edges + [(u, v)]);
  }

  method CollectAttrs(facts: seq<Fact>, keep: seq<string>) returns (byId: map<string, NodeAttrs>)
    ensures forall id :: id in byId ==> byId[id] == AttrsFrom(facts, id)
    ensures forall id :: id in keep && id !in byId ==> AttrsFrom(facts, id) == UNSEEN(id)
  {
    byId := map[];
    for n := 0 to |facts|
      invariant forall id :: id in byId ==> id in keep && byId[id] == AttrsFrom(facts[..n], id)
      invariant forall id :: id in keep && id !in byId ==> AttrsFrom(facts[..n], id) == UNSEEN(id)
    {
      var f := facts[n];
      assert facts[..n + 1][..n] == facts[..n] && facts[..n + 1][n] == f;
      if |f| >= 2 && f[1].Str? && f[1].s in keep {
        var id := f[1].s;
        var acc := if id in byId then byId[id] else UNSEEN(id);
        byId := byId[id := Refine(acc, f)];
      }
    }
    assert facts[..|facts|] == facts;
  }

  method GraphFromTopologyFacts(facts: seq<Fact>, keep: seq<string>) returns (g: Graph<NodeAttrs>)
    requires NoDup(keep)
    ensures Valid(g) && g.nodes == keep
    ensures forall id :: id in keep ==> LastFactsDecide(facts, id, g.attrs[id])
    ensures forall u, v :: (u, v) in g.edges <==> u in keep && v in keep && FactEdge(facts, u, v)
  {
    var byId := CollectAttrs(facts, keep);
    g := Graph([], map[], []);
    for n := 0 to |keep|
      invariant Valid(g) && g.nodes == keep[..n] && g.edges == []
      invariant forall id :: id in keep[..n] ==> g.attrs[id] == AttrsFrom(facts, id)
    {
      var id := keep[n];
      assert keep[..n + 1] == keep[..n] + [id];
      assert id !in keep[..n];
      g := g.(nodes := g.nodes + [id], attrs := g.attrs[id := if id in byId then byId[id] else UNSEEN(id)]);
    }
    assert keep[..|keep|] == keep;
    forall id { AttrsExact(facts, id); }
    g := AddLinks(g, facts);
  }

  method AddLinks(g: Graph<NodeAttrs>, facts: seq<Fact>) returns (g': Graph<NodeAttrs>)
    requires Valid(g) && g.edges == []
    ensures Valid(g') && g'.nodes == g.nodes && g'.attrs == g.attrs
    ensures forall u, v :: (u, v) in g'.edges <==> u in g.nodes && v in g.nodes && FactEdge(facts, u, v)
  {
    g' := g;
    for n := 0 to |facts|
      invariant Valid(g') && g'.nodes == g.nodes && g'.attrs == g.attrs
      invariant forall u, v :: (u, v) in g'.edges <==> u in g.nodes && v in g.nodes && FactEdge(facts[..n], u, v)
    {
      var f := facts[n];
      forall u, v { FactEdgeAppend(facts, n, u, v); }
      if |f| >= 3 && f[1].Str? && f[2].Str? && f[1].s in g.nodes && f[2].s in g.nodes {
        if f[0] == Str("reads") {
          g' := AddEdgeOnce(g', f[2].s, f[1].s);
        }
        if f[0] == Str("writes") {
          g' := AddEdgeOnce(g', f[1].s, f[2].s);
        }
      }
    }
    assert facts[..|facts|] == facts;
  }

  lemma FactEdgeAppend(facts: seq<Fact>, n: nat, u: string, v: string)
    requires n < |facts|
    ensures FactEdge(facts[..n + 1], u, v) <==>
      FactEdge(facts[..n], u, v) || Links(facts[n], "reads", v, u) || Links(facts[n], "writes", u, v)
  {
    assert forall x :: x in facts[..n + 1] <==> x in facts[..n] || x == facts[n];
  }

  // ---- The reachability program ----

  function Pattern(tag: string, x: string, y: string): seq<Term> {
    [Const(Str(tag)), Var(x), Var(y)]
  }

  /** flows_to(A,B) :- reads(P,A), writes(P,B).
      reachable(A,B) :- flows_to(A,B).
      reachable(A,C) :- reachable(A,B), flows_to(B,C). */
  const REACHABILITY: seq<Rule> := [
    Rule(Pattern("flows_to", "A", "B"), [Atom(Pattern("reads", "P", "A")), Atom(Pattern("writes", "P", "B"))]),
    Rule(Pattern("reachable", "A", "B"), [Atom(Pattern("flows_to", "A", "B"))]),
    Rule(Pattern("reachable", "A", "C"), [Atom(Pattern("reachable", "A", "B")), Atom(Pattern("flows_to", "B", "C"))])
  ]

  /** With mutual_reach(X,Y) :- reachable(X,Y), reachable(Y,X) added. */
  const MUTUAL: seq<Rule> := REACHABILITY + [
    Rule(Pattern("mutual_reach", "X", "Y"),
      [Atom(Pattern("reachable", "X", "Y")), Atom(Pattern("reachable", "Y", "X"))])
  ]

  function Tagged(tag: string, x: Scalar, y: Scalar): Fact {
    [Str(tag), x, y]
  }

  /** Facts as a topology snapshot produces them: reads and writes are triples of strings
      between propagators and cells, and nothing is derived yet. */
  ghost predicate IsSnapshot(facts: seq<Fact>, cells: set<string>, props: set<string>) {
    && cells !! props
    && forall f: Fact :: f in facts && |f| > 0 ==>
      && f[0] != Str("flows_to") && f[0] != Str("reachable") && f[0] != Str("mutual_reach")
      && (f[0] == Str("reads") || f[0] == Str("writes") ==>
            |f| == 3 && f[1].Str? && f[2].Str? && f[1].s in props && f[2].s in cells)
  }

  lemma PatternValue(s: Valuation, tag: string, x: string, y: string)
    ensures EvTuple(s, Pattern(tag, x, y)) == Tagged(tag, s(x), s(y))
  {
  }

  lemma PairBody(s: Valuation, m: set<Fact>, neg: set<Fact>, a: seq<Term>, b: seq<Term>)
    requires |a| == |b| == 3 && !IsEq(Atom(a)) && !IsNeq(Atom(a)) && !IsEq(Atom(b)) && !IsNeq(Atom(b))
    ensures HoldsAll([Atom(a), Atom(b)], m, neg, s) <==> EvTuple(s, a) in m && EvTuple(s, b) in m
    ensures HoldsAll([Atom(a)], m, neg, s) <==> EvTuple(s, a) in m
  {
    assert [Atom(a), Atom(b)][1..] == [Atom(b)] && [Atom(b)][1..] == [] && [Atom(a)][1..] == [];
    assert HoldsAll([Atom(b)], m, neg, s) <==> EvTuple(s, b) in m;
  }

  /** What it takes for a set to be closed under the three rules. */
  ghost predicate ClosedUnderFlow(m: set<Fact>) {
    && (forall p, a, b :: Tagged("reads", p, a) in m && Tagged("writes", p, b) in m ==> Tagged("flows_to", a, b) in m)
    && (forall a, b :: Tagged("flows_to", a, b) in m ==> Tagged("reachable", a, b) in m)
    && (forall a, b, c :: Tagged("reachable", a, b) in m && Tagged("flows_to", b, c) in m ==>
          Tagged("reachable", a, c) in m)
  }

  lemma ReachabilityClosed(m: set<Fact>, neg: set<Fact>)
    requires ClosedUnderFlow(m)
    ensures Closed(REACHABILITY, m, neg)
  {
    forall r, s: Valuation | r in REACHABILITY && HoldsAll(r.body, m, neg, s) ensures EvTuple(s, r.head) in m {
      if r == REACHABILITY[0] {
        PairBody(s, m, neg, Pattern("reads", "P", "A"), Pattern("writes", "P", "B"));
        PatternValue(s, "reads", "P", "A");
        PatternValue(s, "writes", "P", "B");
        PatternValue(s, "flows_to", "A", "B");
      } else if r == REACHABILITY[1] {
        PairBody(s, m, neg, Pattern("flows_to", "A", "B"), Pattern("flows_to", "A", "B"));
        PatternValue(s, "flows_to", "A", "B");
        PatternValue(s, "reachable", "A", "B");
      } else {
        PairBody(s, m, neg, Pattern("reachable", "A", "B"), Pattern("flows_to", "B", "C"));
        PatternValue(s, "reachable", "A", "B");
        PatternValue(s, "flows_to", "B", "C");
        PatternValue(s, "reachable", "A", "C");
      }
    }
  }

  lemma ReachabilityClosedOnly(m: set<Fact>, neg: set<Fact>)
    requires Closed(REACHABILITY, m, neg)
    ensures ClosedUnderFlow(m)
  {
    forall p, a, b | Tagged("reads", p, a) in m && Tagged("writes", p, b) in m ensures Tagged("flows_to", a, b) in m {
      FirstRule(m, neg, p, a, b);
    }
    forall a, b | Tagged("flows_to", a, b) in m ensures Tagged("reachable", a, b) in m {
      SecondRule(m, neg, a, b);
    }
    forall a, b, c | Tagged("reachable", a, b) in m && Tagged("flows_to", b, c) in m
      ensures Tagged("reachable", a, c) in m
    {
      ThirdRule(m, neg, a, b, c);
    }
  }

  lemma FirstRule(m: set<Fact>, neg: set<Fact>, p: Scalar, a: Scalar, b: Scalar)
    requires Closed(REACHABILITY, m, neg) && Tagged("reads", p, a) in m && Tagged("writes", p, b) in m
    ensures Tagged("flows_to", a, b) in m
  {
    var s: Valuation := x => if x == "P" then p else if x == "A" then a else b;
    PairBody(s, m, neg, Pattern("reads", "P", "A"), Pattern("writes", "P", "B"));
    PatternValue(s, "reads", "P", "A");
    PatternValue(s, "writes", "P", "B");
    PatternValue(s, "flows_to", "A", "B");
    assert HoldsAll(REACHABILITY[0].body, m, neg, s);
  }

  lemma SecondRule(m: set<Fact>, neg: set<Fact>, a: Scalar, b: Scalar)
    requires Closed(REACHABILITY, m, neg) && Tagged("flows_to", a, b) in m
    ensures Tagged("reachable", a, b) in m
  {
    var s: Valuation := x => if x == "A" then a else b;
    PairBody(s, m, neg, Pattern("flows_to", "A", "B"), Pattern("flows_to", "A", "B"));
    PatternValue(s, "flows_to", "A", "B");
    PatternValue(s, "reachable", "A", "B");
    assert HoldsAll(REACHABILITY[1].body, m, neg, s);
  }

  lemma ThirdRule(m: set<Fact>, neg: set<Fact>, a: Scalar, b: Scalar, c: Scalar)
    requires Closed(REACHABILITY, m, neg) && Tagged("reachable", a, b) in m && Tagged("flows_to", b, c) in m
    ensures Tagged("reachable", a, c) in m
  {
    var s: Valuation := x => if x == "A" then a else if x == "B" then b else c;
    PairBody(s, m, neg, Pattern("reachable", "A", "B"), Pattern("flows_to", "B", "C"));
    PatternValue(s, "reachable", "A", "B");
    PatternValue(s, "flows_to", "B", "C");
    PatternValue(s, "reachable", "A", "C");
    assert HoldsAll(REACHABILITY[2].body, m, neg, s);
  }

  ghost predicate ClosedUnderMutual(m: set<Fact>) {
    forall a, b :: Tagged("reachable", a, b) in m && Tagged("reachable", b, a) in m ==>
      Tagged("mutual_reach", a, b) in m
  }

  lemma MutualClosedIff(m: set<Fact>, neg: set<Fact>)
    ensures Closed(MUTUAL, m, neg) <==> Closed(REACHABILITY, m, neg) && ClosedUnderMutual(m)
  {
    var rule := MUTUAL[3];
    forall s: Valuation
      ensures HoldsAll(rule.body, m, neg, s) <==>
        Tagged("reachable", s("X"), s("Y")) in m && Tagged("reachable", s("Y"), s("X")) in m
      ensures EvTuple(s, rule.head) == Tagged("mutual_reach", s("X"), s("Y"))
    {
      PairBody(s, m, neg, Pattern("reachable", "X", "Y"), Pattern("reachable", "Y", "X"));
      PatternValue(s, "reachable", "X", "Y");
      PatternValue(s, "reachable", "Y", "X");
      PatternValue(s, "mutual_reach", "X", "Y");
    }
    assert forall r :: r in MUTUAL <==> r in REACHABILITY || r == rule;
    if Closed(MUTUAL, m, neg) {
      forall a, b | Tagged("reachable", a, b) in m && Tagged("reachable", b, a) in m
        ensures Tagged("mutual_reach", a, b) in m
      {
        var s: Valuation := x => if x == "X" then a else b;
        assert HoldsAll(rule.body, m, neg, s);
        assert EvTuple(s, rule.head) in m;
      }
    }
  }

  // ---- Agreement ----

  /** The graph over all ids of a snapshot. */
  ghost predicate IsTopologyGraph(g: Graph<NodeAttrs>, facts: seq<Fact>) {
    forall u, v :: (u, v) in g.edges <==> FactEdge(facts, u, v)
  }

  /** A derived fact that the graph justifies. */
  ghost predicate Justified(g: Graph<NodeAttrs>, facts: seq<Fact>, f: Fact) {
    || f in facts
    || (exists p, a, b :: f == Tagged("flows_to", Str(a), Str(b)) && (a, p) in g.edges && (p, b) in g.edges)
    || (exists a, b :: f == Tagged("reachable", Str(a), Str(b)) && Reaches(g, a, b))
    || (exists a, b :: f == Tagged("mutual_reach", Str(a), Str(b)) && Reaches(g, a, b) && Reaches(g, b, a))
  }

  lemma FlowJustified(g: Graph<NodeAttrs>, facts: seq<Fact>, cells: set<string>, props: set<string>, a: Scalar,
                      b: Scalar)
    returns (x: string, y: string)
    requires IsSnapshot(facts, cells, props) && IsTopologyGraph(g, facts)
    requires Justified(g, facts, Tagged("flows_to", a, b))
    ensures a == Str(x) && b == Str(y) && Reaches(g, x, y)
  {
    assert Tagged("flows_to", a, b)[0] == Str("flows_to");
    var p, x', y' :| Tagged("flows_to", a, b) == Tagged("flows_to", Str(x'), Str(y')) && (x', p) in g.edges &&
      (p, y') in g.edges;
    x, y := x', y';
    assert Tagged("flows_to", a, b)[1] == Str(x) && Tagged("flows_to", a, b)[2] == Str(y);
    EdgeReaches(g, x, p);
    EdgeReaches(g, p, y);
    ReachesTransitive(g, x, p, y);
  }

  lemma ReachJustified(g: Graph<NodeAttrs>, facts: seq<Fact>, cells: set<string>, props: set<string>, a: Scalar,
                       b: Scalar)
    returns (x: string, y: string)
    requires IsSnapshot(facts, cells, props)
    requires Justified(g, facts, Tagged("reachable", a, b))
    ensures a == Str(x) && b == Str(y) && Reaches(g, x, y)
  {
    assert Tagged("reachable", a, b)[0] == Str("reachable");
    var x', y' :| Tagged("reachable", a, b) == Tagged("reachable", Str(x'), Str(y')) && Reaches(g, x', y');
    x, y := x', y';
    assert Tagged("reachable", a, b)[1] == Str(x) && Tagged("reachable", a, b)[2] == Str(y);
  }

  lemma LinkJustified(g: Graph<NodeAttrs>, facts: seq<Fact>, tag: string, p: Scalar, c: Scalar)
    requires tag == "reads" || tag == "writes"
    requires Justified(g, facts, Tagged(tag, p, c))
    ensures Tagged(tag, p, c) in facts
  {
    assert Tagged(tag, p, c)[0] == Str(tag);
    assert forall x, y :: Tagged("flows_to", x, y)[0] == Str("flows_to");
    assert forall x, y :: Tagged("reachable", x, y)[0] == Str("reachable");
    assert forall x, y :: Tagged("mutual_reach", x, y)[0] == Str("mutual_reach");
  }

  lemma MutualJustified(g: Graph<NodeAttrs>, facts: seq<Fact>, cells: set<string>, props: set<string>, a: string,
                        b: string)
    requires IsSnapshot(facts, cells, props)
    requires Justified(g, facts, Tagged("mutual_reach", Str(a), Str(b)))
    ensures Reaches(g, a, b) && Reaches(g, b, a)
  {
    var f := Tagged("mutual_reach", Str(a), Str(b));
    assert f[0] == Str("mutual_reach") && f[1] == Str(a) && f[2] == Str(b);
    var x, y :| f == Tagged("mutual_reach", Str(x), Str(y)) && Reaches(g, x, y) && Reaches(g, y, x);
    assert f[1] == Str(x) && f[2] == Str(y);
  }

  /** The justified facts of a closed set are closed under the three rules. */
  lemma JustifiedFlow(g: Graph<NodeAttrs>, facts: seq<Fact>, cells: set<string>, props: set<string>,
                      m: set<Fact>, j: set<Fact>)
    requires IsSnapshot(facts, cells, props) && IsTopologyGraph(g, facts)
    requires Closed(REACHABILITY, m, Elems(facts)) && forall f :: f in j <==> f in m && Justified(g, facts, f)
    ensures ClosedUnderFlow(j)
  {
    ReachabilityClosedOnly(m, Elems(facts));
    forall p, a, b | Tagged("reads", p, a) in j && Tagged("writes", p, b) in j ensures Tagged("flows_to", a, b) in j {
      LinkJustified(g, facts, "reads", p, a);
      LinkJustified(g, facts, "writes", p, b);
      var r, w := Tagged("reads", p, a), Tagged("writes", p, b);
      assert r[0] == Str("reads") && w[0] == Str("writes") && r[1] == p == w[1] && r[2] == a && w[2] == b;
      assert Links(r, "reads", p.s, a.s) && Links(w, "writes", p.s, b.s);
      assert (a.s, p.s) in g.edges && (p.s, b.s) in g.edges;
    }
    forall a, b | Tagged("flows_to", a, b) in j ensures Tagged("reachable", a, b) in j {
      var x, y := FlowJustified(g, facts, cells, props, a, b);
    }
    forall a, b, c | Tagged("reachable", a, b) in j && Tagged("flows_to", b, c) in j
      ensures Tagged("reachable", a, c) in j
    {
      var x, y := ReachJustified(g, facts, cells, props, a, b);
      var y', z := FlowJustified(g, facts, cells, props, b, c);
      ReachesTransitive(g, x, y, z);
    }
  }

  /** Everything in the least model is justified by the graph. */
  lemma ModelJustified(g: Graph<NodeAttrs>, facts: seq<Fact>, cells: set<string>, props: set<string>, m: set<Fact>)
    requires IsSnapshot(facts, cells, props) && IsTopologyGraph(g, facts)
    requires IsLeastModel(REACHABILITY, Elems(facts), m)
    ensures forall f :: f in m ==> Justified(g, facts, f)
  {
    var j := set f | f in m && Justified(g, facts, f);
    JustifiedFlow(g, facts, cells, props, m, j);
    ReachabilityClosed(j, Elems(facts));
    assert Elems(facts) <= j;
  }

  lemma MutualModelJustified(g: Graph<NodeAttrs>, facts: seq<Fact>, cells: set<string>, props: set<string>,
                             m: set<Fact>)
    requires IsSnapshot(facts, cells, props) && IsTopologyGraph(g, facts)
    requires IsLeastModel(MUTUAL, Elems(facts), m)
    ensures forall f :: f in m ==> Justified(g, facts, f)
  {
    var j := set f | f in m && Justified(g, facts, f);
    MutualClosedIff(m, Elems(facts));
    JustifiedFlow(g, facts, cells, props, m, j);
    ReachabilityClosed(j, Elems(facts));
    forall a, b | Tagged("reachable", a, b) in j && Tagged("reachable", b, a) in j
      ensures Tagged("mutual_reach", a, b) in j
    {
      var x, y := ReachJustified(g, facts, cells, props, a, b);
      var y', x' := ReachJustified(g, facts, cells, props, b, a);
    }
    MutualClosedIff(j, Elems(facts));
    assert Elems(facts) <= j;
  }

  /** Nodes on a path from a cell alternate between cells and propagators. */
  lemma {:induction false} PathAlternates(g: Graph<NodeAttrs>, facts: seq<Fact>, cells: set<string>, props: set<string>,
                                          p: seq<string>, k: nat)
    requires IsSnapshot(facts, cells, props) && IsTopologyGraph(g, facts)
    requires IsPath(g, p) && k < |p| && p[0] in cells
    ensures if k % 2 == 0 then p[k] in cells else p[k] in props
  {
    if k > 0 {
      PathAlternates(g, facts, cells, props, p, k - 1);
      assert StepAt(g, p, k - 1);
      StepKind(facts, cells, props, p[k - 1], p[k]);
      assert (k - 1) % 2 != k % 2;
    }
  }

  lemma TwoStepsFlow(g: Graph<NodeAttrs>, facts: seq<Fact>, cells: set<string>, props: set<string>,
                     m: set<Fact>, u: string, v: string, w: string)
    requires IsSnapshot(facts, cells, props) && IsTopologyGraph(g, facts)
    requires Elems(facts) <= m && Closed(REACHABILITY, m, Elems(facts))
    requires u in cells && (u, v) in g.edges && (v, w) in g.edges
    ensures Tagged("flows_to", Str(u), Str(w)) in m && Tagged("reachable", Str(u), Str(w)) in m
  {
    ReachabilityClosedOnly(m, Elems(facts));
    StepKind(facts, cells, props, u, v);
    StepKind(facts, cells, props, v, w);
    assert Tagged("reads", Str(v), Str(u)) in Elems(facts) && Tagged("writes", Str(v), Str(w)) in Elems(facts);
  }

  lemma ReachableExtends(facts: seq<Fact>, m: set<Fact>, a: Scalar, b: Scalar, c: Scalar)
    requires Closed(REACHABILITY, m, Elems(facts))
    requires Tagged("reachable", a, b) in m && Tagged("flows_to", b, c) in m
    ensures Tagged("reachable", a, c) in m
  {
    ReachabilityClosedOnly(m, Elems(facts));
  }

  /** Even stretches of a path from a cell are chains of flows, hence derived. */
  lemma {:induction false} PathDerived(g: Graph<NodeAttrs>, facts: seq<Fact>, cells: set<string>, props: set<string>,
                                       m: set<Fact>, p: seq<string>, n: nat)
    requires IsSnapshot(facts, cells, props) && IsTopologyGraph(g, facts)
    requires Elems(facts) <= m && Closed(REACHABILITY, m, Elems(facts))
    requires IsPath(g, p) && 0 < n < |p| && n % 2 == 0 && p[0] in cells
    ensures Tagged("reachable", Str(p[0]), Str(p[n])) in m
  {
    StretchFlows(g, facts, cells, props, m, p, n - 2);
    if n > 2 {
      PathDerived(g, facts, cells, props, m, p, n - 2);
      ReachableExtends(facts, m, Str(p[0]), Str(p[n - 2]), Str(p[n]));
    }
  }

  /** Two steps of such a path, starting at a cell. */
  lemma StretchFlows(g: Graph<NodeAttrs>, facts: seq<Fact>, cells: set<string>, props: set<string>,
                     m: set<Fact>, p: seq<string>, i: nat)
    requires IsSnapshot(facts, cells, props) && IsTopologyGraph(g, facts)
    requires Elems(facts) <= m && Closed(REACHABILITY, m, Elems(facts))
    requires IsPath(g, p) && i + 2 < |p| && p[0] in cells && i % 2 == 0
    ensures Tagged("flows_to", Str(p[i]), Str(p[i + 2])) in m && Tagged("reachable", Str(p[i]), Str(p[i + 2])) in m
  {
    assert StepAt(g, p, i);
    assert StepAt(g, p, i + 1);
    PathAlternates(g, facts, cells, props, p, i);
    TwoStepsFlow(g, facts, cells, props, m, p[i], p[i + 1], p[i + 2]);
  }

  /** An edge from a cell is a read, an edge from a propagator a write. */
  lemma StepKind(facts: seq<Fact>, cells: set<string>, props: set<string>, u: string, v: string)
    requires IsSnapshot(facts, cells, props) && FactEdge(facts, u, v)
    ensures u in cells ==> v in props && Tagged("reads", Str(v), Str(u)) in facts
    ensures u in props ==> v in cells && Tagged("writes", Str(u), Str(v)) in facts
  {
    var f :| f in facts && (Links(f, "reads", v, u) || Links(f, "writes", u, v));
    assert f == [f[0], f[1], f[2]];
  }

  lemma AgreeWhenJustified(g: Graph<NodeAttrs>, facts: seq<Fact>, cells: set<string>, props: set<string>,
                           m: set<Fact>, a: string, b: string)
    requires IsSnapshot(facts, cells, props) && IsTopologyGraph(g, facts)
    requires Elems(facts) <= m && Closed(REACHABILITY, m, Elems(facts))
    requires var f := Tagged("reachable", Str(a), Str(b)); f in m ==> Justified(g, facts, f)
    requires a in cells && b in cells
    ensures Tagged("reachable", Str(a), Str(b)) in m <==> Reaches(g, a, b)
  {
    if Tagged("reachable", Str(a), Str(b)) in m {
      var x, y := ReachJustified(g, facts, cells, props, Str(a), Str(b));
    }
    if Reaches(g, a, b) {
      var p :| PathFromTo(g, p, a, b);
      PathIsEven(g, facts, cells, props, p);
      PathDerived(g, facts, cells, props, m, p, |p| - 1);
    }
  }

  /** A path between cells has an even number of steps. */
  lemma PathIsEven(g: Graph<NodeAttrs>, facts: seq<Fact>, cells: set<string>, props: set<string>, p: seq<string>)
    requires IsSnapshot(facts, cells, props) && IsTopologyGraph(g, facts)
    requires IsPath(g, p) && p != [] && p[0] in cells && p[|p| - 1] in cells
    ensures (|p| - 1) % 2 == 0
  {
    PathAlternates(g, facts, cells, props, p, |p| - 1);
  }

  /** The least model of the reachability program and the graph agree on all cells. */
  lemma TwoReachabilitiesAgree(g: Graph<NodeAttrs>, facts: seq<Fact>, cells: set<string>, props: set<string>,
                               m: set<Fact>, a: string, b: string)
    requires IsSnapshot(facts, cells, props) && IsTopologyGraph(g, facts)
    requires IsLeastModel(REACHABILITY, Elems(facts), m)
    requires a in cells && b in cells
    ensures Tagged("reachable", Str(a), Str(b)) in m <==> Reaches(g, a, b)
  {
    ModelJustified(g, facts, cells, props, m);
    AgreeWhenJustified(g, facts, cells, props, m, a, b);
  }

  /** So does that of the mutual-reach program, whose own facts are the pairs of cells that
      reach each other. */
  lemma MutualReachAgrees(g: Graph<NodeAttrs>, facts: seq<Fact>, cells: set<string>, props: set<string>,
                          m: set<Fact>, a: string, b: string)
    requires IsSnapshot(facts, cells, props) && IsTopologyGraph(g, facts)
    requires IsLeastModel(MUTUAL, Elems(facts), m)
    requires a in cells && b in cells
    ensures Tagged("reachable", Str(a), Str(b)) in m <==> Reaches(g, a, b)
    ensures Tagged("mutual_reach", Str(a), Str(b)) in m <==> Reaches(g, a, b) && Reaches(g, b, a)
  {
    MutualModelJustified(g, facts, cells, props, m);
    MutualClosedIff(m, Elems(facts));
    AgreeWhenJustified(g, facts, cells, props, m, a, b);
    AgreeWhenJustified(g, facts, cells, props, m, b, a);
    if Tagged("mutual_reach", Str(a), Str(b)) in m {
      MutualJustified(g, facts, cells, props, a, b);
    }
  }

  lemma PatternIsPlain(tag: string, x: string, y: string)
    requires tag != "=" && tag != "!="
    ensures IsPlain(Atom(Pattern(tag, x, y))) && !RequiresExtended(Atom(Pattern(tag, x, y)))
    ensures VarsIn(Pattern(tag, x, y)) == {x, y}
  {
    var ts := Pattern(tag, x, y);
    assert ts[0] == Const(Str(tag)) && ts[1] == Var(x) && ts[2] == Var(y);
  }

  lemma VarsOfTwo(b: seq<Literal>)
    requires 1 <= |b| <= 2 && b[0].Atom? && b[|b| - 1].Atom?
    ensures VarsOfAtoms(b) == VarsIn(b[0].terms) + VarsIn(b[|b| - 1].terms)
  {
    assert VarsOfAtoms([]) == {};
    assert |b| == 1 ==> b[1..] == [];
    assert |b| == 2 ==> b[1..] == [b[1]] && b[1..][1..] == [];
  }

  /** Both programs meet the conditions of the least-model theorem. */
  lemma ReachabilityIsStandard()
    ensures !HasExtendedAtoms(REACHABILITY) && Positive(REACHABILITY) && Safe(REACHABILITY)
    ensures !HasExtendedAtoms(MUTUAL) && Positive(MUTUAL) && Safe(MUTUAL)
  {
    forall i | 0 <= i < |MUTUAL|
      ensures RangeRestricted(MUTUAL[i].head, MUTUAL[i].body, map[]) && !SomeRequiresExtended(MUTUAL[i].body)
    {
      PatternsArePlain();
      AtomsRestricted(MUTUAL[i].head, MUTUAL[i].body, map[], {});
      PlainIsStandard(MUTUAL[i].body);
    }
    assert forall i :: 0 <= i < |REACHABILITY| ==> REACHABILITY[i] == MUTUAL[i];
    StandardIsPositive(REACHABILITY);
    StandardIsPositive(MUTUAL);
  }

  lemma PatternsArePlain()
    ensures forall i :: 0 <= i < |MUTUAL| ==>
      && (forall k :: 0 <= k < |MUTUAL[i].body| ==> IsPlain(MUTUAL[i].body[k]))
      && VarsIn(MUTUAL[i].head) <= VarsOfAtoms(MUTUAL[i].body)
  {
    PatternIsPlain("reads", "P", "A");
    PatternIsPlain("writes", "P", "B");
    PatternIsPlain("flows_to", "A", "B");
    PatternIsPlain("flows_to", "B", "C");
    PatternIsPlain("reachable", "A", "B");
    PatternIsPlain("reachable", "A", "C");
    PatternIsPlain("reachable", "X", "Y");
    PatternIsPlain("reachable", "Y", "X");
    PatternIsPlain("mutual_reach", "X", "Y");
    forall i | 0 <= i < |MUTUAL| ensures VarsIn(MUTUAL[i].head) <= VarsOfAtoms(MUTUAL[i].body) {
      VarsOfTwo(MUTUAL[i].body);
    }
  }

  /** The whole way from a snapshot, once through the program and once through the graph
      and its search: a derived pair of cells is a listed pair, and a listed pair is derived.
      Only reachable pairs that print alike can be missing from the list. */
  method ReachabilityTwice(facts: seq<Fact>, keep: seq<string>, strategy: Strategy, engine: seq<Fact>,
                           ghost cells: set<string>, ghost props: set<string>)
    returns (derived: seq<Fact>, pairs: seq<Edge>, g: Graph<NodeAttrs>)
    requires IsSnapshot(facts, cells, props) && NoDup(keep)
    requires forall u, v :: FactEdge(facts, u, v) ==> u in keep && v in keep
    requires IsLeastModel(REACHABILITY, Elems(facts), Elems(engine))
    ensures Valid(g) && g.nodes == keep && IsTopologyGraph(g, facts)
    ensures forall a, b :: a in cells && b in cells && (a, b) in pairs ==>
      Tagged("reachable", Str(a), Str(b)) in derived
    ensures KeysDistinct(g) ==> forall a, b :: a in cells && b in cells ==>
      (Tagged("reachable", Str(a), Str(b)) in derived <==> (a, b) in pairs)
    ensures (forall id :: id in keep ==> '>' !in id) ==> KeysDistinct(g)
  {
    ReachabilityIsStandard();
    PositiveStratified(REACHABILITY);
    derived := EvaluateProgram(Program(REACHABILITY, strategy), facts, engine);
    g := GraphFromTopologyFacts(facts, keep);
    pairs := EnumerateReachablePairs(g);
    forall a, b | a in cells && b in cells
      ensures Tagged("reachable", Str(a), Str(b)) in derived <==> Reaches(g, a, b)
      ensures (a, b) in pairs ==> Reaches(g, a, b)
      ensures KeysDistinct(g) && Reaches(g, a, b) ==> (a, b) in pairs
    {
      TwoReachabilitiesAgree(g, facts, cells, props, Elems(derived), a, b);
      assert (a, b).0 == a && (a, b).1 == b;
    }
    if forall id :: id in keep ==> '>' !in id {
      KeysDistinctWithoutArrows(g);
    }
  }

  // ---- One-way connections, a second stage with negation ----

  function Ground(tag: string, x: string, y: string): seq<Term> {
    [Const(Str(tag)), Const(Str(x)), Const(Str(y))]
  }

  function Directed(a: string, b: string, c: string): seq<Edge> {
    [(a, b), (b, a), (a, c), (c, a), (b, c), (c, b)]
  }

  function OneWayRule(e: Edge): Rule {
    Rule(Ground("surface_one_way", e.0, e.1),
      [Atom(Ground("reachable", e.0, e.1)), NegFact(Ground("reachable", e.1, e.0))])
  }

  /** surface_one_way(x,y) :- reachable(x,y), not reachable(y,x), for each pair. */
  function OneWayProgram(pairs: seq<Edge>): seq<Rule> {
    seq(|pairs|, i requires 0 <= i < |pairs| => OneWayRule(pairs[i]))
  }

  lemma OneWayBody(e: Edge, pos: set<Fact>, neg: set<Fact>, s: Valuation)
    ensures HoldsAll(OneWayRule(e).body, pos, neg, s) <==>
      Tagged("reachable", Str(e.0), Str(e.1)) in pos && Tagged("reachable", Str(e.1), Str(e.0)) !in neg
    ensures EvTuple(s, OneWayRule(e).head) == Tagged("surface_one_way", Str(e.0), Str(e.1))
  {
    var body := OneWayRule(e).body;
    assert body[1..] == [body[1]] && body[1..][1..] == [];
    assert EvTuple(s, Ground("reachable", e.0, e.1)) == Tagged("reachable", Str(e.0), Str(e.1));
    assert EvTuple(s, Ground("reachable", e.1, e.0)) == Tagged("reachable", Str(e.1), Str(e.0));
    assert HoldsAll(body[1..], pos, neg, s) <==> Holds(body[1], pos, neg, s);
  }

  lemma OneWayApart(e: Edge, e': Edge)
    ensures NegationApart(OneWayRule(e).body, OneWayRule(e').head)
  {
    var body, h := OneWayRule(e).body, OneWayRule(e').head;
    var t := body[1].template;
    assert "reachable"[0] != "surface_one_way"[0];
    assert t[0] == Const(Str("reachable")) && h[0] == Const(Str("surface_one_way")) && t[0] != h[0];
    assert Apart(t, h) && LiteralApart(body[1], h) && LiteralApart(body[0], h);
    assert body[1..] == [body[1]] && body[1..][1..] == [];
    assert NegationApart([], h) && NegationApart(body[1..], h);
  }

  lemma OneWaySafe(e: Edge)
    ensures RangeRestricted(OneWayRule(e).head, OneWayRule(e).body, map[])
  {
    var head, body := OneWayRule(e).head, OneWayRule(e).body;
    assert body[1..] == [body[1]] && body[1..][1..] == [];
    forall o: Dict ensures RangeRestricted(head, body[1..], o) {
      assert IsGround(ApplyTuple(o, head)) && IsGround(ApplyTuple(o, body[1].template));
      assert RangeRestricted(head, body[1..][1..], o);
    }
    assert !IsEq(body[0]) && !IsNeq(body[0]) by {
      assert body[0].terms[0] == Const(Str("reachable"));
    }
  }

  /** The negated predicate is not derived here, so the program is stratified. */
  lemma OneWayIsStratified(pairs: seq<Edge>)
    ensures Stratified(OneWayProgram(pairs)) && Safe(OneWayProgram(pairs))
  {
    forall r, r' | r in OneWayProgram(pairs) && r' in OneWayProgram(pairs) ensures NegationApart(r.body, r'.head) {
      var i :| 0 <= i < |pairs| && r == OneWayRule(pairs[i]);
      var j :| 0 <= j < |pairs| && r' == OneWayRule(pairs[j]);
      OneWayApart(pairs[i], pairs[j]);
    }
    forall r | r in OneWayProgram(pairs) ensures RangeRestricted(r.head, r.body, map[]) {
      var i :| 0 <= i < |pairs| && r == OneWayRule(pairs[i]);
      OneWaySafe(pairs[i]);
    }
  }

  ghost predicate OneWayJustified(pairs: seq<Edge>, edb: set<Fact>, f: Fact) {
    exists e: Edge :: e in pairs && f == Tagged("surface_one_way", Str(e.0), Str(e.1))
      && Tagged("reachable", Str(e.0), Str(e.1)) in edb && Tagged("reachable", Str(e.1), Str(e.0)) !in edb
  }

  lemma OneWaySound(pairs: seq<Edge>, edb: set<Fact>, m: set<Fact>)
    requires IsLeastModel(OneWayProgram(pairs), edb, m)
    ensures forall f :: f in m ==> f in edb || OneWayJustified(pairs, edb, f)
  {
    var rules := OneWayProgram(pairs);
    var j := set f | f in m && (f in edb || OneWayJustified(pairs, edb, f));
    forall r, s: Valuation | r in rules && HoldsAll(r.body, j, edb, s) ensures EvTuple(s, r.head) in j {
      var i :| 0 <= i < |pairs| && r == OneWayRule(pairs[i]);
      OneWayDerives(pairs, edb, m, j, pairs[i], s);
    }
    assert Closed(rules, j, edb);
  }

  lemma OneWayDerives(pairs: seq<Edge>, edb: set<Fact>, m: set<Fact>, j: set<Fact>, e: Edge, s: Valuation)
    requires e in pairs && j <= m && Closed(OneWayProgram(pairs), m, edb)
    requires forall f :: f in j ==> f in edb || OneWayJustified(pairs, edb, f)
    requires HoldsAll(OneWayRule(e).body, j, edb, s)
    ensures EvTuple(s, OneWayRule(e).head) in m
    ensures OneWayJustified(pairs, edb, EvTuple(s, OneWayRule(e).head))
  {
    var i :| 0 <= i < |pairs| && pairs[i] == e;
    assert OneWayProgram(pairs)[i] == OneWayRule(e);
    OneWayBody(e, j, edb, s);
    OneWayBody(e, m, edb, s);
    var f := Tagged("reachable", Str(e.0), Str(e.1));
    assert f[0] == Str("reachable");
  }

  /** The stage derives one-way facts exactly for the listed pairs connected in one
      direction only. */
  lemma OneWayExact(pairs: seq<Edge>, edb: set<Fact>, m: set<Fact>, e: Edge)
    requires IsLeastModel(OneWayProgram(pairs), edb, m)
    requires forall f: Fact :: f in edb && |f| > 0 ==> f[0] != Str("surface_one_way")
    ensures Tagged("surface_one_way", Str(e.0), Str(e.1)) in m <==>
      && e in pairs
      && Tagged("reachable", Str(e.0), Str(e.1)) in edb
      && Tagged("reachable", Str(e.1), Str(e.0)) !in edb
  {
    var f := Tagged("surface_one_way", Str(e.0), Str(e.1));
    if f in m {
      OneWaySound(pairs, edb, m);
      assert f[0] == Str("surface_one_way") && f[1] == Str(e.0) && f[2] == Str(e.1);
      var e': Edge :| e' in pairs && f == Tagged("surface_one_way", Str(e'.0), Str(e'.1))
        && Tagged("reachable", Str(e'.0), Str(e'.1)) in edb && Tagged("reachable", Str(e'.1), Str(e'.0)) !in edb;
      assert f[1] == Str(e'.0) && f[2] == Str(e'.1);
      assert e == (e.0, e.1) == (e'.0, e'.1) == e';
    }
    if e in pairs && Tagged("reachable", Str(e.0), Str(e.1)) in edb && Tagged("reachable", Str(e.1), Str(e.0)) !in edb {
      OneWayDerives(pairs, edb, m, edb, e, _ => Bool(false)) by {
        OneWayBody(e, edb, edb, _ => Bool(false));
      }
      OneWayBody(e, edb, edb, _ => Bool(false));
    }
  }

  lemma NoOneWayYet(g: Graph<NodeAttrs>, facts: seq<Fact>, cells: set<string>, props: set<string>, m: set<Fact>)
    requires IsSnapshot(facts, cells, props) && IsTopologyGraph(g, facts)
    requires forall f: Fact :: f in facts && |f| > 0 ==> f[0] != Str("surface_one_way")
    requires IsLeastModel(MUTUAL, Elems(facts), m)
    ensures forall f: Fact :: f in m && |f| > 0 ==> f[0] != Str("surface_one_way")
  {
    MutualModelJustified(g, facts, cells, props, m);
    forall f: Fact | f in m && |f| > 0 ensures f[0] != Str("surface_one_way") {
      assert Justified(g, facts, f);
      if f !in facts { DerivedTag(g, facts, f); }
    }
  }

  lemma DerivedTag(g: Graph<NodeAttrs>, facts: seq<Fact>, f: Fact)
    requires Justified(g, facts, f) && f !in facts
    ensures |f| == 3 && (f[0] == Str("flows_to") || f[0] == Str("reachable") || f[0] == Str("mutual_reach"))
    ensures f[0] != Str("surface_one_way")
  {
    assert "surface_one_way"[0] != "flows_to"[0] && "surface_one_way"[0] != "reachable"[0];
    assert "surface_one_way"[0] != "mutual_reach"[0];
  }

  /** Run after the mutual-reach stage, it finds exactly the cell pairs of the triad that
      the graph connects in one direction only. */
  lemma OneWayMatchesGraph(g: Graph<NodeAttrs>, facts: seq<Fact>, cells: set<string>, props: set<string>,
                           m: set<Fact>, a: string, b: string, c: string, m': set<Fact>, x: string, y: string)
    requires IsSnapshot(facts, cells, props) && IsTopologyGraph(g, facts)
    requires forall f: Fact :: f in facts && |f| > 0 ==> f[0] != Str("surface_one_way")
    requires IsLeastModel(MUTUAL, Elems(facts), m)
    requires IsLeastModel(OneWayProgram(Directed(a, b, c)), m, m')
    requires a in cells && b in cells && c in cells
    ensures Tagged("surface_one_way", Str(x), Str(y)) in m' <==>
      x in {a, b, c} && y in {a, b, c} && Reaches(g, x, y) && !Reaches(g, y, x)
  {
    var e := (x, y);
    NoOneWayYet(g, facts, cells, props, m);
    OneWayExact(Directed(a, b, c), m, m', e);
    DirectedExact(a, b, c, x, y);
    if x in {a, b, c} && y in {a, b, c} {
      MutualReachAgrees(g, facts, cells, props, m, x, y);
      MutualReachAgrees(g, facts, cells, props, m, y, x);
    }
  }

  /** Every pair of different ids is listed. */
  lemma DirectedExact(a: string, b: string, c: string, x: string, y: string)
    ensures (x, y) in Directed(a, b, c) ==> x in {a, b, c} && y in {a, b, c}
    ensures x != y && x in {a, b, c} && y in {a, b, c} ==> (x, y) in Directed(a, b, c)
  {
  }
}
