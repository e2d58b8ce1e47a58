// Networks of FactSet cells and program propagators under an arbitrary scheduler:
// whatever the firing order and the batching of updates, a quiescent network holds
// the composed least model of everything it was given.
module FactNetwork {
  import opened Common
  import opened LogicProgram
  import opened LeastModel
  import opened FactSets

  /** Cell number i is either fed from outside or written by one program propagator. */
  datatype Node = Source | Derived(rules: seq<Rule>, inputs: seq<nat>)

  predicate WellFormed(net: seq<Node>) {
    forall i :: 0 <= i < |net| && net[i].Derived? ==>
      forall k :: 0 <= k < |net[i].inputs| ==> net[i].inputs[k] < i
  }

  predicate NegationFreeNet(net: seq<Node>) {
    forall i :: 0 <= i < |net| && net[i].Derived? ==> Positive(net[i].rules)
  }

  /** `pending[i]`: the propagator writing cell i is scheduled. `given[i]`: all the facts
      ever sent to source i. */
  datatype State = State(cells: seq<seq<Fact>>, pending: seq<bool>, given: seq<set<Fact>>)

  predicate Sized(net: seq<Node>, s: State) {
    |s.cells| == |s.pending| == |s.given| == |net|
  }

  predicate Initial(net: seq<Node>, s: State) {
    && Sized(net, s)
    && forall i :: 0 <= i < |net| ==> s.cells[i] == [] && s.given[i] == {} && (s.pending[i] <==> net[i].Derived?)
  }

  /** The facts of all input cells, in input order. */
  function Gather(cells: seq<seq<Fact>>, inputs: seq<nat>): seq<Fact>
    requires forall k :: 0 <= k < |inputs| ==> inputs[k] < |cells|
  {
    if inputs == [] then [] else cells[inputs[0]] + Gather(cells, inputs[1..])
  }

  /** Add `facts` to cell i; if its value changed, schedule the propagators that read it. */
  function Write(net: seq<Node>, s: State, i: nat, facts: seq<Fact>): State
    requires Sized(net, s) && i < |net|
  {
    var merged := MergeFactSets(s.cells[i], facts);
    var changed := !FactSetsEqual(s.cells[i], merged);
    s.(cells := s.cells[i := if changed then merged else s.cells[i]],
       pending := seq(|net|, j requires 0 <= j < |net| =>
         s.pending[j] || (changed && net[j].Derived? && i in net[j].inputs)))
  }

  /** An update of source i from outside. */
  function Feed(net: seq<Node>, s: State, i: nat, facts: seq<Fact>): State
    requires Sized(net, s) && i < |net|
  {
    Write(net, s, i, facts).(given := s.given[i := s.given[i] + Elems(facts)])
  }

  /** The scheduled propagator of cell i runs, its engine returning `facts`. */
  function Fire(net: seq<Node>, s: State, i: nat, facts: seq<Fact>): State
    requires Sized(net, s) && i < |net|
  {
    Write(net, s.(pending := s.pending[i := false]), i, facts)
  }

  ghost predicate Fires(net: seq<Node>, s: State, s': State) {
    && Sized(net, s) && WellFormed(net)
    && exists i: nat, facts: seq<Fact> :: FiresAt(net, s, s', i, facts)
  }

  ghost predicate FiresAt(net: seq<Node>, s: State, s': State, i: nat, facts: seq<Fact>)
    requires Sized(net, s) && WellFormed(net)
  {
    && i < |net| && net[i].Derived? && s.pending[i]
    && IsLeastModel(net[i].rules, Elems(Gather(s.cells, net[i].inputs)), Elems(facts))
    && s' == Fire(net, s, i, facts)
  }

  ghost predicate IsFed(net: seq<Node>, s: State, s': State) {
    Sized(net, s) && exists i: nat, facts: seq<Fact> :: FedAt(net, s, s', i, facts)
  }

  ghost predicate FedAt(net: seq<Node>, s: State, s': State, i: nat, facts: seq<Fact>)
    requires Sized(net, s)
  {
    i < |net| && net[i].Source? && s' == Feed(net, s, i, facts)
  }

  ghost predicate IsRun(net: seq<Node>, run: seq<State>) {
    && run != [] && Initial(net, run[0])
    && forall k :: 0 <= k < |run| - 1 ==> IsFed(net, run[k], run[k + 1]) || Fires(net, run[k], run[k + 1])
  }

  predicate Quiescent(s: State) {
    forall i :: 0 <= i < |s.pending| ==> !s.pending[i]
  }

  // ---- Composed least model ----

  function GatherSets(g: seq<set<Fact>>, inputs: seq<nat>): set<Fact>
    requires forall k :: 0 <= k < |inputs| ==> inputs[k] < |g|
  {
    if inputs == [] then {} else g[inputs[0]] + GatherSets(g, inputs[1..])
  }

  /** `g` assigns to every source what it was given and to every derived cell the least
      model of its program over its input cells. */
  ghost predicate Denotes(net: seq<Node>, given: seq<set<Fact>>, g: seq<set<Fact>>)
    requires WellFormed(net)
  {
    && |given| == |g| == |net|
    && forall i :: 0 <= i < |net| ==> DenotesAt(net, given, g, i)
  }

  ghost predicate DenotesAt(net: seq<Node>, given: seq<set<Fact>>, g: seq<set<Fact>>, i: nat)
    requires WellFormed(net) && |given| == |g| == |net| && i < |net|
  {
    match net[i]
    case Source => g[i] == given[i]
    case Derived(rules, inputs) => IsLeastModel(rules, GatherSets(g, inputs), g[i])
  }

  lemma {:induction false} GatherSetsAgree(g: seq<set<Fact>>, g': seq<set<Fact>>, inputs: seq<nat>, n: nat)
    requires n <= |g| && n <= |g'| && g[..n] == g'[..n]
    requires forall k :: 0 <= k < |inputs| ==> inputs[k] < n
    ensures GatherSets(g, inputs) == GatherSets(g', inputs)
  {
    if inputs != [] {
      assert g[inputs[0]] == g[..n][inputs[0]] == g'[inputs[0]];
      GatherSetsAgree(g, g', inputs[1..], n);
    }
  }

  /** The composed least model is unique. */
  lemma {:induction false} DenotationUnique(net: seq<Node>, given: seq<set<Fact>>, g: seq<set<Fact>>,
                                            g': seq<set<Fact>>, n: nat)
    requires WellFormed(net) && Denotes(net, given, g) && Denotes(net, given, g') && n <= |net|
    ensures g[..n] == g'[..n]
  {
    if n == 0 {
      assert g[..n] == [] == g'[..n];
    } else {
      DenotationUnique(net, given, g, g', n - 1);
      var i := n - 1;
      assert DenotesAt(net, given, g, i) && DenotesAt(net, given, g', i);
      if net[i].Derived? {
        GatherSetsAgree(g, g', net[i].inputs, i);
        LeastModelUnique(net[i].rules, GatherSets(g, net[i].inputs), g[i], g'[i]);
      }
      assert g[..n] == g[..i] + [g[i]] && g'[..n] == g'[..i] + [g'[i]];
    }
  }

  // ---- Invariant ----

  function Sets(cells: seq<seq<Fact>>): seq<set<Fact>> {
    seq(|cells|, i requires 0 <= i < |cells| => Elems(cells[i]))
  }

  lemma {:induction false} GatherElems(cells: seq<seq<Fact>>, inputs: seq<nat>)
    requires forall k :: 0 <= k < |inputs| ==> inputs[k] < |cells|
    ensures Elems(Gather(cells, inputs)) == GatherSets(Sets(cells), inputs)
  {
    if inputs != [] {
      GatherElems(cells, inputs[1..]);
      ElemsOfAppend(cells[inputs[0]], Gather(cells, inputs[1..]));
    }
  }

  /** `m` is below every closed set that contains `edb`. */
  ghost predicate BelowClosed(rules: seq<Rule>, edb: set<Fact>, m: set<Fact>) {
    forall c: set<Fact> :: edb <= c && Closed(rules, c, edb) ==> m <= c
  }

  ghost predicate InvAt(net: seq<Node>, s: State, i: nat)
    requires WellFormed(net) && Sized(net, s) && i < |net|
  {
    match net[i]
    case Source => Elems(s.cells[i]) == s.given[i]
    case Derived(rules, inputs) =>
      var edb := Elems(Gather(s.cells, inputs));
      && BelowClosed(rules, edb, Elems(s.cells[i]))
      && (!s.pending[i] ==> edb <= Elems(s.cells[i]) && Closed(rules, Elems(s.cells[i]), edb))
  }

  ghost predicate Inv(net: seq<Node>, s: State)
    requires WellFormed(net)
  {
    Sized(net, s) && forall i :: 0 <= i < |net| ==> InvAt(net, s, i)
  }

  /** What a write does to the value sets and to the schedule. */
  lemma WriteEffect(net: seq<Node>, s: State, i: nat, facts: seq<Fact>)
    requires Sized(net, s) && i < |net|
    ensures var s' := Write(net, s, i, facts);
      && Sized(net, s') && s'.given == s.given
      && Elems(s'.cells[i]) == Elems(s.cells[i]) + Elems(facts)
      && (forall j :: 0 <= j < |net| && j != i ==> s'.cells[j] == s.cells[j])
      && (forall j :: 0 <= j < |net| && s.pending[j] ==> s'.pending[j])
      && (s'.cells[i] == s.cells[i] ||
          forall j :: 0 <= j < |net| && net[j].Derived? && i in net[j].inputs ==> s'.pending[j])
      && (forall j :: 0 <= j < |net| && !s.pending[j] && s'.pending[j] ==> net[j].Derived? && i in net[j].inputs)
  {
    MergeIsUnion(s.cells[i], facts);
    ChangeDetection(s.cells[i], facts);
  }

  lemma {:induction false} GatherGrows(cells: seq<seq<Fact>>, cells': seq<seq<Fact>>, inputs: seq<nat>)
    requires |cells| == |cells'| && forall k :: 0 <= k < |inputs| ==> inputs[k] < |cells|
    requires forall j :: 0 <= j < |cells| ==> Elems(cells[j]) <= Elems(cells'[j])
    ensures Elems(Gather(cells, inputs)) <= Elems(Gather(cells', inputs))
    ensures (forall k :: 0 <= k < |inputs| ==> cells[inputs[k]] == cells'[inputs[k]]) ==>
      Gather(cells, inputs) == Gather(cells', inputs)
  {
    if inputs != [] {
      GatherGrows(cells, cells', inputs[1..]);
      ElemsOfAppend(cells[inputs[0]], Gather(cells, inputs[1..]));
      ElemsOfAppend(cells'[inputs[0]], Gather(cells', inputs[1..]));
    }
  }

  lemma BelowClosedMonotone(rules: seq<Rule>, edb: set<Fact>, edb': set<Fact>, m: set<Fact>)
    requires Positive(rules) && edb <= edb' && BelowClosed(rules, edb, m)
    ensures BelowClosed(rules, edb', m)
  {
    forall c: set<Fact> | edb' <= c && Closed(rules, c, edb') ensures m <= c {
      forall r, s: Valuation | r in rules && HoldsAll(r.body, c, edb, s) ensures EvTuple(s, r.head) in c {
        NegationIrrelevant(r.body, c, edb, edb', s);
      }
    }
  }

  /** A write to cell i keeps the invariant at every other cell. */
  lemma WriteKeepsOthers(net: seq<Node>, s: State, i: nat, facts: seq<Fact>, j: nat)
    requires WellFormed(net) && NegationFreeNet(net) && Sized(net, s)
    requires i < |net| && j < |net| && i != j && InvAt(net, s, j)
    ensures InvAt(net, Write(net, s, i, facts), j)
  {
    var s' := Write(net, s, i, facts);
    WriteEffect(net, s, i, facts);
    if net[j].Derived? {
      GatherGrows(s.cells, s'.cells, net[j].inputs);
      BelowClosedMonotone(net[j].rules, Elems(Gather(s.cells, net[j].inputs)),
                          Elems(Gather(s'.cells, net[j].inputs)), Elems(s.cells[j]));
      if !s'.pending[j] {
        assert i in net[j].inputs ==> s'.cells[i] == s.cells[i];
        assert forall k :: 0 <= k < |net[j].inputs| ==> s.cells[net[j].inputs[k]] == s'.cells[net[j].inputs[k]];
      }
    }
  }

  lemma InitialInv(net: seq<Node>, s: State)
    requires WellFormed(net) && Initial(net, s)
    ensures Inv(net, s)
  {
    forall i | 0 <= i < |net| ensures InvAt(net, s, i) {
      assert Elems(s.cells[i]) == {};
    }
  }

  lemma FeedInv(net: seq<Node>, s: State, i: nat, facts: seq<Fact>)
    requires WellFormed(net) && NegationFreeNet(net) && Inv(net, s)
    requires i < |net| && net[i].Source?
    ensures Inv(net, Feed(net, s, i, facts))
  {
    var w, s' := Write(net, s, i, facts), Feed(net, s, i, facts);
    WriteEffect(net, s, i, facts);
    forall j | 0 <= j < |net| ensures InvAt(net, s', j) {
      assert InvAt(net, s, j);
      if j != i {
        WriteKeepsOthers(net, s, i, facts, j);
        assert InvAt(net, w, j);
      }
    }
  }

  lemma FireInv(net: seq<Node>, s: State, i: nat, facts: seq<Fact>)
    requires WellFormed(net) && NegationFreeNet(net) && Inv(net, s)
    requires i < |net| && net[i].Derived?
    requires IsLeastModel(net[i].rules, Elems(Gather(s.cells, net[i].inputs)), Elems(facts))
    ensures Inv(net, Fire(net, s, i, facts))
  {
    var t := s.(pending := s.pending[i := false]);
    var s' := Fire(net, s, i, facts);
    WriteEffect(net, t, i, facts);
    forall j | 0 <= j < |net| ensures InvAt(net, s', j) {
      assert InvAt(net, s, j);
      if j != i {
        assert InvAt(net, t, j);
        WriteKeepsOthers(net, t, i, facts, j);
      } else {
        assert Elems(s.cells[i]) <= Elems(facts);
        assert Elems(s'.cells[i]) == Elems(facts);
        GatherGrows(s.cells, s'.cells, net[i].inputs);
        assert forall k :: 0 <= k < |net[i].inputs| ==> s.cells[net[i].inputs[k]] == s'.cells[net[i].inputs[k]];
      }
    }
  }

  lemma {:induction false} RunInv(net: seq<Node>, run: seq<State>, k: nat)
    requires WellFormed(net) && NegationFreeNet(net) && IsRun(net, run) && k < |run|
    ensures Inv(net, run[k])
  {
    if k == 0 {
      InitialInv(net, run[0]);
    } else {
      RunInv(net, run, k - 1);
      var s, s' := run[k - 1], run[k];
      assert IsFed(net, run[k - 1], run[k - 1 + 1]) || Fires(net, run[k - 1], run[k - 1 + 1]);
      if IsFed(net, s, s') {
        var i: nat, facts: seq<Fact> :| FedAt(net, s, s', i, facts);
        FeedInv(net, s, i, facts);
      } else {
        var i: nat, facts: seq<Fact> :| FiresAt(net, s, s', i, facts);
        FireInv(net, s, i, facts);
      }
    }
  }

  // ---- Schedule independence ----

  /** A quiescent state of any run holds the composed least model of all facts given. */
  lemma QuiescentDenotes(net: seq<Node>, run: seq<State>)
    requires WellFormed(net) && NegationFreeNet(net) && IsRun(net, run)
    requires Quiescent(run[|run| - 1])
    ensures var s := run[|run| - 1];
      Denotes(net, s.given, Sets(s.cells))
  {
    var s := run[|run| - 1];
    RunInv(net, run, |run| - 1);
    forall i | 0 <= i < |net| ensures DenotesAt(net, s.given, Sets(s.cells), i) {
      assert InvAt(net, s, i);
      if net[i].Derived? {
        GatherElems(s.cells, net[i].inputs);
      }
    }
  }

  /** Two runs that were given the same facts, in any batches and firing orders, end in
      cells with the same facts. */
  lemma ScheduleIndependence(net: seq<Node>, run: seq<State>, run': seq<State>)
    requires WellFormed(net) && NegationFreeNet(net)
    requires IsRun(net, run) && Quiescent(run[|run| - 1])
    requires IsRun(net, run') && Quiescent(run'[|run'| - 1])
    requires run[|run| - 1].given == run'[|run'| - 1].given
    ensures Sets(run[|run| - 1].cells) == Sets(run'[|run'| - 1].cells)
  {
    var s, s' := run[|run| - 1], run'[|run'| - 1];
    QuiescentDenotes(net, run);
    QuiescentDenotes(net, run');
    DenotationUnique(net, s.given, Sets(s.cells), Sets(s'.cells), |net|);
    assert Sets(s.cells)[..|net|] == Sets(s.cells) && Sets(s'.cells)[..|net|] == Sets(s'.cells);
  }

  /** The schedule read as a binary number, earlier cells more significant. */
  function Load(pending: seq<bool>): nat {
    if pending == [] then 0 else 2 * Load(pending[..|pending| - 1]) + (if pending[|pending| - 1] then 1 else 0)
  }

  lemma {:induction false} LoadDrops(p: seq<bool>, q: seq<bool>, i: nat)
    requires |p| == |q| && i < |p| && p[..i] == q[..i] && p[i] && !q[i]
    ensures Load(q) < Load(p)
    decreases |p|
  {
    var n := |p| - 1;
    assert p[..n][..i] == p[..i] || i == n;
    if i < n {
      assert p[..n][..i] == p[..i] == q[..i] == q[..n][..i];
      LoadDrops(p[..n], q[..n], i);
    } else {
      assert p[..n] == q[..n];
    }
  }

  /** Firing schedules only later cells, so between two updates only finitely many
      propagators fire, whichever is picked. */
  lemma FiringTerminates(net: seq<Node>, s: State, s': State)
    requires WellFormed(net) && Fires(net, s, s')
    ensures Load(s'.pending) < Load(s.pending)
  {
    var i: nat, facts: seq<Fact> :| FiresAt(net, s, s', i, facts);
    var t := s.(pending := s.pending[i := false]);
    WriteEffect(net, t, i, facts);
    forall j | 0 <= j <= i ensures s'.pending[j] == t.pending[j] {
      assert net[j].Derived? ==> forall k :: 0 <= k < |net[j].inputs| ==> net[j].inputs[k] < i;
    }
    assert s'.pending[..i] == s.pending[..i];
    LoadDrops(s.pending, s'.pending, i);
  }

  // ---- The propagators as they run ----

  /** A live network: cells are overwritten in place, one propagator at a time. */
  class Network {
    const net: seq<Node>
    var cells: seq<seq<Fact>>
    var pending: seq<bool>
    ghost var given: seq<set<Fact>>

    ghost function Now(): State
      reads this
    {
      State(cells, pending, given)
    }

    constructor (net: seq<Node>)
      ensures this.net == net && Initial(net, Now())
    {
      this.net := net;
      cells := seq(|net|, i => []);
      pending := seq(|net|, i requires 0 <= i < |net| => net[i].Derived?);
      given := seq(|net|, i => {});
    }

    method Update(i: nat, facts: seq<Fact>)
      requires Sized(net, Now()) && i < |net| && net[i].Source?
      modifies this
      ensures Now() == Feed(net, old(Now()), i, facts)
      ensures IsFed(net, old(Now()), Now())
    {
      AddContent(i, facts);
      given := given[i := given[i] + Elems(facts)];
      assert FedAt(net, old(Now()), Now(), i, facts);
    }

    method AddContent(i: nat, facts: seq<Fact>)
      requires Sized(net, Now()) && i < |net|
      modifies this
      ensures Now() == Write(net, old(Now()), i, facts)
    {
      var merged := MergeFactSets(cells[i], facts);
      if !FactSetsEqual(cells[i], merged) {
        var scheduled := pending;
        cells := cells[i := merged];
        pending := seq(|net|, j requires 0 <= j < |net| =>
          scheduled[j] || (net[j].Derived? && i in net[j].inputs));
      }
      assert cells == Write(net, old(Now()), i, facts).cells;
      assert pending == Write(net, old(Now()), i, facts).pending;
    }

    /** The propagator of cell i: gather the input facts, evaluate, write the result.
        `engine` stands for the answer of the library engine on those facts. */
    method RunProgram(i: nat, strategy: Strategy, engine: seq<Fact>)
      requires Sized(net, Now()) && WellFormed(net) && i < |net| && net[i].Derived? && pending[i]
      requires !HasExtendedAtoms(net[i].rules) && Safe(net[i].rules) ==>
        IsLeastModel(net[i].rules, Elems(Gather(cells, net[i].inputs)), Elems(engine))
      modifies this
      ensures exists facts ::
        && Now() == Fire(net, old(Now()), i, facts)
        && (facts == engine || Evaluated(net[i].rules, Gather(old(cells), net[i].inputs), facts))
      ensures Safe(net[i].rules) && Stratified(net[i].rules) ==> Fires(net, old(Now()), Now())
    {
      var inputs := net[i].inputs;
      var edb: seq<Fact> := [];
      for k := 0 to |inputs|
        invariant Gather(cells, inputs) == edb + Gather(cells, inputs[k..])
      {
        edb := edb + cells[inputs[k]];
      }
      assert edb == Gather(cells, inputs);
      var result := EvaluateProgram(Program(net[i].rules, strategy), edb, engine);
      pending := pending[i := false];
      AddContent(i, result);
      assert Now() == Fire(net, old(Now()), i, result);
      if Safe(net[i].rules) && Stratified(net[i].rules) {
        assert FiresAt(net, old(Now()), Now(), i, result);
      }
    }
  }

  /** Chained programs: each stage reads only the output of the stage before it. */
  method WireSequentialPrograms(programs: seq<seq<Rule>>) returns (net: seq<Node>)
    ensures net == Chain(programs)
  {
    net := [Source];
    for i := 0 to |programs|
      invariant net == Chain(programs[..i])
    {
      net := net + [Derived(programs[i], [i])];
      assert programs[..i + 1] == programs[..i] + [programs[i]];
    }
    assert programs[..|programs|] == programs;
  }

  function Chain(programs: seq<seq<Rule>>): seq<Node> {
    seq(|programs| + 1, i requires 0 <= i <= |programs| =>
      if i == 0 then Source else Derived(programs[i - 1], [i - 1]))
  }

  /** In a chain, stage i ends as the least model of program i over stage i - 1. */
  lemma ChainComposes(programs: seq<seq<Rule>>, run: seq<State>, i: nat)
    requires forall k :: 0 <= k < |programs| ==> Positive(programs[k])
    requires IsRun(Chain(programs), run) && Quiescent(run[|run| - 1])
    requires i < |programs|
    ensures var s := run[|run| - 1];
      && |s.cells| == |s.given| == |programs| + 1
      && Elems(s.cells[0]) == s.given[0]
      && IsLeastModel(programs[i], Elems(s.cells[i]), Elems(s.cells[i + 1]))
  {
    var net, s := Chain(programs), run[|run| - 1];
    QuiescentDenotes(net, run);
    var g := Sets(s.cells);
    assert DenotesAt(net, s.given, g, 0) && DenotesAt(net, s.given, g, i + 1);
    assert net[i + 1] == Derived(programs[i], [i]);
    assert [i][1..] == [] && GatherSets(g, [i]) == g[i] + GatherSets(g, [i][1..]) == g[i];
  }

  // ---- Runs with their events ----

  /** One step of a run: an update from outside, or a propagator and what it returned. */
  datatype Event = Feeding(cell: nat, facts: seq<Fact>) | Firing(cell: nat, facts: seq<Fact>)

  ghost predicate StepBy(net: seq<Node>, s: State, s': State, e: Event) {
    && Sized(net, s) && WellFormed(net)
    && if e.Feeding? then FedAt(net, s, s', e.cell, e.facts) else FiresAt(net, s, s', e.cell, e.facts)
  }

  ghost predicate IsTrace(net: seq<Node>, run: seq<State>, events: seq<Event>) {
    && WellFormed(net) && |run| == |events| + 1 && Initial(net, run[0])
    && forall k :: 0 <= k < |events| ==> StepBy(net, run[k], run[k + 1], events[k])
  }

  lemma {:induction false} RunHasTrace(net: seq<Node>, run: seq<State>) returns (events: seq<Event>)
    requires WellFormed(net) && IsRun(net, run)
    ensures IsTrace(net, run, events)
  {
    events := [];
    if |run| > 1 {
      var n := |run| - 2;
      assert forall k :: 0 <= k <= n ==> run[..n + 1][k] == run[k];
      var before := RunHasTrace(net, run[..n + 1]);
      assert IsFed(net, run[n], run[n + 1]) || Fires(net, run[n], run[n + 1]);
      var e := StepHasEvent(net, run[n], run[n + 1]);
      events := before + [e];
      TraceExtends(net, run, before, e);
    }
  }

  lemma StepHasEvent(net: seq<Node>, s: State, s': State) returns (e: Event)
    requires WellFormed(net) && (IsFed(net, s, s') || Fires(net, s, s'))
    ensures StepBy(net, s, s', e)
  {
    if IsFed(net, s, s') {
      var i: nat, facts: seq<Fact> :| FedAt(net, s, s', i, facts);
      e := Feeding(i, facts);
    } else {
      var i: nat, facts: seq<Fact> :| FiresAt(net, s, s', i, facts);
      e := Firing(i, facts);
    }
  }

  lemma TraceExtends(net: seq<Node>, run: seq<State>, before: seq<Event>, e: Event)
    requires |run| > 1 && IsTrace(net, run[..|run| - 1], before)
    requires StepBy(net, run[|run| - 2], run[|run| - 1], e)
    ensures IsTrace(net, run, before + [e])
  {
    var init, events := run[..|run| - 1], before + [e];
    forall k | 0 <= k < |events| ensures StepBy(net, run[k], run[k + 1], events[k]) {
      if k < |before| {
        assert StepBy(net, init[k], init[k + 1], before[k]);
      }
    }
  }

  predicate FiresCell(e: Event, i: nat) {
    e.Firing? && e.cell == i
  }

  /** What one step does to the cells and to the schedule. */
  lemma StepEffect(net: seq<Node>, s: State, s': State, e: Event)
    requires StepBy(net, s, s', e)
    ensures e.cell < |net| && Sized(net, s') && (e.Feeding? <==> net[e.cell].Source?)
    ensures Elems(s'.cells[e.cell]) == Elems(s.cells[e.cell]) + Elems(e.facts)
    ensures forall j :: 0 <= j < |net| && j != e.cell ==> s'.cells[j] == s.cells[j]
    ensures forall j :: 0 <= j < |net| && s.pending[j] && !FiresCell(e, j) ==> s'.pending[j]
    ensures s'.cells[e.cell] == s.cells[e.cell] ||
      forall j :: 0 <= j < |net| && net[j].Derived? && e.cell in net[j].inputs ==> s'.pending[j]
    ensures s'.given == if e.Feeding? then s.given[e.cell := s.given[e.cell] + Elems(e.facts)] else s.given
  {
    if e.Feeding? {
      WriteEffect(net, s, e.cell, e.facts);
    } else {
      WriteEffect(net, s.(pending := s.pending[e.cell := false]), e.cell, e.facts);
    }
  }

  lemma {:induction false} TraceSized(net: seq<Node>, run: seq<State>, events: seq<Event>, n: nat)
    requires IsTrace(net, run, events) && n <= |events|
    ensures Sized(net, run[n])
  {
    if n > 0 { StepEffect(net, run[n - 1], run[n - 1 + 1], events[n - 1]); }
  }

  /** Everything the first `n` events returned for cell i. */
  ghost function Returned(events: seq<Event>, i: nat, n: nat): set<Fact>
    requires n <= |events|
  {
    if n == 0 then {} else
      Returned(events, i, n - 1) + (if events[n - 1].cell == i then Elems(events[n - 1].facts) else {})
  }

  /** In every state of every run, with or without negation, a cell is the union of what
      was sent to it or what its firings returned. */
  lemma {:induction false} CellIsUnion(net: seq<Node>, run: seq<State>, events: seq<Event>, i: nat, n: nat)
    requires IsTrace(net, run, events) && i < |net| && n <= |events|
    ensures Sized(net, run[n]) && Elems(run[n].cells[i]) == Returned(events, i, n)
    ensures net[i].Source? ==> run[n].given[i] == Returned(events, i, n)
  {
    if n == 0 {
      assert Elems<Fact>([]) == {};
    } else {
      CellIsUnion(net, run, events, i, n - 1);
      StepEffect(net, run[n - 1], run[n - 1 + 1], events[n - 1]);
    }
  }

  lemma {:induction false} ReturnedHas(events: seq<Event>, i: nat, n: nat, k: nat)
    requires k < n <= |events| && events[k].cell == i
    ensures Elems(events[k].facts) <= Returned(events, i, n)
  {
    if k < n - 1 { ReturnedHas(events, i, n - 1, k); }
  }

  lemma {:induction false} ReturnedWithin(events: seq<Event>, i: nat, n: nat, m: set<Fact>)
    requires n <= |events| && forall k :: 0 <= k < n && events[k].cell == i ==> Elems(events[k].facts) <= m
    ensures Returned(events, i, n) <= m
  {
    if n > 0 { ReturnedWithin(events, i, n - 1, m); }
  }

  /** The last firing of cell i among the first `n` events. */
  ghost predicate LastFiring(events: seq<Event>, i: nat, k: nat, n: nat)
    requires n <= |events|
  {
    k < n && FiresCell(events[k], i) && forall j :: k < j < n ==> !FiresCell(events[j], i)
  }

  ghost function InputAt(net: seq<Node>, s: State, i: nat): set<Fact>
    requires WellFormed(net) && Sized(net, s) && i < |net| && net[i].Derived?
  {
    Elems(Gather(s.cells, net[i].inputs))
  }

  /** A propagator that is not scheduled has fired, and its inputs have not changed since. */
  lemma {:induction false} NotPending(net: seq<Node>, run: seq<State>, events: seq<Event>, i: nat, n: nat)
    returns (k: nat)
    requires IsTrace(net, run, events) && i < |net| && net[i].Derived? && n <= |events|
    requires Sized(net, run[n]) && !run[n].pending[i]
    ensures LastFiring(events, i, k, n) && Sized(net, run[k])
    ensures InputAt(net, run[k], i) == InputAt(net, run[n], i)
  {
    k := 0;
    if n > 0 {
      var s, s', e := run[n - 1], run[n - 1 + 1], events[n - 1];
      StepEffect(net, s, s', e);
      GatherGrows(s.cells, s'.cells, net[i].inputs);
      if FiresCell(e, i) {
        k := n - 1;
      } else {
        k := NotPending(net, run, events, i, n - 1);
        assert e.cell in net[i].inputs ==> s'.cells[e.cell] == s.cells[e.cell];
      }
    }
  }

  // ---- When a network with negation is right ----

  /** What a firing returned is inside what the last firing of the same cell returned. */
  ghost predicate ResultsKept(net: seq<Node>, events: seq<Event>) {
    forall i :: 0 <= i < |net| ==> ResultsKeptAt(events, i)
  }

  ghost predicate ResultsKeptAt(events: seq<Event>, i: nat) {
    forall k: nat, l: nat :: k < |events| && FiresCell(events[k], i) && LastFiring(events, i, l, |events|) ==>
      Elems(events[k].facts) <= Elems(events[l].facts)
  }

  lemma LastIsModel(net: seq<Node>, run: seq<State>, events: seq<Event>, i: nat) returns (l: nat)
    requires IsTrace(net, run, events) && Quiescent(run[|events|]) && i < |net| && net[i].Derived?
    ensures Sized(net, run[|events|]) && LastFiring(events, i, l, |events|)
    ensures IsLeastModel(net[i].rules, InputAt(net, run[|events|], i), Elems(events[l].facts))
  {
    TraceSized(net, run, events, |events|);
    l := NotPending(net, run, events, i, |events|);
    assert StepBy(net, run[l], run[l + 1], events[l]);
  }

  lemma DenotesAtIff(net: seq<Node>, run: seq<State>, events: seq<Event>, i: nat)
    requires IsTrace(net, run, events) && Quiescent(run[|events|]) && i < |net|
    ensures var s := run[|events|];
      && Sized(net, s)
      && (DenotesAt(net, s.given, Sets(s.cells), i) <==> ResultsKeptAt(events, i))
  {
    var n, s := |events|, run[|events|];
    CellIsUnion(net, run, events, i, n);
    if net[i].Source? {
      forall k | 0 <= k < n ensures !FiresCell(events[k], i) {
        StepEffect(net, run[k], run[k + 1], events[k]);
      }
    } else {
      var l := LastIsModel(net, run, events, i);
      var m := Elems(events[l].facts);
      GatherElems(s.cells, net[i].inputs);
      forall k | 0 <= k < n && events[k].cell == i ensures FiresCell(events[k], i) {
        StepEffect(net, run[k], run[k + 1], events[k]);
      }
      forall k | 0 <= k < n && FiresCell(events[k], i) ensures Elems(events[k].facts) <= Elems(s.cells[i]) {
        ReturnedHas(events, i, n, k);
      }
      assert m <= Elems(s.cells[i]);
      if ResultsKeptAt(events, i) {
        ReturnedWithin(events, i, n, m);
        assert Sets(s.cells)[i] == m;
      }
      if DenotesAt(net, s.given, Sets(s.cells), i) {
        LeastModelUnique(net[i].rules, InputAt(net, s, i), m, Elems(s.cells[i]));
        assert ResultsKeptAt(events, i);
      }
    }
  }

  /** Negation or not: a quiescent network holds the composed least model if and only if
      no firing returned a fact that the last firing of its cell did not return. */
  lemma DenotesIff(net: seq<Node>, run: seq<State>, events: seq<Event>)
    requires IsTrace(net, run, events) && Quiescent(run[|events|])
    ensures Denotes(net, run[|events|].given, Sets(run[|events|].cells)) <==> ResultsKept(net, events)
  {
    TraceSized(net, run, events, |events|);
    forall i | 0 <= i < |net|
      ensures DenotesAt(net, run[|events|].given, Sets(run[|events|].cells), i) <==> ResultsKeptAt(events, i)
    {
      DenotesAtIff(net, run, events, i);
    }
  }

  /** Once a propagator has fired, no fact that one of its negations asks for is written to
      its inputs, except facts that were there already. */
  ghost predicate Undisturbed(net: seq<Node>, run: seq<State>, events: seq<Event>)
    requires IsTrace(net, run, events)
  {
    forall k, j :: 0 <= k < j < |events| ==> UndisturbedBy(net, run, events, k, j)
  }

  ghost predicate UndisturbedBy(net: seq<Node>, run: seq<State>, events: seq<Event>, k: nat, j: nat)
    requires IsTrace(net, run, events) && k < |events| && j < |events|
  {
    assert StepBy(net, run[k], run[k + 1], events[k]);
    events[k].Firing? && events[j].cell in net[events[k].cell].inputs ==>
      forall f :: f in events[j].facts && RulesNegate(net[events[k].cell].rules, f) ==>
        f in InputAt(net, run[k], events[k].cell)
  }

  /** What an input gains between two states was written in between. */
  lemma {:induction false} GainedInput(net: seq<Node>, run: seq<State>, events: seq<Event>, i: nat, k: nat, n: nat,
                                       f: Fact)
    requires IsTrace(net, run, events) && i < |net| && net[i].Derived? && k <= n <= |events|
    requires Sized(net, run[k]) && Sized(net, run[n]) && f in InputAt(net, run[n], i)
    ensures f in InputAt(net, run[k], i) ||
      exists j :: k <= j < n && events[j].cell in net[i].inputs && f in events[j].facts
    decreases n
  {
    if k < n {
      var s, s', e := run[n - 1], run[n - 1 + 1], events[n - 1];
      StepEffect(net, s, s', e);
      var c := InputWith(s'.cells, net[i].inputs, f);
      if f in s.cells[c] {
        GatherHas(s.cells, net[i].inputs, c, f);
        GainedInput(net, run, events, i, k, n - 1, f);
      } else {
        assert f in Elems(s'.cells[c]) && f !in Elems(s.cells[c]);
      }
    }
  }

  lemma {:induction false} InputWith(cells: seq<seq<Fact>>, inputs: seq<nat>, f: Fact) returns (c: nat)
    requires (forall k :: 0 <= k < |inputs| ==> inputs[k] < |cells|) && f in Gather(cells, inputs)
    ensures c in inputs && f in cells[c]
  {
    c := inputs[0];
    if f !in cells[c] { c := InputWith(cells, inputs[1..], f); }
  }

  lemma {:induction false} GatherHas(cells: seq<seq<Fact>>, inputs: seq<nat>, c: nat, f: Fact)
    requires (forall k :: 0 <= k < |inputs| ==> inputs[k] < |cells|) && c in inputs && f in cells[c]
    ensures f in Gather(cells, inputs)
  {
    if inputs[0] != c { GatherHas(cells, inputs[1..], c, f); }
  }

  lemma {:induction false} InputGrows(net: seq<Node>, run: seq<State>, events: seq<Event>, i: nat, k: nat, n: nat)
    requires IsTrace(net, run, events) && i < |net| && net[i].Derived? && k <= n <= |events|
    ensures Sized(net, run[k]) && Sized(net, run[n]) && InputAt(net, run[k], i) <= InputAt(net, run[n], i)
    decreases n
  {
    TraceSized(net, run, events, k);
    if k < n {
      InputGrows(net, run, events, i, k, n - 1);
      StepEffect(net, run[n - 1], run[n - 1 + 1], events[n - 1]);
      GatherGrows(run[n - 1].cells, run[n].cells, net[i].inputs);
    }
  }

  /** In an undisturbed run later firings of a cell return no less than earlier ones. */
  lemma UndisturbedGrows(net: seq<Node>, run: seq<State>, events: seq<Event>, i: nat, k: nat, l: nat)
    requires IsTrace(net, run, events) && Undisturbed(net, run, events) && i < |net|
    requires k <= l < |events| && FiresCell(events[k], i) && FiresCell(events[l], i)
    ensures Elems(events[k].facts) <= Elems(events[l].facts)
  {
    assert StepBy(net, run[k], run[k + 1], events[k]) && StepBy(net, run[l], run[l + 1], events[l]);
    InputGrows(net, run, events, i, k, l);
    forall f | f in InputAt(net, run[l], i) && f !in InputAt(net, run[k], i) ensures !RulesNegate(net[i].rules, f) {
      GainedInput(net, run, events, i, k, l, f);
      var j :| k <= j < l && events[j].cell in net[i].inputs && f in events[j].facts;
      assert j != k;
      assert UndisturbedBy(net, run, events, k, j);
    }
    LeastModelGrows(net[i].rules, InputAt(net, run[k], i), InputAt(net, run[l], i),
                    Elems(events[k].facts), Elems(events[l].facts));
  }

  /** A quiescent network whose negations were not disturbed holds the composed least model. */
  lemma UndisturbedDenotes(net: seq<Node>, run: seq<State>, events: seq<Event>)
    requires IsTrace(net, run, events) && Quiescent(run[|events|]) && Undisturbed(net, run, events)
    ensures Denotes(net, run[|events|].given, Sets(run[|events|].cells))
  {
    forall i, k: nat, l: nat |
      0 <= i < |net| && k < |events| && FiresCell(events[k], i) && LastFiring(events, i, l, |events|)
      ensures Elems(events[k].facts) <= Elems(events[l].facts)
    {
      UndisturbedGrows(net, run, events, i, k, l);
    }
    DenotesIff(net, run, events);
  }

  /** So two undisturbed runs that were given the same facts end with the same cells. */
  lemma UndisturbedIndependence(net: seq<Node>, run: seq<State>, events: seq<Event>, run': seq<State>,
                                events': seq<Event>)
    requires IsTrace(net, run, events) && Quiescent(run[|events|]) && Undisturbed(net, run, events)
    requires IsTrace(net, run', events') && Quiescent(run'[|events'|]) && Undisturbed(net, run', events')
    requires run[|events|].given == run'[|events'|].given
    ensures Sets(run[|events|].cells) == Sets(run'[|events'|].cells)
  {
    var g, g' := Sets(run[|events|].cells), Sets(run'[|events'|].cells);
    UndisturbedDenotes(net, run, events);
    UndisturbedDenotes(net, run', events');
    DenotationUnique(net, run[|events|].given, g, g', |net|);
    assert g[..|net|] == g && g'[..|net|] == g';
  }

  // ---- One stage, whatever the schedule ----

  function OneStage(rules: seq<Rule>): seq<Node> {
    [Source, Derived(rules, [0])]
  }

  /** Every quiescent run that was given these facts holds the composed least model. */
  ghost predicate AlwaysRight(rules: seq<Rule>, given: set<Fact>) {
    forall run: seq<State>, events ::
      IsTrace(OneStage(rules), run, events) && Quiescent(run[|events|]) && run[|events|].given == [given, {}] ==>
        Denotes(OneStage(rules), run[|events|].given, Sets(run[|events|].cells))
  }

  /** What the program derives from some of the facts it still derives from all of them. */
  ghost predicate GrowsInto(rules: seq<Rule>, given: set<Fact>) {
    forall early, m, m' :: early <= given && IsLeastModel(rules, early, m) && IsLeastModel(rules, given, m') ==> m <= m'
  }

  lemma StageInput(rules: seq<Rule>, s: State)
    requires Sized(OneStage(rules), s)
    ensures WellFormed(OneStage(rules)) && InputAt(OneStage(rules), s, 1) == Elems(s.cells[0])
    ensures GatherSets(Sets(s.cells), [0]) == Elems(s.cells[0])
  {
    assert [0][1..] == [];
    assert Gather(s.cells, [0]) == s.cells[0] + Gather(s.cells, [0][1..]) == s.cells[0];
    assert GatherSets(Sets(s.cells), [0]) == Sets(s.cells)[0] + GatherSets(Sets(s.cells), [0][1..]);
  }

  /** A stage is right under every schedule if and only if what it derives from facts that
      came first it derives from all facts as well. */
  lemma AlwaysRightIff(rules: seq<Rule>, given: set<Fact>)
    ensures AlwaysRight(rules, given) <==> GrowsInto(rules, given)
  {
    if GrowsInto(rules, given) {
      forall run: seq<State>, events | IsTrace(OneStage(rules), run, events) && Quiescent(run[|events|])
        && run[|events|].given == [given, {}]
        ensures Denotes(OneStage(rules), run[|events|].given, Sets(run[|events|].cells))
      {
        GrowsIntoDenotes(rules, given, run, events);
      }
    }
    if AlwaysRight(rules, given) {
      forall early, m, m' | early <= given && IsLeastModel(rules, early, m) && IsLeastModel(rules, given, m')
        ensures m <= m'
      {
        EarlyInside(rules, given, early, m, m');
      }
    }
  }

  lemma GrowsIntoDenotes(rules: seq<Rule>, given: set<Fact>, run: seq<State>, events: seq<Event>)
    requires GrowsInto(rules, given) && IsTrace(OneStage(rules), run, events) && Quiescent(run[|events|])
    requires run[|events|].given == [given, {}]
    ensures Denotes(OneStage(rules), run[|events|].given, Sets(run[|events|].cells))
  {
    var net := OneStage(rules);
    CellIsUnion(net, run, events, 0, |events|);
    StageInput(rules, run[|events|]);
    forall k: nat, l: nat | k < |events| && FiresCell(events[k], 1) && LastFiring(events, 1, l, |events|)
      ensures Elems(events[k].facts) <= Elems(events[l].facts)
    {
      var last := LastIsModel(net, run, events, 1);
      assert last == l;
      assert StepBy(net, run[k], run[k + 1], events[k]);
      InputGrows(net, run, events, 1, k, |events|);
      StageInput(rules, run[k]);
    }
    forall k: nat | k < |events| ensures !FiresCell(events[k], 0) {
      assert StepBy(net, run[k], run[k + 1], events[k]);
    }
    assert ResultsKeptAt(events, 0) && ResultsKeptAt(events, 1);
    DenotesIff(net, run, events);
  }

  /** Some facts come first and the stage fires, then the others come. */
  lemma EarlyInside(rules: seq<Rule>, given: set<Fact>, early: set<Fact>, m: set<Fact>, m': set<Fact>)
    requires AlwaysRight(rules, given)
    requires early <= given && IsLeastModel(rules, early, m) && IsLeastModel(rules, given, m')
    ensures m <= m'
  {
    var a := Listed(early);
    var f := Listed(m);
    var b := Listed(given - early);
    var f' := Listed(m');
    assert early + Elems(b) == given;
    var s0, s1, s2 := FirstBatchAndFiring(rules, a, f);
    var s3 := StageFeeds(rules, s2, b);
    assert Elems(s3.cells[0]) == given && s3.given == [given, {}];
    if s3.pending[1] {
      var s4 := StageEvaluates(rules, s3, f');
      var run, events := [s0, s1, s2, s3, s4], [Feeding(0, a), Firing(1, f), Feeding(0, b), Firing(1, f')];
      FourSteps(OneStage(rules), s0, s1, s2, s3, s4, events[0], events[1], events[2], events[3]);
      assert run[|events|] == s4;
      BothInside(rules, given, run, events, m');
    } else {
      LeastModelUnique(rules, given, m, m');
    }
  }

  lemma FirstBatchAndFiring(rules: seq<Rule>, a: seq<Fact>, f: seq<Fact>) returns (s0: State, s1: State, s2: State)
    requires IsLeastModel(rules, Elems(a), Elems(f))
    ensures Initial(OneStage(rules), s0) && Sized(OneStage(rules), s2)
    ensures StepBy(OneStage(rules), s0, s1, Feeding(0, a)) && StepBy(OneStage(rules), s1, s2, Firing(1, f))
    ensures Elems(s2.cells[0]) == Elems(a) && Elems(s2.cells[1]) == Elems(f) && s2.given == [Elems(a), {}]
    ensures !s2.pending[0] && !s2.pending[1]
  {
    s0 := State([[], []], [false, true], [{}, {}]);
    assert Elems<Fact>([]) == {};
    s1 := StageFeeds(rules, s0, a);
    assert Elems(s1.cells[0]) == Elems(a);
    s2 := StageEvaluates(rules, s1, f);
  }

  lemma BothInside(rules: seq<Rule>, given: set<Fact>, run: seq<State>, events: seq<Event>, m: set<Fact>)
    requires AlwaysRight(rules, given) && IsTrace(OneStage(rules), run, events) && Quiescent(run[|events|])
    requires run[|events|].given == [given, {}] && IsLeastModel(rules, given, m)
    requires Sized(OneStage(rules), run[|events|]) && Elems(run[|events|].cells[0]) == given
    ensures Elems(run[|events|].cells[1]) == m
  {
    var s := run[|events|];
    StageInput(rules, s);
    assert DenotesAt(OneStage(rules), s.given, Sets(s.cells), 1);
    LeastModelUnique(rules, given, m, Elems(s.cells[1]));
  }

  lemma FourSteps(net: seq<Node>, s0: State, s1: State, s2: State, s3: State, s4: State,
                  e0: Event, e1: Event, e2: Event, e3: Event)
    requires WellFormed(net) && Initial(net, s0)
    requires StepBy(net, s0, s1, e0) && StepBy(net, s1, s2, e1) && StepBy(net, s2, s3, e2) && StepBy(net, s3, s4, e3)
    ensures IsTrace(net, [s0, s1, s2, s3, s4], [e0, e1, e2, e3])
  {
  }

  lemma StageFeeds(rules: seq<Rule>, s: State, facts: seq<Fact>) returns (s': State)
    requires Sized(OneStage(rules), s) && !s.pending[0] && s.given[1] == {}
    ensures StepBy(OneStage(rules), s, s', Feeding(0, facts)) && Sized(OneStage(rules), s')
    ensures Elems(s'.cells[0]) == Elems(s.cells[0]) + Elems(facts) && s'.cells[1] == s.cells[1]
    ensures s'.given == [s.given[0] + Elems(facts), {}] && !s'.pending[0]
    ensures s'.pending[1] <==> s.pending[1] || s'.cells[0] != s.cells[0]
  {
    var net := OneStage(rules);
    s' := Feed(net, s, 0, facts);
    WriteEffect(net, s, 0, facts);
    ChangeDetection(s.cells[0], facts);
    assert FedAt(net, s, s', 0, facts);
  }

  lemma StageEvaluates(rules: seq<Rule>, s: State, facts: seq<Fact>) returns (s': State)
    requires Sized(OneStage(rules), s) && !s.pending[0] && s.pending[1]
    requires IsLeastModel(rules, Elems(s.cells[0]), Elems(facts))
    ensures StepBy(OneStage(rules), s, s', Firing(1, facts)) && Sized(OneStage(rules), s')
    ensures s'.cells[0] == s.cells[0] && Elems(s'.cells[1]) == Elems(s.cells[1]) + Elems(facts)
    ensures s'.given == s.given && !s'.pending[0] && !s'.pending[1] && Quiescent(s')
  {
    var net := OneStage(rules);
    StageInput(rules, s);
    s' := Fire(net, s, 1, facts);
    WriteEffect(net, s.(pending := s.pending[1 := false]), 1, facts);
    assert FiresAt(net, s, s', 1, facts);
  }

  // ---- Negation needs the stages to run in order ----

  const P: Fact := [Str("p")]
  const Q: Fact := [Str("q")]
  const R: Fact := [Str("r")]

  /** r :- p, not q. */
  const ONE_WAY: seq<Rule> := [Rule([Const(Str("r"))], [Atom([Const(Str("p"))]), NegFact([Const(Str("q"))])])]

  lemma OneWayModel(edb: set<Fact>)
    ensures IsLeastModel(ONE_WAY, edb, if P in edb && Q !in edb then edb + {R} else edb)
  {
    var rule := ONE_WAY[0];
    forall m: set<Fact>, s: Valuation
      ensures HoldsAll(rule.body, m, edb, s) <==> P in m && Q !in edb
      ensures EvTuple(s, rule.head) == R
    {
      assert EvTuple(s, rule.body[0].terms) == P && EvTuple(s, rule.body[1].template) == Q;
      assert rule.body[1..] == [rule.body[1]] && rule.body[1..][1..] == [];
      assert HoldsAll(rule.body[1..], m, edb, s) == Holds(rule.body[1], m, edb, s);
    }
    forall m: set<Fact> ensures Closed(ONE_WAY, m, edb) <==> (P in m && Q !in edb ==> R in m) {
      if P in m && Q !in edb && Closed(ONE_WAY, m, edb) {
        var s: Valuation := _ => Bool(false);
        assert HoldsAll(rule.body, m, edb, s);
        assert EvTuple(s, rule.head) in m;
      }
    }
    assert P != R && Q != R;
  }

  /** One source and one stage with negation. */
  const STAGE: seq<Node> := [Source, Derived(ONE_WAY, [0])]

  function Stage(a: seq<Fact>, b: seq<Fact>, pending: bool): State {
    State([a, b], [false, pending], [Elems(a), {}])
  }

  lemma StageFed(a: seq<Fact>, b: seq<Fact>, pending: bool, facts: seq<Fact>)
    requires Missing(a, facts) == facts != []
    ensures IsFed(STAGE, Stage(a, b, pending), Stage(a + facts, b, true))
  {
    var s := Stage(a, b, pending);
    var s' := Feed(STAGE, s, 0, facts);
    assert 0 in STAGE[1].inputs;
    ElemsOfAppend(a, facts);
    assert s'.cells == [a + facts, b];
    assert s'.pending == [false, true];
    assert s'.given == [Elems(a + facts), {}];
    assert FedAt(STAGE, s, s', 0, facts);
  }

  lemma StageFires(a: seq<Fact>, b: seq<Fact>, facts: seq<Fact>)
    requires IsLeastModel(ONE_WAY, Elems(a), Elems(facts)) && Missing(b, facts) != []
    ensures Fires(STAGE, Stage(a, b, true), Stage(a, b + Missing(b, facts), false))
  {
    var s := Stage(a, b, true);
    var s' := Fire(STAGE, s, 1, facts);
    assert Gather(s.cells, [0]) == a + Gather(s.cells, [0][1..]) == a;
    assert 1 !in STAGE[1].inputs;
    assert s'.cells == [a, b + Missing(b, facts)];
    assert s'.pending == [false, false];
    assert FiresAt(STAGE, s, s', 1, facts);
  }

  lemma {:induction false} MissingNothing(b: seq<Fact>)
    ensures Missing([], b) == b
  {
    if b != [] { MissingNothing(b[1..]); }
  }

  lemma FirstBatch()
    ensures IsFed(STAGE, Stage([], [], true), Stage([P], [], true))
    ensures Fires(STAGE, Stage([P], [], true), Stage([P], [P, R], false))
  {
    MissingNothing([P]);
    StageFed([], [], true, [P]);
    assert [] + [P] == [P];
    assert Elems([P]) == {P} && Elems([P, R]) == {P} + {R};
    OneWayModel({P});
    MissingNothing([P, R]);
    StageFires([P], [], [P, R]);
    assert [] + [P, R] == [P, R];
  }

  lemma SecondBatchFed()
    ensures IsFed(STAGE, Stage([P], [P, R], false), Stage([P, Q], [P, R], true))
  {
    assert Missing([P], [Q]) == [Q] by { assert [Q][1..] == [] && P != Q; }
    StageFed([P], [P, R], false, [Q]);
    assert [P] + [Q] == [P, Q];
  }

  lemma SecondBatchFires()
    ensures Fires(STAGE, Stage([P, Q], [P, R], true), Stage([P, Q], [P, R, Q], false))
  {
    assert Missing([P, R], [P, Q]) == [Q] by {
      assert Q !in [P, R] && [P, Q][1..] == [Q] && [Q][1..] == [];
      assert Missing([P, R], [Q]) == [Q] + Missing([P, R], []);
    }
    assert Elems([P, Q]) == {P, Q};
    OneWayModel({P, Q});
    StageFires([P, Q], [P, R], [P, Q]);
    assert [P, R] + [Q] == [P, R, Q];
  }

  /** The stage fires after the first batch, and again after the second. */
  lemma FiringBetweenBatches() returns (run: seq<State>)
    ensures WellFormed(STAGE) && IsRun(STAGE, run)
    ensures run[|run| - 1] == Stage([P, Q], [P, R, Q], false)
  {
    FirstBatch();
    SecondBatchFed();
    SecondBatchFires();
    StageInitial();
    run := [Stage([], [], true), Stage([P], [], true), Stage([P], [P, R], false),
            Stage([P, Q], [P, R], true), Stage([P, Q], [P, R, Q], false)];
  }

  /** Both facts arrive in one batch. */
  lemma OneBatch() returns (run: seq<State>)
    ensures WellFormed(STAGE) && IsRun(STAGE, run)
    ensures run[|run| - 1] == Stage([P, Q], [P, Q], false)
  {
    var s0, s1, s2 := Stage([], [], true), Stage([P, Q], [], true), Stage([P, Q], [P, Q], false);
    MissingNothing([P, Q]);
    assert [] + [P, Q] == [P, Q];
    assert IsFed(STAGE, s0, s1) by { StageFed([], [], true, [P, Q]); }
    assert Fires(STAGE, s1, s2) by {
      assert Elems([P, Q]) == {P, Q};
      OneWayModel({P, Q});
      StageFires([P, Q], [], [P, Q]);
    }
    StageInitial();
    run := [s0, s1, s2];
  }

  lemma StageInitial()
    ensures WellFormed(STAGE) && Initial(STAGE, Stage([], [], true))
  {
    assert Elems<Fact>([]) == {};
  }

  /** Because merging never retracts, a stage with negation that fires between two
      batches keeps a conclusion that one batch would not give: the same facts, two
      quiescent runs, different cells. */
  lemma NegationDependsOnSchedule() returns (run: seq<State>, run': seq<State>)
    ensures WellFormed(STAGE)
    ensures IsRun(STAGE, run) && Quiescent(run[|run| - 1])
    ensures IsRun(STAGE, run') && Quiescent(run'[|run'| - 1])
    ensures run[|run| - 1].given == run'[|run'| - 1].given
    ensures Sets(run[|run| - 1].cells) != Sets(run'[|run'| - 1].cells)
  {
    run := FiringBetweenBatches();
    run' := OneBatch();
    assert R in Sets(run[|run| - 1].cells)[1];
    assert R !in Sets(run'[|run'| - 1].cells)[1];
  }
}
