// Goals over goal states, and what running them means: the states found stand for
// exactly the assignments that satisfy the goal.
module RelQuery {
  import opened Common
  import opened Unification

  datatype GoalState = GoalState(subst: Subst, counter: int)

  datatype TextTest = StartsWith | Includes

  /** `Rows` stands for all goals that try to unify terms with each row of a table: nodes,
      edges, attributes, reachable pairs. `Labelled` filters nodes by their label. */
  datatype Goal =
    | Equal(l: Term, r: Term)
    | Rows(terms: seq<Term>, table: seq<seq<Term>>)
    | Labelled(id: Term, pattern: Term, test: TextTest, labels: seq<(string, string)>)
    | Conj(goals: seq<Goal>)
    | Disj(goals: seq<Goal>)

  predicate Passes(test: TextTest, pattern: string, text: string) {
    match test
    case StartsWith => pattern <= text
    case Includes => exists i :: 0 <= i <= |text| && pattern <= text[i..]
  }

  /** A text starts with the pattern, or has it somewhere. */
  lemma PassesExact(pattern: string, text: string)
    ensures Passes(StartsWith, pattern, text) <==> exists b :: text == pattern + b
    ensures Passes(Includes, pattern, text) <==> exists a, b :: text == a + pattern + b
  {
    if Passes(StartsWith, pattern, text) { assert text == pattern + text[|pattern|..]; }
    if Passes(Includes, pattern, text) {
      var i :| 0 <= i <= |text| && pattern <= text[i..];
      FoundAt(pattern, text, i);
    }
    if a, b :| text == a + pattern + b { FoundBetween(pattern, text, a, b); }
  }

  lemma FoundAt(pattern: string, text: string, i: nat)
    requires i <= |text| && pattern <= text[i..]
    ensures exists a, b :: text == a + pattern + b
  {
    assert text == text[..i] + pattern + text[i..][|pattern|..];
  }

  lemma FoundBetween(pattern: string, text: string, a: string, b: string)
    requires text == a + pattern + b
    ensures Passes(Includes, pattern, text)
  {
    assert text[|a|..] == pattern + b;
  }

  /** Terms are well formed and table rows are variable-free. */
  ghost predicate WellFormed(g: Goal) {
    match g
    case Equal(l, r) => Plain(l) && Plain(r)
    case Rows(terms, table) => AllPlain(terms) && forall row :: row in table ==> IsRow(row, |terms|)
    case Labelled(id, pattern, _, _) => Plain(id) && Plain(pattern)
    case Conj(goals) => forall i :: 0 <= i < |goals| ==> WellFormed(goals[i])
    case Disj(goals) => forall i :: 0 <= i < |goals| ==> WellFormed(goals[i])
  }

  ghost predicate AllPlain(terms: seq<Term>) {
    forall i :: 0 <= i < |terms| ==> Plain(terms[i])
  }

  ghost predicate IsRow(row: seq<Term>, n: nat) {
    |row| == n && forall i :: 0 <= i < n ==> Ground(row[i]) && Plain(row[i])
  }

  ghost predicate AllProper(states: seq<GoalState>) {
    forall k :: 0 <= k < |states| ==> Proper(states[k].subst)
  }

  // ---- Running goals ----

  /** The state found by a unification, if any. */
  function Found(u: Option<Subst>, counter: int): seq<GoalState> {
    match u
    case None => []
    case Some(s) => [GoalState(s, counter)]
  }

  /** The states of two runs, one after the other. */
  function Both(x: Ending<seq<GoalState>>, y: Ending<seq<GoalState>>): Ending<seq<GoalState>> {
    match (x, y)
    case (Ends(a), Ends(b)) => Ends(a + b)
    case _ => Running
  }

  /** `n` bounds the depth of every unification and of reading back. */
  function Run(n: nat, g: Goal, st: GoalState): (r: Ending<seq<GoalState>>)
    requires WellFormed(g) && Proper(st.subst)
    ensures r.Ends? ==> AllProper(r.value)
    decreases g, 2
  {
    match g
    case Equal(l, r) =>
      (match Unify(n, l, r, st.subst)
       case Running => Running
       case Ends(u) => Ends(Found(u, st.counter)))
    case Rows(terms, table) => RunRows(n, terms, table, st)
    case Labelled(id, pattern, test, labels) =>
      (match Reify(n, pattern, st.subst)
       case Running => Running
       case Ends(Lit(Text(p))) => RunLabels(n, id, p, test, labels, st)
       case Ends(_) => Ends([]))
    case Conj(goals) => RunConj(n, g, goals, [st])
    case Disj(goals) => RunDisj(n, g, goals, st)
  }

  function RunRows(n: nat, terms: seq<Term>, table: seq<seq<Term>>, st: GoalState): (r: Ending<seq<GoalState>>)
    requires Proper(st.subst) && AllPlain(terms) && forall row :: row in table ==> IsRow(row, |terms|)
    ensures r.Ends? ==> AllProper(r.value)
  {
    if table == [] then Ends([])
    else
      assert IsRow(table[0], |terms|);
      match UnifyPairs(n, Zip(terms, table[0]), st.subst)
      case Running => Running
      case Ends(u) => Both(Ends(Found(u, st.counter)), RunRows(n, terms, table[1..], st))
  }

  function RunLabels(n: nat, id: Term, pattern: string, test: TextTest, labels: seq<(string, string)>, st: GoalState)
    : (r: Ending<seq<GoalState>>)
    requires Proper(st.subst) && Plain(id)
    ensures r.Ends? ==> AllProper(r.value)
  {
    if labels == [] then Ends([])
    else if !Passes(test, pattern, labels[0].1) then RunLabels(n, id, pattern, test, labels[1..], st)
    else match Unify(n, id, Lit(Text(labels[0].0)), st.subst)
      case Running => Running
      case Ends(u) => Both(Ends(Found(u, st.counter)), RunLabels(n, id, pattern, test, labels[1..], st))
  }

  /** Each goal is applied to every state the goals before it left. */
  function RunConj(n: nat, ghost parent: Goal, goals: seq<Goal>, states: seq<GoalState>): (r: Ending<seq<GoalState>>)
    requires AllProper(states)
    requires forall i :: 0 <= i < |goals| ==> WellFormed(goals[i]) && goals[i] < parent
    ensures r.Ends? ==> AllProper(r.value)
    decreases parent, 1, |goals|
  {
    if goals == [] then Ends(states)
    else match RunEach(n, parent, goals[0], states)
      case Running => Running
      case Ends(next) => RunConj(n, parent, goals[1..], next)
  }

  function RunEach(n: nat, ghost parent: Goal, g: Goal, states: seq<GoalState>): (r: Ending<seq<GoalState>>)
    requires AllProper(states) && WellFormed(g) && g < parent
    ensures r.Ends? ==> AllProper(r.value)
    decreases parent, 0, |states|
  {
    if states == [] then Ends([]) else Both(Run(n, g, states[0]), RunEach(n, parent, g, states[1..]))
  }

  function RunDisj(n: nat, ghost parent: Goal, goals: seq<Goal>, st: GoalState): (r: Ending<seq<GoalState>>)
    requires Proper(st.subst)
    requires forall i :: 0 <= i < |goals| ==> WellFormed(goals[i]) && goals[i] < parent
    ensures r.Ends? ==> AllProper(r.value)
    decreases parent, 0, |goals|
  {
    if goals == [] then Ends([]) else Both(Run(n, goals[0], st), RunDisj(n, parent, goals[1..], st))
  }

  // ---- The order of states ----

  /** States come in the order of the rows of a table. */
  lemma {:induction false} RowsInOrder(n: nat, terms: seq<Term>, x: seq<seq<Term>>, y: seq<seq<Term>>, st: GoalState)
    requires Proper(st.subst) && AllPlain(terms) && forall row :: row in x + y ==> IsRow(row, |terms|)
    ensures var a, b := RunRows(n, terms, x, st), RunRows(n, terms, y, st);
      RunRows(n, terms, x + y, st) == if a.Ends? && b.Ends? then Ends(a.value + b.value) else Running
    decreases |x|
  {
    if x == [] {
      assert x + y == y;
      AppendNone(RunRows(n, terms, y, st));
    } else {
      assert (x + y)[1..] == x[1..] + y && IsRow((x + y)[0], |terms|);
      RowsInOrder(n, terms, x[1..], y, st);
      if UnifyPairs(n, Zip(terms, x[0]), st.subst).Ends? {
        AppendThree(Found(UnifyPairs(n, Zip(terms, x[0]), st.subst).value, st.counter),
                    RunRows(n, terms, x[1..], st), RunRows(n, terms, y, st));
      }
      FirstRow(n, terms, x, st);
      FirstRow(n, terms, x + y, st);
    }
  }

  /** One row contributes the state that unifying with it leaves, before all later rows. */
  lemma FirstRow(n: nat, terms: seq<Term>, table: seq<seq<Term>>, st: GoalState)
    requires Proper(st.subst) && AllPlain(terms) && forall row :: row in table ==> IsRow(row, |terms|)
    requires table != [] && IsRow(table[0], |terms|)
    ensures var u, rest := UnifyPairs(n, Zip(terms, table[0]), st.subst), RunRows(n, terms, table[1..], st);
      RunRows(n, terms, table, st) ==
        if u.Running? || rest.Running? then Running
        else if u.value.None? then rest
        else Ends([GoalState(u.value.value, st.counter)] + rest.value)
  {
    var u, rest := UnifyPairs(n, Zip(terms, table[0]), st.subst), RunRows(n, terms, table[1..], st);
    if u.Ends? && rest.Ends? && u.value.None? { assert [] + rest.value == rest.value; }
  }

  /** States come in the order of the labels. */
  lemma {:induction false} LabelsInOrder(n: nat, id: Term, pattern: string, test: TextTest,
                                         x: seq<(string, string)>, y: seq<(string, string)>, st: GoalState)
    requires Proper(st.subst) && Plain(id)
    ensures var a, b := RunLabels(n, id, pattern, test, x, st), RunLabels(n, id, pattern, test, y, st);
      RunLabels(n, id, pattern, test, x + y, st) == if a.Ends? && b.Ends? then Ends(a.value + b.value) else Running
    decreases |x|
  {
    if x == [] {
      assert x + y == y;
      AppendNone(RunLabels(n, id, pattern, test, y, st));
    } else {
      assert (x + y)[1..] == x[1..] + y && (x + y)[0] == x[0];
      LabelsInOrder(n, id, pattern, test, x[1..], y, st);
      if Passes(test, pattern, x[0].1) && Unify(n, id, Lit(Text(x[0].0)), st.subst).Ends? {
        AppendThree(Found(Unify(n, id, Lit(Text(x[0].0)), st.subst).value, st.counter),
                    RunLabels(n, id, pattern, test, x[1..], st), RunLabels(n, id, pattern, test, y, st));
      }
    }
  }

  lemma AppendNone(a: Ending<seq<GoalState>>)
    ensures a.Ends? ==> [] + a.value == a.value
  {
  }

  lemma AppendThree(first: seq<GoalState>, a: Ending<seq<GoalState>>, b: Ending<seq<GoalState>>)
    ensures a.Ends? && b.Ends? ==> first + (a.value + b.value) == first + a.value + b.value
  {
  }

  /** The states a goal leaves for one state come before those for the next. */
  lemma {:induction false} EachInOrder(n: nat, parent: Goal, g: Goal, x: seq<GoalState>, y: seq<GoalState>)
    requires AllProper(x) && AllProper(y) && AllProper(x + y) && WellFormed(g) && g < parent
    ensures var a, b := RunEach(n, parent, g, x), RunEach(n, parent, g, y);
      RunEach(n, parent, g, x + y) == if a.Ends? && b.Ends? then Ends(a.value + b.value) else Running
    decreases |x|
  {
    if x == [] {
      assert x + y == y;
      AppendNone(RunEach(n, parent, g, y));
    } else {
      assert (x + y)[1..] == x[1..] + y;
      EachInOrder(n, parent, g, x[1..], y);
      if Run(n, g, x[0]).Ends? {
        AppendThree(Run(n, g, x[0]).value, RunEach(n, parent, g, x[1..]), RunEach(n, parent, g, y));
      }
    }
  }

  /** A conjunction runs from left to right. */
  lemma {:induction false} ConjInOrder(n: nat, parent: Goal, x: seq<Goal>, y: seq<Goal>, states: seq<GoalState>)
    requires AllProper(states) && forall i :: 0 <= i < |x| ==> WellFormed(x[i]) && x[i] < parent
    requires forall i :: 0 <= i < |y| ==> WellFormed(y[i]) && y[i] < parent
    ensures RunConj(n, parent, x + y, states) ==
      match RunConj(n, parent, x, states) case Running => Running case Ends(next) => RunConj(n, parent, y, next)
    decreases |x|
  {
    if x == [] {
      assert x + y == y;
    } else {
      assert (x + y)[1..] == x[1..] + y;
      match RunEach(n, parent, x[0], states) {
        case Ends(next) => ConjInOrder(n, parent, x[1..], y, next);
        case Running =>
      }
    }
  }

  /** The states of one alternative come before those of the next. */
  lemma {:induction false} AlternativesInOrder(n: nat, parent: Goal, x: seq<Goal>, y: seq<Goal>, st: GoalState)
    requires Proper(st.subst) && forall i :: 0 <= i < |x| ==> WellFormed(x[i]) && x[i] < parent
    requires forall i :: 0 <= i < |y| ==> WellFormed(y[i]) && y[i] < parent
    ensures var a, b := RunDisj(n, parent, x, st), RunDisj(n, parent, y, st);
      RunDisj(n, parent, x + y, st) == if a.Ends? && b.Ends? then Ends(a.value + b.value) else Running
    decreases |x|
  {
    if x == [] {
      assert x + y == y;
      AppendNone(RunDisj(n, parent, y, st));
    } else {
      assert (x + y)[1..] == x[1..] + y;
      AlternativesInOrder(n, parent, x[1..], y, st);
      if Run(n, x[0], st).Ends? {
        AppendThree(Run(n, x[0], st).value, RunDisj(n, parent, x[1..], st), RunDisj(n, parent, y, st));
      }
    }
  }

  // ---- Meaning ----

  /** The assignments that satisfy a goal. */
  ghost predicate Sat(g: Goal, th: Assignment) {
    match g
    case Equal(l, r) => Inst(th, l) == Inst(th, r)
    case Rows(terms, table) => exists k :: 0 <= k < |table| && RowHolds(terms, table[k], 0, th)
    case Labelled(id, pattern, test, labels) =>
      exists k :: 0 <= k < |labels| && LabelHolds(id, pattern, test, labels[k], th)
    case Conj(goals) => forall i :: 0 <= i < |goals| ==> Sat(goals[i], th)
    case Disj(goals) => exists i :: 0 <= i < |goals| && Sat(goals[i], th)
  }

  ghost predicate RowHolds(terms: seq<Term>, row: seq<Term>, i: nat, th: Assignment) {
    |row| == |terms| && forall k :: i <= k < |terms| ==> Inst(th, terms[k]) == Inst(th, row[k])
  }

  ghost predicate LabelHolds(id: Term, pattern: Term, test: TextTest, entry: (string, string), th: Assignment) {
    exists p: string :: Inst(th, pattern) == VPrim(Text(p)) && Passes(test, p, entry.1) &&
      Inst(th, id) == VPrim(Text(entry.0))
  }

  /** Prefixes and needles are constants. */
  predicate ConstantPatterns(g: Goal) {
    match g
    case Equal(_, _) => true
    case Rows(_, _) => true
    case Labelled(_, pattern, _, _) => Ground(pattern)
    case Conj(goals) => forall i :: 0 <= i < |goals| ==> ConstantPatterns(goals[i])
    case Disj(goals) => forall i :: 0 <= i < |goals| ==> ConstantPatterns(goals[i])
  }

  ghost predicate AllConstant(goals: seq<Goal>) {
    forall i :: 0 <= i < |goals| ==> ConstantPatterns(goals[i])
  }

  /** Some state of the list is solved. */
  ghost predicate SolvedBy(states: seq<GoalState>, th: Assignment) {
    exists k :: 0 <= k < |states| && Solves(th, states[k].subst)
  }

  lemma SolvedByAppend(a: seq<GoalState>, b: seq<GoalState>, th: Assignment)
    ensures SolvedBy(a + b, th) <==> SolvedBy(a, th) || SolvedBy(b, th)
  {
    if SolvedBy(a, th) {
      var k :| 0 <= k < |a| && Solves(th, a[k].subst);
      assert (a + b)[k] == a[k];
    }
    if SolvedBy(b, th) {
      var k :| 0 <= k < |b| && Solves(th, b[k].subst);
      assert (a + b)[|a| + k] == b[k];
    }
  }

  lemma SolvedByFound(u: Option<Subst>, counter: int, th: Assignment)
    ensures SolvedBy(Found(u, counter), th) <==> u.Some? && Solves(th, u.value)
  {
    if u.Some? {
      assert Found(u, counter)[0].subst == u.value;
    }
  }

  lemma RowPairs(terms: seq<Term>, row: seq<Term>)
    requires AllPlain(terms) && IsRow(row, |terms|)
    ensures PlainPairs(Zip(terms, row)) && forall th :: PairsAgree(th, Zip(terms, row)) <==> RowHolds(terms, row, 0, th)
  {
  }

  lemma {:induction false} RunRowsExact(n: nat, terms: seq<Term>, table: seq<seq<Term>>, st: GoalState, th: Assignment)
    requires Proper(st.subst) && AllPlain(terms) && forall row :: row in table ==> IsRow(row, |terms|)
    requires RunRows(n, terms, table, st).Ends?
    ensures SolvedBy(RunRows(n, terms, table, st).value, th) <==>
      Solves(th, st.subst) && exists k :: 0 <= k < |table| && RowHolds(terms, table[k], 0, th)
  {
    if table != [] {
      assert IsRow(table[0], |terms|);
      RowPairs(terms, table[0]);
      var u := UnifyPairs(n, Zip(terms, table[0]), st.subst).value;
      PairsExact(n, Zip(terms, table[0]), st.subst, th);
      SolvedByFound(u, st.counter, th);
      SolvedByAppend(Found(u, st.counter), RunRows(n, terms, table[1..], st).value, th);
      RunRowsExact(n, terms, table[1..], st, th);
      assert forall k :: 0 < k < |table| ==> table[k] == table[1..][k - 1];
    }
  }

  ghost predicate SomeLabelPasses(id: Term, p: string, test: TextTest, labels: seq<(string, string)>, th: Assignment) {
    exists k :: 0 <= k < |labels| && Passes(test, p, labels[k].1) && Inst(th, id) == VPrim(Text(labels[k].0))
  }

  lemma {:induction false} RunLabelsExact(n: nat, id: Term, p: string, test: TextTest, labels: seq<(string, string)>,
                                          st: GoalState, th: Assignment)
    requires Proper(st.subst) && Plain(id) && RunLabels(n, id, p, test, labels, st).Ends?
    ensures SolvedBy(RunLabels(n, id, p, test, labels, st).value, th) <==>
      Solves(th, st.subst) && SomeLabelPasses(id, p, test, labels, th)
  {
    if labels != [] {
      assert forall k :: 0 < k < |labels| ==> labels[k] == labels[1..][k - 1];
      RunLabelsExact(n, id, p, test, labels[1..], st, th);
      if Passes(test, p, labels[0].1) {
        var name := Lit(Text(labels[0].0));
        UnifyExact(n, id, name, st.subst, th);
        var u := Unify(n, id, name, st.subst).value;
        SolvedByFound(u, st.counter, th);
        SolvedByAppend(Found(u, st.counter), RunLabels(n, id, p, test, labels[1..], st).value, th);
      }
    }
  }

  /** Whenever a goal ends: the states it leaves are solved only by assignments that solve
      the state before and satisfy the goal; if prefixes and needles are constants, by all
      of these. */
  lemma {:induction false} RunExact(n: nat, g: Goal, st: GoalState, th: Assignment)
    requires WellFormed(g) && Proper(st.subst) && Run(n, g, st).Ends?
    ensures SolvedBy(Run(n, g, st).value, th) ==> Solves(th, st.subst) && Sat(g, th)
    ensures ConstantPatterns(g) && Solves(th, st.subst) && Sat(g, th) ==> SolvedBy(Run(n, g, st).value, th)
    decreases g, 2
  {
    match g {
      case Equal(l, r) =>
        UnifyExact(n, l, r, st.subst, th);
        SolvedByFound(Unify(n, l, r, st.subst).value, st.counter, th);
      case Rows(terms, table) => RunRowsExact(n, terms, table, st, th);
      case Labelled(id, pattern, test, labels) => LabelledExact(n, g, st, th);
      case Conj(goals) =>
        RunConjExact(n, g, goals, [st], th);
        assert SolvedBy([st], th) <==> Solves(th, [st][0].subst);
      case Disj(goals) => RunDisjExact(n, g, goals, st, th);
    }
  }

  lemma LabelledExact(n: nat, g: Goal, st: GoalState, th: Assignment)
    requires g.Labelled? && WellFormed(g) && Proper(st.subst) && Run(n, g, st).Ends?
    ensures SolvedBy(Run(n, g, st).value, th) ==> Solves(th, st.subst) && Sat(g, th)
    ensures ConstantPatterns(g) && Solves(th, st.subst) && Sat(g, th) ==> SolvedBy(Run(n, g, st).value, th)
  {
    var Labelled(id, pattern, test, labels) := g;
    ReifyValue(n, pattern, st.subst, th);
    match Reify(n, pattern, st.subst) {
      case Ends(Lit(Text(p))) =>
        RunLabelsExact(n, id, p, test, labels, st, th);
        if Solves(th, st.subst) && SomeLabelPasses(id, p, test, labels, th) {
          var k :| 0 <= k < |labels| && Passes(test, p, labels[k].1) && Inst(th, id) == VPrim(Text(labels[k].0));
          assert LabelHolds(id, pattern, test, labels[k], th);
        }
      case Ends(u) =>
        assert pattern.Lit? ==> u == pattern;
    }
  }

  lemma {:induction false} RunConjExact(n: nat, parent: Goal, goals: seq<Goal>, states: seq<GoalState>, th: Assignment)
    requires AllProper(states)
    requires forall i :: 0 <= i < |goals| ==> WellFormed(goals[i]) && goals[i] < parent
    requires RunConj(n, parent, goals, states).Ends?
    ensures SolvedBy(RunConj(n, parent, goals, states).value, th) ==>
      SolvedBy(states, th) && forall i :: 0 <= i < |goals| ==> Sat(goals[i], th)
    ensures SolvedBy(states, th) && AllConstant(goals) && (forall i :: 0 <= i < |goals| ==> Sat(goals[i], th)) ==>
      SolvedBy(RunConj(n, parent, goals, states).value, th)
    decreases parent, 1, |goals|
  {
    if goals != [] {
      RunEachExact(n, parent, goals[0], states, th);
      RunConjExact(n, parent, goals[1..], RunEach(n, parent, goals[0], states).value, th);
      assert forall i :: 0 < i < |goals| ==> goals[i] == goals[1..][i - 1];
    }
  }

  lemma {:induction false} RunEachExact(n: nat, parent: Goal, g: Goal, states: seq<GoalState>, th: Assignment)
    requires AllProper(states) && WellFormed(g) && g < parent && RunEach(n, parent, g, states).Ends?
    ensures SolvedBy(RunEach(n, parent, g, states).value, th) ==> SolvedBy(states, th) && Sat(g, th)
    ensures ConstantPatterns(g) && SolvedBy(states, th) && Sat(g, th) ==>
      SolvedBy(RunEach(n, parent, g, states).value, th)
    decreases parent, 0, |states|
  {
    if states != [] {
      RunExact(n, g, states[0], th);
      RunEachExact(n, parent, g, states[1..], th);
      SolvedByAppend(Run(n, g, states[0]).value, RunEach(n, parent, g, states[1..]).value, th);
      SolvedByAppend([states[0]], states[1..], th);
      assert states == [states[0]] + states[1..];
      assert SolvedBy([states[0]], th) <==> Solves(th, [states[0]][0].subst);
    }
  }

  lemma {:induction false} RunDisjExact(n: nat, parent: Goal, goals: seq<Goal>, st: GoalState, th: Assignment)
    requires Proper(st.subst)
    requires forall i :: 0 <= i < |goals| ==> WellFormed(goals[i]) && goals[i] < parent
    requires RunDisj(n, parent, goals, st).Ends?
    ensures SolvedBy(RunDisj(n, parent, goals, st).value, th) ==>
      Solves(th, st.subst) && exists i :: 0 <= i < |goals| && Sat(goals[i], th)
    ensures AllConstant(goals) && Solves(th, st.subst) ==>
      (exists i :: 0 <= i < |goals| && Sat(goals[i], th)) ==> SolvedBy(RunDisj(n, parent, goals, st).value, th)
    decreases parent, 0, |goals|
  {
    if goals != [] {
      RunExact(n, goals[0], st, th);
      RunDisjExact(n, parent, goals[1..], st, th);
      SolvedByAppend(Run(n, goals[0], st).value, RunDisj(n, parent, goals[1..], st).value, th);
      assert forall i :: 0 < i < |goals| ==> goals[i] == goals[1..][i - 1];
    }
  }

  // ---- Variables ----

  /** All variables of a goal are among `vars`. */
  ghost predicate Mentions(g: Goal, vars: set<int>) {
    match g
    case Equal(l, r) => VarsOf(l) <= vars && VarsOf(r) <= vars
    case Rows(terms, _) => forall i :: 0 <= i < |terms| ==> VarsOf(terms[i]) <= vars
    case Labelled(id, _, _, _) => VarsOf(id) <= vars
    case Conj(goals) => forall i :: 0 <= i < |goals| ==> Mentions(goals[i], vars)
    case Disj(goals) => forall i :: 0 <= i < |goals| ==> Mentions(goals[i], vars)
  }

  ghost predicate AllWithin(states: seq<GoalState>, vars: set<int>) {
    forall k :: 0 <= k < |states| ==> Within(states[k].subst, vars)
  }

  lemma {:induction false} RowsWithin(n: nat, terms: seq<Term>, table: seq<seq<Term>>, st: GoalState, vars: set<int>)
    requires Proper(st.subst) && AllPlain(terms) && forall row :: row in table ==> IsRow(row, |terms|)
    requires Mentions(Rows(terms, table), vars) && Within(st.subst, vars) && RunRows(n, terms, table, st).Ends?
    ensures AllWithin(RunRows(n, terms, table, st).value, vars)
  {
    if table != [] {
      assert IsRow(table[0], |terms|);
      var pairs := Zip(terms, table[0]);
      RowPairs(terms, table[0]);
      forall k | 0 <= k < |pairs| ensures VarsOf(pairs[k].0) <= vars && VarsOf(pairs[k].1) <= vars {
        GroundHasNoVars(table[0][k]);
      }
      UnifyPairsWithin(n, pairs, st.subst, vars);
      RowsWithin(n, terms, table[1..], st, vars);
    }
  }

  lemma {:induction false} LabelsWithin(n: nat, id: Term, p: string, test: TextTest, labels: seq<(string, string)>,
                                        st: GoalState, vars: set<int>)
    requires Proper(st.subst) && Plain(id) && VarsOf(id) <= vars && Within(st.subst, vars)
    requires RunLabels(n, id, p, test, labels, st).Ends?
    ensures AllWithin(RunLabels(n, id, p, test, labels, st).value, vars)
  {
    if labels != [] {
      LabelsWithin(n, id, p, test, labels[1..], st, vars);
      if Passes(test, p, labels[0].1) { UnifyWithin(n, id, Lit(Text(labels[0].0)), st.subst, vars); }
    }
  }

  /** A run uses no variables other than those of the goal and of the state before. */
  lemma {:induction false} RunWithin(n: nat, g: Goal, st: GoalState, vars: set<int>)
    requires WellFormed(g) && Proper(st.subst) && Run(n, g, st).Ends?
    requires Mentions(g, vars) && Within(st.subst, vars)
    ensures AllWithin(Run(n, g, st).value, vars)
    decreases g, 2
  {
    match g {
      case Equal(l, r) => UnifyWithin(n, l, r, st.subst, vars);
      case Rows(terms, table) => RowsWithin(n, terms, table, st, vars);
      case Labelled(id, pattern, test, labels) =>
        match Reify(n, pattern, st.subst) {
          case Ends(Lit(Text(p))) => LabelsWithin(n, id, p, test, labels, st, vars);
          case _ =>
        }
      case Conj(goals) => ConjWithin(n, g, goals, [st], vars);
      case Disj(goals) => DisjWithin(n, g, goals, st, vars);
    }
  }

  lemma {:induction false} ConjWithin(n: nat, parent: Goal, goals: seq<Goal>, states: seq<GoalState>, vars: set<int>)
    requires AllProper(states) && AllWithin(states, vars)
    requires forall i :: 0 <= i < |goals| ==> WellFormed(goals[i]) && goals[i] < parent && Mentions(goals[i], vars)
    requires RunConj(n, parent, goals, states).Ends?
    ensures AllWithin(RunConj(n, parent, goals, states).value, vars)
    decreases parent, 1, |goals|
  {
    if goals != [] {
      EachWithin(n, parent, goals[0], states, vars);
      ConjWithin(n, parent, goals[1..], RunEach(n, parent, goals[0], states).value, vars);
    }
  }

  lemma {:induction false} EachWithin(n: nat, parent: Goal, g: Goal, states: seq<GoalState>, vars: set<int>)
    requires AllProper(states) && WellFormed(g) && g < parent && RunEach(n, parent, g, states).Ends?
    requires AllWithin(states, vars) && Mentions(g, vars)
    ensures AllWithin(RunEach(n, parent, g, states).value, vars)
    decreases parent, 0, |states|
  {
    if states != [] {
      RunWithin(n, g, states[0], vars);
      EachWithin(n, parent, g, states[1..], vars);
    }
  }

  lemma {:induction false} DisjWithin(n: nat, parent: Goal, goals: seq<Goal>, st: GoalState, vars: set<int>)
    requires Proper(st.subst) && Within(st.subst, vars)
    requires forall i :: 0 <= i < |goals| ==> WellFormed(goals[i]) && goals[i] < parent && Mentions(goals[i], vars)
    requires RunDisj(n, parent, goals, st).Ends?
    ensures AllWithin(RunDisj(n, parent, goals, st).value, vars)
    decreases parent, 0, |goals|
  {
    if goals != [] {
      RunWithin(n, goals[0], st, vars);
      DisjWithin(n, parent, goals[1..], st, vars);
    }
  }

  // ---- Goals that end ----

  lemma {:induction false} RowsDeeper(n: nat, m: nat, terms: seq<Term>, table: seq<seq<Term>>, st: GoalState)
    requires n <= m && Proper(st.subst) && AllPlain(terms) && forall row :: row in table ==> IsRow(row, |terms|)
    requires RunRows(n, terms, table, st).Ends?
    ensures RunRows(m, terms, table, st) == RunRows(n, terms, table, st)
  {
    if table != [] {
      assert IsRow(table[0], |terms|);
      RowPairs(terms, table[0]);
      PairsDeeper(n, m, Zip(terms, table[0]), st.subst);
      RowsDeeper(n, m, terms, table[1..], st);
    }
  }

  lemma {:induction false} LabelsDeeper(n: nat, m: nat, id: Term, p: string, test: TextTest,
                                        labels: seq<(string, string)>,
                                        st: GoalState)
    requires n <= m && Proper(st.subst) && Plain(id) && RunLabels(n, id, p, test, labels, st).Ends?
    ensures RunLabels(m, id, p, test, labels, st) == RunLabels(n, id, p, test, labels, st)
  {
    if labels != [] {
      LabelsDeeper(n, m, id, p, test, labels[1..], st);
      if Passes(test, p, labels[0].1) { UnifyDeeper(n, m, id, Lit(Text(labels[0].0)), st.subst); }
    }
  }

  /** A goal that ends leaves the same states when it is allowed to go deeper. */
  lemma {:induction false} RunDeeper(n: nat, m: nat, g: Goal, st: GoalState)
    requires n <= m && WellFormed(g) && Proper(st.subst) && Run(n, g, st).Ends?
    ensures Run(m, g, st) == Run(n, g, st)
    decreases g, 2
  {
    match g {
      case Equal(l, r) => UnifyDeeper(n, m, l, r, st.subst);
      case Rows(terms, table) => RowsDeeper(n, m, terms, table, st);
      case Labelled(id, pattern, test, labels) =>
        ReifyDeeper(n, m, pattern, st.subst);
        match Reify(n, pattern, st.subst) {
          case Ends(Lit(Text(p))) => LabelsDeeper(n, m, id, p, test, labels, st);
          case _ =>
        }
      case Conj(goals) => ConjDeeper(n, m, g, goals, [st]);
      case Disj(goals) => DisjDeeper(n, m, g, goals, st);
    }
  }

  lemma {:induction false} ConjDeeper(n: nat, m: nat, parent: Goal, goals: seq<Goal>, states: seq<GoalState>)
    requires n <= m && AllProper(states)
    requires forall i :: 0 <= i < |goals| ==> WellFormed(goals[i]) && goals[i] < parent
    requires RunConj(n, parent, goals, states).Ends?
    ensures RunConj(m, parent, goals, states) == RunConj(n, parent, goals, states)
    decreases parent, 1, |goals|
  {
    if goals != [] {
      EachDeeper(n, m, parent, goals[0], states);
      ConjDeeper(n, m, parent, goals[1..], RunEach(n, parent, goals[0], states).value);
    }
  }

  lemma {:induction false} EachDeeper(n: nat, m: nat, parent: Goal, g: Goal, states: seq<GoalState>)
    requires n <= m && AllProper(states) && WellFormed(g) && g < parent && RunEach(n, parent, g, states).Ends?
    ensures RunEach(m, parent, g, states) == RunEach(n, parent, g, states)
    decreases parent, 0, |states|
  {
    if states != [] {
      RunDeeper(n, m, g, states[0]);
      EachDeeper(n, m, parent, g, states[1..]);
    }
  }

  lemma {:induction false} DisjDeeper(n: nat, m: nat, parent: Goal, goals: seq<Goal>, st: GoalState)
    requires n <= m && Proper(st.subst)
    requires forall i :: 0 <= i < |goals| ==> WellFormed(goals[i]) && goals[i] < parent
    requires RunDisj(n, parent, goals, st).Ends?
    ensures RunDisj(m, parent, goals, st) == RunDisj(n, parent, goals, st)
    decreases parent, 0, |goals|
  {
    if goals != [] {
      RunDeeper(n, m, goals[0], st);
      DisjDeeper(n, m, parent, goals[1..], st);
    }
  }

  /** No equation asks to bind a variable to a compound term that contains variables. */
  ghost predicate EquationsFit(g: Goal) {
    match g
    case Equal(l, r) => Compatible(l, r)
    case Rows(_, _) => true
    case Labelled(_, _, _, _) => true
    case Conj(goals) => forall i :: 0 <= i < |goals| ==> EquationsFit(goals[i])
    case Disj(goals) => forall i :: 0 <= i < |goals| ==> EquationsFit(goals[i])
  }

  ghost predicate AllFlat(states: seq<GoalState>) {
    forall k :: 0 <= k < |states| ==> Flat(states[k].subst)
  }

  lemma {:induction false} RowsEnd(terms: seq<Term>, table: seq<seq<Term>>, st: GoalState) returns (n: nat)
    requires Flat(st.subst) && AllPlain(terms) && forall row :: row in table ==> IsRow(row, |terms|)
    ensures var r := RunRows(n, terms, table, st); r.Ends? && AllFlat(r.value)
  {
    n := 0;
    if table != [] {
      assert IsRow(table[0], |terms|);
      var pairs := Zip(terms, table[0]);
      RowPairs(terms, table[0]);
      var k := CompatiblePairsEnd(pairs, st.subst);
      var m := RowsEnd(terms, table[1..], st);
      n := if k < m then m else k;
      PairsDeeper(k, n, pairs, st.subst);
      RowsDeeper(m, n, terms, table[1..], st);
    }
  }

  lemma {:induction false} LabelsEnd(id: Term, p: string, test: TextTest, labels: seq<(string, string)>, st: GoalState)
    returns (n: nat)
    requires Flat(st.subst) && Plain(id)
    ensures var r := RunLabels(n, id, p, test, labels, st); r.Ends? && AllFlat(r.value)
  {
    n := 0;
    if labels != [] {
      var name := Lit(Text(labels[0].0));
      var k := CompatibleEnds(id, name, st.subst);
      var m := LabelsEnd(id, p, test, labels[1..], st);
      n := if k < m then m else k;
      UnifyDeeper(k, n, id, name, st.subst);
      LabelsDeeper(m, n, id, p, test, labels[1..], st);
    }
  }

  /** Under that condition, which can be checked before the run, a goal ends and leaves
      states without cycles. */
  lemma {:induction false} FittingGoalEnds(g: Goal, st: GoalState) returns (n: nat)
    requires WellFormed(g) && EquationsFit(g) && Flat(st.subst)
    ensures Run(n, g, st).Ends? && AllFlat(Run(n, g, st).value)
    decreases g, 2
  {
    match g {
      case Equal(l, r) => n := CompatibleEnds(l, r, st.subst);
      case Rows(terms, table) => n := RowsEnd(terms, table, st);
      case Labelled(id, pattern, test, labels) =>
        var k := FlatReifyEnds(pattern, st.subst);
        n := k;
        match Reify(k, pattern, st.subst) {
          case Ends(Lit(Text(p))) =>
            var m := LabelsEnd(id, p, test, labels, st);
            n := if k < m then m else k;
            ReifyDeeper(k, n, pattern, st.subst);
            LabelsDeeper(m, n, id, p, test, labels, st);
          case _ =>
        }
      case Conj(goals) => n := FittingConjEnds(g, goals, [st]);
      case Disj(goals) => n := FittingDisjEnds(g, goals, st);
    }
  }

  lemma FlatReifyEnds(t: Term, s: Subst) returns (n: nat)
    requires Flat(s)
    ensures Reify(n, t, s).Ends?
  {
    FlatIsAcyclic(s);
    var r: int -> nat :| DeepRanks(r, s);
    RankedBelow(r, s, t);
    n := ReifyEnds(t, s, r, Above(r, VarsOf(t)) + 1);
  }

  lemma {:induction false} FittingConjEnds(parent: Goal, goals: seq<Goal>, states: seq<GoalState>) returns (n: nat)
    requires AllFlat(states)
    requires forall i :: 0 <= i < |goals| ==> WellFormed(goals[i]) && EquationsFit(goals[i]) && goals[i] < parent
    ensures RunConj(n, parent, goals, states).Ends? && AllFlat(RunConj(n, parent, goals, states).value)
    decreases parent, 1, |goals|
  {
    n := 0;
    if goals != [] {
      var k := FittingEachEnds(parent, goals[0], states);
      var next := RunEach(k, parent, goals[0], states).value;
      var m := FittingConjEnds(parent, goals[1..], next);
      n := if k < m then m else k;
      EachDeeper(k, n, parent, goals[0], states);
      ConjDeeper(m, n, parent, goals[1..], next);
    }
  }

  lemma {:induction false} FittingEachEnds(parent: Goal, g: Goal, states: seq<GoalState>) returns (n: nat)
    requires AllFlat(states) && WellFormed(g) && EquationsFit(g) && g < parent
    ensures RunEach(n, parent, g, states).Ends? && AllFlat(RunEach(n, parent, g, states).value)
    decreases parent, 0, |states|
  {
    n := 0;
    if states != [] {
      var k := FittingGoalEnds(g, states[0]);
      var m := FittingEachEnds(parent, g, states[1..]);
      n := if k < m then m else k;
      RunDeeper(k, n, g, states[0]);
      EachDeeper(m, n, parent, g, states[1..]);
    }
  }

  lemma {:induction false} FittingDisjEnds(parent: Goal, goals: seq<Goal>, st: GoalState) returns (n: nat)
    requires Flat(st.subst)
    requires forall i :: 0 <= i < |goals| ==> WellFormed(goals[i]) && EquationsFit(goals[i]) && goals[i] < parent
    ensures RunDisj(n, parent, goals, st).Ends? && AllFlat(RunDisj(n, parent, goals, st).value)
    decreases parent, 0, |goals|
  {
    n := 0;
    if goals != [] {
      var k := FittingGoalEnds(goals[0], st);
      var m := FittingDisjEnds(parent, goals[1..], st);
      n := if k < m then m else k;
      RunDeeper(k, n, goals[0], st);
      DisjDeeper(m, n, parent, goals[1..], st);
    }
  }
}
