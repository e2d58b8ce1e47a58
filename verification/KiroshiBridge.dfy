// The incremental evaluator: a bridge that passes only new facts of its input cells to
// an engine, and forwarders that copy derived facts to the output cell.
module KiroshiBridge {
  import opened Common
  import opened LogicProgram
  import opened LeastModel
  import opened FactSets
  import FactNetwork

  // ---- Helpers of the engine's stores ----

  /** Append the facts of `increment` that are new, each once. */
  method FactArrayMerge(content: seq<Fact>, increment: seq<Fact>) returns (result: seq<Fact>)
    ensures content <= result
    ensures Elems(result) == Elems(content) + Elems(increment)
    ensures Fresh(result, |content|)
    ensures NoDup(content) ==> NoDup(result)
  {
    var seen := Elems(content);
    result := content;
    for i := 0 to |increment|
      invariant content <= result && Elems(result) == Elems(content) + Elems(increment[..i]) == seen
      invariant Fresh(result, |content|)
    {
      var item := increment[i];
      assert increment[..i + 1] == increment[..i] + [item];
      ElemsOfAppend(increment[..i], [item]);
      ElemsOfAppend(result, [item]);
      if item !in seen {
        seen := seen + {item};
        assert forall k :: |content| <= k <= |result| ==> (result + [item])[..k] == result[..k];
        result := result + [item];
      }
    }
    assert increment[..|increment|] == increment;
    if NoDup(content) {
      forall i, j | 0 <= i < j < |result| ensures result[i] != result[j] {
        if j >= |content| {
          assert result[i] in result[..j];
        } else {
          assert result[i] == content[i] && result[j] == content[j];
        }
      }
    }
  }

  function HeadPredicates(rules: seq<Rule>): seq<Term> {
    if rules == [] then []
    else
      var rest := HeadPredicates(rules[1..]);
      if rules[0].head == [] || rules[0].head[0] in rest then rest else [rules[0].head[0]] + rest
  }

  /** The first term of every non-empty head, and nothing else, each once. */
  lemma {:induction false} HeadPredicatesExact(rules: seq<Rule>)
    ensures forall t :: t in HeadPredicates(rules) <==> exists r :: r in rules && r.head != [] && r.head[0] == t
    ensures NoDup(HeadPredicates(rules))
  {
    if rules != [] {
      HeadPredicatesExact(rules[1..]);
      assert forall r :: r in rules <==> r == rules[0] || r in rules[1..];
    }
  }

  /** The facts of a store: those whose predicate is `pred`. */
  function OfPredicate(facts: seq<Fact>, pred: Term): seq<Fact> {
    if facts == [] then []
    else (if facts[0] != [] && Const(facts[0][0]) == pred then [facts[0]] else []) + OfPredicate(facts[1..], pred)
  }

  lemma {:induction false} OfPredicateElems(facts: seq<Fact>, pred: Term)
    ensures Elems(OfPredicate(facts, pred)) == set f | f in facts && f != [] && Const(f[0]) == pred
  {
    if facts != [] {
      OfPredicateElems(facts[1..], pred);
      var first := if facts[0] != [] && Const(facts[0][0]) == pred then [facts[0]] else [];
      ElemsOfAppend(first, OfPredicate(facts[1..], pred));
      assert forall f :: f in facts <==> f == facts[0] || f in facts[1..];
    }
  }

  /** Is the predicate of `f` one of `preds`? */
  predicate Covered(preds: seq<Term>, f: Fact) {
    f != [] && Const(f[0]) in preds
  }

  lemma CoveredByOneMore(facts: seq<Fact>, preds: seq<Term>, k: nat)
    requires k < |preds|
    ensures (set f | f in facts && Covered(preds[..k + 1], f)) ==
            (set f | f in facts && Covered(preds[..k], f)) + Elems(OfPredicate(facts, preds[k]))
  {
    OfPredicateElems(facts, preds[k]);
    assert preds[..k + 1] == preds[..k] + [preds[k]];
  }

  // ---- Contents of the input cells ----

  /** A cell holds no fact set before its first update. */
  type FactCell = Option<seq<Fact>>

  function Contents(c: FactCell): seq<Fact> {
    match c
    case None => []
    case Some(facts) => facts
  }

  function AllFacts(cells: seq<FactCell>): set<Fact> {
    if cells == [] then {} else AllFacts(cells[..|cells| - 1]) + Elems(Contents(cells[|cells| - 1]))
  }

  function CountOf(lists: seq<seq<Fact>>): multiset<Fact> {
    if lists == [] then multiset{} else CountOf(lists[..|lists| - 1]) + multiset(lists[|lists| - 1])
  }

  lemma {:induction false} CountOfUpdate(lists: seq<seq<Fact>>, i: nat, more: seq<Fact>)
    requires i < |lists|
    ensures CountOf(lists[i := lists[i] + more]) == CountOf(lists) + multiset(more)
  {
    var n := |lists| - 1;
    var lists' := lists[i := lists[i] + more];
    if i == n {
      assert lists'[..n] == lists[..n];
    } else {
      assert lists'[..n] == lists[..n][i := lists[..n][i] + more];
      CountOfUpdate(lists[..n], i, more);
    }
  }

  lemma {:induction false} CountOfMember(lists: seq<seq<Fact>>, f: Fact)
    ensures f in CountOf(lists) <==> exists i :: 0 <= i < |lists| && f in lists[i]
  {
    if lists != [] {
      CountOfMember(lists[..|lists| - 1], f);
    }
  }

  lemma {:induction false} AllFactsMember(cells: seq<FactCell>, f: Fact)
    ensures f in AllFacts(cells) <==> exists i :: 0 <= i < |cells| && f in Contents(cells[i])
  {
    if cells != [] {
      AllFactsMember(cells[..|cells| - 1], f);
    }
  }

  // ---- The propagator ----

  class Kiroshi {
    const rules: seq<Rule>
    var cells: seq<FactCell>
    var seenCounts: seq<nat>
    /** Everything handed to the engine, in order. */
    var asserted: seq<Fact>
    var output: seq<Fact>
    /** What was handed to the engine because of each cell. */
    ghost var passed: seq<seq<Fact>>

    ghost predicate Valid()
      reads this
    {
      && Counted()
      && FactNetwork.BelowClosed(rules, Elems(asserted), Elems(output))
      && forall f :: f in output ==> Covered(HeadPredicates(rules), f)
    }

    /** Per cell, a prefix of its facts has been asserted, as counted; nothing else has. */
    ghost predicate Counted()
      reads this
    {
      && |cells| == |seenCounts| == |passed|
      && (forall i :: 0 <= i < |cells| ==> passed[i] <= Contents(cells[i]) && seenCounts[i] == |passed[i]|)
      && multiset(asserted) == CountOf(passed)
    }

    constructor (rules: seq<Rule>, n: nat)
      ensures Valid() && this.rules == rules && cells == seq(n, i => None) && asserted == [] && output == []
    {
      this.rules := rules;
      cells := seq(n, i => None);
      seenCounts := seq(n, i => 0);
      asserted := [];
      output := [];
      passed := seq(n, i => []);
      new;
      NothingCounted(passed);
    }

    /** An input cell receives facts; nothing reaches the engine yet. */
    method UpdateCell(i: nat, facts: seq<Fact>)
      requires Valid() && i < |cells|
      modifies this`cells
      ensures Valid()
      ensures cells == old(cells)[i := Some(MergeFactSets(Contents(old(cells)[i]), facts))]
    {
      MergeIsUnion(Contents(cells[i]), facts);
      cells := cells[i := Some(MergeFactSets(Contents(cells[i]), facts))];
    }

    /** The bridge runs: every fact of every cell has now been asserted exactly once for
        that cell, and nothing else has been asserted. */
    method Bridge()
      requires Valid() && Positive(rules)
      modifies this`seenCounts, this`asserted, this`passed
      ensures Valid()
      ensures forall i :: 0 <= i < |cells| ==> passed[i] == Contents(cells[i])
      ensures old(asserted) <= asserted && Elems(asserted) == AllFacts(cells)
    {
      ghost var before := asserted;
      for i := 0 to |cells|
        invariant Counted() && before <= asserted
        invariant forall k :: 0 <= k < i ==> passed[k] == Contents(cells[k])
      {
        PassNew(i);
      }
      AssertedIsAll();
      assert asserted == before + asserted[|before|..];
      ElemsOfAppend(before, asserted[|before|..]);
      FactNetwork.BelowClosedMonotone(rules, Elems(before), Elems(asserted), Elems(output));
    }

    /** Assert the facts of cell i beyond those already seen. */
    method PassNew(i: nat)
      requires Counted() && i < |cells|
      modifies this`seenCounts, this`asserted, this`passed
      ensures Counted() && old(asserted) <= asserted
      ensures passed == old(passed)[i := Contents(cells[i])]
    {
      if cells[i].Some? {
        var facts := cells[i].value;
        var newFacts := if seenCounts[i] <= |facts| then facts[seenCounts[i]..] else [];
        CountOfUpdate(passed, i, newFacts);
        assert passed[i] + newFacts == facts;
        AssertAll(newFacts);
        seenCounts, passed := seenCounts[i := |facts|], passed[i := facts];
      } else {
        assert passed[i] == [];
      }
    }

    method AssertAll(facts: seq<Fact>)
      modifies this`asserted
      ensures asserted == old(asserted) + facts && multiset(asserted) == multiset(old(asserted)) + multiset(facts)
    {
      for k := 0 to |facts|
        invariant asserted == old(asserted) + facts[..k]
      {
        asserted := asserted + [facts[k]];
      }
      assert facts[..|facts|] == facts;
    }

    lemma AssertedIsAll()
      requires |cells| == |passed| && multiset(asserted) == CountOf(passed)
      requires forall i :: 0 <= i < |cells| ==> passed[i] == Contents(cells[i])
      ensures Elems(asserted) == AllFacts(cells)
    {
      forall f ensures f in Elems(asserted) <==> f in AllFacts(cells) {
        CountOfMember(passed, f);
        AllFactsMember(cells, f);
        assert f in asserted <==> f in multiset(asserted);
      }
    }

    /** One forwarder fires. Its store may still be growing: all that is known is that the
        facts in it have been derived from the asserted ones. */
    method ForwardOne(pred: Term, store: seq<Fact>)
      requires Valid() && pred in HeadPredicates(rules)
      requires forall f :: f in store ==> f != [] && Const(f[0]) == pred
      requires FactNetwork.BelowClosed(rules, Elems(asserted), Elems(store))
      modifies this`output
      ensures Valid() && Elems(output) == old(Elems(output)) + Elems(store)
    {
      if |store| > 0 {
        MergeIsUnion(output, store);
        output := MergeFactSets(output, store);
        forall f | f in output ensures Covered(HeadPredicates(rules), f) {
          assert f in Elems(output);
        }
      } else {
        assert Elems(store) == {};
      }
    }

    /** Every forwarder fires once more, on the finished engine. `engine` is what the engine
        has derived; its contract is to be the least model of the asserted facts. The output
        is then exactly the part of that model whose predicate some rule has in its head:
        facts forwarded earlier, from smaller inputs, are all among them. */
    method Forward(engine: seq<Fact>)
      requires Valid() && IsLeastModel(rules, Elems(asserted), Elems(engine))
      modifies this`output
      ensures Valid()
      ensures forall f :: f in output <==>
        f in engine && f != [] && exists r :: r in rules && r.head != [] && r.head[0] == Const(f[0])
    {
      var preds := HeadPredicates(rules);
      ghost var before := Elems(output);
      EarlierIsCovered(output, engine, preds);
      for k := 0 to |preds|
        invariant Valid()
        invariant Elems(output) == before + Derived(engine, preds[..k])
      {
        var facts := OfPredicate(engine, preds[k]);
        StoreIsDerived(engine, preds, k);
        ForwardOne(preds[k], facts);
      }
      assert preds[..|preds|] == preds;
      HeadPredicatesExact(rules);
      assert forall f :: f in output <==> f in Elems(output);
    }
  }

  /** The facts of `engine` with one of these predicates. */
  ghost function Derived(engine: seq<Fact>, preds: seq<Term>): set<Fact> {
    set f | f in engine && Covered(preds, f)
  }

  lemma EarlierIsCovered(output: seq<Fact>, engine: seq<Fact>, preds: seq<Term>)
    requires Elems(output) <= Elems(engine) && forall f :: f in output ==> Covered(preds, f)
    ensures Elems(output) <= Derived(engine, preds)
  {
    forall f | f in Elems(output) ensures f in engine && Covered(preds, f) {
      assert f in Elems(engine);
    }
  }

  /** What a store holds in the end, and what is forwarded with it. */
  lemma StoreIsDerived(engine: seq<Fact>, preds: seq<Term>, k: nat)
    requires k < |preds|
    ensures var store := OfPredicate(engine, preds[k]);
      && Derived(engine, preds[..k + 1]) == Derived(engine, preds[..k]) + Elems(store)
      && Elems(store) <= Elems(engine)
      && forall f :: f in store ==> f != [] && Const(f[0]) == preds[k]
  {
    var store := OfPredicate(engine, preds[k]);
    CoveredByOneMore(engine, preds, k);
    OfPredicateElems(engine, preds[k]);
    forall f | f in store ensures f != [] && Const(f[0]) == preds[k] {
      assert f in Elems(store);
    }
  }

  lemma {:induction false} NothingCounted(lists: seq<seq<Fact>>)
    requires forall i :: 0 <= i < |lists| ==> lists[i] == []
    ensures CountOf(lists) == multiset{}
  {
    if lists != [] { NothingCounted(lists[..|lists| - 1]); }
  }

  /** A forwarder that fires while the engine is still deriving: its predicate and what its
      store holds by then. */
  datatype Early = Early(pred: Term, store: seq<Fact>)

  ghost predicate EarlyFirings(rules: seq<Rule>, edb: set<Fact>, early: seq<Early>) {
    forall e :: e in early ==>
      && e.pred in HeadPredicates(rules)
      && (forall f :: f in e.store ==> f != [] && Const(f[0]) == e.pred)
      && FactNetwork.BelowClosed(rules, edb, Elems(e.store))
  }

  /** Incremental agrees with batch: after any history of updates and partial runs, one
      run of the bridge and of the forwarders, some of which may have fired on unfinished
      stores before, leaves in the output exactly the head-predicate facts of the least
      model of everything in the input cells. */
  method RunToQuiescence(k: Kiroshi, early: seq<Early>, engine: seq<Fact>, batch: seq<Fact>)
    requires k.Valid() && Positive(k.rules)
    requires EarlyFirings(k.rules, AllFacts(k.cells), early)
    requires IsLeastModel(k.rules, AllFacts(k.cells), Elems(engine))
    requires IsLeastModel(k.rules, AllFacts(k.cells), Elems(batch))
    modifies k
    ensures k.Valid() && k.cells == old(k.cells)
    ensures forall f :: f in k.output <==>
      f in batch && f != [] && exists r :: r in k.rules && r.head != [] && r.head[0] == Const(f[0])
  {
    k.Bridge();
    for i := 0 to |early|
      invariant k.Valid() && k.cells == old(k.cells) && Elems(k.asserted) == AllFacts(k.cells)
    {
      assert early[i] in early;
      k.ForwardOne(early[i].pred, early[i].store);
    }
    k.Forward(engine);
    LeastModelUnique(k.rules, AllFacts(k.cells), Elems(engine), Elems(batch));
    assert forall f :: f in engine <==> f in Elems(engine);
    assert forall f :: f in batch <==> f in Elems(batch);
  }
}
