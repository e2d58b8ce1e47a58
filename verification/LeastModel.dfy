// The fixpoint loop of the extended evaluator and its meaning: it terminates on
// every program, and on stratified range-restricted programs its result is the
// least model, whatever the order of rules and facts.
module LeastModel {
  import opened Common
  import opened LogicProgram

  // ---- The resolver against the declarative reading ----

  /** Every emitted fact is the head under a valuation that makes the body hold.
      No condition on the rule is needed. */
  lemma {:induction false} ResolverSound(head: seq<Term>, premises: seq<Literal>, facts: seq<Fact>, d: Dict, f: Fact)
    returns (s: Valuation)
    requires Resolved(d) && Yields(head, premises, facts, d, f)
    ensures Respects(s, d)
    ensures HoldsAll(premises, Elems(facts), Elems(facts), s)
    ensures f == EvTuple(s, head)
    decreases Size(premises)
  {
    if premises == [] {
      s := x => if x in d && d[x].Const? then d[x].v else Bool(false);
      return;
    }
    var first, rest := premises[0], premises[1..];
    match first {
      case Pred(v, test) =>
        s := ResolverSound(head, rest, facts, d, f);
        ApplyValue(d, v, s);
      case Or(branches) =>
        var i :| 0 <= i < |branches| && Yields(head, branches[i].literals + rest, facts, d, f);
        ChooseBranchSmaller(premises, i);
        s := ResolverSound(head, branches[i].literals + rest, facts, d, f);
        HoldsAppend(branches[i].literals, rest, Elems(facts), Elems(facts), s);
      case And(parts) =>
        FlattenSmaller(premises);
        s := ResolverSound(head, parts + rest, facts, d, f);
        HoldsAppend(parts, rest, Elems(facts), Elems(facts), s);
      case NegFact(template) =>
        s := ResolverSound(head, rest, facts, d, f);
        ApplyTupleValue(d, template, s);
      case Atom(ts) =>
        if IsEq(first) {
          var u := UnifyTerms(d, ts[1], ts[2]).value;
          UnifyTermsExact(d, ts[1], ts[2], _ => Bool(false));
          s := ResolverSound(head, rest, facts, u, f);
          UnifyTermsExact(d, ts[1], ts[2], s);
        } else if IsNeq(first) {
          s := ResolverSound(head, rest, facts, d, f);
          ApplyValue(d, ts[1], s);
          ApplyValue(d, ts[2], s);
        } else {
          var i :| 0 <= i < |facts| && MatchYields(head, premises, facts, d, f, i);
          var u := UnifyPremise(d, ts, facts[i]).value;
          UnifyPremiseExact(d, ts, facts[i], _ => Bool(false));
          s := ResolverSound(head, rest, facts, u, f);
          UnifyPremiseExact(d, ts, facts[i], s);
        }
    }
  }

  lemma ApplyValue(d: Dict, t: Term, s: Valuation)
    requires Respects(s, d)
    ensures Ev(s, Apply(d, t)) == Ev(s, t)
  {
  }

  lemma ApplyTupleValue(d: Dict, ts: seq<Term>, s: Valuation)
    requires Respects(s, d)
    ensures IsGround(ApplyTuple(d, ts)) ==> AsFact(ApplyTuple(d, ts)) == EvTuple(s, ts)
  {
    if IsGround(ApplyTuple(d, ts)) {
      forall i | 0 <= i < |ts| ensures AsFact(ApplyTuple(d, ts))[i] == EvTuple(s, ts)[i] {
        ApplyValue(d, ts[i], s);
        assert ApplyTuple(d, ts)[i].Const?;
      }
    }
  }

  lemma {:induction false} HoldsAppend(a: seq<Literal>, b: seq<Literal>, pos: set<Fact>, neg: set<Fact>, s: Valuation)
    ensures HoldsAll(a + b, pos, neg, s) <==> HoldsAll(a, pos, neg, s) && HoldsAll(b, pos, neg, s)
  {
    if a == [] {
      assert a + b == b;
    } else {
      assert (a + b)[1..] == a[1..] + b;
      HoldsAppend(a[1..], b, pos, neg, s);
    }
  }

  // ---- Range restriction ----

  function VarsOf(t: Term): set<string> {
    if t.Var? then {t.name} else {}
  }

  function VarsIn(ts: seq<Term>): set<string> {
    set i | 0 <= i < |ts| && ts[i].Var? :: ts[i].name
  }

  /** Stands for any constant. */
  const MARK: Scalar := Bool(true)

  function Marked(t: Term): Term {
    if t.Const? then Const(MARK) else t
  }

  function MarkedTuple(ts: seq<Term>): seq<Term> {
    seq(|ts|, i requires 0 <= i < |ts| => Marked(ts[i]))
  }

  /** A fact of `n` marks. */
  function Marks(n: nat): Fact {
    seq(n, _ => MARK)
  }

  /** What is bound and what is linked, without the values. */
  function Outline(d: Dict): Dict {
    map x | x in d :: Marked(d[x])
  }

  /** Reading left to right with the outline of the bindings: every variable of a test
      (Pred, Neq, NegFact) and of the head has a value by the time it is needed. An
      equality of two variables without values links them, so that both get a value with
      the first. Nothing but the rule decides this. */
  ghost predicate RangeRestricted(head: seq<Term>, premises: seq<Literal>, o: Dict)
    decreases Size(premises)
  {
    if premises == [] then IsGround(ApplyTuple(o, head))
    else
      var first, rest := premises[0], premises[1..];
      match first
      case Pred(v, _) => Apply(o, v).Const? && RangeRestricted(head, rest, o)
      case Or(branches) =>
        forall i :: 0 <= i < |branches| ==>
          (ChooseBranchSmaller(premises, i); RangeRestricted(head, branches[i].literals + rest, o))
      case And(parts) =>
        FlattenSmaller(premises);
        RangeRestricted(head, parts + rest, o)
      case NegFact(template) => IsGround(ApplyTuple(o, template)) && RangeRestricted(head, rest, o)
      case Atom(ts) =>
        if IsEq(first) then
          var u := UnifyTerms(o, Marked(ts[1]), Marked(ts[2]));
          u.Some? ==> RangeRestricted(head, rest, u.value)
        else if IsNeq(first) then
          Apply(o, ts[1]).Const? && Apply(o, ts[2]).Const? && RangeRestricted(head, rest, o)
        else
          var u := UnifyPremise(o, MarkedTuple(ts), Marks(|ts|));
          u.Some? ==> RangeRestricted(head, rest, u.value)
  }

  lemma OutlineApply(d: Dict, t: Term)
    ensures Apply(Outline(d), Marked(t)) == Marked(Apply(d, t))
    ensures Apply(Outline(d), t).Const? <==> Apply(d, t).Const?
  {
  }

  lemma OutlineGround(d: Dict, ts: seq<Term>)
    ensures IsGround(ApplyTuple(Outline(d), ts)) <==> IsGround(ApplyTuple(d, ts))
  {
    forall i | 0 <= i < |ts| ensures ApplyTuple(Outline(d), ts)[i].Const? <==> ApplyTuple(d, ts)[i].Const? {
      OutlineApply(d, ts[i]);
    }
  }

  /** Unification of outlines is the outline of unification. */
  lemma OutlineUnify(d: Dict, a: Term, b: Term)
    requires UnifyTerms(d, a, b).Some?
    ensures UnifyTerms(Outline(d), Marked(a), Marked(b)) == Some(Outline(UnifyTerms(d, a, b).value))
  {
    OutlineApply(d, a);
    OutlineApply(d, b);
    var a', b' := Apply(d, a), Apply(d, b);
    if a' != b' {
      if a'.Var? { OutlineBind(d, a'.name, b'); } else { OutlineBind(d, b'.name, a'); }
    }
  }

  lemma OutlineBind(d: Dict, x: string, t: Term)
    ensures Bind(Outline(d), x, Marked(t)) == Outline(Bind(d, x, t))
  {
  }

  lemma {:induction false} OutlineFrom(d: Dict, ts: seq<Term>, f: Fact, i: nat)
    requires i <= |ts| == |f| && UnifyFrom(d, ts, f, i).Some?
    ensures UnifyFrom(Outline(d), MarkedTuple(ts), Marks(|ts|), i) == Some(Outline(UnifyFrom(d, ts, f, i).value))
    decreases |ts| - i
  {
    if i < |ts| {
      OutlineUnify(d, ts[i], Const(f[i]));
      OutlineFrom(UnifyTerms(d, ts[i], Const(f[i])).value, ts, f, i + 1);
    }
  }

  /** A range-restricted rule emits its head for every valuation that makes its body hold. */
  lemma {:induction false} ResolverComplete(head: seq<Term>, premises: seq<Literal>, facts: seq<Fact>, d: Dict,
                                            s: Valuation)
    requires Resolved(d) && Respects(s, d) && RangeRestricted(head, premises, Outline(d))
    requires HoldsAll(premises, Elems(facts), Elems(facts), s)
    ensures Yields(head, premises, facts, d, EvTuple(s, head))
    decreases Size(premises)
  {
    if premises == [] {
      OutlineGround(d, head);
      ApplyTupleValue(d, head, s);
      return;
    }
    var first, rest := premises[0], premises[1..];
    match first {
      case Pred(v, test) =>
        OutlineApply(d, v);
        ApplyValue(d, v, s);
        ResolverComplete(head, rest, facts, d, s);
      case Or(branches) =>
        var i :| 0 <= i < |branches| && HoldsAll(branches[i].literals, Elems(facts), Elems(facts), s);
        ChooseBranchSmaller(premises, i);
        HoldsAppend(branches[i].literals, rest, Elems(facts), Elems(facts), s);
        ResolverComplete(head, branches[i].literals + rest, facts, d, s);
      case And(parts) =>
        FlattenSmaller(premises);
        HoldsAppend(parts, rest, Elems(facts), Elems(facts), s);
        ResolverComplete(head, parts + rest, facts, d, s);
      case NegFact(template) =>
        OutlineGround(d, template);
        ApplyTupleValue(d, template, s);
        ResolverComplete(head, rest, facts, d, s);
      case Atom(ts) =>
        if IsEq(first) {
          UnifyTermsExact(d, ts[1], ts[2], s);
          OutlineUnify(d, ts[1], ts[2]);
          ResolverComplete(head, rest, facts, UnifyTerms(d, ts[1], ts[2]).value, s);
        } else if IsNeq(first) {
          OutlineApply(d, ts[1]);
          OutlineApply(d, ts[2]);
          ApplyValue(d, ts[1], s);
          ApplyValue(d, ts[2], s);
          ResolverComplete(head, rest, facts, d, s);
        } else {
          var i :| 0 <= i < |facts| && facts[i] == EvTuple(s, ts);
          UnifyPremiseExact(d, ts, facts[i], s);
          OutlineFrom(d, ts, facts[i], 0);
          ResolverComplete(head, rest, facts, UnifyPremise(d, ts, facts[i]).value, s);
          assert MatchYields(head, premises, facts, d, EvTuple(s, head), i);
        }
    }
  }

  // ---- Rules of plain atoms ----

  /** The dictionary gives every variable of `bound` a value. */
  ghost predicate Binds(d: Dict, bound: set<string>) {
    forall x :: x in bound ==> x in d && d[x].Const?
  }

  lemma {:induction false} UnifyFromBinds(d: Dict, ts: seq<Term>, f: Fact, i: nat, bound: set<string>)
    requires Resolved(d) && Binds(d, bound) && i <= |ts| == |f| && UnifyFrom(d, ts, f, i).Some?
    ensures Resolved(UnifyFrom(d, ts, f, i).value)
    ensures Binds(UnifyFrom(d, ts, f, i).value, bound + VarsIn(ts[i..]))
    decreases |ts| - i
  {
    if i < |ts| {
      var d' := UnifyTerms(d, ts[i], Const(f[i])).value;
      UnifyTermsExact(d, ts[i], Const(f[i]), _ => Bool(false));
      UnifyFromBinds(d', ts, f, i + 1, bound + VarsOf(ts[i]));
      forall x | x in VarsIn(ts[i..]) ensures x in VarsOf(ts[i]) || x in VarsIn(ts[i + 1..]) {
        var k :| 0 <= k < |ts[i..]| && ts[i..][k].Var? && ts[i..][k].name == x;
        if k > 0 { assert ts[i + 1..][k - 1] == ts[i..][k]; }
      }
    } else {
      assert ts[i..] == [];
    }
  }

  predicate IsPlain(l: Literal) {
    l.Atom? && !IsEq(l) && !IsNeq(l)
  }

  ghost function VarsOfAtoms(body: seq<Literal>): set<string> {
    if body == [] then {} else (if body[0].Atom? then VarsIn(body[0].terms) else {}) + VarsOfAtoms(body[1..])
  }

  /** A rule over database atoms is range restricted if its head variables occur in them. */
  lemma {:induction false} AtomsRestricted(head: seq<Term>, premises: seq<Literal>, o: Dict, bound: set<string>)
    requires Resolved(o) && Binds(o, bound) && VarsIn(head) <= bound + VarsOfAtoms(premises)
    requires forall i :: 0 <= i < |premises| ==> IsPlain(premises[i])
    ensures RangeRestricted(head, premises, o)
    decreases |premises|
  {
    if premises == [] {
      forall i | 0 <= i < |head| ensures ApplyTuple(o, head)[i].Const? {
        if head[i].Var? { assert head[i].name in VarsIn(head); }
      }
    } else {
      var ts := premises[0].terms;
      var u := UnifyPremise(o, MarkedTuple(ts), Marks(|ts|));
      if u.Some? {
        UnifyFromBinds(o, MarkedTuple(ts), Marks(|ts|), 0, bound);
        assert MarkedTuple(ts)[0..] == MarkedTuple(ts);
        forall x | x in VarsIn(ts) ensures x in VarsIn(MarkedTuple(ts)) {
          var k :| 0 <= k < |ts| && ts[k].Var? && ts[k].name == x;
          assert MarkedTuple(ts)[k] == ts[k];
        }
        AtomsRestricted(head, premises[1..], u.value, bound + VarsIn(ts));
      }
    }
  }

  /** An equality read before either side has a value links both sides:
      q(Y) :- X = Y, p(X) is range restricted. */
  lemma EqualityLinks()
    ensures Safe([Rule([Const(Str("q")), Var("Y")],
                       [Atom([Const(Str("=")), Var("X"), Var("Y")]), Atom([Const(Str("p")), Var("X")])])])
  {
    var head := [Const(Str("q")), Var("Y")];
    var body := [Atom([Const(Str("=")), Var("X"), Var("Y")]), Atom([Const(Str("p")), Var("X")])];
    var p := [Const(Str("p")), Var("X")];
    var linked: Dict := map["X" := Var("Y")];
    var bound: Dict := map["X" := Const(MARK), "Y" := Const(MARK)];
    assert "p" != "=" && "p" != "!=";
    assert UnifyTerms(map[], Var("X"), Var("Y")) == Some(linked);
    assert Bind(linked, "Y", Const(MARK)) == bound;
    assert UnifyTerms(linked, Var("X"), Const(MARK)) == Some(bound);
    assert MarkedTuple(p) == [Const(MARK), Var("X")];
    assert UnifyFrom(linked, MarkedTuple(p), Marks(2), 2 - 1) == Some(bound);
    assert UnifyPremise(linked, MarkedTuple(p), Marks(2)) == Some(bound);
    assert IsGround(ApplyTuple(bound, head));
    assert body[1..][1..] == [];
    assert RangeRestricted(head, body[1..], linked);
    assert RangeRestricted(head, body, map[]);
  }

  // ---- The finite base that bounds the fixpoint loop ----

  function ConstsOf(ts: seq<Term>): set<Scalar> {
    set i | 0 <= i < |ts| && ts[i].Const? :: ts[i].v
  }

  function ScalarsOf(f: Fact): set<Scalar> {
    set i | 0 <= i < |f| :: f[i]
  }

  function ConstsOfBody(body: seq<Literal>): set<Scalar>
    decreases body, 0
  {
    if body == [] then {} else ConstsOfLiteral(body[0]) + ConstsOfBody(body[1..])
  }

  function ConstsOfLiteral(l: Literal): set<Scalar>
    decreases l, 1
  {
    match l
    case Atom(ts) => ConstsOf(ts)
    case Or(branches) => ConstsOfBranches(branches)
    case And(parts) => ConstsOfBody(parts)
    case Pred(_, _) => {}
    case NegFact(_) => {}
  }

  function ConstsOfBranches(branches: seq<Branch>): set<Scalar>
    decreases branches, 0
  {
    if branches == [] then {} else ConstsOfBody(branches[0].literals) + ConstsOfBranches(branches[1..])
  }

  lemma {:induction false} ConstsOfAppend(a: seq<Literal>, b: seq<Literal>)
    ensures ConstsOfBody(a + b) == ConstsOfBody(a) + ConstsOfBody(b)
  {
    if a == [] {
      assert a + b == b;
    } else {
      assert (a + b)[1..] == a[1..] + b;
      ConstsOfAppend(a[1..], b);
    }
  }

  lemma {:induction false} ConstsOfBranch(branches: seq<Branch>, i: nat)
    requires i < |branches|
    ensures ConstsOfBody(branches[i].literals) <= ConstsOfBranches(branches)
  {
    if i > 0 {
      ConstsOfBranch(branches[1..], i - 1);
    }
  }

  /** All tuples of length `n` over `c`. */
  function Tuples(c: set<Scalar>, n: nat): set<Fact> {
    if n == 0 then {[]} else set v, t | v in c && t in Tuples(c, n - 1) :: [v] + t
  }

  lemma {:induction false} TuplesComplete(c: set<Scalar>, f: Fact)
    requires ScalarsOf(f) <= c
    ensures f in Tuples(c, |f|)
  {
    if f != [] {
      assert f[0] in ScalarsOf(f);
      forall v | v in ScalarsOf(f[1..]) ensures v in c {
        var i :| 0 <= i < |f[1..]| && f[1..][i] == v;
        assert f[i + 1] in ScalarsOf(f);
      }
      TuplesComplete(c, f[1..]);
      assert f == [f[0]] + f[1..];
    } else {
      assert f == [];
    }
  }

  ghost predicate RangeWithin(d: Dict, c: set<Scalar>) {
    forall x :: x in d && d[x].Const? ==> d[x].v in c
  }

  lemma {:induction false} UnifyFromWithin(d: Dict, ts: seq<Term>, f: Fact, i: nat, c: set<Scalar>)
    requires RangeWithin(d, c) && ConstsOf(ts) <= c && ScalarsOf(f) <= c
    requires i <= |ts| == |f| && UnifyFrom(d, ts, f, i).Some?
    ensures RangeWithin(UnifyFrom(d, ts, f, i).value, c)
    decreases |ts| - i
  {
    if i < |ts| {
      assert f[i] in ScalarsOf(f);
      assert ts[i].Const? ==> ts[i].v in ConstsOf(ts);
      UnifyFromWithin(UnifyTerms(d, ts[i], Const(f[i])).value, ts, f, i + 1, c);
    }
  }

  /** The resolver invents no scalar: its facts are tuples over the scalars at hand. */
  lemma {:induction false} ResolverWithin(head: seq<Term>, premises: seq<Literal>, facts: seq<Fact>, d: Dict,
                                          f: Fact, c: set<Scalar>)
    requires Yields(head, premises, facts, d, f)
    requires RangeWithin(d, c) && ConstsOf(head) <= c && ConstsOfBody(premises) <= c
    requires forall g :: g in facts ==> ScalarsOf(g) <= c
    ensures f in Tuples(c, |head|)
    decreases Size(premises)
  {
    if premises == [] {
      forall v | v in ScalarsOf(f) ensures v in c {
        var i :| 0 <= i < |f| && f[i] == v;
        assert ApplyTuple(d, head)[i] == Const(v);
        assert head[i].Const? ==> head[i].v in ConstsOf(head);
      }
      TuplesComplete(c, f);
      return;
    }
    var first, rest := premises[0], premises[1..];
    match first {
      case Pred(_, _) => ResolverWithin(head, rest, facts, d, f, c);
      case NegFact(_) => ResolverWithin(head, rest, facts, d, f, c);
      case Or(branches) =>
        var i :| 0 <= i < |branches| && Yields(head, branches[i].literals + rest, facts, d, f);
        ChooseBranchSmaller(premises, i);
        ConstsOfBranch(branches, i);
        ConstsOfAppend(branches[i].literals, rest);
        ResolverWithin(head, branches[i].literals + rest, facts, d, f, c);
      case And(parts) =>
        FlattenSmaller(premises);
        ConstsOfAppend(parts, rest);
        ResolverWithin(head, parts + rest, facts, d, f, c);
      case Atom(ts) =>
        if IsEq(first) {
          assert forall k :: 0 <= k < |ts| && ts[k].Const? ==> ts[k].v in ConstsOf(ts);
          ResolverWithin(head, rest, facts, UnifyTerms(d, ts[1], ts[2]).value, f, c);
        } else if IsNeq(first) {
          ResolverWithin(head, rest, facts, d, f, c);
        } else {
          var i :| 0 <= i < |facts| && MatchYields(head, premises, facts, d, f, i);
          UnifyFromWithin(d, ts, facts[i], 0, c);
          ResolverWithin(head, rest, facts, UnifyPremise(d, ts, facts[i]).value, f, c);
        }
    }
  }

  function ConstsOfRules(rules: seq<Rule>): set<Scalar> {
    if rules == [] then {}
    else ConstsOf(rules[0].head) + ConstsOfBody(rules[0].body) + ConstsOfRules(rules[1..])
  }

  function ScalarsOfAll(facts: seq<Fact>): set<Scalar> {
    set i, k | 0 <= i < |facts| && 0 <= k < |facts[i]| :: facts[i][k]
  }

  function HeadTuples(c: set<Scalar>, rules: seq<Rule>): set<Fact> {
    if rules == [] then {} else Tuples(c, |rules[0].head|) + HeadTuples(c, rules[1..])
  }

  /** Everything that may ever be present: the given facts and the head instances over
      the scalars of the facts and the rules. */
  function Base(rules: seq<Rule>, edb: seq<Fact>): set<Fact> {
    Elems(edb) + HeadTuples(ConstsOfRules(rules) + ScalarsOfAll(edb), rules)
  }

  lemma {:induction false} ConstsOfOneRule(rules: seq<Rule>, i: nat)
    requires i < |rules|
    ensures ConstsOf(rules[i].head) + ConstsOfBody(rules[i].body) <= ConstsOfRules(rules)
  {
    if i > 0 { ConstsOfOneRule(rules[1..], i - 1); }
  }

  lemma {:induction false} HeadTuplesOfOneRule(c: set<Scalar>, rules: seq<Rule>, i: nat)
    requires i < |rules|
    ensures Tuples(c, |rules[i].head|) <= HeadTuples(c, rules)
  {
    if i > 0 { HeadTuplesOfOneRule(c, rules[1..], i - 1); }
  }

  lemma {:induction false} TuplesScalars(c: set<Scalar>, n: nat, f: Fact)
    requires f in Tuples(c, n)
    ensures ScalarsOf(f) <= c
  {
    if n > 0 {
      var v, t :| v in c && t in Tuples(c, n - 1) && f == [v] + t;
      TuplesScalars(c, n - 1, t);
      forall x | x in ScalarsOf(f) ensures x in c {
        var i :| 0 <= i < |f| && f[i] == x;
        if i > 0 { assert t[i - 1] in ScalarsOf(t); }
      }
    }
  }

  lemma {:induction false} HeadTuplesScalars(c: set<Scalar>, rules: seq<Rule>, f: Fact)
    requires f in HeadTuples(c, rules)
    ensures ScalarsOf(f) <= c
  {
    if f in Tuples(c, |rules[0].head|) {
      TuplesScalars(c, |rules[0].head|, f);
    } else {
      HeadTuplesScalars(c, rules[1..], f);
    }
  }

  /** One rule applied to facts of the base yields facts of the base. */
  lemma BaseClosed(rules: seq<Rule>, edb: seq<Fact>, i: nat, facts: seq<Fact>, f: Fact)
    requires i < |rules| && Elems(facts) <= Base(rules, edb)
    requires Yields(rules[i].head, rules[i].body, facts, map[], f)
    ensures f in Base(rules, edb)
  {
    var c := ConstsOfRules(rules) + ScalarsOfAll(edb);
    forall g | g in facts ensures ScalarsOf(g) <= c {
      assert g in Elems(facts);
      if g in Elems(edb) {
        var k :| 0 <= k < |edb| && edb[k] == g;
        assert forall v :: v in ScalarsOf(g) ==> v in ScalarsOfAll(edb);
      } else {
        HeadTuplesScalars(c, rules, g);
      }
    }
    ConstsOfOneRule(rules, i);
    ResolverWithin(rules[i].head, rules[i].body, facts, map[], f, c);
    HeadTuplesOfOneRule(c, rules, i);
  }

  // ---- The fixpoint loop ----

  /** `f` is emitted by some rule from the given facts. */
  ghost predicate Derivable(rules: seq<Rule>, facts: seq<Fact>, f: Fact) {
    exists i :: 0 <= i < |rules| && Yields(rules[i].head, rules[i].body, facts, map[], f)
  }

  /** Every fact after position `n` was derived by a rule from the first `n` facts and
      some of the facts found after them. */
  ghost predicate Founded(rules: seq<Rule>, all: seq<Fact>, n: nat) {
    forall i :: n <= i < |all| ==> FoundedAt(rules, all, n, i)
  }

  ghost predicate FoundedAt(rules: seq<Rule>, all: seq<Fact>, n: nat, i: nat)
    requires i < |all|
  {
    exists k :: n <= k <= i && Derivable(rules, all[..k], all[i])
  }

  /** The facts after position `n` are new when they are added. */
  ghost predicate Fresh(all: seq<Fact>, n: nat) {
    forall i :: n <= i < |all| ==> all[i] !in all[..i]
  }

  /** One pass over the rules; every rule sees what the rules before it added. */
  method Step(rules: seq<Rule>, edb: seq<Fact>, start: seq<Fact>) returns (all: seq<Fact>, changed: bool)
    requires edb <= start && Elems(start) <= Base(rules, edb)
    requires Founded(rules, start, |edb|) && Fresh(start, |edb|)
    ensures start <= all && Elems(all) <= Base(rules, edb)
    ensures Founded(rules, all, |edb|) && Fresh(all, |edb|)
    ensures changed <==> Elems(start) < Elems(all)
    ensures !changed ==> all == start && forall f :: Derivable(rules, start, f) ==> f in start
  {
    all, changed := start, false;
    for i := 0 to |rules|
      invariant start <= all && Elems(all) <= Base(rules, edb)
      invariant Founded(rules, all, |edb|) && Fresh(all, |edb|)
      invariant changed <==> Elems(start) < Elems(all)
      invariant !changed ==> all == start
      invariant !changed ==> forall f, k ::
        0 <= k < i && Yields(rules[k].head, rules[k].body, start, map[], f) ==> f in start
    {
      var derived := ResolveExtended(rules[i].head, rules[i].body, all, map[]);
      ghost var seen := all;
      forall f | f in derived ensures f in Base(rules, edb) && Derivable(rules, seen, f) {
        BaseClosed(rules, edb, i, seen, f);
      }
      for j := 0 to |derived|
        invariant start <= all && edb <= seen <= all && Elems(all) <= Base(rules, edb)
        invariant Founded(rules, all, |edb|) && Fresh(all, |edb|)
        invariant changed <==> Elems(start) < Elems(all)
        invariant !changed ==> all == seen == start && forall k :: 0 <= k < j ==> derived[k] in start
      {
        var all', added := AddIfNew(all, derived[j]);
        if added {
          AppendFounded(rules, all, derived[j], |edb|, seen);
          assert Elems(all') == Elems(all) + {derived[j]};
          assert derived[j] !in Elems(start);
          changed := true;
        }
        all := all';
      }
    }
  }

  lemma AppendFounded(rules: seq<Rule>, all: seq<Fact>, f: Fact, n: nat, seen: seq<Fact>)
    requires Founded(rules, all, n) && Fresh(all, n) && n <= |all|
    requires n <= |seen| && seen <= all && Derivable(rules, seen, f) && f !in all
    ensures Founded(rules, all + [f], n) && Fresh(all + [f], n)
  {
    var all' := all + [f];
    forall i | n <= i < |all'| ensures FoundedAt(rules, all', n, i) {
      if i < |all| {
        assert FoundedAt(rules, all, n, i);
        var k :| n <= k <= i && Derivable(rules, all[..k], all[i]);
        assert all'[..k] == all[..k];
      } else {
        assert all'[..|seen|] == seen;
      }
    }
    forall i | n <= i < |all'| ensures all'[i] !in all'[..i] {
      if i < |all| { assert all'[..i] == all[..i]; } else { assert all'[..i] == all; }
    }
  }

  lemma ShrinkingRest(base: set<Fact>, a: set<Fact>, b: set<Fact>)
    requires a < b <= base
    ensures |base - b| < |base - a|
  {
    SubsetCardinality(base - b, base - a);
    assert base - b != base - a by {
      var f :| f in b && f !in a;
    }
  }

  // ---- Stratification ----

  /** No instance of `a` is an instance of `b`; two templates of different predicates are
      the usual case. */
  predicate Apart(a: seq<Term>, b: seq<Term>) {
    |a| != |b| || exists i :: 0 <= i < |a| && a[i].Const? && b[i].Const? && a[i] != b[i]
  }

  ghost predicate NegationApart(body: seq<Literal>, head: seq<Term>)
    decreases body, 0
  {
    body == [] || (LiteralApart(body[0], head) && NegationApart(body[1..], head))
  }

  ghost predicate LiteralApart(l: Literal, head: seq<Term>)
    decreases l, 1
  {
    match l
    case NegFact(template) => Apart(template, head)
    case Or(branches) => forall i :: 0 <= i < |branches| ==> NegationApart(branches[i].literals, head)
    case And(parts) => NegationApart(parts, head)
    case _ => true
  }

  /** No negated template can be derived by the program itself. */
  ghost predicate Stratified(rules: seq<Rule>) {
    forall r, r' :: r in rules && r' in rules ==> NegationApart(r.body, r'.head)
  }

  ghost predicate Safe(rules: seq<Rule>) {
    forall r :: r in rules ==> RangeRestricted(r.head, r.body, map[])
  }

  /** `b` differs from `a` only in instances of rule heads. */
  ghost predicate SameButHeads(rules: seq<Rule>, a: set<Fact>, b: set<Fact>) {
    forall f :: (f in a) != (f in b) ==> HeadInstance(rules, f)
  }

  ghost predicate HeadInstance(rules: seq<Rule>, f: Fact) {
    exists r, s: Valuation :: r in rules && f == EvTuple(s, r.head)
  }

  lemma ApartInstances(a: seq<Term>, b: seq<Term>, s: Valuation, s': Valuation)
    requires Apart(a, b)
    ensures EvTuple(s, a) != EvTuple(s', b)
  {
    if |a| == |b| {
      var i :| 0 <= i < |a| && a[i].Const? && b[i].Const? && a[i] != b[i];
      assert EvTuple(s, a)[i] != EvTuple(s', b)[i];
    }
  }

  lemma {:induction false} HoldsIgnoresHeads(rules: seq<Rule>, body: seq<Literal>, pos: set<Fact>,
                                             neg: set<Fact>, neg': set<Fact>, s: Valuation)
    requires SameButHeads(rules, neg, neg')
    requires forall r :: r in rules ==> NegationApart(body, r.head)
    ensures HoldsAll(body, pos, neg, s) <==> HoldsAll(body, pos, neg', s)
    decreases body, 0
  {
    if body != [] {
      assert forall r :: r in rules ==> LiteralApart(body[0], r.head) && NegationApart(body[1..], r.head);
      LiteralIgnoresHeads(rules, body[0], pos, neg, neg', s);
      HoldsIgnoresHeads(rules, body[1..], pos, neg, neg', s);
    }
  }

  lemma {:induction false} LiteralIgnoresHeads(rules: seq<Rule>, l: Literal, pos: set<Fact>,
                                               neg: set<Fact>, neg': set<Fact>, s: Valuation)
    requires SameButHeads(rules, neg, neg')
    requires forall r :: r in rules ==> LiteralApart(l, r.head)
    ensures Holds(l, pos, neg, s) <==> Holds(l, pos, neg', s)
    decreases l, 1
  {
    match l {
      case NegFact(template) =>
        var f := EvTuple(s, template);
        if HeadInstance(rules, f) {
          var r, s': Valuation :| r in rules && f == EvTuple(s', r.head);
          ApartInstances(template, r.head, s, s');
        }
      case Or(branches) =>
        forall i | 0 <= i < |branches|
          ensures HoldsAll(branches[i].literals, pos, neg, s) <==> HoldsAll(branches[i].literals, pos, neg', s)
        {
          HoldsIgnoresHeads(rules, branches[i].literals, pos, neg, neg', s);
        }
      case And(parts) => HoldsIgnoresHeads(rules, parts, pos, neg, neg', s);
      case _ =>
    }
  }

  /** A body that holds keeps holding when positive facts are added. */
  lemma {:induction false} HoldsMonotone(body: seq<Literal>, pos: set<Fact>, pos': set<Fact>, neg: set<Fact>,
                                         s: Valuation)
    requires pos <= pos' && HoldsAll(body, pos, neg, s)
    ensures HoldsAll(body, pos', neg, s)
    decreases body, 0
  {
    if body != [] {
      LiteralMonotone(body[0], pos, pos', neg, s);
      HoldsMonotone(body[1..], pos, pos', neg, s);
    }
  }

  lemma {:induction false} LiteralMonotone(l: Literal, pos: set<Fact>, pos': set<Fact>, neg: set<Fact>, s: Valuation)
    requires pos <= pos' && Holds(l, pos, neg, s)
    ensures Holds(l, pos', neg, s)
    decreases l, 1
  {
    match l {
      case Or(branches) =>
        var i :| 0 <= i < |branches| && HoldsAll(branches[i].literals, pos, neg, s);
        HoldsMonotone(branches[i].literals, pos, pos', neg, s);
      case And(parts) => HoldsMonotone(parts, pos, pos', neg, s);
      case _ =>
    }
  }

  // ---- Least model ----

  lemma DerivableSound(rules: seq<Rule>, facts: seq<Fact>, f: Fact) returns (r: Rule, s: Valuation)
    requires Derivable(rules, facts, f)
    ensures r in rules && f == EvTuple(s, r.head)
    ensures HoldsAll(r.body, Elems(facts), Elems(facts), s)
  {
    var i :| 0 <= i < |rules| && Yields(rules[i].head, rules[i].body, facts, map[], f);
    r := rules[i];
    s := ResolverSound(r.head, r.body, facts, map[], f);
  }

  /** Facts found by the loop are head instances, except the given ones. */
  lemma FoundedSameButHeads(rules: seq<Rule>, edb: seq<Fact>, all: seq<Fact>)
    requires edb <= all && Founded(rules, all, |edb|)
    ensures SameButHeads(rules, Elems(edb), Elems(all))
  {
    forall f | (f in Elems(edb)) != (f in Elems(all)) ensures HeadInstance(rules, f) {
      assert forall g :: g in edb ==> g in all by {
        forall g | g in edb ensures g in all { var k :| 0 <= k < |edb| && edb[k] == g; assert all[k] == g; }
      }
      var i :| 0 <= i < |all| && all[i] == f;
      assert i >= |edb|;
      assert FoundedAt(rules, all, |edb|, i);
      var k :| |edb| <= k <= i && Derivable(rules, all[..k], all[i]);
      var r, s := DerivableSound(rules, all[..k], f);
    }
  }

  lemma PrefixFounded(rules: seq<Rule>, all: seq<Fact>, n: nat, k: nat)
    requires Founded(rules, all, n) && k <= |all|
    ensures Founded(rules, all[..k], n)
  {
    forall i | n <= i < k ensures FoundedAt(rules, all[..k], n, i) {
      assert FoundedAt(rules, all, n, i);
      var j :| n <= j <= i && Derivable(rules, all[..j], all[i]);
      assert all[..k][..j] == all[..j];
    }
  }

  /** Soundness of the loop: what it finds is in every closed set above the given facts. */
  lemma {:induction false} FoundedBelow(rules: seq<Rule>, edb: seq<Fact>, all: seq<Fact>, m: set<Fact>, n: nat)
    requires Stratified(rules) && edb <= all && Founded(rules, all, |edb|)
    requires Elems(edb) <= m && Closed(rules, m, Elems(edb))
    requires n <= |all|
    ensures Elems(all[..n]) <= m
  {
    if n > 0 {
      FoundedBelow(rules, edb, all, m, n - 1);
      var i := n - 1;
      assert all[..n] == all[..i] + [all[i]];
      if i < |edb| {
        assert all[i] == edb[i];
      } else {
        assert FoundedAt(rules, all, |edb|, i);
        var k :| |edb| <= k <= i && Derivable(rules, all[..k], all[i]);
        var r, s := DerivableSound(rules, all[..k], all[i]);
        assert Elems(all[..k]) <= Elems(all[..i]);
        PrefixFounded(rules, all, |edb|, k);
        FoundedSameButHeads(rules, edb, all[..k]);
        HoldsMonotone(r.body, Elems(all[..k]), m, Elems(all[..k]), s);
        HoldsIgnoresHeads(rules, r.body, m, Elems(edb), Elems(all[..k]), s);
      }
    }
  }

  /** Completeness of the loop: a saturated list is closed. */
  lemma SaturatedClosed(rules: seq<Rule>, edb: seq<Fact>, all: seq<Fact>)
    requires Stratified(rules) && Safe(rules) && edb <= all && Founded(rules, all, |edb|)
    requires forall f :: Derivable(rules, all, f) ==> f in all
    ensures Closed(rules, Elems(all), Elems(edb))
  {
    FoundedSameButHeads(rules, edb, all);
    forall r, s: Valuation | r in rules && HoldsAll(r.body, Elems(all), Elems(edb), s)
      ensures EvTuple(s, r.head) in Elems(all)
    {
      HoldsIgnoresHeads(rules, r.body, Elems(all), Elems(edb), Elems(all), s);
      assert Outline(map[]) == map[];
      ResolverComplete(r.head, r.body, all, map[], s);
      var i :| 0 <= i < |rules| && rules[i] == r;
      assert Derivable(rules, all, EvTuple(s, r.head));
    }
  }

  /** Any result the loop can end with is the least model, and a model of its own
      negations. */
  lemma LoopResultIsLeastModel(rules: seq<Rule>, edb: seq<Fact>, all: seq<Fact>)
    requires Stratified(rules) && Safe(rules)
    requires edb <= all && Founded(rules, all, |edb|)
    requires forall f :: Derivable(rules, all, f) ==> f in all
    ensures IsLeastModel(rules, Elems(edb), Elems(all))
    ensures Closed(rules, Elems(all), Elems(all))
  {
    SaturatedClosed(rules, edb, all);
    assert Elems(edb) <= Elems(all) by {
      forall g | g in edb ensures g in all { var k :| 0 <= k < |edb| && edb[k] == g; assert all[k] == g; }
    }
    forall m: set<Fact> | Elems(edb) <= m && Closed(rules, m, Elems(edb)) ensures Elems(all) <= m {
      FoundedBelow(rules, edb, all, m, |all|);
      assert all[..|all|] == all;
    }
    FoundedSameButHeads(rules, edb, all);
    forall r, s: Valuation | r in rules && HoldsAll(r.body, Elems(all), Elems(all), s)
      ensures EvTuple(s, r.head) in Elems(all)
    {
      HoldsIgnoresHeads(rules, r.body, Elems(all), Elems(edb), Elems(all), s);
    }
  }

  lemma LeastModelUnique(rules: seq<Rule>, edb: set<Fact>, m: set<Fact>, m': set<Fact>)
    requires IsLeastModel(rules, edb, m) && IsLeastModel(rules, edb, m')
    ensures m == m'
  {
    assert Closed(rules, m', edb);
    assert Closed(rules, m, edb);
  }

  /** The order and repetition of rules and of facts do not matter: the least model
      depends on their sets only. */
  lemma LeastModelOfSets(rules: seq<Rule>, rules': seq<Rule>, edb: seq<Fact>, edb': seq<Fact>, m: set<Fact>,
                         m': set<Fact>)
    requires forall r :: r in rules <==> r in rules'
    requires Elems(edb) == Elems(edb')
    requires IsLeastModel(rules, Elems(edb), m) && IsLeastModel(rules', Elems(edb'), m')
    ensures m == m'
  {
    assert Closed(rules, m', Elems(edb));
    assert Closed(rules', m, Elems(edb));
  }

  /** The loop ends on every finite program, unstratified negation included, in a list
      that extends the given facts, repeats nothing it added, contains every emitted
      fact, and added only facts derived from earlier ones. On a stratified, range-restricted
      program that list is the least model, and a model of its own negated atoms. */
  method EvaluateExtendedNaive(rules: seq<Rule>, edb: seq<Fact>) returns (all: seq<Fact>)
    ensures edb <= all
    ensures Founded(rules, all, |edb|) && Fresh(all, |edb|)
    ensures forall f :: Derivable(rules, all, f) ==> f in all
    ensures Elems(all) <= Base(rules, edb)
    ensures Stratified(rules) && Safe(rules) ==>
      IsLeastModel(rules, Elems(edb), Elems(all)) && Closed(rules, Elems(all), Elems(all))
  {
    all := edb;
    var changed := true;
    while changed
      invariant edb <= all && Elems(all) <= Base(rules, edb)
      invariant Founded(rules, all, |edb|) && Fresh(all, |edb|)
      invariant !changed ==> forall f :: Derivable(rules, all, f) ==> f in all
      decreases |Base(rules, edb) - Elems(all)| + if changed then 1 else 0
    {
      ghost var before := all;
      all, changed := Step(rules, edb, all);
      if changed {
        ShrinkingRest(Base(rules, edb), Elems(before), Elems(all));
      }
    }
    if Stratified(rules) && Safe(rules) {
      LoopResultIsLeastModel(rules, edb, all);
    }
  }

  // ---- Choosing an engine ----

  predicate RequiresExtended(l: Literal)
    decreases l, 1
  {
    match l
    case Pred(_, _) => true
    case NegFact(_) => true
    case Or(branches) => exists i :: 0 <= i < |branches| && SomeRequiresExtended(branches[i].literals)
    case And(parts) => SomeRequiresExtended(parts)
    case Atom(_) => false
  }

  predicate SomeRequiresExtended(body: seq<Literal>)
    decreases body, 0
  {
    body != [] && (RequiresExtended(body[0]) || SomeRequiresExtended(body[1..]))
  }

  predicate HasExtendedAtoms(rules: seq<Rule>) {
    exists i :: 0 <= i < |rules| && SomeRequiresExtended(rules[i].body)
  }

  /** `x` is the literal or written somewhere inside it. */
  ghost predicate Inside(x: Literal, l: Literal)
    decreases l, 1
  {
    x == l || match l
      case Or(branches) => exists i :: 0 <= i < |branches| && InsideSome(x, branches[i].literals)
      case And(parts) => InsideSome(x, parts)
      case _ => false
  }

  ghost predicate InsideSome(x: Literal, body: seq<Literal>)
    decreases body, 0
  {
    exists i :: 0 <= i < |body| && Inside(x, body[i])
  }

  /** A built-in test or a negated fact is written somewhere in the program. */
  ghost predicate WritesTest(rules: seq<Rule>) {
    exists r, x: Literal :: r in rules && InsideSome(x, r.body) && (x.Pred? || x.NegFact?)
  }

  lemma {:induction false} RequiresExtendedExact(l: Literal)
    ensures RequiresExtended(l) <==> exists x: Literal :: Inside(x, l) && (x.Pred? || x.NegFact?)
    decreases l, 1
  {
    match l {
      case Or(branches) =>
        forall i | 0 <= i < |branches|
          ensures SomeRequiresExtended(branches[i].literals) <==>
            exists x: Literal :: InsideSome(x, branches[i].literals) && (x.Pred? || x.NegFact?)
        {
          SomeRequiresExtendedExact(branches[i].literals);
        }
      case And(parts) => SomeRequiresExtendedExact(parts);
      case _ => assert Inside(l, l);
    }
  }

  lemma {:induction false} SomeRequiresExtendedExact(body: seq<Literal>)
    ensures SomeRequiresExtended(body) <==>
      exists x: Literal :: InsideSome(x, body) && (x.Pred? || x.NegFact?)
    decreases body, 0
  {
    if body != [] {
      RequiresExtendedExact(body[0]);
      SomeRequiresExtendedExact(body[1..]);
      forall x ensures InsideSome(x, body) <==> Inside(x, body[0]) || InsideSome(x, body[1..]) {
        InsideCons(x, body);
      }
    }
  }

  lemma InsideCons(x: Literal, body: seq<Literal>)
    requires body != []
    ensures InsideSome(x, body) <==> Inside(x, body[0]) || InsideSome(x, body[1..])
  {
    assert forall i :: 0 < i < |body| ==> body[i] == body[1..][i - 1];
  }

  /** Such programs, and no others, are kept from the library engines. */
  lemma ExtendedExact(rules: seq<Rule>)
    ensures HasExtendedAtoms(rules) <==> WritesTest(rules)
  {
    if HasExtendedAtoms(rules) {
      var i :| 0 <= i < |rules| && SomeRequiresExtended(rules[i].body);
      SomeRequiresExtendedExact(rules[i].body);
      assert rules[i] in rules;
    }
    if r, x: Literal :| r in rules && InsideSome(x, r.body) && (x.Pred? || x.NegFact?) {
      SomeRequiresExtendedExact(r.body);
    }
  }

  predicate NegationFree(body: seq<Literal>)
    decreases body, 0
  {
    body == [] || (LiteralNegationFree(body[0]) && NegationFree(body[1..]))
  }

  predicate LiteralNegationFree(l: Literal)
    decreases l, 1
  {
    match l
    case NegFact(_) => false
    case Or(branches) => forall i :: 0 <= i < |branches| ==> NegationFree(branches[i].literals)
    case And(parts) => NegationFree(parts)
    case _ => true
  }

  predicate Positive(rules: seq<Rule>) {
    forall i :: 0 <= i < |rules| ==> NegationFree(rules[i].body)
  }

  lemma {:induction false} PlainIsStandard(body: seq<Literal>)
    requires forall i :: 0 <= i < |body| ==> IsPlain(body[i])
    ensures !SomeRequiresExtended(body)
  {
    if body != [] { PlainIsStandard(body[1..]); }
  }

  lemma {:induction false} StandardBody(body: seq<Literal>)
    requires !SomeRequiresExtended(body)
    ensures NegationFree(body)
    decreases body, 0
  {
    if body != [] {
      StandardLiteral(body[0]);
      StandardBody(body[1..]);
    }
  }

  lemma {:induction false} StandardLiteral(l: Literal)
    requires !RequiresExtended(l)
    ensures LiteralNegationFree(l)
    decreases l, 1
  {
    match l {
      case Or(branches) =>
        forall i | 0 <= i < |branches| ensures NegationFree(branches[i].literals) {
          StandardBody(branches[i].literals);
        }
      case And(parts) => StandardBody(parts);
      case _ =>
    }
  }

  lemma {:induction false} PositiveApart(body: seq<Literal>, head: seq<Term>)
    requires NegationFree(body)
    ensures NegationApart(body, head)
    decreases body, 0
  {
    if body != [] {
      PositiveLiteralApart(body[0], head);
      PositiveApart(body[1..], head);
    }
  }

  lemma {:induction false} PositiveLiteralApart(l: Literal, head: seq<Term>)
    requires LiteralNegationFree(l)
    ensures LiteralApart(l, head)
    decreases l, 1
  {
    match l {
      case Or(branches) =>
        forall i | 0 <= i < |branches| ensures NegationApart(branches[i].literals, head) {
          PositiveApart(branches[i].literals, head);
        }
      case And(parts) => PositiveApart(parts, head);
      case _ =>
    }
  }

  lemma PositiveStratified(rules: seq<Rule>)
    requires Positive(rules)
    ensures Stratified(rules)
  {
    forall r, r' | r in rules && r' in rules ensures NegationApart(r.body, r'.head) {
      PositiveApart(r.body, r'.head);
    }
  }

  /** Programs handed to the library engines contain no negation, hence one semantics
      serves all three strategies. */
  lemma StandardIsPositive(rules: seq<Rule>)
    requires !HasExtendedAtoms(rules)
    ensures Positive(rules)
  {
    forall i | 0 <= i < |rules| ensures NegationFree(rules[i].body) {
      StandardBody(rules[i].body);
    }
  }

  /** What the fixpoint loop promises of every program. */
  ghost predicate Evaluated(rules: seq<Rule>, edb: seq<Fact>, all: seq<Fact>) {
    && edb <= all && Founded(rules, all, |edb|) && Fresh(all, |edb|)
    && (forall f :: Derivable(rules, all, f) ==> f in all)
    && Elems(all) <= Base(rules, edb)
  }

  /** `engine` is what the library engine (semi-naive or naive) returns; its contract is
      to compute the least model of the safe standard programs it is given. */
  method EvaluateProgram(prog: Program, edb: seq<Fact>, engine: seq<Fact>) returns (all: seq<Fact>)
    requires !HasExtendedAtoms(prog.rules) && Safe(prog.rules) ==> IsLeastModel(prog.rules, Elems(edb), Elems(engine))
    ensures prog.strategy != Incremental && !WritesTest(prog.rules) ==> all == engine
    ensures prog.strategy == Incremental || WritesTest(prog.rules) ==> Evaluated(prog.rules, edb, all)
    ensures Safe(prog.rules) && Stratified(prog.rules) ==> IsLeastModel(prog.rules, Elems(edb), Elems(all))
  {
    var extended := HasExtendedAtoms(prog.rules);
    ExtendedExact(prog.rules);
    if prog.strategy == SemiNaive && !extended {
      return engine;
    }
    if prog.strategy == Naive && !extended {
      return engine;
    }
    all := EvaluateExtendedNaive(prog.rules, edb);
  }

  // ---- Monotonicity ----

  lemma {:induction false} NegationIrrelevant(body: seq<Literal>, pos: set<Fact>, neg: set<Fact>, neg': set<Fact>,
                                              s: Valuation)
    requires NegationFree(body)
    ensures HoldsAll(body, pos, neg, s) <==> HoldsAll(body, pos, neg', s)
    decreases body, 0
  {
    if body != [] {
      NegationIrrelevantHere(body[0], pos, neg, neg', s);
      NegationIrrelevant(body[1..], pos, neg, neg', s);
    }
  }

  lemma {:induction false} NegationIrrelevantHere(l: Literal, pos: set<Fact>, neg: set<Fact>, neg': set<Fact>,
                                                  s: Valuation)
    requires LiteralNegationFree(l)
    ensures Holds(l, pos, neg, s) <==> Holds(l, pos, neg', s)
    decreases l, 1
  {
    match l {
      case Or(branches) =>
        forall i | 0 <= i < |branches|
          ensures HoldsAll(branches[i].literals, pos, neg, s) <==> HoldsAll(branches[i].literals, pos, neg', s)
        {
          NegationIrrelevant(branches[i].literals, pos, neg, neg', s);
        }
      case And(parts) => NegationIrrelevant(parts, pos, neg, neg', s);
      case _ =>
    }
  }

  /** `f` is an instance of a negated template. */
  ghost predicate Negates(body: seq<Literal>, f: Fact)
    decreases body, 0
  {
    body != [] && (LiteralNegates(body[0], f) || Negates(body[1..], f))
  }

  ghost predicate LiteralNegates(l: Literal, f: Fact)
    decreases l, 1
  {
    match l
    case NegFact(template) => exists s: Valuation :: f == EvTuple(s, template)
    case Or(branches) => exists i :: 0 <= i < |branches| && Negates(branches[i].literals, f)
    case And(parts) => Negates(parts, f)
    case _ => false
  }

  ghost predicate RulesNegate(rules: seq<Rule>, f: Fact) {
    exists r :: r in rules && Negates(r.body, f)
  }

  /** A body does not notice added facts that match none of its negated templates. */
  lemma {:induction false} AddedUnnoticed(body: seq<Literal>, pos: set<Fact>, neg: set<Fact>, neg': set<Fact>,
                                          s: Valuation)
    requires HoldsAll(body, pos, neg, s)
    requires forall f :: f in neg' && f !in neg ==> !Negates(body, f)
    ensures HoldsAll(body, pos, neg', s)
    decreases body, 0
  {
    if body != [] {
      AddedUnnoticedHere(body[0], pos, neg, neg', s);
      AddedUnnoticed(body[1..], pos, neg, neg', s);
    }
  }

  lemma {:induction false} AddedUnnoticedHere(l: Literal, pos: set<Fact>, neg: set<Fact>, neg': set<Fact>, s: Valuation)
    requires Holds(l, pos, neg, s)
    requires forall f :: f in neg' && f !in neg ==> !LiteralNegates(l, f)
    ensures Holds(l, pos, neg', s)
    decreases l, 1
  {
    match l {
      case Or(branches) =>
        var i :| 0 <= i < |branches| && HoldsAll(branches[i].literals, pos, neg, s);
        AddedUnnoticed(branches[i].literals, pos, neg, neg', s);
      case And(parts) => AddedUnnoticed(parts, pos, neg, neg', s);
      case _ =>
    }
  }

  /** Least models grow with their facts unless a fact is added that a negation asks for. */
  lemma LeastModelGrows(rules: seq<Rule>, edb: set<Fact>, edb': set<Fact>, m: set<Fact>, m': set<Fact>)
    requires edb <= edb' && forall f :: f in edb' && f !in edb ==> !RulesNegate(rules, f)
    requires IsLeastModel(rules, edb, m) && IsLeastModel(rules, edb', m')
    ensures m <= m'
  {
    forall r, s: Valuation | r in rules && HoldsAll(r.body, m', edb, s) ensures EvTuple(s, r.head) in m' {
      AddedUnnoticed(r.body, m', edb, edb', s);
    }
  }

  /** Least models of negation-free programs grow with their facts. */
  lemma LeastModelMonotone(rules: seq<Rule>, edb: set<Fact>, edb': set<Fact>, m: set<Fact>, m': set<Fact>)
    requires Positive(rules) && edb <= edb'
    requires IsLeastModel(rules, edb, m) && IsLeastModel(rules, edb', m')
    ensures m <= m'
  {
    forall r, s: Valuation | r in rules && HoldsAll(r.body, m', edb, s) ensures EvTuple(s, r.head) in m' {
      NegationIrrelevant(r.body, m', edb, edb', s);
    }
  }
}
