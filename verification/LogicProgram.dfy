// The extended naive Datalog evaluator: what a rule body means, what the resolver
// computes for it, and why the fixpoint loop ends with exactly the least model.
module LogicProgram {
  import opened Common

  // ---- Data model ----

  /** Arguments of a fact; `===` on them is equality. */
  datatype Scalar = Str(s: string) | Num(n: int) | Bool(b: bool)

  type Fact = seq<Scalar>

  datatype Term = Var(name: string) | Const(v: Scalar)

  /** A body literal. An equality or an inequality is an atom of three terms whose
      first term is the string "=" or "!=". */
  datatype Literal =
    | Atom(terms: seq<Term>)
    | Or(branches: seq<Branch>)
    | And(parts: seq<Literal>)
    | Pred(variable: Term, test: Scalar -> bool)
    | NegFact(template: seq<Term>)

  /** One alternative of a disjunction: a list of literals. */
  datatype Branch = Branch(literals: seq<Literal>)

  datatype Rule = Rule(head: seq<Term>, body: seq<Literal>)

  datatype Strategy = SemiNaive | Naive | Incremental

  datatype Program = Program(rules: seq<Rule>, strategy: Strategy)

  predicate IsEq(l: Literal) {
    l.Atom? && |l.terms| == 3 && l.terms[0] == Const(Str("="))
  }

  predicate IsNeq(l: Literal) {
    l.Atom? && |l.terms| == 3 && l.terms[0] == Const(Str("!="))
  }

  // ---- Declarative reading ----

  /** A valuation gives every variable a value. */
  type Valuation = string -> Scalar

  function Ev(s: Valuation, t: Term): Scalar {
    match t
    case Var(x) => s(x)
    case Const(v) => v
  }

  function EvTuple(s: Valuation, ts: seq<Term>): Fact {
    seq(|ts|, i requires 0 <= i < |ts| => Ev(s, ts[i]))
  }

  /** Literal `l` holds under `s`: positive atoms are looked up in `pos`, negated
      templates in `neg`. */
  ghost predicate Holds(l: Literal, pos: set<Fact>, neg: set<Fact>, s: Valuation)
    decreases l, 1
  {
    match l
    case Atom(ts) =>
      if |ts| == 3 && ts[0] == Const(Str("=")) then Ev(s, ts[1]) == Ev(s, ts[2])
      else if |ts| == 3 && ts[0] == Const(Str("!=")) then Ev(s, ts[1]) != Ev(s, ts[2])
      else EvTuple(s, ts) in pos
    case Or(branches) => exists i :: 0 <= i < |branches| && HoldsAll(branches[i].literals, pos, neg, s)
    case And(parts) => HoldsAll(parts, pos, neg, s)
    case Pred(v, test) => test(Ev(s, v))
    case NegFact(template) => EvTuple(s, template) !in neg
  }

  ghost predicate HoldsAll(body: seq<Literal>, pos: set<Fact>, neg: set<Fact>, s: Valuation)
    decreases body, 0
  {
    body == [] || (Holds(body[0], pos, neg, s) && HoldsAll(body[1..], pos, neg, s))
  }

  /** `m` contains the head of every rule instance whose body holds. */
  ghost predicate Closed(rules: seq<Rule>, m: set<Fact>, neg: set<Fact>) {
    forall r, s: Valuation :: r in rules && HoldsAll(r.body, m, neg, s) ==> EvTuple(s, r.head) in m
  }

  /** `m` is the least set that contains `edb` and is closed under the rules, with
      negation read against `neg`. */
  ghost predicate LeastAbove(rules: seq<Rule>, edb: set<Fact>, neg: set<Fact>, m: set<Fact>) {
    && edb <= m
    && Closed(rules, m, neg)
    && forall m': set<Fact> :: edb <= m' && Closed(rules, m', neg) ==> m <= m'
  }

  /** The least model of a stratum: negation is closed-world over the given facts. */
  ghost predicate IsLeastModel(rules: seq<Rule>, edb: set<Fact>, m: set<Fact>) {
    LeastAbove(rules, edb, edb, m)
  }

  // ---- Substitutions ----

  /** Bindings are kept fully resolved: no variable is bound to a bound variable. */
  type Dict = map<string, Term>

  ghost predicate Resolved(d: Dict) {
    forall x :: x in d && d[x].Var? ==> d[x].name !in d
  }

  ghost predicate Respects(s: Valuation, d: Dict) {
    forall x :: x in d ==> s(x) == Ev(s, d[x])
  }

  function Apply(d: Dict, t: Term): Term {
    if t.Var? && t.name in d then d[t.name] else t
  }

  function ApplyTuple(d: Dict, ts: seq<Term>): seq<Term> {
    seq(|ts|, i requires 0 <= i < |ts| => Apply(d, ts[i]))
  }

  predicate IsGround(ts: seq<Term>) {
    forall i :: 0 <= i < |ts| ==> ts[i].Const?
  }

  function AsFact(ts: seq<Term>): Fact
    requires IsGround(ts)
  {
    seq(|ts|, i requires 0 <= i < |ts| => ts[i].v)
  }

  /** Bind the unbound variable `x`, replacing it in every earlier binding. */
  function Bind(d: Dict, x: string, t: Term): Dict {
    (map y | y in d :: if d[y] == Var(x) then t else d[y])[x := t]
  }

  function UnifyTerms(d: Dict, a: Term, b: Term): Option<Dict> {
    var a', b' := Apply(d, a), Apply(d, b);
    if a' == b' then Some(d)
    else if a'.Var? then Some(Bind(d, a'.name, b'))
    else if b'.Var? then Some(Bind(d, b'.name, a'))
    else None
  }

  function UnifyFrom(d: Dict, ts: seq<Term>, f: Fact, i: nat): Option<Dict>
    requires i <= |ts| == |f|
    decreases |ts| - i
  {
    if i == |ts| then Some(d)
    else match UnifyTerms(d, ts[i], Const(f[i]))
      case None => None
      case Some(d') => UnifyFrom(d', ts, f, i + 1)
  }

  function UnifyPremise(d: Dict, ts: seq<Term>, f: Fact): Option<Dict> {
    if |ts| != |f| then None else UnifyFrom(d, ts, f, 0)
  }

  /** A unifier describes exactly the valuations that make both sides equal. */
  lemma UnifyTermsExact(d: Dict, a: Term, b: Term, s: Valuation)
    requires Resolved(d)
    ensures var u := UnifyTerms(d, a, b);
      match u
      case None => Respects(s, d) ==> Ev(s, a) != Ev(s, b)
      case Some(d') => Resolved(d') && (Respects(s, d') <==> Respects(s, d) && Ev(s, a) == Ev(s, b))
  {
    var a', b' := Apply(d, a), Apply(d, b);
    assert Respects(s, d) ==> Ev(s, a') == Ev(s, a) && Ev(s, b') == Ev(s, b);
    if a' != b' {
      if a'.Var? {
        BindExact(d, a'.name, b', s);
        BoundValue(Bind(d, a'.name, b'), d, a'.name, b', a, s);
        BoundValue(Bind(d, a'.name, b'), d, a'.name, b', b, s);
      } else if b'.Var? {
        BindExact(d, b'.name, a', s);
        BoundValue(Bind(d, b'.name, a'), d, b'.name, a', a, s);
        BoundValue(Bind(d, b'.name, a'), d, b'.name, a', b, s);
      }
    }
  }

  lemma BindExact(d: Dict, x: string, t: Term, s: Valuation)
    requires Resolved(d) && x !in d && t != Var(x) && Apply(d, t) == t
    ensures Resolved(Bind(d, x, t))
    ensures Respects(s, Bind(d, x, t)) <==> Respects(s, d) && s(x) == Ev(s, t)
  {
    var e := Bind(d, x, t);
    assert t.Var? ==> t.name !in e;
    if Respects(s, e) {
      assert s(x) == Ev(s, e[x]);
      forall y | y in d ensures s(y) == Ev(s, d[y]) {
        assert s(y) == Ev(s, e[y]);
      }
    }
    if Respects(s, d) && s(x) == Ev(s, t) {
      forall y | y in e ensures s(y) == Ev(s, e[y]) {
        if y in d { assert s(y) == Ev(s, d[y]); }
      }
    }
  }

  /** After a binding, a term and its resolution before the binding agree. */
  lemma BoundValue(e: Dict, d: Dict, x: string, t: Term, a: Term, s: Valuation)
    requires x !in d && e == Bind(d, x, t)
    ensures Respects(s, e) ==> Ev(s, Apply(d, a)) == Ev(s, a)
  {
    if Respects(s, e) && a.Var? && a.name in d {
      assert s(x) == Ev(s, e[x]);
      assert s(a.name) == Ev(s, e[a.name]);
    }
  }

  lemma {:induction false} UnifyFromExact(d: Dict, ts: seq<Term>, f: Fact, i: nat, s: Valuation)
    requires Resolved(d) && i <= |ts| == |f|
    ensures var u := UnifyFrom(d, ts, f, i);
      match u
      case None => Respects(s, d) ==> exists k :: i <= k < |ts| && Ev(s, ts[k]) != f[k]
      case Some(d') =>
        && Resolved(d')
        && (Respects(s, d') <==> Respects(s, d) && forall k :: i <= k < |ts| ==> Ev(s, ts[k]) == f[k])
    decreases |ts| - i
  {
    if i < |ts| {
      UnifyTermsExact(d, ts[i], Const(f[i]), s);
      if UnifyTerms(d, ts[i], Const(f[i])).Some? {
        UnifyFromExact(UnifyTerms(d, ts[i], Const(f[i])).value, ts, f, i + 1, s);
      }
    }
  }

  /** Matching a premise against a fact keeps exactly the valuations that send the
      premise to that fact, and fails when there is none. */
  lemma UnifyPremiseExact(d: Dict, ts: seq<Term>, f: Fact, s: Valuation)
    requires Resolved(d)
    ensures var u := UnifyPremise(d, ts, f);
      match u
      case None => Respects(s, d) ==> EvTuple(s, ts) != f
      case Some(d') => Resolved(d') && (Respects(s, d') <==> Respects(s, d) && EvTuple(s, ts) == f)
  {
    if |ts| == |f| {
      UnifyFromExact(d, ts, f, 0, s);
      assert EvTuple(s, ts) == f <==> forall k :: 0 <= k < |ts| ==> EvTuple(s, ts)[k] == f[k];
    } else {
      assert |EvTuple(s, ts)| == |ts|;
    }
  }

  // ---- The resolver ----

  function Size(body: seq<Literal>): nat
    decreases body, 0
  {
    if body == [] then 0 else SizeOf(body[0]) + Size(body[1..])
  }

  function SizeOf(l: Literal): (n: nat)
    ensures n > 0
    decreases l, 1
  {
    match l
    case Or(branches) => 1 + SizeOfBranches(branches)
    case And(parts) => 1 + Size(parts)
    case _ => 1
  }

  function SizeOfBranches(branches: seq<Branch>): nat
    decreases branches, 0
  {
    if branches == [] then 0 else Size(branches[0].literals) + SizeOfBranches(branches[1..])
  }

  lemma {:induction false} SizeOfAppend(a: seq<Literal>, b: seq<Literal>)
    ensures Size(a + b) == Size(a) + Size(b)
  {
    if a == [] {
      assert a + b == b;
    } else {
      assert (a + b)[1..] == a[1..] + b;
      SizeOfAppend(a[1..], b);
    }
  }

  lemma {:induction false} SizeOfBranch(branches: seq<Branch>, i: nat)
    requires i < |branches|
    ensures Size(branches[i].literals) <= SizeOfBranches(branches)
  {
    if i > 0 {
      SizeOfBranch(branches[1..], i - 1);
    }
  }

  /** Choosing a branch of a leading disjunction makes the premises smaller. */
  lemma ChooseBranchSmaller(premises: seq<Literal>, i: nat)
    requires premises != [] && premises[0].Or? && i < |premises[0].branches|
    ensures Size(premises[0].branches[i].literals + premises[1..]) < Size(premises)
  {
    SizeOfBranch(premises[0].branches, i);
    SizeOfAppend(premises[0].branches[i].literals, premises[1..]);
  }

  /** So does flattening a leading conjunction. */
  lemma FlattenSmaller(premises: seq<Literal>)
    requires premises != [] && premises[0].And?
    ensures Size(premises[0].parts + premises[1..]) < Size(premises)
  {
    SizeOfAppend(premises[0].parts, premises[1..]);
  }

  /** The facts the resolver emits, as a relation that follows its case analysis. */
  ghost predicate Yields(head: seq<Term>, premises: seq<Literal>, facts: seq<Fact>, d: Dict, f: Fact)
    decreases Size(premises)
  {
    if premises == [] then
      IsGround(ApplyTuple(d, head)) && f == AsFact(ApplyTuple(d, head))
    else
      var first, rest := premises[0], premises[1..];
      match first
      case Pred(v, test) =>
        Apply(d, v).Const? && test(Apply(d, v).v) && Yields(head, rest, facts, d, f)
      case Or(branches) =>
        exists i :: 0 <= i < |branches| &&
          (ChooseBranchSmaller(premises, i); Yields(head, branches[i].literals + rest, facts, d, f))
      case And(parts) =>
        FlattenSmaller(premises);
        Yields(head, parts + rest, facts, d, f)
      case NegFact(template) =>
        var probe := ApplyTuple(d, template);
        IsGround(probe) && AsFact(probe) !in facts && Yields(head, rest, facts, d, f)
      case Atom(ts) =>
        if IsEq(first) then
          var u := UnifyTerms(d, ts[1], ts[2]);
          u.Some? && Yields(head, rest, facts, u.value, f)
        else if IsNeq(first) then
          var a, b := Apply(d, ts[1]), Apply(d, ts[2]);
          a.Const? && b.Const? && a != b && Yields(head, rest, facts, d, f)
        else
          exists i :: 0 <= i < |facts| && MatchYields(head, premises, facts, d, f, i)
  }

  /** The contribution of the i-th fact to a leading database atom. */
  ghost predicate MatchYields(head: seq<Term>, premises: seq<Literal>, facts: seq<Fact>, d: Dict, f: Fact, i: nat)
    requires premises != [] && premises[0].Atom? && i < |facts|
    decreases Size(premises), 0
  {
    var u := UnifyPremise(d, premises[0].terms, facts[i]);
    u.Some? && Yields(head, premises[1..], facts, u.value, f)
  }

  /** Some fact before position `n` contributes `f`. */
  ghost predicate MatchedBefore(head: seq<Term>, premises: seq<Literal>, facts: seq<Fact>, d: Dict, f: Fact, n: nat)
    requires premises != [] && premises[0].Atom? && n <= |facts|
  {
    exists i :: 0 <= i < n && MatchYields(head, premises, facts, d, f, i)
  }

  predicate FactEqual(a: Fact, b: Fact) {
    |a| == |b| && forall i :: 0 <= i < |a| ==> a[i] == b[i]
  }

  /** The list is searched for an equal fact. */
  method AddIfNew(known: seq<Fact>, f: Fact) returns (known': seq<Fact>, added: bool)
    ensures added <==> f !in known
    ensures known' == if added then known + [f] else known
    ensures Elems(known') == Elems(known) + {f} && (NoDup(known) ==> NoDup(known'))
  {
    for i := 0 to |known|
      invariant f !in known[..i]
    {
      if FactEqual(known[i], f) {
        assert known[i] == f;
        return known, false;
      }
      assert known[..i + 1] == known[..i] + [known[i]];
    }
    assert known[..|known|] == known;
    return known + [f], true;
  }

  method ResolveExtended(head: seq<Term>, premises: seq<Literal>, facts: seq<Fact>, d: Dict)
    returns (results: seq<Fact>)
    ensures forall f :: f in results <==> Yields(head, premises, facts, d, f)
    decreases Size(premises)
  {
    results := [];
    if premises == [] {
      var result := ApplyTuple(d, head);
      return if IsGround(result) then [AsFact(result)] else [];
    }
    var first, rest := premises[0], premises[1..];
    match first {
      case Pred(v, test) =>
        var val := Apply(d, v);
        if val.Const? && test(val.v) {
          results := ResolveExtended(head, rest, facts, d);
        }
      case Or(branches) =>
        for i := 0 to |branches|
          invariant forall f :: f in results <==>
            exists j :: 0 <= j < i && Yields(head, branches[j].literals + rest, facts, d, f)
        {
          ChooseBranchSmaller(premises, i);
          var derived := ResolveExtended(head, branches[i].literals + rest, facts, d);
          ghost var before := results;
          for k := 0 to |derived|
            invariant forall f :: f in results <==> f in before || f in derived[..k]
          {
            var known', _ := AddIfNew(results, derived[k]);
            results := known';
          }
          assert derived[..|derived|] == derived;
        }
      case And(parts) =>
        FlattenSmaller(premises);
        results := ResolveExtended(head, parts + rest, facts, d);
      case NegFact(template) =>
        var probe := ApplyTuple(d, template);
        if IsGround(probe) && AsFact(probe) !in facts {
          results := ResolveExtended(head, rest, facts, d);
        }
      case Atom(ts) =>
        if IsEq(first) {
          var u := UnifyTerms(d, ts[1], ts[2]);
          if u.Some? {
            results := ResolveExtended(head, rest, facts, u.value);
          }
        } else if IsNeq(first) {
          var a, b := Apply(d, ts[1]), Apply(d, ts[2]);
          if a.Const? && b.Const? && a != b {
            results := ResolveExtended(head, rest, facts, d);
          }
        } else {
          for i := 0 to |facts|
            invariant forall f :: f in results <==> MatchedBefore(head, premises, facts, d, f, i)
          {
            var u := UnifyPremise(d, ts, facts[i]);
            var derived: seq<Fact> := [];
            if u.Some? {
              derived := ResolveExtended(head, rest, facts, u.value);
            }
            assert forall f :: f in derived <==> MatchYields(head, premises, facts, d, f, i);
            results := results + derived;
          }
        }
    }
  }
}
