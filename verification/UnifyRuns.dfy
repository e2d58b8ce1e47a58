// Exactly when a run of the unifier ends. It has no occurs check and does not notice that it
// comes back to where it was: it runs forever precisely then.
module UnifyRuns {
  import opened Common
  import opened Unification

  /** Two resolved terms and the bindings under which they meet. */
  type Meeting = (Term, Term, Subst)

  /** Within depth `n`, the run meets two compound terms below themselves, with the same
      bindings. `path` holds the meetings it is inside of. */
  ghost predicate Repeats(n: nat, l: Term, r: Term, s: Subst, path: set<Meeting>)
    requires Proper(s) && Plain(l) && Plain(r)
    decreases n, 0
  {
    n > 0 &&
    (RootPlain(l, s);
     RootPlain(r, s);
     var a, b := Root(l, s), Root(r, s);
     if a.LVar? || b.LVar? then false
     else match Parts(a, b)
       case None => false
       case Some(pairs) =>
         PartsPlain(a, b);
         (a, b, s) in path || PairsRepeat(n - 1, pairs, s, path + {(a, b, s)}))
  }

  ghost predicate PairsRepeat(n: nat, pairs: seq<Pair>, s: Subst, path: set<Meeting>)
    requires Proper(s) && PlainPairs(pairs)
    decreases n, |pairs|
  {
    pairs != [] &&
    (Repeats(n, pairs[0].0, pairs[0].1, s, path) ||
     match Unify(n, pairs[0].0, pairs[0].1, s)
     case Ends(Some(s')) => PairsRepeat(n, pairs[1..], s', path)
     case _ => false)
  }

  lemma {:induction false} RepeatsDeeper(n: nat, m: nat, l: Term, r: Term, s: Subst, path: set<Meeting>)
    requires n <= m && Proper(s) && Plain(l) && Plain(r) && Repeats(n, l, r, s, path)
    ensures Repeats(m, l, r, s, path)
    decreases n, 0
  {
    RootPlain(l, s);
    RootPlain(r, s);
    var a, b := Root(l, s), Root(r, s);
    PartsPlain(a, b);
    if (a, b, s) !in path {
      PairsRepeatDeeper(n - 1, m - 1, Parts(a, b).value, s, path + {(a, b, s)});
    }
  }

  lemma {:induction false} PairsRepeatDeeper(n: nat, m: nat, pairs: seq<Pair>, s: Subst, path: set<Meeting>)
    requires n <= m && Proper(s) && PlainPairs(pairs) && PairsRepeat(n, pairs, s, path)
    ensures PairsRepeat(m, pairs, s, path)
    decreases n, |pairs|
  {
    if Repeats(n, pairs[0].0, pairs[0].1, s, path) {
      RepeatsDeeper(n, m, pairs[0].0, pairs[0].1, s, path);
    } else {
      var u := Unify(n, pairs[0].0, pairs[0].1, s);
      UnifyDeeper(n, m, pairs[0].0, pairs[0].1, s);
      PairsRepeatDeeper(n, m, pairs[1..], u.value.value, path);
    }
  }

  // ---- A run that ends repeats nothing ----

  /** The meeting does not end within depth `n`. */
  ghost predicate NotWithin(n: nat, q: Meeting) {
    Proper(q.2) && Plain(q.0) && Plain(q.1) && !Unify(n, q.0, q.1, q.2).Ends?
  }

  lemma {:induction false} NoneWithin(n: nat, m: nat, path: set<Meeting>)
    requires m <= n && forall q :: q in path ==> NotWithin(n, q)
    ensures forall q :: q in path ==> NotWithin(m, q)
  {
    forall q | q in path ensures NotWithin(m, q) {
      if Unify(m, q.0, q.1, q.2).Ends? { UnifyDeeper(m, n, q.0, q.1, q.2); }
    }
  }

  /** Resolved terms are met like the terms themselves. */
  lemma RootsMeetAlike(n: nat, l: Term, r: Term, s: Subst)
    requires Proper(s) && Plain(l) && Plain(r)
    ensures Plain(Root(l, s)) && Plain(Root(r, s)) && Unify(n, Root(l, s), Root(r, s), s) == Unify(n, l, r, s)
  {
    RootPlain(l, s);
    RootPlain(r, s);
    assert Root(Root(l, s), s) == Root(l, s) && Root(Root(r, s), s) == Root(r, s);
  }

  lemma {:induction false} EndingNeverRepeats(n: nat, m: nat, l: Term, r: Term, s: Subst, path: set<Meeting>)
    requires Proper(s) && Plain(l) && Plain(r) && Unify(n, l, r, s).Ends?
    requires forall q :: q in path ==> NotWithin(n, q)
    ensures !Repeats(m, l, r, s, path)
    decreases n, 0, 0
  {
    RootsMeetAlike(n, l, r, s);
    RootsMeetAlike(n - 1, l, r, s);
    var a, b := Root(l, s), Root(r, s);
    NoneWithin(n, n - 1, path);
    if Unify(n - 1, l, r, s).Ends? {
      EndingNeverRepeats(n - 1, m, l, r, s, path);
    } else if m > 0 && !a.LVar? && !b.LVar? && Parts(a, b).Some? {
      PartsPlain(a, b);
      assert NotWithin(n - 1, (a, b, s));
      PairsNeverRepeat(n - 1, m - 1, Parts(a, b).value, s, path + {(a, b, s)});
    }
  }

  lemma {:induction false} PairsNeverRepeat(n: nat, m: nat, pairs: seq<Pair>, s: Subst, path: set<Meeting>)
    requires Proper(s) && PlainPairs(pairs) && UnifyPairs(n, pairs, s).Ends?
    requires forall q :: q in path ==> NotWithin(n, q)
    ensures !PairsRepeat(m, pairs, s, path)
    decreases n, 1, |pairs|
  {
    if pairs != [] {
      var (x, y) := pairs[0];
      EndingNeverRepeats(n, m, x, y, s, path);
      var u := Unify(m, x, y, s);
      if u.Ends? && u.value.Some? {
        UnifyDeeper(if n < m then n else m, if n < m then m else n, x, y, s);
        PairsNeverRepeat(n, m, pairs[1..], u.value.value, path);
      }
    }
  }

  // ---- A run that repeats nothing ends ----

  ghost function Subterms(t: Term): set<Term> {
    match t
    case Arr(items) => {t} + SubtermsOfItems(items)
    case Obj(fields) => {t} + SubtermsOfFields(fields)
    case _ => {t}
  }

  ghost function SubtermsOfItems(items: seq<Term>): set<Term> {
    if items == [] then {} else Subterms(items[0]) + SubtermsOfItems(items[1..])
  }

  ghost function SubtermsOfFields(fields: seq<Field>): set<Term> {
    if fields == [] then {} else Subterms(fields[0].term) + SubtermsOfFields(fields[1..])
  }

  /** With a compound term, its components are in the set. */
  ghost predicate HasParts(terms: set<Term>, t: Term) {
    match t
    case Arr(items) => forall i :: 0 <= i < |items| ==> items[i] in terms
    case Obj(fields) => forall i :: 0 <= i < |fields| ==> fields[i].term in terms
    case _ => true
  }

  ghost predicate Universe(terms: set<Term>, s: Subst) {
    (forall t :: t in terms ==> HasParts(terms, t)) && forall v :: v in s ==> s[v] in terms
  }

  lemma {:induction false} SubtermsClosed(t: Term)
    ensures t in Subterms(t) && forall u :: u in Subterms(t) ==> HasParts(Subterms(t), u)
  {
    match t {
      case Arr(items) => ItemSubtermsClosed(items);
      case Obj(fields) => FieldSubtermsClosed(fields);
      case _ =>
    }
  }

  lemma {:induction false} ItemSubtermsClosed(items: seq<Term>)
    ensures forall i :: 0 <= i < |items| ==> items[i] in SubtermsOfItems(items)
    ensures forall u :: u in SubtermsOfItems(items) ==> HasParts(SubtermsOfItems(items), u)
  {
    if items != [] {
      SubtermsClosed(items[0]);
      ItemSubtermsClosed(items[1..]);
      assert forall i :: 0 < i < |items| ==> items[i] == items[1..][i - 1];
    }
  }

  lemma {:induction false} FieldSubtermsClosed(fields: seq<Field>)
    ensures forall i :: 0 <= i < |fields| ==> fields[i].term in SubtermsOfFields(fields)
    ensures forall u :: u in SubtermsOfFields(fields) ==> HasParts(SubtermsOfFields(fields), u)
  {
    if fields != [] {
      SubtermsClosed(fields[0].term);
      FieldSubtermsClosed(fields[1..]);
      assert forall i :: 0 < i < |fields| ==> fields[i] == fields[1..][i - 1];
    }
  }

  /** All terms a run on these terms and bindings can meet. */
  ghost function TermsOf(l: Term, r: Term, s: Subst): set<Term> {
    Subterms(l) + Subterms(r) + set v, t | v in s && t in Subterms(s[v]) :: t
  }

  lemma TermsOfUniverse(l: Term, r: Term, s: Subst)
    ensures Universe(TermsOf(l, r, s), s) && l in TermsOf(l, r, s) && r in TermsOf(l, r, s)
  {
    var terms := TermsOf(l, r, s);
    SubtermsClosed(l);
    SubtermsClosed(r);
    forall v | v in s ensures s[v] in terms && Subterms(s[v]) <= terms { SubtermsClosed(s[v]); }
    forall t | t in terms ensures HasParts(terms, t) {
      if t in Subterms(l) { MoreParts(Subterms(l), terms, t); }
      else if t in Subterms(r) { MoreParts(Subterms(r), terms, t); }
      else {
        var v :| v in s && t in Subterms(s[v]);
        SubtermsClosed(s[v]);
        MoreParts(Subterms(s[v]), terms, t);
      }
    }
  }

  lemma MoreParts(few: set<Term>, terms: set<Term>, t: Term)
    requires few <= terms && HasParts(few, t)
    ensures HasParts(terms, t)
  {
  }

  ghost predicate PairsIn(pairs: seq<Pair>, terms: set<Term>) {
    forall p :: p in pairs ==> p.0 in terms && p.1 in terms
  }

  lemma {:induction false} RootIn(t: Term, s: Subst, terms: set<Term>)
    requires Acyclic(s) && Universe(terms, s) && t in terms
    ensures Root(t, s) in terms
    decreases if t.LVar? && t.id in s then RankOf(s)(t.id) + 1 else 0
  {
    if t.LVar? && t.id in s { RootIn(s[t.id], s, terms); }
  }

  lemma PartsIn(a: Term, b: Term, s: Subst, terms: set<Term>)
    requires Universe(terms, s) && a in terms && b in terms && Parts(a, b).Some?
    ensures PairsIn(Parts(a, b).value, terms)
  {
    assert HasParts(terms, a) && HasParts(terms, b);
  }

  /** The universe is not left. */
  lemma {:induction false} UnifyKeepsUniverse(n: nat, l: Term, r: Term, s: Subst, terms: set<Term>)
    requires Proper(s) && Plain(l) && Plain(r) && Universe(terms, s) && l in terms && r in terms
    ensures var u := Unify(n, l, r, s); u.Ends? && u.value.Some? ==> Universe(terms, u.value.value)
    decreases n, 0
  {
    RootPlain(l, s);
    RootPlain(r, s);
    RootIn(l, s, terms);
    RootIn(r, s, terms);
    var a, b := Root(l, s), Root(r, s);
    if n > 0 && !a.LVar? && !b.LVar? && Parts(a, b).Some? {
      PartsPlain(a, b);
      PartsIn(a, b, s, terms);
      PairsKeepUniverse(n - 1, Parts(a, b).value, s, terms);
    }
  }

  lemma {:induction false} PairsKeepUniverse(n: nat, pairs: seq<Pair>, s: Subst, terms: set<Term>)
    requires Proper(s) && PlainPairs(pairs) && Universe(terms, s) && PairsIn(pairs, terms)
    ensures var u := UnifyPairs(n, pairs, s); u.Ends? && u.value.Some? ==> Universe(terms, u.value.value)
    decreases n, |pairs|
  {
    if pairs != [] {
      assert pairs[0] in pairs;
      UnifyKeepsUniverse(n, pairs[0].0, pairs[0].1, s, terms);
      var u := Unify(n, pairs[0].0, pairs[0].1, s);
      if u.Ends? && u.value.Some? { PairsKeepUniverse(n, pairs[1..], u.value.value, terms); }
    }
  }

  /** Pairs of terms that the run is not inside of, with the present bindings. */
  ghost function Unmet(terms: set<Term>, s: Subst, path: set<Meeting>): set<(Term, Term)> {
    set a, b | a in terms && b in terms && (a, b, s) !in path :: (a, b)
  }

  lemma FewerUnmet(terms: set<Term>, s: Subst, path: set<Meeting>, a: Term, b: Term)
    requires a in terms && b in terms && (a, b, s) !in path
    ensures |Unmet(terms, s, path + {(a, b, s)})| < |Unmet(terms, s, path)|
  {
    var more, fewer := Unmet(terms, s, path), Unmet(terms, s, path + {(a, b, s)});
    assert (a, b) in more && (a, b) !in fewer;
    SubsetCardinality(fewer, more);
  }

  /** What the run is about: the terms and variables it can meet. */
  ghost predicate InScope(l: Term, r: Term, s: Subst, terms: set<Term>, vars: set<int>) {
    && Proper(s) && Plain(l) && Plain(r)
    && Universe(terms, s) && l in terms && r in terms
    && Within(s, vars) && VarsOf(l) <= vars && VarsOf(r) <= vars
  }

  ghost predicate PairsInScope(pairs: seq<Pair>, s: Subst, terms: set<Term>, vars: set<int>) {
    && Proper(s) && PlainPairs(pairs)
    && Universe(terms, s) && PairsIn(pairs, terms)
    && Within(s, vars) && PairsWithin(pairs, vars)
  }

  ghost predicate EndsOrRepeatsAt(n: nat, l: Term, r: Term, s: Subst, path: set<Meeting>)
    requires Proper(s) && Plain(l) && Plain(r)
  {
    Unify(n, l, r, s).Ends? || Repeats(n, l, r, s, path)
  }

  ghost predicate PairsEndOrRepeatAt(n: nat, pairs: seq<Pair>, s: Subst, path: set<Meeting>)
    requires Proper(s) && PlainPairs(pairs)
  {
    UnifyPairs(n, pairs, s).Ends? || PairsRepeat(n, pairs, s, path)
  }

  /** At least `free` variables are bound more, or at most `unmet` meetings are left. */
  ghost predicate Left(s: Subst, terms: set<Term>, vars: set<int>, path: set<Meeting>, free: nat, unmet: nat) {
    |vars - s.Keys| < free || (|vars - s.Keys| == free && |Unmet(terms, s, path)| <= unmet)
  }

  lemma DescendsInScope(l: Term, r: Term, s: Subst, terms: set<Term>, vars: set<int>)
    requires InScope(l, r, s, terms, vars) && Descends(l, r, s)
    ensures PairsInScope(Parts(Root(l, s), Root(r, s)).value, s, terms, vars)
    ensures Root(l, s) in terms && Root(r, s) in terms
  {
    RootPlain(l, s);
    RootPlain(r, s);
    RootIn(l, s, terms);
    RootIn(r, s, terms);
    RootWithin(l, s, vars);
    RootWithin(r, s, vars);
    PartsPlain(Root(l, s), Root(r, s));
    PartsIn(Root(l, s), Root(r, s), s, terms);
    PartsWithin(Root(l, s), Root(r, s), vars);
  }

  /** `pairs` are the parts of the two terms, and `deeper` is the path inside their meeting. */
  ghost predicate Into(l: Term, r: Term, s: Subst, path: set<Meeting>, pairs: seq<Pair>, deeper: set<Meeting>)
    requires Proper(s) && Descends(l, r, s)
  {
    pairs == Parts(Root(l, s), Root(r, s)).value && deeper == path + {(Root(l, s), Root(r, s), s)}
  }

  /** Going into a meeting that the run is not inside of lowers what is left. */
  lemma GoInto(l: Term, r: Term, s: Subst, terms: set<Term>, vars: set<int>, path: set<Meeting>, free: nat, unmet: nat)
    returns (pairs: seq<Pair>, deeper: set<Meeting>, free': nat, unmet': nat)
    requires InScope(l, r, s, terms, vars) && Left(s, terms, vars, path, free, unmet)
    requires Descends(l, r, s) && (Root(l, s), Root(r, s), s) !in path
    ensures Into(l, r, s, path, pairs, deeper) && PairsInScope(pairs, s, terms, vars)
    ensures Left(s, terms, vars, deeper, free', unmet')
    ensures free' < free || (free' == free && unmet' < unmet)
  {
    DescendsInScope(l, r, s, terms, vars);
    FewerUnmet(terms, s, path, Root(l, s), Root(r, s));
    pairs, deeper := Parts(Root(l, s), Root(r, s)).value, path + {(Root(l, s), Root(r, s), s)};
    free', unmet' := |vars - s.Keys|, |Unmet(terms, s, deeper)|;
  }

  ghost predicate Settled(l: Term, r: Term, s: Subst, path: set<Meeting>)
    requires Proper(s) && Plain(l) && Plain(r)
  {
    exists n: nat :: EndsOrRepeatsAt(n, l, r, s, path)
  }

  ghost predicate PairsSettled(pairs: seq<Pair>, s: Subst, path: set<Meeting>)
    requires Proper(s) && PlainPairs(pairs)
  {
    exists n: nat :: PairsEndOrRepeatAt(n, pairs, s, path)
  }

  /** Either a variable gets bound, which can happen only finitely often, or the run goes
      into one more meeting, of which there are only finitely many. */
  lemma {:induction false} EndsOrRepeats(l: Term, r: Term, s: Subst, terms: set<Term>, vars: set<int>,
                                         path: set<Meeting>, free: nat, unmet: nat)
    requires InScope(l, r, s, terms, vars) && Left(s, terms, vars, path, free, unmet)
    ensures Settled(l, r, s, path)
    decreases free, unmet, 0
  {
    if !Descends(l, r, s) || (Root(l, s), Root(r, s), s) in path {
      SettledAtOnce(l, r, s, path);
    } else {
      var pairs, deeper, free', unmet' := GoInto(l, r, s, terms, vars, path, free, unmet);
      PairsEndOrRepeat(pairs, s, terms, vars, deeper, free', unmet');
      PartsSettle(l, r, s, path, pairs, deeper);
    }
  }

  lemma SettledAtOnce(l: Term, r: Term, s: Subst, path: set<Meeting>)
    requires Proper(s) && Plain(l) && Plain(r) && (Descends(l, r, s) ==> (Root(l, s), Root(r, s), s) in path)
    ensures Settled(l, r, s, path)
  {
    RootPlain(l, s);
    RootPlain(r, s);
    assert EndsOrRepeatsAt(1, l, r, s, path);
  }

  lemma PartsSettle(l: Term, r: Term, s: Subst, path: set<Meeting>, pairs: seq<Pair>, deeper: set<Meeting>)
    requires Proper(s) && Plain(l) && Plain(r) && Descends(l, r, s)
    requires Into(l, r, s, path, pairs, deeper) && PlainPairs(pairs) && PairsSettled(pairs, s, deeper)
    ensures Settled(l, r, s, path)
  {
    RootPlain(l, s);
    RootPlain(r, s);
    var m: nat :| PairsEndOrRepeatAt(m, pairs, s, deeper);
    assert EndsOrRepeatsAt(m + 1, l, r, s, path);
  }

  lemma {:induction false} PairsEndOrRepeat(pairs: seq<Pair>, s: Subst, terms: set<Term>, vars: set<int>,
                                            path: set<Meeting>, free: nat, unmet: nat)
    requires PairsInScope(pairs, s, terms, vars) && Left(s, terms, vars, path, free, unmet)
    ensures PairsSettled(pairs, s, path)
    decreases free, unmet, 1, |pairs|
  {
    if pairs == [] {
      assert PairsEndOrRepeatAt(0, pairs, s, path);
    } else {
      var (x, y) := pairs[0];
      assert pairs[0] in pairs;
      EndsOrRepeats(x, y, s, terms, vars, path, free, unmet);
      var n: nat :| EndsOrRepeatsAt(n, x, y, s, path);
      if Repeats(n, x, y, s, path) || Unify(n, x, y, s).value.None? {
        assert PairsEndOrRepeatAt(n, pairs, s, path);
      } else {
        RestInScope(n, pairs, s, terms, vars, path, free, unmet);
        PairsEndOrRepeat(pairs[1..], Unify(n, x, y, s).value.value, terms, vars, path, free, unmet);
        RestSettles(n, pairs, s, path);
      }
    }
  }

  lemma RestInScope(n: nat, pairs: seq<Pair>, s: Subst, terms: set<Term>, vars: set<int>, path: set<Meeting>,
                    free: nat, unmet: nat)
    requires pairs != [] && PairsInScope(pairs, s, terms, vars) && Left(s, terms, vars, path, free, unmet)
    requires Unify(n, pairs[0].0, pairs[0].1, s).Ends? && Unify(n, pairs[0].0, pairs[0].1, s).value.Some?
    ensures var s' := Unify(n, pairs[0].0, pairs[0].1, s).value.value;
      PairsInScope(pairs[1..], s', terms, vars) && Left(s', terms, vars, path, free, unmet)
  {
    assert pairs[0] in pairs;
    UnifyWithin(n, pairs[0].0, pairs[0].1, s, vars);
    UnifyKeepsUniverse(n, pairs[0].0, pairs[0].1, s, terms);
    FewerFree(s, Unify(n, pairs[0].0, pairs[0].1, s).value.value, vars);
  }

  lemma RestSettles(k: nat, pairs: seq<Pair>, s: Subst, path: set<Meeting>)
    requires pairs != [] && Proper(s) && PlainPairs(pairs)
    requires Unify(k, pairs[0].0, pairs[0].1, s).Ends? && Unify(k, pairs[0].0, pairs[0].1, s).value.Some?
    requires PairsSettled(pairs[1..], Unify(k, pairs[0].0, pairs[0].1, s).value.value, path)
    ensures PairsSettled(pairs, s, path)
  {
    var s' := Unify(k, pairs[0].0, pairs[0].1, s).value.value;
    var m: nat :| PairsEndOrRepeatAt(m, pairs[1..], s', path);
    var n := if k < m then m else k;
    UnifyDeeper(k, n, pairs[0].0, pairs[0].1, s);
    if UnifyPairs(m, pairs[1..], s').Ends? {
      PairsDeeper(m, n, pairs[1..], s');
    } else {
      PairsRepeatDeeper(m, n, pairs[1..], s', path);
    }
    assert PairsEndOrRepeatAt(n, pairs, s, path);
  }

  ghost predicate Halts(l: Term, r: Term, s: Subst)
    requires Proper(s) && Plain(l) && Plain(r)
  {
    exists n: nat :: Unify(n, l, r, s).Ends?
  }

  ghost predicate Cycles(l: Term, r: Term, s: Subst)
    requires Proper(s) && Plain(l) && Plain(r)
  {
    exists n: nat :: Repeats(n, l, r, s, {})
  }

  /** A run ends if and only if it never meets two compound terms below themselves with the
      same bindings. */
  lemma RunEndsIff(l: Term, r: Term, s: Subst)
    requires Proper(s) && Plain(l) && Plain(r)
    ensures Halts(l, r, s) <==> !Cycles(l, r, s)
  {
    if Halts(l, r, s) && Cycles(l, r, s) {
      var n: nat :| Unify(n, l, r, s).Ends?;
      var m: nat :| Repeats(m, l, r, s, {});
      EndingNeverRepeats(n, m, l, r, s, {});
    }
    RunEndsOrRepeats(l, r, s);
  }

  lemma RunEndsOrRepeats(l: Term, r: Term, s: Subst)
    requires Proper(s) && Plain(l) && Plain(r)
    ensures Halts(l, r, s) || Cycles(l, r, s)
  {
    var terms, vars := RunScope(l, r, s);
    var free, unmet := |vars - s.Keys|, |Unmet(terms, s, {})|;
    EndsOrRepeats(l, r, s, terms, vars, {}, free, unmet);
    var n: nat :| EndsOrRepeatsAt(n, l, r, s, {});
  }

  lemma RunScope(l: Term, r: Term, s: Subst) returns (terms: set<Term>, vars: set<int>)
    requires Proper(s) && Plain(l) && Plain(r)
    ensures InScope(l, r, s, terms, vars)
  {
    terms, vars := TermsOf(l, r, s), VarsIn(s) + VarsOf(l) + VarsOf(r);
    TermsOfUniverse(l, r, s);
    forall v, w | v in s && w in VarsOf(s[v]) ensures w in vars {
      assert w in VarsIn(s);
    }
  }
}
