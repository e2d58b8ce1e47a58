// Unification over triangular substitutions, as the relational graph queries use it. The
// code has no occurs check: it may build bindings without a solution, and on such bindings
// it may run forever. A run is therefore modelled with a bound on its depth.
module Unification {
  import opened Common

  /** JavaScript primitives compared by Object.is. */
  datatype Prim = Undefined | Null | Flag(b: bool) | Number(n: int) | Text(s: string)

  datatype Term = LVar(id: int) | Lit(p: Prim) | Arr(items: seq<Term>) | Obj(fields: seq<Field>)

  datatype Field = Field(key: string, term: Term)

  /** What a term without variables denotes; the order of object keys is irrelevant. */
  datatype Value = VPrim(p: Prim) | VArr(items: seq<Value>) | VObj(fields: map<string, Value>)

  type Subst = map<int, Term>

  // ---- Shape of terms ----

  predicate Ground(t: Term) {
    match t
    case LVar(_) => false
    case Lit(_) => true
    case Arr(items) => forall i :: 0 <= i < |items| ==> Ground(items[i])
    case Obj(fields) => forall i :: 0 <= i < |fields| ==> Ground(fields[i].term)
  }

  /** Object keys are distinct, at every depth. */
  ghost predicate Plain(t: Term) {
    match t
    case LVar(_) => true
    case Lit(_) => true
    case Arr(items) => forall i :: 0 <= i < |items| ==> Plain(items[i])
    case Obj(fields) =>
      && (forall i :: 0 <= i < |fields| ==> Plain(fields[i].term))
      && forall i, j :: 0 <= i < j < |fields| ==> fields[i].key != fields[j].key
  }

  predicate HasKey(fields: seq<Field>, k: string) {
    exists i :: 0 <= i < |fields| && fields[i].key == k
  }

  function Lookup(fields: seq<Field>, k: string): (t: Term)
    requires HasKey(fields, k)
    ensures exists i :: 0 <= i < |fields| && fields[i].key == k && t == fields[i].term
  {
    if fields[0].key == k then fields[0].term else Lookup(fields[1..], k)
  }

  predicate SameKeys(a: seq<Field>, b: seq<Field>) {
    |a| == |b| && forall i :: 0 <= i < |a| ==> HasKey(b, a[i].key)
  }

  // ---- Substitutions ----

  ghost predicate Ranks(r: int -> nat, s: Subst) {
    forall v :: v in s && s[v].LVar? && s[v].id in s ==> r(s[v].id) < r(v)
  }

  /** No variable is reached from itself along bindings. */
  ghost predicate Acyclic(s: Subst) {
    exists r: int -> nat :: Ranks(r, s)
  }

  ghost function RankOf(s: Subst): (r: int -> nat)
    requires Acyclic(s)
    ensures Ranks(r, s)
  {
    var r: int -> nat :| Ranks(r, s); r
  }

  /** Chains of variables end, and bound terms have distinct keys. */
  ghost predicate Proper(s: Subst) {
    Acyclic(s) && forall v :: v in s ==> Plain(s[v])
  }

  function Root(t: Term, s: Subst): (u: Term)
    requires Acyclic(s)
    ensures !(u.LVar? && u.id in s)
    decreases if t.LVar? && t.id in s then RankOf(s)(t.id) + 1 else 0
  {
    if t.LVar? && t.id in s then Root(s[t.id], s) else t
  }

  /** The chain is followed in a loop, which ends because chains have no cycles. */
  method ResolveVar(t: Term, s: Subst) returns (current: Term)
    requires Acyclic(s)
    ensures current == Root(t, s)
  {
    current := t;
    while current.LVar? && current.id in s
      invariant Root(current, s) == Root(t, s)
      decreases if current.LVar? && current.id in s then RankOf(s)(current.id) + 1 else 0
    {
      current := s[current.id];
    }
  }

  lemma {:induction false} RootPlain(t: Term, s: Subst)
    requires Proper(s) && Plain(t)
    ensures Plain(Root(t, s)) && (!t.LVar? ==> Root(t, s) == t)
    decreases if t.LVar? && t.id in s then RankOf(s)(t.id) + 1 else 0
  {
    if t.LVar? && t.id in s {
      RootPlain(s[t.id], s);
    }
  }

  lemma BindProper(s: Subst, v: int, t: Term)
    requires Proper(s) && v !in s && t != LVar(v) && !(t.LVar? && t.id in s) && Plain(t)
    ensures Proper(s[v := t]) && Extends(s, s[v := t])
  {
    var r := RankOf(s);
    var r': int -> nat := x => if x == v then 0 else r(x) + 1;
    assert Ranks(r', s[v := t]);
  }

  ghost predicate Extends(s: Subst, s': Subst) {
    forall v :: v in s ==> v in s' && s'[v] == s[v]
  }

  // ---- Unification ----

  /** A run that has come to an end, or one that goes deeper than it was allowed to. */
  datatype Ending<+T> = Ends(value: T) | Running

  type Pair = (Term, Term)

  ghost predicate PlainPairs(pairs: seq<Pair>) {
    forall p :: p in pairs ==> Plain(p.0) && Plain(p.1)
  }

  /** Corresponding items of two lists. */
  function Zip(a: seq<Term>, b: seq<Term>): (pairs: seq<Pair>)
    requires |a| == |b|
    ensures |pairs| == |a| && forall k :: 0 <= k < |a| ==> pairs[k] == (a[k], b[k])
  {
    seq(|a|, k requires 0 <= k < |a| => (a[k], b[k]))
  }

  /** Values of two objects under the same key, in the key order of the left one. */
  function Match(a: seq<Field>, b: seq<Field>): (pairs: seq<Pair>)
    requires SameKeys(a, b)
    ensures |pairs| == |a| && forall k :: 0 <= k < |a| ==> pairs[k] == (a[k].term, Lookup(b, a[k].key))
  {
    seq(|a|, k requires 0 <= k < |a| => (a[k].term, Lookup(b, a[k].key)))
  }

  /** The parts to be unified after two terms have been resolved, or none if they clash. */
  function Parts(a: Term, b: Term): Option<seq<Pair>> {
    if a.Arr? && b.Arr? then if |a.items| != |b.items| then None else Some(Zip(a.items, b.items))
    else if a.Obj? && b.Obj? then if !SameKeys(a.fields, b.fields) then None else Some(Match(a.fields, b.fields))
    else if a == b then Some([])
    else None
  }

  lemma PartsPlain(a: Term, b: Term)
    requires Plain(a) && Plain(b) && Parts(a, b).Some?
    ensures PlainPairs(Parts(a, b).value)
  {
  }

  /** The value `None` of a run that ends stands for null. `n` bounds its depth. */
  function Unify(n: nat, l: Term, r: Term, s: Subst): (u: Ending<Option<Subst>>)
    requires Proper(s) && Plain(l) && Plain(r)
    ensures u.Ends? && u.value.Some? ==> Proper(u.value.value) && Extends(s, u.value.value)
    decreases n, 0
  {
    if n == 0 then Running
    else
      RootPlain(l, s);
      RootPlain(r, s);
      var a, b := Root(l, s), Root(r, s);
      if a.LVar? && b.LVar? && a.id == b.id then Ends(Some(s))
      else if a.LVar? then
        BindProper(s, a.id, b);
        Ends(Some(s[a.id := b]))
      else if b.LVar? then
        BindProper(s, b.id, a);
        Ends(Some(s[b.id := a]))
      else match Parts(a, b)
        case None => Ends(None)
        case Some(pairs) => PartsPlain(a, b); UnifyPairs(n - 1, pairs, s)
  }

  function UnifyPairs(n: nat, pairs: seq<Pair>, s: Subst): (u: Ending<Option<Subst>>)
    requires Proper(s) && PlainPairs(pairs)
    ensures u.Ends? && u.value.Some? ==> Proper(u.value.value) && Extends(s, u.value.value)
    decreases n, |pairs|
  {
    if pairs == [] then Ends(Some(s))
    else match Unify(n, pairs[0].0, pairs[0].1, s)
      case Running => Running
      case Ends(None) => Ends(None)
      case Ends(Some(s')) => UnifyPairs(n, pairs[1..], s')
  }

  /** A run that ends does the same when it is allowed to go deeper. */
  lemma {:induction false} UnifyDeeper(n: nat, m: nat, l: Term, r: Term, s: Subst)
    requires n <= m && Proper(s) && Plain(l) && Plain(r) && Unify(n, l, r, s).Ends?
    ensures Unify(m, l, r, s) == Unify(n, l, r, s)
    decreases n, 0
  {
    RootPlain(l, s);
    RootPlain(r, s);
    var a, b := Root(l, s), Root(r, s);
    if !a.LVar? && !b.LVar? && Parts(a, b).Some? {
      PartsPlain(a, b);
      PairsDeeper(n - 1, m - 1, Parts(a, b).value, s);
    }
  }

  lemma {:induction false} PairsDeeper(n: nat, m: nat, pairs: seq<Pair>, s: Subst)
    requires n <= m && Proper(s) && PlainPairs(pairs) && UnifyPairs(n, pairs, s).Ends?
    ensures UnifyPairs(m, pairs, s) == UnifyPairs(n, pairs, s)
    decreases n, |pairs|
  {
    if pairs != [] {
      UnifyDeeper(n, m, pairs[0].0, pairs[0].1, s);
      var u := Unify(n, pairs[0].0, pairs[0].1, s);
      if u.value.Some? { PairsDeeper(n, m, pairs[1..], u.value.value); }
    }
  }

  // ---- Meaning ----

  /** An assignment gives every variable a value. */
  type Assignment = int -> Value

  ghost function Inst(th: Assignment, t: Term): Value {
    match t
    case LVar(x) => th(x)
    case Lit(p) => VPrim(p)
    case Arr(items) => VArr(InstItems(th, items))
    case Obj(fields) => VObj(InstFields(th, fields))
  }

  ghost function InstItems(th: Assignment, items: seq<Term>): (r: seq<Value>)
    ensures |r| == |items|
  {
    if items == [] then [] else [Inst(th, items[0])] + InstItems(th, items[1..])
  }

  ghost function InstFields(th: Assignment, fields: seq<Field>): map<string, Value> {
    if fields == [] then map[] else InstFields(th, fields[1..])[fields[0].key := Inst(th, fields[0].term)]
  }

  ghost predicate Solves(th: Assignment, s: Subst) {
    forall v :: v in s ==> th(v) == Inst(th, s[v])
  }

  lemma {:induction false} InstItem(th: Assignment, items: seq<Term>, i: nat)
    requires i < |items|
    ensures InstItems(th, items)[i] == Inst(th, items[i])
  {
    if i > 0 { InstItem(th, items[1..], i - 1); }
  }

  lemma {:induction false} InstFieldsLookup(th: Assignment, fields: seq<Field>, k: string)
    ensures k in InstFields(th, fields) <==> HasKey(fields, k)
    ensures HasKey(fields, k) ==> InstFields(th, fields)[k] == Inst(th, Lookup(fields, k))
  {
    if fields != [] {
      InstFieldsLookup(th, fields[1..], k);
      if HasKey(fields, k) && fields[0].key != k {
        var i :| 0 <= i < |fields| && fields[i].key == k;
        assert fields[1..][i - 1].key == k;
      }
      if HasKey(fields[1..], k) {
        var i :| 0 <= i < |fields[1..]| && fields[1..][i].key == k;
        assert fields[i + 1].key == k;
      }
    }
  }

  lemma {:induction false} RootValue(th: Assignment, t: Term, s: Subst)
    requires Acyclic(s) && Solves(th, s)
    ensures Inst(th, Root(t, s)) == Inst(th, t)
    decreases if t.LVar? && t.id in s then RankOf(s)(t.id) + 1 else 0
  {
    if t.LVar? && t.id in s {
      RootValue(th, s[t.id], s);
    }
  }

  lemma BindSolves(th: Assignment, s: Subst, v: int, t: Term)
    requires v !in s
    ensures Solves(th, s[v := t]) <==> Solves(th, s) && th(v) == Inst(th, t)
  {
    assert forall x :: x in s ==> s[v := t][x] == s[x];
  }

  ghost predicate DistinctKeys(fields: seq<Field>) {
    forall i, j :: 0 <= i < j < |fields| ==> fields[i].key != fields[j].key
  }

  function KeyList(fields: seq<Field>): seq<string> {
    seq(|fields|, i requires 0 <= i < |fields| => fields[i].key)
  }

  lemma KeyListElems(fields: seq<Field>)
    ensures forall k :: k in Elems(KeyList(fields)) <==> HasKey(fields, k)
  {
    forall k ensures k in Elems(KeyList(fields)) <==> HasKey(fields, k) {
      if HasKey(fields, k) {
        var i :| 0 <= i < |fields| && fields[i].key == k;
        assert KeyList(fields)[i] == k;
      }
    }
  }

  /** The key test of the code decides equality of key sets, because keys are distinct. */
  lemma SameKeysExact(a: seq<Field>, b: seq<Field>)
    requires DistinctKeys(a) && DistinctKeys(b)
    ensures SameKeys(a, b) <==> forall k :: HasKey(a, k) <==> HasKey(b, k)
  {
    KeyListElems(a);
    KeyListElems(b);
    NoDupCardinality(KeyList(a));
    NoDupCardinality(KeyList(b));
    if SameKeys(a, b) {
      forall k | k in Elems(KeyList(a)) ensures k in Elems(KeyList(b)) {
        assert HasKey(a, k);
      }
      SubsetCardinality(Elems(KeyList(a)), Elems(KeyList(b)));
    }
    if forall k :: HasKey(a, k) <==> HasKey(b, k) {
      assert Elems(KeyList(a)) == Elems(KeyList(b));
      assert forall i :: 0 <= i < |a| ==> HasKey(a, a[i].key);
    }
  }

  /** The two sides of every pair denote the same value. */
  ghost predicate PairsAgree(th: Assignment, pairs: seq<Pair>) {
    forall k :: 0 <= k < |pairs| ==> Inst(th, pairs[k].0) == Inst(th, pairs[k].1)
  }

  lemma PairsCons(th: Assignment, pairs: seq<Pair>)
    requires pairs != []
    ensures PairsAgree(th, pairs) <==> Inst(th, pairs[0].0) == Inst(th, pairs[0].1) && PairsAgree(th, pairs[1..])
  {
    assert forall k :: 0 < k < |pairs| ==> pairs[k] == pairs[1..][k - 1];
  }

  lemma ItemsEqual(th: Assignment, a: seq<Term>, b: seq<Term>)
    requires |a| == |b|
    ensures InstItems(th, a) == InstItems(th, b) <==> PairsAgree(th, Zip(a, b))
  {
    forall k | 0 <= k < |a|
      ensures InstItems(th, a)[k] == Inst(th, a[k]) && InstItems(th, b)[k] == Inst(th, b[k])
    {
      InstItem(th, a, k);
      InstItem(th, b, k);
    }
  }

  /** Objects denote equal values exactly when they have the same keys and agree under each. */
  lemma FieldsEqual(th: Assignment, a: seq<Field>, b: seq<Field>)
    requires DistinctKeys(a) && DistinctKeys(b)
    ensures InstFields(th, a) == InstFields(th, b) <==> SameKeys(a, b) && PairsAgree(th, Match(a, b))
  {
    SameKeysExact(a, b);
    KeysOfInst(th, a);
    KeysOfInst(th, b);
    if SameKeys(a, b) {
      forall i | 0 <= i < |a|
        ensures FieldAgrees(th, a, b, i) <==> InstFields(th, a)[a[i].key] == InstFields(th, b)[a[i].key]
      {
        AgreeAt(th, a, b, i);
      }
      FieldsDecide(th, a, b, InstFields(th, a), InstFields(th, b));
    }
  }

  lemma FieldsDecide(th: Assignment, a: seq<Field>, b: seq<Field>, x: map<string, Value>, y: map<string, Value>)
    requires SameKeys(a, b) && x.Keys == y.Keys && forall k :: k in x <==> HasKey(a, k)
    requires forall i :: 0 <= i < |a| ==> a[i].key in x && (FieldAgrees(th, a, b, i) <==> x[a[i].key] == y[a[i].key])
    ensures x == y <==> PairsAgree(th, Match(a, b))
  {
    assert PairsAgree(th, Match(a, b)) <==> forall i :: 0 <= i < |a| ==> FieldAgrees(th, a, b, i);
    forall k | k in x ensures exists i :: 0 <= i < |a| && a[i].key == k {
      assert HasKey(a, k);
    }
  }

  ghost predicate FieldAgrees(th: Assignment, a: seq<Field>, b: seq<Field>, k: nat)
    requires SameKeys(a, b) && k < |a|
  {
    Inst(th, Match(a, b)[k].0) == Inst(th, Match(a, b)[k].1)
  }

  lemma KeysOfInst(th: Assignment, fields: seq<Field>)
    ensures forall k :: k in InstFields(th, fields) <==> HasKey(fields, k)
  {
    forall k ensures k in InstFields(th, fields) <==> HasKey(fields, k) {
      InstFieldsLookup(th, fields, k);
    }
  }

  lemma AgreeAt(th: Assignment, a: seq<Field>, b: seq<Field>, i: nat)
    requires DistinctKeys(a) && SameKeys(a, b) && i < |a|
    ensures a[i].key in InstFields(th, a) && a[i].key in InstFields(th, b)
    ensures FieldAgrees(th, a, b, i) <==> InstFields(th, a)[a[i].key] == InstFields(th, b)[a[i].key]
  {
    LookupOwn(a, i);
    InstFieldsLookup(th, a, a[i].key);
    InstFieldsLookup(th, b, a[i].key);
  }

  lemma {:induction false} LookupOwn(fields: seq<Field>, i: nat)
    requires DistinctKeys(fields) && i < |fields|
    ensures HasKey(fields, fields[i].key) && Lookup(fields, fields[i].key) == fields[i].term
  {
    var j :| 0 <= j < |fields| && fields[j].key == fields[i].key && Lookup(fields, fields[i].key) == fields[j].term;
  }

  /** Resolved terms denote equal values exactly when they do not clash and their parts agree. */
  lemma PartsExact(th: Assignment, a: Term, b: Term)
    requires Plain(a) && Plain(b) && !a.LVar? && !b.LVar?
    ensures Inst(th, a) == Inst(th, b) <==> Parts(a, b).Some? && PairsAgree(th, Parts(a, b).value)
  {
    if a.Arr? && b.Arr? {
      if |a.items| == |b.items| {
        ItemsEqual(th, a.items, b.items);
      } else {
        assert |InstItems(th, a.items)| != |InstItems(th, b.items)|;
      }
    } else if a.Obj? && b.Obj? {
      FieldsEqual(th, a.fields, b.fields);
    }
  }

  /** Every run that ends is exact: the bindings it returns are solved by exactly the
      assignments that solve the given ones and make both terms equal, so the unifier is
      most general; null means that there is no such assignment. */
  lemma {:induction false} UnifyExact(n: nat, l: Term, r: Term, s: Subst, th: Assignment)
    requires Proper(s) && Plain(l) && Plain(r)
    ensures match Unify(n, l, r, s)
      case Running => true
      case Ends(None) => Solves(th, s) ==> Inst(th, l) != Inst(th, r)
      case Ends(Some(s')) => Solves(th, s') <==> Solves(th, s) && Inst(th, l) == Inst(th, r)
    decreases n, 0
  {
    RootPlain(l, s);
    RootPlain(r, s);
    var a, b := Root(l, s), Root(r, s);
    if Solves(th, s) {
      RootValue(th, l, s);
      RootValue(th, r, s);
    }
    if n == 0 || (a.LVar? && b.LVar? && a.id == b.id) {
    } else if a.LVar? {
      BindSolves(th, s, a.id, b);
    } else if b.LVar? {
      BindSolves(th, s, b.id, a);
    } else {
      PartsExact(th, a, b);
      if Parts(a, b).Some? {
        PartsPlain(a, b);
        PairsExact(n - 1, Parts(a, b).value, s, th);
      }
    }
  }

  lemma {:induction false} PairsExact(n: nat, pairs: seq<Pair>, s: Subst, th: Assignment)
    requires Proper(s) && PlainPairs(pairs)
    ensures match UnifyPairs(n, pairs, s)
      case Running => true
      case Ends(None) => Solves(th, s) ==> !PairsAgree(th, pairs)
      case Ends(Some(s')) => Solves(th, s') <==> Solves(th, s) && PairsAgree(th, pairs)
    decreases n, |pairs|
  {
    if pairs != [] {
      UnifyExact(n, pairs[0].0, pairs[0].1, s, th);
      PairsCons(th, pairs);
      var u := Unify(n, pairs[0].0, pairs[0].1, s);
      if u.Ends? && u.value.Some? { PairsExact(n, pairs[1..], u.value.value, th); }
    }
  }

  // ---- A unifier is always found ----

  /** If some assignment solves the bindings and equates the terms, the run ends. The depth
      it needs is that of the common value. */
  lemma {:induction false} UnifierEnds(l: Term, r: Term, s: Subst, th: Assignment) returns (n: nat)
    requires Proper(s) && Plain(l) && Plain(r) && Solves(th, s) && Inst(th, l) == Inst(th, r)
    ensures Unify(n, l, r, s).Ends?
    decreases Inst(th, l), 1
  {
    n := 1;
    RootPlain(l, s);
    RootPlain(r, s);
    RootValue(th, l, s);
    RootValue(th, r, s);
    var a, b := Root(l, s), Root(r, s);
    if !a.LVar? && !b.LVar? {
      PartsExact(th, a, b);
      PartsPlain(a, b);
      PartsBelow(th, a, b);
      var m := PairsEnd(Parts(a, b).value, s, th, Inst(th, l));
      n := m + 1;
    }
  }

  lemma {:induction false} PairsEnd(pairs: seq<Pair>, s: Subst, th: Assignment, v: Value) returns (n: nat)
    requires Proper(s) && PlainPairs(pairs) && Solves(th, s) && PairsAgree(th, pairs)
    requires forall p :: p in pairs ==> Inst(th, p.0) < v
    ensures UnifyPairs(n, pairs, s).Ends?
    decreases v, 0, |pairs|
  {
    n := 0;
    if pairs != [] {
      var (x, y) := pairs[0];
      PairsCons(th, pairs);
      assert pairs[0] in pairs;
      var k := UnifierEnds(x, y, s, th);
      UnifyExact(k, x, y, s, th);
      var s' := Unify(k, x, y, s).value.value;
      var m := PairsEnd(pairs[1..], s', th, v);
      n := if k < m then m else k;
      UnifyDeeper(k, n, x, y, s);
      PairsDeeper(m, n, pairs[1..], s');
    }
  }

  /** Parts of a term have smaller values. */
  lemma PartsBelow(th: Assignment, a: Term, b: Term)
    requires Plain(a) && Parts(a, b).Some?
    ensures forall p :: p in Parts(a, b).value ==> Inst(th, p.0) < Inst(th, a)
  {
    var pairs := Parts(a, b).value;
    forall k | 0 <= k < |pairs| ensures Inst(th, pairs[k].0) < Inst(th, a) {
      if a.Arr? {
        InstItem(th, a.items, k);
        assert Inst(th, a).items[k] < Inst(th, a);
      } else if a.Obj? {
        LookupOwn(a.fields, k);
        InstFieldsLookup(th, a.fields, a.fields[k].key);
        assert Inst(th, a).fields[a.fields[k].key] < Inst(th, a);
      }
    }
  }

  // ---- Bindings that have a solution ----

  ghost function VarsOf(t: Term): set<int> {
    match t
    case LVar(x) => {x}
    case Lit(_) => {}
    case Arr(items) => VarsOfItems(items)
    case Obj(fields) => VarsOfFields(fields)
  }

  ghost function VarsOfItems(items: seq<Term>): set<int> {
    if items == [] then {} else VarsOf(items[0]) + VarsOfItems(items[1..])
  }

  ghost function VarsOfFields(fields: seq<Field>): set<int> {
    if fields == [] then {} else VarsOf(fields[0].term) + VarsOfFields(fields[1..])
  }

  /** The rank drops from a variable to every variable of its binding. */
  ghost predicate DeepRanks(r: int -> nat, s: Subst) {
    forall v :: v in s ==> RanksBelow(r, s, s[v], r(v))
  }

  ghost predicate RanksBelow(r: int -> nat, s: Subst, t: Term, bound: nat) {
    forall w :: w in VarsOf(t) && w in s ==> r(w) < bound
  }

  /** No variable is bound to a term that leads back to it. */
  ghost predicate DeepAcyclic(s: Subst) {
    exists r: int -> nat :: DeepRanks(r, s)
  }

  /** The value of a term when bound variables stand for their bindings. */
  ghost function Resolve(th: Assignment, s: Subst, r: int -> nat, t: Term, bound: nat): Value
    requires DeepRanks(r, s) && RanksBelow(r, s, t, bound)
    decreases bound, t
  {
    match t
    case LVar(x) =>
      assert x in VarsOf(t);
      if x in s then assert RanksBelow(r, s, s[x], r(x)); Resolve(th, s, r, s[x], r(x)) else th(x)
    case Lit(p) => VPrim(p)
    case Arr(items) => VArr(ResolveItems(th, s, r, items, bound))
    case Obj(fields) => VObj(ResolveFields(th, s, r, fields, bound))
  }

  ghost function ResolveItems(th: Assignment, s: Subst, r: int -> nat, items: seq<Term>, bound: nat): seq<Value>
    requires DeepRanks(r, s) && forall w :: w in VarsOfItems(items) && w in s ==> r(w) < bound
    decreases bound, items
  {
    if items == [] then []
    else [Resolve(th, s, r, items[0], bound)] + ResolveItems(th, s, r, items[1..], bound)
  }

  ghost function ResolveFields(th: Assignment, s: Subst, r: int -> nat, fields: seq<Field>, bound: nat)
    : map<string, Value>
    requires DeepRanks(r, s) && forall w :: w in VarsOfFields(fields) && w in s ==> r(w) < bound
    decreases bound, fields
  {
    if fields == [] then map[]
    else ResolveFields(th, s, r, fields[1..], bound)[fields[0].key := Resolve(th, s, r, fields[0].term, bound)]
  }

  ghost function Completed(th: Assignment, s: Subst, r: int -> nat): Assignment
    requires DeepRanks(r, s)
  {
    (v: int) => if v in s then (assert RanksBelow(r, s, s[v], r(v)); Resolve(th, s, r, s[v], r(v))) else th(v)
  }

  lemma {:induction false} ResolveIsInst(th: Assignment, s: Subst, r: int -> nat, t: Term, bound: nat)
    requires DeepRanks(r, s) && RanksBelow(r, s, t, bound)
    ensures Resolve(th, s, r, t, bound) == Inst(Completed(th, s, r), t)
    decreases t
  {
    match t {
      case LVar(x) => assert x in VarsOf(t);
      case Lit(_) =>
      case Arr(items) => ResolveItemsIsInst(th, s, r, items, bound);
      case Obj(fields) => ResolveFieldsIsInst(th, s, r, fields, bound);
    }
  }

  lemma {:induction false} ResolveItemsIsInst(th: Assignment, s: Subst, r: int -> nat, items: seq<Term>, bound: nat)
    requires DeepRanks(r, s) && forall w :: w in VarsOfItems(items) && w in s ==> r(w) < bound
    ensures ResolveItems(th, s, r, items, bound) == InstItems(Completed(th, s, r), items)
    decreases items
  {
    if items != [] {
      ResolveIsInst(th, s, r, items[0], bound);
      ResolveItemsIsInst(th, s, r, items[1..], bound);
    }
  }

  lemma {:induction false} ResolveFieldsIsInst(th: Assignment, s: Subst, r: int -> nat, fields: seq<Field>, bound: nat)
    requires DeepRanks(r, s) && forall w :: w in VarsOfFields(fields) && w in s ==> r(w) < bound
    ensures ResolveFields(th, s, r, fields, bound) == InstFields(Completed(th, s, r), fields)
    decreases fields
  {
    if fields != [] {
      ResolveIsInst(th, s, r, fields[0].term, bound);
      ResolveFieldsIsInst(th, s, r, fields[1..], bound);
    }
  }

  lemma CompletedSolves(th: Assignment, s: Subst, r: int -> nat)
    requires DeepRanks(r, s)
    ensures Solves(Completed(th, s, r), s)
  {
    forall v | v in s ensures Completed(th, s, r)(v) == Inst(Completed(th, s, r), s[v]) {
      assert RanksBelow(r, s, s[v], r(v));
      ResolveIsInst(th, s, r, s[v], r(v));
    }
  }

  // ---- A solution ranks the variables ----

  /** Some element of a non-empty set, always the same. */
  ghost function Pick<T(!new)>(s: set<T>): (x: T)
    requires s != {}
    ensures x in s
  {
    var x :| x in s; x
  }

  ghost function Height(v: Value): nat {
    match v
    case VPrim(_) => 0
    case VArr(items) => 1 + HeightItems(items)
    case VObj(fields) => 1 + HeightFields(v, fields.Keys)
  }

  ghost function HeightItems(items: seq<Value>): nat {
    if items == [] then 0 else Height(items[0]) + HeightItems(items[1..])
  }

  ghost function HeightFields(v: Value, keys: set<string>): nat
    requires v.VObj? && keys <= v.fields.Keys
    decreases v, 0, keys
  {
    if keys == {} then 0
    else var k := Pick(keys); Height(v.fields[k]) + HeightFields(v, keys - {k})
  }

  lemma {:induction false} HeightOfItem(items: seq<Value>, i: nat)
    requires i < |items|
    ensures Height(items[i]) <= HeightItems(items)
  {
    if i > 0 { HeightOfItem(items[1..], i - 1); }
  }

  lemma {:induction false} HeightOfField(v: Value, keys: set<string>, k: string)
    requires v.VObj? && k in keys && keys <= v.fields.Keys
    ensures Height(v.fields[k]) <= HeightFields(v, keys)
    decreases keys
  {
    if k != Pick(keys) { HeightOfField(v, keys - {Pick(keys)}, k); }
  }

  /** A variable inside a compound term has a lower value than the term. */
  lemma {:induction false} VarHeight(th: Assignment, t: Term, w: int)
    requires Plain(t) && w in VarsOf(t)
    ensures Height(th(w)) <= Height(Inst(th, t)) && (!t.LVar? ==> Height(th(w)) < Height(Inst(th, t)))
    decreases t
  {
    match t {
      case LVar(_) =>
      case Arr(items) =>
        var i := ItemWith(items, w);
        VarHeight(th, items[i], w);
        InstItem(th, items, i);
        HeightOfItem(InstItems(th, items), i);
      case Obj(fields) =>
        var i := FieldWith(fields, w);
        var v := Inst(th, t);
        VarHeight(th, fields[i].term, w);
        LookupOwn(fields, i);
        InstFieldsLookup(th, fields, fields[i].key);
        HeightOfField(v, v.fields.Keys, fields[i].key);
    }
  }

  lemma {:induction false} ItemWith(items: seq<Term>, w: int) returns (i: nat)
    requires w in VarsOfItems(items)
    ensures i < |items| && w in VarsOf(items[i])
  {
    i := 0;
    if w !in VarsOf(items[0]) {
      var j := ItemWith(items[1..], w);
      i := j + 1;
    }
  }

  lemma {:induction false} FieldWith(fields: seq<Field>, w: int) returns (i: nat)
    requires w in VarsOfFields(fields)
    ensures i < |fields| && w in VarsOf(fields[i].term)
  {
    i := 0;
    if w !in VarsOf(fields[0].term) {
      var j := FieldWith(fields[1..], w);
      i := j + 1;
    }
  }

  ghost function Above(r: int -> nat, keys: set<int>): nat {
    if keys == {} then 0 else var k := Pick(keys); r(k) + 1 + Above(r, keys - {k})
  }

  lemma {:induction false} AboveAll(r: int -> nat, keys: set<int>, k: int)
    requires k in keys
    ensures r(k) < Above(r, keys)
  {
    if k != Pick(keys) { AboveAll(r, keys - {Pick(keys)}, k); }
  }

  lemma Lexicographic(h: nat, h': nat, c: nat, c': nat, b: nat)
    requires c < b && (h < h' || (h <= h' && c < c'))
    ensures h * b + c < h' * b + c'
  {
    if h < h' { assert (h + 1) * b <= h' * b; } else { assert h * b == h' * b; }
  }

  /** Proper bindings have a solution exactly when no variable is bound to a term that leads
      back to it. */
  lemma SolvableIff(s: Subst)
    requires Proper(s)
    ensures (exists th :: Solves(th, s)) <==> DeepAcyclic(s)
  {
    if DeepAcyclic(s) {
      var r: int -> nat :| DeepRanks(r, s);
      CompletedSolves(_ => VPrim(Undefined), s, r);
    }
    if exists th :: Solves(th, s) {
      var th :| Solves(th, s);
      SolutionRanks(th, s);
    }
  }

  lemma SolutionRanks(th: Assignment, s: Subst)
    requires Proper(s) && Solves(th, s)
    ensures DeepAcyclic(s)
  {
    var c, b := RankOf(s), Above(RankOf(s), s.Keys);
    var r: int -> nat := v => Height(th(v)) * b + c(v);
    forall v, w | v in s && w in VarsOf(s[v]) && w in s ensures r(w) < r(v) {
      VarHeight(th, s[v], w);
      AboveAll(c, s.Keys, w);
      Lexicographic(Height(th(w)), Height(th(v)), c(w), c(v), b);
    }
    assert DeepRanks(r, s);
  }

  /** The run ends with bindings that are free of cycles. */
  ghost predicate Unified(n: nat, l: Term, r: Term, s: Subst)
    requires Proper(s) && Plain(l) && Plain(r)
  {
    var u := Unify(n, l, r, s);
    u.Ends? && u.value.Some? && DeepAcyclic(u.value.value)
  }

  /** Two terms have a unifier exactly when the run ends with bindings free of cycles. */
  lemma UnifiableIff(l: Term, r: Term, s: Subst)
    requires Proper(s) && Plain(l) && Plain(r)
    ensures (exists th :: Solves(th, s) && Inst(th, l) == Inst(th, r)) <==> exists n: nat :: Unified(n, l, r, s)
  {
    if th :| Solves(th, s) && Inst(th, l) == Inst(th, r) {
      var n := UnifierEnds(l, r, s, th);
      UnifyExact(n, l, r, s, th);
      SolvableIff(Unify(n, l, r, s).value.value);
      assert Unified(n, l, r, s);
    }
    if n: nat :| Unified(n, l, r, s) {
      var s' := Unify(n, l, r, s).value.value;
      UnifyExact(n, l, r, s, SolutionOf(s'));
    }
  }

  /** The code has no occurs check: a variable against a list that contains it is bound to
      that list, and the bindings returned have no solution. */
  lemma NoOccursCheck(x: int, n: nat)
    requires n > 0
    ensures Proper(map[]) && Unify(n, LVar(x), Arr([LVar(x)]), map[]) == Ends(Some(map[x := Arr([LVar(x)])]))
    ensures !DeepAcyclic(map[x := Arr([LVar(x)])])
    ensures forall th :: !Solves(th, map[x := Arr([LVar(x)])])
  {
    EmptyProper();
    var t := Arr([LVar(x)]);
    var s := map[x := t];
    BindProper(map[], x, t);
    assert VarsOfItems([LVar(x)]) == {x};
    assert s[x] == t && x in VarsOf(t);
    forall r: int -> nat ensures !DeepRanks(r, s) {
      assert RanksBelow(r, s, s[x], r(x)) ==> r(x) < r(x);
    }
    SolvableIff(s);
  }

  lemma EmptyProper()
    ensures Proper(map[]) && DeepAcyclic(map[])
  {
    assert Ranks(_ => 0, map[]) && DeepRanks(_ => 0, map[]);
  }

  // ---- A run ends unless it closes a cycle ----

  /** Within depth `n`, the run makes a binding that leads back to its own variable. */
  ghost predicate ClosesCycle(n: nat, l: Term, r: Term, s: Subst)
    requires Proper(s) && Plain(l) && Plain(r)
    decreases n, 0
  {
    n > 0 &&
    (RootPlain(l, s);
     RootPlain(r, s);
     var a, b := Root(l, s), Root(r, s);
     if a.LVar? && b.LVar? && a.id == b.id then false
     else if a.LVar? then !DeepAcyclic(s[a.id := b])
     else if b.LVar? then !DeepAcyclic(s[b.id := a])
     else match Parts(a, b)
       case None => false
       case Some(pairs) => PartsPlain(a, b); PairsCloseCycle(n - 1, pairs, s))
  }

  ghost predicate PairsCloseCycle(n: nat, pairs: seq<Pair>, s: Subst)
    requires Proper(s) && PlainPairs(pairs)
    decreases n, |pairs|
  {
    pairs != [] &&
    (ClosesCycle(n, pairs[0].0, pairs[0].1, s) ||
     match Unify(n, pairs[0].0, pairs[0].1, s)
     case Ends(Some(s')) => PairsCloseCycle(n, pairs[1..], s')
     case _ => false)
  }

  lemma {:induction false} CloseDeeper(n: nat, m: nat, l: Term, r: Term, s: Subst)
    requires n <= m && Proper(s) && Plain(l) && Plain(r) && ClosesCycle(n, l, r, s)
    ensures ClosesCycle(m, l, r, s)
    decreases n, 0
  {
    RootPlain(l, s);
    RootPlain(r, s);
    var a, b := Root(l, s), Root(r, s);
    if !a.LVar? && !b.LVar? {
      PartsPlain(a, b);
      PairsCloseDeeper(n - 1, m - 1, Parts(a, b).value, s);
    }
  }

  lemma {:induction false} PairsCloseDeeper(n: nat, m: nat, pairs: seq<Pair>, s: Subst)
    requires n <= m && Proper(s) && PlainPairs(pairs) && PairsCloseCycle(n, pairs, s)
    ensures PairsCloseCycle(m, pairs, s)
    decreases n, |pairs|
  {
    if ClosesCycle(n, pairs[0].0, pairs[0].1, s) {
      CloseDeeper(n, m, pairs[0].0, pairs[0].1, s);
    } else {
      var u := Unify(n, pairs[0].0, pairs[0].1, s);
      UnifyDeeper(n, m, pairs[0].0, pairs[0].1, s);
      PairsCloseDeeper(n, m, pairs[1..], u.value.value);
    }
  }

  /** All variables in bindings are among `vars`. */
  ghost predicate Within(s: Subst, vars: set<int>) {
    s.Keys <= vars && forall v :: v in s ==> VarsOf(s[v]) <= vars
  }

  ghost predicate PairsWithin(pairs: seq<Pair>, vars: set<int>) {
    forall p :: p in pairs ==> VarsOf(p.0) <= vars && VarsOf(p.1) <= vars
  }

  lemma {:induction false} RootWithin(t: Term, s: Subst, vars: set<int>)
    requires Acyclic(s) && Within(s, vars) && VarsOf(t) <= vars
    ensures VarsOf(Root(t, s)) <= vars
    decreases if t.LVar? && t.id in s then RankOf(s)(t.id) + 1 else 0
  {
    if t.LVar? && t.id in s { RootWithin(s[t.id], s, vars); }
  }

  lemma PartsWithin(a: Term, b: Term, vars: set<int>)
    requires Parts(a, b).Some? && VarsOf(a) <= vars && VarsOf(b) <= vars
    ensures PairsWithin(Parts(a, b).value, vars)
  {
    var pairs := Parts(a, b).value;
    forall k | 0 <= k < |pairs| ensures VarsOf(pairs[k].0) <= vars && VarsOf(pairs[k].1) <= vars {
      if a.Arr? {
        VarsOfItem(a.items, k);
        VarsOfItem(b.items, k);
      } else if a.Obj? {
        var i :| 0 <= i < |b.fields| && Lookup(b.fields, a.fields[k].key) == b.fields[i].term;
        VarsOfField(a.fields, k);
        VarsOfField(b.fields, i);
      }
    }
  }

  lemma {:induction false} VarsOfItem(items: seq<Term>, i: nat)
    requires i < |items|
    ensures VarsOf(items[i]) <= VarsOfItems(items)
  {
    if i > 0 { VarsOfItem(items[1..], i - 1); }
  }

  lemma {:induction false} VarsOfField(fields: seq<Field>, i: nat)
    requires i < |fields|
    ensures VarsOf(fields[i].term) <= VarsOfFields(fields)
  {
    if i > 0 { VarsOfField(fields[1..], i - 1); }
  }

  /** A run uses no variables other than those of the terms and the bindings. */
  lemma {:induction false} UnifyWithin(n: nat, l: Term, r: Term, s: Subst, vars: set<int>)
    requires Proper(s) && Plain(l) && Plain(r)
    requires Within(s, vars) && VarsOf(l) <= vars && VarsOf(r) <= vars
    ensures var u := Unify(n, l, r, s); u.Ends? && u.value.Some? ==> Within(u.value.value, vars)
    decreases n, 0
  {
    RootPlain(l, s);
    RootPlain(r, s);
    RootWithin(l, s, vars);
    RootWithin(r, s, vars);
    var a, b := Root(l, s), Root(r, s);
    if n > 0 && !a.LVar? && !b.LVar? && Parts(a, b).Some? {
      PartsPlain(a, b);
      PartsWithin(a, b, vars);
      UnifyPairsWithin(n - 1, Parts(a, b).value, s, vars);
    }
  }

  lemma {:induction false} UnifyPairsWithin(n: nat, pairs: seq<Pair>, s: Subst, vars: set<int>)
    requires Proper(s) && PlainPairs(pairs) && Within(s, vars) && PairsWithin(pairs, vars)
    ensures var u := UnifyPairs(n, pairs, s); u.Ends? && u.value.Some? ==> Within(u.value.value, vars)
    decreases n, |pairs|
  {
    if pairs != [] {
      UnifyWithin(n, pairs[0].0, pairs[0].1, s, vars);
      var u := Unify(n, pairs[0].0, pairs[0].1, s);
      if u.Ends? && u.value.Some? { UnifyPairsWithin(n, pairs[1..], u.value.value, vars); }
    }
  }

  /** What a run that closes no cycle returns is free of cycles. */
  lemma {:induction false} StaysAcyclic(n: nat, l: Term, r: Term, s: Subst)
    requires Proper(s) && Plain(l) && Plain(r) && DeepAcyclic(s) && !ClosesCycle(n, l, r, s)
    ensures var u := Unify(n, l, r, s); u.Ends? && u.value.Some? ==> DeepAcyclic(u.value.value)
    decreases n, 0
  {
    RootPlain(l, s);
    RootPlain(r, s);
    var a, b := Root(l, s), Root(r, s);
    if n > 0 && !a.LVar? && !b.LVar? && Parts(a, b).Some? {
      PartsPlain(a, b);
      PairsStayAcyclic(n - 1, Parts(a, b).value, s);
    }
  }

  lemma {:induction false} PairsStayAcyclic(n: nat, pairs: seq<Pair>, s: Subst)
    requires Proper(s) && PlainPairs(pairs) && DeepAcyclic(s) && !PairsCloseCycle(n, pairs, s)
    ensures var u := UnifyPairs(n, pairs, s); u.Ends? && u.value.Some? ==> DeepAcyclic(u.value.value)
    decreases n, |pairs|
  {
    if pairs != [] {
      StaysAcyclic(n, pairs[0].0, pairs[0].1, s);
      var u := Unify(n, pairs[0].0, pairs[0].1, s);
      if u.Ends? && u.value.Some? { PairsStayAcyclic(n, pairs[1..], u.value.value); }
    }
  }

  /** One solution of cycle-free bindings. */
  ghost function SolutionOf(s: Subst): (th: Assignment)
    requires DeepAcyclic(s)
    ensures Solves(th, s)
  {
    var r: int -> nat :| DeepRanks(r, s);
    CompletedSolves(_ => VPrim(Undefined), s, r);
    Completed(_ => VPrim(Undefined), s, r)
  }

  /** Two terms whose parts have to be unified next. */
  ghost predicate Descends(l: Term, r: Term, s: Subst)
    requires Proper(s)
  {
    !Root(l, s).LVar? && !Root(r, s).LVar? && Parts(Root(l, s), Root(r, s)).Some?
  }

  lemma DecidedAtOnce(l: Term, r: Term, s: Subst)
    requires Proper(s) && Plain(l) && Plain(r) && !Descends(l, r, s)
    ensures EndsOrClosesAt(1, l, r, s)
  {
    RootPlain(l, s);
    RootPlain(r, s);
  }

  /** Pairs over these variables, with fewer than `free` of them unbound, or `free` of them
      and left sides that denote smaller values than `v`. */
  ghost predicate Measured(pairs: seq<Pair>, s: Subst, vars: set<int>, free: nat, v: Value) {
    && Proper(s) && PlainPairs(pairs) && DeepAcyclic(s) && Within(s, vars) && PairsWithin(pairs, vars)
    && (|vars - s.Keys| < free
        || (|vars - s.Keys| == free && forall p :: p in pairs ==> Inst(SolutionOf(s), p.0) < v))
  }

  ghost predicate EndsOrClosesAt(n: nat, l: Term, r: Term, s: Subst)
    requires Proper(s) && Plain(l) && Plain(r)
  {
    Unify(n, l, r, s).Ends? || ClosesCycle(n, l, r, s)
  }

  ghost predicate PairsEndOrCloseAt(n: nat, pairs: seq<Pair>, s: Subst)
    requires Proper(s) && PlainPairs(pairs)
  {
    UnifyPairs(n, pairs, s).Ends? || PairsCloseCycle(n, pairs, s)
  }

  /** The parts are plain, use the same variables, and denote smaller values. */
  lemma PartsReady(l: Term, r: Term, s: Subst, vars: set<int>)
    requires Proper(s) && Plain(l) && Plain(r) && DeepAcyclic(s) && Descends(l, r, s)
    requires Within(s, vars) && VarsOf(l) <= vars && VarsOf(r) <= vars
    ensures Measured(Parts(Root(l, s), Root(r, s)).value, s, vars, |vars - s.Keys|, Inst(SolutionOf(s), l))
  {
    RootPlain(l, s);
    RootPlain(r, s);
    RootWithin(l, s, vars);
    RootWithin(r, s, vars);
    RootValue(SolutionOf(s), l, s);
    PartsPlain(Root(l, s), Root(r, s));
    PartsWithin(Root(l, s), Root(r, s), vars);
    PartsBelow(SolutionOf(s), Root(l, s), Root(r, s));
  }

  lemma PartsDecide(l: Term, r: Term, s: Subst, m: nat)
    requires Proper(s) && Plain(l) && Plain(r) && Descends(l, r, s)
    requires var pairs := Parts(Root(l, s), Root(r, s)).value;
      PlainPairs(pairs) && PairsEndOrCloseAt(m, pairs, s)
    ensures EndsOrClosesAt(m + 1, l, r, s)
  {
    RootPlain(l, s);
    RootPlain(r, s);
  }

  /** From cycle-free bindings, every run ends or closes a cycle: either a variable gets
      bound, which can happen only finitely often, or the resolved terms become smaller. */
  lemma {:induction false} EndsOrCloses(l: Term, r: Term, s: Subst, vars: set<int>) returns (n: nat)
    requires Proper(s) && Plain(l) && Plain(r) && DeepAcyclic(s)
    requires Within(s, vars) && VarsOf(l) <= vars && VarsOf(r) <= vars
    ensures EndsOrClosesAt(n, l, r, s)
    decreases |vars - s.Keys|, Inst(SolutionOf(s), l), 1
  {
    n := 1;
    if Descends(l, r, s) {
      PartsReady(l, r, s, vars);
      var pairs := Parts(Root(l, s), Root(r, s)).value;
      var m := PairsEndOrClose(pairs, s, vars, |vars - s.Keys|, Inst(SolutionOf(s), l));
      PartsDecide(l, r, s, m);
      n := m + 1;
    } else {
      DecidedAtOnce(l, r, s);
    }
  }

  lemma {:induction false} PairsEndOrClose(pairs: seq<Pair>, s: Subst, vars: set<int>, free: nat, v: Value)
    returns (n: nat)
    requires Measured(pairs, s, vars, free, v)
    ensures PairsEndOrCloseAt(n, pairs, s)
    decreases free, v, 0, |pairs|
  {
    n := 0;
    if pairs != [] {
      var (x, y) := pairs[0];
      assert pairs[0] in pairs;
      n := EndsOrCloses(x, y, s, vars);
      if !ClosesCycle(n, x, y, s) && Unify(n, x, y, s).value.Some? {
        var s' := Unify(n, x, y, s).value.value;
        StaysAcyclic(n, x, y, s);
        UnifyWithin(n, x, y, s, vars);
        FewerFree(s, s', vars);
        var m := PairsEndOrClose(pairs[1..], s', vars, free, v);
        n := PairsJoin(n, m, pairs, s);
      }
    }
  }

  lemma PairsJoin(k: nat, m: nat, pairs: seq<Pair>, s: Subst) returns (n: nat)
    requires pairs != [] && Proper(s) && PlainPairs(pairs)
    requires Unify(k, pairs[0].0, pairs[0].1, s).Ends? && Unify(k, pairs[0].0, pairs[0].1, s).value.Some?
    requires var s' := Unify(k, pairs[0].0, pairs[0].1, s).value.value;
      PairsEndOrCloseAt(m, pairs[1..], s')
    ensures PairsEndOrCloseAt(n, pairs, s)
  {
    var s' := Unify(k, pairs[0].0, pairs[0].1, s).value.value;
    n := if k < m then m else k;
    UnifyDeeper(k, n, pairs[0].0, pairs[0].1, s);
    if UnifyPairs(m, pairs[1..], s').Ends? {
      PairsDeeper(m, n, pairs[1..], s');
    } else {
      PairsCloseDeeper(m, n, pairs[1..], s');
    }
  }

  lemma FewerFree(s: Subst, s': Subst, vars: set<int>)
    requires Extends(s, s') && Within(s, vars) && Within(s', vars)
    ensures s == s' || |vars - s'.Keys| < |vars - s.Keys|
  {
    forall v | v in s.Keys ensures v in s'.Keys {
      assert v in s;
    }
    FewerKeys(s.Keys, s'.Keys, vars);
    if s.Keys == s'.Keys { SameSubst(s, s'); }
  }

  lemma SameSubst(s: Subst, s': Subst)
    requires Extends(s, s') && s.Keys == s'.Keys
    ensures s == s'
  {
    forall v | v in s ensures s'[v] == s[v] {}
  }

  lemma FewerKeys(a: set<int>, b: set<int>, vars: set<int>)
    requires a <= b <= vars
    ensures a == b || |vars - b| < |vars - a|
  {
    SubsetCardinality(vars - b, vars - a);
    assert a == vars - (vars - a) && b == vars - (vars - b);
  }

  /** On cyclic bindings it may run forever: two lists that contain themselves. */
  lemma {:induction false} CyclesRunForever(n: nat, s: Subst)
    requires s == map[1 := Arr([LVar(1)]), 2 := Arr([LVar(2)])]
    ensures Proper(s) && Unify(n, LVar(1), LVar(2), s) == Running
  {
    assert Ranks(_ => 0, s);
    if n > 0 {
      assert Root(LVar(1), s) == Root(s[1], s) == Arr([LVar(1)]);
      assert Root(LVar(2), s) == Root(s[2], s) == Arr([LVar(2)]);
      if n > 1 { CyclesRunForever(n - 1, s); }
      assert Parts(Arr([LVar(1)]), Arr([LVar(2)])).value == [(LVar(1), LVar(2))];
    }
  }

  // ---- A condition that can be checked before the call ----

  /** A variable never has to be bound to a compound term that contains variables. */
  predicate Compatible(l: Term, r: Term)
    decreases l
  {
    Ground(l) || Ground(r) ||
    match (l, r)
    case (LVar(_), LVar(_)) => true
    case (LVar(_), _) => false
    case (_, LVar(_)) => false
    case (Arr(a), Arr(b)) => |a| == |b| ==> forall i :: 0 <= i < |a| ==> Compatible(a[i], b[i])
    case (Obj(a), Obj(b)) => SameKeys(a, b) ==> forall i :: 0 <= i < |a| ==> Compatible(a[i].term, Lookup(b, a[i].key))
    case _ => true
  }

  /** Every variable is bound to a variable or a variable-free term. */
  ghost predicate Flat(s: Subst) {
    Proper(s) && forall v :: v in s ==> s[v].LVar? || Ground(s[v])
  }

  lemma {:induction false} GroundHasNoVars(t: Term)
    requires Ground(t)
    ensures VarsOf(t) == {}
  {
    match t {
      case Lit(_) =>
      case Arr(items) => GroundItems(items);
      case Obj(fields) => GroundFields(fields);
    }
  }

  lemma {:induction false} GroundItems(items: seq<Term>)
    requires forall i :: 0 <= i < |items| ==> Ground(items[i])
    ensures VarsOfItems(items) == {}
  {
    if items != [] {
      GroundHasNoVars(items[0]);
      GroundItems(items[1..]);
    }
  }

  lemma {:induction false} GroundFields(fields: seq<Field>)
    requires forall i :: 0 <= i < |fields| ==> Ground(fields[i].term)
    ensures VarsOfFields(fields) == {}
  {
    if fields != [] {
      GroundHasNoVars(fields[0].term);
      GroundFields(fields[1..]);
    }
  }

  lemma FlatIsAcyclic(s: Subst)
    requires Flat(s)
    ensures DeepAcyclic(s)
  {
    var r := RankOf(s);
    forall v | v in s ensures RanksBelow(r, s, s[v], r(v)) {
      if !s[v].LVar? { GroundHasNoVars(s[v]); }
    }
    assert DeepRanks(r, s);
  }

  lemma {:induction false} RootFlat(t: Term, s: Subst)
    requires Flat(s)
    ensures t.LVar? ==> Root(t, s).LVar? || Ground(Root(t, s))
    decreases if t.LVar? && t.id in s then RankOf(s)(t.id) + 1 else 0
  {
    if t.LVar? && t.id in s { RootFlat(s[t.id], s); }
  }

  lemma BindFlat(s: Subst, v: int, t: Term)
    requires Flat(s) && v !in s && t != LVar(v) && !(t.LVar? && t.id in s) && Plain(t) && (t.LVar? || Ground(t))
    ensures Flat(s[v := t]) && DeepAcyclic(s[v := t])
  {
    BindProper(s, v, t);
    FlatIsAcyclic(s[v := t]);
  }

  ghost predicate CompatiblePairs(pairs: seq<Pair>) {
    forall p :: p in pairs ==> Compatible(p.0, p.1)
  }

  lemma PartsCompatible(a: Term, b: Term)
    requires Compatible(a, b) && !a.LVar? && !b.LVar? && Parts(a, b).Some?
    ensures CompatiblePairs(Parts(a, b).value)
  {
  }

  /** Compatible terms and flat bindings never close a cycle, so their runs end. */
  lemma {:induction false} CompatibleStaysFlat(n: nat, l: Term, r: Term, s: Subst)
    requires Flat(s) && Plain(l) && Plain(r) && Compatible(l, r)
    ensures !ClosesCycle(n, l, r, s)
    ensures var u := Unify(n, l, r, s); u.Ends? && u.value.Some? ==> Flat(u.value.value)
    decreases n, 0
  {
    RootPlain(l, s);
    RootPlain(r, s);
    RootFlat(l, s);
    RootFlat(r, s);
    var a, b := Root(l, s), Root(r, s);
    if n == 0 || (a.LVar? && b.LVar? && a.id == b.id) {
    } else if a.LVar? {
      BindFlat(s, a.id, b);
    } else if b.LVar? {
      BindFlat(s, b.id, a);
    } else if Parts(a, b).Some? {
      PartsPlain(a, b);
      PartsCompatible(a, b);
      PairsStayFlat(n - 1, Parts(a, b).value, s);
    }
  }

  lemma {:induction false} PairsStayFlat(n: nat, pairs: seq<Pair>, s: Subst)
    requires Flat(s) && PlainPairs(pairs) && CompatiblePairs(pairs)
    ensures !PairsCloseCycle(n, pairs, s)
    ensures var u := UnifyPairs(n, pairs, s); u.Ends? && u.value.Some? ==> Flat(u.value.value)
    decreases n, |pairs|
  {
    if pairs != [] {
      assert pairs[0] in pairs;
      CompatibleStaysFlat(n, pairs[0].0, pairs[0].1, s);
      var u := Unify(n, pairs[0].0, pairs[0].1, s);
      if u.Ends? && u.value.Some? { PairsStayFlat(n, pairs[1..], u.value.value); }
    }
  }

  ghost function VarsIn(s: Subst): set<int> {
    s.Keys + set v, w | v in s && w in VarsOf(s[v]) :: w
  }

  lemma CompatibleEnds(l: Term, r: Term, s: Subst) returns (n: nat)
    requires Flat(s) && Plain(l) && Plain(r) && Compatible(l, r)
    ensures Unify(n, l, r, s).Ends? && (Unify(n, l, r, s).value.Some? ==> Flat(Unify(n, l, r, s).value.value))
  {
    FlatIsAcyclic(s);
    var vars := VarsIn(s) + VarsOf(l) + VarsOf(r);
    forall v, w | v in s && w in VarsOf(s[v]) ensures w in vars {
      assert w in VarsIn(s);
    }
    n := EndsOrCloses(l, r, s, vars);
    CompatibleStaysFlat(n, l, r, s);
  }

  lemma CompatiblePairsEnd(pairs: seq<Pair>, s: Subst) returns (n: nat)
    requires Flat(s) && PlainPairs(pairs) && CompatiblePairs(pairs)
    ensures UnifyPairs(n, pairs, s).Ends? &&
      (UnifyPairs(n, pairs, s).value.Some? ==> Flat(UnifyPairs(n, pairs, s).value.value))
  {
    FlatIsAcyclic(s);
    var vars := VarsIn(s) + VarsOfPairs(pairs);
    forall v, w | v in s && w in VarsOf(s[v]) ensures w in vars {
      assert w in VarsIn(s);
    }
    VarsOfPairsCover(pairs);
    n := PairsEndOrClose(pairs, s, vars, |vars - s.Keys| + 1, VPrim(Null));
    PairsStayFlat(n, pairs, s);
  }

  ghost function VarsOfPairs(pairs: seq<Pair>): set<int> {
    if pairs == [] then {} else VarsOf(pairs[0].0) + VarsOf(pairs[0].1) + VarsOfPairs(pairs[1..])
  }

  lemma {:induction false} VarsOfPairsCover(pairs: seq<Pair>)
    ensures PairsWithin(pairs, VarsOfPairs(pairs))
  {
    if pairs != [] {
      VarsOfPairsCover(pairs[1..]);
      assert forall p :: p in pairs ==> p == pairs[0] || p in pairs[1..];
    }
  }

  // ---- Reading results back ----

  /** Replace every bound variable of `t` by what it stands for, at every depth. */
  function Reify(n: nat, t: Term, s: Subst): (u: Ending<Term>)
    requires Proper(s)
    decreases n, 0
  {
    if n == 0 then Running
    else match Root(t, s)
      case Arr(items) =>
        (match ReifyItems(n - 1, items, s) case Running => Running case Ends(ts) => Ends(Arr(ts)))
      case Obj(fields) =>
        (match ReifyFields(n - 1, fields, s) case Running => Running case Ends(fs) => Ends(Obj(fs)))
      case u => Ends(u)
  }

  function ReifyItems(n: nat, items: seq<Term>, s: Subst): (u: Ending<seq<Term>>)
    requires Proper(s)
    ensures u.Ends? ==> |u.value| == |items|
    decreases n, 1, |items|
  {
    if items == [] then Ends([])
    else match (Reify(n, items[0], s), ReifyItems(n, items[1..], s))
      case (Ends(t), Ends(ts)) => Ends([t] + ts)
      case _ => Running
  }

  function ReifyFields(n: nat, fields: seq<Field>, s: Subst): (u: Ending<seq<Field>>)
    requires Proper(s)
    decreases n, 1, |fields|
  {
    if fields == [] then Ends([])
    else match (Reify(n, fields[0].term, s), ReifyFields(n, fields[1..], s))
      case (Ends(t), Ends(fs)) => Ends([Field(fields[0].key, t)] + fs)
      case _ => Running
  }

  lemma {:induction false} ReifyDeeper(n: nat, m: nat, t: Term, s: Subst)
    requires n <= m && Proper(s) && Reify(n, t, s).Ends?
    ensures Reify(m, t, s) == Reify(n, t, s)
    decreases n, 0
  {
    match Root(t, s) {
      case Arr(items) => ReifyItemsDeeper(n - 1, m - 1, items, s);
      case Obj(fields) => ReifyFieldsDeeper(n - 1, m - 1, fields, s);
      case _ =>
    }
  }

  lemma {:induction false} ReifyItemsDeeper(n: nat, m: nat, items: seq<Term>, s: Subst)
    requires n <= m && Proper(s) && ReifyItems(n, items, s).Ends?
    ensures ReifyItems(m, items, s) == ReifyItems(n, items, s)
    decreases n, 1, |items|
  {
    if items != [] {
      ReifyDeeper(n, m, items[0], s);
      ReifyItemsDeeper(n, m, items[1..], s);
    }
  }

  lemma {:induction false} ReifyFieldsDeeper(n: nat, m: nat, fields: seq<Field>, s: Subst)
    requires n <= m && Proper(s) && ReifyFields(n, fields, s).Ends?
    ensures ReifyFields(m, fields, s) == ReifyFields(n, fields, s)
    decreases n, 1, |fields|
  {
    if fields != [] {
      ReifyDeeper(n, m, fields[0].term, s);
      ReifyFieldsDeeper(n, m, fields[1..], s);
    }
  }

  /** What is read back denotes the same value under every solution, and no bound variable
      is left in it. */
  lemma {:induction false} ReifyValue(n: nat, t: Term, s: Subst, th: Assignment)
    requires Proper(s) && Reify(n, t, s).Ends?
    ensures Solves(th, s) ==> Inst(th, Reify(n, t, s).value) == Inst(th, t)
    ensures VarsOf(Reify(n, t, s).value) !! s.Keys
    decreases n, 0
  {
    if Solves(th, s) { RootValue(th, t, s); }
    match Root(t, s) {
      case Arr(items) => ReifyItemsValue(n - 1, items, s, th);
      case Obj(fields) => ReifyFieldsValue(n - 1, fields, s, th);
      case _ =>
    }
  }

  lemma {:induction false} ReifyItemsValue(n: nat, items: seq<Term>, s: Subst, th: Assignment)
    requires Proper(s) && ReifyItems(n, items, s).Ends?
    ensures Solves(th, s) ==> InstItems(th, ReifyItems(n, items, s).value) == InstItems(th, items)
    ensures VarsOfItems(ReifyItems(n, items, s).value) !! s.Keys
    decreases n, 1, |items|
  {
    if items != [] {
      ReifyValue(n, items[0], s, th);
      ReifyItemsValue(n, items[1..], s, th);
      assert ReifyItems(n, items, s).value[1..] == ReifyItems(n, items[1..], s).value;
    }
  }

  lemma {:induction false} ReifyFieldsValue(n: nat, fields: seq<Field>, s: Subst, th: Assignment)
    requires Proper(s) && ReifyFields(n, fields, s).Ends?
    ensures Solves(th, s) ==> InstFields(th, ReifyFields(n, fields, s).value) == InstFields(th, fields)
    ensures VarsOfFields(ReifyFields(n, fields, s).value) !! s.Keys
    decreases n, 1, |fields|
  {
    if fields != [] {
      ReifyValue(n, fields[0].term, s, th);
      ReifyFieldsValue(n, fields[1..], s, th);
      assert ReifyFields(n, fields, s).value[1..] == ReifyFields(n, fields[1..], s).value;
    }
  }

  /** On cycle-free bindings reading back ends. */
  lemma {:induction false} ReifyEnds(t: Term, s: Subst, r: int -> nat, bound: nat) returns (n: nat)
    requires Proper(s) && DeepRanks(r, s) && RanksBelow(r, s, t, bound)
    ensures Reify(n, t, s).Ends?
    decreases bound, t, 1
  {
    match t {
      case LVar(x) =>
        n := 1;
        if x in s {
          assert x in VarsOf(t) && RanksBelow(r, s, s[x], r(x));
          n := ReifyEnds(s[x], s, r, r(x));
        }
      case Lit(_) => n := 1;
      case Arr(items) =>
        var m := ReifyItemsEnd(items, s, r, bound);
        n := m + 1;
      case Obj(fields) =>
        var m := ReifyFieldsEnd(fields, s, r, bound);
        n := m + 1;
    }
  }

  lemma {:induction false} ReifyItemsEnd(items: seq<Term>, s: Subst, r: int -> nat, bound: nat) returns (n: nat)
    requires Proper(s) && DeepRanks(r, s) && forall w :: w in VarsOfItems(items) && w in s ==> r(w) < bound
    ensures ReifyItems(n, items, s).Ends?
    decreases bound, items, 0
  {
    n := 0;
    if items != [] {
      var k := ReifyEnds(items[0], s, r, bound);
      var m := ReifyItemsEnd(items[1..], s, r, bound);
      n := if k < m then m else k;
      ReifyDeeper(k, n, items[0], s);
      ReifyItemsDeeper(m, n, items[1..], s);
    }
  }

  lemma {:induction false} ReifyFieldsEnd(fields: seq<Field>, s: Subst, r: int -> nat, bound: nat) returns (n: nat)
    requires Proper(s) && DeepRanks(r, s) && forall w :: w in VarsOfFields(fields) && w in s ==> r(w) < bound
    ensures ReifyFields(n, fields, s).Ends?
    decreases bound, fields, 0
  {
    n := 0;
    if fields != [] {
      var k := ReifyEnds(fields[0].term, s, r, bound);
      var m := ReifyFieldsEnd(fields[1..], s, r, bound);
      n := if k < m then m else k;
      ReifyDeeper(k, n, fields[0].term, s);
      ReifyFieldsDeeper(m, n, fields[1..], s);
    }
  }

  lemma {:induction false} SameOnVars(th: Assignment, th': Assignment, t: Term)
    requires forall w :: w in VarsOf(t) ==> th(w) == th'(w)
    ensures Inst(th, t) == Inst(th', t)
  {
    match t {
      case Arr(items) => SameOnItems(th, th', items);
      case Obj(fields) => SameOnFields(th, th', fields);
      case _ =>
    }
  }

  lemma {:induction false} SameOnItems(th: Assignment, th': Assignment, items: seq<Term>)
    requires forall w :: w in VarsOfItems(items) ==> th(w) == th'(w)
    ensures InstItems(th, items) == InstItems(th', items)
  {
    if items != [] {
      SameOnVars(th, th', items[0]);
      SameOnItems(th, th', items[1..]);
    }
  }

  lemma {:induction false} SameOnFields(th: Assignment, th': Assignment, fields: seq<Field>)
    requires forall w :: w in VarsOfFields(fields) ==> th(w) == th'(w)
    ensures InstFields(th, fields) == InstFields(th', fields)
  {
    if fields != [] {
      SameOnVars(th, th', fields[0].term);
      SameOnFields(th, th', fields[1..]);
    }
  }

  /** Every bound variable can be read back exactly when the bindings have a solution. */
  lemma ReadBackIff(s: Subst)
    requires Proper(s)
    ensures (exists n: nat :: AllReadBack(n, s)) <==> DeepAcyclic(s)
  {
    if DeepAcyclic(s) {
      var r: int -> nat :| DeepRanks(r, s);
      var n := KeysReadBack(s, r, s.Keys);
      assert AllReadBack(n, s);
    }
    if n: nat :| AllReadBack(n, s) {
      ReadBackSolves(n, s);
    }
  }

  ghost predicate AllReadBack(n: nat, s: Subst)
    requires Proper(s)
  {
    forall x :: x in s ==> Reify(n, LVar(x), s).Ends?
  }

  lemma {:induction false} KeysReadBack(s: Subst, r: int -> nat, keys: set<int>) returns (n: nat)
    requires Proper(s) && DeepRanks(r, s)
    ensures forall x :: x in keys ==> Reify(n, LVar(x), s).Ends?
  {
    n := 0;
    if keys != {} {
      var x := Pick(keys);
      RankedBelow(r, s, LVar(x));
      var k := ReifyEnds(LVar(x), s, r, Above(r, VarsOf(LVar(x))) + 1);
      var m := KeysReadBack(s, r, keys - {x});
      n := if k < m then m else k;
      forall y | y in keys ensures Reify(n, LVar(y), s).Ends? {
        ReifyDeeper(if y == x then k else m, n, LVar(y), s);
      }
    }
  }

  /** The values read back, with free variables undefined. */
  ghost function ValuesRead(n: nat, s: Subst): Assignment
    requires Proper(s) && AllReadBack(n, s)
  {
    (x: int) => if x in s then Inst(_ => VPrim(Undefined), Reify(n, LVar(x), s).value) else VPrim(Undefined)
  }

  lemma {:induction false} ReadIsValue(n: nat, m: nat, t: Term, s: Subst)
    requires Proper(s) && AllReadBack(n, s) && Reify(m, t, s).Ends?
    ensures Inst(_ => VPrim(Undefined), Reify(m, t, s).value) == Inst(ValuesRead(n, s), t)
    decreases t
  {
    match t {
      case LVar(x) =>
        if x in s { ReifyDeeper(if n < m then n else m, if n < m then m else n, t, s); }
      case Lit(_) =>
      case Arr(items) => ReadItemsAreValues(n, m - 1, items, s);
      case Obj(fields) => ReadFieldsAreValues(n, m - 1, fields, s);
    }
  }

  lemma {:induction false} ReadItemsAreValues(n: nat, m: nat, items: seq<Term>, s: Subst)
    requires Proper(s) && AllReadBack(n, s) && ReifyItems(m, items, s).Ends?
    ensures InstItems(_ => VPrim(Undefined), ReifyItems(m, items, s).value) == InstItems(ValuesRead(n, s), items)
    decreases items
  {
    if items != [] {
      ReadIsValue(n, m, items[0], s);
      ReadItemsAreValues(n, m, items[1..], s);
      assert ReifyItems(m, items, s).value[1..] == ReifyItems(m, items[1..], s).value;
    }
  }

  lemma {:induction false} ReadFieldsAreValues(n: nat, m: nat, fields: seq<Field>, s: Subst)
    requires Proper(s) && AllReadBack(n, s) && ReifyFields(m, fields, s).Ends?
    ensures InstFields(_ => VPrim(Undefined), ReifyFields(m, fields, s).value) == InstFields(ValuesRead(n, s), fields)
    decreases fields
  {
    if fields != [] {
      ReadIsValue(n, m, fields[0].term, s);
      ReadFieldsAreValues(n, m, fields[1..], s);
      assert ReifyFields(m, fields, s).value[1..] == ReifyFields(m, fields[1..], s).value;
    }
  }

  lemma ReadBackSolves(n: nat, s: Subst)
    requires Proper(s) && AllReadBack(n, s)
    ensures Solves(ValuesRead(n, s), s) && DeepAcyclic(s)
  {
    forall v | v in s ensures ValuesRead(n, s)(v) == Inst(ValuesRead(n, s), s[v]) {
      assert Root(LVar(v), s) == Root(s[v], s);
      assert Reify(n, LVar(v), s) == Reify(n, s[v], s);
      ReadIsValue(n, n, s[v], s);
    }
    SolutionRanks(ValuesRead(n, s), s);
  }

  /** The bindings of some variables only. */
  ghost function Restrict(s: Subst, vars: set<int>): Subst {
    map v | v in s && v in vars :: s[v]
  }

  /** Whoever follows bindings from these variables stays among them. */
  ghost predicate ClosedVars(vars: set<int>, s: Subst) {
    forall v :: v in vars && v in s ==> VarsOf(s[v]) <= vars
  }

  lemma RestrictProper(s: Subst, vars: set<int>)
    requires Proper(s)
    ensures Proper(Restrict(s, vars))
  {
    var r := RankOf(s);
    assert Ranks(r, Restrict(s, vars));
  }

  lemma {:induction false} RestrictRoot(t: Term, s: Subst, vars: set<int>)
    requires Proper(s) && VarsOf(t) <= vars && ClosedVars(vars, s)
    ensures Acyclic(Restrict(s, vars)) && Root(t, Restrict(s, vars)) == Root(t, s) && VarsOf(Root(t, s)) <= vars
    decreases if t.LVar? && t.id in s then RankOf(s)(t.id) + 1 else 0
  {
    RestrictProper(s, vars);
    if t.LVar? && t.id in s {
      assert t.id in VarsOf(t);
      RestrictRoot(s[t.id], s, vars);
    }
  }

  /** Only these bindings matter for reading back. */
  lemma {:induction false} RestrictReify(n: nat, t: Term, s: Subst, vars: set<int>)
    requires Proper(s) && Proper(Restrict(s, vars)) && VarsOf(t) <= vars && ClosedVars(vars, s)
    ensures Reify(n, t, Restrict(s, vars)) == Reify(n, t, s)
    decreases n, 0
  {
    RestrictRoot(t, s, vars);
    if n > 0 {
      match Root(t, s) {
        case Arr(items) => RestrictReifyItems(n - 1, items, s, vars);
        case Obj(fields) => RestrictReifyFields(n - 1, fields, s, vars);
        case _ =>
      }
    }
  }

  lemma {:induction false} RestrictReifyItems(n: nat, items: seq<Term>, s: Subst, vars: set<int>)
    requires Proper(s) && Proper(Restrict(s, vars)) && VarsOfItems(items) <= vars && ClosedVars(vars, s)
    ensures ReifyItems(n, items, Restrict(s, vars)) == ReifyItems(n, items, s)
    decreases n, 1, |items|
  {
    if items != [] {
      RestrictReify(n, items[0], s, vars);
      RestrictReifyItems(n, items[1..], s, vars);
    }
  }

  lemma {:induction false} RestrictReifyFields(n: nat, fields: seq<Field>, s: Subst, vars: set<int>)
    requires Proper(s) && Proper(Restrict(s, vars)) && VarsOfFields(fields) <= vars && ClosedVars(vars, s)
    ensures ReifyFields(n, fields, Restrict(s, vars)) == ReifyFields(n, fields, s)
    decreases n, 1, |fields|
  {
    if fields != [] {
      RestrictReify(n, fields[0].term, s, vars);
      RestrictReifyFields(n, fields[1..], s, vars);
    }
  }

  /** No cycle can be reached from the variables of `t`. */
  ghost predicate AcyclicFrom(t: Term, s: Subst) {
    exists vars :: VarsOf(t) <= vars && ClosedVars(vars, s) && DeepAcyclic(Restrict(s, vars))
  }

  /** A term can be read back exactly when no cycle can be reached from it. */
  lemma ReadBackFromIff(t: Term, s: Subst)
    requires Proper(s)
    ensures (exists n: nat :: Reify(n, t, s).Ends?) <==> AcyclicFrom(t, s)
  {
    if AcyclicFrom(t, s) {
      var vars :| VarsOf(t) <= vars && ClosedVars(vars, s) && DeepAcyclic(Restrict(s, vars));
      RestrictProper(s, vars);
      var r: int -> nat :| DeepRanks(r, Restrict(s, vars));
      RankedBelow(r, Restrict(s, vars), t);
      var n := ReifyEnds(t, Restrict(s, vars), r, Above(r, VarsOf(t)) + 1);
      RestrictReify(n, t, s, vars);
    }
    if n: nat :| Reify(n, t, s).Ends? {
      ReadBackIsAcyclic(n, t, s);
    }
  }

  ghost function ReadVars(n: nat, t: Term, s: Subst): set<int>
    requires Proper(s)
  {
    set v | v in VarsIn(s) + VarsOf(t) && Reify(n, LVar(v), s).Ends?
  }

  lemma ReadBackIsAcyclic(n: nat, t: Term, s: Subst)
    requires Proper(s) && Reify(n, t, s).Ends?
    ensures AcyclicFrom(t, s)
  {
    var vars := ReadVars(n, t, s);
    forall v | v in VarsOf(t) ensures v in vars { VarsReadBack(n, t, s, v); }
    forall v, w | v in vars && v in s && w in VarsOf(s[v]) ensures w in vars {
      assert Root(LVar(v), s) == Root(s[v], s);
      VarsReadBack(n, s[v], s, w);
      assert w in VarsIn(s);
    }
    RestrictProper(s, vars);
    forall v | v in Restrict(s, vars) ensures Reify(n, LVar(v), Restrict(s, vars)).Ends? {
      RestrictReify(n, LVar(v), s, vars);
    }
    ReadBackSolves(n, Restrict(s, vars));
  }

  /** With a term, its variables are read back. */
  lemma {:induction false} VarsReadBack(n: nat, t: Term, s: Subst, v: int)
    requires Proper(s) && Reify(n, t, s).Ends? && v in VarsOf(t)
    ensures Reify(n, LVar(v), s).Ends?
    decreases t
  {
    match t {
      case LVar(_) =>
      case Arr(items) =>
        ItemVarsReadBack(n - 1, items, s, v);
        ReifyDeeper(n - 1, n, LVar(v), s);
      case Obj(fields) =>
        FieldVarsReadBack(n - 1, fields, s, v);
        ReifyDeeper(n - 1, n, LVar(v), s);
    }
  }

  lemma {:induction false} ItemVarsReadBack(n: nat, items: seq<Term>, s: Subst, v: int)
    requires Proper(s) && ReifyItems(n, items, s).Ends? && v in VarsOfItems(items)
    ensures Reify(n, LVar(v), s).Ends?
    decreases items
  {
    if v in VarsOf(items[0]) { VarsReadBack(n, items[0], s, v); } else { ItemVarsReadBack(n, items[1..], s, v); }
  }

  lemma {:induction false} FieldVarsReadBack(n: nat, fields: seq<Field>, s: Subst, v: int)
    requires Proper(s) && ReifyFields(n, fields, s).Ends? && v in VarsOfFields(fields)
    ensures Reify(n, LVar(v), s).Ends?
    decreases fields
  {
    if v in VarsOf(fields[0].term) {
      VarsReadBack(n, fields[0].term, s, v);
    } else {
      FieldVarsReadBack(n, fields[1..], s, v);
    }
  }

  /** After unification without a cycle, both terms read back, and they read back as equal
      for all values of the variables that are still free. */
  lemma UnifiedTermsReifyEqually(n: nat, l: Term, r: Term, s: Subst, th: Assignment) returns (m: nat)
    requires Proper(s) && Plain(l) && Plain(r) && Unify(n, l, r, s).Ends? && Unify(n, l, r, s).value.Some?
    requires DeepAcyclic(Unify(n, l, r, s).value.value)
    ensures var s' := Unify(n, l, r, s).value.value;
      && Reify(m, l, s').Ends? && Reify(m, r, s').Ends?
      && Inst(th, Reify(m, l, s').value) == Inst(th, Reify(m, r, s').value)
  {
    var s' := Unify(n, l, r, s).value.value;
    var k: int -> nat :| DeepRanks(k, s');
    RankedBelow(k, s', l);
    RankedBelow(k, s', r);
    var m1 := ReifyEnds(l, s', k, Above(k, VarsOf(l)) + 1);
    var m2 := ReifyEnds(r, s', k, Above(k, VarsOf(r)) + 1);
    m := if m1 < m2 then m2 else m1;
    ReifyDeeper(m1, m, l, s');
    ReifyDeeper(m2, m, r, s');
    var full := Completed(th, s', k);
    CompletedSolves(th, s', k);
    UnifyExact(n, l, r, s, full);
    ReifyValue(m, l, s', full);
    ReifyValue(m, r, s', full);
    SameOnVars(th, full, Reify(m, l, s').value);
    SameOnVars(th, full, Reify(m, r, s').value);
  }

  lemma RankedBelow(r: int -> nat, s: Subst, t: Term)
    ensures RanksBelow(r, s, t, Above(r, VarsOf(t)) + 1)
  {
    forall w | w in VarsOf(t) ensures r(w) < Above(r, VarsOf(t)) + 1 {
      AboveAll(r, VarsOf(t), w);
    }
  }
}
