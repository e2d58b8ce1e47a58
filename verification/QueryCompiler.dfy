// From a query specification to goals: the answers of a query are exactly the
// assignments of its named variables that satisfy all recognised clauses.
module QueryCompiler {
  import opened Common
  import opened Digraph
  import opened Unification
  import opened RelQuery

  // ---- The graph as tables ----

  type DataGraph = Graph<seq<Field>>

  ghost predicate PlainGraph(g: DataGraph) {
    Valid(g) && forall id :: id in g.attrs ==> Ground(Obj(g.attrs[id])) && Plain(Obj(g.attrs[id]))
  }

  /** A graph with its reachable pairs and those of the reversed graph. */
  datatype View = View(g: DataGraph, reach: seq<Edge>, back: seq<Edge>)

  ghost predicate Faithful(v: View) {
    && PlainGraph(v.g)
    && (forall e: Edge :: e in v.reach <==> Reaches(v.g, e.0, e.1))
    && (forall e: Edge :: e in v.back <==> Reaches(Reverse(v.g), e.0, e.1))
  }

  function Name(id: string): Term {
    Lit(Text(id))
  }

  function NodeRows(g: DataGraph): seq<seq<Term>>
    requires PlainGraph(g)
  {
    seq(|g.nodes|, i requires 0 <= i < |g.nodes| =>
      assert g.nodes[i] in Elems(g.nodes); [Name(g.nodes[i]), Obj(g.attrs[g.nodes[i]])])
  }

  function PairRows(pairs: seq<Edge>): seq<seq<Term>> {
    seq(|pairs|, i requires 0 <= i < |pairs| => [Name(pairs[i].0), Name(pairs[i].1)])
  }

  /** A missing attribute reads as undefined. */
  function AttrOf(fields: seq<Field>, name: string): Term {
    if HasKey(fields, name) then Lookup(fields, name) else Lit(Undefined)
  }

  function AttrRows(g: DataGraph, name: string, definedOnly: bool, ids: seq<string>): seq<seq<Term>>
    requires PlainGraph(g) && forall i :: 0 <= i < |ids| ==> ids[i] in g.attrs
  {
    if ids == [] then []
    else
      var t := AttrOf(g.attrs[ids[0]], name);
      (if definedOnly && t == Lit(Undefined) then [] else [[Name(ids[0]), t]]) +
        AttrRows(g, name, definedOnly, ids[1..])
  }

  function LabelsOf(g: DataGraph, ids: seq<string>): seq<(string, string)>
    requires PlainGraph(g) && forall i :: 0 <= i < |ids| ==> ids[i] in g.attrs
  {
    if ids == [] then []
    else
      (match AttrOf(g.attrs[ids[0]], "label")
       case Lit(Text(l)) => [(ids[0], l)]
       case _ => []) + LabelsOf(g, ids[1..])
  }

  lemma NodesHaveAttrs(g: DataGraph)
    requires PlainGraph(g)
    ensures forall i :: 0 <= i < |g.nodes| ==> g.nodes[i] in g.attrs
  {
    forall i | 0 <= i < |g.nodes| ensures g.nodes[i] in g.attrs {
      assert g.nodes[i] in Elems(g.nodes);
    }
  }

  ghost predicate HaveAttrs(g: DataGraph, ids: seq<string>) {
    forall i :: 0 <= i < |ids| ==> ids[i] in g.attrs
  }

  lemma Regroup<T>(a: seq<T>, b: seq<T>, c: seq<T>)
    ensures a + (b + c) == a + b + c
  {
  }

  /** Rows and labels come in the order of the nodes. */
  lemma {:induction false} AttrsInOrder(g: DataGraph, name: string, d: bool, x: seq<string>, y: seq<string>)
    requires PlainGraph(g) && HaveAttrs(g, x) && HaveAttrs(g, y)
    ensures HaveAttrs(g, x + y) && AttrRows(g, name, d, x + y) == AttrRows(g, name, d, x) + AttrRows(g, name, d, y)
    decreases |x|
  {
    if x == [] {
      assert x + y == y;
    } else {
      assert (x + y)[1..] == x[1..] + y && (x + y)[0] == x[0];
      AttrsInOrder(g, name, d, x[1..], y);
      var t := AttrOf(g.attrs[x[0]], name);
      var first := if d && t == Lit(Undefined) then [] else [[Name(x[0]), t]];
      Regroup(first, AttrRows(g, name, d, x[1..]), AttrRows(g, name, d, y));
    }
  }

  lemma {:induction false} LabelsOfInOrder(g: DataGraph, x: seq<string>, y: seq<string>)
    requires PlainGraph(g) && HaveAttrs(g, x) && HaveAttrs(g, y)
    ensures HaveAttrs(g, x + y) && LabelsOf(g, x + y) == LabelsOf(g, x) + LabelsOf(g, y)
    decreases |x|
  {
    if x == [] {
      assert x + y == y;
    } else {
      assert (x + y)[1..] == x[1..] + y && (x + y)[0] == x[0];
      LabelsOfInOrder(g, x[1..], y);
      var first := match AttrOf(g.attrs[x[0]], "label") case Lit(Text(l)) => [(x[0], l)] case _ => [];
      Regroup(first, LabelsOf(g, x[1..]), LabelsOf(g, y));
    }
  }

  // ---- Query specifications ----

  /** Terms are JSON values; a string that starts with "?" is a variable. */
  datatype Spec =
    | And(clauses: seq<Spec>)
    | Or(clauses: seq<Spec>)
    | Equals(left: Term, right: Term)
    | Node(id: Term, attrs: Term)
    | EdgeTo(source: Term, target: Term)
    | Attr(name: string, id: Term, value: Term)
    | LabelTest(test: TextTest, id: Term, value: Term)
    | Downstream(source: Term, target: Term)
    | Upstream(source: Term, target: Term)
    | JoinThrough(source: Term, middle: Term, target: Term)
    | Unknown

  predicate IsVariable(q: Term) {
    q.Lit? && q.p.Text? && "?" <= q.p.s
  }

  /** Only "value" and "content" skip nodes without the attribute. */
  predicate DefinedOnly(name: string) {
    name == "value" || name == "content"
  }

  predicate Recognised(c: Spec) {
    match c
    case Unknown => false
    case Or(clauses) => exists i :: 0 <= i < |clauses| && Recognised(clauses[i])
    case _ => true
  }

  /** Variables met so far; the i-th has the logic variable `base + i`. */
  datatype Vars = Vars(base: int, names: seq<string>)

  /** Distinct names, each the name of a variable. */
  ghost predicate ProperNames(names: seq<string>) {
    NoDup(names) && forall i :: 0 <= i < |names| ==> "?" <= names[i]
  }

  ghost predicate Grown(v: Vars, v': Vars) {
    v.base == v'.base && v.names <= v'.names && (ProperNames(v.names) ==> ProperNames(v'.names))
  }

  function IndexOf(names: seq<string>, x: string): (i: nat)
    ensures i <= |names| && (i < |names| ==> names[i] == x) && (i == |names| ==> x !in names)
  {
    if names == [] then 0 else if names[0] == x then 0 else 1 + IndexOf(names[1..], x)
  }

  function Translate(q: Term, vars: Vars): (r: (Term, Vars))
    ensures Grown(vars, r.1)
    decreases q, 1
  {
    match q
    case Lit(p) =>
      if IsVariable(q) then
        var i := IndexOf(vars.names, p.s);
        (LVar(vars.base + i), if i < |vars.names| then vars else vars.(names := vars.names + [p.s]))
      else (q, vars)
    case Arr(items) => var (ts, vars') := TranslateItems(items, vars); (Arr(ts), vars')
    case Obj(fields) => var (fs, vars') := TranslateFields(fields, vars); (Obj(fs), vars')
    case LVar(_) => (q, vars)
  }

  function TranslateItems(items: seq<Term>, vars: Vars): (r: (seq<Term>, Vars))
    ensures Grown(vars, r.1) && |r.0| == |items|
    decreases items, 0
  {
    if items == [] then ([], vars)
    else
      var (t, vars') := Translate(items[0], vars);
      var (ts, vars'') := TranslateItems(items[1..], vars');
      ([t] + ts, vars'')
  }

  function TranslateFields(fields: seq<Field>, vars: Vars): (r: (seq<Field>, Vars))
    ensures Grown(vars, r.1) && |r.0| == |fields|
    ensures forall i :: 0 <= i < |fields| ==> r.0[i].key == fields[i].key
    decreases fields, 0
  {
    if fields == [] then ([], vars)
    else
      var (t, vars') := Translate(fields[0].term, vars);
      var (fs, vars'') := TranslateFields(fields[1..], vars');
      ([Field(fields[0].key, t)] + fs, vars'')
  }

  lemma {:induction false} TranslatePlain(q: Term, vars: Vars)
    requires Plain(q)
    ensures Plain(Translate(q, vars).0)
    decreases q, 1
  {
    match q {
      case Arr(items) => TranslateItemsPlain(items, vars);
      case Obj(fields) => TranslateFieldsPlain(fields, vars);
      case _ =>
    }
  }

  lemma {:induction false} TranslateItemsPlain(items: seq<Term>, vars: Vars)
    requires forall i :: 0 <= i < |items| ==> Plain(items[i])
    ensures forall i :: 0 <= i < |items| ==> Plain(TranslateItems(items, vars).0[i])
    decreases items, 0
  {
    if items != [] {
      TranslatePlain(items[0], vars);
      TranslateItemsPlain(items[1..], Translate(items[0], vars).1);
    }
  }

  lemma {:induction false} TranslateFieldsPlain(fields: seq<Field>, vars: Vars)
    requires forall i :: 0 <= i < |fields| ==> Plain(fields[i].term)
    ensures forall i :: 0 <= i < |fields| ==> Plain(TranslateFields(fields, vars).0[i].term)
    decreases fields, 0
  {
    if fields != [] {
      TranslatePlain(fields[0].term, vars);
      TranslateFieldsPlain(fields[1..], Translate(fields[0].term, vars).1);
    }
  }

  /** Terms are translated left to right, sharing variables. */
  function Translate2(a: Term, b: Term, vars: Vars): (r: (Term, Term, Vars))
    ensures Grown(vars, r.2)
  {
    var (a', vars') := Translate(a, vars);
    var (b', vars'') := Translate(b, vars');
    (a', b', vars'')
  }

  function Compile(v: View, c: Spec, vars: Vars): (r: (Option<Goal>, Vars))
    requires Faithful(v)
    ensures Grown(vars, r.1)
    ensures r.0.Some? <==> Recognised(c)
    decreases c, 1
  {
    NodesHaveAttrs(v.g);
    match c
    case And(clauses) =>
      var (goals, vars') := CompileAll(v, clauses, vars);
      (Some(Conj(goals)), vars')
    case Or(clauses) =>
      var (goals, vars') := CompileAll(v, clauses, vars);
      (if |goals| > 0 then Some(Disj(goals)) else None, vars')
    case Equals(left, right) =>
      var (l, r, vars') := Translate2(left, right, vars);
      (Some(Equal(l, r)), vars')
    case Node(id, attrs) =>
      var (i, a, vars') := Translate2(id, attrs, vars);
      (Some(Rows([i, a], NodeRows(v.g))), vars')
    case EdgeTo(source, target) =>
      var (s, t, vars') := Translate2(source, target, vars);
      (Some(Rows([s, t], PairRows(v.g.edges))), vars')
    case Attr(name, id, value) =>
      var (i, w, vars') := Translate2(id, value, vars);
      (Some(Rows([i, w], AttrRows(v.g, name, DefinedOnly(name), v.g.nodes))), vars')
    case LabelTest(test, id, value) =>
      var (i, w, vars') := Translate2(id, value, vars);
      (Some(Labelled(i, w, test, LabelsOf(v.g, v.g.nodes))), vars')
    case Downstream(source, target) =>
      var (s, t, vars') := Translate2(source, target, vars);
      (Some(Rows([s, t], PairRows(v.reach))), vars')
    case Upstream(source, target) =>
      var (s, t, vars') := Translate2(source, target, vars);
      (Some(Rows([s, t], PairRows(v.back))), vars')
    case JoinThrough(source, middle, target) =>
      var (s, m, vars') := Translate2(source, middle, vars);
      var (t, vars'') := Translate(target, vars');
      (Some(Conj([Rows([s, m], PairRows(v.g.edges)), Rows([m, t], PairRows(v.g.edges))])), vars'')
    case Unknown => (None, vars)
  }

  /** The goals of the recognised clauses, in order. */
  function CompileAll(v: View, clauses: seq<Spec>, vars: Vars): (r: (seq<Goal>, Vars))
    requires Faithful(v)
    ensures Grown(vars, r.1)
    ensures r.0 != [] <==> exists i :: 0 <= i < |clauses| && Recognised(clauses[i])
    decreases clauses, 0
  {
    if clauses == [] then ([], vars)
    else
      var (g, vars') := Compile(v, clauses[0], vars);
      var (gs, vars'') := CompileAll(v, clauses[1..], vars');
      assert forall i :: 0 < i < |clauses| ==> clauses[i] == clauses[1..][i - 1];
      ((match g case None => [] case Some(x) => [x]) + gs, vars'')
  }

  /** Goals come in the order of their clauses, and variables are named in that order. */
  lemma {:induction false} GoalsInOrder(v: View, x: seq<Spec>, y: seq<Spec>, vars: Vars)
    requires Faithful(v)
    ensures var (first, mid) := CompileAll(v, x, vars); var (second, end) := CompileAll(v, y, mid);
      CompileAll(v, x + y, vars) == (first + second, end)
    decreases |x|
  {
    if x == [] {
      assert x + y == y && [] + CompileAll(v, y, vars).0 == CompileAll(v, y, vars).0;
    } else {
      assert (x + y)[1..] == x[1..] + y;
      var (g, vars') := Compile(v, x[0], vars);
      var (gs, mid) := CompileAll(v, x[1..], vars');
      GoalsInOrder(v, x[1..], y, vars');
      Regroup(match g case None => [] case Some(goal) => [goal], gs, CompileAll(v, y, mid).0);
    }
  }

  // ---- Meaning of a specification ----

  /** Values for the named variables of a query. */
  type Named = string -> Value

  ghost function Denote(sg: Named, q: Term): Value {
    match q
    case Lit(p) => if p.Text? && |p.s| > 0 && p.s[0] == '?' then sg(p.s) else VPrim(p)
    case Arr(items) => VArr(DenoteItems(sg, items))
    case Obj(fields) => VObj(DenoteFields(sg, fields))
    case LVar(_) => VPrim(Undefined)
  }

  ghost function DenoteItems(sg: Named, items: seq<Term>): seq<Value> {
    if items == [] then [] else [Denote(sg, items[0])] + DenoteItems(sg, items[1..])
  }

  ghost function DenoteFields(sg: Named, fields: seq<Field>): map<string, Value> {
    if fields == [] then map[] else DenoteFields(sg, fields[1..])[fields[0].key := Denote(sg, fields[0].term)]
  }

  /** The value of a term without variables. */
  ghost function ValueOf(t: Term): Value {
    Inst(_ => VPrim(Undefined), t)
  }

  ghost function NameOf(id: string): Value {
    VPrim(Text(id))
  }

  ghost predicate Related(pairs: iset<Edge>, u: Value, v: Value) {
    exists e: Edge :: e in pairs && u == NameOf(e.0) && v == NameOf(e.1)
  }

  ghost predicate NodeIs(g: DataGraph, u: Value, attrs: Value)
    requires PlainGraph(g)
  {
    exists n :: n in g.nodes && n in g.attrs && u == NameOf(n) && attrs == ValueOf(Obj(g.attrs[n]))
  }

  ghost predicate AttrIs(g: DataGraph, name: string, u: Value, w: Value)
    requires PlainGraph(g)
  {
    exists n :: n in g.nodes && n in g.attrs && AttrHere(g, name, n, u, w)
  }

  /** The field has the value; a field that is missing, or whose value is undefined, reads
      as undefined, except for "value" and "content", which are then not there. */
  ghost predicate AttrHere(g: DataGraph, name: string, n: string, u: Value, w: Value)
    requires n in g.attrs
  {
    && u == NameOf(n)
    && (name in ["value", "content"] ==> w != VPrim(Undefined))
    && if exists f :: f in g.attrs[n] && f.key == name
       then exists f :: f in g.attrs[n] && f.key == name && w == ValueOf(f.term)
       else w == VPrim(Undefined)
  }

  /** That is what is read off the fields. */
  lemma AttrHereExact(g: DataGraph, name: string, n: string, u: Value, w: Value)
    requires PlainGraph(g) && n in g.attrs
    ensures var t := AttrOf(g.attrs[n], name);
      AttrHere(g, name, n, u, w) <==> !(DefinedOnly(name) && t == Lit(Undefined)) && u == NameOf(n) && w == ValueOf(t)
  {
    var fields := g.attrs[n];
    FieldExact(g, name, n);
    assert name in ["value", "content"] <==> DefinedOnly(name);
    if HasKey(fields, name) {
      var f := Field(name, Lookup(fields, name));
      assert f in fields && forall h :: h in fields && h.key == name ==> h == f;
      assert ValueOf(f.term) == VPrim(Undefined) <==> f.term == Lit(Undefined) by { AttrOfGround(g, n, name); }
    }
  }

  /** A field is found by its key. */
  lemma FieldExact(g: DataGraph, name: string, n: string)
    requires PlainGraph(g) && n in g.attrs
    ensures HasKey(g.attrs[n], name) <==> exists f :: f in g.attrs[n] && f.key == name
    ensures forall f :: f in g.attrs[n] && f.key == name ==> AttrOf(g.attrs[n], name) == f.term
    ensures HasKey(g.attrs[n], name) ==> Field(name, AttrOf(g.attrs[n], name)) in g.attrs[n]
  {
    var fields := g.attrs[n];
    assert Plain(Obj(fields));
    if f :| f in fields && f.key == name {
      var i :| 0 <= i < |fields| && fields[i] == f;
      assert HasKey(fields, name);
    }
    if HasKey(fields, name) {
      var i :| 0 <= i < |fields| && fields[i].key == name && Lookup(fields, name) == fields[i].term;
      assert fields[i] == Field(name, Lookup(fields, name));
      assert forall j :: 0 <= j < |fields| && fields[j].key == name ==> j == i;
    }
  }

  ghost predicate LabelIs(g: DataGraph, test: TextTest, u: Value, w: Value)
    requires PlainGraph(g)
  {
    exists n :: n in g.nodes && n in g.attrs && LabelHere(g, test, n, u, w)
  }

  /** The label is a text that starts with `w`, or has it somewhere. */
  ghost predicate LabelHere(g: DataGraph, test: TextTest, n: string, u: Value, w: Value)
    requires n in g.attrs
  {
    && u == NameOf(n) && w.VPrim? && w.p.Text?
    && exists l :: Field("label", Lit(Text(l))) in g.attrs[n] && match test
       case StartsWith => exists b :: l == w.p.s + b
       case Includes => exists a, b :: l == a + w.p.s + b
  }

  lemma LabelHereExact(g: DataGraph, test: TextTest, n: string, u: Value, w: Value)
    requires PlainGraph(g) && n in g.attrs
    ensures LabelHere(g, test, n, u, w) <==> match AttrOf(g.attrs[n], "label")
      case Lit(Text(l)) => u == NameOf(n) && w.VPrim? && w.p.Text? && Passes(test, w.p.s, l)
      case _ => false
  {
    FieldExact(g, "label", n);
    forall pattern, l ensures (exists b :: l == pattern + b) <==> Passes(StartsWith, pattern, l) {
      PassesExact(pattern, l);
    }
    forall pattern, l ensures (exists a, b :: l == a + pattern + b) <==> Passes(Includes, pattern, l) {
      PassesExact(pattern, l);
    }
  }

  ghost function EdgesOf(g: DataGraph): iset<Edge> {
    iset e: Edge | e in g.edges
  }

  ghost function ReachOf(g: DataGraph): iset<Edge> {
    iset e: Edge | Reaches(g, e.0, e.1)
  }

  /** Clauses the compiler does not recognise are ignored. */
  ghost predicate Means(g: DataGraph, c: Spec, sg: Named)
    requires PlainGraph(g)
  {
    match c
    case And(clauses) => forall i :: 0 <= i < |clauses| && Recognised(clauses[i]) ==> Means(g, clauses[i], sg)
    case Or(clauses) => exists i :: 0 <= i < |clauses| && Recognised(clauses[i]) && Means(g, clauses[i], sg)
    case Equals(l, r) => Denote(sg, l) == Denote(sg, r)
    case Node(id, attrs) => NodeIs(g, Denote(sg, id), Denote(sg, attrs))
    case EdgeTo(s, t) => Related(EdgesOf(g), Denote(sg, s), Denote(sg, t))
    case Attr(name, id, w) => AttrIs(g, name, Denote(sg, id), Denote(sg, w))
    case LabelTest(test, id, w) => LabelIs(g, test, Denote(sg, id), Denote(sg, w))
    case Downstream(s, t) => Related(ReachOf(g), Denote(sg, s), Denote(sg, t))
    case Upstream(s, t) => Related(ReachOf(g), Denote(sg, t), Denote(sg, s))
    case JoinThrough(s, m, t) =>
      Related(EdgesOf(g), Denote(sg, s), Denote(sg, m)) && Related(EdgesOf(g), Denote(sg, m), Denote(sg, t))
    case Unknown => true
  }

  // ---- Compilation preserves meaning ----

  ghost predicate Agrees(th: Assignment, vars: Vars, sg: Named) {
    forall i :: 0 <= i < |vars.names| ==> th(vars.base + i) == sg(vars.names[i])
  }

  lemma AgreesEarlier(th: Assignment, vars: Vars, vars': Vars, sg: Named)
    requires Grown(vars, vars') && Agrees(th, vars', sg)
    ensures Agrees(th, vars, sg)
  {
    forall i | 0 <= i < |vars.names| ensures th(vars.base + i) == sg(vars.names[i]) {
      assert vars.names[i] == vars'.names[i];
    }
  }

  lemma {:induction false} TranslateValue(q: Term, vars: Vars, sg: Named, th: Assignment)
    requires Ground(q) && Agrees(th, Translate(q, vars).1, sg)
    ensures Inst(th, Translate(q, vars).0) == Denote(sg, q)
    decreases q, 1
  {
    match q {
      case Lit(p) =>
        if IsVariable(q) {
          var i, vars' := IndexOf(vars.names, p.s), Translate(q, vars).1;
          assert vars'.names[i] == p.s;
          assert th(vars'.base + i) == sg(vars'.names[i]);
        }
      case Arr(items) => TranslateItemsValue(items, vars, sg, th);
      case Obj(fields) => TranslateFieldsValue(fields, vars, sg, th);
    }
  }

  lemma {:induction false} TranslateItemsValue(items: seq<Term>, vars: Vars, sg: Named, th: Assignment)
    requires forall i :: 0 <= i < |items| ==> Ground(items[i])
    requires Agrees(th, TranslateItems(items, vars).1, sg)
    ensures InstItems(th, TranslateItems(items, vars).0) == DenoteItems(sg, items)
    decreases items, 0
  {
    if items != [] {
      var vars' := Translate(items[0], vars).1;
      AgreesEarlier(th, vars', TranslateItems(items[1..], vars').1, sg);
      TranslateValue(items[0], vars, sg, th);
      TranslateItemsValue(items[1..], vars', sg, th);
      assert TranslateItems(items, vars).0[1..] == TranslateItems(items[1..], vars').0;
    }
  }

  lemma {:induction false} TranslateFieldsValue(fields: seq<Field>, vars: Vars, sg: Named, th: Assignment)
    requires forall i :: 0 <= i < |fields| ==> Ground(fields[i].term)
    requires Agrees(th, TranslateFields(fields, vars).1, sg)
    ensures InstFields(th, TranslateFields(fields, vars).0) == DenoteFields(sg, fields)
    decreases fields, 0
  {
    if fields != [] {
      var vars' := Translate(fields[0].term, vars).1;
      AgreesEarlier(th, vars', TranslateFields(fields[1..], vars').1, sg);
      TranslateValue(fields[0].term, vars, sg, th);
      TranslateFieldsValue(fields[1..], vars', sg, th);
      assert TranslateFields(fields, vars).0[1..] == TranslateFields(fields[1..], vars').0;
    }
  }

  lemma Translate2Value(a: Term, b: Term, vars: Vars, sg: Named, th: Assignment)
    requires Ground(a) && Ground(b) && Agrees(th, Translate2(a, b, vars).2, sg)
    ensures Inst(th, Translate2(a, b, vars).0) == Denote(sg, a)
    ensures Inst(th, Translate2(a, b, vars).1) == Denote(sg, b)
  {
    var vars' := Translate(a, vars).1;
    AgreesEarlier(th, vars', Translate(b, vars').1, sg);
    TranslateValue(a, vars, sg, th);
    TranslateValue(b, vars', sg, th);
  }

  lemma {:induction false} GroundValue(th: Assignment, t: Term)
    requires Ground(t)
    ensures Inst(th, t) == ValueOf(t)
    decreases t, 1
  {
    match t {
      case Arr(items) => GroundItemsValue(th, items);
      case Obj(fields) => GroundFieldsValue(th, fields);
      case _ =>
    }
  }

  lemma {:induction false} GroundItemsValue(th: Assignment, items: seq<Term>)
    requires forall i :: 0 <= i < |items| ==> Ground(items[i])
    ensures InstItems(th, items) == InstItems(_ => VPrim(Undefined), items)
    decreases items, 0
  {
    if items != [] {
      GroundValue(th, items[0]);
      GroundItemsValue(th, items[1..]);
    }
  }

  lemma {:induction false} GroundFieldsValue(th: Assignment, fields: seq<Field>)
    requires forall i :: 0 <= i < |fields| ==> Ground(fields[i].term)
    ensures InstFields(th, fields) == InstFields(_ => VPrim(Undefined), fields)
    decreases fields, 0
  {
    if fields != [] {
      GroundValue(th, fields[0].term);
      GroundFieldsValue(th, fields[1..]);
    }
  }

  lemma TwoColumns(a: Term, b: Term, x: Term, y: Term, th: Assignment)
    requires Ground(x) && Ground(y)
    ensures RowHolds([a, b], [x, y], 0, th) <==> Inst(th, a) == ValueOf(x) && Inst(th, b) == ValueOf(y)
  {
    GroundValue(th, x);
    GroundValue(th, y);
    RowOfTwo([a, b], [x, y], th);
  }

  lemma RowOfTwo(terms: seq<Term>, row: seq<Term>, th: Assignment)
    requires |terms| == |row| == 2
    ensures RowHolds(terms, row, 0, th) <==>
      Inst(th, terms[0]) == Inst(th, row[0]) && Inst(th, terms[1]) == Inst(th, row[1])
  {
    assert RowHolds(terms, row, 2, th);
    assert RowHolds(terms, row, 1, th) <==> Inst(th, terms[1]) == Inst(th, row[1]);
  }

  lemma PairRowsMean(a: Term, b: Term, pairs: seq<Edge>, rel: iset<Edge>, th: Assignment)
    requires forall e: Edge :: e in pairs <==> e in rel
    ensures Sat(Rows([a, b], PairRows(pairs)), th) <==> Related(rel, Inst(th, a), Inst(th, b))
  {
    var rows := PairRows(pairs);
    forall k | 0 <= k < |pairs|
      ensures RowHolds([a, b], rows[k], 0, th) <==>
        Inst(th, a) == NameOf(pairs[k].0) && Inst(th, b) == NameOf(pairs[k].1)
    {
      TwoColumns(a, b, Name(pairs[k].0), Name(pairs[k].1), th);
    }
    if Sat(Rows([a, b], rows), th) {
      var k :| 0 <= k < |rows| && RowHolds([a, b], rows[k], 0, th);
      assert pairs[k] in pairs;
    }
    if Related(rel, Inst(th, a), Inst(th, b)) {
      var e: Edge :| e in rel && Inst(th, a) == NameOf(e.0) && Inst(th, b) == NameOf(e.1);
      var k :| 0 <= k < |pairs| && pairs[k] == e;
      assert RowHolds([a, b], rows[k], 0, th);
    }
  }

  lemma NodeRowsMean(g: DataGraph, a: Term, b: Term, th: Assignment)
    requires PlainGraph(g)
    ensures Sat(Rows([a, b], NodeRows(g)), th) <==> NodeIs(g, Inst(th, a), Inst(th, b))
  {
    NodesHaveAttrs(g);
    var rows := NodeRows(g);
    forall k | 0 <= k < |g.nodes| ensures NodeRowHolds(g, a, b, k, th) {
      TwoColumns(a, b, Name(g.nodes[k]), Obj(g.attrs[g.nodes[k]]), th);
    }
    if Sat(Rows([a, b], rows), th) {
      var k :| 0 <= k < |rows| && RowHolds([a, b], rows[k], 0, th);
      assert NodeRowHolds(g, a, b, k, th) && g.nodes[k] in g.nodes;
    }
    if NodeIs(g, Inst(th, a), Inst(th, b)) {
      var n :| n in g.nodes && n in g.attrs && Inst(th, a) == NameOf(n) && Inst(th, b) == ValueOf(Obj(g.attrs[n]));
      var k :| 0 <= k < |g.nodes| && g.nodes[k] == n;
      assert NodeRowHolds(g, a, b, k, th) && RowHolds([a, b], rows[k], 0, th);
    }
  }

  /** Row k of the node table says what it should. */
  ghost predicate NodeRowHolds(g: DataGraph, a: Term, b: Term, k: nat, th: Assignment)
    requires k < |g.nodes| && PlainGraph(g)
  {
    NodesHaveAttrs(g);
    RowHolds([a, b], NodeRows(g)[k], 0, th) <==>
      Inst(th, a) == NameOf(g.nodes[k]) && Inst(th, b) == ValueOf(Obj(g.attrs[g.nodes[k]]))
  }

  lemma AttrOfGround(g: DataGraph, id: string, name: string)
    requires PlainGraph(g) && id in g.attrs
    ensures Ground(AttrOf(g.attrs[id], name)) && Plain(AttrOf(g.attrs[id], name))
  {
    assert Ground(Obj(g.attrs[id])) && Plain(Obj(g.attrs[id]));
  }

  ghost predicate SomeRow(terms: seq<Term>, table: seq<seq<Term>>, th: Assignment) {
    exists k :: 0 <= k < |table| && RowHolds(terms, table[k], 0, th)
  }

  ghost predicate SomeLabel(a: Term, b: Term, test: TextTest, labels: seq<(string, string)>, th: Assignment) {
    exists k :: 0 <= k < |labels| && LabelHolds(a, b, test, labels[k], th)
  }

  lemma SomeRowAppend(terms: seq<Term>, x: seq<seq<Term>>, y: seq<seq<Term>>, th: Assignment)
    ensures SomeRow(terms, x + y, th) <==> SomeRow(terms, x, th) || SomeRow(terms, y, th)
  {
    assert forall k :: 0 <= k < |x| ==> (x + y)[k] == x[k];
    assert forall k :: 0 <= k < |y| ==> (x + y)[|x| + k] == y[k];
  }

  lemma SomeLabelAppend(a: Term, b: Term, test: TextTest, x: seq<(string, string)>, y: seq<(string, string)>,
                        th: Assignment)
    ensures SomeLabel(a, b, test, x + y, th) <==> SomeLabel(a, b, test, x, th) || SomeLabel(a, b, test, y, th)
  {
    assert forall k :: 0 <= k < |x| ==> (x + y)[k] == x[k];
    assert forall k :: 0 <= k < |y| ==> (x + y)[|x| + k] == y[k];
  }

  ghost predicate SomeAttr(g: DataGraph, name: string, ids: seq<string>, u: Value, w: Value) {
    exists i :: 0 <= i < |ids| && ids[i] in g.attrs && AttrHere(g, name, ids[i], u, w)
  }

  ghost predicate SomeLabelHere(g: DataGraph, test: TextTest, ids: seq<string>, u: Value, w: Value) {
    exists i :: 0 <= i < |ids| && ids[i] in g.attrs && LabelHere(g, test, ids[i], u, w)
  }

  lemma SomeHereCons(g: DataGraph, name: string, test: TextTest, ids: seq<string>, u: Value, w: Value)
    requires ids != [] && ids[0] in g.attrs
    ensures SomeAttr(g, name, ids, u, w) <==> AttrHere(g, name, ids[0], u, w) || SomeAttr(g, name, ids[1..], u, w)
    ensures SomeLabelHere(g, test, ids, u, w) <==>
      LabelHere(g, test, ids[0], u, w) || SomeLabelHere(g, test, ids[1..], u, w)
  {
    assert forall i :: 0 < i < |ids| ==> ids[i] == ids[1..][i - 1];
  }

  lemma {:induction false} AttrRowsMean(g: DataGraph, name: string, ids: seq<string>, a: Term, b: Term, th: Assignment)
    requires PlainGraph(g) && forall i :: 0 <= i < |ids| ==> ids[i] in g.attrs
    ensures SomeRow([a, b], AttrRows(g, name, DefinedOnly(name), ids), th) <==>
            SomeAttr(g, name, ids, Inst(th, a), Inst(th, b))
  {
    if ids != [] {
      var t := AttrOf(g.attrs[ids[0]], name);
      var row := [Name(ids[0]), t];
      AttrOfGround(g, ids[0], name);
      AttrHereExact(g, name, ids[0], Inst(th, a), Inst(th, b));
      TwoColumns(a, b, Name(ids[0]), t, th);
      AttrRowsMean(g, name, ids[1..], a, b, th);
      var first := if DefinedOnly(name) && t == Lit(Undefined) then [] else [row];
      SomeRowAppend([a, b], first, AttrRows(g, name, DefinedOnly(name), ids[1..]), th);
      SomeHereCons(g, name, StartsWith, ids, Inst(th, a), Inst(th, b));
      assert SomeRow([a, b], [row], th) <==> RowHolds([a, b], [row][0], 0, th);
    }
  }

  lemma {:induction false} LabelsMean(g: DataGraph, test: TextTest, ids: seq<string>, a: Term, b: Term, th: Assignment)
    requires PlainGraph(g) && forall i :: 0 <= i < |ids| ==> ids[i] in g.attrs
    ensures SomeLabel(a, b, test, LabelsOf(g, ids), th) <==>
            SomeLabelHere(g, test, ids, Inst(th, a), Inst(th, b))
  {
    if ids != [] {
      LabelsMean(g, test, ids[1..], a, b, th);
      SomeHereCons(g, "", test, ids, Inst(th, a), Inst(th, b));
      LabelHereExact(g, test, ids[0], Inst(th, a), Inst(th, b));
      match AttrOf(g.attrs[ids[0]], "label") {
        case Lit(Text(l)) =>
          SomeLabelAppend(a, b, test, [(ids[0], l)], LabelsOf(g, ids[1..]), th);
          OneLabel(g, test, ids[0], l, a, b, th);
        case _ =>
          assert [] + LabelsOf(g, ids[1..]) == LabelsOf(g, ids[1..]);
      }
    }
  }

  lemma OneLabel(g: DataGraph, test: TextTest, id: string, l: string, a: Term, b: Term, th: Assignment)
    requires PlainGraph(g) && id in g.attrs && AttrOf(g.attrs[id], "label") == Lit(Text(l))
    ensures SomeLabel(a, b, test, [(id, l)], th) <==> LabelHere(g, test, id, Inst(th, a), Inst(th, b))
  {
    LabelHereExact(g, test, id, Inst(th, a), Inst(th, b));
    assert SomeLabel(a, b, test, [(id, l)], th) <==> LabelHolds(a, b, test, [(id, l)][0], th);
  }

  /** Specifications are JSON: no logic variables, distinct keys. */
  ghost predicate IsJson(q: Term) {
    Ground(q) && Plain(q)
  }

  ghost predicate JsonSpec(c: Spec) {
    match c
    case And(clauses) => forall i :: 0 <= i < |clauses| ==> JsonSpec(clauses[i])
    case Or(clauses) => forall i :: 0 <= i < |clauses| ==> JsonSpec(clauses[i])
    case Equals(l, r) => IsJson(l) && IsJson(r)
    case Node(id, attrs) => IsJson(id) && IsJson(attrs)
    case EdgeTo(s, t) => IsJson(s) && IsJson(t)
    case Attr(_, id, w) => IsJson(id) && IsJson(w)
    case LabelTest(_, id, w) => IsJson(id) && IsJson(w)
    case Downstream(s, t) => IsJson(s) && IsJson(t)
    case Upstream(s, t) => IsJson(s) && IsJson(t)
    case JoinThrough(s, m, t) => IsJson(s) && IsJson(m) && IsJson(t)
    case Unknown => true
  }

  /** A compiled clause is satisfied exactly by the assignments the clause describes. */
  lemma {:induction false} CompileExact(v: View, c: Spec, vars: Vars, sg: Named, th: Assignment)
    requires Faithful(v) && JsonSpec(c) && Recognised(c)
    requires Agrees(th, Compile(v, c, vars).1, sg)
    ensures Sat(Compile(v, c, vars).0.value, th) <==> Means(v.g, c, sg)
    decreases c, 1
  {
    NodesHaveAttrs(v.g);
    match c {
      case And(clauses) =>
        CompileAllExact(v, clauses, vars, sg, th);
        assert AllSat(CompileAll(v, clauses, vars).0, th) <==> Sat(Conj(CompileAll(v, clauses, vars).0), th);
      case Or(clauses) =>
        CompileAllExact(v, clauses, vars, sg, th);
        assert SomeSat(CompileAll(v, clauses, vars).0, th) <==> Sat(Disj(CompileAll(v, clauses, vars).0), th);
      case Equals(l, r) => Translate2Value(l, r, vars, sg, th);
      case Node(id, attrs) => NodeExact(v, id, attrs, vars, sg, th);
      case EdgeTo(s, t) => EdgeExact(v, s, t, vars, sg, th);
      case Attr(name, id, w) => AttrExact(v, name, id, w, vars, sg, th);
      case LabelTest(test, id, w) => LabelExact(v, test, id, w, vars, sg, th);
      case Downstream(s, t) => StreamExact(v, s, t, vars, sg, th);
      case Upstream(s, t) => StreamExact(v, s, t, vars, sg, th);
      case JoinThrough(s, m, t) =>
        JoinExact(v, s, m, t, vars, sg, th);
    }
  }

  lemma NodeExact(v: View, id: Term, attrs: Term, vars: Vars, sg: Named, th: Assignment)
    requires Faithful(v) && IsJson(id) && IsJson(attrs)
    requires Agrees(th, Translate2(id, attrs, vars).2, sg)
    ensures Sat(Compile(v, Node(id, attrs), vars).0.value, th) <==> Means(v.g, Node(id, attrs), sg)
  {
    Translate2Value(id, attrs, vars, sg, th);
    var (i, a, _) := Translate2(id, attrs, vars);
    NodeRowsMean(v.g, i, a, th);
  }

  lemma EdgeExact(v: View, s: Term, t: Term, vars: Vars, sg: Named, th: Assignment)
    requires Faithful(v) && IsJson(s) && IsJson(t)
    requires Agrees(th, Translate2(s, t, vars).2, sg)
    ensures Sat(Compile(v, EdgeTo(s, t), vars).0.value, th) <==> Means(v.g, EdgeTo(s, t), sg)
  {
    Translate2Value(s, t, vars, sg, th);
    var (s', t', _) := Translate2(s, t, vars);
    PairRowsMean(s', t', v.g.edges, EdgesOf(v.g), th);
  }

  lemma StreamExact(v: View, s: Term, t: Term, vars: Vars, sg: Named, th: Assignment)
    requires Faithful(v) && IsJson(s) && IsJson(t)
    requires Agrees(th, Translate2(s, t, vars).2, sg)
    ensures Sat(Compile(v, Downstream(s, t), vars).0.value, th) <==> Means(v.g, Downstream(s, t), sg)
    ensures Sat(Compile(v, Upstream(s, t), vars).0.value, th) <==> Means(v.g, Upstream(s, t), sg)
  {
    Translate2Value(s, t, vars, sg, th);
    var (s', t', _) := Translate2(s, t, vars);
    PairRowsMean(s', t', v.reach, ReachOf(v.g), th);
    PairRowsMean(s', t', v.back, ReachOf(Reverse(v.g)), th);
    RelatedReversed(v.g, Denote(sg, s), Denote(sg, t));
  }

  lemma AttrExact(v: View, name: string, id: Term, w: Term, vars: Vars, sg: Named, th: Assignment)
    requires Faithful(v) && IsJson(id) && IsJson(w)
    requires Agrees(th, Translate2(id, w, vars).2, sg)
    ensures Sat(Compile(v, Attr(name, id, w), vars).0.value, th) <==> Means(v.g, Attr(name, id, w), sg)
  {
    NodesHaveAttrs(v.g);
    Translate2Value(id, w, vars, sg, th);
    var (i, w', _) := Translate2(id, w, vars);
    AttrRowsMean(v.g, name, v.g.nodes, i, w', th);
    assert AttrIs(v.g, name, Inst(th, i), Inst(th, w')) <==>
      SomeAttr(v.g, name, v.g.nodes, Inst(th, i), Inst(th, w'));
  }

  lemma LabelExact(v: View, test: TextTest, id: Term, w: Term, vars: Vars, sg: Named, th: Assignment)
    requires Faithful(v) && IsJson(id) && IsJson(w)
    requires Agrees(th, Translate2(id, w, vars).2, sg)
    ensures Sat(Compile(v, LabelTest(test, id, w), vars).0.value, th) <==> Means(v.g, LabelTest(test, id, w), sg)
  {
    NodesHaveAttrs(v.g);
    Translate2Value(id, w, vars, sg, th);
    var (i, w', _) := Translate2(id, w, vars);
    LabelsMean(v.g, test, v.g.nodes, i, w', th);
    assert LabelIs(v.g, test, Inst(th, i), Inst(th, w')) <==>
      SomeLabelHere(v.g, test, v.g.nodes, Inst(th, i), Inst(th, w'));
  }

  lemma RelatedReversed(g: DataGraph, u: Value, w: Value)
    ensures Related(ReachOf(Reverse(g)), u, w) <==> Related(ReachOf(g), w, u)
  {
    if Related(ReachOf(Reverse(g)), u, w) {
      var e: Edge :| e in ReachOf(Reverse(g)) && u == NameOf(e.0) && w == NameOf(e.1);
      ReachesReversed(g, e.1, e.0);
      assert (e.1, e.0) in ReachOf(g);
    }
    if Related(ReachOf(g), w, u) {
      var e: Edge :| e in ReachOf(g) && w == NameOf(e.0) && u == NameOf(e.1);
      ReachesReversed(g, e.0, e.1);
      assert (e.1, e.0) in ReachOf(Reverse(g));
    }
  }

  lemma JoinExact(v: View, s: Term, m: Term, t: Term, vars: Vars, sg: Named, th: Assignment)
    requires Faithful(v) && IsJson(s) && IsJson(m) && IsJson(t)
    requires Agrees(th, Compile(v, JoinThrough(s, m, t), vars).1, sg)
    ensures Sat(Compile(v, JoinThrough(s, m, t), vars).0.value, th) <==> Means(v.g, JoinThrough(s, m, t), sg)
  {
    var (s', m', vars') := Translate2(s, m, vars);
    var (t', vars'') := Translate(t, vars');
    AgreesEarlier(th, vars', vars'', sg);
    Translate2Value(s, m, vars, sg, th);
    TranslateValue(t, vars', sg, th);
    JoinMeans(v.g, s', m', t', th);
    assert Compile(v, JoinThrough(s, m, t), vars).0.value == JoinGoal(v.g, s', m', t');
  }

  function JoinGoal(g: DataGraph, s: Term, m: Term, t: Term): Goal {
    Conj([Rows([s, m], PairRows(g.edges)), Rows([m, t], PairRows(g.edges))])
  }

  lemma JoinMeans(g: DataGraph, s: Term, m: Term, t: Term, th: Assignment)
    ensures Sat(JoinGoal(g, s, m, t), th) <==>
      Related(EdgesOf(g), Inst(th, s), Inst(th, m)) && Related(EdgesOf(g), Inst(th, m), Inst(th, t))
  {
    PairRowsMean(s, m, g.edges, EdgesOf(g), th);
    PairRowsMean(m, t, g.edges, EdgesOf(g), th);
    ConjOfTwo(Rows([s, m], PairRows(g.edges)), Rows([m, t], PairRows(g.edges)), th);
  }

  lemma ConjOfTwo(first: Goal, second: Goal, th: Assignment)
    ensures Sat(Conj([first, second]), th) <==> Sat(first, th) && Sat(second, th)
  {
    var goals := [first, second];
    assert goals[0] == first && goals[1] == second;
    assert Sat(Conj(goals), th) <==> Sat(goals[0], th) && Sat(goals[1], th);
  }

  ghost predicate AllSat(goals: seq<Goal>, th: Assignment) {
    forall k :: 0 <= k < |goals| ==> Sat(goals[k], th)
  }

  ghost predicate SomeSat(goals: seq<Goal>, th: Assignment) {
    exists k :: 0 <= k < |goals| && Sat(goals[k], th)
  }

  ghost predicate AllMean(g: DataGraph, clauses: seq<Spec>, sg: Named)
    requires PlainGraph(g)
  {
    forall i :: 0 <= i < |clauses| && Recognised(clauses[i]) ==> Means(g, clauses[i], sg)
  }

  ghost predicate SomeMean(g: DataGraph, clauses: seq<Spec>, sg: Named)
    requires PlainGraph(g)
  {
    exists i :: 0 <= i < |clauses| && Recognised(clauses[i]) && Means(g, clauses[i], sg)
  }

  lemma SatCons(goal: Goal, rest: seq<Goal>, th: Assignment)
    ensures AllSat([goal] + rest, th) <==> Sat(goal, th) && AllSat(rest, th)
    ensures SomeSat([goal] + rest, th) <==> Sat(goal, th) || SomeSat(rest, th)
  {
    var all := [goal] + rest;
    assert all[0] == goal;
    assert forall k :: 0 <= k < |rest| ==> all[k + 1] == rest[k];
    assert forall k :: 0 < k < |all| ==> all[k] == rest[k - 1];
  }

  lemma MeanCons(g: DataGraph, clauses: seq<Spec>, sg: Named)
    requires PlainGraph(g) && clauses != []
    ensures AllMean(g, clauses, sg) <==>
      (Recognised(clauses[0]) ==> Means(g, clauses[0], sg)) && AllMean(g, clauses[1..], sg)
    ensures SomeMean(g, clauses, sg) <==>
      (Recognised(clauses[0]) && Means(g, clauses[0], sg)) || SomeMean(g, clauses[1..], sg)
  {
    assert forall i :: 0 < i < |clauses| ==> clauses[i] == clauses[1..][i - 1];
  }

  lemma {:induction false} CompileAllExact(v: View, clauses: seq<Spec>, vars: Vars, sg: Named, th: Assignment)
    requires Faithful(v) && forall i :: 0 <= i < |clauses| ==> JsonSpec(clauses[i])
    requires Agrees(th, CompileAll(v, clauses, vars).1, sg)
    ensures AllSat(CompileAll(v, clauses, vars).0, th) <==> AllMean(v.g, clauses, sg)
    ensures SomeSat(CompileAll(v, clauses, vars).0, th) <==> SomeMean(v.g, clauses, sg)
    decreases clauses, 0
  {
    if clauses != [] {
      var (g, vars') := Compile(v, clauses[0], vars);
      var (rest, vars'') := CompileAll(v, clauses[1..], vars');
      AgreesEarlier(th, vars', vars'', sg);
      CompileAllExact(v, clauses[1..], vars', sg, th);
      MeanCons(v.g, clauses, sg);
      if Recognised(clauses[0]) {
        CompileExact(v, clauses[0], vars, sg, th);
        SatCons(g.value, rest, th);
      } else {
        assert [] + rest == rest;
      }
    }
  }

  // ---- The named variables of a query ----

  /** The variable `x` is written somewhere in the term. */
  ghost predicate WrittenIn(x: string, q: Term) {
    match q
    case Lit(p) => p == Text(x) && |x| > 0 && x[0] == '?'
    case Arr(items) => exists i :: 0 <= i < |items| && WrittenIn(x, items[i])
    case Obj(fields) => exists i :: 0 <= i < |fields| && WrittenIn(x, fields[i].term)
    case LVar(_) => false
  }

  ghost predicate OccursIn(x: string, c: Spec) {
    match c
    case And(clauses) => exists i :: 0 <= i < |clauses| && OccursIn(x, clauses[i])
    case Or(clauses) => exists i :: 0 <= i < |clauses| && OccursIn(x, clauses[i])
    case Equals(l, r) => WrittenIn(x, l) || WrittenIn(x, r)
    case Node(id, attrs) => WrittenIn(x, id) || WrittenIn(x, attrs)
    case EdgeTo(s, t) => WrittenIn(x, s) || WrittenIn(x, t)
    case Attr(_, id, w) => WrittenIn(x, id) || WrittenIn(x, w)
    case LabelTest(_, id, w) => WrittenIn(x, id) || WrittenIn(x, w)
    case Downstream(s, t) => WrittenIn(x, s) || WrittenIn(x, t)
    case Upstream(s, t) => WrittenIn(x, s) || WrittenIn(x, t)
    case JoinThrough(s, m, t) => WrittenIn(x, s) || WrittenIn(x, m) || WrittenIn(x, t)
    case Unknown => false
  }

  ghost predicate OccursInSome(x: string, clauses: seq<Spec>) {
    exists i :: 0 <= i < |clauses| && OccursIn(x, clauses[i])
  }

  lemma {:induction false} TranslateNames(q: Term, vars: Vars, x: string)
    ensures x in Translate(q, vars).1.names <==> x in vars.names || WrittenIn(x, q)
    decreases q, 1
  {
    match q {
      case Arr(items) => TranslateItemsNames(items, vars, x);
      case Obj(fields) => TranslateFieldsNames(fields, vars, x);
      case _ =>
    }
  }

  lemma {:induction false} TranslateItemsNames(items: seq<Term>, vars: Vars, x: string)
    ensures x in TranslateItems(items, vars).1.names <==>
      x in vars.names || exists i :: 0 <= i < |items| && WrittenIn(x, items[i])
    decreases items, 0
  {
    if items != [] {
      TranslateNames(items[0], vars, x);
      TranslateItemsNames(items[1..], Translate(items[0], vars).1, x);
      assert forall i :: 0 < i < |items| ==> items[i] == items[1..][i - 1];
    }
  }

  lemma {:induction false} TranslateFieldsNames(fields: seq<Field>, vars: Vars, x: string)
    ensures x in TranslateFields(fields, vars).1.names <==>
      x in vars.names || exists i :: 0 <= i < |fields| && WrittenIn(x, fields[i].term)
    decreases fields, 0
  {
    if fields != [] {
      TranslateNames(fields[0].term, vars, x);
      TranslateFieldsNames(fields[1..], Translate(fields[0].term, vars).1, x);
      assert forall i :: 0 < i < |fields| ==> fields[i] == fields[1..][i - 1];
    }
  }

  lemma Translate2Names(a: Term, b: Term, vars: Vars, x: string)
    ensures x in Translate2(a, b, vars).2.names <==> x in vars.names || WrittenIn(x, a) || WrittenIn(x, b)
  {
    TranslateNames(a, vars, x);
    TranslateNames(b, Translate(a, vars).1, x);
  }

  /** Compiling names the variables written in a clause, and no others. */
  lemma {:induction false} CompileNames(v: View, c: Spec, vars: Vars, x: string)
    requires Faithful(v)
    ensures x in Compile(v, c, vars).1.names <==> x in vars.names || OccursIn(x, c)
    decreases c, 1
  {
    match c {
      case And(clauses) => CompileAllNames(v, clauses, vars, x);
      case Or(clauses) => CompileAllNames(v, clauses, vars, x);
      case JoinThrough(s, m, t) =>
        Translate2Names(s, m, vars, x);
        TranslateNames(t, Translate2(s, m, vars).2, x);
      case Unknown =>
      case Equals(l, r) => Translate2Names(l, r, vars, x);
      case Node(id, attrs) => Translate2Names(id, attrs, vars, x);
      case EdgeTo(s, t) => Translate2Names(s, t, vars, x);
      case Attr(_, id, w) => Translate2Names(id, w, vars, x);
      case LabelTest(_, id, w) => Translate2Names(id, w, vars, x);
      case Downstream(s, t) => Translate2Names(s, t, vars, x);
      case Upstream(s, t) => Translate2Names(s, t, vars, x);
    }
  }

  lemma {:induction false} CompileAllNames(v: View, clauses: seq<Spec>, vars: Vars, x: string)
    requires Faithful(v)
    ensures x in CompileAll(v, clauses, vars).1.names <==> x in vars.names || OccursInSome(x, clauses)
    decreases clauses, 0
  {
    if clauses != [] {
      CompileNames(v, clauses[0], vars, x);
      CompileAllNames(v, clauses[1..], Compile(v, clauses[0], vars).1, x);
      assert forall i :: 0 < i < |clauses| ==> clauses[i] == clauses[1..][i - 1];
    }
  }

  // ---- Running a query ----

  ghost predicate AllWellFormed(goals: seq<Goal>) {
    forall i :: 0 <= i < |goals| ==> WellFormed(goals[i])
  }

  /** Prefixes and needles are written as constants. */
  predicate ConstantTests(c: Spec) {
    match c
    case And(clauses) => forall i :: 0 <= i < |clauses| ==> ConstantTests(clauses[i])
    case Or(clauses) => forall i :: 0 <= i < |clauses| ==> ConstantTests(clauses[i])
    case LabelTest(_, _, w) => w.Lit? && !IsVariable(w)
    case _ => true
  }

  lemma Translate2Plain(a: Term, b: Term, vars: Vars)
    requires Plain(a) && Plain(b)
    ensures Plain(Translate2(a, b, vars).0) && Plain(Translate2(a, b, vars).1)
  {
    TranslatePlain(a, vars);
    TranslatePlain(b, Translate(a, vars).1);
  }

  lemma {:induction false} AttrRowsAreRows(g: DataGraph, name: string, d: bool, ids: seq<string>)
    requires PlainGraph(g) && forall i :: 0 <= i < |ids| ==> ids[i] in g.attrs
    ensures forall row :: row in AttrRows(g, name, d, ids) ==> IsRow(row, 2)
  {
    if ids != [] {
      AttrOfGround(g, ids[0], name);
      AttrRowsAreRows(g, name, d, ids[1..]);
    }
  }

  lemma NodeRowsAreRows(g: DataGraph)
    requires PlainGraph(g)
    ensures forall row :: row in NodeRows(g) ==> IsRow(row, 2)
  {
    NodesHaveAttrs(g);
    forall k | 0 <= k < |NodeRows(g)| ensures IsRow(NodeRows(g)[k], 2) {
      assert NodeRows(g)[k] == [Name(g.nodes[k]), Obj(g.attrs[g.nodes[k]])];
      assert g.nodes[k] in g.attrs;
    }
  }

  lemma PairRowsAreRows(pairs: seq<Edge>)
    ensures forall row :: row in PairRows(pairs) ==> IsRow(row, 2)
  {
  }

  lemma RowsWellFormed(a: Term, b: Term, table: seq<seq<Term>>)
    requires Plain(a) && Plain(b) && forall row :: row in table ==> IsRow(row, 2)
    ensures WellFormed(Rows([a, b], table))
  {
    assert [a, b][0] == a && [a, b][1] == b;
  }

  lemma {:induction false} CompileWellFormed(v: View, c: Spec, vars: Vars)
    requires Faithful(v) && JsonSpec(c) && Recognised(c)
    ensures WellFormed(Compile(v, c, vars).0.value)
    ensures ConstantTests(c) ==> ConstantPatterns(Compile(v, c, vars).0.value)
    decreases c, 1
  {
    match c {
      case And(clauses) =>
        CompileAllWellFormed(v, clauses, vars);
      case Or(clauses) =>
        CompileAllWellFormed(v, clauses, vars);
      case JoinThrough(s, m, t) => JoinWellFormed(v, s, m, t, vars);
      case _ => LeafWellFormed(v, c, vars);
    }
  }

  lemma LeafWellFormed(v: View, c: Spec, vars: Vars)
    requires Faithful(v) && JsonSpec(c) && Recognised(c)
    requires !c.And? && !c.Or? && !c.JoinThrough?
    ensures WellFormed(Compile(v, c, vars).0.value)
    ensures ConstantTests(c) ==> ConstantPatterns(Compile(v, c, vars).0.value)
  {
    var (a, b) := match c
      case Equals(l, r) => (l, r)
      case Node(id, attrs) => (id, attrs)
      case EdgeTo(s, t) => (s, t)
      case Attr(_, id, w) => (id, w)
      case LabelTest(_, id, w) => (id, w)
      case Downstream(s, t) => (s, t)
      case Upstream(s, t) => (s, t);
    Translate2Plain(a, b, vars);
    var (a', b', _) := Translate2(a, b, vars);
    match c {
      case Node(_, _) => NodeRowsAreRows(v.g); RowsWellFormed(a', b', NodeRows(v.g));
      case Attr(name, _, _) =>
        NodesHaveAttrs(v.g);
        AttrRowsAreRows(v.g, name, DefinedOnly(name), v.g.nodes);
        RowsWellFormed(a', b', AttrRows(v.g, name, DefinedOnly(name), v.g.nodes));
      case EdgeTo(_, _) => PairRowsAreRows(v.g.edges); RowsWellFormed(a', b', PairRows(v.g.edges));
      case Downstream(_, _) => PairRowsAreRows(v.reach); RowsWellFormed(a', b', PairRows(v.reach));
      case Upstream(_, _) => PairRowsAreRows(v.back); RowsWellFormed(a', b', PairRows(v.back));
      case _ =>
    }
  }

  lemma JoinWellFormed(v: View, s: Term, m: Term, t: Term, vars: Vars)
    requires Faithful(v) && IsJson(s) && IsJson(m) && IsJson(t)
    ensures WellFormed(Compile(v, JoinThrough(s, m, t), vars).0.value)
    ensures ConstantPatterns(Compile(v, JoinThrough(s, m, t), vars).0.value)
  {
    var (s', m', vars') := Translate2(s, m, vars);
    var (t', vars'') := Translate(t, vars');
    Translate2Plain(s, m, vars);
    TranslatePlain(t, vars');
    PairRowsAreRows(v.g.edges);
    var goals := [Rows([s', m'], PairRows(v.g.edges)), Rows([m', t'], PairRows(v.g.edges))];
    RowsWellFormed(s', m', PairRows(v.g.edges));
    RowsWellFormed(m', t', PairRows(v.g.edges));
    assert WellFormed(goals[0]) && WellFormed(goals[1]);
    assert Compile(v, JoinThrough(s, m, t), vars).0.value == Conj(goals);
  }

  lemma {:induction false} CompileAllWellFormed(v: View, clauses: seq<Spec>, vars: Vars)
    requires Faithful(v) && forall i :: 0 <= i < |clauses| ==> JsonSpec(clauses[i])
    ensures AllWellFormed(CompileAll(v, clauses, vars).0)
    ensures (forall i :: 0 <= i < |clauses| ==> ConstantTests(clauses[i])) ==>
      forall k :: 0 <= k < |CompileAll(v, clauses, vars).0| ==> ConstantPatterns(CompileAll(v, clauses, vars).0[k])
    decreases clauses, 0
  {
    if clauses != [] {
      var (g, vars') := Compile(v, clauses[0], vars);
      var rest := CompileAll(v, clauses[1..], vars').0;
      var all := CompileAll(v, clauses, vars).0;
      if Recognised(clauses[0]) {
        assert all == [g.value] + rest;
        CompileWellFormed(v, clauses[0], vars);
        CompileAllWellFormed(v, clauses[1..], vars');
      } else {
        assert all == rest;
        CompileAllWellFormed(v, clauses[1..], vars');
      }
    }
  }

  /** The view is faithful and the query is JSON. */
  ghost predicate Answerable(v: View, clauses: seq<Spec>) {
    Faithful(v) && forall i :: 0 <= i < |clauses| ==> JsonSpec(clauses[i])
  }

  function Goals(v: View, clauses: seq<Spec>, base: int): seq<Goal>
    requires Faithful(v)
  {
    CompileAll(v, clauses, Vars(base, [])).0
  }

  function NamedVars(v: View, clauses: seq<Spec>, base: int): (vars: Vars)
    requires Faithful(v)
    ensures vars.base == base && ProperNames(vars.names)
  {
    CompileAll(v, clauses, Vars(base, [])).1
  }

  /** All final goal states of a query; none if no clause is recognised. */
  function QueryStates(n: nat, v: View, clauses: seq<Spec>, base: int): (r: Ending<seq<GoalState>>)
    requires Answerable(v, clauses)
    ensures r.Ends? ==> AllProper(r.value)
  {
    var goals := Goals(v, clauses, base);
    if goals == [] then Ends([]) else
      EmptyProper();
      CompileAllWellFormed(v, clauses, Vars(base, []));
      RunConj(n, Conj(goals), goals, [GoalState(map[], base)])
  }

  /** `sg` is one of the assignments some state stands for. */
  ghost predicate Answers(states: seq<GoalState>, vars: Vars, sg: Named) {
    exists th: Assignment :: Agrees(th, vars, sg) && SolvedBy(states, th)
  }

  ghost predicate SomeRecognised(clauses: seq<Spec>) {
    exists i :: 0 <= i < |clauses| && Recognised(clauses[i])
  }

  ghost predicate AllConstantTests(clauses: seq<Spec>) {
    forall i :: 0 <= i < |clauses| ==> ConstantTests(clauses[i])
  }

  lemma StatesExact(n: nat, v: View, clauses: seq<Spec>, base: int, sg: Named, th: Assignment)
    requires Answerable(v, clauses) && Agrees(th, NamedVars(v, clauses, base), sg)
    requires QueryStates(n, v, clauses, base).Ends?
    ensures SolvedBy(QueryStates(n, v, clauses, base).value, th) ==>
      SomeRecognised(clauses) && AllMean(v.g, clauses, sg)
    ensures AllConstantTests(clauses) && SomeRecognised(clauses) && AllMean(v.g, clauses, sg) ==>
      SolvedBy(QueryStates(n, v, clauses, base).value, th)
  {
    var goals := Goals(v, clauses, base);
    CompileAllWellFormed(v, clauses, Vars(base, []));
    CompileAllExact(v, clauses, Vars(base, []), sg, th);
    if goals != [] {
      EmptyProper();
      var start := [GoalState(map[], base)];
      assert Solves(th, start[0].subst);
      RunConjExact(n, Conj(goals), goals, start, th);
    }
  }

  /** Whenever a query ends, its states stand for exactly the assignments of its named
      variables that satisfy every recognised clause. */
  lemma QueryExact(n: nat, v: View, clauses: seq<Spec>, base: int, sg: Named)
    requires Answerable(v, clauses) && AllConstantTests(clauses) && QueryStates(n, v, clauses, base).Ends?
    ensures Answers(QueryStates(n, v, clauses, base).value, NamedVars(v, clauses, base), sg) <==>
      SomeRecognised(clauses) && AllMean(v.g, clauses, sg)
  {
    var states, vars := QueryStates(n, v, clauses, base).value, NamedVars(v, clauses, base);
    if Answers(states, vars, sg) {
      var th: Assignment :| Agrees(th, vars, sg) && SolvedBy(states, th);
      StatesExact(n, v, clauses, base, sg, th);
    }
    var th := AgreeingAssignment(vars, sg);
    StatesExact(n, v, clauses, base, sg, th);
  }

  lemma AgreeingAssignment(vars: Vars, sg: Named) returns (th: Assignment)
    ensures Agrees(th, vars, sg)
  {
    th := x => if vars.base <= x < vars.base + |vars.names| then sg(vars.names[x - vars.base]) else VPrim(Undefined);
    forall i | 0 <= i < |vars.names| ensures th(vars.base + i) == sg(vars.names[i]) {
      assert vars.base + i - vars.base == i;
    }
  }

  /** Reordering or repeating the clauses of a query does not change what it answers. */
  lemma ReorderedQuery(n: nat, m: nat, v: View, clauses: seq<Spec>, clauses': seq<Spec>, base: int, base': int,
                       sg: Named)
    requires Answerable(v, clauses) && Answerable(v, clauses')
    requires QueryStates(n, v, clauses, base).Ends? && QueryStates(m, v, clauses', base').Ends?
    requires (forall c :: c in clauses <==> c in clauses') && forall c :: c in clauses ==> ConstantTests(c)
    ensures Answers(QueryStates(n, v, clauses, base).value, NamedVars(v, clauses, base), sg) <==>
      Answers(QueryStates(m, v, clauses', base').value, NamedVars(v, clauses', base'), sg)
  {
    QueryExact(n, v, clauses, base, sg);
    QueryExact(m, v, clauses', base', sg);
    assert forall i :: 0 <= i < |clauses| ==> clauses[i] in clauses';
    assert forall i :: 0 <= i < |clauses'| ==> clauses'[i] in clauses;
  }

  ghost predicate AllFit(goals: seq<Goal>) {
    forall i :: 0 <= i < |goals| ==> EquationsFit(goals[i])
  }

  /** A query none of whose equations puts a variable against an open compound term ends. */
  lemma FittingQueryEnds(v: View, clauses: seq<Spec>, base: int) returns (n: nat)
    requires Answerable(v, clauses) && AllFit(Goals(v, clauses, base))
    ensures QueryStates(n, v, clauses, base).Ends? && AllFlat(QueryStates(n, v, clauses, base).value)
  {
    var goals := Goals(v, clauses, base);
    n := 0;
    if goals != [] {
      EmptyProper();
      CompileAllWellFormed(v, clauses, Vars(base, []));
      n := FittingConjEnds(Conj(goals), goals, [GoalState(map[], base)]);
    }
  }

  // ---- Satisfiable queries ----

  ghost predicate Satisfiable(g: DataGraph, clauses: seq<Spec>)
    requires PlainGraph(g)
  {
    SomeRecognised(clauses) && exists sg: Named :: AllMean(g, clauses, sg)
  }

  ghost predicate SomeAcyclic(states: seq<GoalState>) {
    exists k :: 0 <= k < |states| && DeepAcyclic(states[k].subst)
  }

  /** A query that ends is satisfiable exactly when one of its states is free of cycles. */
  lemma SatisfiableIffStates(n: nat, v: View, clauses: seq<Spec>, base: int)
    requires Answerable(v, clauses) && AllConstantTests(clauses) && QueryStates(n, v, clauses, base).Ends?
    ensures SomeAcyclic(QueryStates(n, v, clauses, base).value) <==> Satisfiable(v.g, clauses)
  {
    var states, vars := QueryStates(n, v, clauses, base).value, NamedVars(v, clauses, base);
    if SomeAcyclic(states) {
      var k :| 0 <= k < |states| && DeepAcyclic(states[k].subst);
      var th := SolutionOf(states[k].subst);
      var sg := NamedByPosition(th, vars);
      StatesExact(n, v, clauses, base, sg, th);
    }
    if Satisfiable(v.g, clauses) {
      var sg: Named :| AllMean(v.g, clauses, sg);
      var th := AgreeingAssignment(vars, sg);
      StatesExact(n, v, clauses, base, sg, th);
      var k :| 0 <= k < |states| && Solves(th, states[k].subst);
      SolvableIff(states[k].subst);
    }
  }

  lemma NamedByPosition(th: Assignment, vars: Vars) returns (sg: Named)
    requires NoDup(vars.names)
    ensures Agrees(th, vars, sg)
  {
    sg := x => th(vars.base + IndexOf(vars.names, x));
    forall i | 0 <= i < |vars.names| ensures th(vars.base + i) == sg(vars.names[i]) {
      var j := IndexOf(vars.names, vars.names[i]);
      assert j < |vars.names| && vars.names[j] == vars.names[i];
      assert i == j;
    }
  }

  // ---- Answers ----

  function Projection(select: Option<Term>, vars: Vars): (Term, Vars) {
    match select
    case Some(q) => Translate(q, vars)
    case None => (Obj(seq(|vars.names|, i requires 0 <= i < |vars.names| =>
                      Field(if |vars.names[i]| > 0 then vars.names[i][1..] else "", LVar(vars.base + i)))), vars)
  }

  /** How many states are read back; a limit is only tested after an answer. */
  function Wanted(states: nat, limit: Option<nat>): nat {
    if limit.None? || states <= limit.value then states else if limit.value == 0 then 1 else limit.value
  }

  /** Reading back each of the first `k` states ends. */
  ghost predicate ReadBack(n: nat, states: seq<GoalState>, projection: Term, k: nat)
    requires AllProper(states) && k <= |states|
  {
    forall i :: 0 <= i < k ==> Reify(n, projection, states[i].subst).Ends?
  }

  /** Reify states in order until the limit is met. */
  method RunGoal(n: nat, states: seq<GoalState>, projection: Term, limit: Option<nat>)
    returns (results: Ending<seq<Term>>)
    requires AllProper(states)
    ensures results.Ends? <==> ReadBack(n, states, projection, Wanted(|states|, limit))
    ensures results.Ends? ==> |results.value| == Wanted(|states|, limit)
    ensures results.Ends? ==>
      forall i :: 0 <= i < |results.value| ==> results.value[i] == Reify(n, projection, states[i].subst).value
  {
    var found: seq<Term> := [];
    for k := 0 to |states|
      invariant |found| == k && ReadBack(n, states, projection, k)
      invariant forall i :: 0 <= i < k ==> found[i] == Reify(n, projection, states[i].subst).value
      invariant limit.Some? && k > 0 ==> k < limit.value
    {
      match Reify(n, projection, states[k].subst) {
        case Running => return Running;
        case Ends(t) => found := found + [t];
      }
      if limit.Some? && |found| >= limit.value {
        return Ends(found);
      }
    }
    return Ends(found);
  }

  /** A limit counts only if it is positive; its fraction is dropped. */
  function Bound(limit: Option<real>): Option<nat> {
    if limit.Some? && limit.value > 0.0 then Some(limit.value.Floor as nat) else None
  }

  lemma BoundExact(limit: Option<real>, k: nat)
    ensures Bound(limit) == Some(k) <==>
      limit.Some? && limit.value > 0.0 && k as real <= limit.value && limit.value < (k + 1) as real
  {
  }

  /** The number of answers to a query that leaves this many states: all of them without a
      positive limit; else as many as its integer part, but at least one if there is one. */
  ghost predicate Counted(answers: nat, states: nat, limit: Option<real>) {
    && (limit.None? || limit.value <= 0.0 ==> answers == states)
    && forall k: nat {:trigger k as real} ::
         limit.Some? && limit.value > 0.0 && k as real <= limit.value && limit.value < (k + 1) as real ==>
           answers == if states <= k then states else if k == 0 then 1 else k
  }

  lemma WantedExact(states: nat, limit: Option<real>)
    ensures Counted(Wanted(states, Bound(limit)), states, limit)
  {
    forall k: nat { BoundExact(limit, k); }
  }

  /** What an answer read off a state stands for, under every solution of that state and
      the values it gives the named variables: the selected term; or, by default, the object
      that has these values under the names without their "?". */
  ghost predicate Stands(answer: Term, s: Subst, v: View, clauses: seq<Spec>, select: Option<Term>, base: int)
    requires Faithful(v)
  {
    forall th: Assignment, sg: Named :: Solves(th, s) ==> StandsUnder(th, sg, answer, v, clauses, select, base)
  }

  ghost predicate StandsUnder(th: Assignment, sg: Named, answer: Term, v: View, clauses: seq<Spec>,
                              select: Option<Term>, base: int)
    requires Faithful(v)
  {
    match select
    case Some(q) => Agrees(th, Translate(q, NamedVars(v, clauses, base)).1, sg) ==> Inst(th, answer) == Denote(sg, q)
    case None => Agrees(th, NamedVars(v, clauses, base), sg) ==> ShowsAll(Inst(th, answer), clauses, sg)
  }

  ghost predicate ShowsAll(answer: Value, clauses: seq<Spec>, sg: Named) {
    answer.VObj? && forall key :: KeyShown(answer, clauses, sg, key, "?" + key)
  }

  ghost predicate KeyShown(answer: Value, clauses: seq<Spec>, sg: Named, key: string, name: string)
    requires answer.VObj?
  {
    && (key in answer.fields <==> OccursInSome(name, clauses))
    && (key in answer.fields ==> answer.fields[key] == sg(name))
  }

  lemma AnswerStands(n: nat, s: Subst, v: View, clauses: seq<Spec>, select: Option<Term>, base: int)
    requires Faithful(v) && Proper(s) && (select.Some? ==> IsJson(select.value))
    requires Reify(n, Projection(select, NamedVars(v, clauses, base)).0, s).Ends?
    ensures Stands(Reify(n, Projection(select, NamedVars(v, clauses, base)).0, s).value, s, v, clauses, select, base)
  {
    var vars := NamedVars(v, clauses, base);
    var p := Projection(select, vars).0;
    forall th: Assignment, sg: Named | Solves(th, s)
      ensures StandsUnder(th, sg, Reify(n, p, s).value, v, clauses, select, base)
    {
      ReifyValue(n, p, s, th);
      match select {
        case Some(q) => if Agrees(th, Translate(q, vars).1, sg) { TranslateValue(q, vars, sg, th); }
        case None => if Agrees(th, vars, sg) { DefaultShowsAll(v, clauses, base, th, sg); }
      }
    }
  }

  lemma DefaultShowsAll(v: View, clauses: seq<Spec>, base: int, th: Assignment, sg: Named)
    requires Faithful(v) && Agrees(th, NamedVars(v, clauses, base), sg)
    ensures ShowsAll(Inst(th, Projection(None, NamedVars(v, clauses, base)).0), clauses, sg)
  {
    var vars := NamedVars(v, clauses, base);
    var p := Projection(None, vars).0;
    DefaultFields(vars);
    forall key ensures KeyShown(Inst(th, p), clauses, sg, key, "?" + key) {
      CompileAllNames(v, clauses, Vars(base, []), "?" + key);
      FieldShown(p.fields, vars, th, sg, key, "?" + key);
    }
  }

  /** One field per name, its value the variable of that name. */
  ghost predicate OnePerName(fields: seq<Field>, vars: Vars) {
    && |fields| == |vars.names|
    && forall i :: 0 <= i < |fields| ==> FieldOf(fields[i], vars.names[i]) && fields[i].term == LVar(vars.base + i)
  }

  ghost predicate FieldOf(f: Field, name: string) {
    "?" <= name && f.key == name[1..]
  }

  lemma DefaultFields(vars: Vars)
    requires ProperNames(vars.names)
    ensures OnePerName(Projection(None, vars).0.fields, vars)
  {
    forall i | 0 <= i < |vars.names| ensures "?" <= vars.names[i] {
    }
  }

  lemma FieldShown(fields: seq<Field>, vars: Vars, th: Assignment, sg: Named, key: string, name: string)
    requires ProperNames(vars.names) && OnePerName(fields, vars) && Agrees(th, vars, sg) && name == "?" + key
    ensures key in InstFields(th, fields) <==> name in vars.names
    ensures key in InstFields(th, fields) ==> InstFields(th, fields)[key] == sg(name)
  {
    NamesToKeys(fields, vars);
    if key in InstFields(th, fields) {
      var i := KeyAt(fields, th, key);
      ValueAt(fields, th, i);
      assert FieldOf(fields[i], vars.names[i]) && vars.names[i] == name;
      assert th(vars.base + i) == sg(vars.names[i]);
    }
    if name in vars.names {
      var i :| 0 <= i < |vars.names| && vars.names[i] == name;
      assert FieldOf(fields[i], name) && name[1..] == key;
      ValueAt(fields, th, i);
    }
  }

  lemma NamesToKeys(fields: seq<Field>, vars: Vars)
    requires ProperNames(vars.names) && OnePerName(fields, vars)
    ensures DistinctKeys(fields)
  {
    forall i, j | 0 <= i < j < |fields| ensures fields[i].key != fields[j].key {
      assert FieldOf(fields[i], vars.names[i]) && FieldOf(fields[j], vars.names[j]);
      if fields[i].key == fields[j].key { KeysApart(fields[i], vars.names[i], fields[j], vars.names[j]); }
    }
  }

  lemma KeysApart(f: Field, x: string, g: Field, y: string)
    requires FieldOf(f, x) && FieldOf(g, y) && f.key == g.key
    ensures x == y
  {
    assert x == "?" + f.key && y == "?" + g.key;
  }

  /** An object with distinct keys denotes the map from its keys to its values. */
  lemma {:induction false} KeyAt(fields: seq<Field>, th: Assignment, key: string) returns (i: nat)
    requires key in InstFields(th, fields)
    ensures i < |fields| && fields[i].key == key
  {
    i := 0;
    if fields[0].key != key {
      var k := KeyAt(fields[1..], th, key);
      i := k + 1;
    }
  }

  lemma {:induction false} ValueAt(fields: seq<Field>, th: Assignment, i: nat)
    requires i < |fields| && DistinctKeys(fields)
    ensures fields[i].key in InstFields(th, fields)
    ensures InstFields(th, fields)[fields[i].key] == Inst(th, fields[i].term)
  {
    if i > 0 { ValueAt(fields[1..], th, i - 1); }
  }

  method GraphRelRunQuery(n: nat, v: View, clauses: seq<Spec>, select: Option<Term>, limit: Option<real>, base: int)
    returns (answers: Ending<seq<Term>>)
    requires Answerable(v, clauses) && (select.Some? ==> IsJson(select.value))
    ensures answers.Ends? <==>
      (QueryStates(n, v, clauses, base).Ends? &&
       var states, p := QueryStates(n, v, clauses, base).value, Projection(select, NamedVars(v, clauses, base)).0;
       ReadBack(n, states, p, Wanted(|states|, Bound(limit))))
    ensures answers.Ends? ==>
      var states, p := QueryStates(n, v, clauses, base).value, Projection(select, NamedVars(v, clauses, base)).0;
      |answers.value| == Wanted(|states|, Bound(limit)) &&
      forall i :: 0 <= i < |answers.value| ==> answers.value[i] == Reify(n, p, states[i].subst).value
    ensures answers.Ends? ==> var states := QueryStates(n, v, clauses, base).value;
      && Counted(|answers.value|, |states|, limit)
      && forall i :: 0 <= i < |answers.value| ==>
           Stands(answers.value[i], states[i].subst, v, clauses, select, base)
           && VarsOf(answers.value[i]) !! states[i].subst.Keys
  {
    match QueryStates(n, v, clauses, base) {
      case Running => answers := Running;
      case Ends(states) =>
        WantedExact(|states|, limit);
        if Goals(v, clauses, base) == [] {
          return Ends([]);
        }
        var projection := Projection(select, NamedVars(v, clauses, base)).0;
        answers := RunGoal(n, states, projection, Bound(limit));
        if answers.Ends? {
          forall i | 0 <= i < |answers.value|
            ensures Stands(answers.value[i], states[i].subst, v, clauses, select, base)
            ensures VarsOf(answers.value[i]) !! states[i].subst.Keys
          {
            AnswerStands(n, states[i].subst, v, clauses, select, base);
            ReifyValue(n, projection, states[i].subst, _ => VPrim(Undefined));
          }
        }
    }
  }

  /** Something is found within depth `n`: there is a state, and the projection can be read
      back from the first one. */
  ghost predicate Finds(n: nat, v: View, clauses: seq<Spec>, select: Option<Term>, base: int)
    requires Answerable(v, clauses)
  {
    && QueryStates(n, v, clauses, base).Ends? && QueryStates(n, v, clauses, base).value != []
    && var p, s := Projection(select, NamedVars(v, clauses, base)).0, QueryStates(n, v, clauses, base).value[0].subst;
       Reify(n, p, s).Ends?
  }

  /** When it returns, it says whether there is a state. A satisfiable query is found. With
      the default projection the answer says exactly whether the query is satisfiable. */
  method GraphRelExistsQuery(n: nat, v: View, clauses: seq<Spec>, select: Option<Term>, base: int)
    returns (found: Ending<bool>)
    requires Answerable(v, clauses) && (select.Some? ==> IsJson(select.value)) && AllConstantTests(clauses)
    ensures found == Ends(true) <==> Finds(n, v, clauses, select, base)
    ensures found == Ends(false) <==> QueryStates(n, v, clauses, base) == Ends([])
    ensures found.Ends? && Satisfiable(v.g, clauses) ==> found.value
    ensures found.Ends? && select.None? ==> (found.value <==> Satisfiable(v.g, clauses))
  {
    var answers := GraphRelRunQuery(n, v, clauses, select, Some(1.0), base);
    match answers {
      case Running => found := Running;
      case Ends(rows) =>
        found := Ends(|rows| > 0);
        SatisfiableIffStates(n, v, clauses, base);
        if select.None? && |rows| > 0 {
          DefaultReadBack(n, v, clauses, base, 0);
        }
    }
  }

  /** An unsatisfiable query is found exactly when it has a state, and no cycle can be
      reached from the projection in the first one. */
  lemma UnsatisfiableFoundIff(n: nat, v: View, clauses: seq<Spec>, select: Option<Term>, base: int)
    requires Answerable(v, clauses) && AllConstantTests(clauses) && QueryStates(n, v, clauses, base).Ends?
    requires !Satisfiable(v.g, clauses)
    ensures var states, p := QueryStates(n, v, clauses, base).value, Projection(select, NamedVars(v, clauses, base)).0;
      && !SomeAcyclic(states)
      && ((exists m: nat :: m >= n && Finds(m, v, clauses, select, base)) <==>
          states != [] && AcyclicFrom(p, states[0].subst))
  {
    SatisfiableIffStates(n, v, clauses, base);
    var states, p := QueryStates(n, v, clauses, base).value, Projection(select, NamedVars(v, clauses, base)).0;
    if states != [] {
      ReadBackFromIff(p, states[0].subst);
      if k: nat :| Reify(k, p, states[0].subst).Ends? {
        var m := if n < k then k else n;
        QueryDeeper(n, m, v, clauses, base);
        ReifyDeeper(k, m, p, states[0].subst);
        assert Finds(m, v, clauses, select, base);
      }
    }
    if m: nat :| m >= n && Finds(m, v, clauses, select, base) {
      QueryDeeper(n, m, v, clauses, base);
    }
  }

  lemma QueryDeeper(n: nat, m: nat, v: View, clauses: seq<Spec>, base: int)
    requires n <= m && Answerable(v, clauses) && QueryStates(n, v, clauses, base).Ends?
    ensures QueryStates(m, v, clauses, base) == QueryStates(n, v, clauses, base)
  {
    var goals := Goals(v, clauses, base);
    if goals != [] {
      EmptyProper();
      CompileAllWellFormed(v, clauses, Vars(base, []));
      ConjDeeper(n, m, Conj(goals), goals, [GoalState(map[], base)]);
    }
  }

  // ---- The variables of a compiled query are its named ones ----

  ghost predicate IsNamed(vars: Vars, x: int) {
    vars.base <= x < vars.base + |vars.names|
  }

  ghost function Range(vars: Vars): set<int> {
    set x | vars.base <= x < vars.base + |vars.names| && IsNamed(vars, x)
  }

  lemma {:induction false} TranslateVars(q: Term, vars: Vars)
    requires Ground(q)
    ensures VarsOf(Translate(q, vars).0) <= Range(Translate(q, vars).1)
    decreases q, 1
  {
    match q {
      case Arr(items) => TranslateItemsVars(items, vars);
      case Obj(fields) => TranslateFieldsVars(fields, vars);
      case Lit(_) =>
    }
  }

  lemma {:induction false} TranslateItemsVars(items: seq<Term>, vars: Vars)
    requires forall i :: 0 <= i < |items| ==> Ground(items[i])
    ensures VarsOfItems(TranslateItems(items, vars).0) <= Range(TranslateItems(items, vars).1)
    decreases items, 0
  {
    if items != [] {
      var vars' := Translate(items[0], vars).1;
      TranslateVars(items[0], vars);
      TranslateItemsVars(items[1..], vars');
      assert TranslateItems(items, vars).0[1..] == TranslateItems(items[1..], vars').0;
    }
  }

  lemma {:induction false} TranslateFieldsVars(fields: seq<Field>, vars: Vars)
    requires forall i :: 0 <= i < |fields| ==> Ground(fields[i].term)
    ensures VarsOfFields(TranslateFields(fields, vars).0) <= Range(TranslateFields(fields, vars).1)
    decreases fields, 0
  {
    if fields != [] {
      var vars' := Translate(fields[0].term, vars).1;
      TranslateVars(fields[0].term, vars);
      TranslateFieldsVars(fields[1..], vars');
      assert TranslateFields(fields, vars).0[1..] == TranslateFields(fields[1..], vars').0;
    }
  }

  lemma Translate2Vars(a: Term, b: Term, vars: Vars)
    requires Ground(a) && Ground(b)
    ensures VarsOf(Translate2(a, b, vars).0) <= Range(Translate2(a, b, vars).2)
    ensures VarsOf(Translate2(a, b, vars).1) <= Range(Translate2(a, b, vars).2)
  {
    TranslateVars(a, vars);
    TranslateVars(b, Translate(a, vars).1);
  }

  lemma {:induction false} MentionsMore(g: Goal, vars: set<int>, vars': set<int>)
    requires vars <= vars' && Mentions(g, vars)
    ensures Mentions(g, vars')
  {
    match g {
      case Conj(goals) =>
        forall i | 0 <= i < |goals| ensures Mentions(goals[i], vars') { MentionsMore(goals[i], vars, vars'); }
      case Disj(goals) =>
        forall i | 0 <= i < |goals| ensures Mentions(goals[i], vars') { MentionsMore(goals[i], vars, vars'); }
      case _ =>
    }
  }

  ghost predicate AllMention(goals: seq<Goal>, vars: set<int>) {
    forall k :: 0 <= k < |goals| ==> Mentions(goals[k], vars)
  }

  lemma {:induction false} CompileVars(v: View, c: Spec, vars: Vars)
    requires Faithful(v) && JsonSpec(c) && Recognised(c)
    ensures Mentions(Compile(v, c, vars).0.value, Range(Compile(v, c, vars).1))
    decreases c, 1
  {
    match c {
      case And(clauses) => CompileAllVars(v, clauses, vars);
      case Or(clauses) => CompileAllVars(v, clauses, vars);
      case Equals(l, r) => Translate2Vars(l, r, vars);
      case Node(id, attrs) => Translate2Vars(id, attrs, vars);
      case EdgeTo(s, t) => Translate2Vars(s, t, vars);
      case Attr(_, id, w) => Translate2Vars(id, w, vars);
      case LabelTest(_, id, w) => Translate2Vars(id, w, vars);
      case Downstream(s, t) => Translate2Vars(s, t, vars);
      case Upstream(s, t) => Translate2Vars(s, t, vars);
      case JoinThrough(s, m, t) =>
        Translate2Vars(s, m, vars);
        TranslateVars(t, Translate2(s, m, vars).2);
    }
  }

  lemma {:induction false} CompileAllVars(v: View, clauses: seq<Spec>, vars: Vars)
    requires Faithful(v) && forall i :: 0 <= i < |clauses| ==> JsonSpec(clauses[i])
    ensures AllMention(CompileAll(v, clauses, vars).0, Range(CompileAll(v, clauses, vars).1))
    decreases clauses, 0
  {
    if clauses != [] {
      var (g, vars') := Compile(v, clauses[0], vars);
      var vars'' := CompileAll(v, clauses[1..], vars').1;
      CompileAllVars(v, clauses[1..], vars');
      if g.Some? {
        CompileVars(v, clauses[0], vars);
        MentionsMore(g.value, Range(vars'), Range(vars''));
        assert CompileAll(v, clauses, vars).0 == [g.value] + CompileAll(v, clauses[1..], vars').0;
      }
    }
  }

  lemma QueryStatesVars(n: nat, v: View, clauses: seq<Spec>, base: int)
    requires Answerable(v, clauses) && QueryStates(n, v, clauses, base).Ends?
    ensures AllWithin(QueryStates(n, v, clauses, base).value, Range(NamedVars(v, clauses, base)))
  {
    var goals := Goals(v, clauses, base);
    if goals != [] {
      EmptyProper();
      CompileAllWellFormed(v, clauses, Vars(base, []));
      CompileAllVars(v, clauses, Vars(base, []));
      assert AllWithin([GoalState(map[], base)], Range(NamedVars(v, clauses, base)));
      ConjWithin(n, Conj(goals), goals, [GoalState(map[], base)], Range(NamedVars(v, clauses, base)));
    }
  }

  lemma {:induction false} FieldReadBack(n: nat, fields: seq<Field>, s: Subst, i: nat)
    requires Proper(s) && ReifyFields(n, fields, s).Ends? && i < |fields|
    ensures Reify(n, fields[i].term, s).Ends?
  {
    if i > 0 { FieldReadBack(n, fields[1..], s, i - 1); }
  }

  /** With the default projection, which shows all named variables, a state is read back
      only if the assignments it stands for exist. */
  lemma DefaultReadBack(n: nat, v: View, clauses: seq<Spec>, base: int, k: nat)
    requires Answerable(v, clauses) && QueryStates(n, v, clauses, base).Ends?
    requires k < |QueryStates(n, v, clauses, base).value|
    requires var s := QueryStates(n, v, clauses, base).value[k].subst;
      Reify(n, Projection(None, NamedVars(v, clauses, base)).0, s).Ends?
    ensures DeepAcyclic(QueryStates(n, v, clauses, base).value[k].subst)
  {
    var vars, s := NamedVars(v, clauses, base), QueryStates(n, v, clauses, base).value[k].subst;
    var p := Projection(None, vars).0;
    QueryStatesVars(n, v, clauses, base);
    forall x | x in s ensures Reify(n, LVar(x), s).Ends? {
      assert x in s.Keys && x in Range(vars);
      FieldReadBack(n - 1, p.fields, s, x - base);
      ReifyDeeper(n - 1, n, LVar(x), s);
    }
    ReadBackSolves(n, s);
  }

  /** A query that finds what does not exist: a variable equal to a list that holds it, and
      a projection that does not show it. */
  lemma CyclicQueryFound(v: View, base: int)
    requires Faithful(v)
    ensures var q := Lit(Text("?p")); var clauses := [Equals(q, Arr([q]))]; var s := map[base := Arr([LVar(base)])];
      && Answerable(v, clauses) && AllConstantTests(clauses) && !Satisfiable(v.g, clauses)
      && QueryStates(1, v, clauses, base) == Ends([GoalState(s, base)])
      && Proper(s) && Reify(1, Lit(Null), s) == Ends(Lit(Null))
  {
    var q := Lit(Text("?p"));
    var clauses := [Equals(q, Arr([q]))];
    CyclicGoal(v, base);
    NoOccursCheck(base, 1);
    BindProper(map[], base, Arr([LVar(base)]));
    OneGoalRun(1, Equal(LVar(base), Arr([LVar(base)])), base);
    SatisfiableIffStates(1, v, clauses, base);
  }

  lemma CyclicGoal(v: View, base: int)
    requires Faithful(v)
    ensures var q := Lit(Text("?p")); var clauses := [Equals(q, Arr([q]))];
      Answerable(v, clauses) && Goals(v, clauses, base) == [Equal(LVar(base), Arr([LVar(base)]))]
  {
    var q := Lit(Text("?p"));
    var clauses := [Equals(q, Arr([q]))];
    var names := Vars(base, ["?p"]);
    assert IsVariable(q) && IsJson(q);
    assert forall i :: 0 <= i < 1 ==> IsJson([q][i]);
    assert IsJson(Arr([q]));
    assert [] + ["?p"] == names.names;
    assert Translate(q, Vars(base, [])) == (LVar(base), names);
    assert Translate(q, names) == (LVar(base), names);
    assert TranslateItems([q][1..], names) == ([], names);
    assert [q][0] == q && [LVar(base)] + [] == [LVar(base)];
    assert TranslateItems([q], names) == ([LVar(base)], names);
    assert CompileAll(v, clauses[1..], names) == ([], names);
  }

  lemma OneGoalRun(n: nat, g: Goal, base: int)
    requires WellFormed(g) && Proper(map[]) && Run(n, g, GoalState(map[], base)).Ends?
    ensures RunConj(n, Conj([g]), [g], [GoalState(map[], base)]) == Run(n, g, GoalState(map[], base))
  {
    var st, r := GoalState(map[], base), Run(n, g, GoalState(map[], base));
    assert [g][0] < Conj([g]);
    assert RunEach(n, Conj([g]), g, [st][1..]) == Ends([]);
    assert RunEach(n, Conj([g]), g, [st]).value == r.value;
    assert [g][1..] == [];
  }

  // ---- Queries for node ids ----

  /** The strings among the answers, each once. */
  function Strings(results: seq<Term>): seq<string> {
    if results == [] then []
    else
      var rest := Strings(results[..|results| - 1]);
      match results[|results| - 1]
      case Lit(Text(id)) => if id in rest then rest else rest + [id]
      case _ => rest
  }

  lemma {:induction false} StringsExact(results: seq<Term>)
    ensures NoDup(Strings(results)) && forall id :: id in Strings(results) <==> Lit(Text(id)) in results
  {
    if results != [] {
      var init, last := results[..|results| - 1], results[|results| - 1];
      StringsExact(init);
      assert results == init + [last];
    }
  }

  /** They come in the order in which they are first met. */
  lemma {:induction false} StringsInOrder(x: seq<Term>, y: seq<Term>)
    ensures Strings(x) <= Strings(x + y)
    decreases |y|
  {
    if y == [] {
      assert x + y == x;
    } else {
      var init := y[..|y| - 1];
      StringsInOrder(x, init);
      assert (x + y)[..|x + y| - 1] == x + init;
    }
  }

  /** The strings that variable `x` stands for in the states a goal leaves. */
  method QueryNodeIds(n: nat, g: Goal, x: int) returns (ids: Ending<seq<string>>)
    requires WellFormed(g) && Proper(map[])
    ensures ids == NodeIds(n, g, x)
  {
    match Run(n, g, GoalState(map[], 0)) {
      case Running => ids := Running;
      case Ends(states) =>
        var results := RunGoal(n, states, LVar(x), None);
        match results {
          case Running => ids := Running;
          case Ends(answers) =>
            assert answers == ReadStates(n, states, x);
            ids := Ends(Strings(answers));
        }
    }
  }

  function ReadStates(n: nat, states: seq<GoalState>, x: int): (r: seq<Term>)
    requires AllProper(states) && ReadBack(n, states, LVar(x), |states|)
  {
    seq(|states|, i requires 0 <= i < |states| => Reify(n, LVar(x), states[i].subst).value)
  }

  ghost function NodeIds(n: nat, g: Goal, x: int): Ending<seq<string>>
    requires WellFormed(g) && Proper(map[])
  {
    match Run(n, g, GoalState(map[], 0))
    case Running => Running
    case Ends(states) =>
      if ReadBack(n, states, LVar(x), |states|) then Ends(Strings(ReadStates(n, states, x))) else Running
  }

  ghost predicate IsText(v: Value) {
    v.VPrim? && v.p.Text?
  }

  /** If every assignment that satisfies a goal gives `x` a string, the ids found are
      exactly these strings. */
  lemma NodeIdsExact(n: nat, g: Goal, x: int, id: string)
    requires WellFormed(g) && ConstantPatterns(g) && Proper(map[]) && NodeIds(n, g, x).Ends?
    requires AllFlat(Run(n, g, GoalState(map[], 0)).value)
    requires forall th :: Sat(g, th) ==> IsText(th(x))
    ensures id in NodeIds(n, g, x).value <==> exists th :: Sat(g, th) && th(x) == NameOf(id)
  {
    var states := Run(n, g, GoalState(map[], 0)).value;
    var results := ReadStates(n, states, x);
    StringsExact(results);
    if Lit(Text(id)) in results {
      var k :| 0 <= k < |states| && results[k] == Lit(Text(id));
      var th := TextSatisfies(n, g, x, states, k, id);
    }
    if th :| Sat(g, th) && th(x) == NameOf(id) {
      RunExact(n, g, GoalState(map[], 0), th);
      var k :| 0 <= k < |states| && Solves(th, states[k].subst);
      ReadsText(n, g, x, states, k, th);
      assert results[k] == Lit(Text(id));
    }
  }

  /** A text read back is the value of some satisfying assignment. */
  lemma TextSatisfies(n: nat, g: Goal, x: int, states: seq<GoalState>, k: nat, id: string) returns (th: Assignment)
    requires WellFormed(g) && Proper(map[])
    requires Run(n, g, GoalState(map[], 0)) == Ends(states) && k < |states| && Flat(states[k].subst)
    requires Reify(n, LVar(x), states[k].subst) == Ends(Lit(Text(id)))
    ensures Sat(g, th) && th(x) == NameOf(id)
  {
    FlatIsAcyclic(states[k].subst);
    th := SolutionOf(states[k].subst);
    ReifyValue(n, LVar(x), states[k].subst, th);
    assert SolvedBy(states, th);
    RunExact(n, g, GoalState(map[], 0), th);
  }

  /** A free variable could take any value, so what is read back is the string itself. */
  lemma ReadsText(n: nat, g: Goal, x: int, states: seq<GoalState>, k: nat, th: Assignment)
    requires WellFormed(g) && ConstantPatterns(g) && Proper(map[])
    requires Run(n, g, GoalState(map[], 0)) == Ends(states) && k < |states| && Flat(states[k].subst)
    requires Reify(n, LVar(x), states[k].subst).Ends? && Solves(th, states[k].subst)
    requires forall th :: Sat(g, th) ==> IsText(th(x))
    ensures IsText(th(x)) && Reify(n, LVar(x), states[k].subst) == Ends(Lit(th(x).p))
  {
    var s := states[k].subst;
    var t := Reify(n, LVar(x), s).value;
    FlatIsAcyclic(s);
    var r: int -> nat :| DeepRanks(r, s);
    var th' := Completed(_ => VPrim(Undefined), s, r);
    CompletedSolves(_ => VPrim(Undefined), s, r);
    ReifyValue(n, LVar(x), s, th);
    ReifyValue(n, LVar(x), s, th');
    assert t.LVar? ==> t.id in VarsOf(t) && Inst(th', t) == VPrim(Undefined);
    assert SolvedBy(states, th) && SolvedBy(states, th');
    RunExact(n, g, GoalState(map[], 0), th);
    RunExact(n, g, GoalState(map[], 0), th');
  }

  /** A goal none of whose equations puts a variable against an open compound term gives
      its node ids. */
  lemma FittingIdsEnd(g: Goal, x: int) returns (n: nat)
    requires WellFormed(g) && EquationsFit(g)
    ensures Proper(map[]) && NodeIds(n, g, x).Ends? && AllFlat(Run(n, g, GoalState(map[], 0)).value)
  {
    EmptyProper();
    var k := FittingGoalEnds(g, GoalState(map[], 0));
    var states := Run(k, g, GoalState(map[], 0)).value;
    var m := StatesReadBack(states, x);
    n := if k < m then m else k;
    RunDeeper(k, n, g, GoalState(map[], 0));
    forall i | 0 <= i < |states| ensures Reify(n, LVar(x), states[i].subst).Ends? {
      ReifyDeeper(m, n, LVar(x), states[i].subst);
    }
  }

  lemma {:induction false} StatesReadBack(states: seq<GoalState>, x: int) returns (n: nat)
    requires AllFlat(states)
    ensures ReadBack(n, states, LVar(x), |states|)
  {
    n := 0;
    if states != [] {
      var k := FlatReifyEnds(LVar(x), states[0].subst);
      var m := StatesReadBack(states[1..], x);
      n := if k < m then m else k;
      ReifyDeeper(k, n, LVar(x), states[0].subst);
      forall i | 0 < i < |states| ensures Reify(n, LVar(x), states[i].subst).Ends? {
        assert states[i] == states[1..][i - 1];
        ReifyDeeper(m, n, LVar(x), states[i].subst);
      }
    }
  }

  // ---- Upstream and downstream of a node ----

  /** The goal of the "upstream of a node" query: the node itself, or a node related to it
      in the reversed graph, the node variable coming first. */
  function UpstreamGoal(v: View, x: int, id: string): Goal {
    Disj([Equal(LVar(x), Name(id)), Rows([LVar(x), Name(id)], PairRows(v.back))])
  }

  function DownstreamGoal(v: View, x: int, id: string): Goal {
    Disj([Equal(LVar(x), Name(id)), Rows([Name(id), LVar(x)], PairRows(v.reach))])
  }

  lemma StreamGoals(v: View, x: int, id: string)
    ensures forall g :: g in {UpstreamGoal(v, x, id), DownstreamGoal(v, x, id)} ==>
      WellFormed(g) && ConstantPatterns(g) && EquationsFit(g)
  {
    PairRowsAreRows(v.back);
    PairRowsAreRows(v.reach);
    RowsWellFormed(LVar(x), Name(id), PairRows(v.back));
    RowsWellFormed(Name(id), LVar(x), PairRows(v.reach));
    var up, down := UpstreamGoal(v, x, id), DownstreamGoal(v, x, id);
    forall g | g in {up, down} ensures WellFormed(g) && ConstantPatterns(g) && EquationsFit(g) {
      assert |g.goals| == 2 && g.goals[0] == Equal(LVar(x), Name(id)) && g.goals[1].Rows?;
      assert WellFormed(g.goals[1]);
    }
  }

  ghost predicate InStream(g: DataGraph, id: string, m: string) {
    m == id || Reaches(g, id, m)
  }

  /** Both goals are satisfied by the node and by what it reaches. */
  lemma StreamMeans(v: View, x: int, id: string, th: Assignment)
    requires Faithful(v)
    ensures Sat(UpstreamGoal(v, x, id), th) <==> exists m :: th(x) == NameOf(m) && InStream(v.g, id, m)
    ensures Sat(DownstreamGoal(v, x, id), th) <==> exists m :: th(x) == NameOf(m) && InStream(v.g, id, m)
  {
    var up, down := UpstreamGoal(v, x, id), DownstreamGoal(v, x, id);
    PairRowsMean(LVar(x), Name(id), v.back, ReachOf(Reverse(v.g)), th);
    PairRowsMean(Name(id), LVar(x), v.reach, ReachOf(v.g), th);
    RelatedReversed(v.g, th(x), NameOf(id));
    assert Sat(up, th) <==> Sat(up.goals[0], th) || Sat(up.goals[1], th);
    assert Sat(down, th) <==> Sat(down.goals[0], th) || Sat(down.goals[1], th);
    if m :| th(x) == NameOf(m) && InStream(v.g, id, m) && m != id {
      assert (id, m) in ReachOf(v.g);
    }
  }

  /** Whenever the queries for the nodes upstream and downstream of a node end, which they
      do, both return the node and what it reaches. */
  lemma UpstreamQueryIsDownstream(v: View, x: int, id: string, n: nat)
    requires Faithful(v)
    ensures WellFormed(UpstreamGoal(v, x, id)) && WellFormed(DownstreamGoal(v, x, id)) && Proper(map[])
    ensures var up := NodeIds(n, UpstreamGoal(v, x, id), x);
      up.Ends? ==> forall m :: m in up.value <==> InStream(v.g, id, m)
    ensures var down := NodeIds(n, DownstreamGoal(v, x, id), x);
      down.Ends? ==> forall m :: m in down.value <==> InStream(v.g, id, m)
    ensures (exists k: nat :: NodeIds(k, UpstreamGoal(v, x, id), x).Ends?)
    ensures (exists k: nat :: NodeIds(k, DownstreamGoal(v, x, id), x).Ends?)
  {
    StreamGoals(v, x, id);
    EmptyProper();
    StreamIds(v, x, id, n, UpstreamGoal(v, x, id));
    StreamIds(v, x, id, n, DownstreamGoal(v, x, id));
    var k := FittingIdsEnd(UpstreamGoal(v, x, id), x);
    var m := FittingIdsEnd(DownstreamGoal(v, x, id), x);
  }

  lemma StreamIds(v: View, x: int, id: string, n: nat, g: Goal)
    requires Faithful(v) && g in {UpstreamGoal(v, x, id), DownstreamGoal(v, x, id)} && WellFormed(g) && Proper(map[])
    ensures var ids := NodeIds(n, g, x);
      ids.Ends? ==> forall m :: m in ids.value <==> InStream(v.g, id, m)
  {
    StreamGoals(v, x, id);
    if NodeIds(n, g, x).Ends? {
      var k := FittingIdsEnd(g, x);
      RunDeeper(if n < k then n else k, if n < k then k else n, g, GoalState(map[], 0));
      forall th ensures Sat(g, th) <==> exists m :: th(x) == NameOf(m) && InStream(v.g, id, m) {
        StreamMeans(v, x, id, th);
      }
      forall m ensures m in NodeIds(n, g, x).value <==> InStream(v.g, id, m) {
        NodeIdsExact(n, g, x, m);
        var th: Assignment := _ => NameOf(m);
        assert th(x) == NameOf(m);
      }
    }
  }

  /** So the upstream query returns the node and the nodes that reach it exactly when, for
      every other node, reaching it and being reached from it are the same. */
  lemma UpstreamRightIff(v: View, x: int, id: string, n: nat)
    requires Faithful(v)
    ensures WellFormed(UpstreamGoal(v, x, id)) && Proper(map[])
    ensures var up := NodeIds(n, UpstreamGoal(v, x, id), x); up.Ends? ==>
      ((forall m :: m in up.value <==> m == id || Reaches(v.g, m, id)) <==>
       (forall m :: m != id ==> (Reaches(v.g, id, m) <==> Reaches(v.g, m, id))))
  {
    UpstreamQueryIsDownstream(v, x, id, n);
  }

  /** One edge from a to b: a is upstream of b and missing from the answer. */
  lemma UpstreamMissesSource(x: int) returns (v: View, n: nat)
    ensures v.g == Graph(["a", "b"], map["a" := [], "b" := []], [("a", "b")]) && Faithful(v)
    ensures WellFormed(UpstreamGoal(v, x, "b")) && Proper(map[])
    ensures Reaches(v.g, "a", "b") && NodeIds(n, UpstreamGoal(v, x, "b"), x).Ends?
    ensures "a" !in NodeIds(n, UpstreamGoal(v, x, "b"), x).value
  {
    v := View(Graph(["a", "b"], map["a" := [], "b" := []], [("a", "b")]), [("a", "b")], [("b", "a")]);
    OneEdgeFaithful(v);
    StreamGoals(v, x, "b");
    n := FittingIdsEnd(UpstreamGoal(v, x, "b"), x);
    UpstreamQueryIsDownstream(v, x, "b", n);
  }

  lemma OneEdgeFaithful(v: View)
    requires v == View(Graph(["a", "b"], map["a" := [], "b" := []], [("a", "b")]), [("a", "b")], [("b", "a")])
    ensures Faithful(v) && Reaches(v.g, "a", "b") && !Reaches(v.g, "b", "a")
  {
    assert v.g.edges[0] == ("a", "b");
    assert "a" != "b";
    EdgeReaches(v.g, "a", "b");
    forall e: Edge | Reaches(v.g, e.0, e.1) ensures e == ("a", "b") {
      var p :| PathFromTo(v.g, p, e.0, e.1);
      OnlyEdge(v.g, p, 0);
      if |p| > 2 { OnlyEdge(v.g, p, 1); }
    }
    forall e: Edge ensures Reaches(Reverse(v.g), e.0, e.1) <==> e == ("b", "a") {
      var back: Edge := (e.1, e.0);
      ReachesReversed(v.g, back.0, back.1);
      assert Reaches(v.g, back.0, back.1) <==> back == ("a", "b");
    }
  }

  lemma OnlyEdge(g: DataGraph, p: seq<string>, i: nat)
    requires g.edges == [("a", "b")] && IsPath(g, p) && i + 1 < |p|
    ensures p[i] == "a" && p[i + 1] == "b"
  {
    assert StepAt(g, p, i);
  }

  // ---- Building the view ----

  /** The pairs the code lists for a graph and for its reverse are all reachable pairs
      exactly when no two such pairs print alike. */
  method BuildView(g: DataGraph) returns (v: View)
    requires PlainGraph(g)
    ensures v.g == g && (Faithful(v) <==> KeysDistinct(g) && KeysDistinct(Reverse(g)))
  {
    ReverseValid(g);
    var reach := EnumerateReachablePairs(g);
    var back := EnumerateReachablePairs(Reverse(g));
    v := View(g, reach, back);
    ListedIsFaithful(g, reach);
    ListedIsFaithful(Reverse(g), back);
  }

  lemma ListedIsFaithful(g: DataGraph, pairs: seq<Edge>)
    requires forall e :: e in pairs ==> Reaches(g, e.0, e.1)
    ensures (forall e: Edge :: e in pairs <==> Reaches(g, e.0, e.1)) <==>
      forall u, w :: Reaches(g, u, w) ==> (u, w) in pairs
  {
    if forall u, w :: Reaches(g, u, w) ==> (u, w) in pairs {
      forall e: Edge | Reaches(g, e.0, e.1) ensures e in pairs {
        assert (e.0, e.1) in pairs;
      }
    }
  }

  lemma ReverseValid(g: DataGraph)
    requires Valid(g)
    ensures Valid(Reverse(g))
  {
    var r := Reverse(g);
    forall i, j | 0 <= i < j < |r.edges| ensures r.edges[i] != r.edges[j] {
      assert g.edges[i] != g.edges[j];
    }
    forall e | e in r.edges ensures e.0 in r.nodes && e.1 in r.nodes {
      assert (e.1, e.0) in g.edges;
    }
  }
}
