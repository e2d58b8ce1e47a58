// Resolving stored graph data: references to souls are replaced by what the store holds.
// Reads complete in any order, and all of them share one set of visited souls.
module GunResolve {
  import opened Common

  type Soul = string

  /** An array is a container whose keys are its indices. */
  datatype Json = Null | Scalar(text: string) | Text(s: string) | Container(isArray: bool, fields: seq<Field>)

  datatype Field = Field(key: string, value: Json)

  type Store = map<Soul, Json>

  const MAX_DEPTH := 100

  // ---- Recognising references and graphs ----

  function Lookup(fields: seq<Field>, key: string): Option<Json> {
    if fields == [] then None else if fields[0].key == key then Some(fields[0].value) else Lookup(fields[1..], key)
  }

  /** Only a soul, and perhaps metadata. */
  predicate IsReference(n: Json) {
    && n.Container? && !n.isArray
    && Lookup(n.fields, "#").Some? && Lookup(n.fields, "#").value.Text?
    && forall f :: f in n.fields ==> f.key == "#" || f.key == "_"
  }

  function SoulOf(n: Json): Soul
    requires IsReference(n)
  {
    Lookup(n.fields, "#").value.s
  }

  predicate NodeNamed(n: Json, soul: Soul) {
    && n.Container? && Lookup(n.fields, "_").Some? && Lookup(n.fields, "_").value.Container?
    && Lookup(Lookup(n.fields, "_").value.fields, "#") == Some(Text(soul))
  }

  /** Two or more nodes, each under its own soul. */
  predicate IsGraph(n: Json) {
    n.Container? && !n.isArray && |n.fields| > 1 && forall f :: f in n.fields ==> NodeNamed(f.value, f.key)
  }

  /** Metadata is left out of ordinary objects. */
  predicate SkipsMeta(n: Json) {
    n.Container? && !n.isArray && !IsGraph(n)
  }

  function ChildDepth(n: Json, depth: nat): nat {
    if IsGraph(n) then 0 else depth + 1
  }

  /** What a read delivers: nothing for a missing soul or an empty object. */
  function Content(store: Store, soul: Soul): Json {
    if soul !in store || (store[soul].Container? && store[soul].fields == []) then Null else store[soul]
  }

  // ---- Resolution ----

  /** The promise tree of a resolution. `Pending` waits for a read, `Expanded` has got it. */
  datatype Tree =
    | Leaf(value: Json)
    | Failed
    | Pending(soul: Soul)
    | Expanded(soul: Soul, inner: Tree)
    | Branch(isArray: bool, children: seq<Child>)

  datatype Child = Child(key: string, tree: Tree)

  /** All that happens before the first await: nested values are entered from left to right,
      and every soul not seen before is marked and read. */
  function Start(n: Json, visited: set<Soul>, depth: nat): (Tree, set<Soul>)
    decreases n
  {
    if depth > MAX_DEPTH then (Failed, visited)
    else if !n.Container? then (Leaf(n), visited)
    else if IsReference(n) then
      if SoulOf(n) in visited then (Leaf(Null), visited) else (Pending(SoulOf(n)), visited + {SoulOf(n)})
    else
      var (children, seen) := StartFields(n.fields, SkipsMeta(n), visited, ChildDepth(n, depth));
      (Branch(n.isArray, children), seen)
  }

  function StartFields(fields: seq<Field>, skip: bool, visited: set<Soul>, depth: nat): (seq<Child>, set<Soul>)
    decreases fields
  {
    if fields == [] then ([], visited)
    else if skip && fields[0].key == "_" then StartFields(fields[1..], skip, visited, depth)
    else
      var (tree, seen) := Start(fields[0].value, visited, depth);
      var (rest, all) := StartFields(fields[1..], skip, seen, depth);
      ([Child(fields[0].key, tree)] + rest, all)
  }

  function Replace(t: Tree, soul: Soul, u: Tree): Tree {
    match t
    case Leaf(_) => t
    case Failed => t
    case Pending(s) => if s == soul then u else t
    case Expanded(s, inner) => Expanded(s, Replace(inner, soul, u))
    case Branch(a, children) => Branch(a, ReplaceAll(children, soul, u))
  }

  function ReplaceAll(children: seq<Child>, soul: Soul, u: Tree): seq<Child> {
    if children == [] then []
    else [Child(children[0].key, Replace(children[0].tree, soul, u))] + ReplaceAll(children[1..], soul, u)
  }

  /** `expanded`: souls whose read has completed. */
  datatype State = State(tree: Tree, visited: set<Soul>, expanded: set<Soul>)

  function Init(root: Json): State {
    State(Start(root, {}, 0).0, Start(root, {}, 0).1, {})
  }

  predicate Enabled(s: State, soul: Soul) {
    soul in s.visited && soul !in s.expanded
  }

  /** The read of one soul completes. */
  function Step(store: Store, s: State, soul: Soul): State {
    var (tree, seen) := Start(Content(store, soul), s.visited, 0);
    State(Replace(s.tree, soul, Expanded(soul, tree)), seen, s.expanded + {soul})
  }

  ghost predicate IsRun(store: Store, s: State, souls: seq<Soul>)
    decreases |souls|
  {
    souls == [] || (Enabled(s, souls[0]) && IsRun(store, Step(store, s, souls[0]), souls[1..]))
  }

  function Final(store: Store, s: State, souls: seq<Soul>): State
    decreases |souls|
  {
    if souls == [] then s else Final(store, Step(store, s, souls[0]), souls[1..])
  }

  /** The value of a finished tree; an error below a reference makes that reference null. */
  function ValueOf(t: Tree): Outcome<Json> {
    match t
    case Leaf(v) => Done(v)
    case Failed => Thrown
    case Pending(_) => Thrown
    case Expanded(_, inner) => (match ValueOf(inner) case Done(v) => Done(v) case Thrown => Done(Null))
    case Branch(a, children) => (match ValuesOf(children) case Done(fs) => Done(Container(a, fs)) case Thrown => Thrown)
  }

  function ValuesOf(children: seq<Child>): Outcome<seq<Field>> {
    if children == [] then Done([])
    else match ValueOf(children[0].tree)
      case Thrown => Thrown
      case Done(v) =>
        match ValuesOf(children[1..])
        case Thrown => Thrown
        case Done(fs) => Done([Field(children[0].key, v)] + fs)
  }

  // ---- References of a value ----

  /** References in the order in which they are entered; none below the depth limit. */
  function Refs(n: Json, depth: nat): seq<Soul>
    decreases n
  {
    if depth > MAX_DEPTH || !n.Container? then []
    else if IsReference(n) then [SoulOf(n)]
    else FieldRefs(n.fields, SkipsMeta(n), ChildDepth(n, depth))
  }

  function FieldRefs(fields: seq<Field>, skip: bool, depth: nat): seq<Soul>
    decreases fields
  {
    if fields == [] then []
    else if skip && fields[0].key == "_" then FieldRefs(fields[1..], skip, depth)
    else Refs(fields[0].value, depth) + FieldRefs(fields[1..], skip, depth)
  }

  /** What the record of a soul refers to. */
  function Cites(store: Store, soul: Soul): seq<Soul> {
    Refs(Content(store, soul), 0)
  }

  /** A set of souls that holds all references from the root and from its own members. */
  ghost predicate ClosedSouls(store: Store, root: Json, souls: set<Soul>) {
    && Elems(Refs(root, 0)) <= souls
    && forall s :: s in souls ==> Elems(Cites(store, s)) <= souls
  }

  /** All souls that are referenced anywhere. */
  ghost function AllSouls(store: Store, root: Json): set<Soul> {
    Elems(Refs(root, 0)) + set s, x | s in store && x in Refs(store[s], 0) :: x
  }

  /** The souls that references lead to, from the root on. */
  ghost function Reach(store: Store, root: Json): set<Soul> {
    set s | s in AllSouls(store, root) && forall c: set<Soul> :: ClosedSouls(store, root, c) ==> s in c
  }

  lemma AllSoulsClosed(store: Store, root: Json)
    ensures ClosedSouls(store, root, AllSouls(store, root))
  {
    forall s, x | x in Cites(store, s) ensures x in AllSouls(store, root) {
      assert s in store && x in Refs(store[s], 0);
    }
  }

  /** It is the least closed set. */
  lemma ReachIsLeast(store: Store, root: Json)
    ensures ClosedSouls(store, root, Reach(store, root))
    ensures forall c: set<Soul> :: ClosedSouls(store, root, c) ==> Reach(store, root) <= c
  {
    AllSoulsClosed(store, root);
    forall s | s in Reach(store, root) ensures Elems(Cites(store, s)) <= Reach(store, root) {
      forall x, c: set<Soul> | x in Elems(Cites(store, s)) && ClosedSouls(store, root, c) ensures x in c {
        assert s in c;
      }
    }
  }

  /** Nesting stays within the depth limit; references and graphs start again at zero. */
  predicate Shallow(n: Json, depth: nat)
    decreases n
  {
    depth <= MAX_DEPTH &&
      (!n.Container? || IsReference(n) || ShallowFields(n.fields, SkipsMeta(n), ChildDepth(n, depth)))
  }

  predicate ShallowFields(fields: seq<Field>, skip: bool, depth: nat)
    decreases fields
  {
    fields == [] ||
      (((skip && fields[0].key == "_") || Shallow(fields[0].value, depth)) && ShallowFields(fields[1..], skip, depth))
  }

  /** Neither the root nor a record within reach is nested too deep. */
  ghost predicate WithinLimit(store: Store, root: Json) {
    Shallow(root, 0) && forall s :: s in Reach(store, root) ==> Shallow(Content(store, s), 0)
  }

  // ---- What a tree waits for, uses and cuts off ----

  function Waits(t: Tree, x: Soul): nat {
    match t
    case Leaf(_) => 0
    case Failed => 0
    case Pending(s) => if s == x then 1 else 0
    case Expanded(_, inner) => Waits(inner, x)
    case Branch(_, children) => WaitsIn(children, x)
  }

  function WaitsIn(children: seq<Child>, x: Soul): nat {
    if children == [] then 0 else Waits(children[0].tree, x) + WaitsIn(children[1..], x)
  }

  /** No read is pending. */
  predicate Finished(t: Tree) {
    match t
    case Pending(_) => false
    case Expanded(_, inner) => Finished(inner)
    case Branch(_, children) => FinishedAll(children)
    case _ => true
  }

  predicate FinishedAll(children: seq<Child>) {
    children == [] || (Finished(children[0].tree) && FinishedAll(children[1..]))
  }

  lemma {:induction false} UnfinishedWaits(t: Tree) returns (x: Soul)
    requires !Finished(t)
    ensures Waits(t, x) > 0
  {
    match t {
      case Pending(s) => x := s;
      case Expanded(_, inner) => x := UnfinishedWaits(inner);
      case Branch(_, children) => x := UnfinishedChildWaits(children);
    }
  }

  lemma {:induction false} UnfinishedChildWaits(children: seq<Child>) returns (x: Soul)
    requires !FinishedAll(children)
    ensures WaitsIn(children, x) > 0
  {
    if Finished(children[0].tree) {
      x := UnfinishedChildWaits(children[1..]);
    } else {
      x := UnfinishedWaits(children[0].tree);
    }
  }

  /** The souls a tree waits for or has read, as often as they occur in it. */
  function Uses(t: Tree): multiset<Soul> {
    match t
    case Pending(s) => multiset{s}
    case Expanded(s, inner) => multiset{s} + Uses(inner)
    case Branch(_, children) => UsesIn(children)
    case _ => multiset{}
  }

  function UsesIn(children: seq<Child>): multiset<Soul> {
    if children == [] then multiset{} else Uses(children[0].tree) + UsesIn(children[1..])
  }

  /** What the souls read in a tree refer to. */
  ghost function Given(store: Store, t: Tree): multiset<Soul> {
    match t
    case Expanded(s, inner) => multiset(Cites(store, s)) + Given(store, inner)
    case Branch(_, children) => GivenIn(store, children)
    case _ => multiset{}
  }

  ghost function GivenIn(store: Store, children: seq<Child>): multiset<Soul> {
    if children == [] then multiset{} else Given(store, children[0].tree) + GivenIn(store, children[1..])
  }

  function Failures(t: Tree): nat {
    match t
    case Failed => 1
    case Expanded(_, inner) => Failures(inner)
    case Branch(_, children) => FailuresIn(children)
    case _ => 0
  }

  function FailuresIn(children: seq<Child>): nat {
    if children == [] then 0 else Failures(children[0].tree) + FailuresIn(children[1..])
  }

  /** `t` is a resolution of `n` in progress: it follows the structure of `n`, references
      being pending, expanded, or cut off to null, and it fails below the depth limit. */
  ghost predicate Fits(store: Store, t: Tree, n: Json, depth: nat)
    decreases t
  {
    if depth > MAX_DEPTH then t.Failed?
    else if !n.Container? then t == Leaf(n)
    else if IsReference(n) then
      || t == Leaf(Null)
      || t == Pending(SoulOf(n))
      || (t.Expanded? && t.soul == SoulOf(n) && Fits(store, t.inner, Content(store, t.soul), 0))
    else
      t.Branch? && t.isArray == n.isArray && FitsAll(store, t.children, n.fields, SkipsMeta(n), ChildDepth(n, depth))
  }

  ghost predicate FitsAll(store: Store, children: seq<Child>, fields: seq<Field>, skip: bool, depth: nat)
    decreases children, |fields|
  {
    if fields == [] then children == []
    else if skip && fields[0].key == "_" then FitsAll(store, children, fields[1..], skip, depth)
    else
      && children != [] && children[0].key == fields[0].key && Fits(store, children[0].tree, fields[0].value, depth)
      && FitsAll(store, children[1..], fields[1..], skip, depth)
  }

  /** The souls whose references `t` has cut off, as often as it has. */
  ghost function CutSouls(store: Store, t: Tree, n: Json): multiset<Soul>
    decreases t
  {
    match t
    case Leaf(_) => if IsReference(n) then multiset{SoulOf(n)} else multiset{}
    case Expanded(s, inner) => CutSouls(store, inner, Content(store, s))
    case Branch(_, children) => if n.Container? then CutIn(store, children, n.fields, SkipsMeta(n)) else multiset{}
    case _ => multiset{}
  }

  ghost function CutIn(store: Store, children: seq<Child>, fields: seq<Field>, skip: bool): multiset<Soul>
    decreases children, |fields|
  {
    if fields == [] then multiset{}
    else if skip && fields[0].key == "_" then CutIn(store, children, fields[1..], skip)
    else if children == [] then multiset{}
    else CutSouls(store, children[0].tree, fields[0].value) + CutIn(store, children[1..], fields[1..], skip)
  }

  lemma SumsSwap<T>(a: multiset<T>, b: multiset<T>, c: multiset<T>, d: multiset<T>)
    ensures (a + b) + (c + d) == (a + c) + (b + d)
  {
  }

  lemma SumsMove<T>(a: multiset<T>, b: multiset<T>, c: multiset<T>)
    ensures a + (b + c) == (a + b) + c && (a + b) + c == (a + c) + b
  {
  }

  /** Conservation: what a tree uses and cuts off is what its value and the records read in
      it refer to. */
  lemma {:induction false} Conserved(store: Store, t: Tree, n: Json, depth: nat)
    requires Fits(store, t, n, depth)
    ensures Uses(t) + CutSouls(store, t, n) == multiset(Refs(n, depth)) + Given(store, t)
    decreases t
  {
    match t {
      case Expanded(s, inner) =>
        Conserved(store, inner, Content(store, s), 0);
        assert [s] == Refs(n, depth);
        SumsMove(multiset{s}, Uses(inner), CutSouls(store, inner, Content(store, s)));
      case Branch(_, children) => AllConserved(store, children, n.fields, SkipsMeta(n), ChildDepth(n, depth));
      case _ =>
    }
  }

  lemma {:induction false} AllConserved(store: Store, children: seq<Child>, fields: seq<Field>, skip: bool, depth: nat)
    requires FitsAll(store, children, fields, skip, depth)
    ensures UsesIn(children) + CutIn(store, children, fields, skip) ==
      multiset(FieldRefs(fields, skip, depth)) + GivenIn(store, children)
    decreases children, |fields|
  {
    if fields == [] {
    } else if skip && fields[0].key == "_" {
      AllConserved(store, children, fields[1..], skip, depth);
    } else {
      var t, rest := children[0].tree, children[1..];
      Conserved(store, t, fields[0].value, depth);
      AllConserved(store, rest, fields[1..], skip, depth);
      var first, others := Refs(fields[0].value, depth), FieldRefs(fields[1..], skip, depth);
      assert multiset(first + others) == multiset(first) + multiset(others);
      SumsSwap(Uses(t), CutSouls(store, t, fields[0].value), UsesIn(rest), CutIn(store, rest, fields[1..], skip));
      SumsSwap(multiset(first), Given(store, t), multiset(others), GivenIn(store, rest));
    }
  }

  // ---- Entering a value ----

  /** Exactly the references of the value get marked, and the tree waits exactly once for
      each soul that was not marked before. */
  lemma {:induction false} StartMarks(n: Json, visited: set<Soul>, depth: nat)
    ensures var (tree, seen) := Start(n, visited, depth);
      && seen == visited + Elems(Refs(n, depth))
      && forall x :: Waits(tree, x) == if x in seen && x !in visited then 1 else 0
    decreases n
  {
    if depth <= MAX_DEPTH && n.Container? && !IsReference(n) {
      StartFieldsMarks(n.fields, SkipsMeta(n), visited, ChildDepth(n, depth));
    }
  }

  lemma {:induction false} StartFieldsMarks(fields: seq<Field>, skip: bool, visited: set<Soul>, depth: nat)
    ensures var (children, seen) := StartFields(fields, skip, visited, depth);
      && seen == visited + Elems(FieldRefs(fields, skip, depth))
      && forall x :: WaitsIn(children, x) == if x in seen && x !in visited then 1 else 0
    decreases fields
  {
    if fields == [] {
    } else if skip && fields[0].key == "_" {
      StartFieldsMarks(fields[1..], skip, visited, depth);
    } else {
      var (tree, seen) := Start(fields[0].value, visited, depth);
      var (rest, all) := StartFields(fields[1..], skip, seen, depth);
      StartMarks(fields[0].value, visited, depth);
      StartFieldsMarks(fields[1..], skip, seen, depth);
      ElemsOfAppend(Refs(fields[0].value, depth), FieldRefs(fields[1..], skip, depth));
      assert ([Child(fields[0].key, tree)] + rest)[1..] == rest;
    }
  }

  /** A value that has been entered fits, and nothing in it has been read. */
  lemma {:induction false} StartFits(store: Store, n: Json, visited: set<Soul>, depth: nat)
    ensures var tree := Start(n, visited, depth).0;
      && Fits(store, tree, n, depth) && Given(store, tree) == multiset{} && forall x :: Uses(tree)[x] == Waits(tree, x)
    decreases n
  {
    if depth <= MAX_DEPTH && n.Container? && !IsReference(n) {
      StartFieldsFit(store, n.fields, SkipsMeta(n), visited, ChildDepth(n, depth));
    }
  }

  lemma {:induction false} StartFieldsFit(store: Store, fields: seq<Field>, skip: bool, visited: set<Soul>, depth: nat)
    ensures var children := StartFields(fields, skip, visited, depth).0;
      && FitsAll(store, children, fields, skip, depth) && GivenIn(store, children) == multiset{}
      && forall x :: UsesIn(children)[x] == WaitsIn(children, x)
    decreases fields
  {
    if fields == [] {
    } else if skip && fields[0].key == "_" {
      StartFieldsFit(store, fields[1..], skip, visited, depth);
    } else {
      var (tree, seen) := Start(fields[0].value, visited, depth);
      var (rest, all) := StartFields(fields[1..], skip, seen, depth);
      StartFits(store, fields[0].value, visited, depth);
      StartFieldsFit(store, fields[1..], skip, seen, depth);
      assert ([Child(fields[0].key, tree)] + rest)[1..] == rest;
    }
  }

  // ---- A completed read ----

  lemma {:induction false} ReplaceAbsent(t: Tree, soul: Soul, u: Tree)
    requires Waits(t, soul) == 0
    ensures Replace(t, soul, u) == t
    decreases t
  {
    match t {
      case Expanded(_, inner) => ReplaceAbsent(inner, soul, u);
      case Branch(_, children) => ReplaceAllAbsent(children, soul, u);
      case _ =>
    }
  }

  lemma {:induction false} ReplaceAllAbsent(children: seq<Child>, soul: Soul, u: Tree)
    requires WaitsIn(children, soul) == 0
    ensures ReplaceAll(children, soul, u) == children
    decreases children
  {
    if children != [] {
      ReplaceAbsent(children[0].tree, soul, u);
      ReplaceAllAbsent(children[1..], soul, u);
    }
  }

  lemma {:induction false} ReplaceWaits(t: Tree, soul: Soul, u: Tree, x: Soul)
    requires Waits(t, soul) == 1
    ensures Waits(Replace(t, soul, u), x) == (if x == soul then 0 else Waits(t, x)) + Waits(u, x)
    decreases t
  {
    match t {
      case Expanded(_, inner) => ReplaceWaits(inner, soul, u, x);
      case Branch(_, children) => ReplaceAllWaits(children, soul, u, x);
      case _ =>
    }
  }

  lemma {:induction false} ReplaceAllWaits(children: seq<Child>, soul: Soul, u: Tree, x: Soul)
    requires WaitsIn(children, soul) == 1
    ensures WaitsIn(ReplaceAll(children, soul, u), x) == (if x == soul then 0 else WaitsIn(children, x)) + Waits(u, x)
    decreases children
  {
    var first, rest := children[0].tree, children[1..];
    assert ReplaceAll(children, soul, u)[1..] == ReplaceAll(rest, soul, u);
    if Waits(first, soul) == 1 {
      ReplaceWaits(first, soul, u, x);
      ReplaceAllAbsent(rest, soul, u);
    } else {
      ReplaceAbsent(first, soul, u);
      ReplaceAllWaits(rest, soul, u, x);
    }
  }

  lemma {:induction false} ReplaceUses(t: Tree, soul: Soul, u: Tree)
    requires Waits(t, soul) == 1
    ensures Uses(Replace(t, soul, Expanded(soul, u))) == Uses(t) + Uses(u)
    decreases t
  {
    match t {
      case Expanded(s, inner) =>
        ReplaceUses(inner, soul, u);
        SumsMove(multiset{s}, Uses(inner), Uses(u));
      case Branch(_, children) => ReplaceAllUses(children, soul, u);
      case _ =>
    }
  }

  lemma {:induction false} ReplaceAllUses(children: seq<Child>, soul: Soul, u: Tree)
    requires WaitsIn(children, soul) == 1
    ensures UsesIn(ReplaceAll(children, soul, Expanded(soul, u))) == UsesIn(children) + Uses(u)
    decreases children
  {
    var first, rest, v := children[0].tree, children[1..], Expanded(soul, u);
    assert ReplaceAll(children, soul, v)[1..] == ReplaceAll(rest, soul, v);
    if Waits(first, soul) == 1 {
      ReplaceUses(first, soul, u);
      ReplaceAllAbsent(rest, soul, v);
      SumsMove(Uses(first), Uses(u), UsesIn(rest));
    } else {
      ReplaceAbsent(first, soul, v);
      ReplaceAllUses(rest, soul, u);
      SumsMove(Uses(first), UsesIn(rest), Uses(u));
    }
  }

  lemma {:induction false} ReplaceGiven(store: Store, t: Tree, soul: Soul, u: Tree)
    requires Waits(t, soul) == 1 && Given(store, u) == multiset{}
    ensures Given(store, Replace(t, soul, Expanded(soul, u))) == Given(store, t) + multiset(Cites(store, soul))
    decreases t
  {
    match t {
      case Expanded(s, inner) =>
        ReplaceGiven(store, inner, soul, u);
        SumsMove(multiset(Cites(store, s)), Given(store, inner), multiset(Cites(store, soul)));
      case Branch(_, children) => ReplaceAllGiven(store, children, soul, u);
      case _ =>
    }
  }

  lemma {:induction false} ReplaceAllGiven(store: Store, children: seq<Child>, soul: Soul, u: Tree)
    requires WaitsIn(children, soul) == 1 && Given(store, u) == multiset{}
    ensures GivenIn(store, ReplaceAll(children, soul, Expanded(soul, u))) ==
      GivenIn(store, children) + multiset(Cites(store, soul))
    decreases children
  {
    var first, rest, v := children[0].tree, children[1..], Expanded(soul, u);
    var cited := multiset(Cites(store, soul));
    assert ReplaceAll(children, soul, v)[1..] == ReplaceAll(rest, soul, v);
    if Waits(first, soul) == 1 {
      ReplaceGiven(store, first, soul, u);
      ReplaceAllAbsent(rest, soul, v);
      SumsMove(Given(store, first), cited, GivenIn(store, rest));
    } else {
      ReplaceAbsent(first, soul, v);
      ReplaceAllGiven(store, rest, soul, u);
      SumsMove(Given(store, first), GivenIn(store, rest), cited);
    }
  }

  lemma {:induction false} ReplaceFits(store: Store, t: Tree, n: Json, depth: nat, soul: Soul, u: Tree)
    requires Fits(store, t, n, depth) && Fits(store, u, Content(store, soul), 0)
    ensures Fits(store, Replace(t, soul, Expanded(soul, u)), n, depth)
    decreases t
  {
    match t {
      case Expanded(s, inner) => ReplaceFits(store, inner, Content(store, s), 0, soul, u);
      case Branch(_, children) =>
        ReplaceAllFit(store, children, n.fields, SkipsMeta(n), ChildDepth(n, depth), soul, u);
      case _ =>
    }
  }

  lemma {:induction false} ReplaceAllFit(store: Store, children: seq<Child>, fields: seq<Field>, skip: bool, depth: nat,
                                         soul: Soul, u: Tree)
    requires FitsAll(store, children, fields, skip, depth) && Fits(store, u, Content(store, soul), 0)
    ensures FitsAll(store, ReplaceAll(children, soul, Expanded(soul, u)), fields, skip, depth)
    decreases children, |fields|
  {
    if fields == [] {
    } else if skip && fields[0].key == "_" {
      ReplaceAllFit(store, children, fields[1..], skip, depth, soul, u);
    } else {
      ReplaceFits(store, children[0].tree, fields[0].value, depth, soul, u);
      ReplaceAllFit(store, children[1..], fields[1..], skip, depth, soul, u);
      assert ReplaceAll(children, soul, Expanded(soul, u))[1..] == ReplaceAll(children[1..], soul, Expanded(soul, u));
    }
  }

  // ---- Every run ----

  ghost function Pick(souls: set<Soul>): (s: Soul)
    requires souls != {}
    ensures s in souls
  {
    var s :| s in souls; s
  }

  /** What the records of a set of souls refer to, each reference counted. */
  ghost function CitedBy(store: Store, souls: set<Soul>): multiset<Soul> {
    if souls == {} then multiset{}
    else var s := Pick(souls); multiset(Cites(store, s)) + CitedBy(store, souls - {s})
  }

  lemma {:induction false} CitedByWith(store: Store, souls: set<Soul>, s: Soul)
    requires s in souls
    ensures CitedBy(store, souls) == multiset(Cites(store, s)) + CitedBy(store, souls - {s})
    decreases souls
  {
    var p := Pick(souls);
    if p != s {
      CitedByWith(store, souls - {p}, s);
      CitedByWith(store, souls - {s}, p);
      assert souls - {p} - {s} == souls - {s} - {p};
      var a, b, c := multiset(Cites(store, p)), multiset(Cites(store, s)), CitedBy(store, souls - {s} - {p});
      SumsMove(a, b, c);
      SumsMove(b, a, c);
    }
  }

  /** In every state: the tree waits exactly once for each soul that is marked and not yet
      read, uses each marked soul exactly once, and refers to nothing that is not marked. */
  ghost predicate Sound(store: Store, root: Json, s: State) {
    && s.expanded <= s.visited <= Reach(store, root)
    && (forall x :: Waits(s.tree, x) == if Enabled(s, x) then 1 else 0)
    && (forall x :: Uses(s.tree)[x] == if x in s.visited then 1 else 0)
    && Fits(store, s.tree, root, 0)
    && Given(store, s.tree) == CitedBy(store, s.expanded)
    && MarksAll(store, root, s)
  }

  /** Marked are the references of the root and of the records that have been read. */
  ghost predicate MarksAll(store: Store, root: Json, s: State) {
    && (forall x :: x in Refs(root, 0) ==> x in s.visited)
    && (forall y, x :: y in s.expanded && x in Cites(store, y) ==> x in s.visited)
    && forall x :: x in s.visited ==> x in Refs(root, 0) || exists y :: y in s.expanded && x in Cites(store, y)
  }

  lemma InitSound(store: Store, root: Json)
    ensures Sound(store, root, Init(root))
  {
    ReachIsLeast(store, root);
    StartMarks(root, {}, 0);
    StartFits(store, root, {}, 0);
  }

  /** A completed read keeps all that. */
  lemma StepSound(store: Store, root: Json, s: State, soul: Soul)
    requires Sound(store, root, s) && Enabled(s, soul)
    ensures Sound(store, root, Step(store, s, soul))
  {
    StepShape(store, root, s, soul);
    StepCounts(store, root, s, soul);
  }

  lemma StepShape(store: Store, root: Json, s: State, soul: Soul)
    requires Sound(store, root, s) && Enabled(s, soul)
    ensures var t := Step(store, s, soul);
      && t.expanded <= t.visited <= Reach(store, root) && Fits(store, t.tree, root, 0) && MarksAll(store, root, t)
      && t.visited == s.visited + Elems(Cites(store, soul))
  {
    ReachIsLeast(store, root);
    StartMarks(Content(store, soul), s.visited, 0);
    StartFits(store, Content(store, soul), s.visited, 0);
    ReplaceFits(store, s.tree, root, 0, soul, Start(Content(store, soul), s.visited, 0).0);
  }

  lemma StepCounts(store: Store, root: Json, s: State, soul: Soul)
    requires Sound(store, root, s) && Enabled(s, soul)
    ensures var t := Step(store, s, soul);
      && (forall x :: Waits(t.tree, x) == if Enabled(t, x) then 1 else 0)
      && (forall x :: Uses(t.tree)[x] == if x in t.visited then 1 else 0)
      && Given(store, t.tree) == CitedBy(store, t.expanded)
  {
    var (tree, seen) := Start(Content(store, soul), s.visited, 0);
    StartMarks(Content(store, soul), s.visited, 0);
    StartFits(store, Content(store, soul), s.visited, 0);
    StepWaits(store, s, soul, tree, seen);
    StepUses(store, s, soul, tree, seen);
  }

  lemma StepWaits(store: Store, s: State, soul: Soul, tree: Tree, seen: set<Soul>)
    requires Enabled(s, soul) && (tree, seen) == Start(Content(store, soul), s.visited, 0) && s.visited <= seen
    requires forall x :: Waits(tree, x) == if x in seen && x !in s.visited then 1 else 0
    requires forall x :: Waits(s.tree, x) == if Enabled(s, x) then 1 else 0
    requires s.expanded <= s.visited
    ensures forall x :: Waits(Step(store, s, soul).tree, x) == if Enabled(Step(store, s, soul), x) then 1 else 0
  {
    forall x ensures Waits(Step(store, s, soul).tree, x) == if Enabled(Step(store, s, soul), x) then 1 else 0 {
      ReplaceWaits(s.tree, soul, Expanded(soul, tree), x);
    }
  }

  lemma StepUses(store: Store, s: State, soul: Soul, tree: Tree, seen: set<Soul>)
    requires Enabled(s, soul) && (tree, seen) == Start(Content(store, soul), s.visited, 0) && s.visited <= seen
    requires Waits(s.tree, soul) == 1 && Given(store, tree) == multiset{}
    requires forall x :: Uses(tree)[x] == if x in seen && x !in s.visited then 1 else 0
    requires forall x :: Uses(s.tree)[x] == if x in s.visited then 1 else 0
    requires Given(store, s.tree) == CitedBy(store, s.expanded)
    ensures forall x :: Uses(Step(store, s, soul).tree)[x] == if x in seen then 1 else 0
    ensures Given(store, Step(store, s, soul).tree) == CitedBy(store, s.expanded + {soul})
  {
    var t := Step(store, s, soul).tree;
    ReplaceUses(s.tree, soul, tree);
    assert forall x :: Uses(t)[x] == Uses(s.tree)[x] + Uses(tree)[x];
    ReplaceGiven(store, s.tree, soul, tree);
    CitedWithOneMore(store, s.expanded, soul);
  }

  lemma CitedWithOneMore(store: Store, souls: set<Soul>, soul: Soul)
    requires soul !in souls
    ensures CitedBy(store, souls + {soul}) == CitedBy(store, souls) + multiset(Cites(store, soul))
  {
    CitedByWith(store, souls + {soul}, soul);
    assert souls + {soul} - {soul} == souls;
  }

  /** Whatever the store, cycles included: no run is longer than the number of souls within
      reach, and no soul is read twice. */
  lemma {:induction false} RunsEnd(store: Store, root: Json, s: State, run: seq<Soul>)
    requires Sound(store, root, s) && IsRun(store, s, run)
    ensures |run| <= |Reach(store, root)| - |s.expanded|
    ensures NoDup(run) && (forall x :: x in run ==> x !in s.expanded)
    ensures Sound(store, root, Final(store, s, run))
    decreases |run|
  {
    if run == [] {
      SubsetCardinality(s.expanded, Reach(store, root));
    } else {
      StepSound(store, root, s, run[0]);
      RunsEnd(store, root, Step(store, s, run[0]), run[1..]);
      StepExpands(store, s, run[0]);
      NoDupCons(run);
    }
  }

  lemma StepExpands(store: Store, s: State, soul: Soul)
    requires soul !in s.expanded
    ensures Step(store, s, soul).expanded == s.expanded + {soul} && |Step(store, s, soul).expanded| == |s.expanded| + 1
  {
  }

  lemma NoDupCons(run: seq<Soul>)
    requires run != [] && run[0] !in run[1..] && NoDup(run[1..])
    ensures NoDup(run) && forall x :: x in run <==> x == run[0] || x in run[1..]
  {
    assert forall i :: 0 < i < |run| ==> run[i] == run[1..][i - 1];
  }

  ghost predicate Complete(s: State) {
    s.visited == s.expanded
  }

  /** A complete run from the start. */
  ghost predicate CompleteRun(store: Store, root: Json, run: seq<Soul>) {
    IsRun(store, Init(root), run) && Complete(Final(store, Init(root), run))
  }

  ghost function Result(store: Store, root: Json, run: seq<Soul>): Tree {
    Final(store, Init(root), run).tree
  }

  /** How often a soul is referred to from the root and the records within reach. */
  ghost function RefCount(store: Store, root: Json): multiset<Soul> {
    multiset(Refs(root, 0)) + CitedBy(store, Reach(store, root))
  }

  /** At the end everything within reach has been read, and a soul that is referred to n
      times is shown once and cut off n - 1 times, whatever the order. */
  lemma CompleteCounts(store: Store, root: Json, s: State)
    requires Sound(store, root, s) && Complete(s)
    ensures Finished(s.tree) && s.visited == Reach(store, root)
    ensures forall x :: Uses(s.tree)[x] == if x in Reach(store, root) then 1 else 0
    ensures forall x :: x in Reach(store, root) ==> RefCount(store, root)[x] == CutSouls(store, s.tree, root)[x] + 1
    ensures forall x :: x !in Reach(store, root) ==> CutSouls(store, s.tree, root)[x] == RefCount(store, root)[x] == 0
  {
    CompleteReach(store, root, s);
    Conserved(store, s.tree, root, 0);
    NothingElseCited(store, root);
    SumIsRefCount(Uses(s.tree), CutSouls(store, s.tree, root), RefCount(store, root), Reach(store, root));
  }

  lemma CompleteReach(store: Store, root: Json, s: State)
    requires Sound(store, root, s) && Complete(s)
    ensures Finished(s.tree) && s.visited == Reach(store, root)
  {
    if !Finished(s.tree) {
      var x := UnfinishedWaits(s.tree);
    }
    ReachIsLeast(store, root);
    assert ClosedSouls(store, root, s.visited);
  }

  lemma SumIsRefCount(uses: multiset<Soul>, cut: multiset<Soul>, count: multiset<Soul>, reach: set<Soul>)
    requires uses + cut == count && (forall x :: uses[x] == if x in reach then 1 else 0)
    requires forall x :: x !in reach ==> count[x] == 0
    ensures forall x :: count[x] == if x in reach then cut[x] + 1 else 0
    ensures forall x :: x !in reach ==> cut[x] == 0
  {
    assert forall x :: (uses + cut)[x] == uses[x] + cut[x];
  }

  lemma NothingElseCited(store: Store, root: Json)
    ensures forall x :: x !in Reach(store, root) ==> RefCount(store, root)[x] == 0
  {
    ReachIsLeast(store, root);
    forall x | x !in Reach(store, root) ensures RefCount(store, root)[x] == 0 {
      CitedWithin(store, Reach(store, root), Reach(store, root), x);
      assert x !in Elems(Refs(root, 0));
    }
  }

  lemma {:induction false} CitedWithin(store: Store, souls: set<Soul>, all: set<Soul>, x: Soul)
    requires souls <= all && x !in all && forall s :: s in all ==> Elems(Cites(store, s)) <= all
    ensures x !in CitedBy(store, souls)
    decreases souls
  {
    if souls != {} {
      var s := Pick(souls);
      CitedWithin(store, souls - {s}, all, x);
      assert x !in Elems(Cites(store, s));
      assert x !in multiset(Cites(store, s));
    }
  }

  /** A finished tree is free of failures exactly if its value and the records in it are
      within the depth limit. */
  lemma {:induction false} FailuresIff(store: Store, t: Tree, n: Json, depth: nat)
    requires Fits(store, t, n, depth) && Finished(t)
    ensures Failures(t) == 0 <==> Shallow(n, depth) && forall s :: s in Uses(t) ==> Shallow(Content(store, s), 0)
    decreases t
  {
    match t {
      case Expanded(s, inner) =>
        FailuresIff(store, inner, Content(store, s), 0);
        assert forall x :: x in Uses(t) <==> x == s || x in Uses(inner);
      case Branch(_, children) => FailuresInIff(store, children, n.fields, SkipsMeta(n), ChildDepth(n, depth));
      case _ =>
    }
  }

  lemma {:induction false} FailuresInIff(store: Store, children: seq<Child>, fields: seq<Field>, skip: bool, depth: nat)
    requires FitsAll(store, children, fields, skip, depth) && FinishedAll(children)
    ensures FailuresIn(children) == 0 <==>
      ShallowFields(fields, skip, depth) && forall s :: s in UsesIn(children) ==> Shallow(Content(store, s), 0)
    decreases children, |fields|
  {
    if fields == [] {
    } else if skip && fields[0].key == "_" {
      FailuresInIff(store, children, fields[1..], skip, depth);
    } else {
      FailuresIff(store, children[0].tree, fields[0].value, depth);
      FailuresInIff(store, children[1..], fields[1..], skip, depth);
      assert forall s :: s in UsesIn(children) <==> s in Uses(children[0].tree) || s in UsesIn(children[1..]);
    }
  }

  // ---- The full unfolding ----

  /** `u` is `n` with every reference replaced by what the store holds, at every depth. */
  ghost predicate Unfolds(store: Store, u: Tree, n: Json)
    decreases u
  {
    match u
    case Leaf(v) => !n.Container? && v == n
    case Expanded(s, inner) => IsReference(n) && SoulOf(n) == s && Unfolds(store, inner, Content(store, s))
    case Branch(a, children) =>
      n.Container? && !IsReference(n) && a == n.isArray && UnfoldsAll(store, children, n.fields, SkipsMeta(n))
    case _ => false
  }

  ghost predicate UnfoldsAll(store: Store, children: seq<Child>, fields: seq<Field>, skip: bool)
    decreases children, |fields|
  {
    if fields == [] then children == []
    else if skip && fields[0].key == "_" then UnfoldsAll(store, children, fields[1..], skip)
    else
      && children != [] && children[0].key == fields[0].key && Unfolds(store, children[0].tree, fields[0].value)
      && UnfoldsAll(store, children[1..], fields[1..], skip)
  }

  /** There is at most one full unfolding; on a cycle there is none. */
  lemma {:induction false} UnfoldingUnique(store: Store, t: Tree, u: Tree, n: Json)
    requires Unfolds(store, t, n) && Unfolds(store, u, n)
    ensures t == u && ValueOf(t).Done?
    decreases t
  {
    match t {
      case Expanded(s, inner) => UnfoldingUnique(store, inner, u.inner, Content(store, s));
      case Branch(_, children) => UnfoldingsUnique(store, children, u.children, n.fields, SkipsMeta(n));
      case _ =>
    }
  }

  lemma {:induction false} UnfoldingsUnique(store: Store, x: seq<Child>, y: seq<Child>, fields: seq<Field>, skip: bool)
    requires UnfoldsAll(store, x, fields, skip) && UnfoldsAll(store, y, fields, skip)
    ensures x == y && ValuesOf(x).Done?
    decreases x, |fields|
  {
    if fields == [] {
    } else if skip && fields[0].key == "_" {
      UnfoldingsUnique(store, x, y, fields[1..], skip);
    } else {
      UnfoldingUnique(store, x[0].tree, y[0].tree, fields[0].value);
      UnfoldingsUnique(store, x[1..], y[1..], fields[1..], skip);
      assert x == [x[0]] + x[1..] && y == [y[0]] + y[1..];
    }
  }

  /** A finished tree is the full unfolding exactly if nothing failed and nothing was cut. */
  lemma {:induction false} UncutUnfolds(store: Store, t: Tree, n: Json, depth: nat)
    requires Fits(store, t, n, depth) && Finished(t)
    ensures Unfolds(store, t, n) <==> Failures(t) == 0 && CutSouls(store, t, n) == multiset{}
    decreases t
  {
    match t {
      case Expanded(s, inner) => UncutUnfolds(store, inner, Content(store, s), 0);
      case Branch(_, children) => AllUncutUnfold(store, children, n.fields, SkipsMeta(n), ChildDepth(n, depth));
      case _ =>
    }
  }

  lemma {:induction false} AllUncutUnfold(store: Store, children: seq<Child>, fields: seq<Field>, skip: bool,
                                          depth: nat)
    requires FitsAll(store, children, fields, skip, depth) && FinishedAll(children)
    ensures UnfoldsAll(store, children, fields, skip) <==>
      FailuresIn(children) == 0 && CutIn(store, children, fields, skip) == multiset{}
    decreases children, |fields|
  {
    if fields == [] {
    } else if skip && fields[0].key == "_" {
      AllUncutUnfold(store, children, fields[1..], skip, depth);
    } else {
      UncutUnfolds(store, children[0].tree, fields[0].value, depth);
      AllUncutUnfold(store, children[1..], fields[1..], skip, depth);
      EmptySum(CutSouls(store, children[0].tree, fields[0].value), CutIn(store, children[1..], fields[1..], skip));
    }
  }

  lemma EmptySum<T>(a: multiset<T>, b: multiset<T>)
    ensures a + b == multiset{} <==> a == multiset{} && b == multiset{}
  {
    assert forall x :: x in a ==> x in a + b;
    assert forall x :: x in b ==> x in a + b;
  }

  // ---- Souls that resolve to null ----

  /** Nothing is stored under the soul, or a reference to such a soul. */
  ghost predicate NullSoul(store: Store, s: Soul) {
    exists k: nat :: NullWithin(store, s, k)
  }

  predicate NullWithin(store: Store, s: Soul, k: nat)
    decreases k
  {
    var c := Content(store, s);
    c == Null || (k > 0 && IsReference(c) && NullWithin(store, SoulOf(c), k - 1))
  }

  lemma {:induction false} NullUnfolds(store: Store, n: Json, k: nat) returns (u: Tree)
    requires IsReference(n) && NullWithin(store, SoulOf(n), k)
    ensures Unfolds(store, u, n) && ValueOf(u) == Done(Null)
    decreases k
  {
    var s := SoulOf(n);
    var c := Content(store, s);
    if c == Null {
      u := Expanded(s, Leaf(Null));
    } else {
      var inner := NullUnfolds(store, c, k - 1);
      u := Expanded(s, inner);
    }
  }

  /** Only these references unfold to null. */
  lemma {:induction false} NullOnly(store: Store, u: Tree, n: Json) returns (k: nat)
    requires Unfolds(store, u, n) && IsReference(n) && ValueOf(u) == Done(Null)
    ensures NullWithin(store, SoulOf(n), k)
    decreases u
  {
    var c := Content(store, u.soul);
    UnfoldingUnique(store, u.inner, u.inner, c);
    k := 0;
    if IsReference(c) {
      var j := NullOnly(store, u.inner, c);
      k := j + 1;
    }
  }

  // ---- The value is that of the full unfolding ----

  /** If only null souls were cut off, there is a full unfolding, with the same value. */
  lemma {:induction false} FillIn(store: Store, t: Tree, n: Json, depth: nat) returns (u: Tree)
    requires Fits(store, t, n, depth) && Finished(t) && Failures(t) == 0
    requires forall x :: x in CutSouls(store, t, n) ==> NullSoul(store, x)
    ensures Unfolds(store, u, n) && ValueOf(u) == ValueOf(t)
    decreases t
  {
    match t {
      case Leaf(_) =>
        u := t;
        if IsReference(n) {
          assert SoulOf(n) in CutSouls(store, t, n);
          var k: nat :| NullWithin(store, SoulOf(n), k);
          u := NullUnfolds(store, n, k);
        }
      case Expanded(s, inner) =>
        var filled := FillIn(store, inner, Content(store, s), 0);
        u := Expanded(s, filled);
      case Branch(a, children) =>
        var filled := FillAllIn(store, children, n.fields, SkipsMeta(n), ChildDepth(n, depth));
        u := Branch(a, filled);
    }
  }

  lemma {:induction false} FillAllIn(store: Store, children: seq<Child>, fields: seq<Field>, skip: bool, depth: nat)
    returns (filled: seq<Child>)
    requires FitsAll(store, children, fields, skip, depth) && FinishedAll(children) && FailuresIn(children) == 0
    requires forall x :: x in CutIn(store, children, fields, skip) ==> NullSoul(store, x)
    ensures UnfoldsAll(store, filled, fields, skip) && ValuesOf(filled) == ValuesOf(children)
    decreases children, |fields|
  {
    if fields == [] {
      filled := [];
    } else if skip && fields[0].key == "_" {
      filled := FillAllIn(store, children, fields[1..], skip, depth);
    } else {
      var cut := CutSouls(store, children[0].tree, fields[0].value);
      var others := CutIn(store, children[1..], fields[1..], skip);
      assert forall x :: x in cut || x in others ==> x in cut + others;
      var u := FillIn(store, children[0].tree, fields[0].value, depth);
      var rest := FillAllIn(store, children[1..], fields[1..], skip, depth);
      filled := [Child(children[0].key, u)] + rest;
      assert filled[1..] == rest;
    }
  }

  /** A tree with the value of the full unfolding has not failed and has cut off null souls
      only. */
  lemma {:induction false} SameValue(store: Store, t: Tree, u: Tree, n: Json, depth: nat)
    requires Fits(store, t, n, depth) && Finished(t) && Unfolds(store, u, n) && ValueOf(t) == ValueOf(u)
    ensures Failures(t) == 0 && forall x :: x in CutSouls(store, t, n) ==> NullSoul(store, x)
    decreases t
  {
    UnfoldingUnique(store, u, u, n);
    match t {
      case Leaf(_) =>
        if IsReference(n) {
          var k := NullOnly(store, u, n);
        }
      case Expanded(s, inner) =>
        UnfoldingUnique(store, u.inner, u.inner, Content(store, s));
        ThrownIsContainer(store, inner, u.inner, Content(store, s));
        SameValue(store, inner, u.inner, Content(store, s), 0);
      case Branch(_, children) =>
        SameValues(store, children, u.children, n.fields, SkipsMeta(n), ChildDepth(n, depth));
    }
  }

  /** A read that failed is one of a container, which does not unfold to null. */
  lemma ThrownIsContainer(store: Store, t: Tree, u: Tree, n: Json)
    requires Fits(store, t, n, 0) && Finished(t) && Unfolds(store, u, n) && ValueOf(u).Done?
    ensures ValueOf(t).Thrown? ==> ValueOf(u) != Done(Null)
  {
  }

  lemma {:induction false} SameValues(store: Store, x: seq<Child>, y: seq<Child>, fields: seq<Field>, skip: bool,
                                      depth: nat)
    requires FitsAll(store, x, fields, skip, depth) && FinishedAll(x) && UnfoldsAll(store, y, fields, skip)
    requires ValuesOf(x) == ValuesOf(y)
    ensures FailuresIn(x) == 0 && forall s :: s in CutIn(store, x, fields, skip) ==> NullSoul(store, s)
    decreases x, |fields|
  {
    UnfoldingsUnique(store, y, y, fields, skip);
    if fields == [] {
    } else if skip && fields[0].key == "_" {
      SameValues(store, x, y, fields[1..], skip, depth);
    } else {
      FirstAndRest(x, y);
      SameValue(store, x[0].tree, y[0].tree, fields[0].value, depth);
      SameValues(store, x[1..], y[1..], fields[1..], skip, depth);
    }
  }

  lemma FirstAndRest(x: seq<Child>, y: seq<Child>)
    requires x != [] && y != [] && ValuesOf(x).Done? && ValuesOf(x) == ValuesOf(y)
    ensures ValueOf(x[0].tree) == ValueOf(y[0].tree) && ValuesOf(x[1..]) == ValuesOf(y[1..])
  {
    var v, w := ValuesOf(x).result, ValuesOf(y).result;
    assert v[0] == w[0] && v[1..] == w[1..];
    assert v[1..] == ValuesOf(x[1..]).result && w[1..] == ValuesOf(y[1..]).result;
  }

  /** The value of the full unfolding, if there is one. */
  ghost predicate IsUnfoldedValue(store: Store, root: Json, value: Outcome<Json>) {
    exists u :: Unfolds(store, u, root) && value == ValueOf(u)
  }

  /** Nesting is within the limit, and souls that are referred to more than once resolve to
      null. No entry soul of a cycle does, so there are no cycles either. */
  ghost predicate Unfoldable(store: Store, root: Json) {
    WithinLimit(store, root) && forall x :: RefCount(store, root)[x] > 1 ==> NullSoul(store, x)
  }

  /** The value returned is that of the full unfolding if and only if nesting is within the
      limit and every soul within reach that is referred to twice resolves to null. */
  lemma ValueUnfoldsIff(store: Store, root: Json, s: State)
    requires Sound(store, root, s) && Complete(s)
    ensures IsUnfoldedValue(store, root, ValueOf(s.tree)) <==> Unfoldable(store, root)
  {
    WholeIff(store, root, s);
    if Unfoldable(store, root) {
      var u := FillIn(store, s.tree, root, 0);
    }
    if IsUnfoldedValue(store, root, ValueOf(s.tree)) {
      var u :| Unfolds(store, u, root) && ValueOf(s.tree) == ValueOf(u);
      SameValue(store, s.tree, u, root, 0);
    }
  }

  /** What failed and what was cut off at the end does not depend on the order. */
  lemma WholeIff(store: Store, root: Json, s: State)
    requires Sound(store, root, s) && Complete(s)
    ensures Finished(s.tree) && (Failures(s.tree) == 0 <==> WithinLimit(store, root))
    ensures forall x :: x in CutSouls(store, s.tree, root) <==> RefCount(store, root)[x] > 1
  {
    CompleteCounts(store, root, s);
    FailuresIff(store, s.tree, root, 0);
    assert forall x :: x in Uses(s.tree) <==> Uses(s.tree)[x] > 0;
    assert forall x :: x in CutSouls(store, s.tree, root) <==> CutSouls(store, s.tree, root)[x] > 0;
  }

  lemma CompleteIsSound(store: Store, root: Json, run: seq<Soul>)
    requires IsRun(store, Init(root), run)
    ensures Sound(store, root, Final(store, Init(root), run))
  {
    InitSound(store, root);
    RunsEnd(store, root, Init(root), run);
  }

  /** So it is for every complete run, in whatever order its reads complete. The tree itself
      is the full unfolding if and only if no soul is referred to twice. */
  lemma UnfoldsIff(store: Store, root: Json, run: seq<Soul>)
    requires CompleteRun(store, root, run)
    ensures IsUnfoldedValue(store, root, ValueOf(Result(store, root, run))) <==> Unfoldable(store, root)
    ensures RendersWhole(store, root, ValueOf(Result(store, root, run))) <==> Unfoldable(store, root)
    ensures ValueOf(Result(store, root, run)).Thrown? <==> TooDeep(root, 0)
    ensures Unfolds(store, Result(store, root, run), root) <==>
      WithinLimit(store, root) && forall x :: RefCount(store, root)[x] <= 1
  {
    var s := Final(store, Init(root), run);
    CompleteIsSound(store, root, run);
    ValueUnfoldsIff(store, root, s);
    ResolutionExact(store, root, s);
    WholeIff(store, root, s);
    UncutUnfolds(store, s.tree, root, 0);
    assert CutSouls(store, s.tree, root) == multiset{} <==> forall x :: x !in CutSouls(store, s.tree, root);
  }

  /** Under that condition any two orders in which reads complete give one value. */
  lemma CompletionOrderIrrelevant(store: Store, root: Json, run: seq<Soul>, other: seq<Soul>)
    requires Unfoldable(store, root) && CompleteRun(store, root, run) && CompleteRun(store, root, other)
    ensures ValueOf(Result(store, root, run)) == ValueOf(Result(store, root, other))
  {
    UnfoldsIff(store, root, run);
    UnfoldsIff(store, root, other);
    var t :| Unfolds(store, t, root) && ValueOf(Result(store, root, run)) == ValueOf(t);
    var u :| Unfolds(store, u, root) && ValueOf(Result(store, root, other)) == ValueOf(u);
    UnfoldingUnique(store, t, u, root);
  }

  // ---- Values, without trees ----

  /** The first field with this key holds `v`. */
  ghost predicate Has(fields: seq<Field>, key: string, v: Json) {
    exists i :: 0 <= i < |fields| && fields[i] == Field(key, v) && forall j :: 0 <= j < i ==> fields[j].key != key
  }

  lemma {:induction false} LookupExact(fields: seq<Field>, key: string, v: Json)
    ensures Lookup(fields, key) == Some(v) <==> Has(fields, key, v)
  {
    if fields != [] {
      LookupExact(fields[1..], key, v);
      assert forall i :: 0 < i < |fields| ==> fields[i] == fields[1..][i - 1];
      if Has(fields, key, v) && fields[0].key != key {
        var i :| 0 <= i < |fields| && fields[i] == Field(key, v) && forall j :: 0 <= j < i ==> fields[j].key != key;
        assert fields[1..][i - 1] == Field(key, v);
        assert forall j :: 0 <= j < i - 1 ==> fields[1..][j].key == fields[j + 1].key;
      }
      if Has(fields[1..], key, v) && fields[0].key != key {
        var rest := fields[1..];
        var i :| 0 <= i < |rest| && rest[i] == Field(key, v) && forall j :: 0 <= j < i ==> rest[j].key != key;
        assert fields[i + 1] == Field(key, v);
      }
    }
  }

  /** An object with a soul under "#" and nothing else but perhaps "_". */
  ghost predicate RefersTo(n: Json, s: Soul) {
    && n.Container? && !n.isArray && Has(n.fields, "#", Text(s))
    && forall f :: f in n.fields ==> f.key in ["#", "_"]
  }

  /** An object of two or more fields, each the node whose soul is its key. */
  ghost predicate OfNodes(n: Json) {
    && n.Container? && !n.isArray && |n.fields| >= 2
    && forall f :: f in n.fields ==> f.value.Container? && exists meta: Json ::
         Has(f.value.fields, "_", meta) && meta.Container? && Has(meta.fields, "#", Text(f.key))
  }

  lemma RefersExact(n: Json, s: Soul)
    ensures IsReference(n) && SoulOf(n) == s <==> RefersTo(n, s)
  {
    if n.Container? { LookupExact(n.fields, "#", Text(s)); }
  }

  lemma OfNodesExact(n: Json)
    ensures IsGraph(n) <==> OfNodes(n)
  {
    if n.Container? {
      forall f | f in n.fields && f.value.Container?
        ensures NodeNamed(f.value, f.key) <==> exists meta: Json ::
          Has(f.value.fields, "_", meta) && meta.Container? && Has(meta.fields, "#", Text(f.key))
      {
        NodeNamedExact(f.value, f.key);
      }
    }
  }

  lemma NodeNamedExact(n: Json, soul: Soul)
    requires n.Container?
    ensures NodeNamed(n, soul) <==> exists meta: Json ::
      Has(n.fields, "_", meta) && meta.Container? && Has(meta.fields, "#", Text(soul))
  {
    forall meta: Json ensures Has(n.fields, "_", meta) <==> Lookup(n.fields, "_") == Some(meta) {
      LookupExact(n.fields, "_", meta);
    }
    forall meta: Json | meta.Container? {
      LookupExact(meta.fields, "#", Text(soul));
    }
  }

  /** The metadata field of an object, which is left out unless the object is a graph. */
  ghost predicate LeftOut(n: Json, key: string) {
    n.Container? && !n.isArray && !OfNodes(n) && key == "_"
  }

  /** `v` renders `n`, with at most `k` references one inside the other. A scalar renders
      itself; a container is rendered by one of the same kind, field by field; a reference
      by what renders the record, or null if there is no record or an empty one. Unless the
      rendering is to be whole, null may also stand for any reference. */
  ghost predicate Renders(store: Store, n: Json, v: Json, k: nat, whole: bool)
    decreases k, 1, n
  {
    if !n.Container? then v == n
    else if exists s :: RefersTo(n, s) then
      || (!whole && v == Null)
      || (k > 0 && exists s :: RefersTo(n, s) && RecordRenders(store, s, v, k, whole))
    else v.Container? && v.isArray == n.isArray && FieldsRender(store, n, n.fields, v.fields, k, whole)
  }

  ghost predicate RecordRenders(store: Store, s: Soul, v: Json, k: nat, whole: bool)
    requires k > 0
    decreases k, 0
  {
    if s !in store || (store[s].Container? && store[s].fields == []) then v == Null
    else Renders(store, store[s], v, k - 1, whole)
  }

  /** The same keys in the same order, but for metadata that is left out. */
  ghost predicate FieldsRender(store: Store, n: Json, fields: seq<Field>, out: seq<Field>, k: nat, whole: bool)
    decreases k, 1, fields
  {
    if fields == [] then out == []
    else if LeftOut(n, fields[0].key) then FieldsRender(store, n, fields[1..], out, k, whole)
    else
      && out != [] && out[0].key == fields[0].key && Renders(store, fields[0].value, out[0].value, k, whole)
      && FieldsRender(store, n, fields[1..], out[1..], k, whole)
  }

  /** For a reference, by its soul. */
  lemma ReferenceRenders(store: Store, n: Json, v: Json, k: nat, whole: bool)
    requires IsReference(n)
    ensures Renders(store, n, v, k, whole) <==>
      var c := Content(store, SoulOf(n));
      (!whole && v == Null) || (k > 0 && if c == Null then v == Null else Renders(store, c, v, k - 1, whole))
  {
    var s := SoulOf(n);
    RefersExact(n, s);
    assert RefersTo(n, s);
    if k > 0 { assert RecordRenders(store, s, v, k, whole) <==>
      if Content(store, s) == Null then v == Null else Renders(store, Content(store, s), v, k - 1, whole); }
    forall s | RefersTo(n, s) ensures s == SoulOf(n) {
      RefersExact(n, s);
    }
  }

  lemma ContainerRenders(store: Store, n: Json, v: Json, k: nat, whole: bool)
    requires n.Container? && !IsReference(n)
    ensures Renders(store, n, v, k, whole) <==>
      v.Container? && v.isArray == n.isArray && FieldsRender(store, n, n.fields, v.fields, k, whole)
    ensures forall key :: LeftOut(n, key) <==> SkipsMeta(n) && key == "_"
  {
    forall s ensures !RefersTo(n, s) {
      RefersExact(n, s);
    }
    OfNodesExact(n);
  }

  /** More references may be allowed. */
  lemma {:induction false} RendersMore(store: Store, n: Json, v: Json, k: nat, m: nat, whole: bool)
    requires k <= m && Renders(store, n, v, k, whole)
    ensures Renders(store, n, v, m, whole)
    decreases k, n
  {
    if !n.Container? {
    } else if IsReference(n) {
      ReferenceRenders(store, n, v, k, whole);
      ReferenceRenders(store, n, v, m, whole);
      var c := Content(store, SoulOf(n));
      if k > 0 && c != Null && Renders(store, c, v, k - 1, whole) { RendersMore(store, c, v, k - 1, m - 1, whole); }
    } else {
      ContainerRenders(store, n, v, k, whole);
      ContainerRenders(store, n, v, m, whole);
      FieldsRenderMore(store, n, n.fields, v.fields, k, m, whole);
    }
  }

  lemma {:induction false} FieldsRenderMore(store: Store, n: Json, fields: seq<Field>, out: seq<Field>, k: nat, m: nat,
                                            whole: bool)
    requires k <= m && FieldsRender(store, n, fields, out, k, whole)
    ensures FieldsRender(store, n, fields, out, m, whole)
    decreases k, fields
  {
    if fields == [] {
    } else if LeftOut(n, fields[0].key) {
      FieldsRenderMore(store, n, fields[1..], out, k, m, whole);
    } else {
      RendersMore(store, fields[0].value, out[0].value, k, m, whole);
      FieldsRenderMore(store, n, fields[1..], out[1..], k, m, whole);
    }
  }

  /** The value of a finished tree renders what the tree resolves. */
  lemma {:induction false} TreeRenders(store: Store, t: Tree, n: Json, depth: nat) returns (k: nat)
    requires Fits(store, t, n, depth) && Finished(t) && ValueOf(t).Done?
    ensures Renders(store, n, ValueOf(t).result, k, false)
    decreases t
  {
    k := 0;
    if !n.Container? {
    } else if IsReference(n) {
      if t.Expanded? {
        var c := Content(store, t.soul);
        if ValueOf(t.inner).Done? { k := TreeRenders(store, t.inner, c, 0); }
        k := k + 1;
      }
      ReferenceRenders(store, n, ValueOf(t).result, k, false);
    } else {
      k := TreesRender(store, n, t.children, n.fields, ChildDepth(n, depth));
      ContainerRenders(store, n, ValueOf(t).result, k, false);
    }
  }

  lemma {:induction false} TreesRender(store: Store, n: Json, children: seq<Child>, fields: seq<Field>, depth: nat)
    returns (k: nat)
    requires n.Container? && !IsReference(n) && FitsAll(store, children, fields, SkipsMeta(n), depth)
    requires FinishedAll(children) && ValuesOf(children).Done?
    ensures FieldsRender(store, n, fields, ValuesOf(children).result, k, false)
    decreases children, |fields|
  {
    k := 0;
    ContainerRenders(store, n, Null, 0, false);
    if fields == [] {
    } else if LeftOut(n, fields[0].key) {
      k := TreesRender(store, n, children, fields[1..], depth);
    } else {
      var i := TreeRenders(store, children[0].tree, fields[0].value, depth);
      var j := TreesRender(store, n, children[1..], fields[1..], depth);
      k := i + j;
      RendersMore(store, fields[0].value, ValueOf(children[0].tree).result, i, k, false);
      FieldsRenderMore(store, n, fields[1..], ValuesOf(children[1..]).result, j, k, false);
      assert ValuesOf(children).result[1..] == ValuesOf(children[1..]).result;
    }
  }

  /** The value of a full unfolding renders it as a whole. */
  lemma {:induction false} UnfoldingRenders(store: Store, u: Tree, n: Json) returns (k: nat)
    requires Unfolds(store, u, n)
    ensures ValueOf(u).Done? && Renders(store, n, ValueOf(u).result, k, true)
    decreases u
  {
    k := 0;
    UnfoldingUnique(store, u, u, n);
    if !n.Container? {
    } else if IsReference(n) {
      UnfoldingUnique(store, u.inner, u.inner, Content(store, u.soul));
      k := UnfoldingRenders(store, u.inner, Content(store, u.soul));
      k := k + 1;
      ReferenceRenders(store, n, ValueOf(u).result, k, true);
    } else {
      k := UnfoldingsRender(store, n, u.children, n.fields);
      ContainerRenders(store, n, ValueOf(u).result, k, true);
    }
  }

  lemma {:induction false} UnfoldingsRender(store: Store, n: Json, children: seq<Child>, fields: seq<Field>)
    returns (k: nat)
    requires n.Container? && !IsReference(n) && UnfoldsAll(store, children, fields, SkipsMeta(n))
    ensures ValuesOf(children).Done? && FieldsRender(store, n, fields, ValuesOf(children).result, k, true)
    decreases children, |fields|
  {
    k := 0;
    ContainerRenders(store, n, Null, 0, true);
    if fields == [] {
    } else if LeftOut(n, fields[0].key) {
      k := UnfoldingsRender(store, n, children, fields[1..]);
    } else {
      var i := UnfoldingRenders(store, children[0].tree, fields[0].value);
      var j := UnfoldingsRender(store, n, children[1..], fields[1..]);
      k := i + j;
      RendersMore(store, fields[0].value, ValueOf(children[0].tree).result, i, k, true);
      FieldsRenderMore(store, n, fields[1..], ValuesOf(children[1..]).result, j, k, true);
      assert ValuesOf(children).result[1..] == ValuesOf(children[1..]).result;
    }
  }

  /** A whole rendering is the value of a full unfolding. */
  lemma {:induction false} RenderingUnfolds(store: Store, n: Json, v: Json, k: nat) returns (u: Tree)
    requires Renders(store, n, v, k, true)
    ensures Unfolds(store, u, n) && ValueOf(u) == Done(v)
    decreases k, n
  {
    if !n.Container? {
      u := Leaf(n);
    } else if IsReference(n) {
      ReferenceRenders(store, n, v, k, true);
      var c := Content(store, SoulOf(n));
      var inner := Leaf(Null);
      if c != Null { inner := RenderingUnfolds(store, c, v, k - 1); }
      u := Expanded(SoulOf(n), inner);
    } else {
      ContainerRenders(store, n, v, k, true);
      var children := RenderingsUnfold(store, n, n.fields, v.fields, k);
      u := Branch(n.isArray, children);
    }
  }

  lemma {:induction false} RenderingsUnfold(store: Store, n: Json, fields: seq<Field>, out: seq<Field>, k: nat)
    returns (children: seq<Child>)
    requires n.Container? && !IsReference(n) && FieldsRender(store, n, fields, out, k, true)
    ensures UnfoldsAll(store, children, fields, SkipsMeta(n)) && ValuesOf(children) == Done(out)
    decreases k, fields
  {
    children := [];
    ContainerRenders(store, n, Null, 0, true);
    if fields == [] {
    } else if LeftOut(n, fields[0].key) {
      children := RenderingsUnfold(store, n, fields[1..], out, k);
    } else {
      var u := RenderingUnfolds(store, fields[0].value, out[0].value, k);
      var rest := RenderingsUnfold(store, n, fields[1..], out[1..], k);
      children := [Child(fields[0].key, u)] + rest;
      assert children[1..] == rest && [out[0]] + out[1..] == out;
    }
  }

  /** `value` renders `n` as a whole. */
  ghost predicate RendersWhole(store: Store, n: Json, value: Outcome<Json>) {
    value.Done? && exists k: nat :: Renders(store, n, value.result, k, true)
  }

  ghost predicate RendersPartly(store: Store, n: Json, value: Outcome<Json>) {
    value.Done? && exists k: nat :: Renders(store, n, value.result, k, false)
  }

  lemma WholeIffUnfolded(store: Store, n: Json, value: Outcome<Json>)
    ensures RendersWhole(store, n, value) <==> IsUnfoldedValue(store, n, value)
  {
    if value.Done? {
      if k: nat :| Renders(store, n, value.result, k, true) {
        var u := RenderingUnfolds(store, n, value.result, k);
      }
    }
    if u :| Unfolds(store, u, n) && value == ValueOf(u) {
      var k := UnfoldingRenders(store, u, n);
    }
  }

  /** Something lies too deep: below more than a hundred containers, where references and
      the nodes of a graph start again at zero. */
  ghost predicate TooDeep(n: Json, depth: nat)
    decreases n
  {
    depth > 100 ||
      (n.Container? && (forall s :: !RefersTo(n, s)) &&
       exists f :: f in n.fields && !LeftOut(n, f.key) && TooDeep(f.value, if OfNodes(n) then 0 else depth + 1))
  }

  lemma {:induction false} ShallowExact(n: Json, depth: nat)
    ensures Shallow(n, depth) <==> !TooDeep(n, depth)
    decreases n, 1
  {
    if depth <= MAX_DEPTH && n.Container? {
      if IsReference(n) {
        RefersExact(n, SoulOf(n));
      } else {
        ContainerRenders(map[], n, Null, 0, true);
        OfNodesExact(n);
        forall s ensures !RefersTo(n, s) {
          RefersExact(n, s);
        }
        ShallowFieldsExact(n, n.fields, ChildDepth(n, depth));
      }
    }
  }

  lemma {:induction false} ShallowFieldsExact(n: Json, fields: seq<Field>, depth: nat)
    requires n.Container? && !IsReference(n) && forall f :: f in fields ==> f.value < n
    ensures ShallowFields(fields, SkipsMeta(n), depth) <==>
      forall f :: f in fields && !LeftOut(n, f.key) ==> !TooDeep(f.value, depth)
    decreases n, 0, |fields|
  {
    if fields != [] {
      ContainerRenders(map[], n, Null, 0, true);
      ShallowExact(fields[0].value, depth);
      ShallowFieldsExact(n, fields[1..], depth);
      assert forall f :: f in fields <==> f == fields[0] || f in fields[1..];
    }
  }

  /** Resolution throws exactly if what is resolved itself goes too deep. */
  lemma {:induction false} ThrownIff(store: Store, t: Tree, n: Json, depth: nat)
    requires Fits(store, t, n, depth) && Finished(t)
    ensures ValueOf(t).Thrown? <==> !Shallow(n, depth)
    decreases t
  {
    if t.Branch? { SomeThrownIff(store, t.children, n.fields, SkipsMeta(n), ChildDepth(n, depth)); }
  }

  lemma {:induction false} SomeThrownIff(store: Store, children: seq<Child>, fields: seq<Field>, skip: bool, depth: nat)
    requires FitsAll(store, children, fields, skip, depth) && FinishedAll(children)
    ensures ValuesOf(children).Thrown? <==> !ShallowFields(fields, skip, depth)
    decreases children, |fields|
  {
    if fields == [] {
    } else if skip && fields[0].key == "_" {
      SomeThrownIff(store, children, fields[1..], skip, depth);
    } else {
      ThrownIff(store, children[0].tree, fields[0].value, depth);
      SomeThrownIff(store, children[1..], fields[1..], skip, depth);
    }
  }

  /** What a resolution returns, said of JSON alone: it throws exactly if the root goes too
      deep; else it renders the root, and as a whole exactly if the root is unfoldable. */
  lemma ResolutionExact(store: Store, root: Json, s: State)
    requires Sound(store, root, s) && Complete(s)
    ensures var value := ValueOf(s.tree);
      && (value.Thrown? <==> TooDeep(root, 0))
      && (value.Done? ==> RendersPartly(store, root, value))
      && (RendersWhole(store, root, value) <==> Unfoldable(store, root))
  {
    WholeIff(store, root, s);
    ThrownIff(store, s.tree, root, 0);
    ShallowExact(root, 0);
    if ValueOf(s.tree).Done? {
      var k := TreeRenders(store, s.tree, root, 0);
    }
    ValueUnfoldsIff(store, root, s);
    WholeIffUnfolded(store, root, ValueOf(s.tree));
  }

  // ---- Resolution as it runs ----

  class Resolver {
    var visited: set<Soul>

    constructor ()
      ensures visited == {}
    {
      visited := {};
    }

    method ResolveObject(n: Json, depth: nat) returns (tree: Tree)
      modifies this
      ensures (tree, visited) == Start(n, old(visited), depth)
      decreases n
    {
      if depth > MAX_DEPTH { return Failed; }
      if !n.Container? { return Leaf(n); }
      if IsReference(n) {
        var soul := SoulOf(n);
        if soul in visited { return Leaf(Null); }
        visited := visited + {soul};
        return Pending(soul);
      }
      var children := ResolveEntries(n.fields, SkipsMeta(n), ChildDepth(n, depth));
      tree := Branch(n.isArray, children);
    }

    method ResolveEntries(fields: seq<Field>, skip: bool, depth: nat) returns (children: seq<Child>)
      modifies this
      ensures (children, visited) == StartFields(fields, skip, old(visited), depth)
      decreases fields
    {
      if fields == [] { return []; }
      if skip && fields[0].key == "_" {
        children := ResolveEntries(fields[1..], skip, depth);
      } else {
        var first := ResolveObject(fields[0].value, depth);
        var rest := ResolveEntries(fields[1..], skip, depth);
        children := [Child(fields[0].key, first)] + rest;
      }
    }

    /** The read of one soul completes. */
    method ReadSoul(store: Store, current: Tree, ghost expanded: set<Soul>, soul: Soul) returns (next: Tree)
      modifies this
      ensures State(next, visited, expanded + {soul}) == Step(store, State(current, old(visited), expanded), soul)
    {
      var content := ResolveObject(Content(store, soul), 0);
      next := Replace(current, soul, Expanded(soul, content));
    }

    /** Resolve a value to the end; pending reads complete in an arbitrary order. The value
        returned is that of the full unfolding exactly when nesting is within the limit and
        every soul that is referred to twice resolves to null. */
    method Resolve(store: Store, root: Json) returns (value: Outcome<Json>, ghost tree: Tree)
      requires visited == {}
      modifies this
      ensures value == ValueOf(tree) && Finished(tree) && Fits(store, tree, root, 0)
      ensures visited == Reach(store, root)
      ensures IsUnfoldedValue(store, root, value) <==> Unfoldable(store, root)
      ensures value.Thrown? <==> TooDeep(root, 0)
      ensures value.Done? ==> RendersPartly(store, root, value)
      ensures RendersWhole(store, root, value) <==> Unfoldable(store, root)
    {
      var current := ResolveObject(root, 0);
      var expanded: set<Soul> := {};
      InitSound(store, root);
      while visited != expanded
        invariant Sound(store, root, State(current, visited, expanded))
        decreases |Reach(store, root) - expanded|
      {
        assert expanded <= visited && visited - expanded != {};
        var soul :| soul in visited - expanded;
        StepSound(store, root, State(current, visited, expanded), soul);
        Fewer(Reach(store, root), expanded, soul);
        current := ReadSoul(store, current, expanded, soul);
        expanded := expanded + {soul};
      }
      CompleteCounts(store, root, State(current, visited, expanded));
      ValueUnfoldsIff(store, root, State(current, visited, expanded));
      ResolutionExact(store, root, State(current, visited, expanded));
      value, tree := ValueOf(current), current;
    }
  }

  lemma Fewer(souls: set<Soul>, expanded: set<Soul>, soul: Soul)
    requires soul in souls && soul !in expanded
    ensures |souls - (expanded + {soul})| < |souls - expanded|
  {
    SubsetCardinality(souls - (expanded + {soul}), souls - expanded);
    assert soul in souls - expanded && soul !in souls - (expanded + {soul});
  }
}
