// The order in which reads complete, and what of it the result shows. A soul is read for the
// first record that refers to it and is completed; every later reference to it is null.
module GunOrder {
  import opened Common
  import opened GunResolve

  // ---- What entering a value depends on ----

  /** Of the souls marked before, only those the value refers to matter. */
  lemma {:induction false} StartAgrees(n: Json, v: set<Soul>, w: set<Soul>, depth: nat)
    requires forall x :: x in Refs(n, depth) ==> (x in v <==> x in w)
    ensures Start(n, v, depth).0 == Start(n, w, depth).0
    decreases n
  {
    if depth <= MAX_DEPTH && n.Container? && !IsReference(n) {
      StartFieldsAgree(n.fields, SkipsMeta(n), v, w, ChildDepth(n, depth));
    }
  }

  lemma {:induction false} StartFieldsAgree(fields: seq<Field>, skip: bool, v: set<Soul>, w: set<Soul>, depth: nat)
    requires forall x :: x in FieldRefs(fields, skip, depth) ==> (x in v <==> x in w)
    ensures StartFields(fields, skip, v, depth).0 == StartFields(fields, skip, w, depth).0
    decreases fields
  {
    if fields == [] {
    } else if skip && fields[0].key == "_" {
      StartFieldsAgree(fields[1..], skip, v, w, depth);
    } else {
      StartAgrees(fields[0].value, v, w, depth);
      StartMarks(fields[0].value, v, depth);
      StartMarks(fields[0].value, w, depth);
      var v', w' := Start(fields[0].value, v, depth).1, Start(fields[0].value, w, depth).1;
      StartFieldsAgree(fields[1..], skip, v', w', depth);
    }
  }

  // ---- The record of what was entered ----

  /** For each soul that has been read, the tree its record was entered with. */
  type Entered = map<Soul, Tree>

  /** `t` is `start` with every soul that has been read replaced by what has become of the
      tree its record was entered with. */
  ghost predicate Grown(p: Entered, t: Tree, start: Tree)
    decreases t
  {
    match t
    case Expanded(s, inner) => start == Pending(s) && s in p && Grown(p, inner, p[s])
    case Branch(a, children) => start.Branch? && start.isArray == a && GrownAll(p, children, start.children)
    case _ => t == start
  }

  ghost predicate GrownAll(p: Entered, children: seq<Child>, start: seq<Child>)
    decreases children
  {
    |children| == |start| &&
    (children == [] ||
     (children[0].key == start[0].key && Grown(p, children[0].tree, start[0].tree)
      && GrownAll(p, children[1..], start[1..])))
  }

  /** Nothing in the tree has been read. */
  ghost predicate Unread(t: Tree) {
    match t
    case Expanded(_, _) => false
    case Branch(_, children) => UnreadAll(children)
    case _ => true
  }

  ghost predicate UnreadAll(children: seq<Child>) {
    children == [] || (Unread(children[0].tree) && UnreadAll(children[1..]))
  }

  lemma {:induction false} StartUnread(n: Json, visited: set<Soul>, depth: nat)
    ensures Unread(Start(n, visited, depth).0)
    decreases n
  {
    if depth <= MAX_DEPTH && n.Container? && !IsReference(n) {
      StartFieldsUnread(n.fields, SkipsMeta(n), visited, ChildDepth(n, depth));
    }
  }

  lemma {:induction false} StartFieldsUnread(fields: seq<Field>, skip: bool, visited: set<Soul>, depth: nat)
    ensures UnreadAll(StartFields(fields, skip, visited, depth).0)
    decreases fields
  {
    if fields == [] {
    } else if skip && fields[0].key == "_" {
      StartFieldsUnread(fields[1..], skip, visited, depth);
    } else {
      var (tree, seen) := Start(fields[0].value, visited, depth);
      StartUnread(fields[0].value, visited, depth);
      StartFieldsUnread(fields[1..], skip, seen, depth);
      var rest := StartFields(fields[1..], skip, seen, depth).0;
      assert ([Child(fields[0].key, tree)] + rest)[1..] == rest;
    }
  }

  lemma {:induction false} UnreadGrown(p: Entered, t: Tree)
    requires Unread(t)
    ensures Grown(p, t, t)
  {
    match t {
      case Branch(_, children) => UnreadAllGrown(p, children);
      case _ =>
    }
  }

  lemma {:induction false} UnreadAllGrown(p: Entered, children: seq<Child>)
    requires UnreadAll(children)
    ensures GrownAll(p, children, children)
  {
    if children != [] {
      UnreadGrown(p, children[0].tree);
      UnreadAllGrown(p, children[1..]);
    }
  }

  lemma {:induction false} ReplaceGrown(p: Entered, t: Tree, start: Tree, soul: Soul, u: Tree)
    requires Grown(p, t, start) && soul in p && Grown(p, u, p[soul])
    ensures Grown(p, Replace(t, soul, Expanded(soul, u)), start)
    decreases t
  {
    match t {
      case Expanded(s, inner) => ReplaceGrown(p, inner, p[s], soul, u);
      case Branch(_, children) => ReplaceAllGrown(p, children, start.children, soul, u);
      case _ =>
    }
  }

  lemma {:induction false} ReplaceAllGrown(p: Entered, children: seq<Child>, start: seq<Child>, soul: Soul, u: Tree)
    requires GrownAll(p, children, start) && soul in p && Grown(p, u, p[soul])
    ensures GrownAll(p, ReplaceAll(children, soul, Expanded(soul, u)), start)
    decreases children
  {
    if children != [] {
      ReplaceGrown(p, children[0].tree, start[0].tree, soul, u);
      ReplaceAllGrown(p, children[1..], start[1..], soul, u);
      assert ReplaceAll(children, soul, Expanded(soul, u))[1..] == ReplaceAll(children[1..], soul, Expanded(soul, u));
    }
  }

  /** What was entered decides a finished tree. */
  lemma {:induction false} GrownUnique(p: Entered, t: Tree, u: Tree, start: Tree)
    requires Grown(p, t, start) && Grown(p, u, start) && Finished(t) && Finished(u)
    ensures t == u
    decreases t
  {
    match t {
      case Expanded(s, inner) => GrownUnique(p, inner, u.inner, p[s]);
      case Branch(_, children) => AllGrownUnique(p, children, u.children, start.children);
      case _ =>
    }
  }

  lemma {:induction false} AllGrownUnique(p: Entered, x: seq<Child>, y: seq<Child>, start: seq<Child>)
    requires GrownAll(p, x, start) && GrownAll(p, y, start) && FinishedAll(x) && FinishedAll(y)
    ensures x == y
    decreases x
  {
    if x != [] {
      GrownUnique(p, x[0].tree, y[0].tree, start[0].tree);
      AllGrownUnique(p, x[1..], y[1..], start[1..]);
      assert x == [x[0]] + x[1..] && y == [y[0]] + y[1..];
    }
  }

  /** Conversely a finished tree shows what it started from, and what every record in it
      was entered with. */
  lemma {:induction false} ShowsStart(p: Entered, q: Entered, t: Tree, a: Tree, b: Tree)
    requires Grown(p, t, a) && Grown(q, t, b) && Finished(t)
    ensures a == b
    ensures forall s :: s in Uses(t) ==> s in p && s in q && p[s] == q[s]
    decreases t
  {
    match t {
      case Expanded(s, inner) => ShowsStart(p, q, inner, p[s], q[s]);
      case Branch(_, children) => AllShowStart(p, q, children, a.children, b.children);
      case _ =>
    }
  }

  lemma {:induction false} AllShowStart(p: Entered, q: Entered, children: seq<Child>, a: seq<Child>, b: seq<Child>)
    requires GrownAll(p, children, a) && GrownAll(q, children, b) && FinishedAll(children)
    ensures a == b
    ensures forall s :: s in UsesIn(children) ==> s in p && s in q && p[s] == q[s]
    decreases children
  {
    if children != [] {
      ShowsStart(p, q, children[0].tree, a[0].tree, b[0].tree);
      AllShowStart(p, q, children[1..], a[1..], b[1..]);
      assert a == [a[0]] + a[1..] && b == [b[0]] + b[1..];
      assert forall s :: s in UsesIn(children) <==> s in Uses(children[0].tree) || s in UsesIn(children[1..]);
    }
  }

  // ---- Runs and what they entered ----

  ghost predicate Records(store: Store, s: State, run: seq<Soul>, p: Entered)
    decreases |run|
  {
    run == [] ||
    (run[0] in p && p[run[0]] == Start(Content(store, run[0]), s.visited, 0).0 &&
     Records(store, Step(store, s, run[0]), run[1..], p))
  }

  lemma {:induction false} Recorded(store: Store, s: State, run: seq<Soul>) returns (p: Entered)
    requires NoDup(run)
    ensures Records(store, s, run, p)
    decreases |run|
  {
    p := map[];
    if run != [] {
      assert NoDup(run[1..]) && run[0] !in run[1..];
      p := Recorded(store, Step(store, s, run[0]), run[1..]);
      RecordsMore(store, Step(store, s, run[0]), run[1..], p, run[0], Start(Content(store, run[0]), s.visited, 0).0);
      p := p[run[0] := Start(Content(store, run[0]), s.visited, 0).0];
    }
  }

  lemma {:induction false} RecordsMore(store: Store, s: State, run: seq<Soul>, p: Entered, soul: Soul, t: Tree)
    requires Records(store, s, run, p) && soul !in run
    ensures Records(store, s, run, p[soul := t])
    decreases |run|
  {
    if run != [] {
      RecordsMore(store, Step(store, s, run[0]), run[1..], p, soul, t);
    }
  }

  lemma {:induction false} RunGrown(store: Store, s: State, run: seq<Soul>, p: Entered, start: Tree)
    requires Records(store, s, run, p) && Grown(p, s.tree, start)
    ensures Grown(p, Final(store, s, run).tree, start)
    decreases |run|
  {
    if run != [] {
      var u := Start(Content(store, run[0]), s.visited, 0).0;
      StartUnread(Content(store, run[0]), s.visited, 0);
      UnreadGrown(p, u);
      ReplaceGrown(p, s.tree, start, run[0], u);
      RunGrown(store, Step(store, s, run[0]), run[1..], p, start);
    }
  }

  lemma {:induction false} FinalExpanded(store: Store, s: State, run: seq<Soul>)
    ensures Final(store, s, run).expanded == s.expanded + Elems(run)
    decreases |run|
  {
    if run != [] {
      FinalExpanded(store, Step(store, s, run[0]), run[1..]);
      assert run == [run[0]] + run[1..];
      ElemsOfAppend([run[0]], run[1..]);
    }
  }

  /** All that is needed about a complete run. */
  lemma CompleteFacts(store: Store, root: Json, run: seq<Soul>) returns (p: Entered)
    requires CompleteRun(store, root, run)
    ensures Records(store, Init(root), run, p) && Grown(p, Result(store, root, run), Init(root).tree)
    ensures Finished(Result(store, root, run)) && Elems(run) == Reach(store, root) && NoDup(run)
    ensures forall s :: s in Reach(store, root) ==> s in Uses(Result(store, root, run))
  {
    InitSound(store, root);
    RunsEnd(store, root, Init(root), run);
    CompleteCounts(store, root, Final(store, Init(root), run));
    FinalExpanded(store, Init(root), run);
    p := Recorded(store, Init(root), run);
    StartUnread(root, {}, 0);
    UnreadGrown(p, Init(root).tree);
    RunGrown(store, Init(root), run, p, Init(root).tree);
  }

  // ---- Which record a soul is read for ----

  /** In this run `x` is first referred to by the record of `s`. */
  ghost predicate Claims(store: Store, st: State, run: seq<Soul>, s: Soul, x: Soul)
    decreases |run|
  {
    run != [] && x !in st.visited &&
    if run[0] == s then x in Cites(store, s) else Claims(store, Step(store, st, run[0]), run[1..], s, x)
  }

  /** The record entered waits exactly for the souls it claims. */
  lemma {:induction false} ClaimWaits(store: Store, st: State, run: seq<Soul>, p: Entered, s: Soul, x: Soul)
    requires Records(store, st, run, p) && s in run
    ensures s in p && (Waits(p[s], x) == 1 <==> Claims(store, st, run, s, x))
    decreases |run|
  {
    StartMarks(Content(store, run[0]), st.visited, 0);
    if run[0] != s {
      ClaimWaits(store, Step(store, st, run[0]), run[1..], p, s, x);
      if x in st.visited { NoLateClaim(store, Step(store, st, run[0]), run[1..], s, x); }
    }
  }

  lemma {:induction false} NoLateClaim(store: Store, st: State, run: seq<Soul>, s: Soul, x: Soul)
    requires x in st.visited
    ensures !Claims(store, st, run, s, x)
  {
  }

  /** No two records claim the same soul. */
  lemma {:induction false} OneClaim(store: Store, st: State, run: seq<Soul>, s: Soul, r: Soul, x: Soul)
    requires Claims(store, st, run, s, x) && Claims(store, st, run, r, x)
    ensures s == r
    decreases |run|
  {
    StartMarks(Content(store, run[0]), st.visited, 0);
    if x in Cites(store, run[0]) {
      NoLateClaim(store, Step(store, st, run[0]), run[1..], s, x);
      NoLateClaim(store, Step(store, st, run[0]), run[1..], r, x);
    } else {
      OneClaim(store, Step(store, st, run[0]), run[1..], s, r, x);
    }
  }

  /** Every soul that gets marked during a run is claimed. */
  lemma {:induction false} SomeClaim(store: Store, st: State, run: seq<Soul>, x: Soul) returns (s: Soul)
    requires NoDup(run) && x !in st.visited && x in Final(store, st, run).visited
    ensures s in run && Claims(store, st, run, s, x)
    decreases |run|
  {
    s := run[0];
    StartMarks(Content(store, run[0]), st.visited, 0);
    if x !in Cites(store, run[0]) {
      assert NoDup(run[1..]) && run[0] !in run[1..];
      s := SomeClaim(store, Step(store, st, run[0]), run[1..], x);
    }
  }

  // ---- Walks from the root ----

  /** The walk from `n` through the records of `walk` meets no reference to `x` before its
      last record, which has one. */
  ghost predicate Meets(store: Store, n: Json, walk: seq<Soul>, x: Soul)
    decreases |walk|
  {
    if walk == [] then x in Refs(n, 0)
    else x !in Refs(n, 0) && walk[0] in Refs(n, 0) && Meets(store, Content(store, walk[0]), walk[1..], x)
  }

  /** The record a walk ends at; none is the root. */
  function End(walk: seq<Soul>): Option<Soul> {
    if walk == [] then None else Some(walk[|walk| - 1])
  }

  /** The record is reached without passing through another record that refers to `x`, and
      refers to `x` itself. */
  ghost predicate FirstToRefer(store: Store, root: Json, record: Option<Soul>, x: Soul) {
    exists walk :: Meets(store, root, walk, x) && End(walk) == record
  }

  /** The walk meets no reference to `x` before its last record. */
  ghost predicate Approaches(store: Store, n: Json, walk: seq<Soul>, x: Soul)
    decreases |walk|
  {
    && walk != [] && x !in Refs(n, 0) && walk[0] in Refs(n, 0)
    && (|walk| == 1 || Approaches(store, Content(store, walk[0]), walk[1..], x))
  }

  lemma {:induction false} ApproachOn(store: Store, n: Json, walk: seq<Soul>, x: Soul, y: Soul)
    requires Approaches(store, n, walk, x) && x !in Cites(store, walk[|walk| - 1]) &&
      y in Cites(store, walk[|walk| - 1])
    ensures Approaches(store, n, walk + [y], x)
    decreases |walk|
  {
    assert (walk + [y])[1..] == walk[1..] + [y];
    if |walk| > 1 {
      ApproachOn(store, Content(store, walk[0]), walk[1..], x, y);
    } else {
      assert walk[1..] + [y] == [y];
    }
  }

  lemma {:induction false} ApproachMeets(store: Store, n: Json, walk: seq<Soul>, x: Soul)
    requires Approaches(store, n, walk, x) && x in Cites(store, walk[|walk| - 1])
    ensures Meets(store, n, walk, x)
    decreases |walk|
  {
    if |walk| > 1 {
      ApproachMeets(store, Content(store, walk[0]), walk[1..], x);
    } else {
      assert walk[1..] == [];
    }
  }

  /** While `x` is not marked, every marked soul has been approached without meeting it. */
  ghost predicate Approached(store: Store, root: Json, s: State, x: Soul) {
    x in s.visited || forall y :: y in s.visited ==> ApproachedAt(store, root, y, x)
  }

  ghost predicate ApproachedAt(store: Store, root: Json, y: Soul, x: Soul) {
    exists walk :: Approaches(store, root, walk, x) && walk[|walk| - 1] == y
  }

  lemma InitApproached(store: Store, root: Json, x: Soul)
    ensures Approached(store, root, Init(root), x)
  {
    StartMarks(root, {}, 0);
    forall y | x !in Init(root).visited && y in Init(root).visited ensures ApproachedAt(store, root, y, x) {
      assert Approaches(store, root, [y], x) && [y][|[y]| - 1] == y;
    }
  }

  lemma StepApproached(store: Store, root: Json, s: State, soul: Soul, x: Soul)
    requires Approached(store, root, s, x) && soul in s.visited
    ensures Approached(store, root, Step(store, s, soul), x)
  {
    var t := Step(store, s, soul);
    StartMarks(Content(store, soul), s.visited, 0);
    if x !in t.visited {
      var walk :| Approaches(store, root, walk, x) && walk[|walk| - 1] == soul;
      forall y | y in t.visited ensures ApproachedAt(store, root, y, x) {
        if y !in s.visited {
          ApproachOn(store, root, walk, x, y);
          assert (walk + [y])[|walk + [y]| - 1] == y;
        }
      }
    }
  }

  /** A record that claims a soul in a run is one of the first to refer to it. */
  lemma {:induction false} ClaimsFirst(store: Store, root: Json, st: State, run: seq<Soul>, s: Soul, x: Soul)
    requires IsRun(store, st, run) && Claims(store, st, run, s, x) && Approached(store, root, st, x)
    ensures FirstToRefer(store, root, Some(s), x)
    decreases |run|
  {
    if run[0] == s {
      var walk :| Approaches(store, root, walk, x) && walk[|walk| - 1] == s;
      ApproachMeets(store, root, walk, x);
    } else {
      StepApproached(store, root, st, run[0], x);
      ClaimsFirst(store, root, Step(store, st, run[0]), run[1..], s, x);
    }
  }

  // ---- Runs that follow a walk ----

  /** Every state can be run to the end. */
  lemma {:induction false} RunOn(store: Store, root: Json, s: State) returns (run: seq<Soul>)
    requires Sound(store, root, s)
    ensures IsRun(store, s, run) && Complete(Final(store, s, run))
    decreases |Reach(store, root) - s.expanded|
  {
    run := [];
    if s.visited - s.expanded == {} {
      assert s.visited == s.expanded;
    } else {
      var soul :| soul in s.visited - s.expanded;
      StepSound(store, root, s, soul);
      Fewer(Reach(store, root), s.expanded, soul);
      var rest := RunOn(store, root, Step(store, s, soul));
      run := Cons(store, s, soul, rest);
    }
  }

  lemma Cons(store: Store, s: State, soul: Soul, rest: seq<Soul>) returns (run: seq<Soul>)
    requires Enabled(s, soul) && IsRun(store, Step(store, s, soul), rest)
    requires Complete(Final(store, Step(store, s, soul), rest))
    ensures run != [] && run[0] == soul && run[1..] == rest
    ensures IsRun(store, s, run) && Complete(Final(store, s, run))
  {
    run := [soul] + rest;
    assert run[1..] == rest;
  }

  /** A run can complete the records of a walk one after the other, so that its last record
      claims `x`. */
  lemma {:induction false} Follow(store: Store, root: Json, s: State, walk: seq<Soul>, x: Soul) returns (run: seq<Soul>)
    requires Sound(store, root, s) && x !in s.visited && walk != [] && walk[0] in s.visited
    requires Meets(store, Content(store, walk[0]), walk[1..], x)
    ensures IsRun(store, s, run) && Complete(Final(store, s, run))
    ensures Claims(store, s, run, walk[|walk| - 1], x)
    decreases |walk|
  {
    if walk[0] in s.expanded {
      ReadBefore(store, root, s, walk, x);
      run := Follow(store, root, s, walk[1..], x);
    } else {
      ReadNow(store, root, s, walk, x);
      var rest: seq<Soul>;
      if |walk| == 1 {
        rest := RunOn(store, root, Step(store, s, walk[0]));
      } else {
        rest := Follow(store, root, Step(store, s, walk[0]), walk[1..], x);
      }
      run := Cons(store, s, walk[0], rest);
    }
  }

  lemma ReadBefore(store: Store, root: Json, s: State, walk: seq<Soul>, x: Soul)
    requires MarksAll(store, root, s) && x !in s.visited && walk != [] && walk[0] in s.expanded
    requires Meets(store, Content(store, walk[0]), walk[1..], x)
    ensures |walk| > 1 && walk[1..][0] in s.visited
    ensures Meets(store, Content(store, walk[1..][0]), walk[1..][1..], x)
  {
    assert Cites(store, walk[0]) == Refs(Content(store, walk[0]), 0);
  }

  lemma ReadNow(store: Store, root: Json, s: State, walk: seq<Soul>, x: Soul)
    requires Sound(store, root, s) && x !in s.visited && walk != [] && Enabled(s, walk[0])
    requires Meets(store, Content(store, walk[0]), walk[1..], x)
    ensures Sound(store, root, Step(store, s, walk[0])) && x in Cites(store, walk[|walk| - 1])
    ensures |walk| > 1 ==>
      x !in Step(store, s, walk[0]).visited && walk[1..][0] in Step(store, s, walk[0]).visited &&
      Meets(store, Content(store, walk[1..][0]), walk[1..][1..], x)
  {
    StepSound(store, root, s, walk[0]);
    StartMarks(Content(store, walk[0]), s.visited, 0);
    LastRefers(store, Content(store, walk[0]), walk[1..], x);
  }

  lemma {:induction false} LastRefers(store: Store, n: Json, walk: seq<Soul>, x: Soul)
    requires Meets(store, n, walk, x)
    ensures if walk == [] then x in Refs(n, 0) else x in Cites(store, walk[|walk| - 1])
    decreases |walk|
  {
    if walk != [] {
      LastRefers(store, Content(store, walk[0]), walk[1..], x);
      assert |walk| > 1 ==> walk[1..][|walk[1..]| - 1] == walk[|walk| - 1];
    }
  }

  lemma RunThrough(store: Store, root: Json, walk: seq<Soul>, x: Soul) returns (run: seq<Soul>)
    requires walk != [] && Meets(store, root, walk, x)
    ensures CompleteRun(store, root, run) && Claims(store, Init(root), run, walk[|walk| - 1], x)
  {
    InitSound(store, root);
    StartMarks(root, {}, 0);
    run := Follow(store, root, Init(root), walk, x);
  }

  // ---- When the order shows ----

  /** All complete runs give the same tree. */
  ghost predicate OrderIrrelevant(store: Store, root: Json) {
    forall run, other :: CompleteRun(store, root, run) && CompleteRun(store, root, other) ==>
      Result(store, root, run) == Result(store, root, other)
  }

  /** For every soul within reach, exactly one record is the first to refer to it. */
  ghost predicate OneFirst(store: Store, root: Json) {
    forall x :: x in Reach(store, root) ==> OneFirstFor(store, root, x)
  }

  ghost predicate OneFirstFor(store: Store, root: Json, x: Soul) {
    && (exists r :: FirstToRefer(store, root, r, x))
    && forall r, q :: FirstToRefer(store, root, r, x) && FirstToRefer(store, root, q, x) ==> r == q
  }

  /** Some record always is. */
  lemma SomeFirst(store: Store, root: Json, x: Soul)
    requires x in Reach(store, root)
    ensures exists r :: FirstToRefer(store, root, r, x)
  {
    if x in Refs(root, 0) {
      assert Meets(store, root, [], x) && End([]) == None;
      assert FirstToRefer(store, root, None, x);
    } else {
      InitSound(store, root);
      StartMarks(root, {}, 0);
      var run := RunOn(store, root, Init(root));
      var s := FirstClaim(store, root, run, x);
    }
  }

  /** The order of completion does not show if and only if, for every soul within reach,
      exactly one record that refers to it is reached from the root without passing through
      another one. */
  lemma OrderIrrelevantIff(store: Store, root: Json)
    ensures OrderIrrelevant(store, root) <==> OneFirst(store, root)
  {
    if OneFirst(store, root) {
      forall run, other | CompleteRun(store, root, run) && CompleteRun(store, root, other)
        ensures Result(store, root, run) == Result(store, root, other)
      {
        SameResult(store, root, run, other);
      }
    }
    if OrderIrrelevant(store, root) {
      forall x | x in Reach(store, root) ensures OneFirstFor(store, root, x) {
        SomeFirst(store, root, x);
        forall r, q | FirstToRefer(store, root, r, x) && FirstToRefer(store, root, q, x) ensures r == q {
          SameFirst(store, root, r, q, x);
        }
      }
    }
  }

  lemma SameFirst(store: Store, root: Json, r: Option<Soul>, q: Option<Soul>, x: Soul)
    requires OrderIrrelevant(store, root) && FirstToRefer(store, root, r, x) && FirstToRefer(store, root, q, x)
    ensures r == q
  {
    var walk :| Meets(store, root, walk, x) && End(walk) == r;
    var other :| Meets(store, root, other, x) && End(other) == q;
    if walk != [] && other != [] {
      var one := RunThrough(store, root, walk, x);
      var two := RunThrough(store, root, other, x);
      SameClaim(store, root, one, two, walk[|walk| - 1], x);
      OneClaim(store, Init(root), two, walk[|walk| - 1], other[|other| - 1], x);
    }
  }

  /** Runs with the same result make the same claims. */
  lemma SameClaim(store: Store, root: Json, run: seq<Soul>, other: seq<Soul>, s: Soul, x: Soul)
    requires CompleteRun(store, root, run) && CompleteRun(store, root, other)
    requires Result(store, root, run) == Result(store, root, other) && Claims(store, Init(root), run, s, x)
    ensures Claims(store, Init(root), other, s, x)
  {
    var p := CompleteFacts(store, root, run);
    var q := CompleteFacts(store, root, other);
    var start := Init(root).tree;
    ClaimInRun(store, Init(root), run, s, x);
    assert s in Elems(run) && s in Elems(other);
    ShowsStart(p, q, Result(store, root, run), start, start);
    ClaimWaits(store, Init(root), run, p, s, x);
    ClaimWaits(store, Init(root), other, q, s, x);
  }

  lemma {:induction false} ClaimInRun(store: Store, st: State, run: seq<Soul>, s: Soul, x: Soul)
    requires Claims(store, st, run, s, x)
    ensures s in run
    decreases |run|
  {
    if run[0] != s { ClaimInRun(store, Step(store, st, run[0]), run[1..], s, x); }
  }

  lemma SameResult(store: Store, root: Json, run: seq<Soul>, other: seq<Soul>)
    requires OneFirst(store, root) && CompleteRun(store, root, run) && CompleteRun(store, root, other)
    ensures Result(store, root, run) == Result(store, root, other)
  {
    var p := CompleteFacts(store, root, run);
    var q := CompleteFacts(store, root, other);
    forall s | s in Reach(store, root) ensures s in p && s in q && p[s] == q[s] {
      SameEntry(store, root, run, other, p, q, s);
    }
    GrownSame(p, q, Result(store, root, other), Init(root).tree, Reach(store, root)) by {
      UsesWithin(store, root, other);
    }
    GrownUnique(p, Result(store, root, run), Result(store, root, other), Init(root).tree);
  }

  lemma UsesWithin(store: Store, root: Json, run: seq<Soul>)
    requires CompleteRun(store, root, run)
    ensures forall s :: s in Uses(Result(store, root, run)) ==> s in Reach(store, root)
  {
    CompleteIsSound(store, root, run);
    CompleteCounts(store, root, Final(store, Init(root), run));
  }

  lemma {:induction false} GrownSame(p: Entered, q: Entered, t: Tree, start: Tree, souls: set<Soul>)
    requires Grown(q, t, start) && (forall s :: s in Uses(t) ==> s in souls)
    requires forall s :: s in souls ==> s in p && s in q && p[s] == q[s]
    ensures Grown(p, t, start)
    decreases t
  {
    match t {
      case Expanded(s, inner) =>
        assert s in Uses(t) && forall x :: x in Uses(inner) ==> x in Uses(t);
        GrownSame(p, q, inner, q[s], souls);
      case Branch(_, children) => AllGrownSame(p, q, children, start.children, souls);
      case _ =>
    }
  }

  lemma {:induction false} AllGrownSame(p: Entered, q: Entered, children: seq<Child>, start: seq<Child>,
                                        souls: set<Soul>)
    requires GrownAll(q, children, start) && (forall s :: s in UsesIn(children) ==> s in souls)
    requires forall s :: s in souls ==> s in p && s in q && p[s] == q[s]
    ensures GrownAll(p, children, start)
    decreases children
  {
    if children != [] {
      assert forall s :: s in Uses(children[0].tree) || s in UsesIn(children[1..]) ==> s in UsesIn(children);
      GrownSame(p, q, children[0].tree, start[0].tree, souls);
      AllGrownSame(p, q, children[1..], start[1..], souls);
    }
  }

  /** Where the first record to refer is unique, two runs enter a record alike. */
  lemma SameEntry(store: Store, root: Json, run: seq<Soul>, other: seq<Soul>, p: Entered, q: Entered, s: Soul)
    requires OneFirst(store, root) && CompleteRun(store, root, run) && CompleteRun(store, root, other)
    requires Records(store, Init(root), run, p) && Records(store, Init(root), other, q)
    requires s in run && s in other
    ensures s in p && s in q && p[s] == q[s]
  {
    var v := EnteredWith(store, Init(root), run, p, s);
    var w := EnteredWith(store, Init(root), other, q, s);
    forall x | x in Cites(store, s) ensures x in v <==> x in w {
      ClaimWaits(store, Init(root), run, p, s, x);
      ClaimWaits(store, Init(root), other, q, s, x);
      StartMarks(Content(store, s), v, 0);
      StartMarks(Content(store, s), w, 0);
      if Claims(store, Init(root), run, s, x) { ClaimsAlike(store, root, run, other, s, x); }
      if Claims(store, Init(root), other, s, x) { ClaimsAlike(store, root, other, run, s, x); }
    }
    StartAgrees(Content(store, s), v, w, 0);
  }

  lemma {:induction false} EnteredWith(store: Store, st: State, run: seq<Soul>, p: Entered, s: Soul)
    returns (v: set<Soul>)
    requires Records(store, st, run, p) && s in run
    ensures s in p && p[s] == Start(Content(store, s), v, 0).0
    decreases |run|
  {
    v := st.visited;
    if run[0] != s { v := EnteredWith(store, Step(store, st, run[0]), run[1..], p, s); }
  }

  lemma ClaimsAlike(store: Store, root: Json, run: seq<Soul>, other: seq<Soul>, s: Soul, x: Soul)
    requires OneFirst(store, root) && CompleteRun(store, root, run) && CompleteRun(store, root, other)
    requires Claims(store, Init(root), run, s, x) && s in run
    ensures Claims(store, Init(root), other, s, x)
  {
    InitApproached(store, root, x);
    ClaimsFirst(store, root, Init(root), run, s, x);
    ClaimedWithin(store, root, run, s, x);
    var r := FirstClaim(store, root, other, x);
    assert OneFirstFor(store, root, x);
    assert Some(r) == Some(s);
  }

  /** In a complete run a soul that the root does not refer to is claimed by one of the
      first records that refer to it. */
  lemma FirstClaim(store: Store, root: Json, run: seq<Soul>, x: Soul) returns (s: Soul)
    requires CompleteRun(store, root, run) && x in Reach(store, root) && x !in Init(root).visited
    ensures Claims(store, Init(root), run, s, x) && FirstToRefer(store, root, Some(s), x)
  {
    InitSound(store, root);
    RunsEnd(store, root, Init(root), run);
    CompleteReach(store, root, Final(store, Init(root), run));
    s := SomeClaim(store, Init(root), run, x);
    InitApproached(store, root, x);
    ClaimsFirst(store, root, Init(root), run, s, x);
  }

  lemma ClaimedWithin(store: Store, root: Json, run: seq<Soul>, s: Soul, x: Soul)
    requires CompleteRun(store, root, run) && Claims(store, Init(root), run, s, x)
    ensures x in Reach(store, root) && x !in Init(root).visited
  {
    var p := CompleteFacts(store, root, run);
    ClaimInRun(store, Init(root), run, s, x);
    assert s in Elems(run);
    ReachIsLeast(store, root);
    ClaimRefers(store, Init(root), run, s, x);
  }

  lemma {:induction false} ClaimRefers(store: Store, st: State, run: seq<Soul>, s: Soul, x: Soul)
    requires Claims(store, st, run, s, x)
    ensures x in Cites(store, s) && x !in st.visited
    decreases |run|
  {
    if run[0] != s { ClaimRefers(store, Step(store, st, run[0]), run[1..], s, x); }
  }

  // ---- An input whose order shows ----

  function Ref(soul: Soul): Json {
    Container(false, [Field("#", Text(soul))])
  }

  /** The root refers to x and y, and both refer to z. */
  const DIAMOND := Container(false, [Field("a", Ref("x")), Field("b", Ref("y"))])

  const DIAMOND_STORE: Store := map["x" := Container(false, [Field("c", Ref("z"))]),
                                    "y" := Container(false, [Field("d", Ref("z"))]),
                                    "z" := Scalar("1")]

  function TwoFields(x: Json, y: Json): Json {
    Container(false, [Field("a", Container(false, [Field("c", x)])), Field("b", Container(false, [Field("d", y)]))])
  }

  lemma StartRef(soul: Soul, visited: set<Soul>)
    ensures IsReference(Ref(soul)) && SoulOf(Ref(soul)) == soul
    ensures forall depth: nat :: depth <= MAX_DEPTH ==>
      Start(Ref(soul), visited, depth) == if soul in visited then (Leaf(Json.Null), visited)
        else (Pending(soul), visited + {soul})
  {
  }

  lemma StartCons(fields: seq<Field>, skip: bool, visited: set<Soul>, depth: nat)
    requires fields != [] && fields[0].key != "_"
    ensures var (tree, seen) := Start(fields[0].value, visited, depth);
      var (rest, all) := StartFields(fields[1..], skip, seen, depth);
      StartFields(fields, skip, visited, depth) == ([Child(fields[0].key, tree)] + rest, all)
  {
  }

  lemma StartOne(key: string, soul: Soul, visited: set<Soul>)
    requires key != "#" && key != "_"
    ensures Start(Container(false, [Field(key, Ref(soul))]), visited, 0) ==
      if soul in visited then (Branch(false, [Child(key, Leaf(Json.Null))]), visited)
      else (Branch(false, [Child(key, Pending(soul))]), visited + {soul})
  {
    var n := Container(false, [Field(key, Ref(soul))]);
    StartRef(soul, visited);
    assert Lookup(n.fields, "#") == Lookup(n.fields[1..], "#") == None;
    assert !IsReference(n) && !IsGraph(n);
    StartCons(n.fields, true, visited, 1);
    var (tree, seen) := Start(Ref(soul), visited, 1);
    assert n.fields[1..] == [] && StartFields([], true, seen, 1) == ([], seen);
    assert [Child(key, tree)] + [] == [Child(key, tree)];
  }

  lemma StartDiamond()
    ensures Init(DIAMOND) == State(Branch(false, [Child("a", Pending("x")), Child("b", Pending("y"))]), {"x", "y"}, {})
  {
    var fields := DIAMOND.fields;
    assert Lookup(fields, "#") == Lookup(fields[1..], "#") == Lookup(fields[1..][1..], "#") == None;
    StartRef("x", {});
    StartRef("y", {"x"});
    assert Lookup(Ref("x").fields, "_") == Lookup(Ref("x").fields[1..], "_") == None;
    assert !NodeNamed(fields[0].value, fields[0].key);
    assert !IsReference(DIAMOND) && !IsGraph(DIAMOND);
    assert {} + {"x"} == {"x"} && {"x"} + {"y"} == {"x", "y"};
    StartCons(fields[1..], true, {"x"}, 1);
    assert fields[1..][1..] == [] && StartFields([], true, {"x", "y"}, 1) == ([], {"x", "y"});
    assert [Child("b", Pending("y"))] + [] == [Child("b", Pending("y"))];
    assert StartFields(fields[1..], true, {"x"}, 1) == ([Child("b", Pending("y"))], {"x", "y"});
    StartCons(fields, true, {}, 1);
    assert [Child("a", Pending("x"))] + [Child("b", Pending("y"))] ==
      [Child("a", Pending("x")), Child("b", Pending("y"))];
  }

  /** What the root's tree has become once x and y have been read. */
  function Diamond(x: Tree, y: Tree): Tree {
    Branch(false, [Child("a", Expanded("x", Branch(false, [Child("c", x)]))),
                   Child("b", Expanded("y", Branch(false, [Child("d", y)])))])
  }

  function Met(soul: Soul, visited: set<Soul>): Tree {
    if soul in visited then Leaf(Json.Null) else Pending(soul)
  }

  lemma DiamondReads(s: State)
    ensures Step(DIAMOND_STORE, s, "x") ==
      State(Replace(s.tree, "x", Expanded("x", Branch(false, [Child("c", Met("z", s.visited))]))),
            s.visited + {"z"}, s.expanded + {"x"})
    ensures Step(DIAMOND_STORE, s, "y") ==
      State(Replace(s.tree, "y", Expanded("y", Branch(false, [Child("d", Met("z", s.visited))]))),
            s.visited + {"z"}, s.expanded + {"y"})
    ensures Step(DIAMOND_STORE, s, "z") ==
      State(Replace(s.tree, "z", Expanded("z", Leaf(Scalar("1")))), s.visited, s.expanded + {"z"})
  {
    StartOne("c", "z", s.visited);
    StartOne("d", "z", s.visited);
    assert "z" in s.visited ==> s.visited + {"z"} == s.visited;
  }

  lemma DiamondStep(first: Soul, second: Soul, s1: State, s2: State)
    requires (first == "x" && second == "y") || (first == "y" && second == "x")
    requires s1 == Step(DIAMOND_STORE, Init(DIAMOND), first) && s2 == Step(DIAMOND_STORE, s1, second)
    ensures s1.visited == s2.visited == {"x", "y", "z"} && s1.expanded == {first} && s2.expanded == {"x", "y"}
    ensures s2.tree == if first == "x" then Diamond(Pending("z"), Leaf(Json.Null))
      else Diamond(Leaf(Json.Null), Pending("z"))
  {
    StartDiamond();
    DiamondReads(Init(DIAMOND));
    DiamondReads(s1);
    assert {"x", "y"} + {"z"} == {"x", "y", "z"} && {} + {first} == {first} && {first} + {second} == {"x", "y"};
    DiamondTrees(if first == "x" then Pending("z") else Leaf(Json.Null),
                 if first == "x" then Leaf(Json.Null) else Pending("z"));
  }

  /** Whatever x and y yield, their reads take their places in the tree. */
  lemma DiamondTrees(x: Tree, y: Tree)
    requires x in {Pending("z"), Leaf(Json.Null)} && y in {Pending("z"), Leaf(Json.Null)}
    ensures var t := Branch(false, [Child("a", Pending("x")), Child("b", Pending("y"))]);
      var cx, dy := Expanded("x", Branch(false, [Child("c", x)])), Expanded("y", Branch(false, [Child("d", y)]));
      && Replace(Replace(t, "x", cx), "y", dy) == Diamond(x, y)
      && Replace(Replace(t, "y", dy), "x", cx) == Diamond(x, y)
  {
    var cx, dy := Expanded("x", Branch(false, [Child("c", x)])), Expanded("y", Branch(false, [Child("d", y)]));
    assert "x" != "y" && "x" != "z" && "y" != "z";
    ReplaceOne("c", x, "y", dy);
    ReplaceOne("d", y, "x", cx);
    ReplaceBoth("a", "x", cx, "b", "y", dy);
  }

  lemma ReplaceBoth(k: string, s: Soul, u: Tree, l: string, r: Soul, v: Tree)
    requires s != r && Replace(u, r, v) == u && Replace(v, s, u) == v
    ensures var t := Branch(false, [Child(k, Pending(s)), Child(l, Pending(r))]);
      && Replace(Replace(t, s, u), r, v) == Branch(false, [Child(k, u), Child(l, v)])
      && Replace(Replace(t, r, v), s, u) == Branch(false, [Child(k, u), Child(l, v)])
  {
    ReplaceTwo(k, Pending(s), l, Pending(r), s, u);
    ReplaceTwo(k, Pending(s), l, Pending(r), r, v);
    ReplaceTwo(k, u, l, Pending(r), r, v);
    ReplaceTwo(k, Pending(s), l, v, s, u);
  }

  lemma ReplaceOne(k: string, x: Tree, soul: Soul, u: Tree)
    ensures Replace(Branch(false, [Child(k, x)]), soul, u) == Branch(false, [Child(k, Replace(x, soul, u))])
  {
    assert [Child(k, x)][1..] == [] && ReplaceAll([], soul, u) == [];
    var c := Child(k, Replace(x, soul, u));
    assert ReplaceAll([Child(k, x)], soul, u) == [c] + [] == [c];
  }

  lemma ReplaceTwo(k: string, x: Tree, l: string, y: Tree, soul: Soul, u: Tree)
    ensures Replace(Branch(false, [Child(k, x), Child(l, y)]), soul, u) ==
      Branch(false, [Child(k, Replace(x, soul, u)), Child(l, Replace(y, soul, u))])
  {
    var first, second := Child(k, Replace(x, soul, u)), Child(l, Replace(y, soul, u));
    assert [Child(l, y)][1..] == [] && ReplaceAll([], soul, u) == [] && [second] + [] == [second];
    assert ReplaceAll([Child(l, y)], soul, u) == [second];
    assert [Child(k, x), Child(l, y)][1..] == [Child(l, y)];
    assert [first] + [second] == [first, second];
  }

  lemma DiamondFinal(first: Soul, second: Soul)
    requires (first == "x" && second == "y") || (first == "y" && second == "x")
    ensures var run, one := [first, second, "z"], Expanded("z", Leaf(Scalar("1")));
      && IsRun(DIAMOND_STORE, Init(DIAMOND), run) && Complete(Final(DIAMOND_STORE, Init(DIAMOND), run))
      && Final(DIAMOND_STORE, Init(DIAMOND), run).tree ==
           if first == "x" then Diamond(one, Leaf(Json.Null)) else Diamond(Leaf(Json.Null), one)
  {
    var s1 := Step(DIAMOND_STORE, Init(DIAMOND), first);
    var s2 := Step(DIAMOND_STORE, s1, second);
    StartDiamond();
    DiamondStep(first, second, s1, s2);
    DiamondLast(first, s2);
    ThreeReads(DIAMOND_STORE, Init(DIAMOND), first, second, "z");
  }

  lemma DiamondLast(first: Soul, s: State)
    requires s.visited == {"x", "y", "z"} && s.expanded == {"x", "y"}
    requires s.tree == if first == "x" then Diamond(Pending("z"), Leaf(Json.Null))
      else Diamond(Leaf(Json.Null), Pending("z"))
    ensures var one := Expanded("z", Leaf(Scalar("1")));
      && Complete(Step(DIAMOND_STORE, s, "z"))
      && Step(DIAMOND_STORE, s, "z").tree ==
           if first == "x" then Diamond(one, Leaf(Json.Null)) else Diamond(Leaf(Json.Null), one)
  {
    var one := Expanded("z", Leaf(Scalar("1")));
    DiamondReads(s);
    DiamondReplaced(Pending("z"), Leaf(Json.Null), one);
    DiamondReplaced(Leaf(Json.Null), Pending("z"), one);
    assert s.expanded + {"z"} == {"x", "y", "z"};
  }

  lemma ThreeReads(store: Store, s: State, a: Soul, b: Soul, c: Soul)
    requires Enabled(s, a) && Enabled(Step(store, s, a), b) && Enabled(Step(store, Step(store, s, a), b), c)
    ensures IsRun(store, s, [a, b, c])
    ensures Final(store, s, [a, b, c]) == Step(store, Step(store, Step(store, s, a), b), c)
  {
    var s1 := Step(store, s, a);
    var s2 := Step(store, s1, b);
    assert [a, b, c][1..] == [b, c] && [b, c][1..] == [c] && [c][1..] == [];
    assert IsRun(store, s2, [c]) && Final(store, s2, [c]) == Step(store, s2, c);
    assert IsRun(store, s1, [b, c]) && Final(store, s1, [b, c]) == Step(store, s2, c);
  }

  lemma DiamondReplaced(x: Tree, y: Tree, u: Tree)
    ensures Replace(Diamond(x, y), "z", u) == Diamond(Replace(x, "z", u), Replace(y, "z", u))
  {
    var cx, dy := Branch(false, [Child("c", x)]), Branch(false, [Child("d", y)]);
    ReplaceTwo("a", Expanded("x", cx), "b", Expanded("y", dy), "z", u);
    ReplaceOne("c", x, "z", u);
    ReplaceOne("d", y, "z", u);
  }

  /** One input, two complete runs, two values: the reference read second is null. */
  lemma OrderMatters()
    ensures var run, other := ["x", "y", "z"], ["y", "x", "z"];
      && IsRun(DIAMOND_STORE, Init(DIAMOND), run) && Complete(Final(DIAMOND_STORE, Init(DIAMOND), run))
      && IsRun(DIAMOND_STORE, Init(DIAMOND), other) && Complete(Final(DIAMOND_STORE, Init(DIAMOND), other))
      && ValueOf(Final(DIAMOND_STORE, Init(DIAMOND), run).tree) == Done(TwoFields(Scalar("1"), Json.Null))
      && ValueOf(Final(DIAMOND_STORE, Init(DIAMOND), other).tree) == Done(TwoFields(Json.Null, Scalar("1")))
  {
    DiamondFinal("x", "y");
    DiamondFinal("y", "x");
    DiamondValue(Expanded("z", Leaf(Scalar("1"))), Leaf(Json.Null), Scalar("1"), Json.Null);
    DiamondValue(Leaf(Json.Null), Expanded("z", Leaf(Scalar("1"))), Json.Null, Scalar("1"));
  }

  lemma DiamondValue(x: Tree, y: Tree, v: Json, w: Json)
    requires ValueOf(x) == Done(v) && ValueOf(y) == Done(w)
    ensures ValueOf(Diamond(x, y)) == Done(TwoFields(v, w))
  {
    OneValue("c", x);
    OneValue("d", y);
    var cx, dy := Expanded("x", Branch(false, [Child("c", x)])), Expanded("y", Branch(false, [Child("d", y)]));
    var children := [Child("a", cx), Child("b", dy)];
    assert children[1..] == [Child("b", dy)];
    OneValue("b", dy);
    assert ValuesOf(children[1..]) == Done([Field("b", ValueOf(dy).result)]);
    assert [Field("a", ValueOf(cx).result)] + [Field("b", ValueOf(dy).result)] ==
      [Field("a", ValueOf(cx).result), Field("b", ValueOf(dy).result)];
  }

  lemma OneValue(k: string, x: Tree)
    requires ValueOf(x).Done?
    ensures ValueOf(Branch(false, [Child(k, x)])) == Done(Container(false, [Field(k, ValueOf(x).result)]))
  {
    assert [Child(k, x)][1..] == [] && ValuesOf([]) == Done([]);
    assert [Field(k, ValueOf(x).result)] + [] == [Field(k, ValueOf(x).result)];
    assert ValuesOf([Child(k, x)]) == Done([Field(k, ValueOf(x).result)]);
  }
}
