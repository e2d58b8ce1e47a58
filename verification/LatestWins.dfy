// The strongest of a set of timed values: the latest one wins, and values of the same time
// contradict each other. The set is folded in an order the caller does not choose.
module LatestWins {
  import opened Common

  datatype Base = Contradiction | Plain(text: string)

  /** Vector clocks are merged by pointwise maximum. */
  type Clock = map<string, nat>

  datatype Value = Value(base: Base, walltime: real, clock: Clock)

  function Join(a: Clock, b: Clock): Clock {
    map k | k in a.Keys + b.Keys ::
      if k in a && k in b then (if a[k] >= b[k] then a[k] else b[k]) else if k in a then a[k] else b[k]
  }

  /** `a` with the later walltime and the merged clock. */
  function MergeClockFrom(a: Value, b: Value): Value {
    Value(a.base, if a.walltime >= b.walltime then a.walltime else b.walltime, Join(a.clock, b.clock))
  }

  /** A contradiction gives way to strictly newer values only. */
  function Combine(acc: Value, v: Value): Value {
    if acc.base == Contradiction then (if v.walltime > acc.walltime then MergeClockFrom(v, acc) else acc)
    else if v.walltime > acc.walltime then MergeClockFrom(v, acc)
    else if v.walltime < acc.walltime then MergeClockFrom(acc, v)
    else Value(Contradiction, acc.walltime, Join(acc.clock, v.clock))
  }

  function Fold(vs: seq<Value>): Value
    requires vs != []
  {
    if |vs| == 1 then vs[0] else Combine(Fold(vs[..|vs| - 1]), vs[|vs| - 1])
  }

  // ---- Walltime and base ----

  ghost predicate Newest(vs: seq<Value>, i: nat) {
    i < |vs| && forall j :: 0 <= j < |vs| ==> vs[j].walltime <= vs[i].walltime
  }

  /** `i` is strictly newer than all others. */
  ghost predicate UniqueNewest(vs: seq<Value>, i: nat) {
    i < |vs| && forall j :: 0 <= j < |vs| && j != i ==> vs[j].walltime < vs[i].walltime
  }

  /** The latest walltime; the base of the unique newest value, or the contradiction when
      the latest walltime is shared. */
  ghost predicate Wins(vs: seq<Value>, base: Base, walltime: real) {
    && (exists i: nat :: Newest(vs, i) && vs[i].walltime == walltime)
    && (forall i: nat :: UniqueNewest(vs, i) ==> base == vs[i].base)
    && ((forall i: nat :: !UniqueNewest(vs, i)) ==> base == Contradiction)
  }

  lemma {:induction false} FoldWins(vs: seq<Value>)
    requires vs != []
    ensures Wins(vs, Fold(vs).base, Fold(vs).walltime)
  {
    if |vs| == 1 {
      assert Newest(vs, 0) && UniqueNewest(vs, 0);
    } else {
      FoldWins(vs[..|vs| - 1]);
      WinsStep(vs);
    }
  }

  lemma WinsStep(vs: seq<Value>)
    requires |vs| > 1
    requires var acc := Fold(vs[..|vs| - 1]); Wins(vs[..|vs| - 1], acc.base, acc.walltime)
    ensures Wins(vs, Fold(vs).base, Fold(vs).walltime)
  {
    var n, acc := |vs| - 1, Fold(vs[..|vs| - 1]);
    var m: nat :| Newest(vs[..n], m) && vs[..n][m].walltime == acc.walltime;
    assert Fold(vs) == Combine(acc, vs[n]);
    if vs[n].walltime > acc.walltime {
      NewerWins(vs, m);
    } else {
      OlderLoses(vs, m, acc.base, acc.walltime);
    }
  }

  lemma OlderLoses(vs: seq<Value>, m: nat, base: Base, walltime: real)
    requires |vs| > 1 && Wins(vs[..|vs| - 1], base, walltime)
    requires Newest(vs[..|vs| - 1], m) && vs[m].walltime == walltime && vs[|vs| - 1].walltime <= walltime
    ensures Wins(vs, if vs[|vs| - 1].walltime == walltime then Contradiction else base, walltime)
  {
    assert Newest(vs, m);
    forall i: nat
      ensures UniqueNewest(vs, i) <==> UniqueNewest(vs[..|vs| - 1], i) && vs[|vs| - 1].walltime < walltime
      ensures UniqueNewest(vs, i) ==> vs[i] == vs[..|vs| - 1][i]
    {
      UniqueUnlessShared(vs, m, i);
    }
  }

  lemma NewerWins(vs: seq<Value>, m: nat)
    requires |vs| > 1 && Newest(vs[..|vs| - 1], m) && vs[|vs| - 1].walltime > vs[m].walltime
    ensures Newest(vs, |vs| - 1) && UniqueNewest(vs, |vs| - 1)
    ensures forall i: nat :: UniqueNewest(vs, i) ==> i == |vs| - 1
  {
    var us := vs[..|vs| - 1];
    assert forall j :: 0 <= j < |us| ==> vs[j] == us[j];
    assert Newest(vs, |vs| - 1);
    forall i: nat ensures UniqueNewest(vs, i) ==> i == |vs| - 1 {
      UniqueIsOnly(vs, i, |vs| - 1);
    }
  }

  lemma UniqueUnlessShared(vs: seq<Value>, m: nat, i: nat)
    requires |vs| > 1 && Newest(vs[..|vs| - 1], m) && vs[|vs| - 1].walltime <= vs[m].walltime
    ensures UniqueNewest(vs, i) <==> UniqueNewest(vs[..|vs| - 1], i) && vs[|vs| - 1].walltime < vs[m].walltime
  {
    var n := |vs| - 1;
    var us := vs[..n];
    assert forall j :: 0 <= j < n ==> vs[j] == us[j];
    assert Newest(vs, m);
    UniqueIsOnly(vs, i, m);
    UniqueIsOnly(us, i, m);
    assert UniqueNewest(vs, m) ==> vs[n].walltime < vs[m].walltime;
  }

  lemma UniqueIsOnly(vs: seq<Value>, i: nat, j: nat)
    requires Newest(vs, j)
    ensures UniqueNewest(vs, i) ==> i == j
  {
    assert UniqueNewest(vs, i) ==> vs[i].walltime <= vs[j].walltime;
  }

  /** The set decides the walltime and the base: any two orders of it agree. */
  lemma OrderIrrelevant(vs: seq<Value>, ws: seq<Value>)
    requires vs != [] && NoDup(vs) && NoDup(ws) && Elems(vs) == Elems(ws)
    ensures ws != [] && Fold(vs).walltime == Fold(ws).walltime && Fold(vs).base == Fold(ws).base
  {
    assert vs[0] in Elems(ws);
    FoldWins(vs);
    FoldWins(ws);
    var i: nat :| Newest(vs, i) && vs[i].walltime == Fold(vs).walltime;
    var j: nat :| Newest(ws, j) && ws[j].walltime == Fold(ws).walltime;
    assert vs[i] in Elems(ws) && ws[j] in Elems(vs);
    if k: nat :| UniqueNewest(vs, k) {
      var l := UniqueElsewhere(vs, ws, k);
    } else if k: nat :| UniqueNewest(ws, k) {
      var l := UniqueElsewhere(ws, vs, k);
    }
  }

  lemma UniqueElsewhere(vs: seq<Value>, ws: seq<Value>, i: nat) returns (j: nat)
    requires NoDup(vs) && NoDup(ws) && Elems(vs) == Elems(ws) && UniqueNewest(vs, i)
    ensures UniqueNewest(ws, j) && ws[j] == vs[i]
  {
    assert vs[i] in Elems(ws);
    j :| 0 <= j < |ws| && ws[j] == vs[i];
    forall k | 0 <= k < |ws| && k != j ensures ws[k].walltime < ws[j].walltime {
      assert ws[k] in Elems(vs);
      var l :| 0 <= l < |vs| && vs[l] == ws[k];
    }
  }

  // ---- The clock ----

  ghost predicate Below(a: Clock, b: Clock) {
    forall k :: k in a ==> k in b && a[k] <= b[k]
  }

  lemma JoinIsLeast(a: Clock, b: Clock)
    ensures Below(a, Join(a, b)) && Below(b, Join(a, b))
    ensures forall c :: Below(a, c) && Below(b, c) ==> Below(Join(a, b), c)
  {
  }

  /** The fold looks at the clock of value `k`: it does so unless a contradiction that is at
      least as late has been reached. */
  ghost predicate Counts(vs: seq<Value>, k: nat) {
    k < |vs| && (k == 0 || Fold(vs[..k]).base != Contradiction || vs[k].walltime > Fold(vs[..k]).walltime)
  }

  ghost predicate AboveCounted(c: Clock, vs: seq<Value>) {
    forall k: nat :: Counts(vs, k) ==> Below(vs[k].clock, c)
  }

  ghost predicate AboveAll(c: Clock, vs: seq<Value>) {
    forall k :: 0 <= k < |vs| ==> Below(vs[k].clock, c)
  }

  lemma CountsInPrefix(vs: seq<Value>, k: nat)
    requires |vs| > 1
    ensures Counts(vs, k) <==> Counts(vs[..|vs| - 1], k) || (k == |vs| - 1 && Counts(vs, k))
  {
    if k < |vs| - 1 { assert vs[..|vs| - 1][..k] == vs[..k]; }
  }

  lemma CombineClock(acc: Value, v: Value)
    ensures var c, counts := Combine(acc, v).clock, acc.base != Contradiction || v.walltime > acc.walltime;
      && Below(acc.clock, c) && (counts ==> Below(v.clock, c))
      && forall d :: Below(acc.clock, d) && (counts ==> Below(v.clock, d)) ==> Below(c, d)
  {
    JoinIsLeast(acc.clock, v.clock);
    JoinIsLeast(v.clock, acc.clock);
  }

  lemma BelowTransitive(a: Clock, b: Clock, c: Clock)
    requires Below(a, b) && Below(b, c)
    ensures Below(a, c)
  {
  }

  /** The result has the least clock above the clocks of the values that count. */
  lemma {:induction false} ClockIsJoin(vs: seq<Value>)
    requires vs != []
    ensures AboveCounted(Fold(vs).clock, vs)
    ensures forall c :: AboveCounted(c, vs) ==> Below(Fold(vs).clock, c)
  {
    if |vs| == 1 {
      assert Counts(vs, 0);
    } else {
      ClockIsJoin(vs[..|vs| - 1]);
      ClockStep(vs);
    }
  }

  lemma ClockStep(vs: seq<Value>)
    requires |vs| > 1
    requires var us := vs[..|vs| - 1];
      AboveCounted(Fold(us).clock, us) && forall c :: AboveCounted(c, us) ==> Below(Fold(us).clock, c)
    ensures AboveCounted(Fold(vs).clock, vs)
    ensures forall c :: AboveCounted(c, vs) ==> Below(Fold(vs).clock, c)
  {
    var n := |vs| - 1;
    var us := vs[..n];
    CombineClock(Fold(us), vs[n]);
    forall k: nat | Counts(vs, k) ensures Below(vs[k].clock, Fold(vs).clock) {
      CountsInPrefix(vs, k);
      if k < n { BelowTransitive(us[k].clock, Fold(us).clock, Fold(vs).clock); }
    }
    forall c | AboveCounted(c, vs) ensures Below(Fold(vs).clock, c) {
      forall k: nat | Counts(us, k) ensures Below(us[k].clock, c) { CountsInPrefix(vs, k); }
      assert AboveCounted(c, us) && (Counts(vs, n) ==> Below(vs[n].clock, c));
    }
  }

  // ---- Values whose clock may be dropped ----

  /** Another value of the set is a contradiction that is at least as late, or two other
      values share a walltime that is at least as late. */
  ghost predicate Droppable(all: set<Value>, v: Value) {
    || (exists c :: c in all && c != v && c.base == Contradiction && c.walltime >= v.walltime)
    || exists a, b :: a in all && b in all && a != b && a != v && b != v && a.walltime == b.walltime >= v.walltime
  }

  ghost predicate IsOrder(all: set<Value>, ws: seq<Value>) {
    NoDup(ws) && Elems(ws) == all
  }

  /** In this order, the value at `k` is dropped. */
  ghost predicate DroppedAt(all: set<Value>, v: Value, ws: seq<Value>, k: nat) {
    IsOrder(all, ws) && k < |ws| && ws[k] == v && !Counts(ws, k)
  }

  lemma DroppedIsDroppable(all: set<Value>, v: Value, ws: seq<Value>, k: nat)
    requires DroppedAt(all, v, ws, k)
    ensures Droppable(all, v)
  {
    var us := ws[..k];
    FoldWins(us);
    assert forall i :: 0 <= i < k ==> us[i] == ws[i] && ws[i] in all && ws[i] != v;
    var m: nat :| Newest(us, m) && us[m].walltime == Fold(us).walltime;
    if i: nat :| UniqueNewest(us, i) {
      UniqueIsOnly(us, i, m);
      assert us[i].base == Contradiction;
    } else {
      assert !UniqueNewest(us, m);
      var j :| 0 <= j < |us| && j != m && us[j].walltime >= us[m].walltime;
      assert us[j] != us[m] && us[j].walltime == us[m].walltime;
    }
  }

  /** An order that starts with given values. */
  lemma Started(all: set<Value>, first: seq<Value>) returns (ws: seq<Value>)
    requires NoDup(first) && Elems(first) <= all
    ensures IsOrder(all, ws) && first <= ws
  {
    var rest := Listed(all - Elems(first));
    ws := first + rest;
    ElemsOfAppend(first, rest);
    assert forall i :: 0 <= i < |rest| ==> rest[i] in Elems(rest);
    assert forall i :: 0 <= i < |first| ==> first[i] in Elems(first);
  }

  lemma DroppableIsDropped(all: set<Value>, v: Value) returns (ws: seq<Value>, k: nat)
    requires v in all && Droppable(all, v)
    ensures DroppedAt(all, v, ws, k)
  {
    if c :| c in all && c != v && c.base == Contradiction && c.walltime >= v.walltime {
      ws := Started(all, [c, v]);
      k := 1;
      assert ws[0] == [c, v][0] && ws[1] == [c, v][1];
      assert ws[..1] == [c];
    } else {
      var a, b :| a in all && b in all && a != b && a != v && b != v && a.walltime == b.walltime >= v.walltime;
      ws := Started(all, [a, b, v]);
      k := 2;
      assert ws[0] == [a, b, v][0] && ws[1] == [a, b, v][1] && ws[2] == [a, b, v][2];
      assert ws[..2] == [a, b] && [a, b][..1] == [a] && Fold([a]) == a;
      assert Fold([a, b]) == Combine(a, b);
      assert a.base == Contradiction ==> Combine(a, b) == a;
    }
  }

  /** A value can be dropped in some order exactly when such others exist. */
  lemma DroppedIff(all: set<Value>, v: Value)
    requires v in all
    ensures (exists ws, k: nat :: DroppedAt(all, v, ws, k)) <==> Droppable(all, v)
  {
    if ws, k: nat :| DroppedAt(all, v, ws, k) {
      DroppedIsDroppable(all, v, ws, k);
    }
    if Droppable(all, v) {
      var ws, k := DroppableIsDropped(all, v);
    }
  }

  // ---- When the clock is the join of all clocks ----

  /** A single contradiction, or two values that share a walltime: once they have been met,
      what is not newer is dropped. */
  ghost predicate IsDropper(all: set<Value>, d: set<Value>, time: real) {
    && d <= all && (forall v :: v in d ==> v.walltime == time)
    && ((exists c: Value :: c.base == Contradiction && d == {c}) || (exists a: Value, b :: a != b && d == {a, b}))
  }

  /** The values that count in any order that starts with the dropper and keeps the newer
      values for the end. */
  ghost function Survivors(all: set<Value>, d: set<Value>, time: real): set<Value> {
    d + set v | v in all && v.walltime > time
  }

  /** Entry by entry, some clock of the set is at least as high. */
  ghost predicate Under(c: Clock, s: set<Value>) {
    forall k :: k in c ==> UnderAt(c, s, k)
  }

  ghost predicate UnderAt(c: Clock, s: set<Value>, k: string)
    requires k in c
  {
    exists w :: w in s && k in w.clock && c[k] <= w.clock[k]
  }

  /** No clock exceeds what survives any dropper. */
  ghost predicate DropsNothing(all: set<Value>) {
    forall d, time, v :: IsDropper(all, d, time) && v in all ==> Under(v.clock, Survivors(all, d, time))
  }

  /** The clock is the join of all clocks, in every order. */
  ghost predicate JoinsAll(all: set<Value>) {
    forall ws :: ws != [] && IsOrder(all, ws) ==> AboveAll(Fold(ws).clock, ws)
  }

  lemma OrdersNotEmpty(all: set<Value>, ws: seq<Value>)
    requires all != {} && IsOrder(all, ws)
    ensures ws != []
  {
    assert ws == [] ==> Elems(ws) == {};
  }

  /** An entry of the result is no higher than those of the clocks that count. */
  lemma EntryBelow(ws: seq<Value>, k: string, x: nat)
    requires ws != [] && k in Fold(ws).clock
    requires forall i: nat :: Counts(ws, i) && k in ws[i].clock ==> ws[i].clock[k] < x
    ensures Fold(ws).clock[k] < x
  {
    var j := Fold(ws).clock;
    ClockIsJoin(ws);
    var c: Clock := if x > 0 then j[k := x - 1] else map y | y in j && y != k :: j[y];
    forall i: nat | Counts(ws, i) ensures Below(ws[i].clock, c) {
      assert Below(ws[i].clock, j);
    }
    assert AboveCounted(c, ws);
  }

  ghost function Counted(ws: seq<Value>): set<Value> {
    set i: nat | i < |ws| && Counts(ws, i) :: ws[i]
  }

  /** What is below the result is below the clocks that count, entry by entry. */
  lemma BelowIsUnder(ws: seq<Value>, c: Clock)
    requires ws != [] && Below(c, Fold(ws).clock)
    ensures Under(c, Counted(ws))
  {
    forall k | k in c ensures UnderAt(c, Counted(ws), k) {
      if forall i: nat :: Counts(ws, i) && k in ws[i].clock ==> ws[i].clock[k] < c[k] {
        EntryBelow(ws, k, c[k]);
      } else {
        var i: nat :| Counts(ws, i) && k in ws[i].clock && ws[i].clock[k] >= c[k];
        assert ws[i] in Counted(ws);
      }
    }
  }

  lemma UnderMore(c: Clock, s: set<Value>, t: set<Value>)
    requires Under(c, s) && s <= t
    ensures Under(c, t)
  {
    forall k | k in c ensures UnderAt(c, t, k) {
      assert UnderAt(c, s, k);
    }
  }

  /** A dropper first, then what is not newer, then what is newer. */
  lemma DropOrder(all: set<Value>, d: set<Value>, time: real) returns (ws: seq<Value>, m: nat, n: nat)
    requires IsDropper(all, d, time)
    ensures IsOrder(all, ws) && m <= n <= |ws| && Elems(ws[..m]) == d
    ensures forall i :: 0 <= i < n ==> ws[i].walltime <= time
    ensures forall i :: n <= i < |ws| ==> ws[i].walltime > time
  {
    var newer := set v | v in all && v.walltime > time;
    var first := Listed(d);
    var second := Listed(all - newer - d);
    var third := Listed(newer);
    ws, m, n := first + second + third, |first|, |first| + |second|;
    ElemsOfAppend(first, second);
    ElemsOfAppend(first + second, third);
    assert ws[..m] == first;
    assert d + (all - newer - d) + newer == all;
    forall i | 0 <= i < |ws| ensures ws[i] in if i < m then d else if i < n then all - newer - d else newer {
      assert ws[i] == if i < m then first[i] else if i < n then second[i - m] else third[i - n];
      assert i < m ==> first[i] in Elems(first);
      assert m <= i < n ==> second[i - m] in Elems(second);
      assert n <= i ==> third[i - n] in Elems(third);
    }
    NoDupAppend(first, second);
    NoDupAppend(first + second, third);
  }

  lemma NoDupAppend(x: seq<Value>, y: seq<Value>)
    requires NoDup(x) && NoDup(y) && Elems(x) !! Elems(y)
    ensures NoDup(x + y)
  {
    assert forall i :: 0 <= i < |x| ==> x[i] in Elems(x);
    assert forall i :: 0 <= i < |y| ==> y[i] in Elems(y);
  }

  /** After a dropper, and as long as nothing newer has come, the fold is a contradiction of
      the dropper's time. */
  lemma AfterDropper(all: set<Value>, d: set<Value>, time: real, us: seq<Value>)
    requires IsDropper(all, d, time) && us != [] && d <= Elems(us)
    requires forall i :: 0 <= i < |us| ==> us[i].walltime <= time
    ensures Fold(us).base == Contradiction && Fold(us).walltime == time
  {
    FoldWins(us);
    var m: nat :| Newest(us, m) && us[m].walltime == Fold(us).walltime;
    assert exists v :: v in d;
    var v :| v in d;
    assert v in Elems(us);
    var j :| 0 <= j < |us| && us[j] == v;
    forall i: nat | UniqueNewest(us, i) ensures us[i].base == Contradiction {
      assert forall w :: w in d ==> w in Elems(us) && w == us[i];
    }
  }

  /** In that order only the survivors count. */
  lemma OnlySurvivors(all: set<Value>, d: set<Value>, time: real, ws: seq<Value>, m: nat, n: nat)
    requires IsDropper(all, d, time) && IsOrder(all, ws) && m <= n <= |ws| && Elems(ws[..m]) == d
    requires forall i :: 0 <= i < n ==> ws[i].walltime <= time
    requires forall i :: n <= i < |ws| ==> ws[i].walltime > time
    ensures Counted(ws) <= Survivors(all, d, time)
  {
    assert exists v :: v in d;
    assert m > 0;
    forall k: nat | k < |ws| && Counts(ws, k) ensures ws[k] in Survivors(all, d, time) {
      assert ws[k] in all;
      if k < m {
        assert ws[..m][k] == ws[k];
      } else if k < n {
        var us := ws[..k];
        assert forall i :: 0 <= i < m ==> ws[..m][i] == us[i];
        assert d <= Elems(us);
        AfterDropper(all, d, time, us);
      }
    }
  }

  lemma JoinsAllNeeds(all: set<Value>, d: set<Value>, time: real, v: Value)
    requires JoinsAll(all) && IsDropper(all, d, time) && v in all
    ensures Under(v.clock, Survivors(all, d, time))
  {
    var ws, m, n := DropOrder(all, d, time);
    OrdersNotEmpty(all, ws);
    OnlySurvivors(all, d, time, ws, m, n);
    var k :| 0 <= k < |ws| && ws[k] == v;
    assert AboveAll(Fold(ws).clock, ws);
    BelowIsUnder(ws, v.clock);
    UnderMore(v.clock, Counted(ws), Survivors(all, d, time));
  }

  /** What has dropped a value: values that count themselves, with nothing newer before. */
  lemma DropperOf(ws: seq<Value>, k: nat) returns (d: set<Value>, time: real)
    requires NoDup(ws) && k < |ws| && !Counts(ws, k)
    ensures IsDropper(Elems(ws), d, time) && d <= Counted(ws)
    ensures forall i :: 0 <= i <= k ==> ws[i].walltime <= time
  {
    var m: nat;
    time, m := DropTime(ws, k);
    var i := NextAt(ws, 0, m, time);
    FirstCounts(ws, i, time);
    if ws[i].base == Contradiction {
      d := {ws[i]};
    } else {
      var l := NotAlone(ws, k, i, time);
      var j := NextAt(ws, i + 1, l, time);
      SecondCounts(ws, i, j, time);
      assert ws[i] != ws[j];
      d := {ws[i], ws[j]};
    }
  }

  /** When the value at `k` is dropped, the newest before it is at least as late. */
  lemma DropTime(ws: seq<Value>, k: nat) returns (time: real, m: nat)
    requires k < |ws| && !Counts(ws, k)
    ensures m < k && ws[m].walltime == time && Fold(ws[..k]).walltime == time && Fold(ws[..k]).base == Contradiction
    ensures forall i :: 0 <= i <= k ==> ws[i].walltime <= time
  {
    var us := ws[..k];
    FoldWins(us);
    time := Fold(us).walltime;
    m :| Newest(us, m) && us[m].walltime == time;
    assert forall i :: 0 <= i < k ==> us[i] == ws[i];
  }

  /** If the newest value met first is no contradiction, another one shares its walltime. */
  lemma NotAlone(ws: seq<Value>, k: nat, i: nat, time: real) returns (l: nat)
    requires i < k <= |ws| && Fold(ws[..k]).base == Contradiction && ws[i].base != Contradiction
    requires ws[i].walltime == time && (forall j :: 0 <= j < k ==> ws[j].walltime <= time)
    requires forall j :: 0 <= j < i ==> ws[j].walltime != time
    ensures i < l < k && ws[l].walltime == time
  {
    var us := ws[..k];
    FoldWins(us);
    assert forall j :: 0 <= j < k ==> us[j] == ws[j];
    assert !UniqueNewest(us, i);
    l :| 0 <= l < |us| && l != i && us[l].walltime >= us[i].walltime;
  }

  /** The first value of this walltime from `from` on. */
  lemma NextAt(ws: seq<Value>, from: nat, m: nat, time: real) returns (i: nat)
    requires from <= m < |ws| && ws[m].walltime == time
    ensures from <= i <= m && ws[i].walltime == time && forall j :: from <= j < i ==> ws[j].walltime != time
  {
    i := from;
    while ws[i].walltime != time
      invariant from <= i <= m && forall j :: from <= j < i ==> ws[j].walltime != time
      decreases m - i
    {
      i := i + 1;
    }
  }

  lemma FirstCounts(ws: seq<Value>, i: nat, time: real)
    requires i < |ws| && ws[i].walltime == time && forall j :: 0 <= j < i ==> ws[j].walltime < time
    ensures Counts(ws, i)
  {
    if i > 0 {
      FoldWins(ws[..i]);
      var m: nat :| Newest(ws[..i], m) && ws[..i][m].walltime == Fold(ws[..i]).walltime;
      assert ws[..i][m] == ws[m];
    }
  }

  lemma SecondCounts(ws: seq<Value>, i: nat, j: nat, time: real)
    requires i < j < |ws| && ws[i].walltime == ws[j].walltime == time && ws[i].base != Contradiction
    requires forall k :: 0 <= k < j && k != i ==> ws[k].walltime < time
    ensures Counts(ws, j)
  {
    var us := ws[..j];
    FoldWins(us);
    assert forall k :: 0 <= k < j ==> us[k] == ws[k];
    assert UniqueNewest(us, i);
  }

  lemma CountedIsBelow(ws: seq<Value>, w: Value)
    requires ws != [] && w in Counted(ws)
    ensures Below(w.clock, Fold(ws).clock)
  {
    ClockIsJoin(ws);
    var i: nat :| i < |ws| && Counts(ws, i) && ws[i] == w;
  }

  lemma DropsNothingSuffices(all: set<Value>, ws: seq<Value>)
    requires all != {} && DropsNothing(all) && IsOrder(all, ws)
    ensures AboveAll(Fold(ws).clock, ws)
  {
    OrdersNotEmpty(all, ws);
    forall q | 0 <= q < |ws| ensures Below(ws[q].clock, Fold(ws).clock) {
      if Counts(ws, q) {
        assert ws[q] in Counted(ws);
        CountedIsBelow(ws, ws[q]);
      } else {
        var k := LastDropped(ws, q);
        var d, time := DropperOf(ws, k);
        SurvivorsCount(ws, k, d, time);
        UnderIsBelow(ws, ws[q].clock, Survivors(all, d, time));
      }
    }
  }

  lemma LastDropped(ws: seq<Value>, q: nat) returns (k: nat)
    requires q < |ws| && !Counts(ws, q)
    ensures k < |ws| && !Counts(ws, k) && forall i: nat :: k < i < |ws| ==> Counts(ws, i)
  {
    k := |ws| - 1;
    while Counts(ws, k)
      invariant q <= k < |ws| && forall i: nat :: k < i < |ws| ==> Counts(ws, i)
      decreases k
    {
      k := k - 1;
    }
  }

  lemma SurvivorsCount(ws: seq<Value>, k: nat, d: set<Value>, time: real)
    requires k < |ws| && (forall i: nat :: k < i < |ws| ==> Counts(ws, i)) && d <= Counted(ws)
    requires forall i :: 0 <= i <= k ==> ws[i].walltime <= time
    ensures Survivors(Elems(ws), d, time) <= Counted(ws)
  {
    forall v | v in Elems(ws) && v.walltime > time ensures v in Counted(ws) {
      var i: nat :| i < |ws| && ws[i] == v;
      assert k < i && Counts(ws, i);
    }
  }

  lemma UnderIsBelow(ws: seq<Value>, c: Clock, s: set<Value>)
    requires ws != [] && Under(c, s) && s <= Counted(ws)
    ensures Below(c, Fold(ws).clock)
  {
    forall k | k in c ensures k in Fold(ws).clock && c[k] <= Fold(ws).clock[k] {
      assert UnderAt(c, s, k);
      var w :| w in s && k in w.clock && c[k] <= w.clock[k];
      CountedIsBelow(ws, w);
    }
  }

  /** The clock is the join of all clocks in every order if and only if no clock exceeds
      what survives a dropper. */
  lemma ClockJoinsIff(all: set<Value>)
    requires all != {}
    ensures JoinsAll(all) <==> DropsNothing(all)
  {
    if JoinsAll(all) {
      forall d, time, v | IsDropper(all, d, time) && v in all ensures Under(v.clock, Survivors(all, d, time)) {
        JoinsAllNeeds(all, d, time, v);
      }
    }
    if DropsNothing(all) {
      forall ws | ws != [] && IsOrder(all, ws) ensures AboveAll(Fold(ws).clock, ws) {
        DropsNothingSuffices(all, ws);
      }
    }
  }

  /** All orders give one clock. */
  ghost predicate OneClock(all: set<Value>) {
    forall ws, ws' :: ws != [] && ws' != [] && IsOrder(all, ws) && IsOrder(all, ws') ==>
      Fold(ws).clock == Fold(ws').clock
  }

  /** Since every value counts when it comes first, that is also when the order does not
      matter. */
  lemma ClockOrderIff(all: set<Value>)
    requires all != {}
    ensures OneClock(all) <==> DropsNothing(all)
  {
    ClockJoinsIff(all);
    if OneClock(all) {
      forall ws: seq<Value> | ws != [] && IsOrder(all, ws) ensures AboveAll(Fold(ws).clock, ws) {
        OneClockIsAbove(all, ws);
      }
    }
    if JoinsAll(all) {
      forall ws, ws' | ws != [] && ws' != [] && IsOrder(all, ws) && IsOrder(all, ws')
        ensures Fold(ws).clock == Fold(ws').clock
      {
        JoinBelow(ws, ws');
        JoinBelow(ws', ws);
        BelowBoth(Fold(ws).clock, Fold(ws').clock);
      }
    }
  }

  lemma OneClockIsAbove(all: set<Value>, ws: seq<Value>)
    requires OneClock(all) && ws != [] && IsOrder(all, ws)
    ensures AboveAll(Fold(ws).clock, ws)
  {
    forall k | 0 <= k < |ws| ensures Below(ws[k].clock, Fold(ws).clock) {
      assert Elems([ws[k]]) <= all;
      var first := Started(all, [ws[k]]);
      assert first[0] == [ws[k]][0] && Counts(first, 0);
      ClockIsJoin(first);
      assert Below(first[0].clock, Fold(first).clock);
    }
  }

  lemma JoinBelow(ws: seq<Value>, ws': seq<Value>)
    requires ws != [] && ws' != [] && Elems(ws) == Elems(ws') && AboveAll(Fold(ws').clock, ws')
    ensures Below(Fold(ws).clock, Fold(ws').clock)
  {
    ClockIsJoin(ws);
    forall k: nat | Counts(ws, k) ensures Below(ws[k].clock, Fold(ws').clock) {
      assert ws[k] in Elems(ws');
      var l :| 0 <= l < |ws'| && ws'[l] == ws[k];
    }
    assert AboveCounted(Fold(ws').clock, ws);
  }

  lemma BelowBoth(a: Clock, b: Clock)
    requires Below(a, b) && Below(b, a)
    ensures a == b
  {
    assert forall k :: k in a <==> k in b;
  }

  lemma FoldThree(x: Value, y: Value, z: Value)
    ensures Fold([x, y, z]) == Combine(Combine(x, y), z)
  {
    var vs := [x, y, z];
    assert |vs| == 3 && vs[..|vs| - 1] == [x, y] && [x, y][..|[x, y]| - 1] == [x];
    assert Fold([x]) == x && Fold([x, y]) == Combine(x, y);
  }

  /** A set whose clock depends on the order: a value that is older than a contradiction
      counts when it comes first and not when it comes last. */
  lemma ClockDependsOnOrder() returns (vs: seq<Value>, ws: seq<Value>)
    ensures vs != [] && ws != [] && NoDup(vs) && NoDup(ws) && Elems(vs) == Elems(ws) && Fold(vs).clock != Fold(ws).clock
  {
    var x, a, b := Value(Plain("x"), 1.0, map["p" := 1]), Value(Plain("a"), 2.0, map[]), Value(Plain("b"), 2.0, map[]);
    vs, ws := [x, a, b], [a, b, x];
    assert x.base != a.base && a.base != b.base && x.base != b.base by {
      assert "x"[0] != "a"[0] && "a"[0] != "b"[0] && "x"[0] != "b"[0];
    }
    assert Elems(vs) == {x, a, b} == Elems(ws);
    OlderCountsFirst(x, a, b);
  }

  lemma OlderCountsFirst(x: Value, a: Value, b: Value)
    requires x.base != Contradiction && a.base != Contradiction && b.base != Contradiction
    requires x.walltime < a.walltime == b.walltime && "p" in x.clock && a.clock == b.clock == map[]
    ensures Fold([x, a, b]).clock != Fold([a, b, x]).clock
  {
    FoldThree(x, a, b);
    FoldThree(a, b, x);
    assert "p" in Combine(x, a).clock && "p" in Combine(Combine(x, a), b).clock;
    assert Combine(a, b).base == Contradiction && "p" !in Combine(a, b).clock;
  }

  // ---- The reduction as it runs ----

  method Strongest(values: seq<Value>) returns (strongest: Option<Value>)
    ensures values == [] <==> strongest == None
    ensures strongest.Some? ==> Wins(values, strongest.value.base, strongest.value.walltime)
    ensures strongest.Some? ==> strongest.value == Fold(values)
  {
    if |values| == 0 { return None; }
    var acc := values[0];
    for i := 1 to |values|
      invariant acc == Fold(values[..i])
    {
      assert values[..i + 1][..i] == values[..i];
      var v := values[i];
      if acc.base == Contradiction {
        if v.walltime > acc.walltime {
          acc := MergeClockFrom(v, acc);
        }
      } else if v.walltime > acc.walltime {
        acc := MergeClockFrom(v, acc);
      } else if v.walltime < acc.walltime {
        acc := MergeClockFrom(acc, v);
      } else {
        acc := Value(Contradiction, acc.walltime, Join(acc.clock, v.clock));
      }
    }
    assert values[..|values|] == values;
    FoldWins(values);
    strongest := Some(acc);
  }
}
