// A bridge from push calls to an async iterable with one consumer. `None` is the undefined
// value, which the bridge also uses as its sign that the queue is empty.
module PushIterable {
  import opened Common

  /** The consumer is between calls, awaits a wakeup, or has been woken and not yet run. */
  datatype Place = Idle | Waiting | Woken

  datatype State<T> = State(queue: seq<Option<T>>, closed: bool, waiter: bool, place: Place, done: bool,
                            accepted: seq<Option<T>>, delivered: seq<T>)

  function Initial<T>(): State<T> {
    State([], false, false, Idle, false, [], [])
  }

  datatype Action<T> = Push(value: Option<T>) | Close | Call | Resume

  predicate Enabled<T>(s: State<T>, a: Action<T>) {
    match a
    case Push(_) => true
    case Close => true
    case Call => s.place == Idle && !s.done
    case Resume => s.place == Woken
  }

  function Notify<T>(s: State<T>): State<T> {
    if s.waiter then s.(waiter := false, place := Woken) else s
  }

  function Step<T>(s: State<T>, a: Action<T>): State<T>
    requires Enabled(s, a)
  {
    match a
    case Push(v) => if s.closed then s else Notify(s.(queue := s.queue + [v], accepted := s.accepted + [v]))
    case Close => Notify(s.(closed := true))
    case Call => Turn(s)
    case Resume => Turn(s)
  }

  /** One round of the loop in next(): take a value; without one, report the end or wait. */
  function Turn<T>(s: State<T>): State<T> {
    if s.queue != [] && s.queue[0].Some?
    then s.(queue := s.queue[1..], place := Idle, delivered := s.delivered + [s.queue[0].value])
    else
      var rest := if s.queue == [] then [] else s.queue[1..];
      if s.closed then s.(queue := rest, place := Idle, done := true)
      else if rest != [] then s.(queue := rest, place := Woken)
      else s.(queue := rest, place := Waiting, waiter := true)
  }

  ghost predicate IsRun<T>(s: State<T>, actions: seq<Action<T>>)
    decreases |actions|
  {
    actions == [] || (Enabled(s, actions[0]) && IsRun(Step(s, actions[0]), actions[1..]))
  }

  function Final<T>(s: State<T>, actions: seq<Action<T>>): State<T>
    requires IsRun(s, actions)
    decreases |actions|
  {
    if actions == [] then s else Final(Step(s, actions[0]), actions[1..])
  }

  // ---- Values ----

  function Defined<T>(values: seq<Option<T>>): seq<T> {
    if values == [] then []
    else (match values[0] case Some(v) => [v] case None => []) + Defined(values[1..])
  }

  lemma {:induction false} DefinedOfAppend<T>(x: seq<Option<T>>, y: seq<Option<T>>)
    ensures Defined(x + y) == Defined(x) + Defined(y)
    decreases |x|
  {
    if x == [] {
      assert x + y == y;
    } else {
      assert (x + y)[1..] == x[1..] + y;
      DefinedOfAppend(x[1..], y);
    }
  }

  /** The values before the first undefined one, and those after it. */
  function Before<T>(values: seq<Option<T>>): seq<T> {
    if values == [] || values[0].None? then [] else [values[0].value] + Before(values[1..])
  }

  function After<T>(values: seq<Option<T>>): seq<Option<T>> {
    if values == [] then [] else if values[0].None? then values[1..] else After(values[1..])
  }

  lemma {:induction false} BeforeAndAfter<T>(values: seq<Option<T>>)
    ensures Defined(values) == Before(values) + Defined(After(values))
  {
    if values != [] && values[0].Some? {
      BeforeAndAfter(values[1..]);
    }
  }

  // ---- Invariant ----

  /** Nothing but undefined values is dropped; whoever waits has a reason to. */
  predicate Inv<T(==)>(s: State<T>) {
    && s.delivered + Defined(s.queue) == Defined(s.accepted)
    && (s.waiter <==> s.place == Waiting)
    && (s.waiter ==> s.queue == [] && !s.closed)
    && (s.done ==> s.closed && s.place == Idle)
  }

  lemma StepInv<T>(s: State<T>, a: Action<T>)
    requires Inv(s) && Enabled(s, a)
    ensures Inv(Step(s, a))
  {
    match a {
      case Push(v) => PushInv(s, v);
      case Close =>
      case _ => TurnInv(s);
    }
  }

  lemma PushInv<T>(s: State<T>, v: Option<T>)
    requires Inv(s)
    ensures Inv(Step(s, Push(v)))
  {
    DefinedOfAppend(s.queue, [v]);
    DefinedOfAppend(s.accepted, [v]);
    assert s.delivered + (Defined(s.queue) + Defined([v])) == (s.delivered + Defined(s.queue)) + Defined([v]);
  }

  lemma TurnInv<T>(s: State<T>)
    requires Inv(s) && !s.waiter && !s.done
    ensures Inv(Turn(s))
  {
    if s.queue != [] && s.queue[0].Some? {
      assert s.delivered + Defined(s.queue) == s.delivered + [s.queue[0].value] + Defined(s.queue[1..]);
    }
  }

  /** A push wakes a waiting consumer, and the value pushed is the next one it gets: nothing
      was queued before it. */
  lemma WakesForValue<T>(s: State<T>, v: T)
    requires Inv(s) && s.place == Waiting
    ensures var t := Step(s, Push(Some(v)));
      t.place == Woken && !t.waiter && Step(t, Resume).delivered == s.delivered + [v] && Step(t, Resume).place == Idle
  {
    assert [] + [Some(v)] == [Some(v)];
  }

  /** Closing wakes it as well, and it then learns of the end. */
  lemma WakesForEnd<T>(s: State<T>)
    requires Inv(s) && s.place == Waiting
    ensures var t := Step(s, Close);
      t.place == Woken && Step(t, Resume).done && Step(t, Resume).delivered == s.delivered
  {
  }

  lemma {:induction false} RunInv<T>(s: State<T>, actions: seq<Action<T>>)
    requires Inv(s) && IsRun(s, actions)
    ensures Inv(Final(s, actions))
    decreases |actions|
  {
    if actions != [] {
      StepInv(s, actions[0]);
      RunInv(Step(s, actions[0]), actions[1..]);
    }
  }

  /** In every run the defined values come out in the order in which they were accepted, and
      a waiting consumer has nothing to wait for in the queue. */
  lemma DeliversInOrder<T>(actions: seq<Action<T>>)
    requires IsRun(Initial(), actions)
    ensures var s := Final(Initial(), actions);
      s.delivered + Defined(s.queue) == Defined(s.accepted) && (s.place == Waiting ==> s.queue == [] && !s.closed)
  {
    RunInv(Initial(), actions);
  }

  // ---- What is delivered before the end ----

  lemma {:induction false} AfterClose<T>(s: State<T>, actions: seq<Action<T>>)
    requires Inv(s) && s.closed && !s.done && IsRun(s, actions) && Final(s, actions).done
    ensures Final(s, actions).delivered == s.delivered + Before(s.queue)
    ensures Final(s, actions).accepted == s.accepted
    decreases |actions|
  {
    var t := Step(s, actions[0]);
    StepInv(s, actions[0]);
    if t.done {
      DoneStays(t, actions[1..]);
    } else {
      AfterClose(t, actions[1..]);
    }
  }

  lemma {:induction false} DoneStays<T>(s: State<T>, actions: seq<Action<T>>)
    requires Inv(s) && s.done && IsRun(s, actions)
    ensures Final(s, actions).delivered == s.delivered && Final(s, actions).accepted == s.accepted
    decreases |actions|
  {
    if actions != [] {
      StepInv(s, actions[0]);
      DoneStays(Step(s, actions[0]), actions[1..]);
    }
  }

  /** When the end is reported after closing in state `s`, every accepted defined value has
      been delivered exactly when none is queued behind an undefined one at the time of
      closing. */
  lemma AllDeliveredIff<T>(s: State<T>, actions: seq<Action<T>>)
    requires Inv(s) && !s.closed && IsRun(Step(s, Close), actions) && Final(Step(s, Close), actions).done
    ensures var t := Final(Step(s, Close), actions);
      t.delivered == Defined(t.accepted) <==> Defined(After(s.queue)) == []
  {
    StepInv(s, Close);
    AfterClose(Step(s, Close), actions);
    BeforeAndAfter(s.queue);
    var t := Final(Step(s, Close), actions);
    assert Defined(t.accepted) == t.delivered + Defined(After(s.queue));
  }

  /** Pushing undefined and 7, closing, and asking once: the end is reported, 7 is lost. */
  lemma UndefinedHidesValues()
    ensures var actions := [Push(None), Push(Some(7)), Close, Call];
      IsRun(Initial(), actions) && Final(Initial(), actions).done && Final(Initial(), actions).delivered == []
  {
    var s0: State<int> := Initial();
    var s1 := Step(s0, Push(None));
    var s2 := Step(s1, Push(Some(7)));
    var s3 := Step(s2, Close);
    var s4 := Step(s3, Call);
    assert s4.done && s4.delivered == [];
    var actions: seq<Action<int>> := [Push(None), Push(Some(7)), Close, Call];
    assert actions[1..] == [Push(Some(7)), Close, Call];
    assert actions[1..][1..] == [Close, Call];
    assert actions[1..][1..][1..] == [Call];
    assert actions[1..][1..][1..][1..] == [];
    assert Final(s4, []) == s4;
    assert IsRun(s3, [Call]) && Final(s3, [Call]) == s4;
    assert IsRun(s2, [Close, Call]) && Final(s2, [Close, Call]) == s4;
    assert IsRun(s1, actions[1..]) && Final(s1, actions[1..]) == s4;
  }

  // ---- The bridge as it runs ----

  class Bridge<T> {
    var queue: seq<Option<T>>
    var closed: bool
    var resolveCurrentWait: bool
    ghost var place: Place
    ghost var done: bool
    ghost var accepted: seq<Option<T>>
    ghost var delivered: seq<T>

    ghost function Contents(): State<T>
      reads this
    {
      State(queue, closed, resolveCurrentWait, place, done, accepted, delivered)
    }

    constructor ()
      ensures Inv(Contents()) && Contents() == Initial()
    {
      queue, closed, resolveCurrentWait := [], false, false;
      place, done, accepted, delivered := Idle, false, [], [];
    }

    method NotifyWaiter()
      modifies `resolveCurrentWait, `place
      ensures Contents() == Notify(old(Contents()))
    {
      if resolveCurrentWait {
        resolveCurrentWait, place := false, Woken;
      }
    }

    method PushValue(value: Option<T>)
      requires Inv(Contents())
      modifies this
      ensures Inv(Contents()) && Contents() == Step(old(Contents()), Push(value))
    {
      StepInv(Contents(), Push(value));
      if closed { return; }
      queue, accepted := queue + [value], accepted + [value];
      NotifyWaiter();
    }

    method CloseQueue()
      requires Inv(Contents())
      modifies this
      ensures Inv(Contents()) && Contents() == Step(old(Contents()), Close)
    {
      StepInv(Contents(), Close);
      closed := true;
      NotifyWaiter();
    }

    /** Run next() until it returns or awaits; `result` is the value, or `ended`. */
    method Next() returns (result: Option<T>, ended: bool)
      requires Inv(Contents()) && (Enabled(Contents(), Call) || Enabled(Contents(), Resume))
      modifies this
      ensures Inv(Contents()) && Contents() == Turn(old(Contents()))
      ensures delivered == old(delivered) + match result case Some(v) => [v] case None => []
      ensures ended == done && (ended ==> result == None)
    {
      TurnInv(Contents());
      result, ended := None, false;
      if |queue| > 0 {
        result := queue[0];
        queue := queue[1..];
      }
      if result.Some? {
        place, delivered := Idle, delivered + [result.value];
      } else if closed {
        ended := true;
        place, done := Idle, true;
      } else if |queue| > 0 || closed {
        place := Woken;
      } else {
        place, resolveCurrentWait := Waiting, true;
      }
    }
  }
}
