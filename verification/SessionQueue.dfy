// The queue of a session: messages are pushed by the runtime while one stream waits for
// them, with a timeout, and yields them. Every step below runs without interruption up to
// the next await or yield; any interleaving of steps is a run.
module SessionQueue {
  import opened Common

  type Msg = string

  datatype Output = Card(msg: Msg) | Heartbeat

  datatype Promise = Pending | Resolved(hasMessage: bool)

  /** Where the stream is suspended: not started, at a yielded heartbeat, at a yielded card
      message, at an await, or finished. */
  datatype Place = Fresh | AtHeartbeat | AtCard | Awaiting | Closed

  /** `waiter`: a resolver is registered; `timer`: its timeout is running. */
  datatype State = State(queue: seq<Msg>, waiter: bool, timer: bool, promise: Promise, place: Place, aborted: bool,
                         pushed: seq<Msg>, yielded: seq<Output>)

  /** A session whose stream has not started; messages may be there already. */
  function Initial(queue: seq<Msg>): State {
    State(queue, false, false, Resolved(false), Fresh, false, queue, [])
  }

  datatype Action = Push(messages: seq<Msg>) | Timeout | Abort | Move | Return

  predicate Enabled(s: State, a: Action) {
    match a
    case Push(_) => true
    case Timeout => s.timer
    case Abort => true
    case Move => s.place != Closed && (s.place == Awaiting ==> s.promise.Resolved?)
    case Return => s.place == Fresh || s.place == AtHeartbeat || s.place == AtCard
  }

  function Step(s: State, a: Action): State
    requires Enabled(s, a)
  {
    match a
    case Push(ms) =>
      var t := s.(queue := s.queue + ms, pushed := s.pushed + ms);
      if s.waiter then t.(waiter := false, timer := false, promise := Resolved(true)) else t
    case Timeout => s.(waiter := false, timer := false, promise := Resolved(false))
    case Abort => s.(aborted := true)
    case Return => s.(place := Closed)
    case Move =>
      match s.place
      case Fresh => Beat(s)
      case AtHeartbeat => LoopHead(s)
      case AtCard => if !s.aborted && s.queue != [] then YieldFirst(s) else LoopHead(s)
      case Awaiting =>
        if s.aborted then s.(place := Closed)
        else if s.promise.hasMessage && s.queue != [] then YieldFirst(s)
        else Beat(s)
  }

  function Beat(s: State): State {
    s.(place := AtHeartbeat, yielded := s.yielded + [Heartbeat])
  }

  function YieldFirst(s: State): State
    requires s.queue != []
  {
    s.(place := AtCard, queue := s.queue[1..], yielded := s.yielded + [Card(s.queue[0])])
  }

  /** Stop when aborted, otherwise start to wait: with messages there already, the promise
      is resolved at once and no waiter is registered. */
  function LoopHead(s: State): State {
    if s.aborted then s.(place := Closed)
    else if s.queue != [] then s.(place := Awaiting, promise := Resolved(true))
    else s.(place := Awaiting, promise := Pending, waiter := true, timer := true)
  }

  ghost predicate IsRun(s: State, actions: seq<Action>)
    decreases |actions|
  {
    actions == [] || (Enabled(s, actions[0]) && IsRun(Step(s, actions[0]), actions[1..]))
  }

  function Final(s: State, actions: seq<Action>): State
    requires IsRun(s, actions)
    decreases |actions|
  {
    if actions == [] then s else Final(Step(s, actions[0]), actions[1..])
  }

  // ---- No message is lost ----

  function Cards(outputs: seq<Output>): seq<Msg> {
    if outputs == [] then [] else
      Cards(outputs[..|outputs| - 1]) + match outputs[|outputs| - 1] case Card(m) => [m] case Heartbeat => []
  }

  lemma CardsOfAppend(outputs: seq<Output>, o: Output)
    ensures Cards(outputs + [o]) == Cards(outputs) + match o case Card(m) => [m] case Heartbeat => []
  {
    assert (outputs + [o])[..|outputs|] == outputs;
  }

  /** What has been yielded, followed by the queue, is what has been pushed. A registered
      waiter has a running timeout and a pending promise that the stream awaits, and the
      queue is empty. */
  predicate Inv(s: State) {
    && Cards(s.yielded) + s.queue == s.pushed
    && (s.waiter ==> s.queue == [])
    && s.waiter == s.timer
    && (s.waiter <==> s.place == Awaiting && s.promise == Pending)
  }

  lemma StepInv(s: State, a: Action)
    requires Inv(s) && Enabled(s, a)
    ensures Inv(Step(s, a))
  {
    match a {
      case Push(ms) => assert Cards(s.yielded) + (s.queue + ms) == (Cards(s.yielded) + s.queue) + ms;
      case Move => MoveInv(s);
      case _ =>
    }
  }

  lemma MoveInv(s: State)
    requires Inv(s) && Enabled(s, Move)
    ensures Inv(Step(s, Move))
  {
    BeatInv(s);
    LoopHeadInv(s);
    if s.queue != [] { YieldInv(s); }
  }

  lemma BeatInv(s: State)
    requires Inv(s) && !s.waiter
    ensures Inv(Beat(s)) && Cards(Beat(s).yielded) == Cards(s.yielded)
  {
    CardsOfAppend(s.yielded, Heartbeat);
  }

  lemma YieldInv(s: State)
    requires Inv(s) && !s.waiter && s.queue != []
    ensures Inv(YieldFirst(s)) && Cards(YieldFirst(s).yielded) == Cards(s.yielded) + [s.queue[0]]
  {
    CardsOfAppend(s.yielded, Card(s.queue[0]));
    assert Cards(s.yielded) + [s.queue[0]] + s.queue[1..] == Cards(s.yielded) + s.queue;
  }

  /** Starting to wait loses no wakeup: a waiter is registered exactly when there is nothing
      to wake it for, and it is registered with its timer. */
  lemma LoopHeadInv(s: State)
    requires Inv(s) && !s.waiter
    ensures Inv(LoopHead(s)) && LoopHead(s).queue == s.queue && LoopHead(s).yielded == s.yielded
    ensures LoopHead(s).waiter <==> !s.aborted && s.queue == []
    ensures !s.aborted ==> (LoopHead(s).promise == Resolved(true) <==> s.queue != [])
  {
  }

  lemma {:induction false} RunInv(s: State, actions: seq<Action>)
    requires Inv(s) && IsRun(s, actions)
    ensures Inv(Final(s, actions))
    decreases |actions|
  {
    if actions != [] {
      StepInv(s, actions[0]);
      RunInv(Step(s, actions[0]), actions[1..]);
    }
  }

  function Pushes(actions: seq<Action>): seq<Msg> {
    if actions == [] then []
    else (match actions[0] case Push(ms) => ms case _ => []) + Pushes(actions[1..])
  }

  lemma {:induction false} PushedIsPushes(s: State, actions: seq<Action>)
    requires IsRun(s, actions)
    ensures Final(s, actions).pushed == s.pushed + Pushes(actions)
    decreases |actions|
  {
    if actions != [] {
      var a := actions[0];
      PushedIsPushes(Step(s, a), actions[1..]);
      assert s.pushed + Pushes(actions) == (s.pushed + match a case Push(ms) => ms case _ => []) + Pushes(actions[1..]);
    }
  }

  /** In every run: yielded card messages, then the queue, are all messages of the start and
      of the pushes, in order. */
  lemma NoMessageLost(queue: seq<Msg>, actions: seq<Action>)
    requires IsRun(Initial(queue), actions)
    ensures var s := Final(Initial(queue), actions);
      Cards(s.yielded) + s.queue == queue + Pushes(actions) && (s.waiter ==> s.queue == [])
  {
    assert Cards([]) + queue == queue;
    RunInv(Initial(queue), actions);
    PushedIsPushes(Initial(queue), actions);
  }

  // ---- No wakeup is lost ----

  /** Moves of the stream until it yields the next card message. */
  function Distance(s: State): nat {
    match s.place
    case Fresh => 3
    case AtHeartbeat => 2
    case AtCard => 1
    case Awaiting => if s.promise == Resolved(true) then 1 else 3
    case Closed => 0
  }

  predicate Due(s: State) {
    Inv(s) && s.queue != [] && s.place != Closed && !s.aborted
  }

  /** With a message in the queue the stream can always move, and each move brings the first
      message nearer until it is yielded. */
  lemma MoveDelivers(s: State)
    requires Due(s)
    ensures Enabled(s, Move)
    ensures var t := Step(s, Move);
      if Distance(s) == 1 then t.yielded == s.yielded + [Card(s.queue[0])] && t.queue == s.queue[1..]
      else Due(t) && t.queue == s.queue && Distance(t) == Distance(s) - 1
  {
    StepInv(s, Move);
  }

  /** Nothing the others do takes the message further away. */
  lemma OthersKeepDistance(s: State, a: Action)
    requires Due(s) && Enabled(s, a) && (a.Push? || a.Timeout?)
    ensures Due(Step(s, a)) && Distance(Step(s, a)) == Distance(s)
    ensures Step(s, a).yielded == s.yielded && s.queue <= Step(s, a).queue
  {
    StepInv(s, a);
  }

  function Moves(actions: seq<Action>): nat {
    if actions == [] then 0 else (if actions[0].Move? then 1 else 0) + Moves(actions[1..])
  }

  /** However pushes and timeouts interleave, three moves are enough for the next message. */
  lemma {:induction false} NextMessageArrives(s: State, actions: seq<Action>)
    requires Due(s) && IsRun(s, actions) && Moves(actions) >= Distance(s)
    requires forall a :: a in actions ==> a.Move? || a.Push? || a.Timeout?
    ensures Distance(s) <= 3
    ensures Cards(s.yielded) + [s.queue[0]] <= Cards(Final(s, actions).yielded)
    decreases |actions|
  {
    var a := actions[0];
    var t := Step(s, a);
    assert forall x :: x in actions[1..] ==> x in actions;
    if a.Move? {
      MoveDelivers(s);
      if Distance(s) == 1 {
        CardsOfAppend(s.yielded, Card(s.queue[0]));
        YieldedGrows(t, actions[1..]);
      } else {
        assert t.yielded == s.yielded + [Heartbeat] || t.yielded == s.yielded;
        CardsOfAppend(s.yielded, Heartbeat);
        NextMessageArrives(t, actions[1..]);
      }
    } else {
      OthersKeepDistance(s, a);
      NextMessageArrives(t, actions[1..]);
    }
  }

  lemma {:induction false} YieldedGrows(s: State, actions: seq<Action>)
    requires IsRun(s, actions)
    ensures Cards(s.yielded) <= Cards(Final(s, actions).yielded)
    decreases |actions|
  {
    if actions != [] {
      StepYields(s, actions[0]);
      YieldedGrows(Step(s, actions[0]), actions[1..]);
    }
  }

  lemma StepYields(s: State, a: Action)
    requires Enabled(s, a)
    ensures Cards(s.yielded) <= Cards(Step(s, a).yielded)
  {
    CardsOfAppend(s.yielded, Heartbeat);
    if s.queue != [] { CardsOfAppend(s.yielded, Card(s.queue[0])); }
  }

  // ---- The session as it runs ----

  class Session {
    var queue: seq<Msg>
    var resolveWait: bool
    var timer: bool
    var promise: Promise
    var place: Place
    var aborted: bool
    var yielded: seq<Output>
    ghost var pushed: seq<Msg>

    ghost function Contents(): State
      reads this
    {
      State(queue, resolveWait, timer, promise, place, aborted, pushed, yielded)
    }

    ghost predicate Valid()
      reads this
    {
      Inv(Contents())
    }

    constructor ()
      ensures Valid() && Contents() == Initial([])
    {
      queue, pushed, yielded := [], [], [];
      resolveWait, timer, promise := false, false, Resolved(false);
      place, aborted := Fresh, false;
    }

    /** Append messages and wake the waiter, if there is one. */
    method PushMessages(messages: seq<Msg>)
      requires Valid()
      modifies this
      ensures Valid() && Contents() == Step(old(Contents()), Push(messages))
    {
      StepInv(Contents(), Push(messages));
      queue, pushed := queue + messages, pushed + messages;
      if resolveWait {
        resolveWait := false;
        timer, promise := false, Resolved(true);
      }
    }

    method TimeOut()
      requires Valid() && timer
      modifies this
      ensures Valid() && Contents() == Step(old(Contents()), Timeout)
    {
      StepInv(Contents(), Timeout);
      resolveWait, timer, promise := false, false, Resolved(false);
    }

    method WaitForMessageOrTimeout()
      modifies `promise, `resolveWait, `timer
      ensures if queue != [] then promise == Resolved(true) && resolveWait == old(resolveWait) && timer == old(timer)
              else promise == Pending && resolveWait && timer
    {
      if |queue| > 0 {
        promise := Resolved(true);
      } else {
        promise, resolveWait, timer := Pending, true, true;
      }
    }

    method WaitOrStop()
      modifies `promise, `resolveWait, `timer, `place
      ensures Contents() == LoopHead(old(Contents()))
    {
      if aborted {
        place := Closed;
      } else {
        WaitForMessageOrTimeout();
        place := Awaiting;
      }
    }

    method YieldHeartbeat() returns (output: Option<Output>)
      modifies `place, `yielded
      ensures Contents() == Beat(old(Contents())) && output == Some(Heartbeat)
    {
      output := Some(Heartbeat);
      place, yielded := AtHeartbeat, yielded + [Heartbeat];
    }

    method YieldCard() returns (output: Option<Output>)
      requires queue != []
      modifies `place, `queue, `yielded
      ensures Contents() == YieldFirst(old(Contents())) && output == Some(Card(old(queue)[0]))
    {
      output := Some(Card(queue[0]));
      place, queue, yielded := AtCard, queue[1..], yielded + [Card(queue[0])];
    }

    /** Run the stream from where it is suspended to its next suspension. */
    method Resume() returns (output: Option<Output>)
      requires Valid() && Enabled(Contents(), Move)
      modifies this
      ensures Valid() && Contents() == Step(old(Contents()), Move)
      ensures yielded == old(yielded) + match output case Some(o) => [o] case None => []
    {
      MoveInv(Contents());
      output := None;
      match place {
        case Fresh => output := YieldHeartbeat();
        case AtHeartbeat => WaitOrStop();
        case AtCard =>
          if !aborted && |queue| > 0 {
            output := YieldCard();
          } else {
            WaitOrStop();
          }
        case Awaiting =>
          if aborted {
            place := Closed;
          } else if promise.hasMessage && |queue| > 0 {
            output := YieldCard();
          } else {
            output := YieldHeartbeat();
          }
      }
    }
  }
}
