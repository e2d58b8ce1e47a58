// One client session: every pushed delta updates the slot map and the card structure, and
// the two stay in step over every run.
module PushSession {
  import opened Common
  import opened Slots = SlotMap
  import opened CardStore
  import opened CardSync
  import opened CardRegistry

  /** The slot map after a delta: removals first, then the new slots. */
  function Merged(delta: CardsDelta, m: SlotMap): SlotMap {
    map k | k in m.Keys + delta.slots.Keys && (k in delta.slots || k !in delta.remove) ::
      if k in delta.slots then delta.slots[k] else m[k]
  }

  /** Slot maps that keep the client's side of the protocol, after every delta of a run. */
  ghost predicate WellFormedRun(m: SlotMap, deltas: seq<CardsDelta>)
    decreases |deltas|
  {
    WellFormed(m) && (deltas == [] || WellFormedRun(Merged(deltas[0], m), deltas[1..]))
  }

  function MergedAll(m: SlotMap, deltas: seq<CardsDelta>): SlotMap
    decreases |deltas|
  {
    if deltas == [] then m else MergedAll(Merged(deltas[0], m), deltas[1..])
  }

  class Session {
    var slotMap: SlotMap
    const registry: Registry

    ghost predicate Valid()
      reads this, registry
    {
      registry.Valid() && WellFormed(slotMap) && Realises(registry.Contents(), slotMap)
    }

    constructor ()
      ensures Valid() && slotMap == map[] && fresh(registry)
    {
      slotMap := map[];
      registry := new Registry();
      new;
      EmptyRealises();
    }

    /** Apply one delta; `ok` means that no card operation threw. */
    method PushDeltas(delta: CardsDelta) returns (ok: bool)
      requires Valid()
      modifies this, registry
      ensures exists p ::
        && IsPrintedDiff(old(slotMap), Merged(delta, old(slotMap)), p)
        && (ok <==> PhasesApplicable(Merged(delta, old(slotMap)), p))
      ensures SeparatorFree(Merged(delta, old(slotMap))) ==>
        (ok <==> Applicable(old(slotMap), Merged(delta, old(slotMap))))
      ensures SeparatorFree(Merged(delta, old(slotMap))) ==>
        (ok <==> EveryEventHasItsCards(old(slotMap), Merged(delta, old(slotMap))))
      ensures WellFormed(Merged(delta, old(slotMap))) ==> ok && Valid() && Mirrors(registry.Contents(), slotMap)
      ensures slotMap == if ok then Merged(delta, old(slotMap)) else old(slotMap)
    {
      var next := ApplyCardsDelta(delta, slotMap);
      assert next == Merged(delta, slotMap);
      var events := DiffSlotMaps(slotMap, next);
      ghost var p :|
        && PrintedDiffedBy(slotMap, next, p, events)
        && (SeparatorFree(slotMap) && SeparatorFree(next) ==> DiffedBy(slotMap, next, p, events));
      ghost var before := registry.Contents();
      ghost var done;
      ok, done := registry.ApplyEvents(events);
      PushOutcome(before, slotMap, next, p, events);
      if ok {
        slotMap := next;
      }
    }

    /** A whole stream of deltas. */
    method PushAll(deltas: seq<CardsDelta>) returns (ok: bool)
      requires Valid() && WellFormedRun(slotMap, deltas)
      modifies this, registry
      ensures ok && Valid() && slotMap == MergedAll(old(slotMap), deltas)
    {
      ok := true;
      for i := 0 to |deltas|
        invariant ok && Valid() && WellFormedRun(slotMap, deltas[i..])
        invariant MergedAll(slotMap, deltas[i..]) == MergedAll(old(slotMap), deltas)
      {
        assert deltas[i..][0] == deltas[i] && deltas[i..][1..] == deltas[i + 1..];
        assert WellFormed(Merged(deltas[i], slotMap));
        ok := PushDeltas(deltas[i]);
      }
    }
  }

  // ---- Exactly when a push succeeds ----

  /** Every new edge joins cards with keys of their own, and every changed code belongs to a
      card with a name. */
  ghost predicate Applicable(prev: SlotMap, next: SlotMap) {
    EdgesHaveCards(prev, next) && CodesHaveCards(prev, next)
  }

  ghost predicate EdgesHaveCards(prev: SlotMap, next: SlotMap) {
    forall e :: e in EdgeSet(next) - EdgeSet(prev) ==> e.fromId in CardIds(next) && e.toId in CardIds(next)
  }

  ghost predicate CodesHaveCards(prev: SlotMap, next: SlotMap) {
    forall k :: k in next && CodeChanged(prev, next, k) ==> CardOf(k) != ""
  }

  /** The events of a diff, run on a structure that realises the old map. */
  lemma PushOutcome(s: Store, prev: SlotMap, next: SlotMap, p: Phases, events: seq<Event>)
    requires Realises(s, prev) && WellFormed(prev) && PrintedDiffedBy(prev, next, p, events)
    requires SeparatorFree(prev) && SeparatorFree(next) ==> DiffedBy(prev, next, p, events)
    ensures var r := ApplyAll(s, events);
      && (r.Done? <==> PhasesApplicable(next, p))
      && (SeparatorFree(next) ==> (r.Done? <==> Applicable(prev, next)))
      && (SeparatorFree(next) ==> (r.Done? <==> EveryEventHasItsCards(prev, next)))
      && (WellFormed(next) ==> r.Done? && Realises(r.result, next) && Mirrors(r.result, next))
  {
    PhasesRunIff(s, prev, next, p);
    if SeparatorFree(next) { SucceedsIff(s, prev, next, p); }
    ApplicableExact(prev, next);
    if WellFormed(next) {
      var t := Simulation(s, prev, next, p);
      RealisesMirrors(t, next);
    }
  }

  /** `Applicable`, by the entries of the maps. */
  ghost predicate EveryEventHasItsCards(prev: SlotMap, next: SlotMap) {
    && (forall e :: HasEdge(next, e) && !HasEdge(prev, e) ==> HasCard(next, e.fromId) && HasCard(next, e.toId))
    && forall k, card, ref :: SendsCode(prev, next, k, card, ref) ==> card != ""
  }

  lemma ApplicableExact(prev: SlotMap, next: SlotMap)
    ensures Applicable(prev, next) <==> EveryEventHasItsCards(prev, next)
  {
    EdgesExact(prev);
    EdgesExact(next);
    CardsExact(next);
    forall k, card, ref ensures SendsCode(prev, next, k, card, ref) <==>
      k in next && CodeChanged(prev, next, k) && CardOf(k) == card && next[k] == ref
    {
      ParseExact(k, card, "code");
    }
    forall k | k in next && CodeChanged(prev, next, k) ensures SendsCode(prev, next, k, CardOf(k), next[k]) {
    }
  }

  lemma {:induction false} RemovesRun(s: Store, xs: seq<string>) returns (t: Store)
    requires NoDup(xs) && Elems(xs) <= s.cards.Keys
    ensures ApplyAll(s, RemoveEvents(xs)) == Done(t) && t.cards.Keys == s.cards.Keys - Elems(xs)
    decreases |xs|
  {
    if xs == [] {
      t := s;
    } else {
      FirstAndRest(xs);
      assert RemoveEvents(xs)[1..] == RemoveEvents(xs[1..]);
      t := RemovesRun(Remove(s, xs[0]).result, xs[1..]);
    }
  }

  lemma {:induction false} AddsRun(s: Store, xs: seq<string>) returns (t: Store)
    ensures ApplyAll(s, AddEvents(xs)) == Done(t) && t.cards.Keys == s.cards.Keys + Elems(xs)
    decreases |xs|
  {
    if xs == [] {
      t := s;
    } else {
      assert AddEvents(xs)[1..] == AddEvents(xs[1..]);
      assert Elems(xs) == {xs[0]} + Elems(xs[1..]);
      t := AddsRun(Add(s, xs[0]), xs[1..]);
    }
  }

  lemma {:induction false} ConnectsRunIff(s: Store, es: seq<Edge>)
    requires forall e :: e in es ==> IsStructural(e)
    ensures ApplyAll(s, ConnectEvents(es)).Done? <==> forall e :: e in es ==> e.fromId in s.cards && e.toId in s.cards
    ensures var r := ApplyAll(s, ConnectEvents(es)); r.Done? ==> r.result.cards.Keys == s.cards.Keys
    decreases |es|
  {
    if es != [] {
      var e := es[0];
      assert forall e' :: e' in es <==> e' == e || e' in es[1..];
      assert ConnectEvents(es)[1..] == ConnectEvents(es[1..]);
      assert e in es && e.fromSlot in TRACKED && e.toSlot in TRACKED;
      if e.fromId in s.cards && e.toId in s.cards {
        var t := Connect(s, e.fromId, e.toId, e.fromSlot, e.toSlot).result;
        assert t.cards.Keys == s.cards.Keys;
        ConnectsRunIff(t, es[1..]);
      }
    }
  }

  lemma {:induction false} UpdatesRunIff(s: Store, next: SlotMap, keys: seq<string>)
    requires forall i :: 0 <= i < |keys| ==> keys[i] in next
    ensures ApplyAll(s, UpdateEvents(next, keys)).Done? <==> forall k :: k in keys ==> CardOf(k) in s.cards
    decreases |keys|
  {
    if keys != [] {
      assert forall k :: k in keys <==> k == keys[0] || k in keys[1..];
      assert UpdateEvents(next, keys)[1..] == UpdateEvents(next, keys[1..]);
      if CardOf(keys[0]) in s.cards {
        var t := Update(s, CardOf(keys[0]), next[keys[0]].signature).result;
        assert t.cards.Keys == s.cards.Keys;
        UpdatesRunIff(t, next, keys[1..]);
      }
    }
  }

  /** What holds of the phases whether or not printed forms identify edges. */
  ghost predicate ArePhases(prev: SlotMap, next: SlotMap, p: Phases) {
    && NoDup(p.detached) && Elems(p.detached) <= EdgeSet(prev)
    && Lists(p.removed, CardIds(prev) - CardIds(next))
    && Lists(p.added, CardIds(next) - CardIds(prev))
    && (forall e :: e in p.connected ==> e in EdgeSet(next))
    && Lists(p.updated, ChangedCodes(prev, next))
    && forall i :: 0 <= i < |p.updated| ==> p.updated[i] in next
  }

  /** Detaching, removing and adding never throw. */
  lemma FirstPhasesRun(s: Store, prev: SlotMap, next: SlotMap, p: Phases) returns (t: Store)
    requires Structure(s, CardIds(prev), EdgeSet(prev)) && ArePhases(prev, next, p)
    ensures ApplyAll(s, DetachEvents(p.detached) + RemoveEvents(p.removed) + AddEvents(p.added)) == Done(t)
    ensures t.cards.Keys == CardIds(next)
  {
    var s1 := DetachPhase(s, CardIds(prev), EdgeSet(prev), p.detached);
    var s2 := RemovesRun(s1, p.removed);
    t := AddsRun(s2, p.added);
    ApplyAppend(s, DetachEvents(p.detached), RemoveEvents(p.removed));
    ApplyAppend(s, DetachEvents(p.detached) + RemoveEvents(p.removed), AddEvents(p.added));
  }

  /** The edges to be connected join cards with keys of their own, and the codes to be sent
      belong to cards with a name. */
  ghost predicate PhasesApplicable(next: SlotMap, p: Phases) {
    && (forall e :: e in p.connected ==> e.fromId in CardIds(next) && e.toId in CardIds(next))
    && forall k :: k in p.updated ==> CardOf(k) != ""
  }

  lemma ConnectsApplicable(s: Store, next: SlotMap, es: seq<Edge>)
    requires s.cards.Keys == CardIds(next) && forall e :: e in es ==> e in EdgeSet(next)
    ensures var r := ApplyAll(s, ConnectEvents(es));
      && (r.Done? <==> forall e :: e in es ==> e.fromId in CardIds(next) && e.toId in CardIds(next))
      && (r.Done? ==> r.result.cards.Keys == CardIds(next))
  {
    EdgesAreStructural(next);
    ConnectsRunIff(s, es);
  }

  lemma UpdatesApplicable(s: Store, next: SlotMap, keys: seq<string>)
    requires s.cards.Keys == CardIds(next) && forall i :: 0 <= i < |keys| ==> keys[i] in next
    ensures ApplyAll(s, UpdateEvents(next, keys)).Done? <==> forall k :: k in keys ==> CardOf(k) != ""
  {
    UpdatesRunIff(s, next, keys);
    forall k | k in keys ensures CardOf(k) in CardIds(next) <==> CardOf(k) != "" {
      NamedKeys(next, k);
    }
  }

  lemma NamedKeys(m: SlotMap, k: string)
    requires k in m
    ensures CardOf(k) in CardIds(m) <==> CardOf(k) != ""
  {
  }

  /** From a structure that realises `prev`, the phases go through exactly when they are
      applicable. */
  lemma PhasesRunIff(s: Store, prev: SlotMap, next: SlotMap, p: Phases)
    requires Realises(s, prev) && ArePhases(prev, next, p)
    ensures ApplyAll(s, EventsOf(next, p)).Done? <==> PhasesApplicable(next, p)
  {
    var first := DetachEvents(p.detached) + RemoveEvents(p.removed) + AddEvents(p.added);
    var connects, updates := ConnectEvents(p.connected), UpdateEvents(next, p.updated);
    var t := FirstPhasesRun(s, prev, next, p);
    ConnectsApplicable(t, next, p.connected);
    ApplyAppend(s, first, connects);
    ApplyAppend(s, first + connects, updates);
    if ApplyAll(t, connects).Done? {
      UpdatesApplicable(ApplyAll(t, connects).result, next, p.updated);
    }
    assert EventsOf(next, p) == first + connects + updates;
  }

  /** For the phases of a diff of edge sets, that depends on the two maps alone. */
  lemma SucceedsIff(s: Store, prev: SlotMap, next: SlotMap, p: Phases)
    requires Realises(s, prev) && IsDiff(prev, next, p)
    requires forall i :: 0 <= i < |p.updated| ==> p.updated[i] in next
    ensures ApplyAll(s, EventsOf(next, p)).Done? <==> Applicable(prev, next)
  {
    DiffIsPhases(prev, next, p);
    ApplicableIff(prev, next, p);
    PhasesRunIff(s, prev, next, p);
  }

  lemma DiffIsPhases(prev: SlotMap, next: SlotMap, p: Phases)
    requires IsDiff(prev, next, p) && forall i :: 0 <= i < |p.updated| ==> p.updated[i] in next
    ensures ArePhases(prev, next, p)
  {
    MembersOf(p.detached, EdgeSet(prev) - EdgeSet(next));
    MembersOf(p.connected, EdgeSet(next) - EdgeSet(prev));
  }

  lemma ApplicableIff(prev: SlotMap, next: SlotMap, p: Phases)
    requires IsDiff(prev, next, p)
    ensures PhasesApplicable(next, p) <==> Applicable(prev, next)
  {
    MembersOf(p.connected, EdgeSet(next) - EdgeSet(prev));
    MembersOf(p.updated, ChangedCodes(prev, next));
  }

  lemma MembersOf<T>(xs: seq<T>, s: set<T>)
    requires Lists(xs, s)
    ensures forall x :: x in xs <==> x in s
  {
    assert forall x :: x in Elems(xs) <==> x in xs;
  }
}
