// The card and connector structure follows the slot map: events of a diff, applied to a
// structure that realises the old map, never throw and realise the new one.
module CardSync {
  import opened Common
  import opened Slots = SlotMap
  import opened CardStore

  // ---- Applying events ----

  function Apply(s: Store, e: Event): Outcome<Store> {
    match e
    case CardDetach(a, b) => Detach(s, a, b)
    case CardRemove(id) => Remove(s, id)
    case CardAdd(id) => Done(Add(s, id))
    case CardConnect(a, slotA, b, slotB) => Connect(s, a, b, slotA, slotB)
    case CardUpdate(id, ref) => Update(s, id, ref.signature)
  }

  function ApplyAll(s: Store, events: seq<Event>): Outcome<Store>
    decreases |events|
  {
    if events == [] then Done(s)
    else match Apply(s, events[0])
      case Thrown => Thrown
      case Done(t) => ApplyAll(t, events[1..])
  }

  lemma {:induction false} ApplyAppend(s: Store, x: seq<Event>, y: seq<Event>)
    ensures ApplyAll(s, x + y) == match ApplyAll(s, x) case Thrown => Thrown case Done(t) => ApplyAll(t, y)
    decreases |x|
  {
    if x == [] {
      assert x + y == y;
    } else {
      assert (x + y)[1..] == x[1..] + y;
      if Apply(s, x[0]).Done? { ApplyAppend(Apply(s, x[0]).result, x[1..], y); }
    }
  }

  // ---- Realising a slot map ----

  predicate Touches(e: Edge, x: string) {
    e.fromId == x || e.toId == x
  }

  predicate Joins(e: Edge, x: string, y: string) {
    SamePair(e.fromId, e.toId, x, y)
  }

  ghost predicate OnePerPair(edges: set<Edge>) {
    forall e, e' {:trigger Joins(e, e'.fromId, e'.toId)} ::
      e in edges && e' in edges && Joins(e, e'.fromId, e'.toId) ==> e == e'
  }

  ghost predicate Joined(edges: set<Edge>, x: string, y: string) {
    exists e :: e in edges && Joins(e, x, y)
  }

  /** The connection of `e` is in place: registered on both cards, its four links active. */
  ghost predicate InPlace(s: Store, e: Edge) {
    exists ls :: Registered(s, e.fromId, e.toId, ls) && Wired(s, e.fromId, e.toId, e.fromSlot, e.toSlot, ls)
  }

  /** Exactly these cards exist, and exactly these edges are connected. */
  ghost predicate Structure(s: Store, ids: set<string>, edges: set<Edge>) {
    && Safe(s)
    && s.cards.Keys == ids
    && OnePerPair(edges)
    && (forall e :: e in edges ==> e.fromId in ids && e.toId in ids && InPlace(s, e))
    && forall x, y :: Entry(s, x, y).Some? <==> Joined(edges, x, y)
  }

  /** The code last sent to each card is the one in the slot map. */
  ghost predicate CodesMatch(s: Store, m: SlotMap) {
    forall k :: k in m && KeyToCardAndSlot(k).1 == SLOT_CODE ==>
      KeyToCardAndSlot(k).0 in s.cards && s.cards[KeyToCardAndSlot(k).0].code == Some(m[k].signature)
  }

  ghost predicate Realises(s: Store, m: SlotMap) {
    Structure(s, CardIds(m), EdgeSet(m)) && CodesMatch(s, m)
  }

  /** No empty card ids, ids without separators, every edge target has keys of its own,
      at most one edge per pair of cards. */
  ghost predicate WellFormed(m: SlotMap) {
    && (forall k :: k in m ==> KeyToCardAndSlot(k).0 != "")
    && SeparatorFree(m)
    && EndsIn(EdgeSet(m), CardIds(m))
    && OnePerPair(EdgeSet(m))
  }

  /** What realising a map comes to, by its entries: the cards are those that have one, the
      pairs connected those an entry joins, slot to slot, and the codes those sent last. */
  ghost predicate Mirrors(s: Store, m: SlotMap) {
    && (forall id :: id in s.cards <==> HasCard(m, id))
    && (forall e :: HasEdge(m, e) ==> InPlace(s, e))
    && (forall x, y :: Entry(s, x, y).Some? <==> exists e ::
          HasEdge(m, e) && ((e.fromId == x && e.toId == y) || (e.fromId == y && e.toId == x)))
    && forall k, id :: k in m && ParsesTo(k, id, "code") ==>
         id in s.cards && s.cards[id].code == Some(m[k].signature)
  }

  lemma RealisesMirrors(s: Store, m: SlotMap)
    requires Realises(s, m)
    ensures Mirrors(s, m)
  {
    CardsExact(m);
    EdgesExact(m);
    forall k, id | k in m && ParsesTo(k, id, "code")
      ensures id in s.cards && s.cards[id].code == Some(m[k].signature)
    {
      ParseExact(k, id, "code");
    }
    forall x, y ensures Entry(s, x, y).Some? <==> exists e ::
      HasEdge(m, e) && ((e.fromId == x && e.toId == y) || (e.fromId == y && e.toId == x))
    {
      assert Joined(EdgeSet(m), x, y) <==> exists e :: e in EdgeSet(m) && Joins(e, x, y);
    }
  }

  /** What a well-formed map is, by its entries. */
  lemma WellFormedIff(m: SlotMap)
    ensures WellFormed(m) <==>
      && (forall k, card, slot :: k in m && ParsesTo(k, card, slot) ==> card != "")
      && (forall e :: HasEdge(m, e) ==>
            '|' !in e.fromId && '|' !in e.toId && HasCard(m, e.fromId) && HasCard(m, e.toId))
      && forall d, e :: HasEdge(m, d) && HasEdge(m, e) && {d.fromId, d.toId} == {e.fromId, e.toId} ==> d == e
  {
    CardsExact(m);
    EdgesExact(m);
    forall k ensures ParsesTo(k, KeyToCardAndSlot(k).0, KeyToCardAndSlot(k).1) {
      ParseExact(k, KeyToCardAndSlot(k).0, KeyToCardAndSlot(k).1);
    }
    forall k, card, slot | ParsesTo(k, card, slot) ensures KeyToCardAndSlot(k) == (card, slot) {
      ParseExact(k, card, slot);
    }
    forall d: Edge, e: Edge ensures Joins(d, e.fromId, e.toId) <==> {d.fromId, d.toId} == {e.fromId, e.toId} {
      SetsOfTwo(d.fromId, d.toId, e.fromId, e.toId);
    }
  }

  lemma SetsOfTwo(a: string, b: string, x: string, y: string)
    ensures {a, b} == {x, y} <==> (a == x && b == y) || (a == y && b == x)
  {
    if {a, b} == {x, y} {
      assert a in {x, y} && b in {x, y} && x in {a, b} && y in {a, b};
    }
  }

  /** Cards present before and after keep their code. */
  ghost predicate CodesKept(s: Store, t: Store) {
    forall x :: x in s.cards && x in t.cards ==> t.cards[x].code == s.cards[x].code
  }

  // ---- One event ----

  lemma EdgeRegistered(s: Store, ids: set<string>, edges: set<Edge>, e: Edge)
    requires Structure(s, ids, edges) && e in edges
    ensures e.fromId in s.cards && e.toId in s.cards && e.toId in s.cards[e.fromId].links
  {
    assert InPlace(s, e);
  }

  lemma DetachKeeps(s: Store, ids: set<string>, edges: set<Edge>, e: Edge)
    requires Structure(s, ids, edges) && e in edges
    ensures Detach(s, e.fromId, e.toId).Done?
    ensures Structure(Detach(s, e.fromId, e.toId).result, ids, edges - {e})
    ensures CodesKept(s, Detach(s, e.fromId, e.toId).result)
  {
    var a, b := e.fromId, e.toId;
    EdgeRegistered(s, ids, edges, e);
    DisconnectSafe(s, a, b);
    DisconnectJoined(s, edges, e);
    DisconnectCards(s, a, b);
    forall e' | e' in edges - {e} ensures InPlace(Disconnect(s, a, b), e') {
      assert InPlace(s, e') && !Joins(e', a, b);
      DisconnectInPlace(s, a, b, e');
    }
  }

  lemma DisconnectJoined(s: Store, edges: set<Edge>, e: Edge)
    requires e.fromId in s.cards && e.toId in s.cards && e.toId in s.cards[e.fromId].links
    requires OnePerPair(edges) && e in edges && forall x, y :: Entry(s, x, y).Some? <==> Joined(edges, x, y)
    ensures forall x, y :: Entry(Disconnect(s, e.fromId, e.toId), x, y).Some? <==> Joined(edges - {e}, x, y)
  {
    forall x, y ensures Entry(Disconnect(s, e.fromId, e.toId), x, y).Some? <==> Joined(edges - {e}, x, y) {
      DisconnectEntry(s, e.fromId, e.toId, x, y);
      JoinedWithout(edges, e, x, y);
    }
  }

  lemma DisconnectCards(s: Store, a: string, b: string)
    requires a in s.cards && b in s.cards && b in s.cards[a].links
    ensures Disconnect(s, a, b).cards.Keys == s.cards.Keys && CodesKept(s, Disconnect(s, a, b))
  {
    DisconnectEntry(s, a, b, a, b);
    forall x | x in s.cards ensures Disconnect(s, a, b).cards[x].code == s.cards[x].code {
      DisconnectEntry(s, a, b, x, x);
    }
  }

  lemma DisconnectInPlace(s: Store, a: string, b: string, e: Edge)
    requires a in s.cards && b in s.cards && b in s.cards[a].links && Safe(s)
    requires InPlace(s, e) && !Joins(e, a, b)
    ensures InPlace(Disconnect(s, a, b), e)
  {
    var ls :| Registered(s, e.fromId, e.toId, ls) && Wired(s, e.fromId, e.toId, e.fromSlot, e.toSlot, ls);
    WiredAfterDisconnect(s, a, b, e.fromId, e.toId, e.fromSlot, e.toSlot, ls);
  }

  /** One detach event. */
  lemma DetachStep(s: Store, ids: set<string>, edges: set<Edge>, e: Edge) returns (t: Store)
    requires Structure(s, ids, edges) && e in edges
    ensures Apply(s, CardDetach(e.fromId, e.toId)) == Done(t)
    ensures Structure(t, ids, edges - {e}) && CodesKept(s, t) && t.cards.Keys == s.cards.Keys
  {
    DetachKeeps(s, ids, edges, e);
    t := Detach(s, e.fromId, e.toId).result;
  }

  lemma CodesKeptOn(s: Store, s': Store, t: Store)
    requires CodesKept(s, s') && CodesKept(s', t) && s.cards.Keys == s'.cards.Keys
    ensures CodesKept(s, t)
  {
  }

  lemma JoinedWithout(edges: set<Edge>, e: Edge, x: string, y: string)
    requires OnePerPair(edges) && e in edges
    ensures Joined(edges - {e}, x, y) <==> Joined(edges, x, y) && !SamePair(x, y, e.fromId, e.toId)
  {
    if Joined(edges - {e}, x, y) {
      var e' :| e' in edges - {e} && Joins(e', x, y);
      assert e' in edges && !Joins(e', e.fromId, e.toId);
    }
    if Joined(edges, x, y) && !SamePair(x, y, e.fromId, e.toId) {
      var e' :| e' in edges && Joins(e', x, y);
      assert e' in edges - {e};
    }
  }

  lemma RemoveKeeps(s: Store, ids: set<string>, edges: set<Edge>, id: string)
    requires Structure(s, ids, edges) && id in ids && forall e :: e in edges ==> !Touches(e, id)
    ensures Remove(s, id).Done? && Structure(Remove(s, id).result, ids - {id}, edges)
    ensures CodesKept(s, Remove(s, id).result)
  {
    var t := Remove(s, id).result;
    RemoveSafe(s, id);
    forall x, y ensures Entry(t, x, y).Some? <==> Joined(edges, x, y) {
      RemoveEntry(s, id, x, y);
    }
    forall e | e in edges ensures InPlace(t, e) {
      assert InPlace(s, e) && !Touches(e, id);
      var ls :| Registered(s, e.fromId, e.toId, ls) && Wired(s, e.fromId, e.toId, e.fromSlot, e.toSlot, ls);
      WiredAfterRemove(s, id, e.fromId, e.toId, e.fromSlot, e.toSlot, ls);
    }
  }

  lemma AddKeepsStructure(s: Store, ids: set<string>, edges: set<Edge>, id: string)
    requires Structure(s, ids, edges) && id !in ids
    ensures Structure(Add(s, id), ids + {id}, edges) && CodesKept(s, Add(s, id))
  {
    var t := Add(s, id);
    AddSafe(s, id);
    forall x, y ensures Entry(t, x, y).Some? <==> Joined(edges, x, y) {
      AddEntry(s, id, x, y);
    }
    forall e | e in edges ensures InPlace(t, e) {
      AddInPlace(s, id, e);
    }
  }

  lemma AddInPlace(s: Store, id: string, e: Edge)
    requires InPlace(s, e) && id !in s.cards
    ensures InPlace(Add(s, id), e)
  {
    var ls :| Registered(s, e.fromId, e.toId, ls) && Wired(s, e.fromId, e.toId, e.fromSlot, e.toSlot, ls);
    AddEntry(s, id, e.fromId, e.toId);
    AddEntry(s, id, e.toId, e.fromId);
    ConnectionKept(s, Add(s, id), e.fromId, e.toId, e.fromSlot, e.toSlot, ls);
  }

  lemma AttachStructure(s: Store, ids: set<string>, edges: set<Edge>, e: Edge)
    requires Structure(s, ids, edges) && e.fromId in ids && e.toId in ids && !Joined(edges, e.fromId, e.toId)
    ensures Structure(Attach(s, e.fromId, e.toId, e.fromSlot, e.toSlot), ids, edges + {e})
    ensures CodesKept(s, Attach(s, e.fromId, e.toId, e.fromSlot, e.toSlot))
  {
    assert Entry(s, e.fromId, e.toId) == None;
    AttachSafe(s, e.fromId, e.toId, e.fromSlot, e.toSlot);
    NoJoin(edges, e);
    AttachJoined(s, edges, e);
    AttachCards(s, e);
    forall e' | e' in edges + {e} ensures InPlace(Attach(s, e.fromId, e.toId, e.fromSlot, e.toSlot), e') {
      if e' in edges {
        AttachInPlace(s, e, e');
      } else {
        AttachWires(s, e.fromId, e.toId, e.fromSlot, e.toSlot);
      }
    }
  }

  lemma AttachCards(s: Store, e: Edge)
    requires e.fromId in s.cards && e.toId in s.cards
    ensures Attach(s, e.fromId, e.toId, e.fromSlot, e.toSlot).cards.Keys == s.cards.Keys
    ensures CodesKept(s, Attach(s, e.fromId, e.toId, e.fromSlot, e.toSlot))
  {
    var t := Attach(s, e.fromId, e.toId, e.fromSlot, e.toSlot);
    AttachEntry(s, e.fromId, e.toId, e.fromSlot, e.toSlot, e.fromId, e.toId);
    forall x | x in s.cards ensures t.cards[x].code == s.cards[x].code {
      AttachEntry(s, e.fromId, e.toId, e.fromSlot, e.toSlot, x, x);
    }
  }

  lemma AttachJoined(s: Store, edges: set<Edge>, e: Edge)
    requires e.fromId in s.cards && e.toId in s.cards
    requires forall x, y :: Entry(s, x, y).Some? <==> Joined(edges, x, y)
    ensures forall x, y :: Entry(Attach(s, e.fromId, e.toId, e.fromSlot, e.toSlot), x, y).Some? <==>
      Joined(edges + {e}, x, y)
  {
    forall x, y
      ensures Entry(Attach(s, e.fromId, e.toId, e.fromSlot, e.toSlot), x, y).Some? <==> Joined(edges + {e}, x, y)
    {
      AttachEntry(s, e.fromId, e.toId, e.fromSlot, e.toSlot, x, y);
      JoinedWith(edges, e, x, y);
    }
  }

  lemma NoJoin(edges: set<Edge>, e: Edge)
    requires OnePerPair(edges) && !Joined(edges, e.fromId, e.toId)
    ensures OnePerPair(edges + {e})
    ensures forall e' :: e' in edges ==> !Joins(e', e.fromId, e.toId)
  {
    forall e' | e' in edges ensures !Joins(e', e.fromId, e.toId) && !Joins(e, e'.fromId, e'.toId) {
      assert Joins(e', e.fromId, e.toId) ==> Joined(edges, e.fromId, e.toId);
    }
  }

  lemma AttachInPlace(s: Store, e: Edge, e': Edge)
    requires e.fromId in s.cards && e.toId in s.cards && InPlace(s, e') && !Joins(e', e.fromId, e.toId)
    ensures InPlace(Attach(s, e.fromId, e.toId, e.fromSlot, e.toSlot), e')
  {
    var ls :| Registered(s, e'.fromId, e'.toId, ls) && Wired(s, e'.fromId, e'.toId, e'.fromSlot, e'.toSlot, ls);
    WiredAfterAttach(s, e.fromId, e.toId, e.fromSlot, e.toSlot, e'.fromId, e'.toId, e'.fromSlot, e'.toSlot, ls);
  }

  lemma JoinedWith(edges: set<Edge>, e: Edge, x: string, y: string)
    ensures Joined(edges + {e}, x, y) <==> Joined(edges, x, y) || SamePair(x, y, e.fromId, e.toId)
  {
    assert e in edges + {e};
  }

  lemma UpdateKeeps(s: Store, ids: set<string>, edges: set<Edge>, id: string, signature: string)
    requires Structure(s, ids, edges) && id in ids
    ensures Update(s, id, signature).Done? && Structure(Update(s, id, signature).result, ids, edges)
  {
    var t := Update(s, id, signature).result;
    UpdateSafe(s, id, signature);
    assert forall x, y :: Entry(t, x, y) == Entry(s, x, y);
    forall e | e in edges ensures InPlace(t, e) {
      assert InPlace(s, e);
      var ls :| Registered(s, e.fromId, e.toId, ls) && Wired(s, e.fromId, e.toId, e.fromSlot, e.toSlot, ls);
      ConnectionKept(s, t, e.fromId, e.toId, e.fromSlot, e.toSlot, ls);
    }
  }

  /** One update event: only the code of its card changes. */
  lemma UpdateStep(s: Store, ids: set<string>, edges: set<Edge>, id: string, ref: CardRef) returns (t: Store)
    requires Structure(s, ids, edges) && id in ids
    ensures Apply(s, CardUpdate(id, ref)) == Done(t) && Structure(t, ids, edges) && t.cards.Keys == s.cards.Keys
    ensures t.cards[id].code == Some(ref.signature)
    ensures forall x :: x in s.cards && x != id ==> t.cards[x].code == s.cards[x].code
  {
    UpdateKeeps(s, ids, edges, id, ref.signature);
    t := Update(s, id, ref.signature).result;
  }

  // ---- The phases of a diff ----

  lemma FirstAndRest<T>(xs: seq<T>)
    requires xs != [] && NoDup(xs)
    ensures |xs| > 0 && NoDup(xs[1..])
    ensures xs[0] in Elems(xs) && xs[0] !in Elems(xs[1..]) && Elems(xs) == {xs[0]} + Elems(xs[1..])
  {
  }

  lemma {:induction false} DetachPhase(s: Store, ids: set<string>, edges: set<Edge>, es: seq<Edge>) returns (t: Store)
    requires Structure(s, ids, edges) && NoDup(es) && Elems(es) <= edges
    ensures ApplyAll(s, DetachEvents(es)) == Done(t)
    ensures Structure(t, ids, edges - Elems(es)) && CodesKept(s, t)
    decreases |es|
  {
    if es == [] {
      t := s;
      assert edges - Elems(es) == edges;
    } else {
      var e, rest := es[0], es[1..];
      DetachFirst(edges, es);
      var s' := DetachStep(s, ids, edges, e);
      t := DetachPhase(s', ids, edges - {e}, rest);
      ApplyFirst(s, DetachEvents(es), s', t);
      CodesKeptOn(s, s', t);
    }
  }

  lemma DetachFirst(edges: set<Edge>, es: seq<Edge>)
    requires es != [] && NoDup(es) && Elems(es) <= edges
    ensures DetachEvents(es) != [] && DetachEvents(es)[0] == CardDetach(es[0].fromId, es[0].toId)
    ensures DetachEvents(es)[1..] == DetachEvents(es[1..])
    ensures es[0] in edges && NoDup(es[1..]) && Elems(es[1..]) <= edges - {es[0]}
    ensures (edges - {es[0]}) - Elems(es[1..]) == edges - Elems(es)
  {
    FirstAndRest(es);
  }

  lemma {:induction false} RemovePhase(s: Store, ids: set<string>, edges: set<Edge>, xs: seq<string>) returns (t: Store)
    requires Structure(s, ids, edges) && NoDup(xs) && Elems(xs) <= ids
    requires forall x, e :: x in xs && e in edges ==> !Touches(e, x)
    ensures ApplyAll(s, RemoveEvents(xs)) == Done(t)
    ensures Structure(t, ids - Elems(xs), edges) && CodesKept(s, t)
    decreases |xs|
  {
    if xs == [] {
      t := s;
      assert ids - Elems(xs) == ids;
    } else {
      assert xs[0] in Elems(xs);
      RemoveKeeps(s, ids, edges, xs[0]);
      assert Elems(xs) == {xs[0]} + Elems(xs[1..]);
      assert RemoveEvents(xs)[1..] == RemoveEvents(xs[1..]);
      t := RemovePhase(Remove(s, xs[0]).result, ids - {xs[0]}, edges, xs[1..]);
      assert (ids - {xs[0]}) - Elems(xs[1..]) == ids - Elems(xs);
    }
  }

  lemma {:induction false} AddPhase(s: Store, ids: set<string>, edges: set<Edge>, xs: seq<string>) returns (t: Store)
    requires Structure(s, ids, edges) && NoDup(xs) && Elems(xs) !! ids
    ensures ApplyAll(s, AddEvents(xs)) == Done(t)
    ensures Structure(t, ids + Elems(xs), edges) && CodesKept(s, t)
    decreases |xs|
  {
    if xs == [] {
      t := s;
      assert ids + Elems(xs) == ids;
    } else {
      assert xs[0] in Elems(xs);
      AddKeepsStructure(s, ids, edges, xs[0]);
      assert Elems(xs) == {xs[0]} + Elems(xs[1..]);
      assert AddEvents(xs)[1..] == AddEvents(xs[1..]);
      t := AddPhase(Add(s, xs[0]), ids + {xs[0]}, edges, xs[1..]);
      assert (ids + {xs[0]}) + Elems(xs[1..]) == ids + Elems(xs);
    }
  }

  lemma ApplyFirst(s: Store, events: seq<Event>, s': Store, t: Store)
    requires events != [] && Apply(s, events[0]) == Done(s') && ApplyAll(s', events[1..]) == Done(t)
    ensures ApplyAll(s, events) == Done(t)
  {
  }

  lemma ConnectIsAttach(s: Store, e: Edge)
    requires e.fromId in s.cards && e.toId in s.cards && Entry(s, e.fromId, e.toId) == None && IsStructural(e)
    ensures Apply(s, CardConnect(e.fromId, e.fromSlot, e.toId, e.toSlot)) ==
      Done(Attach(s, e.fromId, e.toId, e.fromSlot, e.toSlot))
  {
  }

  lemma ConnectStep(s: Store, ids: set<string>, edges: set<Edge>, e: Edge) returns (t: Store)
    requires Structure(s, ids, edges) && Connectable(ids, e) && !Joined(edges, e.fromId, e.toId)
    ensures Apply(s, CardConnect(e.fromId, e.fromSlot, e.toId, e.toSlot)) == Done(t)
    ensures Structure(t, ids, edges + {e}) && CodesKept(s, t)
  {
    AttachStructure(s, ids, edges, e);
    ConnectIsAttach(s, e);
    t := Attach(s, e.fromId, e.toId, e.fromSlot, e.toSlot);
  }

  /** Both cards exist and the slots face each other. */
  ghost predicate Connectable(ids: set<string>, e: Edge) {
    e.fromId in ids && e.toId in ids && IsStructural(e)
  }

  lemma {:induction false} ConnectPhase(s: Store, ids: set<string>, edges: set<Edge>, es: seq<Edge>) returns (t: Store)
    requires Structure(s, ids, edges) && NoDup(es) && Elems(es) !! edges && OnePerPair(edges + Elems(es))
    requires forall e :: e in es ==> Connectable(ids, e)
    ensures ApplyAll(s, ConnectEvents(es)) == Done(t)
    ensures Structure(t, ids, edges + Elems(es)) && CodesKept(s, t)
    decreases |es|
  {
    if es == [] {
      t := s;
      assert edges + Elems(es) == edges;
    } else {
      FirstAndRest(es);
      var e, rest := es[0], es[1..];
      assert ConnectEvents(es)[1..] == ConnectEvents(rest);
      assert ConnectEvents(es)[0] == CardConnect(e.fromId, e.fromSlot, e.toId, e.toSlot);
      assert (edges + {e}) + Elems(rest) == edges + Elems(es);
      NotYetJoined(edges, Elems(es), e);
      assert forall x :: x in rest ==> x in es;
      assert Elems(rest) !! (edges + {e}) && OnePerPair((edges + {e}) + Elems(rest));
      var s' := ConnectStep(s, ids, edges, e);
      t := ConnectPhase(s', ids, edges + {e}, rest);
      ApplyFirst(s, ConnectEvents(es), s', t);
    }
  }

  lemma NotYetJoined(edges: set<Edge>, more: set<Edge>, e: Edge)
    requires OnePerPair(edges + more) && e in more && edges !! more
    ensures !Joined(edges, e.fromId, e.toId)
  {
  }

  function CardOf(k: string): string {
    KeyToCardAndSlot(k).0
  }

  /** `t` differs from `s` in code only, as the updates of `keys` say. */
  ghost predicate CodesUpdated(s: Store, t: Store, next: SlotMap, keys: seq<string>)
    requires forall k :: k in keys ==> k in next
  {
    && s.cards.Keys == t.cards.Keys
    && (forall k :: k in keys ==> CardOf(k) in t.cards && t.cards[CardOf(k)].code == Some(next[k].signature))
    && forall x :: x in s.cards && (forall k :: k in keys ==> CardOf(k) != x) ==> t.cards[x].code == s.cards[x].code
  }

  /** Different code keys belong to different cards. */
  lemma CodeKeysDiffer(k: string, k': string)
    requires KeyToCardAndSlot(k).1 == SLOT_CODE && KeyToCardAndSlot(k').1 == SLOT_CODE && CardOf(k) == CardOf(k')
    ensures k == k'
  {
    CodeKey(k);
    CodeKey(k');
  }

  lemma {:induction false} UpdatePhase(s: Store, ids: set<string>, edges: set<Edge>, next: SlotMap, keys: seq<string>)
    returns (t: Store)
    requires Structure(s, ids, edges) && NoDup(keys)
    requires forall i :: 0 <= i < |keys| ==>
      keys[i] in next && KeyToCardAndSlot(keys[i]).1 == SLOT_CODE && CardOf(keys[i]) in ids
    ensures ApplyAll(s, UpdateEvents(next, keys)) == Done(t)
    ensures Structure(t, ids, edges) && CodesUpdated(s, t, next, keys)
    decreases |keys|
  {
    if keys == [] {
      t := s;
    } else {
      var k, rest := keys[0], keys[1..];
      var s' := UpdateStep(s, ids, edges, CardOf(k), next[k]);
      assert UpdateEvents(next, keys)[1..] == UpdateEvents(next, rest);
      t := UpdatePhase(s', ids, edges, next, rest);
      ApplyFirst(s, UpdateEvents(next, keys), s', t);
      OtherCards(keys);
      CodesUpdatedCons(s, s', t, next, k, keys);
    }
  }

  lemma OtherCards(keys: seq<string>)
    requires keys != [] && NoDup(keys) && forall i :: 0 <= i < |keys| ==> KeyToCardAndSlot(keys[i]).1 == SLOT_CODE
    ensures forall k :: k in keys[1..] ==> CardOf(k) != CardOf(keys[0])
  {
    forall k | k in keys[1..] ensures CardOf(k) != CardOf(keys[0]) {
      var i :| 0 <= i < |keys[1..]| && keys[1..][i] == k;
      assert keys[i + 1] == k;
      if CardOf(k) == CardOf(keys[0]) { CodeKeysDiffer(k, keys[0]); }
    }
  }

  lemma CodesUpdatedCons(s: Store, s': Store, t: Store, next: SlotMap, k: string, keys: seq<string>)
    requires keys != [] && keys[0] == k && forall k' :: k' in keys ==> k' in next
    requires CardOf(k) in s.cards && s'.cards.Keys == s.cards.Keys
    requires s'.cards[CardOf(k)].code == Some(next[k].signature)
    requires forall x :: x in s.cards && x != CardOf(k) ==> s'.cards[x].code == s.cards[x].code
    requires CodesUpdated(s', t, next, keys[1..]) && forall k' :: k' in keys[1..] ==> CardOf(k') != CardOf(k)
    ensures CodesUpdated(s, t, next, keys)
  {
    assert forall k' :: k' in keys <==> k' == k || k' in keys[1..];
    forall x | x in s.cards && forall k' :: k' in keys ==> CardOf(k') != x ensures t.cards[x].code == s.cards[x].code {
      assert x != CardOf(k) by { assert k in keys; }
    }
  }

  // ---- Simulation ----

  /** Every end of an edge is one of these cards. */
  ghost predicate EndsIn(edges: set<Edge>, ids: set<string>) {
    forall e :: e in edges ==> e.fromId in ids && e.toId in ids
  }

  /** Detach and remove: what is left are the cards and edges that stay. */
  lemma ShrinkPhases(s: Store, ids: set<string>, edges: set<Edge>, ids': set<string>, edges': set<Edge>,
                     detached: seq<Edge>, removed: seq<string>) returns (s1: Store, s2: Store)
    requires Structure(s, ids, edges) && EndsIn(edges', ids')
    requires Lists(detached, edges - edges') && Lists(removed, ids - ids')
    ensures ApplyAll(s, DetachEvents(detached)) == Done(s1) && ApplyAll(s1, RemoveEvents(removed)) == Done(s2)
    ensures s1.cards.Keys == ids && CodesKept(s, s1) && CodesKept(s1, s2)
    ensures Structure(s2, ids * ids', edges * edges')
  {
    s1 := DetachPhase(s, ids, edges, detached);
    assert edges - Elems(detached) == edges * edges';
    forall x, e | x in removed && e in edges * edges' ensures !Touches(e, x) {
      assert x in Elems(removed);
    }
    s2 := RemovePhase(s1, ids, edges * edges', removed);
    assert ids - Elems(removed) == ids * ids';
  }

  /** Add and connect: the cards and edges of the next map are all there. */
  lemma GrowPhases(s2: Store, ids: set<string>, edges: set<Edge>, ids': set<string>, edges': set<Edge>,
                   added: seq<string>, connected: seq<Edge>) returns (s3: Store, s4: Store)
    requires Structure(s2, ids * ids', edges * edges') && EndsIn(edges', ids') && OnePerPair(edges')
    requires Lists(added, ids' - ids) && Lists(connected, edges' - edges) && forall e :: e in edges' ==> IsStructural(e)
    ensures ApplyAll(s2, AddEvents(added)) == Done(s3) && ApplyAll(s3, ConnectEvents(connected)) == Done(s4)
    ensures s3.cards.Keys == ids' && CodesKept(s2, s3) && CodesKept(s3, s4)
    ensures Structure(s4, ids', edges')
  {
    s3 := AddPhase(s2, ids * ids', edges * edges', added);
    assert ids * ids' + Elems(added) == ids';
    assert edges * edges' + Elems(connected) == edges';
    forall e | e in connected ensures Connectable(ids', e) {
      assert e in Elems(connected);
    }
    s4 := ConnectPhase(s3, ids', edges * edges', connected);
  }

  /** The events of a diff, in the order they are produced, turn a structure that realises
      `prev` into one that realises `next`; no event throws. */
  lemma Simulation(s: Store, prev: SlotMap, next: SlotMap, p: Phases) returns (t: Store)
    requires WellFormed(next) && Realises(s, prev)
    requires IsDiff(prev, next, p) && forall i :: 0 <= i < |p.updated| ==> p.updated[i] in next
    ensures ApplyAll(s, EventsOf(next, p)) == Done(t) && Realises(t, next)
  {
    EdgesAreStructural(next);
    var s1, s2 := ShrinkPhases(s, CardIds(prev), EdgeSet(prev), CardIds(next), EdgeSet(next), p.detached, p.removed);
    var s3, s4 := GrowPhases(s2, CardIds(prev), EdgeSet(prev), CardIds(next), EdgeSet(next), p.added, p.connected);
    UpdatesAreCodes(prev, next, p);
    t := UpdatePhase(s4, CardIds(next), EdgeSet(next), next, p.updated);
    JoinPhases(s, s1, s2, s3, s4, t, next, p);
    CodesFollow(s, s1, s2, s3, s4, t, prev, next, p);
  }

  lemma UpdatesAreCodes(prev: SlotMap, next: SlotMap, p: Phases)
    requires WellFormed(next) && IsDiff(prev, next, p)
    ensures forall i :: 0 <= i < |p.updated| ==>
      p.updated[i] in next && KeyToCardAndSlot(p.updated[i]).1 == SLOT_CODE && CardOf(p.updated[i]) in CardIds(next)
  {
    forall i | 0 <= i < |p.updated|
      ensures p.updated[i] in next && KeyToCardAndSlot(p.updated[i]).1 == SLOT_CODE &&
        CardOf(p.updated[i]) in CardIds(next)
    {
      assert p.updated[i] in Elems(p.updated);
      assert CardOf(p.updated[i]) != "";
    }
  }

  lemma JoinPhases(s: Store, s1: Store, s2: Store, s3: Store, s4: Store, t: Store, next: SlotMap, p: Phases)
    requires forall i :: 0 <= i < |p.updated| ==> p.updated[i] in next
    requires ApplyAll(s, DetachEvents(p.detached)) == Done(s1) && ApplyAll(s1, RemoveEvents(p.removed)) == Done(s2)
    requires ApplyAll(s2, AddEvents(p.added)) == Done(s3) && ApplyAll(s3, ConnectEvents(p.connected)) == Done(s4)
    requires ApplyAll(s4, UpdateEvents(next, p.updated)) == Done(t)
    ensures ApplyAll(s, EventsOf(next, p)) == Done(t)
  {
    var d, r, a, c, u := DetachEvents(p.detached), RemoveEvents(p.removed), AddEvents(p.added),
                         ConnectEvents(p.connected), UpdateEvents(next, p.updated);
    ApplyAppend(s, d, r);
    ApplyAppend(s, d + r, a);
    ApplyAppend(s, d + r + a, c);
    ApplyAppend(s, d + r + a + c, u);
  }

  /** Codes: changed keys are sent, unchanged ones belong to cards that stayed. */
  lemma CodesFollow(s: Store, s1: Store, s2: Store, s3: Store, s4: Store, t: Store, prev: SlotMap, next: SlotMap,
                    p: Phases)
    requires WellFormed(next) && CodesMatch(s, prev) && IsDiff(prev, next, p)
    requires s.cards.Keys == s1.cards.Keys == CardIds(prev)
    requires s2.cards.Keys == CardIds(prev) * CardIds(next)
    requires s3.cards.Keys == s4.cards.Keys == CardIds(next)
    requires CodesKept(s, s1) && CodesKept(s1, s2) && CodesKept(s2, s3) && CodesKept(s3, s4)
    requires forall k :: k in p.updated ==> k in next
    requires CodesUpdated(s4, t, next, p.updated)
    ensures CodesMatch(t, next)
  {
    forall k | k in next && KeyToCardAndSlot(k).1 == SLOT_CODE
      ensures CardOf(k) in t.cards && t.cards[CardOf(k)].code == Some(next[k].signature)
    {
      var x := CardOf(k);
      assert x != "" && x in CardIds(next);
      if CodeChanged(prev, next, k) {
        assert k in Elems(p.updated);
      } else {
        assert k in prev && x in s.cards && x in CardIds(prev);
        assert s.cards[x].code == Some(next[k].signature);
        assert x in s2.cards;
        assert s1.cards[x].code == s.cards[x].code;
        assert s2.cards[x].code == s1.cards[x].code;
        assert s3.cards[x].code == s2.cards[x].code;
        assert s4.cards[x].code == s3.cards[x].code;
        forall k' | k' in p.updated ensures CardOf(k') != x {
          assert k' in Elems(p.updated) && CodeChanged(prev, next, k');
          if CardOf(k') == x { CodeKeysDiffer(k', k); }
        }
      }
    }
  }

  /** The empty structure realises the empty map. */
  lemma EmptyRealises()
    ensures WellFormed(map[]) && Realises(EMPTY, map[])
  {
    assert EdgeSet(map[]) == {} && CardIds(map[]) == {};
    forall x, y ensures OwnedEntry(EMPTY, x, y) {}
  }
}
