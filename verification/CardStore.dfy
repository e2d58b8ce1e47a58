// Card metadata and connector links: the operations on them, and the safety of links
// over every run.
module CardStore {
  import opened Common

  const SLOT_THIS := "::this"

  /** Cells a card tracks from its creation on. */
  const TRACKED: set<string> := {"::this", "::left", "::right", "::above", "::below", "updater", "emitter"}

  /** A link cell points at a tracked cell of one card instance, or at a throwaway cell. */
  datatype Target = Slot(owner: nat, slot: string) | Dummy

  /** A link remembers, in its name, the two cards it was created for. */
  datatype Link = Link(a: string, b: string, target: Target)

  /** `links`: link cells by the other card's id (the full key is "own->other"). `owner`
      tells apart instances of cards that were removed and added again. */
  datatype Card = Card(owner: nat, links: map<string, seq<nat>>, code: Option<string>)

  /** All live cards, and every link cell ever created. */
  datatype Store = Store(cards: map<string, Card>, links: seq<Link>, created: nat)

  // ---- Operations ----

  function Redirect(links: seq<Link>, ls: seq<nat>): seq<Link> {
    seq(|links|, i requires 0 <= i < |links| => if i in ls then links[i].(target := Dummy) else links[i])
  }

  /** Forget the connection to `other` in the metadata of `id`. */
  function Forget(cards: map<string, Card>, id: string, other: string): map<string, Card> {
    if id in cards then cards[id := cards[id].(links := cards[id].links - {other})] else cards
  }

  function Remember(cards: map<string, Card>, id: string, other: string, ls: seq<nat>): map<string, Card> {
    if id in cards then cards[id := cards[id].(links := cards[id].links[other := ls])] else cards
  }

  function Add(s: Store, id: string): Store {
    s.(cards := s.cards[id := Card(s.created, map[], None)], created := s.created + 1)
  }

  function Update(s: Store, id: string, signature: string): Outcome<Store> {
    if id !in s.cards then Thrown
    else Done(s.(cards := s.cards[id := s.cards[id].(code := Some(signature))]))
  }

  /** Redirect all links registered with `id`; entries in other cards stay behind. */
  function Remove(s: Store, id: string): Outcome<Store> {
    if id !in s.cards then Thrown
    else Done(s.(links := RedirectAll(s.links, s.cards[id].links), cards := s.cards - {id}))
  }

  function RedirectAll(links: seq<Link>, table: map<string, seq<nat>>): seq<Link> {
    seq(|links|, i requires 0 <= i < |links| =>
      if exists other :: other in table && i in table[other] then links[i].(target := Dummy) else links[i])
  }

  function Detach(s: Store, a: string, b: string): Outcome<Store> {
    if a !in s.cards || b !in s.cards || b !in s.cards[a].links then Thrown
    else Done(Disconnect(s, a, b))
  }

  /** Point the links registered with `a` for `b` at a dummy and drop both entries. */
  function Disconnect(s: Store, a: string, b: string): Store
    requires a in s.cards && b in s.cards[a].links
  {
    s.(links := Redirect(s.links, s.cards[a].links[b]), cards := Forget(Forget(s.cards, a, b), b, a))
  }

  /** Drop a previous connection, create four links and register them with both cards.
      An unknown slot throws only after the previous connection has been dropped. */
  function Connect(s: Store, a: string, b: string, slotA: string, slotB: string): Outcome<Store> {
    if a !in s.cards || b !in s.cards || slotA !in TRACKED || slotB !in TRACKED then Thrown
    else Done(Attach(Cleared(s, a, b), a, b, slotA, slotB))
  }

  function Cleared(s: Store, a: string, b: string): Store
    requires a in s.cards
  {
    if b in s.cards[a].links then Disconnect(s, a, b) else s
  }

  function Attach(t: Store, a: string, b: string, slotA: string, slotB: string): Store
    requires a in t.cards && b in t.cards
  {
    var n := |t.links|;
    var ls := [n, n + 1, n + 2, n + 3];
    t.(links := t.links + NewLinks(t, a, b, slotA, slotB),
       cards := Remember(Remember(t.cards, a, b, ls), b, a, ls))
  }

  /** slotA -> B.this, B.this -> slotA, slotB -> A.this, A.this -> slotB. */
  function NewLinks(t: Store, a: string, b: string, slotA: string, slotB: string): seq<Link>
    requires a in t.cards && b in t.cards
  {
    [Link(a, b, Slot(t.cards[b].owner, SLOT_THIS)), Link(a, b, Slot(t.cards[a].owner, slotA)),
     Link(a, b, Slot(t.cards[a].owner, SLOT_THIS)), Link(a, b, Slot(t.cards[b].owner, slotB))]
  }

  /** Connecting throws for a missing card and for a cell no card tracks. */
  lemma ConnectThrowsIff(s: Store, a: string, b: string, slotA: string, slotB: string)
    ensures Connect(s, a, b, slotA, slotB) == Thrown <==>
      var cells := ["::this", "::left", "::right", "::above", "::below", "updater", "emitter"];
      a !in s.cards || b !in s.cards || slotA !in cells || slotB !in cells
  {
  }

  // ---- What the operations do to registrations ----

  /** The list `a` registers for `b`. */
  function Entry(s: Store, a: string, b: string): Option<seq<nat>> {
    if a in s.cards && b in s.cards[a].links then Some(s.cards[a].links[b]) else None
  }

  predicate SamePair(a: string, b: string, x: string, y: string) {
    (a == x && b == y) || (a == y && b == x)
  }

  lemma DisconnectEntry(s: Store, x: string, y: string, a: string, b: string)
    requires x in s.cards && y in s.cards[x].links
    ensures Entry(Disconnect(s, x, y), a, b) == if SamePair(a, b, x, y) then None else Entry(s, a, b)
    ensures Disconnect(s, x, y).cards.Keys == s.cards.Keys
    ensures a in s.cards ==> Disconnect(s, x, y).cards[a].owner == s.cards[a].owner
    ensures a in s.cards ==> Disconnect(s, x, y).cards[a].code == s.cards[a].code
  {
  }

  lemma AttachEntry(t: Store, a: string, b: string, slotA: string, slotB: string, x: string, y: string)
    requires a in t.cards && b in t.cards
    ensures var n := |t.links|; var u := Attach(t, a, b, slotA, slotB);
      && Entry(u, x, y) == (if SamePair(x, y, a, b) then Some([n, n + 1, n + 2, n + 3]) else Entry(t, x, y))
      && u.cards.Keys == t.cards.Keys
      && (x in t.cards ==> u.cards[x].owner == t.cards[x].owner && u.cards[x].code == t.cards[x].code)
  {
  }

  lemma RemoveEntry(s: Store, id: string, x: string, y: string)
    requires id in s.cards
    ensures Entry(Remove(s, id).result, x, y) == if x == id then None else Entry(s, x, y)
  {
  }

  lemma AddEntry(s: Store, id: string, x: string, y: string)
    ensures Entry(Add(s, id), x, y) == if x == id then None else Entry(s, x, y)
  {
  }

  // ---- Safety of links ----

  /** Both cards are live and register the same list `ls` for each other. */
  predicate Registered(s: Store, a: string, b: string, ls: seq<nat>) {
    Entry(s, a, b) == Some(ls) && Entry(s, b, a) == Some(ls)
  }

  /** `ls` are the four links of a connection of these slots. */
  ghost predicate Wired(s: Store, a: string, b: string, slotA: string, slotB: string, ls: seq<nat>) {
    && a in s.cards && b in s.cards && |ls| == 4 && NoDup(ls)
    && (forall k :: 0 <= k < 4 ==> ls[k] < |s.links|)
    && s.links[ls[0]].target == Slot(s.cards[b].owner, "::this")
    && s.links[ls[1]].target == Slot(s.cards[a].owner, slotA)
    && s.links[ls[2]].target == Slot(s.cards[a].owner, "::this")
    && s.links[ls[3]].target == Slot(s.cards[b].owner, slotB)
  }

  /** Links registered by x for y exist and were created for exactly these two cards. */
  ghost predicate OwnedEntry(s: Store, x: string, y: string) {
    Entry(s, x, y).Some? ==> forall i :: i in Entry(s, x, y).value ==> OwnedLink(s, i, x, y)
  }

  ghost predicate OwnedLink(s: Store, i: nat, x: string, y: string) {
    i < |s.links| && SamePair(s.links[i].a, s.links[i].b, x, y)
  }

  ghost predicate LinksOwned(s: Store) {
    forall x, y :: OwnedEntry(s, x, y)
  }

  /** A connection registered on both sides that contains link i, for the two cards named
      by that link. */
  ghost predicate Backed(s: Store, i: nat)
    requires i < |s.links|
  {
    exists ls, slotA, slotB :: Backs(s, i, ls, slotA, slotB)
  }

  ghost predicate Backs(s: Store, i: nat, ls: seq<nat>, slotA: string, slotB: string)
    requires i < |s.links|
  {
    var a, b := s.links[i].a, s.links[i].b;
    i in ls && Registered(s, a, b, ls) && Wired(s, a, b, slotA, slotB, ls)
  }

  /** A link that is not at a dummy belongs to a connection its two cards both register. */
  ghost predicate ActiveRegistered(s: Store) {
    forall i {:trigger Backed(s, i)} :: 0 <= i < |s.links| && s.links[i].target.Slot? ==> Backed(s, i)
  }

  ghost predicate Safe(s: Store) {
    LinksOwned(s) && ActiveRegistered(s)
  }

  ghost const EMPTY := Store(map[], [], 0)

  /** Links keep their names. */
  ghost predicate NamesKept(s: Store, t: Store) {
    |s.links| <= |t.links| && forall i :: 0 <= i < |s.links| ==>
      t.links[i].a == s.links[i].a && t.links[i].b == s.links[i].b
  }

  /** A connection of a pair that an operation does not concern stays as it is. */
  lemma ConnectionKept(s: Store, t: Store, a: string, b: string, slotA: string, slotB: string, ls: seq<nat>)
    requires Registered(s, a, b, ls) && Wired(s, a, b, slotA, slotB, ls) && |s.links| <= |t.links|
    requires Entry(t, a, b) == Entry(s, a, b) && Entry(t, b, a) == Entry(s, b, a)
    requires t.cards[a].owner == s.cards[a].owner && t.cards[b].owner == s.cards[b].owner
    requires forall k :: 0 <= k < 4 ==> t.links[ls[k]] == s.links[ls[k]]
    ensures Registered(t, a, b, ls) && Wired(t, a, b, slotA, slotB, ls)
  {
  }

  /** Links of different pairs are different. */
  lemma PairsApart(s: Store, a: string, b: string, x: string, y: string, i: nat)
    requires LinksOwned(s) && Entry(s, a, b).Some? && Entry(s, x, y).Some?
    requires i in Entry(s, a, b).value && i in Entry(s, x, y).value
    ensures SamePair(a, b, x, y)
  {
    assert OwnedEntry(s, a, b) && OwnedEntry(s, x, y);
    assert OwnedLink(s, i, a, b) && OwnedLink(s, i, x, y);
  }

  lemma OwnedKept(s: Store, t: Store, x: string, y: string)
    requires LinksOwned(s) && NamesKept(s, t) && (Entry(t, x, y) == Entry(s, x, y) || Entry(t, x, y) == None)
    ensures OwnedEntry(t, x, y)
  {
    assert OwnedEntry(s, x, y);
    if Entry(t, x, y).Some? {
      forall i | i in Entry(t, x, y).value ensures OwnedLink(t, i, x, y) {
        assert OwnedLink(s, i, x, y);
      }
    }
  }

  /** Adding a card, absent or not, concerns only connections of that card. */
  lemma AddKeeps(s: Store, id: string, i: nat)
    requires i < |s.links| && Backed(s, i) && s.links[i].a != id && s.links[i].b != id
    ensures Backed(Add(s, id), i)
  {
    var a, b := s.links[i].a, s.links[i].b;
    var ls, slotA, slotB :| Backs(s, i, ls, slotA, slotB);
    AddEntry(s, id, a, b);
    AddEntry(s, id, b, a);
    ConnectionKept(s, Add(s, id), a, b, slotA, slotB, ls);
    assert Backs(Add(s, id), i, ls, slotA, slotB);
  }

  lemma AddOwned(s: Store, id: string)
    requires LinksOwned(s)
    ensures LinksOwned(Add(s, id))
  {
    forall x, y ensures OwnedEntry(Add(s, id), x, y) {
      AddEntry(s, id, x, y);
      OwnedKept(s, Add(s, id), x, y);
    }
  }

  lemma AddSafe(s: Store, id: string)
    requires Safe(s) && id !in s.cards
    ensures Safe(Add(s, id))
  {
    AddOwned(s, id);
    forall i | 0 <= i < |s.links| && s.links[i].target.Slot? ensures Backed(Add(s, id), i) {
      assert Backed(s, i);
      AddKeeps(s, id, i);
    }
  }

  /** Adding a card that is already present forgets its registrations: the store stays
      safe exactly when no active link belongs to that card. */
  lemma ReAddSafeIff(s: Store, id: string)
    requires Safe(s) && id in s.cards
    ensures Safe(Add(s, id)) <==>
      forall i :: 0 <= i < |s.links| && s.links[i].target.Slot? ==> s.links[i].a != id && s.links[i].b != id
  {
    var t := Add(s, id);
    AddOwned(s, id);
    forall i | 0 <= i < |s.links| && s.links[i].target.Slot?
      ensures Backed(t, i) <==> s.links[i].a != id && s.links[i].b != id
    {
      var a, b := s.links[i].a, s.links[i].b;
      assert Backed(s, i);
      if a != id && b != id {
        AddKeeps(s, id, i);
      } else {
        AddEntry(s, id, a, b);
        AddEntry(s, id, b, a);
      }
    }
  }

  lemma UpdateSafe(s: Store, id: string, signature: string)
    requires Safe(s) && id in s.cards
    ensures Safe(Update(s, id, signature).result)
  {
    var t := Update(s, id, signature).result;
    assert forall x, y :: Entry(t, x, y) == Entry(s, x, y);
    forall x, y ensures OwnedEntry(t, x, y) {
      OwnedKept(s, t, x, y);
    }
    forall i | 0 <= i < |t.links| && t.links[i].target.Slot? ensures Backed(t, i) {
      assert Backed(s, i);
      var ls, slotA, slotB :| Backs(s, i, ls, slotA, slotB);
      ConnectionKept(s, t, s.links[i].a, s.links[i].b, slotA, slotB, ls);
      assert Backs(t, i, ls, slotA, slotB);
    }
  }

  lemma WiredAfterRemove(s: Store, id: string, a: string, b: string, slotA: string, slotB: string, ls: seq<nat>)
    requires LinksOwned(s) && id in s.cards && a != id && b != id
    requires Registered(s, a, b, ls) && Wired(s, a, b, slotA, slotB, ls)
    ensures Registered(Remove(s, id).result, a, b, ls) && Wired(Remove(s, id).result, a, b, slotA, slotB, ls)
  {
    var t := Remove(s, id).result;
    RemoveEntry(s, id, a, b);
    RemoveEntry(s, id, b, a);
    forall k | 0 <= k < 4 ensures t.links[ls[k]] == s.links[ls[k]] {
      forall other | other in s.cards[id].links && ls[k] in s.cards[id].links[other] ensures false {
        PairsApart(s, a, b, id, other, ls[k]);
      }
    }
    ConnectionKept(s, t, a, b, slotA, slotB, ls);
  }

  /** All links of a removed card go to dummies, including those its neighbours keep. */
  lemma RemoveSafe(s: Store, id: string)
    requires Safe(s) && id in s.cards
    ensures Safe(Remove(s, id).result)
  {
    var t := Remove(s, id).result;
    forall x, y ensures OwnedEntry(t, x, y) {
      RemoveEntry(s, id, x, y);
      OwnedKept(s, t, x, y);
    }
    forall i | 0 <= i < |t.links| && t.links[i].target.Slot? ensures Backed(t, i) {
      assert Backed(s, i);
      var a, b := s.links[i].a, s.links[i].b;
      var ls, slotA, slotB :| Backs(s, i, ls, slotA, slotB);
      assert a != id && b != id;
      WiredAfterRemove(s, id, a, b, slotA, slotB, ls);
      assert Backs(t, i, ls, slotA, slotB);
    }
  }

  /** Connections of other pairs are untouched by a disconnection. */
  lemma WiredAfterDisconnect(s: Store, x: string, y: string, a: string, b: string, slotA: string, slotB: string,
                             ls: seq<nat>)
    requires LinksOwned(s) && x in s.cards && y in s.cards[x].links && !SamePair(a, b, x, y)
    requires Registered(s, a, b, ls) && Wired(s, a, b, slotA, slotB, ls)
    ensures Registered(Disconnect(s, x, y), a, b, ls) && Wired(Disconnect(s, x, y), a, b, slotA, slotB, ls)
  {
    var t := Disconnect(s, x, y);
    DisconnectEntry(s, x, y, a, b);
    DisconnectEntry(s, x, y, b, a);
    forall k | 0 <= k < 4 ensures t.links[ls[k]] == s.links[ls[k]] {
      if ls[k] in s.cards[x].links[y] {
        PairsApart(s, a, b, x, y, ls[k]);
      }
    }
    ConnectionKept(s, t, a, b, slotA, slotB, ls);
  }

  lemma DisconnectSafe(s: Store, x: string, y: string)
    requires Safe(s) && x in s.cards && y in s.cards[x].links
    ensures Safe(Disconnect(s, x, y))
  {
    var t := Disconnect(s, x, y);
    forall a, b ensures OwnedEntry(t, a, b) {
      DisconnectEntry(s, x, y, a, b);
      OwnedKept(s, t, a, b);
    }
    forall i | 0 <= i < |t.links| && t.links[i].target.Slot? ensures Backed(t, i) {
      assert t.links[i] == s.links[i] && i !in s.cards[x].links[y];
      assert Backed(s, i);
      var a, b := s.links[i].a, s.links[i].b;
      var ls, slotA, slotB :| Backs(s, i, ls, slotA, slotB);
      assert !SamePair(a, b, x, y);
      WiredAfterDisconnect(s, x, y, a, b, slotA, slotB, ls);
      assert Backs(t, i, ls, slotA, slotB);
    }
  }

  /** A new connection is registered and wired. */
  lemma AttachWires(t: Store, a: string, b: string, slotA: string, slotB: string)
    requires a in t.cards && b in t.cards
    ensures var n := |t.links|; var ls := [n, n + 1, n + 2, n + 3];
      Registered(Attach(t, a, b, slotA, slotB), a, b, ls) &&
        Wired(Attach(t, a, b, slotA, slotB), a, b, slotA, slotB, ls)
  {
    AttachEntry(t, a, b, slotA, slotB, a, b);
    AttachEntry(t, a, b, slotA, slotB, b, a);
  }

  /** Other connections stay. */
  lemma WiredAfterAttach(t: Store, a: string, b: string, slotA: string, slotB: string,
                         x: string, y: string, sx: string, sy: string, ls: seq<nat>)
    requires a in t.cards && b in t.cards && !SamePair(x, y, a, b)
    requires Registered(t, x, y, ls) && Wired(t, x, y, sx, sy, ls)
    ensures Registered(Attach(t, a, b, slotA, slotB), x, y, ls) &&
      Wired(Attach(t, a, b, slotA, slotB), x, y, sx, sy, ls)
  {
    AttachEntry(t, a, b, slotA, slotB, x, y);
    AttachEntry(t, a, b, slotA, slotB, y, x);
    assert forall i :: 0 <= i < |t.links| ==> Attach(t, a, b, slotA, slotB).links[i] == t.links[i];
    ConnectionKept(t, Attach(t, a, b, slotA, slotB), x, y, sx, sy, ls);
  }

  lemma AttachOwned(t: Store, a: string, b: string, slotA: string, slotB: string)
    requires LinksOwned(t) && a in t.cards && b in t.cards
    ensures LinksOwned(Attach(t, a, b, slotA, slotB))
  {
    var n, u := |t.links|, Attach(t, a, b, slotA, slotB);
    assert forall k :: 0 <= k < 4 ==> u.links[n + k] == NewLinks(t, a, b, slotA, slotB)[k];
    forall x, y ensures OwnedEntry(u, x, y) {
      AttachEntry(t, a, b, slotA, slotB, x, y);
      if SamePair(x, y, a, b) {
        forall i | i in Entry(u, x, y).value ensures OwnedLink(u, i, x, y) {
          assert u.links[n + (i - n)] == NewLinks(t, a, b, slotA, slotB)[i - n];
        }
      } else {
        OwnedKept(t, u, x, y);
      }
    }
  }

  /** With no entry for `b` left in `a`, a new connection keeps the store safe. */
  lemma AttachSafe(t: Store, a: string, b: string, slotA: string, slotB: string)
    requires Safe(t) && a in t.cards && b in t.cards && b !in t.cards[a].links
    ensures Safe(Attach(t, a, b, slotA, slotB))
  {
    var n, u := |t.links|, Attach(t, a, b, slotA, slotB);
    AttachOwned(t, a, b, slotA, slotB);
    forall i | 0 <= i < |u.links| && u.links[i].target.Slot? ensures Backed(u, i) {
      if i < n {
        assert u.links[i] == t.links[i];
        AttachKeeps(t, a, b, slotA, slotB, i);
      } else {
        AttachBacks(t, a, b, slotA, slotB, i);
      }
    }
  }

  lemma AttachKeeps(t: Store, a: string, b: string, slotA: string, slotB: string, i: nat)
    requires a in t.cards && b in t.cards && b !in t.cards[a].links
    requires i < |t.links| && Backed(t, i)
    ensures Backed(Attach(t, a, b, slotA, slotB), i)
  {
    var x, y := t.links[i].a, t.links[i].b;
    var ls, sx, sy :| Backs(t, i, ls, sx, sy);
    assert !SamePair(x, y, a, b);
    WiredAfterAttach(t, a, b, slotA, slotB, x, y, sx, sy, ls);
    assert Attach(t, a, b, slotA, slotB).links[i] == t.links[i];
    assert Backs(Attach(t, a, b, slotA, slotB), i, ls, sx, sy);
  }

  lemma AttachBacks(t: Store, a: string, b: string, slotA: string, slotB: string, i: nat)
    requires a in t.cards && b in t.cards && |t.links| <= i < |Attach(t, a, b, slotA, slotB).links|
    ensures Backed(Attach(t, a, b, slotA, slotB), i)
  {
    var n := |t.links|;
    AttachWires(t, a, b, slotA, slotB);
    assert Attach(t, a, b, slotA, slotB).links[i] == NewLinks(t, a, b, slotA, slotB)[i - n];
    var ls := [n, n + 1, n + 2, n + 3];
    assert i == ls[i - n];
    assert Backs(Attach(t, a, b, slotA, slotB), i, ls, slotA, slotB);
  }

  lemma ClearedSafe(s: Store, a: string, b: string)
    requires Safe(s) && a in s.cards
    ensures Safe(Cleared(s, a, b)) && Cleared(s, a, b).cards.Keys == s.cards.Keys
    ensures b !in Cleared(s, a, b).cards[a].links
  {
    if b in s.cards[a].links {
      DisconnectSafe(s, a, b);
      DisconnectEntry(s, a, b, a, b);
    }
  }

  // ---- Runs ----

  datatype Command =
    | DoAdd(id: string)
    | DoRemove(id: string)
    | DoConnect(a: string, b: string, slotA: string, slotB: string)
    | DoDetach(a: string, b: string) | DoUpdate(id: string, signature: string)

  /** The store after a command, whether it completes or throws. Cards are only added
      when absent. */
  function Execute(s: Store, c: Command): Store {
    match c
    case DoAdd(id) => if id in s.cards then s else Add(s, id)
    case DoRemove(id) => (match Remove(s, id) case Done(t) => t case Thrown => s)
    case DoConnect(a, b, slotA, slotB) =>
      (match Connect(s, a, b, slotA, slotB)
       case Done(t) => t
       case Thrown => if a in s.cards && b in s.cards then Cleared(s, a, b) else s)
    case DoDetach(a, b) => (match Detach(s, a, b) case Done(t) => t case Thrown => s)
    case DoUpdate(id, signature) => (match Update(s, id, signature) case Done(t) => t case Thrown => s)
  }

  function ExecuteAll(s: Store, cs: seq<Command>): Store {
    if cs == [] then s else Execute(ExecuteAll(s, cs[..|cs| - 1]), cs[|cs| - 1])
  }

  /** In every run, a link that still points at a slot is one of the four links of a
      connection that both of its cards, alive, register under the same list; all other
      links ever created point at a dummy. */
  lemma {:induction false} RunsAreSafe(cs: seq<Command>)
    ensures Safe(ExecuteAll(EMPTY, cs))
  {
    if cs != [] {
      RunsAreSafe(cs[..|cs| - 1]);
      var s := ExecuteAll(EMPTY, cs[..|cs| - 1]);
      match cs[|cs| - 1] {
        case DoAdd(id) => if id !in s.cards { AddSafe(s, id); }
        case DoRemove(id) => if id in s.cards { RemoveSafe(s, id); }
        case DoConnect(a, b, slotA, slotB) =>
          if a in s.cards && b in s.cards {
            ClearedSafe(s, a, b);
            AttachSafe(Cleared(s, a, b), a, b, slotA, slotB);
          }
        case DoDetach(a, b) => if Detach(s, a, b).Done? { DisconnectSafe(s, a, b); }
        case DoUpdate(id, signature) => if id in s.cards { UpdateSafe(s, id, signature); }
      }
    }
  }
}
