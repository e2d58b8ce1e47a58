// The card registry as it runs: metadata and link cells updated in place, events applied
// one after the other, and a session that pushes deltas through both.
module CardRegistry {
  import opened Common
  import opened Slots = SlotMap
  import opened CardStore
  import opened CardSync

  class Registry {
    var cards: map<string, Card>
    var links: seq<Link>
    var created: nat

    function Contents(): Store
      reads this
    {
      Store(cards, links, created)
    }

    /** Registered links exist. */
    predicate Valid()
      reads this
    {
      forall x, y, i :: x in cards && y in cards[x].links && i in cards[x].links[y] ==> i < |links|
    }

    constructor ()
      ensures Valid() && Contents() == EMPTY
    {
      cards, links, created := map[], [], 0;
    }

    method AddCard(id: string)
      requires Valid()
      modifies this
      ensures Valid() && Contents() == Add(old(Contents()), id)
    {
      cards := cards[id := Card(created, map[], None)];
      created := created + 1;
    }

    method UpdateCard(id: string, signature: string) returns (ok: bool)
      requires Valid()
      modifies `cards
      ensures Valid()
      ensures if ok then Update(old(Contents()), id, signature) == Done(Contents())
              else Update(old(Contents()), id, signature) == Thrown && unchanged(this)
    {
      ok := id in cards;
      if ok {
        cards := cards[id := cards[id].(code := Some(signature))];
      }
    }

    /** Point each of these link cells at a throwaway cell. */
    method RedirectLinks(ls: seq<nat>)
      requires forall i :: i in ls ==> i < |links|
      modifies `links
      ensures links == Redirect(old(links), ls)
    {
      for k := 0 to |ls|
        invariant |links| == |old(links)|
        invariant links == Redirect(old(links), ls[..k])
      {
        assert ls[k] in ls;
        links := links[ls[k] := links[ls[k]].(target := Dummy)];
        assert forall i :: i in ls[..k + 1] <==> i in ls[..k] || i == ls[k];
      }
      assert ls[..|ls|] == ls;
    }

    method RemoveCard(id: string) returns (ok: bool)
      requires Valid()
      modifies this
      ensures Valid()
      ensures if ok then Remove(old(Contents()), id) == Done(Contents())
              else Remove(old(Contents()), id) == Thrown && unchanged(this)
    {
      ok := id in cards;
      if ok {
        var table := cards[id].links;
        var rest := table.Keys;
        while rest != {}
          modifies `links
          invariant rest <= table.Keys && |links| == |old(links)|
          invariant links == RedirectAll(old(links), map y | y in table && y !in rest :: table[y])
          decreases rest
        {
          var y :| y in rest;
          ghost var before := map z | z in table && z !in rest :: table[z];
          ghost var after := map z | z in table && z !in rest - {y} :: table[z];
          RedirectLinks(table[y]);
          rest := rest - {y};
          assert after == before[y := table[y]];
          RedirectOneMore(old(links), before, y, table[y]);
        }
        assert (map y | y in table && y !in rest :: table[y]) == table;
        cards := cards - {id};
      }
    }

    method DetachCards(a: string, b: string) returns (ok: bool)
      requires Valid()
      modifies this
      ensures Valid()
      ensures if ok then Detach(old(Contents()), a, b) == Done(Contents())
              else Detach(old(Contents()), a, b) == Thrown && unchanged(this)
    {
      ok := a in cards && b in cards && b in cards[a].links;
      if ok {
        Drop(a, b);
      }
    }

    method Drop(a: string, b: string)
      requires Valid() && a in cards && b in cards[a].links
      modifies this
      ensures Valid() && Contents() == Disconnect(old(Contents()), a, b)
    {
      RedirectLinks(cards[a].links[b]);
      cards := cards[a := cards[a].(links := cards[a].links - {b})];
      if b in cards {
        cards := cards[b := cards[b].(links := cards[b].links - {a})];
      }
    }

    /** A slot nobody tracks throws, but only after the previous connection is gone. */
    method ConnectCards(a: string, b: string, slotA: string, slotB: string) returns (ok: bool)
      requires Valid()
      modifies this
      ensures Valid()
      ensures if ok then Connect(old(Contents()), a, b, slotA, slotB) == Done(Contents())
              else Connect(old(Contents()), a, b, slotA, slotB) == Thrown
      ensures !ok ==>
        Contents() == if a in old(cards) && b in old(cards) then Cleared(old(Contents()), a, b) else old(Contents())
    {
      ok := a in cards && b in cards;
      if ok {
        if b in cards[a].links {
          Drop(a, b);
        }
        ok := slotA in TRACKED && slotB in TRACKED;
        if ok {
          LinkCards(a, b, slotA, slotB);
        }
      }
    }

    /** Create the four links of a connection and register them with both cards. */
    method LinkCards(a: string, b: string, slotA: string, slotB: string)
      requires Valid() && a in cards && b in cards
      modifies this
      ensures Valid() && Contents() == Attach(old(Contents()), a, b, slotA, slotB)
    {
      var n := |links|;
      links := links + [Link(a, b, Slot(cards[b].owner, SLOT_THIS)), Link(a, b, Slot(cards[a].owner, slotA)),
                        Link(a, b, Slot(cards[a].owner, SLOT_THIS)), Link(a, b, Slot(cards[b].owner, slotB))];
      var ls := [n, n + 1, n + 2, n + 3];
      cards := cards[a := cards[a].(links := cards[a].links[b := ls])];
      cards := cards[b := cards[b].(links := cards[b].links[a := ls])];
    }

    /** Events are applied in order until one throws. */
    method ApplyEvents(events: seq<Event>) returns (ok: bool, done: nat)
      requires Valid()
      modifies this
      ensures Valid() && done <= |events|
      ensures if ok then ApplyAll(old(Contents()), events) == Done(Contents())
        else ApplyAll(old(Contents()), events) == Thrown
      ensures ApplyAll(old(Contents()), events[..done]).Done?
      ensures if ok then done == |events|
              else done < |events| && Apply(ApplyAll(old(Contents()), events[..done]).result, events[done]) == Thrown
    {
      ghost var start := Contents();
      ok, done := true, 0;
      while ok && done < |events|
        invariant Valid() && done <= |events|
        invariant ok ==> ApplyAll(start, events[..done]) == Done(Contents())
        invariant !ok ==>
          && done < |events| && ApplyAll(start, events[..done]).Done?
          && Apply(ApplyAll(start, events[..done]).result, events[done]) == Thrown
        decreases |events| - done, ok
      {
        ghost var before := Contents();
        match events[done] {
          case CardDetach(a, b) => ok := DetachCards(a, b);
          case CardRemove(id) => ok := RemoveCard(id);
          case CardAdd(id) => AddCard(id);
          case CardConnect(a, slotA, b, slotB) => ok := ConnectCards(a, b, slotA, slotB);
          case CardUpdate(id, ref) => ok := UpdateCard(id, ref.signature);
        }
        if ok {
          assert Apply(before, events[done]) == Done(Contents());
          ApplyOneMore(start, events, done);
          done := done + 1;
        }
      }
      assert events[..|events|] == events;
      if !ok { ThrownStays(start, events, done); }
    }
  }

  lemma RedirectOneMore(links: seq<Link>, before: map<string, seq<nat>>, y: string, ls: seq<nat>)
    requires y !in before
    ensures Redirect(RedirectAll(links, before), ls) == RedirectAll(links, before[y := ls])
  {
    var after := before[y := ls];
    forall i | 0 <= i < |links|
      ensures (exists z :: z in after && i in after[z]) <==> i in ls || exists z :: z in before && i in before[z]
    {
      if i in ls { assert y in after && i in after[y]; }
      if z :| z in before && i in before[z] { assert z in after && i in after[z]; }
    }
  }

  lemma ApplyOneMore(s: Store, events: seq<Event>, k: nat)
    requires k < |events| && ApplyAll(s, events[..k]).Done?
    ensures ApplyAll(s, events[..k + 1]) == Apply(ApplyAll(s, events[..k]).result, events[k])
  {
    assert events[..k + 1] == events[..k] + [events[k]];
    ApplyAppend(s, events[..k], [events[k]]);
  }

  lemma ThrownStays(s: Store, events: seq<Event>, k: nat)
    requires k < |events| && ApplyAll(s, events[..k]).Done?
    requires Apply(ApplyAll(s, events[..k]).result, events[k]) == Thrown
    ensures ApplyAll(s, events) == Thrown
  {
    assert events == events[..k] + events[k..];
    ApplyAppend(s, events[..k], events[k..]);
  }
}
