// Slot maps sent by a client: keys, card references, structural edges, deltas, and the
// list of card events that leads from one map to the next.
module SlotMap {
  import opened Common

  // ---- Keys ----

  const SLOT_LEFT := "::left"
  const SLOT_RIGHT := "::right"
  const SLOT_ABOVE := "::above"
  const SLOT_BELOW := "::below"
  const SLOT_CODE := "code"

  /** Position of the first "::". */
  function SeparatorAt(key: string): Option<nat> {
    if |key| < 2 then None
    else if key[..2] == "::" then Some(0)
    else match SeparatorAt(key[1..])
      case None => None
      case Some(i) => Some(i + 1)
  }

  lemma {:induction false} SeparatorBounds(key: string)
    ensures SeparatorAt(key).Some? ==> SeparatorAt(key).value + 2 <= |key|
  {
    if |key| >= 2 && key[..2] != "::" {
      SeparatorBounds(key[1..]);
    }
  }

  /** Split a key into card id and slot; a final "code" wins over "::". */
  function KeyToCardAndSlot(key: string): (string, string) {
    SeparatorBounds(key);
    if |key| >= 4 && key[|key| - 4..] == SLOT_CODE then (key[..|key| - 4], SLOT_CODE)
    else match SeparatorAt(key)
      case Some(i) => (key[..i], key[i..])
      case None => (key, "")
  }

  /** A key that parses to slot "code" is the card id followed by "code". */
  lemma {:induction false} CodeKey(key: string)
    ensures KeyToCardAndSlot(key).1 == SLOT_CODE ==> key == KeyToCardAndSlot(key).0 + SLOT_CODE
  {
    SeparatorBounds(key);
    if |key| >= 4 && key[|key| - 4..] == SLOT_CODE {
    } else if SeparatorAt(key).Some? {
      SeparatorHere(key);
    }
  }

  lemma {:induction false} SeparatorHere(key: string)
    requires SeparatorAt(key).Some?
    ensures var i := SeparatorAt(key).value; i + 2 <= |key| && key[i..][..2] == "::"
  {
    if key[..2] != "::" {
      SeparatorHere(key[1..]);
      assert key[1..][SeparatorAt(key).value - 1..] == key[SeparatorAt(key).value..];
    } else {
      assert key[0..] == key;
    }
  }

  function InverseSlot(slot: string): Option<string> {
    if slot == SLOT_LEFT then Some(SLOT_RIGHT)
    else if slot == SLOT_RIGHT then Some(SLOT_LEFT)
    else if slot == SLOT_ABOVE then Some(SLOT_BELOW)
    else if slot == SLOT_BELOW then Some(SLOT_ABOVE)
    else None
  }

  // ---- What a key names ----

  ghost predicate SeparatorStarts(key: string, i: nat) {
    i + 2 <= |key| && key[i] == ':' && key[i + 1] == ':'
  }

  /** The key is a card id with the slot "code" behind it; failing that, an id and a slot
      that starts at the first "::"; failing that, an id alone. */
  ghost predicate ParsesTo(key: string, card: string, slot: string) {
    if exists x :: key == x + "code" then key == card + "code" && slot == "code"
    else
      && key == card + slot
      && (slot == "" || SeparatorStarts(key, |card|))
      && forall i :: 0 <= i < |card| ==> !SeparatorStarts(key, i)
  }

  lemma ParseExact(key: string, card: string, slot: string)
    ensures KeyToCardAndSlot(key) == (card, slot) <==> ParsesTo(key, card, slot)
  {
    EndsInCode(key);
    if |key| >= 4 && key[|key| - 4..] == "code" {
      assert forall x :: key == x + "code" ==> x == key[..|key| - 4];
    } else {
      SplitExact(key, card, slot);
    }
  }

  lemma EndsInCode(key: string)
    ensures (exists x :: key == x + "code") <==> |key| >= 4 && key[|key| - 4..] == "code"
    ensures |key| >= 4 && key[|key| - 4..] == "code" ==> key == key[..|key| - 4] + "code"
  {
    if x :| key == x + "code" {
      assert key[|x|..] == "code";
    }
    if |key| >= 4 && key[|key| - 4..] == "code" {
      assert key == key[..|key| - 4] + "code";
    }
  }

  lemma SplitExact(key: string, card: string, slot: string)
    ensures SeparatorAt(key).Some? ==> SeparatorAt(key).value + 2 <= |key|
    ensures (match SeparatorAt(key) case None => (key, "") case Some(i) => (key[..i], key[i..])) == (card, slot) <==>
      && key == card + slot
      && (slot == "" || SeparatorStarts(key, |card|))
      && forall i :: 0 <= i < |card| ==> !SeparatorStarts(key, i)
  {
    SeparatorExact(key);
    if key == card + slot { assert key[..|card|] == card && key[|card|..] == slot; }
    if SeparatorAt(key).Some? {
      var n := SeparatorAt(key).value;
      assert SeparatorStarts(key, n) && key == key[..n] + key[n..];
      if key == card + slot && (slot == "" || SeparatorStarts(key, |card|))
         && (forall i :: 0 <= i < |card| ==> !SeparatorStarts(key, i)) {
        assert n >= |card|;
        assert n == |card|;
      }
    } else if key == card + slot && slot == "" {
      assert key == card;
    }
  }

  lemma {:induction false} SeparatorExact(key: string)
    ensures SeparatorAt(key) == None ==> forall i: nat :: !SeparatorStarts(key, i)
    ensures var at := SeparatorAt(key);
      at.Some? ==> SeparatorStarts(key, at.value) && forall i :: 0 <= i < at.value ==> !SeparatorStarts(key, i)
  {
    if |key| >= 2 && key[..2] != "::" {
      SeparatorExact(key[1..]);
      assert !SeparatorStarts(key, 0) by { assert key[0] == key[..2][0] && key[1] == key[..2][1]; }
      assert forall i: nat :: i > 0 ==> (SeparatorStarts(key, i) <==> SeparatorStarts(key[1..], i - 1));
    }
  }

  // ---- Card references ----

  datatype Json =
    | JUndefined | JNull | JBool(b: bool) | JNumber(n: int) | JString(s: string)
    | JArray(items: seq<Json>) | JObject(fields: map<string, Json>)

  /** `signature` is the text by which two values are compared. */
  datatype CardRef = CardRef(id: string, value: Json, signature: string)

  function Get(v: Json, k: string): Json {
    if v.JObject? && k in v.fields then v.fields[k] else JUndefined
  }

  function Coalesce(a: Json, b: Json): Json {
    if a.JUndefined? || a.JNull? then b else a
  }

  predicate NonEmptyString(v: Json) {
    v.JString? && v.s != ""
  }

  function TagOf(v: Json): Json {
    Coalesce(Get(v, "kind"), Coalesce(Get(v, "type"), Get(v, "tag")))
  }

  function LooseId(v: Json): Json {
    Coalesce(Get(v, "card_id"), Coalesce(Get(v, "cardId"), Coalesce(Get(v, "target_id"), Get(v, "targetId"))))
  }

  /** The card a reference points at: a tagged pair, a tagged object, an object with a
      target id, or else the id of the reference itself. */
  function ExtractCardIdRef(ref: CardRef): Option<string> {
    var v := ref.value;
    var loose, tag := LooseId(v), TagOf(v);
    if v.JArray? && |v.items| > 1 && v.items[0] == JString("CardIdRef") && v.items[1].JString? then Some(v.items[1].s)
    else if tag == JString("CardIdRef") && NonEmptyString(Coalesce(loose, Get(v, "id"))) then
      Some(Coalesce(loose, Get(v, "id")).s)
    else if NonEmptyString(loose) then Some(loose.s)
    else if ref.id != "" then Some(ref.id)
    else None
  }

  // ---- What a reference names ----

  ghost predicate Holds(v: Json, name: string, x: Json) {
    v.JObject? && name in v.fields && v.fields[name] == x && !x.JNull? && !x.JUndefined?
  }

  ghost predicate Lacks(v: Json, name: string) {
    v.JObject? && name in v.fields ==> v.fields[name].JNull? || v.fields[name].JUndefined?
  }

  /** The first of these fields that is neither missing nor null is `x`. */
  ghost predicate FirstField(v: Json, names: seq<string>, x: Json) {
    exists i :: 0 <= i < |names| && Holds(v, names[i], x) && forall j :: 0 <= j < i ==> Lacks(v, names[j])
  }

  lemma FirstFieldStep(v: Json, names: seq<string>, x: Json)
    ensures names == [] ==> !FirstField(v, names, x)
    ensures names != [] ==>
      (FirstField(v, names, x) <==> Holds(v, names[0], x) || (Lacks(v, names[0]) && FirstField(v, names[1..], x)))
  {
    if names != [] {
      if FirstField(v, names, x) {
        var i :| 0 <= i < |names| && Holds(v, names[i], x) && forall j :: 0 <= j < i ==> Lacks(v, names[j]);
        if i > 0 { assert Holds(v, names[1..][i - 1], x) && Lacks(v, names[0]); }
      }
      if Lacks(v, names[0]) && FirstField(v, names[1..], x) {
        var rest := names[1..];
        var i :| 0 <= i < |rest| && Holds(v, rest[i], x) && forall j :: 0 <= j < i ==> Lacks(v, rest[j]);
        forall j | 0 <= j < i + 1 ensures Lacks(v, names[j]) {
          if j > 0 { assert names[j] == rest[j - 1]; }
        }
        assert Holds(v, names[i + 1], x);
      }
    }
  }

  ghost predicate PairRef(v: Json, t: string) {
    v.JArray? && |v.items| > 1 && v.items[0] == JString("CardIdRef") && v.items[1] == JString(t)
  }

  ghost predicate TaggedRef(v: Json, t: string) {
    && FirstField(v, ["kind", "type", "tag"], JString("CardIdRef"))
    && FirstField(v, ["card_id", "cardId", "target_id", "targetId", "id"], JString(t)) && t != ""
  }

  ghost predicate LooseRef(v: Json, t: string) {
    FirstField(v, ["card_id", "cardId", "target_id", "targetId"], JString(t)) && t != ""
  }

  /** The card a reference names: the earliest of the four forms that applies decides. */
  ghost predicate Refers(ref: CardRef, t: string) {
    if exists x :: PairRef(ref.value, x) then PairRef(ref.value, t)
    else if exists x :: TaggedRef(ref.value, x) then TaggedRef(ref.value, t)
    else if exists x :: LooseRef(ref.value, x) then LooseRef(ref.value, t)
    else t == ref.id && t != ""
  }

  lemma TagExact(v: Json, s: string)
    ensures FirstField(v, ["kind", "type", "tag"], JString(s)) <==> TagOf(v) == JString(s)
  {
    var names := ["kind", "type", "tag"];
    FirstFieldStep(v, names, JString(s));
    FirstFieldStep(v, names[1..], JString(s));
    FirstFieldStep(v, names[1..][1..], JString(s));
    FirstFieldStep(v, names[1..][1..][1..], JString(s));
  }

  lemma IdExact(v: Json, s: string, last: seq<string>)
    requires |last| <= 1
    ensures FirstField(v, ["card_id", "cardId", "target_id", "targetId"] + last, JString(s)) <==>
      (if last == [] then LooseId(v) else Coalesce(LooseId(v), Get(v, last[0]))) == JString(s)
  {
    var names := ["card_id", "cardId", "target_id", "targetId"] + last;
    var two := names[1..][1..];
    FirstFieldStep(v, names, JString(s));
    FirstFieldStep(v, names[1..], JString(s));
    FirstFieldStep(v, two, JString(s));
    FirstFieldStep(v, two[1..], JString(s));
    FirstFieldStep(v, two[1..][1..], JString(s));
    assert two[1..][1..] == last;
    if last != [] { FirstFieldStep(v, last[1..], JString(s)); }
  }

  /** Which card each of the four forms names. */
  lemma RefExact(ref: CardRef, t: string)
    ensures ExtractCardIdRef(ref) == Some(t) <==> Refers(ref, t)
  {
    var v := ref.value;
    var names := ["card_id", "cardId", "target_id", "targetId"];
    assert names + [] == names && names + ["id"] == ["card_id", "cardId", "target_id", "targetId", "id"];
    TagExact(v, "CardIdRef");
    forall s ensures TaggedRef(v, s) <==>
      TagOf(v) == JString("CardIdRef") && Coalesce(LooseId(v), Get(v, "id")) == JString(s) && s != ""
    {
      IdExact(v, s, ["id"]);
    }
    forall s ensures LooseRef(v, s) <==> LooseId(v) == JString(s) && s != "" {
      IdExact(v, s, []);
    }
    DecidedInOrder(ref, t);
  }

  lemma DecidedInOrder(ref: CardRef, t: string)
    requires var v := ref.value; forall s :: TaggedRef(v, s) <==>
      TagOf(v) == JString("CardIdRef") && Coalesce(LooseId(v), Get(v, "id")) == JString(s) && s != ""
    requires forall s :: LooseRef(ref.value, s) <==> LooseId(ref.value) == JString(s) && s != ""
    ensures ExtractCardIdRef(ref) == Some(t) <==> Refers(ref, t)
  {
    var v := ref.value;
    var id := Coalesce(LooseId(v), Get(v, "id"));
    assert (exists x :: PairRef(v, x)) <==>
      v.JArray? && |v.items| > 1 && v.items[0] == JString("CardIdRef") && v.items[1].JString? by {
      if v.JArray? && |v.items| > 1 && v.items[1].JString? && v.items[0] == JString("CardIdRef") {
        assert PairRef(v, v.items[1].s);
      }
    }
    assert (exists x :: TaggedRef(v, x)) <==> TagOf(v) == JString("CardIdRef") && NonEmptyString(id) by {
      if NonEmptyString(id) && TagOf(v) == JString("CardIdRef") { assert TaggedRef(v, id.s); }
    }
    assert (exists x :: LooseRef(v, x)) <==> NonEmptyString(LooseId(v)) by {
      if NonEmptyString(LooseId(v)) { assert LooseRef(v, LooseId(v).s); }
    }
  }

  type SlotMap = map<string, CardRef>

  function CardIds(m: SlotMap): set<string> {
    set k | k in m && KeyToCardAndSlot(k).0 != "" :: KeyToCardAndSlot(k).0
  }

  /** The map has an entry for this card. */
  ghost predicate HasCard(m: SlotMap, card: string) {
    card != "" && exists k, slot :: k in m && ParsesTo(k, card, slot)
  }

  lemma CardsExact(m: SlotMap)
    ensures forall card :: card in CardIds(m) <==> HasCard(m, card)
  {
    forall card ensures card in CardIds(m) <==> HasCard(m, card) {
      if card in CardIds(m) {
        var k :| k in m && KeyToCardAndSlot(k).0 == card && card != "";
        ParseExact(k, card, KeyToCardAndSlot(k).1);
      }
      if HasCard(m, card) {
        var k, slot :| k in m && ParsesTo(k, card, slot);
        ParseExact(k, card, slot);
      }
    }
  }

  // ---- Edges ----

  datatype Edge = Edge(fromId: string, fromSlot: string, toId: string, toSlot: string)

  function EdgeKey(e: Edge): string {
    e.fromId + "|" + (e.fromSlot + "|" + (e.toId + "|" + e.toSlot))
  }

  function Flip(e: Edge): Edge {
    Edge(e.toId, e.toSlot, e.fromId, e.fromSlot)
  }

  /** The UTF-16 code units of a character. */
  function Units(c: char): seq<int> {
    var n := c as int;
    if n < 0x1_0000 then [n] else [0xD800 + (n - 0x1_0000) / 0x400, 0xDC00 + (n - 0x1_0000) % 0x400]
  }

  /** Strings are compared by code units, so the surrogates of a character beyond the basic
      plane come before the characters from 0xE000 on. */
  function Rank(c: char): int {
    if 0xE000 <= c as int < 0x1_0000 then c as int + 0x11_0000 else c as int
  }

  /** The rank decides as the first different code unit does. */
  lemma RankIsUnitOrder(c: char, d: char)
    requires c != d
    ensures var u, v := Units(c), Units(d);
      (u[0] != v[0] && (Rank(c) < Rank(d) <==> u[0] < v[0])) ||
      (u[0] == v[0] && |u| == |v| == 2 && u[1] != v[1] && (Rank(c) < Rank(d) <==> u[1] < v[1]))
  {
  }

  function StringLe(a: string, b: string): bool {
    if a == "" then true
    else if b == "" then false
    else if a[0] != b[0] then Rank(a[0]) < Rank(b[0])
    else StringLe(a[1..], b[1..])
  }

  lemma {:induction false} StringLeTotal(a: string, b: string)
    ensures StringLe(a, b) || StringLe(b, a)
    ensures StringLe(a, b) && StringLe(b, a) ==> a == b
  {
    if a != "" && b != "" && a[0] == b[0] {
      StringLeTotal(a[1..], b[1..]);
      assert a == [a[0]] + a[1..] && b == [b[0]] + b[1..];
    }
  }

  ghost function Utf16(s: string): seq<int> {
    if s == "" then [] else Units(s[0]) + Utf16(s[1..])
  }

  /** A unit, or a surrogate pair, determines the character as UTF-16 says. */
  lemma UnitsDecode(c: char)
    ensures var u := Units(c);
      || (u == [c as int] && (c as int < 0xD800 || 0xE000 <= c as int < 0x1_0000))
      || (|u| == 2 && 0xD800 <= u[0] < 0xDC00 <= u[1] < 0xE000
          && c as int == 0x1_0000 + 0x400 * (u[0] - 0xD800) + (u[1] - 0xDC00))
  {
  }

  /** Strings are compared by their UTF-16 code units. */
  lemma {:induction false} StringLeExact(a: string, b: string)
    ensures StringLe(a, b) <==> Precedes(Utf16(a), Utf16(b))
  {
    PrecedesFirst(Utf16(a), Utf16(b));
    if a != "" && b != "" {
      var u, v := Units(a[0]), Units(b[0]);
      PrecedesFirst(Utf16(a)[1..], Utf16(b)[1..]);
      if a[0] == b[0] {
        StringLeExact(a[1..], b[1..]);
        assert Utf16(a)[|u|..] == Utf16(a[1..]) && Utf16(b)[|u|..] == Utf16(b[1..]);
        assert |u| == 2 ==> Utf16(a)[1..][1..] == Utf16(a)[2..] && Utf16(b)[1..][1..] == Utf16(b)[2..];
      } else {
        RankIsUnitOrder(a[0], b[0]);
      }
    }
  }

  /** Of the two directions of an edge, the one with the smaller key. */
  function Canonical(e: Edge): Edge {
    if StringLe(EdgeKey(e), EdgeKey(Flip(e))) then e else Flip(e)
  }

  function EdgeOf(key: string, ref: CardRef): Option<Edge> {
    var (card, slot) := KeyToCardAndSlot(key);
    match InverseSlot(slot)
    case None => None
    case Some(inverse) =>
      match ExtractCardIdRef(ref)
      case None => None
      case Some(target) => if target == "" then None else Some(Canonical(Edge(card, slot, target, inverse)))
  }

  function EdgeSet(m: SlotMap): set<Edge> {
    set k | k in m && EdgeOf(k, m[k]).Some? :: EdgeOf(k, m[k]).value
  }

  // ---- What an entry declares ----

  /** The slots of neighbours: left of one is right of the other, above is below. */
  ghost predicate Facing(slot: string, other: string) {
    || (slot == "::left" && other == "::right")
    || (slot == "::right" && other == "::left")
    || (slot == "::above" && other == "::below")
    || (slot == "::below" && other == "::above")
  }

  /** The entry says that the slot of its card faces the card it refers to. */
  ghost predicate Declares(key: string, ref: CardRef, d: Edge) {
    ParsesTo(key, d.fromId, d.fromSlot) && Facing(d.fromSlot, d.toSlot) && Refers(ref, d.toId) && d.toId != ""
  }

  /** Of an edge and its reverse, the one whose printed form is the smaller text. */
  ghost predicate SmallerForm(d: Edge, e: Edge) {
    var there := d.fromId + "|" + d.fromSlot + "|" + d.toId + "|" + d.toSlot;
    var back := d.toId + "|" + d.toSlot + "|" + d.fromId + "|" + d.fromSlot;
    e == if Precedes(Utf16(there), Utf16(back)) then d else Edge(d.toId, d.toSlot, d.fromId, d.fromSlot)
  }

  ghost predicate DeclaredBy(m: SlotMap, k: string, d: Edge, e: Edge) {
    k in m && Declares(k, m[k], d) && SmallerForm(d, e)
  }

  /** Some entry of the map declares `e` in one of its two directions. */
  ghost predicate HasEdge(m: SlotMap, e: Edge) {
    exists k, d :: DeclaredBy(m, k, d, e)
  }

  lemma EntryExact(key: string, ref: CardRef, e: Edge)
    ensures EdgeOf(key, ref) == Some(e) <==> exists d :: Declares(key, ref, d) && SmallerForm(d, e)
  {
    var (card, slot) := KeyToCardAndSlot(key);
    forall a, b ensures InverseSlot(a) == Some(b) <==> Facing(a, b) {
    }
    if EdgeOf(key, ref) == Some(e) {
      var d := Edge(card, slot, ExtractCardIdRef(ref).value, InverseSlot(slot).value);
      ParseExact(key, card, slot);
      RefExact(ref, d.toId);
      FormExact(d, e);
      assert Declares(key, ref, d) && SmallerForm(d, e);
    }
    if d :| Declares(key, ref, d) && SmallerForm(d, e) {
      ParseExact(key, d.fromId, d.fromSlot);
      RefExact(ref, d.toId);
      FormExact(d, e);
    }
  }

  lemma FormExact(d: Edge, e: Edge)
    ensures Canonical(d) == e <==> SmallerForm(d, e)
  {
    var there := d.fromId + "|" + d.fromSlot + "|" + d.toId + "|" + d.toSlot;
    var back := d.toId + "|" + d.toSlot + "|" + d.fromId + "|" + d.fromSlot;
    assert EdgeKey(d) == there && EdgeKey(Flip(d)) == back;
    StringLeExact(there, back);
  }

  /** The edges of a map, by the entries that declare them; they join facing slots. */
  lemma EdgesExact(m: SlotMap)
    ensures forall e :: e in EdgeSet(m) <==> HasEdge(m, e)
    ensures forall e :: e in EdgeSet(m) ==> Facing(e.fromSlot, e.toSlot)
  {
    forall e ensures e in EdgeSet(m) <==> HasEdge(m, e) {
      if e in EdgeSet(m) {
        var k :| k in m && EdgeOf(k, m[k]) == Some(e);
        EntryExact(k, m[k], e);
        var d :| Declares(k, m[k], d) && SmallerForm(d, e);
        assert DeclaredBy(m, k, d, e);
      }
      if HasEdge(m, e) {
        var k, d :| DeclaredBy(m, k, d, e);
        EntryExact(k, m[k], e);
        assert EdgeOf(k, m[k]).value in EdgeSet(m);
      }
    }
  }

  predicate SeparatorFree(m: SlotMap) {
    forall e :: e in EdgeSet(m) ==> '|' !in e.fromId && '|' !in e.toId
  }

  lemma SplitAtBar(a: string, b: string, c: string, d: string)
    requires '|' !in a && '|' !in c && a + "|" + b == c + "|" + d
    ensures a == c && b == d
  {
    var s := a + "|" + b;
    assert s[|a|] == '|' && s[|c|] == '|';
    assert a == s[..|a|] && c == s[..|c|];
    assert b == s[|a| + 1..] && d == s[|c| + 1..];
  }

  ghost predicate IsStructural(e: Edge) {
    InverseSlot(e.fromSlot) == Some(e.toSlot)
  }

  lemma EdgesAreStructural(m: SlotMap)
    ensures forall e :: e in EdgeSet(m) ==> IsStructural(e)
  {
  }

  /** Printed edges of separator-free ids are distinct. */
  lemma EdgeKeyInjective(e: Edge, e': Edge)
    requires IsStructural(e) && IsStructural(e') && EdgeKey(e) == EdgeKey(e')
    requires '|' !in e.fromId && '|' !in e.toId && '|' !in e'.fromId && '|' !in e'.toId
    ensures e == e'
  {
    SlotsWithoutBar(e);
    SlotsWithoutBar(e');
    SplitAtBar(e.fromId, e.fromSlot + "|" + (e.toId + "|" + e.toSlot),
               e'.fromId, e'.fromSlot + "|" + (e'.toId + "|" + e'.toSlot));
    SplitAtBar(e.fromSlot, e.toId + "|" + e.toSlot, e'.fromSlot, e'.toId + "|" + e'.toSlot);
    SplitAtBar(e.toId, e.toSlot, e'.toId, e'.toSlot);
  }

  lemma SlotsWithoutBar(e: Edge)
    requires IsStructural(e)
    ensures '|' !in e.fromSlot && '|' !in e.toSlot
  {
  }

  /** Both ends may declare the same connection; it is still one edge. */
  lemma ReciprocalDeclarations(e: Edge)
    requires IsStructural(e) && '|' !in e.fromId && '|' !in e.toId
    ensures Canonical(e) == Canonical(Flip(e))
  {
    StringLeTotal(EdgeKey(e), EdgeKey(Flip(e)));
    assert Flip(Flip(e)) == e;
    if EdgeKey(e) == EdgeKey(Flip(e)) {
      EdgeKeyInjective(e, Flip(e));
    }
  }

  // ---- Deltas ----

  datatype CardsDelta = CardsDelta(slots: SlotMap, remove: seq<string>)

  method ApplyCardsDelta(delta: CardsDelta, m: SlotMap) returns (next: SlotMap)
    ensures forall k :: k in next <==> k in delta.slots || (k in m && k !in delta.remove)
    ensures forall k :: k in next ==> next[k] == if k in delta.slots then delta.slots[k] else m[k]
  {
    next := m;
    for i := 0 to |delta.remove|
      invariant forall k :: k in next <==> k in m && k !in delta.remove[..i]
      invariant forall k :: k in next ==> next[k] == m[k]
    {
      next := next - {delta.remove[i]};
    }
    ghost var kept := next;
    var rest := delta.slots.Keys;
    while rest != {}
      invariant rest <= delta.slots.Keys
      invariant forall k :: k in next <==> (k in delta.slots && k !in rest) || k in kept
      invariant forall k :: k in next ==> next[k] == if k in delta.slots && k !in rest then delta.slots[k] else kept[k]
      decreases rest
    {
      var k :| k in rest;
      next := next[k := delta.slots[k]];
      rest := rest - {k};
    }
  }

  // ---- Events ----

  datatype Event =
    | CardDetach(fromId: string, toId: string)
    | CardRemove(card: string)
    | CardAdd(card: string)
    | CardConnect(fromId: string, fromSlot: string, toId: string, toSlot: string)
    | CardUpdate(card: string, ref: CardRef)

  /** The five phases of a diff, in order. */
  datatype Phases = Phases(detached: seq<Edge>, removed: seq<string>, added: seq<string>, connected: seq<Edge>,
                           updated: seq<string>)

  /** `xs` lists the elements of `s`, each once, in some order. */
  ghost predicate Lists<T>(xs: seq<T>, s: set<T>) {
    NoDup(xs) && Elems(xs) == s
  }

  predicate CodeChanged(prev: SlotMap, next: SlotMap, k: string) {
    && k in next && KeyToCardAndSlot(k).1 == SLOT_CODE
    && (k in prev ==> prev[k].signature != next[k].signature)
  }

  function ChangedCodes(prev: SlotMap, next: SlotMap): set<string> {
    set k | k in next && CodeChanged(prev, next, k)
  }

  ghost predicate IsDiff(prev: SlotMap, next: SlotMap, p: Phases) {
    && Lists(p.detached, EdgeSet(prev) - EdgeSet(next))
    && Lists(p.removed, CardIds(prev) - CardIds(next))
    && Lists(p.added, CardIds(next) - CardIds(prev))
    && Lists(p.connected, EdgeSet(next) - EdgeSet(prev))
    && Lists(p.updated, ChangedCodes(prev, next))
    && forall i, j :: 0 <= i < j < |p.added| ==> StringLe(p.added[i], p.added[j])
  }

  function DetachEvents(es: seq<Edge>): seq<Event> {
    seq(|es|, i requires 0 <= i < |es| => CardDetach(es[i].fromId, es[i].toId))
  }

  function RemoveEvents(ids: seq<string>): seq<Event> {
    seq(|ids|, i requires 0 <= i < |ids| => CardRemove(ids[i]))
  }

  function AddEvents(ids: seq<string>): seq<Event> {
    seq(|ids|, i requires 0 <= i < |ids| => CardAdd(ids[i]))
  }

  function ConnectEvents(es: seq<Edge>): seq<Event> {
    seq(|es|, i requires 0 <= i < |es| => CardConnect(es[i].fromId, es[i].fromSlot, es[i].toId, es[i].toSlot))
  }

  function UpdateEvents(next: SlotMap, keys: seq<string>): seq<Event>
    requires forall i :: 0 <= i < |keys| ==> keys[i] in next
  {
    seq(|keys|, i requires 0 <= i < |keys| => CardUpdate(KeyToCardAndSlot(keys[i]).0, next[keys[i]]))
  }

  function EventsOf(next: SlotMap, p: Phases): seq<Event>
    requires forall i :: 0 <= i < |p.updated| ==> p.updated[i] in next
  {
    DetachEvents(p.detached) + RemoveEvents(p.removed) + AddEvents(p.added)
      + ConnectEvents(p.connected) + UpdateEvents(next, p.updated)
  }

  // ---- Computing the events ----

  /** Edges by printed form; the entries are visited in an arbitrary order. */
  method CollectEdges(m: SlotMap) returns (out: map<string, Edge>)
    ensures forall e :: e in EdgeSet(m) ==> EdgeKey(e) in out
    ensures forall k :: k in out ==> out[k] in EdgeSet(m) && EdgeKey(out[k]) == k
  {
    out := map[];
    var rest := m.Keys;
    while rest != {}
      invariant rest <= m.Keys
      invariant forall k :: k in m && k !in rest && EdgeOf(k, m[k]).Some? ==> EdgeKey(EdgeOf(k, m[k]).value) in out
      invariant forall k :: k in out ==> out[k] in EdgeSet(m) && EdgeKey(out[k]) == k
      decreases rest
    {
      var key :| key in rest;
      var e := EdgeOf(key, m[key]);
      if e.Some? {
        out := out[EdgeKey(e.value) := e.value];
      }
      rest := rest - {key};
    }
  }

  /** Printed forms identify the edges of two separator-free maps. */
  lemma KeysIdentify(a: SlotMap, b: SlotMap, e: Edge, e': Edge)
    requires SeparatorFree(a) && SeparatorFree(b)
    requires e in EdgeSet(a) + EdgeSet(b) && e' in EdgeSet(a) + EdgeSet(b) && EdgeKey(e) == EdgeKey(e')
    ensures e == e'
  {
    EdgesAreStructural(a);
    EdgesAreStructural(b);
    EdgeKeyInjective(e, e');
  }

  ghost predicate PrintedIn(e: Edge, edges: iset<Edge>) {
    exists e' :: e' in edges && EdgeKey(e') == EdgeKey(e)
  }

  /** One edge of `a` for every printed form that occurs in `a` and not in `b`. */
  ghost predicate PrintedDiff(es: seq<Edge>, a: SlotMap, b: SlotMap) {
    && NoDup(es)
    && (forall e :: e in es ==> e in EdgeSet(a) && !PrintedIn(e, iset x | x in EdgeSet(b)))
    && (forall e :: e in EdgeSet(a) ==> PrintedIn(e, iset x | x in EdgeSet(b)) || PrintedIn(e, iset x | x in es))
    && forall e, e' :: e in es && e' in es && EdgeKey(e) == EdgeKey(e') ==> e == e'
  }

  /** With separator-free ids that is the difference of the edge sets. */
  lemma PrintedDiffIsDiff(es: seq<Edge>, a: SlotMap, b: SlotMap)
    requires PrintedDiff(es, a, b) && SeparatorFree(a) && SeparatorFree(b)
    ensures Lists(es, EdgeSet(a) - EdgeSet(b))
  {
    forall e ensures e in es <==> e in EdgeSet(a) - EdgeSet(b) {
      if e in EdgeSet(a) && e !in es {
        if PrintedIn(e, iset x | x in EdgeSet(b)) {
          var e' :| e' in EdgeSet(b) && EdgeKey(e') == EdgeKey(e);
          KeysIdentify(a, b, e, e');
        } else {
          var e' :| e' in es && EdgeKey(e') == EdgeKey(e);
          KeysIdentify(a, b, e, e');
        }
      }
    }
  }

  /** The edges of `a` whose printed form is not in `b`. */
  method EdgesNotIn(a: SlotMap, b: SlotMap) returns (es: seq<Edge>)
    ensures PrintedDiff(es, a, b)
    ensures SeparatorFree(a) && SeparatorFree(b) ==> Lists(es, EdgeSet(a) - EdgeSet(b))
  {
    var ours := CollectEdges(a);
    var theirs := CollectEdges(b);
    es := ValuesNotIn(ours, theirs);
    forall e | e in EdgeSet(a) ensures PrintedIn(e, iset x | x in EdgeSet(b)) || PrintedIn(e, iset x | x in es) {
      var e' := ours[EdgeKey(e)];
      if EdgeKey(e) in theirs {
        assert theirs[EdgeKey(e)] in EdgeSet(b);
      } else {
        assert e' in es && EdgeKey(e') == EdgeKey(e);
      }
    }
    if SeparatorFree(a) && SeparatorFree(b) { PrintedDiffIsDiff(es, a, b); }
  }

  method ValuesNotIn(ours: map<string, Edge>, theirs: map<string, Edge>) returns (es: seq<Edge>)
    requires forall k :: k in ours ==> EdgeKey(ours[k]) == k
    ensures NoDup(es)
    ensures forall e :: e in es <==> EdgeKey(e) in ours && EdgeKey(e) !in theirs && ours[EdgeKey(e)] == e
  {
    es := [];
    var rest := ours.Keys;
    while rest != {}
      invariant rest <= ours.Keys && NoDup(es)
      invariant forall e :: e in es <==>
        EdgeKey(e) in ours && EdgeKey(e) !in rest && EdgeKey(e) !in theirs && ours[EdgeKey(e)] == e
      decreases rest
    {
      var k :| k in rest;
      if k !in theirs {
        es := es + [ours[k]];
      }
      rest := rest - {k};
    }
  }

  method ListOf(s: set<string>) returns (xs: seq<string>)
    ensures Lists(xs, s)
  {
    xs := [];
    var rest := s;
    while rest != {}
      invariant rest <= s && NoDup(xs) && Elems(xs) == s - rest
      decreases rest
    {
      var x :| x in rest;
      ElemsOfAppend(xs, [x]);
      assert x !in Elems(xs);
      xs := xs + [x];
      rest := rest - {x};
    }
  }

  ghost predicate Ascending(xs: seq<string>) {
    forall i, j :: 0 <= i < j < |xs| ==> StringLe(xs[i], xs[j])
  }

  lemma {:induction false} StringLeTransitive(a: string, b: string, c: string)
    requires StringLe(a, b) && StringLe(b, c)
    ensures StringLe(a, c)
  {
    if a != "" && b != "" && c != "" && a[0] == b[0] == c[0] {
      StringLeTransitive(a[1..], b[1..], c[1..]);
    }
  }

  method Sorted(s: set<string>) returns (xs: seq<string>)
    ensures Lists(xs, s) && Ascending(xs)
  {
    xs := [];
    var rest := s;
    while rest != {}
      invariant rest <= s && NoDup(xs) && Elems(xs) == s - rest && Ascending(xs)
      decreases rest
    {
      var x :| x in rest;
      var n := 0;
      while n < |xs| && StringLe(xs[n], x)
        invariant 0 <= n <= |xs| && forall i :: 0 <= i < n ==> StringLe(xs[i], x)
      {
        n := n + 1;
      }
      InsertAscending(xs, n, x);
      InsertListed(xs, n, x);
      xs := xs[..n] + ([x] + xs[n..]);
      rest := rest - {x};
    }
  }

  lemma InsertListed(xs: seq<string>, n: nat, x: string)
    requires NoDup(xs) && n <= |xs| && x !in Elems(xs)
    ensures NoDup(xs[..n] + ([x] + xs[n..])) && Elems(xs[..n] + ([x] + xs[n..])) == Elems(xs) + {x}
  {
    assert x !in xs;
    ElemsOfAppend(xs[..n], [x] + xs[n..]);
    ElemsOfAppend([x], xs[n..]);
    ElemsOfAppend(xs[..n], xs[n..]);
    assert xs == xs[..n] + xs[n..];
  }

  lemma InsertAscending(xs: seq<string>, n: nat, x: string)
    requires Ascending(xs) && n <= |xs| && forall i :: 0 <= i < n ==> StringLe(xs[i], x)
    requires n < |xs| ==> !StringLe(xs[n], x)
    ensures Ascending(xs[..n] + ([x] + xs[n..]))
  {
    if n < |xs| { StringLeTotal(xs[n], x); }
    var ys := xs[..n] + ([x] + xs[n..]);
    forall i, j | 0 <= i < j < |ys| ensures StringLe(ys[i], ys[j]) {
      if i == n && j > n + 1 { StringLeTransitive(x, xs[n], xs[j - 1]); }
    }
  }

  /** `events` are the five phases of a diff, one after the other. */
  ghost predicate DiffedBy(prev: SlotMap, next: SlotMap, p: Phases, events: seq<Event>) {
    && IsDiff(prev, next, p)
    && (forall i :: 0 <= i < |p.updated| ==> p.updated[i] in next)
    && events == EventsOf(next, p)
  }

  /** The phases as the code computes them, edges being compared by their printed form. */
  ghost predicate IsPrintedDiff(prev: SlotMap, next: SlotMap, p: Phases) {
    && PrintedDiff(p.detached, prev, next)
    && Lists(p.removed, CardIds(prev) - CardIds(next))
    && Lists(p.added, CardIds(next) - CardIds(prev))
    && PrintedDiff(p.connected, next, prev)
    && Lists(p.updated, ChangedCodes(prev, next))
    && Ascending(p.added)
  }

  ghost predicate PrintedDiffedBy(prev: SlotMap, next: SlotMap, p: Phases, events: seq<Event>) {
    && IsPrintedDiff(prev, next, p)
    && (forall i :: 0 <= i < |p.updated| ==> p.updated[i] in next)
    && events == EventsOf(next, p)
  }

  // ---- What the events say ----

  /** Detachments, removals, additions, connections, codes. */
  ghost function Stage(e: Event): nat {
    match e
    case CardDetach(_, _) => 0
    case CardRemove(_) => 1
    case CardAdd(_) => 2
    case CardConnect(_, _, _, _) => 3
    case CardUpdate(_, _) => 4
  }

  /** Additions come in ascending order of their ids. */
  ghost predicate ComesBefore(x: Event, y: Event) {
    || Stage(x) < Stage(y)
    || (Stage(x) == Stage(y)
        && (x.CardAdd? && y.CardAdd? ==> x.card != y.card && Precedes(Utf16(x.card), Utf16(y.card))))
  }

  ghost predicate InOrder(events: seq<Event>) {
    forall i, j :: 0 <= i < j < |events| ==> ComesBefore(events[i], events[j])
  }

  /** The entry sends a code that is new or has changed. */
  ghost predicate SendsCode(prev: SlotMap, next: SlotMap, k: string, card: string, ref: CardRef) {
    && k in next && ParsesTo(k, card, "code") && next[k] == ref
    && (k in prev ==> prev[k].signature != ref.signature)
  }

  ghost predicate CardsFollow(prev: SlotMap, next: SlotMap, events: seq<Event>) {
    && (forall card :: CardRemove(card) in events <==> HasCard(prev, card) && !HasCard(next, card))
    && (forall card :: CardAdd(card) in events <==> HasCard(next, card) && !HasCard(prev, card))
    && forall card, ref :: CardUpdate(card, ref) in events <==> exists k :: SendsCode(prev, next, k, card, ref)
  }

  ghost predicate SameText(d: Edge, e: Edge) {
    d.fromId + "|" + d.fromSlot + "|" + d.toId + "|" + d.toSlot
      == e.fromId + "|" + e.fromSlot + "|" + e.toId + "|" + e.toSlot
  }

  /** `e` joins two cards in the first map, and no edge of the second reads the same. */
  ghost predicate OnlyIn(a: SlotMap, b: SlotMap, e: Edge) {
    HasEdge(a, e) && forall d :: HasEdge(b, d) ==> !SameText(d, e)
  }

  ghost function Connecting(e: Edge): Event {
    CardConnect(e.fromId, e.fromSlot, e.toId, e.toSlot)
  }

  ghost function Detaching(e: Edge): Event {
    CardDetach(e.fromId, e.toId)
  }

  /** The edges that only one map has are detached and connected, those that read the same
      as one. */
  ghost predicate EdgesFollow(prev: SlotMap, next: SlotMap, events: seq<Event>) {
    && (forall e :: Connecting(e) in events ==> OnlyIn(next, prev, e))
    && (forall e :: OnlyIn(next, prev, e) ==> exists d :: SameText(d, e) && Connecting(d) in events)
    && (forall x :: x in events && x.CardDetach? ==> exists e :: OnlyIn(prev, next, e) && x == Detaching(e))
    && forall e :: OnlyIn(prev, next, e) ==>
         exists d :: OnlyIn(prev, next, d) && SameText(d, e) && Detaching(d) in events
  }

  /** Without separators in the ids, edges are what they read. */
  ghost predicate EdgesFollowExactly(prev: SlotMap, next: SlotMap, events: seq<Event>) {
    && (forall e :: Connecting(e) in events <==> HasEdge(next, e) && !HasEdge(prev, e))
    && forall x :: x in events && x.CardDetach? <==>
         exists e :: HasEdge(prev, e) && !HasEdge(next, e) && x == Detaching(e)
  }

  lemma EventMembers(next: SlotMap, p: Phases)
    requires forall i :: 0 <= i < |p.updated| ==> p.updated[i] in next
    ensures var events := EventsOf(next, p);
      && (forall card :: CardRemove(card) in events <==> card in p.removed)
      && (forall card :: CardAdd(card) in events <==> card in p.added)
      && (forall e :: Connecting(e) in events <==> e in p.connected)
      && Detaches(events, p.detached)
      && (forall card, ref :: CardUpdate(card, ref) in events <==>
            exists k :: k in p.updated && KeyToCardAndSlot(k).0 == card && next[k] == ref)
  {
    var ds, rs, added := DetachEvents(p.detached), RemoveEvents(p.removed), AddEvents(p.added);
    var cs, us := ConnectEvents(p.connected), UpdateEvents(next, p.updated);
    assert forall x :: x in EventsOf(next, p) <==> x in ds || x in rs || x in added || x in cs || x in us;
    forall x | x in ds ensures exists e :: e in p.detached && x == Detaching(e) {
      var i :| 0 <= i < |ds| && ds[i] == x;
      assert p.detached[i] in p.detached && x == Detaching(p.detached[i]);
    }
    forall e | e in p.detached ensures Detaching(e) in ds {
      var i :| 0 <= i < |p.detached| && p.detached[i] == e;
      assert ds[i] == Detaching(e);
    }
    SimpleMembers(p);
    UpdateMembers(next, p.updated);
  }

  lemma SimpleMembers(p: Phases)
    ensures forall x :: x in RemoveEvents(p.removed) <==> x.CardRemove? && x.card in p.removed
    ensures forall x :: x in AddEvents(p.added) <==> x.CardAdd? && x.card in p.added
    ensures forall x :: x in ConnectEvents(p.connected) <==>
      x.CardConnect? && Edge(x.fromId, x.fromSlot, x.toId, x.toSlot) in p.connected
  {
    forall x: Event | x.CardRemove? && x.card in p.removed ensures x in RemoveEvents(p.removed) {
      var i :| 0 <= i < |p.removed| && p.removed[i] == x.card;
      assert RemoveEvents(p.removed)[i] == x;
    }
    forall x: Event | x.CardAdd? && x.card in p.added ensures x in AddEvents(p.added) {
      var i :| 0 <= i < |p.added| && p.added[i] == x.card;
      assert AddEvents(p.added)[i] == x;
    }
    forall x: Event | x.CardConnect? && Edge(x.fromId, x.fromSlot, x.toId, x.toSlot) in p.connected
      ensures x in ConnectEvents(p.connected)
    {
      var i :| 0 <= i < |p.connected| && p.connected[i] == Edge(x.fromId, x.fromSlot, x.toId, x.toSlot);
      assert ConnectEvents(p.connected)[i] == x;
    }
  }

  lemma UpdateMembers(next: SlotMap, keys: seq<string>)
    requires forall i :: 0 <= i < |keys| ==> keys[i] in next
    ensures forall x :: x in UpdateEvents(next, keys) ==> x.CardUpdate?
    ensures forall card, ref :: CardUpdate(card, ref) in UpdateEvents(next, keys) <==>
      exists k :: k in keys && KeyToCardAndSlot(k).0 == card && next[k] == ref
  {
    var us := UpdateEvents(next, keys);
    forall card, ref | CardUpdate(card, ref) in us
      ensures exists k :: k in keys && KeyToCardAndSlot(k).0 == card && next[k] == ref
    {
      var i :| 0 <= i < |us| && us[i] == CardUpdate(card, ref);
      assert keys[i] in keys;
    }
    forall k | k in keys ensures CardUpdate(KeyToCardAndSlot(k).0, next[k]) in us {
      var i :| 0 <= i < |keys| && keys[i] == k;
      assert us[i] == CardUpdate(KeyToCardAndSlot(k).0, next[k]);
    }
  }

  /** One stage after the earlier ones. */
  lemma StageAppended(x: seq<Event>, y: seq<Event>, n: nat)
    requires InOrder(x) && InOrder(y)
    requires (forall e :: e in x ==> Stage(e) < n) && forall e :: e in y ==> Stage(e) == n
    ensures InOrder(x + y) && forall e :: e in x + y ==> Stage(e) <= n
  {
    forall i, j | 0 <= i < j < |x + y| ensures ComesBefore((x + y)[i], (x + y)[j]) {
      if i < |x| <= j { assert x[i] in x && y[j - |x|] in y; }
    }
  }

  lemma StagesInOrder(next: SlotMap, p: Phases)
    requires (forall i :: 0 <= i < |p.updated| ==> p.updated[i] in next) && NoDup(p.added) && Ascending(p.added)
    ensures InOrder(EventsOf(next, p))
  {
    var ds, rs, added := DetachEvents(p.detached), RemoveEvents(p.removed), AddEvents(p.added);
    var cs, us := ConnectEvents(p.connected), UpdateEvents(next, p.updated);
    forall i, j | 0 <= i < j < |added| ensures ComesBefore(added[i], added[j]) {
      StringLeExact(p.added[i], p.added[j]);
    }
    StageAppended(ds, rs, 1);
    StageAppended(ds + rs, added, 2);
    StageAppended(ds + rs + added, cs, 3);
    StageAppended(ds + rs + added + cs, us, 4);
  }

  lemma CardEvents(prev: SlotMap, next: SlotMap, p: Phases, events: seq<Event>)
    requires PrintedDiffedBy(prev, next, p, events)
    ensures CardsFollow(prev, next, events) && InOrder(events)
  {
    EventMembers(next, p);
    StagesInOrder(next, p);
    CardsExact(prev);
    CardsExact(next);
    ListsMembers(p.removed, CardIds(prev) - CardIds(next));
    ListsMembers(p.added, CardIds(next) - CardIds(prev));
    ListsMembers(p.updated, ChangedCodes(prev, next));
    forall card, ref ensures CardUpdate(card, ref) in events <==> exists k :: SendsCode(prev, next, k, card, ref) {
      forall k ensures (k in p.updated && KeyToCardAndSlot(k).0 == card && next[k] == ref) <==>
        SendsCode(prev, next, k, card, ref)
      {
        ParseExact(k, card, "code");
      }
    }
  }

  lemma ListsMembers<T>(xs: seq<T>, s: set<T>)
    requires Lists(xs, s)
    ensures forall x :: x in xs <==> x in s
  {
    assert forall x :: x in Elems(xs) <==> x in xs;
  }

  lemma OnlyInExact(a: SlotMap, b: SlotMap, e: Edge)
    ensures OnlyIn(a, b, e) <==> e in EdgeSet(a) && !PrintedIn(e, iset x | x in EdgeSet(b))
  {
    EdgesExact(a);
    EdgesExact(b);
    forall d ensures SameText(d, e) <==> EdgeKey(d) == EdgeKey(e) {
      TextOfEdge(d);
      TextOfEdge(e);
    }
  }

  lemma TextOfEdge(e: Edge)
    ensures EdgeKey(e) == e.fromId + "|" + e.fromSlot + "|" + e.toId + "|" + e.toSlot
  {
  }

  lemma EdgeEvents(prev: SlotMap, next: SlotMap, p: Phases, events: seq<Event>)
    requires PrintedDiffedBy(prev, next, p, events)
    ensures EdgesFollow(prev, next, events)
  {
    EventMembers(next, p);
    ConnectionsFollow(prev, next, p.connected, events);
    DetachmentsFollow(prev, next, p.detached, events);
  }

  lemma ConnectionsFollow(prev: SlotMap, next: SlotMap, es: seq<Edge>, events: seq<Event>)
    requires PrintedDiff(es, next, prev) && forall e :: Connecting(e) in events <==> e in es
    ensures forall e :: Connecting(e) in events ==> OnlyIn(next, prev, e)
    ensures forall e :: OnlyIn(next, prev, e) ==> exists d :: SameText(d, e) && Connecting(d) in events
  {
    PhaseExact(es, next, prev);
    forall e | OnlyIn(next, prev, e) ensures exists d :: SameText(d, e) && Connecting(d) in events {
      var d :| d in es && SameText(d, e);
      assert Connecting(d) in events;
    }
  }

  /** The detachments among the events are those of these edges. */
  ghost predicate Detaches(events: seq<Event>, es: seq<Edge>) {
    forall x :: x in events && x.CardDetach? <==> exists e :: e in es && x == Detaching(e)
  }

  lemma DetachmentOf(events: seq<Event>, es: seq<Edge>, x: Event) returns (e: Edge)
    requires Detaches(events, es) && x in events && x.CardDetach?
    ensures e in es && x == Detaching(e)
  {
    e :| e in es && x == Detaching(e);
  }

  lemma DetachmentSent(events: seq<Event>, es: seq<Edge>, e: Edge)
    requires Detaches(events, es) && e in es
    ensures Detaching(e) in events
  {
  }

  lemma DetachmentsFollow(prev: SlotMap, next: SlotMap, es: seq<Edge>, events: seq<Event>)
    requires PrintedDiff(es, prev, next) && Detaches(events, es)
    ensures forall x :: x in events && x.CardDetach? ==> exists e :: OnlyIn(prev, next, e) && x == Detaching(e)
    ensures forall e :: OnlyIn(prev, next, e) ==>
      exists d :: OnlyIn(prev, next, d) && SameText(d, e) && Detaching(d) in events
  {
    PhaseExact(es, prev, next);
    forall x | x in events && x.CardDetach? ensures exists e :: OnlyIn(prev, next, e) && x == Detaching(e) {
      var e := DetachmentOf(events, es, x);
      assert OnlyIn(prev, next, e);
    }
    forall e | OnlyIn(prev, next, e)
      ensures exists d :: OnlyIn(prev, next, d) && SameText(d, e) && Detaching(d) in events
    {
      var d :| d in es && SameText(d, e);
      DetachmentSent(events, es, d);
    }
  }

  lemma PhaseExact(es: seq<Edge>, a: SlotMap, b: SlotMap)
    requires PrintedDiff(es, a, b)
    ensures forall e :: e in es ==> OnlyIn(a, b, e)
    ensures forall e :: OnlyIn(a, b, e) ==> exists d :: d in es && SameText(d, e)
  {
    forall e ensures e in es ==> OnlyIn(a, b, e) {
      OnlyInExact(a, b, e);
    }
    forall e | OnlyIn(a, b, e) ensures exists d :: d in es && SameText(d, e) {
      OnlyInExact(a, b, e);
      var d :| d in es && EdgeKey(d) == EdgeKey(e);
      TextOfEdge(d);
      TextOfEdge(e);
      assert SameText(d, e);
    }
  }

  lemma EdgeEventsExact(prev: SlotMap, next: SlotMap, p: Phases, events: seq<Event>)
    requires DiffedBy(prev, next, p, events)
    ensures EdgesFollowExactly(prev, next, events)
  {
    EventMembers(next, p);
    EdgesExact(prev);
    EdgesExact(next);
    ListsMembers(p.connected, EdgeSet(next) - EdgeSet(prev));
    ListsMembers(p.detached, EdgeSet(prev) - EdgeSet(next));
  }

  /** The events are exactly those the two maps call for, in the order of their stages. For
      maps with separator-free ids, the phases are those of the edges themselves. */
  method DiffSlotMaps(prev: SlotMap, next: SlotMap) returns (events: seq<Event>)
    ensures exists p ::
      && PrintedDiffedBy(prev, next, p, events)
      && (SeparatorFree(prev) && SeparatorFree(next) ==> DiffedBy(prev, next, p, events))
    ensures InOrder(events) && CardsFollow(prev, next, events) && EdgesFollow(prev, next, events)
    ensures SeparatorFree(prev) && SeparatorFree(next) ==> EdgesFollowExactly(prev, next, events)
  {
    var detached := EdgesNotIn(prev, next);
    var removed := ListOf(CardIds(prev) - CardIds(next));
    var added := Sorted(CardIds(next) - CardIds(prev));
    var connected := EdgesNotIn(next, prev);
    var updated := ListOf(ChangedCodes(prev, next));
    forall i | 0 <= i < |updated| ensures updated[i] in next {
      assert updated[i] in Elems(updated);
    }
    events := DetachEvents(detached) + RemoveEvents(removed) + AddEvents(added)
              + ConnectEvents(connected) + UpdateEvents(next, updated);
    ghost var p := Phases(detached, removed, added, connected, updated);
    assert PrintedDiffedBy(prev, next, p, events);
    assert SeparatorFree(prev) && SeparatorFree(next) ==> DiffedBy(prev, next, p, events);
    CardEvents(prev, next, p, events);
    EdgeEvents(prev, next, p, events);
    if SeparatorFree(prev) && SeparatorFree(next) { EdgeEventsExact(prev, next, p, events); }
  }
}
