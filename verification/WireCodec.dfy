// Values on the wire: tagged objects, with layered values and closures sent as JSON text.
// Decoding gives back exactly the values that no field of the tagged objects gets in the way of.
module WireCodec {
  /** Plain values. Strings come in three kinds: text in braces that is not JSON, the JSON
      text of a wire value, and all others. */
  datatype Plain =
    | Text(s: string)
    | Braced(s: string)
    | JsonText(of: Wire)
    | Number(n: int)
    | Boolean(b: bool)
    | Nothing
    | Contradiction

  /** `Opaque` is an in-memory list put on the wire as it is. */
  datatype Wire = Bare(plain: Plain) | Object(fields: map<string, Wire>) | Array(items: seq<Wire>) | Opaque

  /** The members of a set are known by their identity text. A closure body is a list of
      lists: `body` is the first, `more` the others. */
  datatype Value =
    | Scalar(plain: Plain)
    | List(items: seq<Value>)
    | Cell(id: string, name: string)
    | Map(entries: map<string, Value>)
    | Set(members: map<string, Value>)
    | Layered(base: Value, layers: map<string, Value>)
    | Element(kind: string, value: Value)
    | Closure(env: Value, title: Value, inputs: seq<Value>, outputs: seq<Value>, body: seq<Value>, more: seq<Lines>)

  datatype Lines = Lines(items: seq<Value>)

  /** Assigning this key of an object changes its prototype and adds no entry. */
  const PROTO := "__proto__"

  function Word(s: string): Wire {
    Bare(Text(s))
  }

  // ---- Encoding ----

  /** The tag is set first, so an entry of the same name replaces it. */
  function Tagged(tag: string, entries: map<string, Wire>): Wire {
    Object(map["type" := Word(tag)] + entries)
  }

  function Reference(id: string, name: string): Wire {
    Tagged("reference", map["ref_type" := Word("cell"), "id" := Word(id), "name" := Word(name)])
  }

  function Encode(v: Value): Wire
    decreases v, 0
  {
    match v
    case Scalar(p) => Object(map["value" := Bare(p)])
    case List(_) => Object(map["value" := Opaque])
    case Cell(id, name) => Tagged("cell", map["id" := Word(id), "name" := Word(name)])
    case Map(entries) => Tagged("MAP", map k | k in entries && k != PROTO :: EncodeEntry(entries[k]))
    case Set(members) => Tagged("set", map k | k in members && k != PROTO :: Encode(members[k]))
    case Layered(base, layers) =>
      Bare(JsonText(Tagged("layered_object",
        map["base" := Encode(base)] + map k | k in layers && k != PROTO :: Encode(layers[k]))))
    case Element(kind, value) => Tagged("lain_element", map["element_type" := Word(kind), "value" := Encode(value)])
    case Closure(env, title, inputs, outputs, body, _) =>
      Bare(JsonText(Tagged("closure",
        map["env" := EncodeEntry(env), "name" := Encode(title), "inputs" := Array(EncodeAll(inputs)),
            "outputs" := Array(EncodeAll(outputs)), "body" := Bare(JsonText(Array(EncodeAll(body))))])))
  }

  /** Cells in maps and environments are sent as references. */
  function EncodeEntry(v: Value): Wire
    decreases v, 1
  {
    if v.Cell? then Reference(v.id, v.name) else Encode(v)
  }

  function EncodeAll(vs: seq<Value>): seq<Wire>
    decreases vs
  {
    if vs == [] then [] else [Encode(vs[0])] + EncodeAll(vs[1..])
  }

  // ---- Decoding ----

  function Tag(fields: map<string, Wire>): string {
    if "type" in fields && fields["type"].Bare? && fields["type"].plain.Text? then fields["type"].plain.s else ""
  }

  function TextOf(fields: map<string, Wire>, k: string): string {
    if k in fields && fields[k].Bare? && fields[k].plain.Text? then fields[k].plain.s else ""
  }

  predicate KnownLayer(k: string) {
    k == "vector_clock" || k == "support"
  }

  /** What cannot be decoded becomes nothing. */
  function Decode(w: Wire): Value
    decreases w, 1
  {
    match w
    case Bare(JsonText(Object(_))) => Decode(w.plain.of)
    case Bare(Braced(_)) => Scalar(Nothing)
    case Bare(p) => Scalar(p)
    case Array(_) => Scalar(Nothing)
    case Opaque => Scalar(Nothing)
    case Object(fields) =>
      if Tag(fields) == "MAP" then Map(map k | k in fields && k != "type" :: Decode(fields[k]))
      else if Tag(fields) == "set" then Set(map k | k in fields && k != "type" :: Decode(fields[k]))
      else if Tag(fields) == "layered_object" then
        Layered(DecodeField(w, "base"), map k | k in fields && KnownLayer(k) :: Decode(fields[k]))
      else if Tag(fields) == "lain_element" then Element(TextOf(fields, "element_type"), DecodeField(w, "value"))
      else if Tag(fields) == "closure" then
        Closure(DecodeField(w, "env"), DecodeField(w, "name"), DecodeList(w, "inputs"), DecodeList(w, "outputs"),
                DecodeBody(w), [])
      else if Tag(fields) == "cell" || (Tag(fields) == "reference" && TextOf(fields, "ref_type") == "cell") then
        Cell(TextOf(fields, "id"), TextOf(fields, "name"))
      else if "value" in fields && fields["value"].Bare? then Scalar(fields["value"].plain)
      else Scalar(Nothing)
  }

  function DecodeField(w: Wire, k: string): Value
    requires w.Object?
    decreases w, 0
  {
    if k in w.fields then Decode(w.fields[k]) else Scalar(Nothing)
  }

  function DecodeList(w: Wire, k: string): seq<Value>
    requires w.Object?
    decreases w, 0
  {
    if k in w.fields && w.fields[k].Array? then DecodeAll(w.fields[k].items) else []
  }

  function DecodeBody(w: Wire): seq<Value>
    requires w.Object?
    decreases w, 0
  {
    if "body" in w.fields && w.fields["body"].Bare? && w.fields["body"].plain.JsonText? &&
      w.fields["body"].plain.of.Array?
    then DecodeAll(w.fields["body"].plain.of.items) else []
  }

  function DecodeAll(ws: seq<Wire>): seq<Value>
    decreases ws
  {
    if ws == [] then [] else [Decode(ws[0])] + DecodeAll(ws[1..])
  }

  // ---- The wire of every kind of value, written out ----

  ghost predicate Spells(w: Wire, v: Value)
    decreases v, 0
  {
    match v
    case Scalar(p) => w == Object(map["value" := Bare(p)])
    case List(_) => w == Object(map["value" := Opaque])
    case Cell(id, name) =>
      w == Object(map["type" := Bare(Text("cell")), "id" := Bare(Text(id)), "name" := Bare(Text(name))])
    case Map(entries) =>
      && HasFields(w, {"type"}, entries.Keys, "MAP")
      && forall k :: k in entries && k != "__proto__" ==> SpellsEntry(w.fields[k], entries[k])
    case Set(members) =>
      && HasFields(w, {"type"}, members.Keys, "set")
      && forall k :: k in members && k != "__proto__" ==> Spells(w.fields[k], members[k])
    case Layered(base, layers) =>
      && w.Bare? && w.plain.JsonText? && HasFields(w.plain.of, {"type", "base"}, layers.Keys, "layered_object")
      && ("base" !in layers ==> Spells(w.plain.of.fields["base"], base))
      && forall k :: k in layers && k != "__proto__" ==> Spells(w.plain.of.fields[k], layers[k])
    case Element(kind, value) =>
      && HasFields(w, {"type", "element_type", "value"}, {}, "lain_element")
      && w.fields["element_type"] == Bare(Text(kind)) && Spells(w.fields["value"], value)
    case Closure(env, title, inputs, outputs, body, _) =>
      && w.Bare? && w.plain.JsonText?
      && HasFields(w.plain.of, {"type", "env", "name", "inputs", "outputs", "body"}, {}, "closure")
      && SpellsEntry(w.plain.of.fields["env"], env) && Spells(w.plain.of.fields["name"], title)
      && w.plain.of.fields["inputs"].Array? && SpellsAll(w.plain.of.fields["inputs"].items, inputs)
      && w.plain.of.fields["outputs"].Array? && SpellsAll(w.plain.of.fields["outputs"].items, outputs)
      && IsListText(w.plain.of.fields["body"]) && SpellsAll(w.plain.of.fields["body"].plain.of.items, body)
  }

  /** Cells inside maps and environments. */
  ghost predicate SpellsEntry(w: Wire, v: Value)
    decreases v, 1
  {
    if v.Cell? then
      w == Object(map["type" := Bare(Text("reference")), "ref_type" := Bare(Text("cell")),
                      "id" := Bare(Text(v.id)), "name" := Bare(Text(v.name))])
    else Spells(w, v)
  }

  ghost predicate SpellsAll(ws: seq<Wire>, vs: seq<Value>)
    decreases vs
  {
    |ws| == |vs| && forall i :: 0 <= i < |vs| ==> Spells(ws[i], vs[i])
  }

  /** The text of a list. */
  ghost predicate IsListText(w: Wire) {
    w.Bare? && w.plain.JsonText? && w.plain.of.Array?
  }

  /** An object with these fields and one for every key but the prototype key; its tag,
      unless a key is named like it. */
  ghost predicate HasFields(w: Wire, fixed: set<string>, keys: set<string>, tag: string)
    requires "type" in fixed
  {
    && w.Object?
    && (forall k :: k in w.fields <==> k in fixed || (k in keys && k != "__proto__"))
    && ("type" !in keys ==> w.fields["type"] == Bare(Text(tag)))
  }

  lemma {:induction false} EncodeSpells(v: Value)
    ensures Spells(Encode(v), v)
    decreases v, 0
  {
    match v {
      case Map(entries) =>
        forall k | k in entries ensures SpellsEntry(EncodeEntry(entries[k]), entries[k]) {
          EntrySpells(entries[k]);
        }
        MapSpells(entries);
      case Set(members) =>
        forall k | k in members ensures Spells(Encode(members[k]), members[k]) {
          EncodeSpells(members[k]);
        }
        SetSpells(members);
      case Layered(base, layers) =>
        EncodeSpells(base);
        forall k | k in layers ensures Spells(Encode(layers[k]), layers[k]) {
          EncodeSpells(layers[k]);
        }
        LayersSpell(base, layers);
      case Element(kind, value) =>
        EncodeSpells(value);
        ElementSpells(kind, value);
      case Closure(env, title, inputs, outputs, body, _) =>
        EntrySpells(env);
        EncodeSpells(title);
        AllSpell(inputs);
        AllSpell(outputs);
        AllSpell(body);
        ClosureSpells(v);
      case _ =>
    }
  }

  lemma MapSpells(entries: map<string, Value>)
    requires forall k :: k in entries ==> SpellsEntry(EncodeEntry(entries[k]), entries[k])
    ensures Spells(Encode(Map(entries)), Map(entries))
  {
  }

  lemma SetSpells(members: map<string, Value>)
    requires forall k :: k in members ==> Spells(Encode(members[k]), members[k])
    ensures Spells(Encode(Set(members)), Set(members))
  {
  }

  lemma LayersSpell(base: Value, layers: map<string, Value>)
    requires Spells(Encode(base), base) && forall k :: k in layers ==> Spells(Encode(layers[k]), layers[k])
    ensures Spells(Encode(Layered(base, layers)), Layered(base, layers))
  {
    LayersWire(base, layers);
  }

  lemma LayersWire(base: Value, layers: map<string, Value>)
    ensures var w := Encode(Layered(base, layers)); w.Bare? && w.plain.JsonText? && var o := w.plain.of;
      && HasFields(o, {"type", "base"}, layers.Keys, "layered_object")
      && ("base" !in layers ==> o.fields["base"] == Encode(base))
      && forall k :: k in layers && k != "__proto__" ==> o.fields[k] == Encode(layers[k])
  {
  }

  lemma ElementSpells(kind: string, value: Value)
    requires Spells(Encode(value), value)
    ensures Spells(Encode(Element(kind, value)), Element(kind, value))
  {
  }

  lemma ClosureSpells(v: Value)
    requires v.Closure? && SpellsEntry(EncodeEntry(v.env), v.env) && Spells(Encode(v.title), v.title)
    requires SpellsAll(EncodeAll(v.inputs), v.inputs) && SpellsAll(EncodeAll(v.outputs), v.outputs)
    requires SpellsAll(EncodeAll(v.body), v.body)
    ensures Spells(Encode(v), v)
  {
    ClosureWire(v);
  }

  lemma ClosureWire(v: Value)
    requires v.Closure?
    ensures var w := Encode(v); w.Bare? && w.plain.JsonText? && var o := w.plain.of;
      && HasFields(o, {"type", "env", "name", "inputs", "outputs", "body"}, {}, "closure")
      && o.fields["env"] == EncodeEntry(v.env) && o.fields["name"] == Encode(v.title)
      && o.fields["inputs"] == Array(EncodeAll(v.inputs)) && o.fields["outputs"] == Array(EncodeAll(v.outputs))
      && o.fields["body"] == Bare(JsonText(Array(EncodeAll(v.body))))
  {
  }

  lemma {:induction false} EntrySpells(v: Value)
    ensures SpellsEntry(EncodeEntry(v), v)
    decreases v, 1
  {
    if !v.Cell? { EncodeSpells(v); }
  }

  lemma {:induction false} AllSpell(vs: seq<Value>)
    ensures SpellsAll(EncodeAll(vs), vs)
    decreases vs
  {
    if vs != [] {
      EncodeSpells(vs[0]);
      AllSpell(vs[1..]);
    }
  }

  /** What texts decode to: JSON text of an object to what the object decodes to, text in
      braces that is no such JSON to nothing, any other to itself; lists to nothing. */
  lemma TextsDecode(w: Wire)
    ensures w.Bare? && w.plain.JsonText? && w.plain.of.Object? ==> Decode(w) == Decode(w.plain.of)
    ensures (w.Bare? && w.plain.Braced?) || w.Array? || w.Opaque? ==> Decode(w) == Scalar(Nothing)
    ensures w.Bare? && !w.plain.Braced? && !(w.plain.JsonText? && w.plain.of.Object?) ==> Decode(w) == Scalar(w.plain)
    ensures w.Object? && w.fields.Keys == {"value"} && w.fields["value"].Bare? ==>
      Decode(w) == Scalar(w.fields["value"].plain)
  {
  }

  // ---- Round trip ----

  predicate FreeOfTags(keys: set<string>) {
    "type" !in keys && "__proto__" !in keys
  }

  /** No list outside a closure body, no entry named like the tag, known layers only, and
      one list in the body of a closure. */
  ghost predicate Faithful(v: Value)
    decreases v
  {
    match v
    case Scalar(_) => true
    case List(_) => false
    case Cell(_, _) => true
    case Map(entries) => FreeOfTags(entries.Keys) && forall k :: k in entries ==> Faithful(entries[k])
    case Set(members) => FreeOfTags(members.Keys) && forall k :: k in members ==> Faithful(members[k])
    case Layered(base, layers) =>
      Faithful(base) && forall k :: k in layers ==> (k == "vector_clock" || k == "support") && Faithful(layers[k])
    case Element(_, value) => Faithful(value)
    case Closure(env, title, inputs, outputs, body, more) =>
      Faithful(env) && Faithful(title) && AllFaithful(inputs) && AllFaithful(outputs) && AllFaithful(body) && more == []
  }

  ghost predicate AllFaithful(vs: seq<Value>)
    decreases vs
  {
    forall i :: 0 <= i < |vs| ==> Faithful(vs[i])
  }

  /** A decoded wire that does not carry the tag is a scalar. */
  lemma UntaggedIsScalar(fields: map<string, Wire>)
    requires Tag(fields) == ""
    ensures Decode(Object(fields)).Scalar?
  {
  }

  lemma EncodedIsNoText(v: Value)
    ensures var w := Encode(v); !(w.Bare? && w.plain.Text?)
    ensures var w := EncodeEntry(v); !(w.Bare? && w.plain.Text?)
  {
  }

  lemma ReferenceDecodes(id: string, name: string)
    ensures Decode(Reference(id, name)) == Cell(id, name)
  {
    var w := Reference(id, name);
    assert Tag(w.fields) == "reference" && TextOf(w.fields, "ref_type") == "cell";
    assert "reference"[0] != "MAP"[0] && "reference"[0] != "set"[0] && "reference"[0] != "layered_object"[0]
      && "reference"[0] != "lain_element"[0] && "reference"[0] != "closure"[0] && "reference"[0] != "cell"[0];
  }

  lemma TagKept(tag: string, entries: map<string, Wire>)
    requires "type" !in entries
    ensures Tag(Tagged(tag, entries).fields) == tag
    ensures Tagged(tag, entries).fields.Keys == entries.Keys + {"type"}
    ensures forall k :: k in entries ==> Tagged(tag, entries).fields[k] == entries[k]
  {
  }

  lemma TagReplaced(tag: string, entries: map<string, Wire>)
    requires "type" in entries && !(entries["type"].Bare? && entries["type"].plain.Text?)
    ensures Decode(Tagged(tag, entries)).Scalar?
  {
    UntaggedIsScalar(Tagged(tag, entries).fields);
  }

  lemma {:induction false} RoundTripIff(v: Value)
    ensures Decode(Encode(v)) == v <==> Faithful(v)
    decreases v, 0
  {
    match v {
      case Scalar(_) =>
      case List(_) =>
      case Cell(id, name) =>
      case Map(entries) =>
        forall k | k in entries ensures Decode(EncodeEntry(entries[k])) == entries[k] <==> Faithful(entries[k]) {
          EntryRoundTripIff(entries[k]);
        }
        MapRoundTrip(entries);
      case Set(members) =>
        forall k | k in members ensures Decode(Encode(members[k])) == members[k] <==> Faithful(members[k]) {
          RoundTripIff(members[k]);
        }
        SetRoundTrip(members);
      case Layered(base, layers) =>
        RoundTripIff(base);
        forall k | k in layers ensures Decode(Encode(layers[k])) == layers[k] <==> Faithful(layers[k]) {
          RoundTripIff(layers[k]);
        }
        LayeredRoundTrip(base, layers);
      case Element(kind, value) =>
        RoundTripIff(value);
        ElementDecodes(kind, Encode(value));
      case Closure(env, title, inputs, outputs, body, more) =>
        EntryRoundTripIff(env);
        RoundTripIff(title);
        AllRoundTripIff(inputs);
        AllRoundTripIff(outputs);
        AllRoundTripIff(body);
        ClosureRoundTrip(v);
    }
  }

  lemma {:induction false} AllRoundTripIff(vs: seq<Value>)
    ensures DecodeAll(EncodeAll(vs)) == vs <==> AllFaithful(vs)
    decreases vs, 0
  {
    if vs != [] {
      RoundTripIff(vs[0]);
      AllRoundTripIff(vs[1..]);
      AllCons(vs);
    }
  }

  lemma AllCons(vs: seq<Value>)
    requires vs != []
    ensures DecodeAll(EncodeAll(vs)) == [Decode(Encode(vs[0]))] + DecodeAll(EncodeAll(vs[1..]))
    ensures AllFaithful(vs) <==> Faithful(vs[0]) && AllFaithful(vs[1..])
    ensures vs == [vs[0]] + vs[1..]
  {
    DecodeCons(Encode(vs[0]), EncodeAll(vs[1..]));
    FaithfulCons(vs[0], vs[1..]);
    assert vs == [vs[0]] + vs[1..];
  }

  lemma FaithfulCons(v: Value, vs: seq<Value>)
    ensures AllFaithful([v] + vs) <==> Faithful(v) && AllFaithful(vs)
  {
    var all := [v] + vs;
    assert all[0] == v;
    assert forall i :: 0 <= i < |vs| ==> all[i + 1] == vs[i];
    assert forall i :: 0 < i < |all| ==> all[i] == vs[i - 1];
  }

  lemma DecodeCons(w: Wire, ws: seq<Wire>)
    ensures DecodeAll([w] + ws) == [Decode(w)] + DecodeAll(ws)
  {
    assert ([w] + ws)[1..] == ws;
  }

  lemma {:induction false} EntryRoundTripIff(v: Value)
    ensures Decode(EncodeEntry(v)) == v <==> Faithful(v)
    decreases v, 1
  {
    if v.Cell? { ReferenceDecodes(v.id, v.name); } else { RoundTripIff(v); }
  }

  lemma MapRoundTrip(entries: map<string, Value>)
    requires forall k :: k in entries ==> (Decode(EncodeEntry(entries[k])) == entries[k] <==> Faithful(entries[k]))
    ensures Decode(Encode(Map(entries))) == Map(entries) <==> Faithful(Map(entries))
  {
    var record := map k | k in entries && k != PROTO :: EncodeEntry(entries[k]);
    assert Encode(Map(entries)) == Tagged("MAP", record);
    if "type" in entries {
      EncodedIsNoText(entries["type"]);
      TagReplaced("MAP", record);
    } else {
      RecordDecodes("MAP", record);
      RecordReturnsIff(entries, record, EncodeEntry);
    }
  }

  function DecodedRecord(record: map<string, Wire>): map<string, Value> {
    map k | k in record :: Decode(record[k])
  }

  lemma RecordDecodes(tag: string, record: map<string, Wire>)
    requires "type" !in record && (tag == "MAP" || tag == "set")
    ensures Decode(Tagged(tag, record)) == if tag == "MAP" then Map(DecodedRecord(record))
      else Set(DecodedRecord(record))
  {
    TagKept(tag, record);
    var fields := Tagged(tag, record).fields;
    assert (map k | k in fields && k != "type" :: Decode(fields[k])) == DecodedRecord(record);
  }

  /** A record gives back its entries exactly when none is lost and each comes back. */
  lemma RecordReturnsIff(entries: map<string, Value>, record: map<string, Wire>, encode: Value -> Wire)
    requires record == map k | k in entries && k != PROTO :: encode(entries[k])
    ensures DecodedRecord(record) == entries <==>
      PROTO !in entries && forall k :: k in entries ==> Decode(encode(entries[k])) == entries[k]
  {
    SameMaps(DecodedRecord(record), entries);
  }

  lemma SetRoundTrip(members: map<string, Value>)
    requires forall k :: k in members ==> (Decode(Encode(members[k])) == members[k] <==> Faithful(members[k]))
    ensures Decode(Encode(Set(members))) == Set(members) <==> Faithful(Set(members))
  {
    var record := map k | k in members && k != PROTO :: Encode(members[k]);
    assert Encode(Set(members)) == Tagged("set", record);
    if "type" in members {
      EncodedIsNoText(members["type"]);
      TagReplaced("set", record);
    } else {
      RecordDecodes("set", record);
      RecordReturnsIff(members, record, Encode);
    }
  }

  lemma LayeredDecodes(record: map<string, Wire>)
    requires "type" !in record && "base" in record
    ensures Decode(Bare(JsonText(Tagged("layered_object", record))))
      == Layered(Decode(record["base"]), DecodedLayers(record))
  {
    var w := Tagged("layered_object", record);
    TagKept("layered_object", record);
    assert !KnownLayer("type");
    assert Decode(Bare(JsonText(w))) == Decode(w);
    assert Decode(w).base == DecodeField(w, "base") == Decode(record["base"]);
    assert Decode(w).layers == DecodedLayers(record);
  }

  function LayerRecord(base: Value, layers: map<string, Value>): map<string, Wire> {
    map["base" := Encode(base)] + map k | k in layers && k != PROTO :: Encode(layers[k])
  }

  lemma LayeredRoundTrip(base: Value, layers: map<string, Value>)
    requires Decode(Encode(base)) == base <==> Faithful(base)
    requires forall k :: k in layers ==> (Decode(Encode(layers[k])) == layers[k] <==> Faithful(layers[k]))
    ensures Decode(Encode(Layered(base, layers))) == Layered(base, layers) <==> Faithful(Layered(base, layers))
  {
    LayeredReturnsIff(base, layers);
    assert Faithful(Layered(base, layers)) <==>
      Faithful(base) && forall k :: k in layers ==> KnownLayer(k) && Faithful(layers[k]);
  }

  lemma LayeredReturnsIff(base: Value, layers: map<string, Value>)
    ensures Decode(Encode(Layered(base, layers))) == Layered(base, layers) <==>
      Decode(Encode(base)) == base && forall k :: k in layers ==>
        KnownLayer(k) && Decode(Encode(layers[k])) == layers[k]
  {
    if "type" in layers {
      TypeLayerLost(base, layers);
      assert !KnownLayer("type");
    } else {
      LayeredText(base, layers);
      LayeredDecodes(LayerRecord(base, layers));
      LayersRoundTrip(base, layers);
      if forall k :: k in layers ==> KnownLayer(k) { BaseKept(base, layers); }
    }
  }

  lemma LayeredText(base: Value, layers: map<string, Value>)
    ensures Encode(Layered(base, layers)) == Bare(JsonText(Tagged("layered_object", LayerRecord(base, layers))))
  {
  }

  /** A layer called "type" replaces the tag of the record. */
  lemma TypeLayerLost(base: Value, layers: map<string, Value>)
    requires "type" in layers
    ensures Decode(Encode(Layered(base, layers))) != Layered(base, layers)
  {
    LayeredText(base, layers);
    EncodedIsNoText(layers["type"]);
    TagReplaced("layered_object", LayerRecord(base, layers));
  }

  lemma DecodedLayer(base: Value, layers: map<string, Value>, k: string)
    ensures k in DecodedLayers(LayerRecord(base, layers)) <==> k in layers && KnownLayer(k)
    ensures k in layers && KnownLayer(k) ==> DecodedLayers(LayerRecord(base, layers))[k] == Decode(Encode(layers[k]))
  {
    assert !KnownLayer("base") && !KnownLayer(PROTO);
  }

  lemma LayersRoundTrip(base: Value, layers: map<string, Value>)
    ensures DecodedLayers(LayerRecord(base, layers)) == layers
      <==> forall k :: k in layers ==> KnownLayer(k) && Decode(Encode(layers[k])) == layers[k]
  {
    var decoded := DecodedLayers(LayerRecord(base, layers));
    forall k
      ensures k in decoded <==> k in layers && KnownLayer(k)
      ensures k in layers && KnownLayer(k) ==> decoded[k] == Decode(Encode(layers[k]))
    {
      DecodedLayer(base, layers, k);
    }
    SameMaps(decoded, layers);
  }

  lemma SameMaps(a: map<string, Value>, b: map<string, Value>)
    ensures a == b <==> (forall k :: k in a ==> k in b) && forall k :: k in b ==> k in a && a[k] == b[k]
  {
  }

  lemma BaseKept(base: Value, layers: map<string, Value>)
    requires forall k :: k in layers ==> KnownLayer(k)
    ensures LayerRecord(base, layers)["base"] == Encode(base)
  {
    assert !KnownLayer("base");
  }

  function DecodedLayers(record: map<string, Wire>): map<string, Value> {
    map k | k in record && KnownLayer(k) :: Decode(record[k])
  }

  lemma ElementDecodes(kind: string, value: Wire)
    ensures Decode(Tagged("lain_element", map["element_type" := Word(kind), "value" := value])) ==
      Element(kind, Decode(value))
  {
    var record := map["element_type" := Word(kind), "value" := value];
    var w := Tagged("lain_element", record);
    TagKept("lain_element", record);
    assert Decode(w) == Element(TextOf(w.fields, "element_type"), DecodeField(w, "value"));
  }

  lemma ClosureDecodes(env: Wire, title: Wire, inputs: seq<Wire>, outputs: seq<Wire>, body: seq<Wire>)
    ensures Decode(Bare(JsonText(Tagged("closure",
        map["env" := env, "name" := title, "inputs" := Array(inputs), "outputs" := Array(outputs),
            "body" := Bare(JsonText(Array(body)))]))))
      == Closure(Decode(env), Decode(title), DecodeAll(inputs), DecodeAll(outputs), DecodeAll(body), [])
  {
    var record := map["env" := env, "name" := title, "inputs" := Array(inputs), "outputs" := Array(outputs),
                      "body" := Bare(JsonText(Array(body)))];
    TagKept("closure", record);
    ClosureOfTagged(Tagged("closure", record));
    ClosureFields(Tagged("closure", record), record);
  }

  lemma ClosureOfTagged(w: Wire)
    requires w.Object? && Tag(w.fields) == "closure"
    ensures Decode(Bare(JsonText(w))) == Closure(DecodeField(w, "env"), DecodeField(w, "name"), DecodeList(w, "inputs"),
                                                 DecodeList(w, "outputs"), DecodeBody(w), [])
  {
    assert Decode(Bare(JsonText(w))) == Decode(w);
  }

  lemma ClosureFields(w: Wire, record: map<string, Wire>)
    requires w.Object? && {"env", "name", "inputs", "outputs", "body"} <= record.Keys
    requires forall k :: k in record ==> k in w.fields && w.fields[k] == record[k]
    requires record["inputs"].Array? && record["outputs"].Array?
    requires record["body"].Bare? && record["body"].plain.JsonText? && record["body"].plain.of.Array?
    ensures DecodeField(w, "env") == Decode(record["env"]) && DecodeField(w, "name") == Decode(record["name"])
    ensures DecodeList(w, "inputs") == DecodeAll(record["inputs"].items)
    ensures DecodeList(w, "outputs") == DecodeAll(record["outputs"].items)
    ensures DecodeBody(w) == DecodeAll(record["body"].plain.of.items)
  {
  }

  ghost predicate Returns(v: Value) {
    Decode(Encode(v)) == v <==> Faithful(v)
  }

  lemma ClosureRoundTrip(v: Value)
    requires v.Closure? && Returns(v.title) && (Decode(EncodeEntry(v.env)) == v.env <==> Faithful(v.env))
    requires DecodeAll(EncodeAll(v.inputs)) == v.inputs <==> AllFaithful(v.inputs)
    requires DecodeAll(EncodeAll(v.outputs)) == v.outputs <==> AllFaithful(v.outputs)
    requires DecodeAll(EncodeAll(v.body)) == v.body <==> AllFaithful(v.body)
    ensures Returns(v)
  {
    ClosureDecodes(EncodeEntry(v.env), Encode(v.title), EncodeAll(v.inputs), EncodeAll(v.outputs), EncodeAll(v.body));
  }

  // ---- Encoding as it runs: the recursive encoder is a parameter ----

  /** `record[key] := w` on an object. */
  function Assign(record: map<string, Wire>, key: string, w: Wire): map<string, Wire> {
    if key == PROTO then record else record[key := w]
  }

  method FillRecord(start: map<string, Wire>, entries: map<string, Value>, encode: Value -> Wire)
    returns (record: map<string, Wire>)
    ensures record == start + map k | k in entries && k != PROTO :: encode(entries[k])
  {
    record := start;
    var rest := entries.Keys;
    while rest != {}
      invariant rest <= entries.Keys
      invariant record == start + map k | k in entries && k !in rest && k != PROTO :: encode(entries[k])
      decreases rest
    {
      var key :| key in rest;
      record := Assign(record, key, encode(entries[key]));
      rest := rest - {key};
    }
  }

  method MapSchema(entries: map<string, Value>, encode: Value -> Wire) returns (w: Wire)
    ensures w == Tagged("MAP", map k | k in entries && k != PROTO ::
      if entries[k].Cell? then Reference(entries[k].id, entries[k].name) else encode(entries[k]))
  {
    var entry := (v: Value) => if v.Cell? then Reference(v.id, v.name) else encode(v);
    var record := FillRecord(map["type" := Word("MAP")], entries, entry);
    w := Object(record);
  }

  method SetSchema(members: map<string, Value>, encode: Value -> Wire) returns (w: Wire)
    ensures w == Tagged("set", map k | k in members && k != PROTO :: encode(members[k]))
  {
    var record := FillRecord(map["type" := Word("set")], members, encode);
    w := Object(record);
  }

  method LayeredSchema(base: Value, layers: map<string, Value>, encode: Value -> Wire) returns (w: Wire)
    ensures w ==
      Tagged("layered_object", map["base" := encode(base)] + map k | k in layers && k != PROTO :: encode(layers[k]))
  {
    var record := FillRecord(map["type" := Word("layered_object"), "base" := encode(base)], layers, encode);
    TypeAndBase(Word("layered_object"), encode(base), map k | k in layers && k != PROTO :: encode(layers[k]));
    w := Object(record);
  }

  lemma TypeAndBase(tag: Wire, base: Wire, rest: map<string, Wire>)
    ensures map["type" := tag, "base" := base] + rest == map["type" := tag] + (map["base" := base] + rest)
  {
  }
}
