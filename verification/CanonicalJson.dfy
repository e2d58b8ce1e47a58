// The canonical text of a JSON value: objects are printed with sorted keys. Two values have
// the same text exactly when they are equal with objects read as unordered maps.
module CanonicalJson {
  import opened Common

  /** A UTF-16 code unit. */
  type CodeUnit = c: int | 0 <= c < 0x1_0000

  type Text = seq<CodeUnit>

  /** Numbers are represented by their shortest decimal text. */
  datatype Value =
    | Null
    | Bool(b: bool)
    | Number(digits: Text)
    | String(s: Text)
    | Array(items: seq<Value>)
    | Object(fields: seq<Field>)

  datatype Field = Field(key: Text, value: Value)

  const QUOTE: CodeUnit := 34
  const PLUS: CodeUnit := 43
  const COMMA: CodeUnit := 44
  const MINUS: CodeUnit := 45
  const DOT: CodeUnit := 46
  const COLON: CodeUnit := 58
  const BRACKET: CodeUnit := 91
  const BACKSLASH: CodeUnit := 92
  const BRACKET_END: CodeUnit := 93
  const LETTER_E: CodeUnit := 101
  const LETTER_U: CodeUnit := 117
  const BRACE: CodeUnit := 123
  const BRACE_END: CodeUnit := 125
  const NULL_TEXT: Text := [110, 117, 108, 108]
  const TRUE_TEXT: Text := [116, 114, 117, 101]
  const FALSE_TEXT: Text := [102, 97, 108, 115, 101]

  predicate NumberUnit(c: CodeUnit) {
    48 <= c < 58 || c == PLUS || c == MINUS || c == DOT || c == LETTER_E
  }

  /** Number texts are made of number characters, objects have distinct keys. */
  ghost predicate WellFormed(v: Value) {
    match v
    case Null => true
    case Bool(_) => true
    case Number(d) => d != [] && d[0] != LETTER_E && forall c :: c in d ==> NumberUnit(c)
    case String(_) => true
    case Array(items) => forall i :: 0 <= i < |items| ==> WellFormed(items[i])
    case Object(fields) =>
      && (forall f :: f in fields ==> WellFormed(f.value))
      && forall i, j :: 0 <= i < j < |fields| ==> fields[i].key != fields[j].key
  }

  /** Equality with objects read as unordered maps. */
  ghost predicate Same(v: Value, w: Value) {
    match v
    case Null => w.Null?
    case Bool(b) => w == v
    case Number(d) => w == v
    case String(s) => w == v
    case Array(items) => w.Array? && |items| == |w.items| && forall i :: 0 <= i < |items| ==> Same(items[i], w.items[i])
    case Object(fields) =>
      && w.Object?
      && (forall f {:trigger HasMatch(f, w.fields)} :: f in fields ==> HasMatch(f, w.fields))
      && forall g {:trigger IsMatched(fields, g)} :: g in w.fields ==> IsMatched(fields, g)
  }

  ghost predicate HasMatch(f: Field, others: seq<Field>)
    decreases f, 1
  {
    exists g :: g in others && Matches(f, g)
  }

  ghost predicate IsMatched(fields: seq<Field>, g: Field)
    decreases fields
  {
    exists f :: f in fields && Matches(f, g)
  }

  ghost predicate Matches(f: Field, g: Field)
    decreases f, 0
  {
    f.key == g.key && Same(f.value, g.value)
  }

  // ---- Strings ----

  predicate HighSurrogate(c: CodeUnit) {
    0xD800 <= c < 0xDC00
  }

  predicate LowSurrogate(c: CodeUnit) {
    0xDC00 <= c < 0xE000
  }

  function HexUnit(d: nat): CodeUnit
    requires d < 16
  {
    if d < 10 then 48 + d else 87 + d
  }

  function UnicodeEscape(c: CodeUnit): Text {
    [BACKSLASH, LETTER_U, HexUnit(c / 4096), HexUnit(c / 256 % 16), HexUnit(c / 16 % 16), HexUnit(c % 16)]
  }

  /** The letter of a two-character escape. */
  function ShortEscape(c: CodeUnit): CodeUnit {
    if c == QUOTE || c == BACKSLASH then c
    else if c == 8 then 98
    else if c == 9 then 116
    else if c == 10 then 110
    else if c == 12 then 102
    else if c == 13 then 114
    else LETTER_U
  }

  /** How many code units the next piece of a string covers: a surrogate pair is one piece. */
  function PieceLength(s: Text): nat
    requires s != []
  {
    if |s| > 1 && HighSurrogate(s[0]) && LowSurrogate(s[1]) then 2 else 1
  }

  /** The printed form of the next piece; lone surrogates and controls are escaped. */
  function Piece(s: Text): Text
    requires s != []
  {
    if PieceLength(s) == 2 then s[..2]
    else if ShortEscape(s[0]) != LETTER_U then [BACKSLASH, ShortEscape(s[0])]
    else if s[0] < 32 || HighSurrogate(s[0]) || LowSurrogate(s[0]) then UnicodeEscape(s[0])
    else [s[0]]
  }

  function Escaped(s: Text): Text
    decreases |s|
  {
    if s == [] then [] else Piece(s) + Escaped(s[PieceLength(s)..])
  }

  function Quoted(s: Text): Text {
    [QUOTE] + Escaped(s) + [QUOTE]
  }

  // ---- Which characters are escaped ----

  const HEX_DIGITS: Text := [48, 49, 50, 51, 52, 53, 54, 55, 56, 57, 97, 98, 99, 100, 101, 102]

  /** The text of the code unit at `i`: two units for a quotation mark, a backslash, and the
      five controls with a letter of their own; six for other controls and for surrogates
      that are not part of a pair; itself else. */
  ghost function UnitText(s: Text, i: nat): Text
    requires i < |s|
  {
    var c := s[i];
    if c == 34 then [92, 34]
    else if c == 92 then [92, 92]
    else if c == 8 then [92, 98]
    else if c == 9 then [92, 116]
    else if c == 10 then [92, 110]
    else if c == 12 then [92, 102]
    else if c == 13 then [92, 114]
    else if c < 32 || Lone(s, i) then
      [92, 117, HEX_DIGITS[c / 0x1000], HEX_DIGITS[c / 0x100 % 16], HEX_DIGITS[c / 0x10 % 16], HEX_DIGITS[c % 16]]
    else [c]
  }

  /** A high surrogate with no low one behind it, or a low one with no high one before it. */
  ghost predicate Lone(s: Text, i: nat)
    requires i < |s|
  {
    || (0xD800 <= s[i] < 0xDC00 && !(i + 1 < |s| && 0xDC00 <= s[i + 1] < 0xE000))
    || (0xDC00 <= s[i] < 0xE000 && !(i > 0 && 0xD800 <= s[i - 1] < 0xDC00))
  }

  /** The texts of the units from `i` on. */
  ghost function UnitTexts(s: Text, i: nat): Text
    requires i <= |s|
    decreases |s| - i
  {
    if i == |s| then [] else UnitText(s, i) + UnitTexts(s, i + 1)
  }

  lemma EscapedExact(s: Text)
    ensures Escaped(s) == UnitTexts(s, 0)
  {
    EscapedFrom(s, 0);
    assert s[0..] == s;
  }

  lemma {:induction false} EscapedFrom(s: Text, i: nat)
    requires i <= |s| && (0 < i < |s| && LowSurrogate(s[i]) ==> !HighSurrogate(s[i - 1]))
    ensures Escaped(s[i..]) == UnitTexts(s, i)
    decreases |s| - i
  {
    if i < |s| {
      PieceTexts(s, i);
      EscapedStep(s, i);
      if PieceLength(s[i..]) == 2 {
        EscapedFrom(s, i + 2);
        TwoUnits(s[i], s[i + 1], UnitTexts(s, i + 2));
      } else {
        EscapedFrom(s, i + 1);
      }
    }
  }

  lemma EscapedStep(s: Text, i: nat)
    requires i < |s|
    ensures var n := PieceLength(s[i..]); i + n <= |s| && Escaped(s[i..]) == Piece(s[i..]) + Escaped(s[i + n..])
  {
    assert s[i..][PieceLength(s[i..])..] == s[i + PieceLength(s[i..])..];
  }

  lemma TwoUnits(a: CodeUnit, b: CodeUnit, rest: Text)
    ensures [a] + ([b] + rest) == [a, b] + rest
  {
  }

  /** A piece is the text of its one or two units. */
  lemma PieceTexts(s: Text, i: nat)
    requires i < |s| && (0 < i && LowSurrogate(s[i]) ==> !HighSurrogate(s[i - 1]))
    ensures var n := PieceLength(s[i..]);
      if n == 2 then
        && i + 1 < |s| && UnitText(s, i) == [s[i]] && UnitText(s, i + 1) == [s[i + 1]]
        && Piece(s[i..]) == [s[i], s[i + 1]] && !HighSurrogate(s[i + 1])
      else
        && Piece(s[i..]) == UnitText(s, i)
        && (i + 1 < |s| && LowSurrogate(s[i + 1]) ==> !HighSurrogate(s[i]))
  {
    var rest := s[i..];
    assert rest[0] == s[i] && (|rest| > 1 ==> rest[1] == s[i + 1]);
    if PieceLength(rest) == 2 { assert rest[..2] == [s[i], s[i + 1]]; }
    assert forall d: nat :: d < 16 ==> HEX_DIGITS[d] == HexUnit(d);
  }

  // ---- Reading strings ----

  /** The value of a hexadecimal digit, -1 for other units. */
  function HexValue(c: CodeUnit): int {
    if 48 <= c < 58 then c - 48 else if 97 <= c < 103 then c - 87 else -1
  }

  /** One code unit of a string by the grammar of JSON, and what follows it. */
  function ReadUnit(t: Text): (r: Option<(CodeUnit, Text)>)
    ensures r.Some? ==> |r.value.1| < |t|
  {
    if t == [] || t[0] < 32 || t[0] == 34 then None
    else if t[0] != 92 then Some((t[0], t[1..]))
    else if |t| == 1 then None
    else if t[1] == 34 || t[1] == 47 || t[1] == 92 then Some((t[1], t[2..]))
    else if t[1] == 98 then Some((8, t[2..]))
    else if t[1] == 102 then Some((12, t[2..]))
    else if t[1] == 110 then Some((10, t[2..]))
    else if t[1] == 114 then Some((13, t[2..]))
    else if t[1] == 116 then Some((9, t[2..]))
    else if t[1] == 117 && |t| >= 6 && forall i :: 2 <= i < 6 ==> HexValue(t[i]) >= 0 then
      Some((((HexValue(t[2]) * 16 + HexValue(t[3])) * 16 + HexValue(t[4])) * 16 + HexValue(t[5]), t[6..]))
    else None
  }

  /** The rest of a string up to its closing quotation mark, and what follows that. */
  function ReadString(t: Text): (r: Option<(Text, Text)>)
    ensures r.Some? ==> |r.value.1| < |t|
    decreases |t|
  {
    if t != [] && t[0] == 34 then Some(([], t[1..]))
    else match ReadUnit(t)
      case None => None
      case Some((c, rest)) =>
        match ReadString(rest)
        case None => None
        case Some((s, after)) => Some(([c] + s, after))
  }

  /** Concatenation of texts is associative, and a first unit can be split off. */
  lemma Regroup(a: Text, b: Text, c: Text)
    ensures a + b + c == a + (b + c)
  {
  }

  lemma Headed(c: CodeUnit, rest: Text)
    ensures ([c] + rest)[0] == c && ([c] + rest)[1..] == rest
  {
  }

  lemma UnicodeReads(c: CodeUnit, rest: Text)
    ensures ReadUnit(UnicodeEscape(c) + rest) == Some((c, rest))
  {
    var t := UnicodeEscape(c) + rest;
    assert t[6..] == rest;
    assert HexValue(t[2]) == c / 4096 && HexValue(t[3]) == c / 256 % 16;
    assert HexValue(t[4]) == c / 16 % 16 && HexValue(t[5]) == c % 16;
    assert c / 256 == c / 4096 * 16 + c / 256 % 16;
    assert c / 16 == c / 256 * 16 + c / 16 % 16;
  }

  /** A piece that is not a pair reads back as its unit. */
  lemma PieceReads(s: Text, rest: Text)
    requires s != [] && PieceLength(s) == 1
    ensures ReadUnit(Piece(s) + rest) == Some((s[0], rest)) && Piece(s) != [] && (Piece(s) + rest)[0] != 34
  {
    if ShortEscape(s[0]) != LETTER_U {
      assert (Piece(s) + rest)[2..] == rest;
    } else if s[0] < 32 || HighSurrogate(s[0]) || LowSurrogate(s[0]) {
      UnicodeReads(s[0], rest);
    } else {
      assert (Piece(s) + rest)[1..] == rest;
    }
  }

  /** A pair reads back as its two units. */
  lemma PairReads(s: Text, rest: Text)
    requires s != [] && PieceLength(s) == 2
    ensures var t := Piece(s) + rest;
      && ReadUnit(t) == Some((s[0], [s[1]] + rest)) && ReadUnit([s[1]] + rest) == Some((s[1], rest))
      && t[0] != 34 && s[1] != 34
  {
    var t := Piece(s) + rest;
    assert t[1..] == [s[1]] + rest && ([s[1]] + rest)[1..] == rest;
  }

  /** A string reads back, whatever follows its closing quotation mark. */
  lemma {:induction false} StringReads(s: Text, x: Text)
    ensures ReadString(Escaped(s) + [34] + x) == Some((s, x))
    decreases |s|
  {
    var t := Escaped(s) + [34] + x;
    if s == [] {
      assert t == [34] + x && t[1..] == x;
    } else {
      var n := PieceLength(s);
      var inner := Escaped(s[n..]);
      StringReads(s[n..], x);
      Regroup(Piece(s), inner, [34]);
      Regroup(Piece(s), inner + [34], x);
      PieceThen(s, inner + [34] + x, s[n..], x);
    }
  }

  lemma PieceThen(s: Text, rest: Text, u: Text, x: Text)
    requires s != [] && u == s[PieceLength(s)..] && ReadString(rest) == Some((u, x))
    ensures ReadString(Piece(s) + rest) == Some((s, x))
  {
    if PieceLength(s) == 2 {
      PairReads(s, rest);
      assert s == [s[0]] + ([s[1]] + u);
    } else {
      PieceReads(s, rest);
      assert s == [s[0]] + u;
    }
  }

  /** Escaped strings are told apart by their text, whatever follows the closing quote. */
  lemma EscapedInjective(s: Text, t: Text, x: Text, y: Text)
    requires Escaped(s) + [QUOTE] + x == Escaped(t) + [QUOTE] + y
    ensures s == t && x == y
  {
    StringReads(s, x);
    StringReads(t, y);
  }

  // ---- Printing ----

  function LessEq(a: Text, b: Text): bool {
    if a == [] then true
    else if b == [] then false
    else if a[0] != b[0] then a[0] < b[0]
    else LessEq(a[1..], b[1..])
  }

  /** A key with the text of its value. */
  datatype Entry = Entry(key: Text, text: Text)

  function Insert(e: Entry, es: seq<Entry>): seq<Entry> {
    if es == [] || LessEq(e.key, es[0].key) then [e] + es else [es[0]] + Insert(e, es[1..])
  }

  function Sort(es: seq<Entry>): seq<Entry> {
    if es == [] then [] else Insert(es[0], Sort(es[1..]))
  }

  function Print(v: Value): Text {
    match v
    case Null => NULL_TEXT
    case Bool(b) => if b then TRUE_TEXT else FALSE_TEXT
    case Number(d) => d
    case String(s) => Quoted(s)
    case Array(items) => [BRACKET] + Join(Texts(items)) + [BRACKET_END]
    case Object(fields) => [BRACE] + JoinEntries(Sort(Entries(fields))) + [BRACE_END]
  }

  function Texts(items: seq<Value>): (ts: seq<Text>)
    ensures |ts| == |items| && forall i :: 0 <= i < |items| ==> ts[i] == Print(items[i])
  {
    if items == [] then [] else [Print(items[0])] + Texts(items[1..])
  }

  function Entries(fields: seq<Field>): (es: seq<Entry>)
    ensures |es| == |fields|
    ensures forall i :: 0 <= i < |fields| ==> es[i] == Entry(fields[i].key, Print(fields[i].value))
  {
    if fields == [] then [] else [Entry(fields[0].key, Print(fields[0].value))] + Entries(fields[1..])
  }

  function Join(ts: seq<Text>): Text {
    if ts == [] then [] else if |ts| == 1 then ts[0] else ts[0] + [COMMA] + Join(ts[1..])
  }

  function EntryText(e: Entry): Text {
    Quoted(e.key) + [COLON] + e.text
  }

  function JoinEntries(es: seq<Entry>): Text {
    if es == [] then [] else if |es| == 1 then EntryText(es[0]) else EntryText(es[0]) + [COMMA] + JoinEntries(es[1..])
  }

  // ---- Sorting ----

  /** Strictly increasing keys: of two, the earlier is a prefix of the later, or smaller at the
      first unit where they differ. */
  ghost predicate Ordered(es: seq<Entry>) {
    forall i, j :: 0 <= i < j < |es| ==> Precedes(es[i].key, es[j].key) && es[i].key != es[j].key
  }

  lemma {:induction false} LessEqExact(a: Text, b: Text)
    ensures LessEq(a, b) <==> Precedes(a, b)
  {
    PrecedesFirst(a, b);
    if a != [] && b != [] && a[0] == b[0] { LessEqExact(a[1..], b[1..]); }
  }

  lemma {:induction false} LessEqTotal(a: Text, b: Text)
    ensures LessEq(a, b) || LessEq(b, a)
    ensures LessEq(a, b) && LessEq(b, a) ==> a == b
  {
    if a != [] && b != [] && a[0] == b[0] {
      LessEqTotal(a[1..], b[1..]);
      assert a == [a[0]] + a[1..] && b == [b[0]] + b[1..];
    }
  }

  lemma {:induction false} LessEqTransitive(a: Text, b: Text, c: Text)
    requires LessEq(a, b) && LessEq(b, c)
    ensures LessEq(a, c)
  {
    if a != [] && b != [] && c != [] && a[0] == b[0] == c[0] {
      LessEqTransitive(a[1..], b[1..], c[1..]);
    }
  }

  lemma {:induction false} InsertOrdered(e: Entry, es: seq<Entry>)
    requires Ordered(es) && forall x :: x in es ==> x.key != e.key
    ensures Ordered(Insert(e, es)) && forall x :: x in Insert(e, es) <==> x == e || x in es
  {
    forall a: Text, b: Text ensures LessEq(a, b) <==> Precedes(a, b) {
      LessEqExact(a, b);
    }
    if es == [] {
    } else if LessEq(e.key, es[0].key) {
      forall i | 0 <= i < |es| ensures Precedes(e.key, es[i].key) && e.key != es[i].key {
        assert es[i] in es;
        if i > 0 { LessEqTransitive(e.key, es[0].key, es[i].key); }
      }
    } else {
      LessEqTotal(e.key, es[0].key);
      var rest := Insert(e, es[1..]);
      assert forall x :: x in es <==> x == es[0] || x in es[1..];
      InsertOrdered(e, es[1..]);
      forall i | 0 <= i < |rest| ensures Precedes(es[0].key, rest[i].key) && es[0].key != rest[i].key {
        assert rest[i] in rest;
        if rest[i] != e {
          var j :| 0 <= j < |es[1..]| && es[1..][j] == rest[i];
          assert es[j + 1] == rest[i];
        }
      }
    }
  }

  ghost predicate DistinctKeys(es: seq<Entry>) {
    forall i, j :: 0 <= i < j < |es| ==> es[i].key != es[j].key
  }

  lemma {:induction false} SortOrdered(es: seq<Entry>)
    requires DistinctKeys(es)
    ensures Ordered(Sort(es)) && forall x :: x in Sort(es) <==> x in es
  {
    if es != [] {
      SortOrdered(es[1..]);
      assert forall x :: x in es <==> x == es[0] || x in es[1..];
      forall x | x in Sort(es[1..]) ensures x.key != es[0].key {
        var j :| 0 <= j < |es[1..]| && es[1..][j] == x;
        assert es[j + 1] == x;
      }
      InsertOrdered(es[0], Sort(es[1..]));
    }
  }

  /** Ordered lists with the same elements are equal. */
  lemma {:induction false} OrderedUnique(x: seq<Entry>, y: seq<Entry>)
    requires Ordered(x) && Ordered(y) && forall e :: e in x <==> e in y
    ensures x == y
  {
    assert (x != [] ==> x[0] in y) && (y != [] ==> y[0] in x);
    if x != [] && y != [] {
      FirstIsLeast(x, y);
      assert x[0] == y[0];
      forall e ensures e in x[1..] <==> e in y[1..] {
        InRest(x, e);
        InRest(y, e);
      }
      OrderedUnique(x[1..], y[1..]);
      assert x == [x[0]] + x[1..] && y == [y[0]] + y[1..];
    }
  }

  lemma InRest(x: seq<Entry>, e: Entry)
    requires Ordered(x) && x != []
    ensures e in x[1..] <==> e in x && e != x[0]
  {
    assert x == [x[0]] + x[1..];
  }

  lemma FirstIsLeast(x: seq<Entry>, y: seq<Entry>)
    requires Ordered(x) && Ordered(y) && x != [] && y != [] && forall e :: e in x <==> e in y
    ensures x[0] == y[0]
  {
    assert x[0] in y && y[0] in x;
    var i :| 0 <= i < |y| && y[i] == x[0];
    var j :| 0 <= j < |x| && x[j] == y[0];
    if i > 0 && j > 0 {
      LessEqExact(x[0].key, y[0].key);
      LessEqExact(y[0].key, x[0].key);
      LessEqTotal(x[0].key, y[0].key);
    }
  }

  function EntryOf(f: Field): Entry {
    Entry(f.key, Print(f.value))
  }

  /** `e` is the printed form of one of the fields. */
  ghost predicate Printed(fields: seq<Field>, e: Entry) {
    exists f :: f in fields && e == EntryOf(f)
  }

  lemma {:induction false} EntriesSorted(fields: seq<Field>)
    requires forall i, j :: 0 <= i < j < |fields| ==> fields[i].key != fields[j].key
    ensures Ordered(Sort(Entries(fields)))
    ensures forall e :: e in Sort(Entries(fields)) <==> Printed(fields, e)
  {
    var es := Entries(fields);
    assert forall i, j :: 0 <= i < j < |es| ==> es[i].key == fields[i].key && es[j].key == fields[j].key;
    SortOrdered(es);
    forall e ensures e in es <==> Printed(fields, e) {
      if e in es {
        var i :| 0 <= i < |es| && es[i] == e;
        assert fields[i] in fields && e == EntryOf(fields[i]);
      }
      if Printed(fields, e) {
        var f :| f in fields && e == EntryOf(f);
        var i :| 0 <= i < |fields| && fields[i] == f;
        assert es[i] == e;
      }
    }
  }

  // ---- Equal values print alike ----

  lemma {:induction false} SamePrintsAlike(v: Value, w: Value)
    requires WellFormed(v) && WellFormed(w) && Same(v, w)
    ensures Print(v) == Print(w)
    decreases v, 1
  {
    match v {
      case Array(items) =>
        forall i | 0 <= i < |items| ensures Print(items[i]) == Print(w.items[i]) {
          SamePrintsAlike(items[i], w.items[i]);
        }
        assert Texts(items) == Texts(w.items);
      case Object(fields) =>
        EntriesSorted(fields);
        EntriesSorted(w.fields);
        forall f, g | f in fields && g in w.fields && Matches(f, g) ensures EntryOf(f) == EntryOf(g) {
          FieldPrintsAlike(v, f, g);
        }
        SameEntries(fields, w.fields);
        OrderedUnique(Sort(Entries(fields)), Sort(Entries(w.fields)));
      case _ =>
    }
  }

  lemma {:induction false} FieldPrintsAlike(v: Value, f: Field, g: Field)
    requires f.value < v && WellFormed(f.value) && WellFormed(g.value) && Matches(f, g)
    ensures EntryOf(f) == EntryOf(g)
    decreases v, 0
  {
    SamePrintsAlike(f.value, g.value);
  }

  lemma SameEntries(fields: seq<Field>, others: seq<Field>)
    requires forall f {:trigger HasMatch(f, others)} :: f in fields ==> HasMatch(f, others)
    requires forall g {:trigger IsMatched(fields, g)} :: g in others ==> IsMatched(fields, g)
    requires forall f, g {:trigger Matches(f, g)} :: f in fields && g in others && Matches(f, g) ==>
      EntryOf(f) == EntryOf(g)
    ensures forall e :: Printed(fields, e) <==> Printed(others, e)
  {
    forall e ensures Printed(fields, e) <==> Printed(others, e) {
      if Printed(fields, e) {
        var f :| f in fields && e == EntryOf(f);
        assert HasMatch(f, others);
        var g :| g in others && Matches(f, g);
        assert e == EntryOf(g);
      }
      if Printed(others, e) {
        var g :| g in others && e == EntryOf(g);
        assert IsMatched(fields, g);
        var f :| f in fields && Matches(f, g);
        assert e == EntryOf(f);
      }
    }
  }

  // ---- Reading values ----

  /** How many of the first units are number characters. */
  function NumberLength(t: Text): (n: nat)
    ensures n <= |t|
  {
    if t != [] && (48 <= t[0] < 58 || t[0] == 43 || t[0] == 45 || t[0] == 46 || t[0] == 101) then
      1 + NumberLength(t[1..])
    else 0
  }

  function ReadWord(t: Text, word: Text, v: Value): (r: Option<(Value, Text)>)
    requires word != []
    ensures r.Some? ==> |r.value.1| < |t|
  {
    if word <= t then Some((v, t[|word|..])) else None
  }

  /** A value by the grammar of JSON, without spaces, and what follows it. */
  function ReadValue(t: Text): (r: Option<(Value, Text)>)
    ensures r.Some? ==> |r.value.1| < |t|
    decreases |t|, 0
  {
    if t == [] then None
    else if t[0] == 110 then ReadWord(t, [110, 117, 108, 108], Null)
    else if t[0] == 116 then ReadWord(t, [116, 114, 117, 101], Bool(true))
    else if t[0] == 102 then ReadWord(t, [102, 97, 108, 115, 101], Bool(false))
    else if t[0] == 34 then
      (match ReadString(t[1..]) case None => None case Some((s, rest)) => Some((String(s), rest)))
    else if t[0] == 91 then
      if |t| > 1 && t[1] == 93 then Some((Array([]), t[2..]))
      else (match ReadItems(t[1..]) case None => None case Some((items, rest)) => Some((Array(items), rest)))
    else if t[0] == 123 then
      if |t| > 1 && t[1] == 125 then Some((Object([]), t[2..]))
      else (match ReadFields(t[1..]) case None => None case Some((fields, rest)) => Some((Object(fields), rest)))
    else
      var n := NumberLength(t);
      if n == 0 then None else Some((Number(t[..n]), t[n..]))
  }

  /** One or more values with commas between them, up to the closing bracket. */
  function ReadItems(t: Text): (r: Option<(seq<Value>, Text)>)
    ensures r.Some? ==> |r.value.1| < |t|
    decreases |t|, 1
  {
    match ReadValue(t)
    case None => None
    case Some((v, rest)) =>
      if rest == [] then None
      else if rest[0] == 93 then Some(([v], rest[1..]))
      else if rest[0] != 44 then None
      else match ReadItems(rest[1..])
        case None => None
        case Some((items, after)) => Some(([v] + items, after))
  }

  /** A key, a colon and a value. */
  function ReadField(t: Text): (r: Option<(Field, Text)>)
    ensures r.Some? ==> |r.value.1| < |t|
    decreases |t|, 1
  {
    if t == [] || t[0] != 34 then None
    else match ReadString(t[1..])
      case None => None
      case Some((key, rest)) =>
        if rest == [] || rest[0] != 58 then None
        else match ReadValue(rest[1..])
          case None => None
          case Some((v, after)) => Some((Field(key, v), after))
  }

  /** One or more fields with commas between them, up to the closing brace. */
  function ReadFields(t: Text): (r: Option<(seq<Field>, Text)>)
    ensures r.Some? ==> |r.value.1| < |t|
    decreases |t|, 2
  {
    match ReadField(t)
    case None => None
    case Some((f, rest)) =>
      if rest == [] then None
      else if rest[0] == 125 then Some(([f], rest[1..]))
      else if rest[0] != 44 then None
      else match ReadFields(rest[1..])
        case None => None
        case Some((fields, after)) => Some(([f] + fields, after))
  }

  // ---- What is printed reads back ----

  /** What may follow a printed value. */
  ghost predicate Follows(x: Text) {
    x == [] || x[0] == 44 || x[0] == 93 || x[0] == 125
  }

  /** All objects list their fields with ascending keys. */
  ghost predicate KeysAscend(v: Value) {
    match v
    case Array(items) => forall i :: 0 <= i < |items| ==> KeysAscend(items[i])
    case Object(fields) =>
      && (forall i :: 0 <= i < |fields| ==> KeysAscend(fields[i].value))
      && forall i, j :: 0 <= i < j < |fields| ==>
           fields[i].key != fields[j].key && Precedes(fields[i].key, fields[j].key)
    case _ => true
  }

  /** The text reads back as a value that is the same, with ascending keys. */
  ghost predicate ReadsBack(v: Value, x: Text) {
    exists w :: ReadValue(Print(v) + x) == Some((w, x)) && Same(v, w) && KeysAscend(w)
  }

  /** The longest stretch of number characters. */
  lemma {:induction false} NumberLengthExact(t: Text)
    ensures forall i :: 0 <= i < NumberLength(t) ==> NumberUnit(t[i])
    ensures NumberLength(t) < |t| ==> !NumberUnit(t[NumberLength(t)])
  {
    if NumberLength(t) > 0 {
      NumberLengthExact(t[1..]);
      assert forall i :: 0 < i < NumberLength(t) ==> t[i] == t[1..][i - 1];
    }
  }

  lemma {:induction false} NumberReads(d: Text, x: Text)
    requires Follows(x) && forall c :: c in d ==> NumberUnit(c)
    ensures NumberLength(d + x) == |d|
  {
    if d == [] {
      assert d + x == x;
    } else {
      assert (d + x)[1..] == d[1..] + x && d[0] in d;
      NumberReads(d[1..], x);
    }
  }

  /** The first unit of a printed value is not a closing bracket or brace. */
  lemma FirstUnit(v: Value)
    requires WellFormed(v)
    ensures Print(v) != [] && Print(v)[0] != 93 && Print(v)[0] != 125
  {
    if v.Number? { assert v.digits[0] in v.digits; }
  }

  lemma {:induction false} PrintReads(v: Value, x: Text)
    requires WellFormed(v) && Follows(x)
    ensures ReadsBack(v, x)
    decreases v, 2
  {
    match v {
      case Null => LiteralReads(v, NULL_TEXT, x);
      case Bool(b) => LiteralReads(v, if b then TRUE_TEXT else FALSE_TEXT, x);
      case Number(d) => NumberReadsBack(d, x);
      case String(s) => StringReadsBack(s, x);
      case Array(items) =>
        if items == [] {
          EmptyReads(v, x);
        } else {
          var ws := ItemsRead(v, items, x);
          ArrayReads(items, ws, x);
        }
      case Object(fields) =>
        if fields == [] {
          EmptyReads(v, x);
        } else {
          EntriesSorted(fields);
          var es := Sort(Entries(fields));
          NotEmpty(fields, es);
          var ws := FieldsRead(v, fields, es, x);
          ObjectReads(fields, es, ws, x);
        }
    }
  }

  lemma LiteralReads(v: Value, text: Text, x: Text)
    requires (v.Null? || v.Bool?) && text == Print(v)
    ensures ReadsBack(v, x)
  {
    WordReads(text, v, x);
    assert v.Null? ==> text == [110, 117, 108, 108];
    assert v.Bool? ==> text == if v.b then [116, 114, 117, 101] else [102, 97, 108, 115, 101];
    assert ReadValue(text + x) == Some((v, x));
  }

  lemma WordReads(word: Text, v: Value, x: Text)
    requires word != []
    ensures ReadWord(word + x, word, v) == Some((v, x)) && (word + x)[0] == word[0]
  {
    assert (word + x)[|word|..] == x;
  }

  lemma NumberReadsBack(d: Text, x: Text)
    requires WellFormed(Number(d)) && Follows(x)
    ensures ReadsBack(Number(d), x)
  {
    var t := d + x;
    NumberReads(d, x);
    assert t[0] == d[0] && NumberUnit(d[0]) by { assert d[0] in d; }
    assert t[..|d|] == d && t[|d|..] == x;
    assert ReadValue(t) == Some((Number(d), x));
  }

  lemma StringReadsBack(s: Text, x: Text)
    ensures ReadsBack(String(s), x)
  {
    StringReads(s, x);
    QuotedThen(s, x);
    assert ReadValue(Quoted(s) + x) == Some((String(s), x));
  }

  lemma QuotedThen(s: Text, x: Text)
    ensures Quoted(s) + x == [34] + (Escaped(s) + [34] + x)
    ensures (Quoted(s) + x)[0] == 34 && (Quoted(s) + x)[1..] == Escaped(s) + [34] + x
  {
    var inner := Escaped(s) + [34];
    assert Quoted(s) == [34] + inner by { Regroup([34], Escaped(s), [34]); }
    Regroup([34], inner, x);
    Headed(34, inner + x);
  }

  lemma EmptyReads(v: Value, x: Text)
    requires v == Array([]) || v == Object([])
    ensures ReadsBack(v, x)
  {
    var t := Print(v) + x;
    assert t == (if v.Array? then [91, 93] else [123, 125]) + x && t[2..] == x;
    assert ReadValue(t) == Some((v, x));
  }

  /** The elements read back in order. */
  lemma {:induction false} ItemsRead(v: Value, items: seq<Value>, x: Text) returns (ws: seq<Value>)
    requires items != [] && forall i :: 0 <= i < |items| ==> items[i] < v && WellFormed(items[i])
    ensures ReadItems(Join(Texts(items)) + [93] + x) == Some((ws, x)) && |ws| == |items|
    ensures forall i :: 0 <= i < |items| ==> Same(items[i], ws[i]) && KeysAscend(ws[i])
    decreases v, 1, |items|
  {
    var t := Join(Texts(items)) + [93] + x;
    JoinSplit(Texts(items), 93, x);
    if |items| == 1 {
      PrintReads(items[0], [93] + x);
      var w :| ReadValue(t) == Some((w, [93] + x)) && Same(items[0], w) && KeysAscend(w);
      Headed(93, x);
      ws := [w];
    } else {
      var others := Join(Texts(items)[1..]) + [93] + x;
      PrintReads(items[0], [44] + others);
      var w :| ReadValue(t) == Some((w, [44] + others)) && Same(items[0], w) && KeysAscend(w);
      Headed(44, others);
      assert Texts(items)[1..] == Texts(items[1..]);
      var rest := ItemsRead(v, items[1..], x);
      ws := [w] + rest;
      ConsPairs(items, w, rest);
    }
  }

  /** The first text of a list, and what follows it. */
  lemma JoinSplit(ts: seq<Text>, close: CodeUnit, x: Text)
    requires ts != []
    ensures Join(ts) + [close] + x ==
      ts[0] + if |ts| == 1 then [close] + x else [44] + (Join(ts[1..]) + [close] + x)
  {
    if |ts| == 1 {
      Regroup(ts[0], [close], x);
    } else {
      var others := Join(ts[1..]);
      Regroup(ts[0], [44], others);
      Regroup(ts[0], [44] + others, [close]);
      Regroup([44], others, [close]);
      Regroup(ts[0], [44] + (others + [close]), x);
      Regroup([44], others + [close], x);
    }
  }

  lemma ConsPairs(items: seq<Value>, w: Value, rest: seq<Value>)
    requires |items| == |rest| + 1 && Same(items[0], w) && KeysAscend(w)
    requires forall i :: 0 <= i < |items[1..]| ==> Same(items[1..][i], rest[i]) && KeysAscend(rest[i])
    ensures forall i :: 0 <= i < |items| ==> Same(items[i], ([w] + rest)[i]) && KeysAscend(([w] + rest)[i])
  {
    forall i | 0 <= i < |items| ensures Same(items[i], ([w] + rest)[i]) && KeysAscend(([w] + rest)[i]) {
      if i > 0 { assert items[1..][i - 1] == items[i] && ([w] + rest)[i] == rest[i - 1]; }
    }
  }

  lemma ArrayReads(items: seq<Value>, ws: seq<Value>, x: Text)
    requires items != [] && WellFormed(items[0]) && |ws| == |items|
    requires ReadItems(Join(Texts(items)) + [93] + x) == Some((ws, x))
    requires forall i :: 0 <= i < |items| ==> Same(items[i], ws[i]) && KeysAscend(ws[i])
    ensures ReadsBack(Array(items), x)
  {
    var inner := Join(Texts(items)) + [93] + x;
    Regroup([91], Join(Texts(items)), [93]);
    Regroup([91], Join(Texts(items)) + [93], x);
    JoinSplit(Texts(items), 93, x);
    FirstUnit(items[0]);
    assert inner[0] == Print(items[0])[0];
    BracketReads(inner, ws, x);
    assert Same(Array(items), Array(ws));
  }

  lemma BracketReads(inner: Text, ws: seq<Value>, x: Text)
    requires inner != [] && inner[0] != 93 && ReadItems(inner) == Some((ws, x))
    ensures ReadValue([91] + inner) == Some((Array(ws), x))
  {
    var t := [91] + inner;
    Headed(91, inner);
    assert t[1] == inner[0];
  }

  lemma NotEmpty(fields: seq<Field>, es: seq<Entry>)
    requires fields != [] && forall e :: e in es <==> Printed(fields, e)
    ensures es != []
  {
    assert fields[0] in fields && Printed(fields, EntryOf(fields[0]));
  }

  /** A field that reads back what an entry prints. */
  ghost predicate Reads(fields: seq<Field>, e: Entry, g: Field) {
    exists f :: f in fields && e == EntryOf(f) && Matches(f, g) && KeysAscend(g.value)
  }

  lemma {:induction false} FieldReads(v: Value, fields: seq<Field>, e: Entry, x: Text) returns (g: Field)
    requires (forall f :: f in fields ==> f.value < v && WellFormed(f.value)) && Printed(fields, e) && Follows(x)
    ensures ReadField(EntryText(e) + x) == Some((g, x)) && Reads(fields, e, g)
    decreases v, 0
  {
    var f :| f in fields && e == EntryOf(f);
    PrintReads(f.value, x);
    var w :| ReadValue(Print(f.value) + x) == Some((w, x)) && Same(f.value, w) && KeysAscend(w);
    g := Field(e.key, w);
    EntryTextReads(e, w, x);
    assert Matches(f, g);
  }

  lemma EntryTextReads(e: Entry, w: Value, x: Text)
    requires ReadValue(e.text + x) == Some((w, x))
    ensures ReadField(EntryText(e) + x) == Some((Field(e.key, w), x))
  {
    var after := [58] + (e.text + x);
    StringReads(e.key, after);
    QuotedThen(e.key, after);
    Headed(58, e.text + x);
    Regroup(Quoted(e.key), [58], e.text);
    Regroup(Quoted(e.key), [58] + e.text, x);
    Regroup([58], e.text, x);
    assert EntryText(e) + x == Quoted(e.key) + after;
  }

  function EntryTexts(es: seq<Entry>): seq<Text> {
    seq(|es|, i requires 0 <= i < |es| => EntryText(es[i]))
  }

  lemma {:induction false} EntriesJoin(es: seq<Entry>)
    ensures JoinEntries(es) == Join(EntryTexts(es))
  {
    if |es| > 1 {
      EntriesJoin(es[1..]);
      assert EntryTexts(es)[1..] == EntryTexts(es[1..]);
    }
  }

  /** The fields read back in order. */
  lemma {:induction false} FieldsRead(v: Value, fields: seq<Field>, es: seq<Entry>, x: Text) returns (gs: seq<Field>)
    requires es != [] && (forall f :: f in fields ==> f.value < v && WellFormed(f.value))
    requires forall e :: e in es ==> Printed(fields, e)
    ensures ReadFields(JoinEntries(es) + [125] + x) == Some((gs, x)) && |gs| == |es|
    ensures forall i :: 0 <= i < |es| ==> Reads(fields, es[i], gs[i])
    decreases v, 1, |es|
  {
    var t := JoinEntries(es) + [125] + x;
    EntriesJoin(es);
    JoinSplit(EntryTexts(es), 125, x);
    assert es[0] in es;
    if |es| == 1 {
      Headed(125, x);
      var g := FieldReads(v, fields, es[0], [125] + x);
      gs := [g];
    } else {
      var others := JoinEntries(es[1..]) + [125] + x;
      EntriesJoin(es[1..]);
      assert EntryTexts(es)[1..] == EntryTexts(es[1..]);
      Headed(44, others);
      var g := FieldReads(v, fields, es[0], [44] + others);
      var rest := FieldsRead(v, fields, es[1..], x);
      gs := [g] + rest;
      ConsReads(fields, es, g, rest);
    }
  }

  lemma ConsReads(fields: seq<Field>, es: seq<Entry>, g: Field, rest: seq<Field>)
    requires |es| == |rest| + 1 && Reads(fields, es[0], g)
    requires forall i :: 0 <= i < |es[1..]| ==> Reads(fields, es[1..][i], rest[i])
    ensures forall i :: 0 <= i < |es| ==> Reads(fields, es[i], ([g] + rest)[i])
  {
    forall i | 0 <= i < |es| ensures Reads(fields, es[i], ([g] + rest)[i]) {
      if i > 0 { assert es[1..][i - 1] == es[i] && ([g] + rest)[i] == rest[i - 1]; }
    }
  }

  lemma ObjectReads(fields: seq<Field>, es: seq<Entry>, gs: seq<Field>, x: Text)
    requires Distinct(fields) && es == Sort(Entries(fields)) && es != [] && |gs| == |es|
    requires Ordered(es) && forall e :: e in es <==> Printed(fields, e)
    requires ReadFields(JoinEntries(es) + [125] + x) == Some((gs, x))
    requires forall i :: 0 <= i < |es| ==> Reads(fields, es[i], gs[i])
    ensures ReadsBack(Object(fields), x)
  {
    BracesRead(fields, es, gs, x);
    SameFields(fields, es, gs);
    FieldsAscend(fields, es, gs);
  }

  lemma BracesRead(fields: seq<Field>, es: seq<Entry>, gs: seq<Field>, x: Text)
    requires es == Sort(Entries(fields)) && es != []
    requires ReadFields(JoinEntries(es) + [125] + x) == Some((gs, x))
    ensures ReadValue(Print(Object(fields)) + x) == Some((Object(gs), x))
  {
    var inner := JoinEntries(es) + [125] + x;
    Regroup([123], JoinEntries(es), [125]);
    Regroup([123], JoinEntries(es) + [125], x);
    BraceReads(inner, gs, x);
  }

  lemma BraceReads(inner: Text, gs: seq<Field>, x: Text)
    requires ReadFields(inner) == Some((gs, x))
    ensures ReadValue([123] + inner) == Some((Object(gs), x))
  {
    var t := [123] + inner;
    Headed(123, inner);
    assert ReadField(inner).Some?;
    assert t[1] == inner[0] == 34;
  }

  ghost predicate Distinct(fields: seq<Field>) {
    forall i, j :: 0 <= i < j < |fields| ==> fields[i].key != fields[j].key
  }

  lemma SameFields(fields: seq<Field>, es: seq<Entry>, gs: seq<Field>)
    requires Distinct(fields) && |gs| == |es| && forall e :: e in es <==> Printed(fields, e)
    requires forall i :: 0 <= i < |es| ==> Reads(fields, es[i], gs[i])
    ensures Same(Object(fields), Object(gs))
  {
    forall f | f in fields ensures HasMatch(f, gs) {
      assert Printed(fields, EntryOf(f));
      var i :| 0 <= i < |es| && es[i] == EntryOf(f);
      assert Reads(fields, es[i], gs[i]);
      var f' :| f' in fields && es[i] == EntryOf(f') && Matches(f', gs[i]);
      assert f' == f;
    }
    forall g | g in gs ensures IsMatched(fields, g) {
      var i :| 0 <= i < |gs| && gs[i] == g;
      assert Reads(fields, es[i], gs[i]);
    }
  }

  lemma FieldsAscend(fields: seq<Field>, es: seq<Entry>, gs: seq<Field>)
    requires Ordered(es) && |gs| == |es|
    requires forall i :: 0 <= i < |es| ==> Reads(fields, es[i], gs[i])
    ensures KeysAscend(Object(gs))
  {
    forall i | 0 <= i < |gs| ensures gs[i].key == es[i].key && KeysAscend(gs[i].value) {
      assert Reads(fields, es[i], gs[i]);
    }
  }

  // ---- Values are told apart by their text ----

  lemma {:induction false} SameSymmetric(v: Value, w: Value)
    requires Same(v, w)
    ensures Same(w, v)
    decreases v, 1
  {
    match v {
      case Array(items) =>
        forall i | 0 <= i < |items| ensures Same(w.items[i], items[i]) {
          SameSymmetric(items[i], w.items[i]);
        }
      case Object(fields) =>
        forall g | g in w.fields ensures HasMatch(g, fields) {
          assert IsMatched(fields, g);
          var f :| f in fields && Matches(f, g);
          MatchesSymmetric(v, f, g);
        }
        forall f | f in fields ensures IsMatched(w.fields, f) {
          assert HasMatch(f, w.fields);
          var g :| g in w.fields && Matches(f, g);
          MatchesSymmetric(v, f, g);
        }
      case _ =>
    }
  }

  lemma {:induction false} MatchesSymmetric(v: Value, f: Field, g: Field)
    requires f.value < v && Matches(f, g)
    ensures Matches(g, f)
    decreases v, 0
  {
    SameSymmetric(f.value, g.value);
  }

  lemma {:induction false} SameTransitive(u: Value, v: Value, w: Value)
    requires Same(u, v) && Same(v, w)
    ensures Same(u, w)
    decreases u, 1
  {
    match u {
      case Array(items) =>
        forall i | 0 <= i < |items| ensures Same(items[i], w.items[i]) {
          SameTransitive(items[i], v.items[i], w.items[i]);
        }
      case Object(fields) =>
        forall f | f in fields ensures HasMatch(f, w.fields) {
          assert HasMatch(f, v.fields);
          var g :| g in v.fields && Matches(f, g);
          assert HasMatch(g, w.fields);
          var h :| h in w.fields && Matches(g, h);
          MatchesTransitive(u, f, g, h);
        }
        forall h | h in w.fields ensures IsMatched(fields, h) {
          assert IsMatched(v.fields, h);
          var g :| g in v.fields && Matches(g, h);
          assert IsMatched(fields, g);
          var f :| f in fields && Matches(f, g);
          MatchesTransitive(u, f, g, h);
        }
      case _ =>
    }
  }

  lemma {:induction false} MatchesTransitive(u: Value, f: Field, g: Field, h: Field)
    requires f.value < u && Matches(f, g) && Matches(g, h)
    ensures Matches(f, h)
    decreases u, 0
  {
    SameTransitive(f.value, g.value, h.value);
  }

  lemma ParsesUniquely(v: Value, w: Value, x: Text, y: Text)
    requires WellFormed(v) && WellFormed(w) && Follows(x) && Follows(y) && Print(v) + x == Print(w) + y
    ensures Same(v, w) && x == y
  {
    PrintReads(v, x);
    PrintReads(w, y);
    var a :| ReadValue(Print(v) + x) == Some((a, x)) && Same(v, a);
    var b :| ReadValue(Print(w) + y) == Some((b, y)) && Same(w, b);
    SameSymmetric(w, b);
    SameTransitive(v, a, w);
  }

  /** Two values have the same canonical text exactly when they are the same. */
  lemma PrintsAlikeIffSame(v: Value, w: Value)
    requires WellFormed(v) && WellFormed(w)
    ensures Print(v) == Print(w) <==> Same(v, w)
  {
    if Same(v, w) { SamePrintsAlike(v, w); }
    if Print(v) == Print(w) { ParsesUniquely(v, w, [], []); }
  }
}
