// The string hash of closure identities. The accumulator is a double of which only the
// shifted part is truncated to 32 bits.
module SimpleHash {
  type CodeUnit = c: int | 0 <= c < 0x1_0000

  const MODULUS := 0x1_0000_0000
  const SEED := 5381

  /** Up to this length every intermediate value is an exact double. */
  const EXACT_LENGTH := 0x3F_FF80

  ghost predicate Congruent(x: int, y: int) {
    (x - y) % MODULUS == 0
  }

  /** The signed 32-bit integer of an operand of `<<`. */
  function ToInt32(x: int): (r: int)
    ensures -0x8000_0000 <= r < 0x8000_0000 && Congruent(r, x)
  {
    (x + 0x8000_0000) % MODULUS - 0x8000_0000
  }

  function ShiftLeft5(x: int): int {
    ToInt32(32 * ToInt32(x))
  }

  lemma ShiftIsTimes32(x: int)
    ensures -0x8000_0000 <= ShiftLeft5(x) < 0x8000_0000 && Congruent(ShiftLeft5(x), 32 * x)
  {
    TimesCongruent(ToInt32(x), x, ShiftLeft5(x));
  }

  lemma TimesCongruent(a: int, x: int, b: int)
    requires Congruent(a, x) && Congruent(b, 32 * a)
    ensures Congruent(b, 32 * x)
  {
    var q, r := (a - x) / MODULUS, (b - 32 * a) / MODULUS;
    assert b - 32 * x == MODULUS * (r + 32 * q);
  }

  /** The accumulator after a text, in exact arithmetic. */
  function Accumulated(s: seq<CodeUnit>): int {
    if s == [] then SEED
    else var h := Accumulated(s[..|s| - 1]); ShiftLeft5(h) + h + s[|s| - 1]
  }

  /** The polynomial hash: h becomes 33 h + c. */
  function Polynomial(s: seq<CodeUnit>): nat {
    if s == [] then SEED else 33 * Polynomial(s[..|s| - 1]) + s[|s| - 1]
  }

  function Power(n: nat): nat {
    if n == 0 then 1 else 33 * Power(n - 1)
  }

  /** The sum of the units, each times 33 to the number of units behind it. */
  function WeightedSum(s: seq<CodeUnit>): nat {
    if s == [] then 0 else s[0] * Power(|s| - 1) + WeightedSum(s[1..])
  }

  /** It is 5381 times 33 to the length, plus that sum. */
  lemma {:induction false} PolynomialExact(s: seq<CodeUnit>)
    ensures Polynomial(s) == 5381 * Power(|s|) + WeightedSum(s)
  {
    if s != [] {
      var t := s[..|s| - 1];
      PolynomialExact(t);
      WeightedSumAppend(t, s[|s| - 1]);
      assert s == t + [s[|s| - 1]];
    }
  }

  lemma {:induction false} WeightedSumAppend(s: seq<CodeUnit>, c: CodeUnit)
    ensures WeightedSum(s + [c]) == 33 * WeightedSum(s) + c
  {
    if s == [] {
      assert s + [c] == [c] && [c][1..] == [];
    } else {
      WeightedSumAppend(s[1..], c);
      assert (s + [c])[1..] == s[1..] + [c];
    }
  }

  lemma {:induction false} AccumulatorIsPolynomial(s: seq<CodeUnit>)
    ensures Congruent(Accumulated(s), Polynomial(s))
  {
    if s != [] {
      var t := s[..|s| - 1];
      AccumulatorIsPolynomial(t);
      StepCongruent(Accumulated(t), Polynomial(t), s[|s| - 1]);
    }
  }

  lemma StepCongruent(h: int, p: int, c: int)
    requires Congruent(h, p)
    ensures Congruent(ShiftLeft5(h) + h + c, 33 * p + c)
  {
    ShiftIsTimes32(h);
    Multiples(h, p, ShiftLeft5(h), c);
  }

  lemma Multiples(h: int, p: int, shifted: int, c: int)
    requires Congruent(h, p) && Congruent(shifted, 32 * h)
    ensures Congruent(shifted + h + c, 33 * p + c)
  {
    var q, r := (h - p) / MODULUS, (shifted - 32 * h) / MODULUS;
    assert shifted + h + c - (33 * p + c) == MODULUS * (r + 33 * q);
  }

  lemma {:induction false} AccumulatorBound(s: seq<CodeUnit>)
    ensures var bound := SEED + |s| * (0x8000_0000 + 0x1_0000); -bound <= Accumulated(s) <= bound
  {
    if s != [] {
      AccumulatorBound(s[..|s| - 1]);
      ShiftIsTimes32(Accumulated(s[..|s| - 1]));
    }
  }

  // ---- Hexadecimal text ----

  function Digit(d: nat): char
    requires d < 16
  {
    "0123456789abcdef"[d]
  }

  function Hex(n: nat): string {
    if n < 16 then [Digit(n)] else Hex(n / 16) + [Digit(n % 16)]
  }

  /** The value of a digit of base sixteen. */
  function DigitValue(c: char): nat {
    if '0' <= c <= '9' then c as nat - '0' as nat else if 'a' <= c <= 'f' then 10 + (c as nat - 'a' as nat) else 16
  }

  /** The number a text denotes in base sixteen. */
  function ReadHex(text: string): nat {
    if text == "" then 0 else 16 * ReadHex(text[..|text| - 1]) + DigitValue(text[|text| - 1])
  }

  ghost predicate HexText(text: string) {
    && text != "" && (|text| > 1 ==> text[0] != '0')
    && forall i :: 0 <= i < |text| ==> '0' <= text[i] <= '9' || 'a' <= text[i] <= 'f'
  }

  /** The text is the number written in base sixteen, with no leading zero. */
  lemma {:induction false} HexReads(n: nat)
    ensures ReadHex(Hex(n)) == n && HexText(Hex(n)) && (n > 0 ==> Hex(n)[0] != '0')
  {
    if n >= 16 {
      HexReads(n / 16);
      assert Hex(n)[..|Hex(n)| - 1] == Hex(n / 16);
    } else {
      assert Hex(n)[..0] == "";
    }
  }

  lemma HexInjective(m: nat, n: nat)
    requires Hex(m) == Hex(n)
    ensures m == n
  {
    HexReads(m);
    HexReads(n);
  }

  // ---- The hash as computed ----

  /** `round` is the rounding of double addition; integers up to 2^53 are exact. */
  method Hash(str: seq<CodeUnit>, round: int -> int) returns (text: string)
    requires forall x :: -0x20_0000_0000_0000 <= x <= 0x20_0000_0000_0000 ==> round(x) == x
    ensures |str| <= 0x3F_FF80 ==> text == Hex(Polynomial(str) % MODULUS)
    ensures |str| <= 0x3F_FF80 ==>
      ReadHex(text) == (5381 * Power(|str|) + WeightedSum(str)) % 0x1_0000_0000 && HexText(text)
  {
    var hash := SEED;
    for i := 0 to |str|
      invariant |str| <= EXACT_LENGTH ==> hash == Accumulated(str[..i])
    {
      assert str[..i + 1][..i] == str[..i];
      AccumulatorBound(str[..i]);
      AccumulatorBound(str[..i + 1]);
      ShiftIsTimes32(Accumulated(str[..i]));
      hash := round(round(ShiftLeft5(hash) + hash) + str[i]);
    }
    assert str[..|str|] == str;
    AccumulatorIsPolynomial(str);
    if |str| <= EXACT_LENGTH { SameResidue(hash, Polynomial(str)); }
    text := Hex(hash % MODULUS);
    PolynomialExact(str);
    HexReads(hash % MODULUS);
  }

  lemma SameResidue(x: int, y: int)
    ensures Congruent(x, y) <==> x % MODULUS == y % MODULUS
  {
    var q, r := x / MODULUS, y / MODULUS;
    assert x - y == MODULUS * (q - r) + (x % MODULUS - y % MODULUS);
  }

  /** Two texts collide exactly when their polynomials are congruent. */
  lemma CollideIff(s: seq<CodeUnit>, t: seq<CodeUnit>)
    ensures Hex(Polynomial(s) % MODULUS) == Hex(Polynomial(t) % MODULUS) <==> Congruent(Polynomial(s), Polynomial(t))
  {
    SameResidue(Polynomial(s), Polynomial(t));
    if Hex(Polynomial(s) % MODULUS) == Hex(Polynomial(t) % MODULUS) {
      HexInjective(Polynomial(s) % MODULUS, Polynomial(t) % MODULUS);
    }
  }

  /** Collisions are easy to come by: "b!" and "aB" have the same hash. */
  lemma TwoLettersCollide()
    ensures Polynomial([98, 33]) == Polynomial([97, 66])
  {
    assert [98, 33][..1] == [98] && [97, 66][..1] == [97];
    assert Polynomial([98]) == 33 * SEED + 98 && Polynomial([97]) == 33 * SEED + 97;
  }
}
