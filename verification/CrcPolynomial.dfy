/**
 CRC-32C as a remainder of polynomials over the field of two elements (section 12.1 of
 RFC 3720): what the register holds, read with its lowest bit as the coefficient of x^31,
 is the remainder of the message times x^32, plus the initial register before it, on
 division by the generator.
 */
module CrcPolynomial {
  import opened Crc32c

  /** A polynomial is the set of the exponents that occur in it. */
  type Poly = set<nat>

  function Sum(a: Poly, b: Poly): Poly {
    (a - b) + (b - a)
  }

  /** Times x. */
  function Shift(a: Poly): Poly {
    set e | e in a :: e + 1
  }

  function BitOf<V>(half: V -> V, odd: V -> bool, c: V, i: nat): bool
    decreases i
  {
    if i == 0 then odd(c) else BitOf(half, odd, half(c), i - 1)
  }

  function Bit(c: bv32, i: nat): bool {
    BitOf(Half, Odd, c, i)
  }

  predicate Term(c: bv32, e: nat) {
    e < 32 && Bit(c, 31 - e)
  }

  /** The register, its bits reflected. */
  function Value(c: bv32): Poly {
    set e | 0 <= e < 32 && Term(c, e)
  }

  /** The generator: x^32 and the terms of the source's constant. */
  function Generator(): Poly {
    {32} + Value(POLY)
  }

  /** The multiple of the generator with quotient `q`, its highest coefficient first, added
      to a polynomial already shifted past it. */
  function Multiple(acc: Poly, q: seq<bool>): Poly
    decreases |q|
  {
    if q == [] then acc else Multiple(Sum(Shift(acc), if q[0] then Generator() else {}), q[1..])
  }

  /** A polynomial with the message's bits appended, x^32 the place of each. */
  function Dividend(acc: Poly, bits: seq<bool>): Poly
    decreases |bits|
  {
    if bits == [] then acc else Dividend(Sum(Shift(acc), if bits[0] then {32} else {}), bits[1..])
  }

  // ---- sums ----

  lemma SumAssoc(a: Poly, b: Poly, c: Poly)
    ensures Sum(Sum(a, b), c) == Sum(a, Sum(b, c))
  {
  }

  lemma SumSwap(a: Poly, b: Poly, c: Poly, d: Poly)
    ensures Sum(Sum(a, b), Sum(c, d)) == Sum(Sum(a, c), Sum(b, d))
  {
  }

  lemma ShiftSum(a: Poly, b: Poly)
    ensures Shift(Sum(a, b)) == Sum(Shift(a), Shift(b))
  {
    forall e: nat
      ensures e in Shift(Sum(a, b)) <==> e in Sum(Shift(a), Shift(b))
    {
      assert forall p: Poly :: e in Shift(p) <==> e >= 1 && e - 1 in p;
    }
  }

  // ---- bits ----

  lemma OddXor(a: bv32, b: bv32)
    ensures Odd(Xor(a, b)) == (Odd(a) != Odd(b))
  {
  }

  lemma {:induction false} BitOfXor<V(!new)>(half: V -> V, odd: V -> bool, xor: (V, V) -> V, a: V, b: V, i: nat)
    requires forall x, y {:trigger xor(x, y)} ::
      odd(xor(x, y)) == (odd(x) != odd(y)) && half(xor(x, y)) == xor(half(x), half(y))
    ensures BitOf(half, odd, xor(a, b), i) == (BitOf(half, odd, a, i) != BitOf(half, odd, b, i))
    decreases i
  {
    if i > 0 {
      assert half(xor(a, b)) == xor(half(a), half(b));
      BitOfXor(half, odd, xor, half(a), half(b), i - 1);
    }
  }

  lemma BitXor(a: bv32, b: bv32, i: nat)
    ensures Bit(Xor(a, b), i) == (Bit(a, i) != Bit(b, i))
  {
    forall x, y
      ensures Odd(Xor(x, y)) == (Odd(x) != Odd(y)) && Half(Xor(x, y)) == Xor(Half(x), Half(y))
    {
      OddXor(x, y);
      HalfOfXor(x, y);
    }
    BitOfXor(Half, Odd, Xor, a, b, i);
  }

  lemma ValueXor(a: bv32, b: bv32)
    ensures Value(Xor(a, b)) == Sum(Value(a), Value(b))
  {
    forall e: nat
      ensures Term(Xor(a, b), e) == (Term(a, e) != Term(b, e))
    {
      if e < 32 {
        BitXor(a, b, 31 - e);
      }
    }
  }

  lemma {:induction false} BitIsTimes<V>(half: V -> V, odd: V -> bool, c: V, i: nat)
    ensures BitOf(half, odd, c, i) == odd(Times(half, c, i))
    decreases i
  {
    if i > 0 {
      BitIsTimes(half, odd, half(c), i - 1);
    }
  }

  lemma TopShift(c: bv32)
    ensures Times(Half, c, 24) == ((c >> 8) >> 8) >> 8
  {
    TimesAdd(Half, c, 8, 16);
    TimesAdd(Half, Times(Half, c, 8), 8, 8);
    HighByte(c);
    HighByte(c >> 8);
    HighByte((c >> 8) >> 8);
  }

  lemma SevenHalves(y: bv32)
    ensures Times(Half, y, 7) == Half(Half(Half(Half(Half(Half(Half(y)))))))
  {
    assert Times(Half, y, 7) == Times(Half, Half(y), 6);
    assert Times(Half, y, 7) == Times(Half, Half(Half(Half(y))), 4);
    assert Times(Half, y, 7) == Times(Half, Half(Half(Half(Half(Half(y))))), 2);
  }

  lemma NoTop(c: bv32)
    ensures !Bit(Half(c), 31)
  {
    var y := Half(c);
    BitIsTimes(Half, Odd, y, 31);
    TimesAdd(Half, y, 24, 7);
    TopShift(y);
    SevenHalves(((y >> 8) >> 8) >> 8);
    TopClear(c);
  }

  lemma TopClear(c: bv32)
    ensures !Odd(Half(Half(Half(Half(Half(Half(Half((((Half(c)) >> 8) >> 8) >> 8))))))))
  {
  }

  /** Shifting the register right is multiplying by x, but for the term x^32 that its lowest
      bit becomes. */
  lemma HalfShifts(c: bv32)
    ensures Shift(Value(c)) == Sum(Value(Half(c)), if Odd(c) then {32} else {})
  {
    NoTop(c);
    forall e: nat
      ensures e in Shift(Value(c)) <==> e in Sum(Value(Half(c)), if Odd(c) then {32} else {})
    {
      assert e in Shift(Value(c)) <==> e >= 1 && e - 1 in Value(c);
      assert e >= 1 ==> (e - 1 in Value(c) <==> Term(c, e - 1));
      assert e in Value(Half(c)) <==> Term(Half(c), e);
      if 1 <= e < 32 {
        assert Bit(c, 31 - (e - 1)) == Bit(Half(c), 31 - e);
      }
    }
  }

  lemma SumFlip(a: Poly, k: Poly, g: Poly)
    requires 32 !in g && 32 !in a && k == {32}
    ensures Sum(a, k) == Sum({32} + g, Sum(a, g))
  {
  }

  /** One step multiplies by x and, when x^32 appears, takes the generator away. */
  lemma StepReduces(c: bv32)
    ensures Shift(Value(c)) == Sum(if Odd(c) then Generator() else {}, Value(Step(c)))
  {
    HalfShifts(c);
    StepParts(c);
    if Odd(c) {
      ValueXor(Half(c), POLY);
      SumFlip(Value(Half(c)), {32}, Value(POLY));
    }
  }

  // ---- division ----

  lemma OneIsTop()
    ensures Value(1) == {31}
  {
    forall e | 0 <= e < 32
      ensures Term(1, e) <==> e == 31
    {
      OneBits(31 - e);
    }
  }

  lemma OneBits(i: nat)
    ensures Bit(1, i) <==> i == 0
  {
    if i > 0 {
      assert Half(1) == 0;
      NoBits(i - 1);
    }
  }

  lemma {:induction false} NoBits(i: nat)
    ensures !Bit(0, i)
  {
    if i > 0 {
      assert Half(0) == 0;
      NoBits(i - 1);
    }
  }

  /** The carry of one step, which is the next coefficient of the quotient. */
  function Carry(c: bv32, bit: bool): bool {
    Odd(if bit then Xor(c, 1) else c)
  }

  /** A bit of the message: the register times x, and the bit in the place x^32, less the
      generator if there is a carry. */
  lemma BitReduces(c: bv32, bit: bool)
    ensures Sum(Shift(Value(c)), if bit then {32} else {}) ==
      Sum(if Carry(c, bit) then Generator() else {}, Value(BitStep(c, bit)))
  {
    StepReduces(if bit then Xor(c, 1) else c);
    if bit {
      ValueXor(c, 1);
      OneIsTop();
      ShiftSum(Value(c), {31});
    }
  }

  function Quotient(c: bv32, bits: seq<bool>): seq<bool>
    decreases |bits|
  {
    if bits == [] then [] else [Carry(c, bits[0])] + Quotient(BitStep(c, bits[0]), bits[1..])
  }

  lemma DivideCons(c: bv32, bits: seq<bool>)
    requires bits != []
    ensures Divide(c, bits) == Divide(BitStep(c, bits[0]), bits[1..])
    ensures Quotient(c, bits) != [] && Quotient(c, bits)[0] == Carry(c, bits[0])
    ensures Quotient(c, bits)[1..] == Quotient(BitStep(c, bits[0]), bits[1..])
  {
  }

  /** The bit-serial register divides: what is appended to is a multiple of the generator
      plus the register's value, and stays so. */
  lemma {:induction false} DivideDivides(acc: Poly, c: bv32, bits: seq<bool>)
    ensures Dividend(Sum(acc, Value(c)), bits) == Sum(Multiple(acc, Quotient(c, bits)), Value(Divide(c, bits)))
    decreases |bits|
  {
    if bits != [] {
      var bit, k: Poly := bits[0], if bits[0] then {32} else {};
      var g: Poly := if Carry(c, bit) then Generator() else {};
      DivideCons(c, bits);
      BitReduces(c, bit);
      ShiftSum(acc, Value(c));
      SumAssoc(Shift(acc), Shift(Value(c)), k);
      SumAssoc(Shift(acc), g, Value(BitStep(c, bit)));
      DivideDivides(Sum(Shift(acc), g), BitStep(c, bit), bits[1..]);
    }
  }

  // ---- there is one remainder ----

  ghost predicate Low(r: Poly) {
    forall e :: e in r ==> e < 32
  }

  function Differences(q: seq<bool>, q': seq<bool>): seq<bool>
    requires |q| == |q'|
  {
    seq(|q|, i requires 0 <= i < |q| => q[i] != q'[i])
  }

  lemma {:induction false} MultiplesSum(acc: Poly, acc': Poly, q: seq<bool>, q': seq<bool>)
    requires |q| == |q'|
    ensures Sum(Multiple(acc, q), Multiple(acc', q')) == Multiple(Sum(acc, acc'), Differences(q, q'))
    decreases |q|
  {
    if q != [] {
      var g: Poly, g': Poly := if q[0] then Generator() else {}, if q'[0] then Generator() else {};
      MultiplesSum(Sum(Shift(acc), g), Sum(Shift(acc'), g'), q[1..], q'[1..]);
      SumSwap(Shift(acc), g, Shift(acc'), g');
      ShiftSum(acc, acc');
      assert Differences(q, q')[1..] == Differences(q[1..], q'[1..]);
      assert Sum(g, g') == if Differences(q, q')[0] then Generator() else {};
    }
  }

  /** A multiple that is not nothing has a term of degree 32 or more. */
  lemma {:induction false} MultipleHigh(acc: Poly, q: seq<bool>, e: nat)
    requires e in acc && e >= 32
    ensures !Low(Multiple(acc, q))
    decreases |q|
  {
    if q != [] {
      assert e + 1 in Shift(acc) && e + 1 !in Generator();
      MultipleHigh(Sum(Shift(acc), if q[0] then Generator() else {}), q[1..], e + 1);
    }
  }

  lemma {:induction false} MultipleLow(q: seq<bool>)
    requires Low(Multiple({}, q))
    ensures Multiple({}, q) == {}
    decreases |q|
  {
    if q != [] {
      assert Shift({}) == {};
      if q[0] {
        assert Sum({}, Generator()) == Generator();
        MultipleHigh(Generator(), q[1..], 32);
        assert false;
      }
      assert Sum({}, {}) == {};
      MultipleLow(q[1..]);
    }
  }

  lemma SumCancels(a: Poly, b: Poly, r: Poly, r': Poly)
    requires Sum(a, r) == Sum(b, r')
    ensures Sum(a, b) == Sum(r, r')
  {
    forall e: nat
      ensures e in Sum(a, b) <==> e in Sum(r, r')
    {
      assert e in Sum(a, r) <==> e in Sum(b, r');
    }
  }

  lemma RemainderUnique(q: seq<bool>, r: Poly, q': seq<bool>, r': Poly)
    requires |q| == |q'| && Low(r) && Low(r')
    requires Sum(Multiple({}, q), r) == Sum(Multiple({}, q'), r')
    ensures r == r'
  {
    SumCancels(Multiple({}, q), Multiple({}, q'), r, r');
    MultiplesSum({}, {}, q, q');
    assert Sum({}, {}) == {};
    MultipleLow(Differences(q, q'));
    assert Sum(r, r') == {};
  }

  /** The register after `data` is the remainder: the only polynomial of degree below 32 that
      a multiple of the generator takes from the initial register followed by the message's
      bits times x^32. */
  lemma RegisterIsRemainder(c: bv32, data: Bytes, q: seq<bool>, r: Poly)
    requires Low(r) && |q| == |Message(data)|
    ensures Dividend(Value(c), Message(data)) == Sum(Multiple({}, q), r) ==> r == Value(Register(c, data))
    ensures var t := Quotient(c, Message(data));
      |t| == |Message(data)| && Dividend(Value(c), Message(data)) == Sum(Multiple({}, t), Value(Register(c, data)))
  {
    var bits := Message(data);
    RegisterIsDivision(c, data);
    assert Sum({}, Value(c)) == Value(c);
    DivideDivides({}, c, bits);
    QuotientSize(c, bits);
    if Dividend(Value(c), bits) == Sum(Multiple({}, q), r) {
      RemainderUnique(q, r, Quotient(c, bits), Value(Register(c, data)));
    }
  }

  lemma {:induction false} QuotientSize(c: bv32, bits: seq<bool>)
    ensures |Quotient(c, bits)| == |bits|
    decreases |bits|
  {
    if bits != [] {
      QuotientSize(BitStep(c, bits[0]), bits[1..]);
    }
  }
}
