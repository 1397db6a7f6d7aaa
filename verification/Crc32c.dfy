/**
 CRC-32C (Castagnoli): the table-driven sum, the division it stands for, and the
 damage it is bound to notice.
 */
module Crc32c {

  type Bytes = seq<bv8>

  const POLY: bv32 := 0x82F6_3B78
  const ONES: bv32 := 0xFFFF_FFFF

  // ---- division, one bit at a time ----

  function Step(c: bv32): bv32 {
    if c & 1 == 1 then (c >> 1) ^ POLY else c >> 1
  }

  function Xor(x: bv32, y: bv32): bv32 { x ^ y }

  /** The remainder after the next bit of the message. */
  function BitStep(c: bv32, bit: bool): bv32 {
    Step(if bit then Xor(c, 1) else c)
  }

  function Fold<V, B>(step: (V, B) -> V, c: V, items: seq<B>): V
    decreases |items|
  {
    if items == [] then c else Fold(step, step(c, items[0]), items[1..])
  }

  function Divide(c: bv32, bits: seq<bool>): bv32 {
    Fold(BitStep, c, bits)
  }

  /** The lowest `n` bits, least significant first. */
  function LowBits<V>(half: V -> V, odd: V -> bool, y: V, n: nat): seq<bool>
    decreases n
  {
    if n == 0 then [] else [odd(y)] + LowBits(half, odd, half(y), n - 1)
  }

  function Half(y: bv32): bv32 { y >> 1 }
  predicate Odd(y: bv32) { y & 1 == 1 }

  const BYTE: nat := 8

  function BitsOf(b: bv8): seq<bool> {
    LowBits(Half, Odd, b as bv32, BYTE)
  }

  function Concat<B>(bits: B -> seq<bool>, data: seq<B>): seq<bool> {
    if data == [] then [] else bits(data[0]) + Concat(bits, data[1..])
  }

  function Message(data: Bytes): seq<bool> {
    Concat(BitsOf, data)
  }

  // ---- a byte at a time ----

  /** `f` applied `n` times. */
  function Times<V>(f: V -> V, c: V, n: nat): V
    decreases n
  {
    if n == 0 then c else Times(f, f(c), n - 1)
  }

  function ByteStep(c: bv32, b: bv8): bv32 {
    Times(Step, c ^ (b as bv32), BYTE)
  }

  /** The register after `data`. */
  function Register(c: bv32, data: Bytes): bv32 {
    Fold(ByteStep, c, data)
  }

  function Crc(data: Bytes, crc: bv32): bv32 {
    Register(crc ^ ONES, data) ^ ONES
  }

  predicate Even(y: bv32) { y & 1 == 0 }

  lemma OddOfXor(x: bv32, y: bv32)
    ensures Even(y) ==> Odd(Xor(x, y)) == Odd(x)
  {
  }

  lemma HalfOfXor(x: bv32, y: bv32)
    ensures Half(Xor(x, y)) == Xor(Half(x), Half(y))
  {
  }

  lemma XorXor(a: bv32, b: bv32, c: bv32)
    ensures Xor(Xor(a, b), c) == (a ^ b) ^ c
  {
    assert Xor(a, b) == a ^ b;
    assert Xor(Xor(a, b), c) == Xor(a ^ b, c);
  }

  lemma XorSwap(a: bv32, b: bv32, c: bv32)
    ensures Xor(Xor(a, b), c) == Xor(Xor(a, c), b)
  {
    XorXor(a, b, c);
    XorXor(a, c, b);
  }

  lemma LinearStep<V>(step: V -> V, xor: (V, V) -> V, half: V -> V, odd: V -> bool, poly: V, x: V, y: V)
    requires step(x) == if odd(x) then xor(half(x), poly) else half(x)
    requires step(xor(x, y)) == if odd(xor(x, y)) then xor(half(xor(x, y)), poly) else half(xor(x, y))
    requires odd(xor(x, y)) == odd(x) && half(xor(x, y)) == xor(half(x), half(y))
    requires xor(xor(half(x), half(y)), poly) == xor(xor(half(x), poly), half(y))
    ensures step(xor(x, y)) == xor(step(x), half(y))
  {
  }

  lemma StepParts(x: bv32)
    ensures Step(x) == if Odd(x) then Xor(Half(x), POLY) else Half(x)
  {
  }

  lemma StepLinear(x: bv32, y: bv32)
    requires Even(y)
    ensures Step(Xor(x, y)) == Xor(Step(x), Half(y))
  {
    OddOfXor(x, y);
    HalfOfXor(x, y);
    XorSwap(Half(x), Half(y), POLY);
    StepParts(x);
    StepParts(Xor(x, y));
    LinearStep(Step, Xor, Half, Odd, POLY, x, y);
  }

  lemma StepsLinear()
    ensures forall a, b {:trigger Step(Xor(a, b))} :: Even(b) ==> Step(Xor(a, b)) == Xor(Step(a), Half(b))
  {
    forall a, b | Even(b)
      ensures Step(Xor(a, b)) == Xor(Step(a), Half(b))
    {
      StepLinear(a, b);
    }
  }

  lemma StepInjective(x: bv32, y: bv32)
    requires Step(x) == Step(y)
    ensures x == y
  {
  }

  lemma {:induction false} TimesInjective<V(!new)>(f: V -> V, x: V, y: V, n: nat)
    requires forall a, b :: f(a) == f(b) ==> a == b
    requires Times(f, x, n) == Times(f, y, n)
    ensures x == y
    decreases n
  {
    if n > 0 {
      TimesInjective(f, f(x), f(y), n - 1);
    }
  }

  /** The lowest `n` places are clear. */
  predicate LowClear<V>(half: V -> V, even: V -> bool, y: V, n: nat)
    decreases n
  {
    n == 0 || (even(y) && LowClear(half, even, half(y), n - 1))
  }

  /** A step that adds the shifted value of an even term does so any number of times: what
      is above the lowest `n` places only moves down. */
  lemma {:induction false} TimesHigh<V(!new)>(f: V -> V, xor: (V, V) -> V, half: V -> V, even: V -> bool, x: V,
                                              y: V, n: nat)
    requires forall a, b {:trigger f(xor(a, b))} :: even(b) ==> f(xor(a, b)) == xor(f(a), half(b))
    requires LowClear(half, even, y, n)
    ensures Times(f, xor(x, y), n) == xor(Times(f, x, n), Times(half, y, n))
    decreases n
  {
    if n > 0 {
      TimesHigh(f, xor, half, even, f(x), half(y), n - 1);
    }
  }

  lemma HighByte(y: bv32)
    ensures y & 0xFF == 0 ==> LowClear(Half, Even, y, BYTE)
    ensures Times(Half, y, BYTE) == y >> 8
  {
    assert LowClear(Half, Even, y, 8) <==> Even(y) && LowClear(Half, Even, Half(y), 7);
    assert Times(Half, y, 8) == Times(Half, Half(y), 7);
  }

  lemma SplitLow(c: bv32, b: bv8)
    ensures var x := c ^ (b as bv32); var hi := x & 0xFFFF_FF00;
      x == (x & 0xFF) ^ hi && hi & 0xFF == 0 && hi >> 8 == c >> 8
  {
  }

  lemma HighSteps(x: bv32, y: bv32)
    requires LowClear(Half, Even, y, BYTE)
    ensures Times(Step, Xor(x, y), BYTE) == Xor(Times(Step, x, BYTE), Times(Half, y, BYTE))
  {
    StepsLinear();
    TimesHigh(Step, Xor, Half, Even, x, y, BYTE);
  }

  lemma JoinSteps(x: bv32, lo: bv32, hi: bv32, top: bv32)
    requires x == Xor(lo, hi) && LowClear(Half, Even, hi, BYTE) && Times(Half, hi, BYTE) == top
    ensures Times(Step, x, BYTE) == Xor(Times(Step, lo, BYTE), top)
  {
    HighSteps(lo, hi);
  }

  /** What the source looks up and xors for one byte. */
  function Lookup(c: bv32, b: bv8): bv32 {
    Xor(Times(Step, (c ^ (b as bv32)) & 0xFF, BYTE), c >> 8)
  }

  lemma Parts(c: bv32, b: bv8) returns (x: bv32, lo: bv32, hi: bv32, top: bv32)
    ensures x == c ^ (b as bv32) && lo == (c ^ (b as bv32)) & 0xFF && top == c >> 8
    ensures x == Xor(lo, hi) && LowClear(Half, Even, hi, BYTE) && Times(Half, hi, BYTE) == top
  {
    x, top := c ^ (b as bv32), c >> 8;
    lo, hi := x & 0xFF, x & 0xFFFF_FF00;
    SplitLow(c, b);
    HighByte(hi);
  }

  /** So a byte's eight steps are a table entry and a shift. */
  lemma TableStep(c: bv32, b: bv8)
    ensures ByteStep(c, b) == Lookup(c, b)
  {
    var x, lo, hi, top := Parts(c, b);
    JoinSteps(x, lo, hi, top);
  }

  // ---- bytes are bits ----

  lemma {:induction false} TimesIsFold<V(!new)>(f: V -> V, xor: (V, V) -> V, half: V -> V, odd: V -> bool,
                                                step: (V, bool) -> V, zero: V, c: V, y: V, n: nat)
    requires forall a, b {:trigger f(xor(a, b))} :: f(xor(a, b)) == xor(step(a, odd(b)), half(b))
    requires forall a :: xor(a, zero) == a
    requires Times(half, y, n) == zero
    ensures Fold(step, c, LowBits(half, odd, y, n)) == Times(f, xor(c, y), n)
    decreases n
  {
    if n > 0 {
      TimesIsFold(f, xor, half, odd, step, zero, step(c, odd(y)), half(y), n - 1);
      assert LowBits(half, odd, y, n)[1..] == LowBits(half, odd, half(y), n - 1);
      assert f(xor(c, y)) == xor(step(c, odd(y)), half(y));
    }
  }

  lemma XorInner(c: bv32, k: bv32, e: bv32)
    ensures Xor(c, Xor(k, e)) == c ^ (k ^ e)
  {
    assert Xor(k, e) == k ^ e;
    assert Xor(c, Xor(k, e)) == Xor(c, k ^ e);
  }

  lemma XorJoin(c: bv32, k: bv32, e: bv32)
    ensures Xor(c, Xor(k, e)) == Xor(Xor(c, k), e)
  {
    XorInner(c, k, e);
    XorXor(c, k, e);
  }

  /** `y` without its lowest bit. */
  function High(y: bv32): bv32 { y & 0xFFFF_FFFE }

  lemma HighOfOdd(y: bv32)
    ensures Odd(y) ==> y == Xor(1, High(y))
  {
  }

  lemma HighOfEven(y: bv32)
    ensures !Odd(y) ==> y == High(y)
  {
  }

  lemma HighIsEven(y: bv32)
    ensures Even(High(y))
  {
  }

  lemma HalfOfHigh(y: bv32)
    ensures Half(High(y)) == Half(y)
  {
  }

  lemma LowestBit(y: bv32) returns (e: bv32)
    ensures Odd(y) ==> y == Xor(1, e)
    ensures !Odd(y) ==> y == e
    ensures Even(e) && Half(e) == Half(y)
  {
    e := High(y);
    HighOfOdd(y);
    HighOfEven(y);
    HighIsEven(y);
    HalfOfHigh(y);
  }

  lemma XorAssoc(a: bv32, b: bv32, c: bv32)
    ensures a ^ (b ^ c) == (a ^ b) ^ c
  {
  }

  lemma OneBitOf<V(!new)>(f: V -> V, xor: (V, V) -> V, half: V -> V, odd: V -> bool, even: V -> bool,
                          c: V, c1: V, y: V, e: V)
    requires forall a, b {:trigger f(xor(a, b))} :: even(b) ==> f(xor(a, b)) == xor(f(a), half(b))
    requires even(e) && half(e) == half(y)
    requires if odd(y) then xor(c, y) == xor(c1, e) else y == e
    ensures f(xor(c, y)) == xor(f(if odd(y) then c1 else c), half(y))
  {
    if odd(y) {
      assert f(xor(c1, e)) == xor(f(c1), half(e));
    }
  }

  lemma OneBit(c: bv32, y: bv32)
    ensures Step(Xor(c, y)) == Xor(Step(if Odd(y) then Xor(c, 1) else c), Half(y))
  {
    StepsLinear();
    var e := LowestBit(y);
    XorJoin(c, 1, e);
    OneBitOf(Step, Xor, Half, Odd, Even, c, Xor(c, 1), y, e);
  }

  lemma OneBits()
    ensures forall a, b {:trigger Step(Xor(a, b))} :: Step(Xor(a, b)) == Xor(BitStep(a, Odd(b)), Half(b))
  {
    forall a, b
      ensures Step(Xor(a, b)) == Xor(BitStep(a, Odd(b)), Half(b))
    {
      OneBit(a, b);
    }
  }

  lemma XorZero()
    ensures forall a :: Xor(a, 0) == a
  {
  }

  lemma ByteEnds(b: bv8)
    ensures Times(Half, b as bv32, BYTE) == 0
  {
    HighByte(b as bv32);
    assert (b as bv32) >> 8 == 0;
  }

  lemma ByteIsBits(c: bv32, b: bv8)
    ensures Divide(c, BitsOf(b)) == ByteStep(c, b)
  {
    OneBits();
    XorZero();
    ByteEnds(b);
    TimesIsFold(Step, Xor, Half, Odd, BitStep, 0, c, b as bv32, BYTE);
  }

  lemma {:induction false} FoldAppend<V, B>(step: (V, B) -> V, c: V, a: seq<B>, b: seq<B>)
    ensures Fold(step, c, a + b) == Fold(step, Fold(step, c, a), b)
    decreases |a|
  {
    if a == [] {
      assert a + b == b;
    } else {
      FoldAppend(step, step(c, a[0]), a[1..], b);
      assert (a + b)[1..] == a[1..] + b;
    }
  }

  lemma {:induction false} FoldConcat<V(!new), B(!new)>(byte: (V, B) -> V, bit: (V, bool) -> V, bits: B -> seq<bool>,
                                                        c: V, data: seq<B>)
    requires forall x, b {:trigger byte(x, b)} :: Fold(bit, x, bits(b)) == byte(x, b)
    ensures Fold(byte, c, data) == Fold(bit, c, Concat(bits, data))
    decreases |data|
  {
    if data != [] {
      FoldConcat(byte, bit, bits, byte(c, data[0]), data[1..]);
      FoldAppend(bit, c, bits(data[0]), Concat(bits, data[1..]));
    }
  }

  /** The register is the remainder of the message's bits. */
  lemma RegisterIsDivision(c: bv32, data: Bytes)
    ensures Register(c, data) == Divide(c, Message(data))
  {
    forall x, b
      ensures Fold(BitStep, x, BitsOf(b)) == ByteStep(x, b)
    {
      ByteIsBits(x, b);
    }
    FoldConcat(ByteStep, BitStep, BitsOf, c, data);
  }

  // ---- the source's table and loop ----

  /** The remainder of the byte `i`. */
  function Entry(i: int): bv32 {
    if 0 <= i < 256 then Times(Step, i as bv32, BYTE) else 0
  }

  predicate Tabled<V(==)>(entry: int -> V, t: seq<V>, n: nat) {
    |t| == n && forall i :: 0 <= i < n ==> t[i] == entry(i)
  }

  lemma TabledNext<V>(entry: int -> V, t: seq<V>, n: nat, v: V)
    requires Tabled(entry, t, n) && v == entry(n)
    ensures Tabled(entry, t + [v], n + 1)
  {
  }

  /** `_table`. */
  method MakeTable() returns (t: seq<bv32>)
    ensures Tabled(Entry, t, 256)
  {
    t := [];
    for i := 0 to 256
      invariant Tabled(Entry, t, i)
    {
      var c := ByteEntry(i);
      TabledNext(Entry, t, i, c);
      t := t + [c];
    }
  }

  method ByteEntry(i: nat) returns (c: bv32)
    requires i < 256
    ensures c == Entry(i)
  {
    c := TableEntry(i as bv32);
  }

  method TableEntry(x: bv32) returns (c: bv32)
    ensures c == Times(Step, x, BYTE)
  {
    c := x;
    for k := 0 to BYTE
      invariant Times(Step, x, BYTE) == Times(Step, c, BYTE - k)
    {
      c := Step(c);
    }
  }

  /** `crc32c`, over a table. */
  method Crc32c(t: seq<bv32>, data: Bytes, crc: bv32) returns (r: bv32)
    requires Tabled(Entry, t, 256)
    ensures r == Crc(data, crc)
  {
    r := crc ^ ONES;
    for i := 0 to |data|
      invariant Register(crc ^ ONES, data) == Register(r, data[i..])
    {
      r := NextRegister(t, r, data[i]);
      assert data[i..][1..] == data[i + 1..];
    }
    r := r ^ ONES;
  }

  method NextRegister(t: seq<bv32>, c: bv32, b: bv8) returns (r: bv32)
    requires Tabled(Entry, t, 256)
    ensures r == ByteStep(c, b)
  {
    TableStep(c, b);
    var x := (c ^ (b as bv32)) & 0xFF;
    var i := Index(x);
    r := t[i] ^ (c >> 8);
  }

  method Index(x: bv32) returns (i: nat)
    requires x <= 0xFF
    ensures i < 256 && i as bv32 == x
  {
    i := x as int;
  }

  // ---- what the sum composes and detects ----

  lemma RegisterAppend(c: bv32, a: Bytes, b: Bytes)
    ensures Register(c, a + b) == Register(Register(c, a), b)
  {
    FoldAppend(ByteStep, c, a, b);
  }

  lemma XorTwice(x: bv32)
    ensures (x ^ ONES) ^ ONES == x
  {
  }

  function Flip(x: bv32): bv32 { x ^ ONES }

  lemma FlipTwice(x: bv32)
    ensures Flip(Flip(x)) == x
  {
  }

  lemma FlippedAppend<V>(reg: (V, Bytes) -> V, flip: V -> V, a: Bytes, b: Bytes, c: V)
    requires reg(flip(c), a + b) == reg(reg(flip(c), a), b)
    requires flip(flip(reg(flip(c), a))) == reg(flip(c), a)
    ensures flip(reg(flip(c), a + b)) == flip(reg(flip(flip(reg(flip(c), a))), b))
  {
  }

  lemma CrcFlipped(data: Bytes, crc: bv32)
    ensures Crc(data, crc) == Flip(Register(Flip(crc), data))
  {
  }

  /** The sum of a whole is the sum of its end, begun with the sum of its start. */
  lemma CrcAppend(a: Bytes, b: Bytes, crc: bv32)
    ensures Crc(a + b, crc) == Crc(b, Crc(a, crc))
  {
    CrcFlipped(a + b, crc);
    CrcFlipped(a, crc);
    CrcFlipped(b, Crc(a, crc));
    RegisterAppend(Flip(crc), a, b);
    FlipTwice(Register(Flip(crc), a));
    FlippedAppend(Register, Flip, a, b, crc);
  }

  lemma StepsInjective()
    ensures forall a, b :: Step(a) == Step(b) ==> a == b
  {
    forall a, b | Step(a) == Step(b)
      ensures a == b
    {
      StepInjective(a, b);
    }
  }

  lemma ByteStepInjective(c: bv32, d: bv32, b: bv8)
    requires ByteStep(c, b) == ByteStep(d, b)
    ensures c == d
  {
    StepsInjective();
    TimesInjective(Step, c ^ (b as bv32), d ^ (b as bv32), BYTE);
  }

  lemma {:induction false} FoldInjective<V(!new), B(!new)>(step: (V, B) -> V, c: V, d: V, items: seq<B>)
    requires forall x, y, b {:trigger step(x, b), step(y, b)} :: step(x, b) == step(y, b) ==> x == y
    requires Fold(step, c, items) == Fold(step, d, items)
    ensures c == d
    decreases |items|
  {
    if items != [] {
      FoldInjective(step, step(c, items[0]), step(d, items[0]), items[1..]);
    }
  }

  lemma RegisterInjective(c: bv32, d: bv32, data: Bytes)
    requires Register(c, data) == Register(d, data)
    ensures c == d
  {
    forall x, y, b {:trigger ByteStep(x, b), ByteStep(y, b)} | ByteStep(x, b) == ByteStep(y, b)
      ensures x == y
    {
      ByteStepInjective(x, y, b);
    }
    FoldInjective(ByteStep, c, d, data);
  }

  /** Up to four bytes as a word, the first lowest. */
  function Word(v: Bytes): bv32
    decreases |v|
  {
    if v == [] then 0 else (v[0] as bv32) ^ (Word(v[1..]) << 8)
  }

  lemma Shifted(b: bv8, w: bv32)
    requires w <= 0xFF_FFFF
    ensures (w << 8) & 0xFF == 0 && (w << 8) >> 8 == w
    ensures ((b as bv32) ^ (w << 8)) & 0xFF == b as bv32 && ((b as bv32) ^ (w << 8)) >> 8 == w
    ensures w <= 0xFFFF ==> (b as bv32) ^ (w << 8) <= 0xFF_FFFF
    ensures w <= 0xFF ==> (b as bv32) ^ (w << 8) <= 0xFFFF
    ensures w == 0 ==> (b as bv32) ^ (w << 8) <= 0xFF
  {
  }

  lemma {:induction false} WordFits(v: Bytes)
    requires |v| <= 3
    ensures Word(v) <= 0xFF_FFFF
    ensures |v| <= 2 ==> Word(v) <= 0xFFFF
    ensures |v| <= 1 ==> Word(v) <= 0xFF
    ensures |v| == 0 ==> Word(v) == 0
    decreases |v|
  {
    if v != [] {
      WordFits(v[1..]);
      Shifted(v[0], Word(v[1..]));
    }
  }

  lemma {:induction false} WordInjective(u: Bytes, v: Bytes)
    requires |u| == |v| <= 4 && Word(u) == Word(v)
    ensures u == v
    decreases |u|
  {
    if u != [] {
      WordFits(u[1..]);
      WordFits(v[1..]);
      Shifted(u[0], Word(u[1..]));
      Shifted(v[0], Word(v[1..]));
      WordInjective(u[1..], v[1..]);
    }
  }

  lemma {:induction false} TimesAdd<V>(f: V -> V, c: V, m: nat, n: nat)
    ensures Times(f, c, m + n) == Times(f, Times(f, c, m), n)
    decreases m
  {
    if m > 0 {
      TimesAdd(f, f(c), m - 1, n);
    }
  }

  lemma FourBytes(c: bv32, b: bv8, w: bv32)
    requires w <= 0xFF_FFFF
    ensures Xor(ByteStep(c, b), w) == Times(Step, Xor(c, (b as bv32) ^ (w << 8)), BYTE)
  {
    var x := c ^ (b as bv32);
    Shifted(b, w);
    HighByte(w << 8);
    HighSteps(x, w << 8);
    XorAssoc(c, b as bv32, w << 8);
  }

  /** `v` is a string of one to four bytes, met with register `c`. */
  ghost predicate Meets<V>(c: V, v: Bytes) {
    0 < |v| <= 4
  }

  lemma {:induction false} FoldIsWord<V(!new)>(byte: (V, bv8) -> V, f: V -> V, xor: (V, V) -> V, word: Bytes -> V,
                                               c: V, v: Bytes)
    requires |v| <= 4 && forall x :: xor(x, word([])) == x
    requires forall x, u {:trigger Meets(x, u)} :: Meets(x, u) ==>
      xor(byte(x, u[0]), word(u[1..])) == Times(f, xor(x, word(u)), BYTE)
    ensures Fold(byte, c, v) == Times(f, xor(c, word(v)), BYTE * |v|)
    decreases |v|
  {
    if v == [] {
      assert xor(c, word([])) == c;
    } else {
      assert Meets(c, v);
      FoldIsWord(byte, f, xor, word, byte(c, v[0]), v[1..]);
      TimesAdd(f, xor(c, word(v)), BYTE, BYTE * |v[1..]|);
    }
  }

  lemma WordStep(x: bv32, u: Bytes)
    requires 0 < |u| <= 4
    ensures Xor(ByteStep(x, u[0]), Word(u[1..])) == Times(Step, Xor(x, Word(u)), BYTE)
  {
    WordFits(u[1..]);
    FourBytes(x, u[0], Word(u[1..]));
  }

  /** Four bytes or fewer act on the register as one word. */
  lemma RegisterIsWord(c: bv32, v: Bytes)
    requires |v| <= 4
    ensures Register(c, v) == Times(Step, Xor(c, Word(v)), BYTE * |v|)
  {
    XorZero();
    forall x, u | Meets(x, u)
      ensures Xor(ByteStep(x, u[0]), Word(u[1..])) == Times(Step, Xor(x, Word(u)), BYTE)
    {
      WordStep(x, u);
    }
    FoldIsWord(ByteStep, Step, Xor, Word, c, v);
  }

  lemma XorInjective(c: bv32, x: bv32, y: bv32)
    requires Xor(c, x) == Xor(c, y)
    ensures x == y
  {
  }

  /** Damage confined to four consecutive bytes always changes the sum. */
  lemma BurstDetected(before: Bytes, u: Bytes, v: Bytes, after: Bytes, crc: bv32)
    requires |u| == |v| <= 4
    ensures Crc(before + u + after, crc) == Crc(before + v + after, crc) <==> u == v
  {
    var c := Register(crc ^ ONES, before);
    RegisterAppend(crc ^ ONES, before + u, after);
    RegisterAppend(crc ^ ONES, before + v, after);
    RegisterAppend(crc ^ ONES, before, u);
    RegisterAppend(crc ^ ONES, before, v);
    if Crc(before + u + after, crc) == Crc(before + v + after, crc) {
      XorTwice(Register(crc ^ ONES, before + u + after));
      XorTwice(Register(crc ^ ONES, before + v + after));
      RegisterInjective(Register(c, u), Register(c, v), after);
      RegisterIsWord(c, u);
      RegisterIsWord(c, v);
      StepsInjective();
      TimesInjective(Step, Xor(c, Word(u)), Xor(c, Word(v)), BYTE * |u|);
      XorInjective(c, Word(u), Word(v));
      WordInjective(u, v);
    }
  }
}
