/**
 Argon2id's memory filling (section 3.4 of RFC 9106): which block each block is made
 from, that it is there when it is read, and that the lanes of a slice may be filled
 in any order.

 The compression function and the input of the address blocks are parameters, so all
 of this holds for every such function.
 */
module Argon2 {

  datatype Cell<+B> = Empty | Block(b: B)

  /** `_fill`, the zero block, word `i` of a block, and the input block that generates
      addresses: pass, lane, slice and counter, with the constants of the run. */
  datatype Core<!B> = Core(
    fill: (B, B, B, bool) -> B,
    zero: B,
    word: (B, nat) -> nat,
    input: (nat, nat, nat, nat) -> B)

  /** `p` lanes of four segments of `seg` blocks. */
  datatype Geo = Geo(p: nat, seg: nat) {
    const q: nat := 4 * seg

    ghost predicate Ok() {
      p >= 1 && seg >= 2
    }
  }

  const TWO32: nat := 0x1_0000_0000

  // ---- places in memory ----

  function At(g: Geo, lane: nat, j: nat): nat {
    lane * g.q + j
  }

  lemma AtBound(g: Geo, lane: nat, j: nat)
    requires lane < g.p && j < g.q
    ensures At(g, lane, j) < g.p * g.q
  {
    assert (lane + 1) * g.q <= g.p * g.q;
  }

  lemma AtSplit(g: Geo, lane: nat, j: nat)
    requires j < g.q
    ensures At(g, lane, j) % g.q == j && At(g, lane, j) / g.q == lane
  {
    DivModUnique(At(g, lane, j), g.q, lane, j);
  }

  lemma MulApart(a: nat, d: nat, q: nat)
    requires a > d
    ensures a * q >= d * q + q
  {
    assert a * q == d * q + q + (a - d - 1) * q;
    assert (a - d - 1) * q >= 0;
  }

  lemma DivModUnique(x: nat, q: nat, a: nat, b: nat)
    requires b < q && x == a * q + b
    ensures x / q == a && x % q == b
  {
    var d := x / q;
    assert d * q <= x < d * q + q;
    if a > d {
      MulApart(a, d, q);
    } else if a < d {
      MulApart(d, a, q);
    }
  }

  lemma AtInjective(g: Geo, lane: nat, j: nat, lane': nat, j': nat)
    requires j < g.q && j' < g.q && At(g, lane, j) == At(g, lane', j')
    ensures lane == lane' && j == j'
  {
    AtSplit(g, lane, j);
    AtSplit(g, lane', j');
  }

  /** `mm`, `q` and `seg` as computed from the memory parameter. */
  lemma Geometry(m: nat, p: nat)
    requires p >= 1 && m >= 8 * p
    ensures var mm := m / (4 * p) * (4 * p);
      var g := Geo(p, mm / p / 4);
      g.Ok() && mm / p == g.q && mm == g.p * g.q
  {
    var k := m / (4 * p);
    assert m < k * (4 * p) + 4 * p;
    assert k >= 2;
    var mm := k * (4 * p);
    assert mm == (4 * k) * p + 0;
    DivModUnique(mm, p, 4 * k, 0);
    assert mm / p / 4 == k;
  }

  // ---- the reference block ----

  /** The column of the current block: segment `sl`, block `i`. */
  function Column(g: Geo, sl: nat, i: nat): nat {
    sl * g.seg + i
  }

  /** The first block a segment computes: the first two of a lane are given. */
  function Start(pas: nat, sl: nat): nat {
    if pas == 0 && sl == 0 then 2 else 0
  }

  /** The number of blocks to choose from. */
  function Area(g: Geo, pas: nat, sl: nat, i: nat, same: bool): int {
    if pas == 0 then
      if sl == 0 then i - 1
      else if same then sl * g.seg + i - 1
      else sl * g.seg + (if i == 0 then -1 else 0)
    else if same then g.q - g.seg + i - 1
    else g.q - g.seg + (if i == 0 then -1 else 0)
  }

  /** The choice, weighted towards recent blocks. */
  function Relative(area: int, pseudo: nat): int {
    var x := pseudo % TWO32;
    area - 1 - (area * (x * x / TWO32)) / TWO32
  }

  function RefLane(g: Geo, pas: nat, sl: nat, lane: nat, pseudo: nat): nat
    requires g.p >= 1
  {
    if pas == 0 && sl == 0 then lane else pseudo / TWO32 % g.p
  }

  function RefColumn(g: Geo, pas: nat, sl: nat, i: nat, same: bool, pseudo: nat): int
    requires g.seg >= 1
  {
    var begin := if pas == 0 || sl == 3 then 0 else (sl + 1) * g.seg;
    (begin + Relative(Area(g, pas, sl, i, same), pseudo)) % g.q
  }

  function PrevColumn(g: Geo, j: nat): int {
    if j == 0 then g.q - 1 else j - 1
  }

  lemma RelativeInRange(area: int, pseudo: nat)
    requires area >= 1
    ensures 0 <= Relative(area, pseudo) < area
  {
    var x := pseudo % TWO32;
    var y := x * x / TWO32;
    assert x * x <= (TWO32 - 1) * (TWO32 - 1);
    assert y < TWO32;
    assert area * y <= area * (TWO32 - 1);
    assert 0 <= area * y / TWO32 < area by {
      assert area * (TWO32 - 1) < area * TWO32;
    }
  }

  ghost predicate InSlice(g: Geo, pas: nat, sl: nat, i: nat) {
    g.Ok() && sl < 4 && Start(pas, sl) <= i < g.seg
  }

  lemma Segments(g: Geo, sl: nat)
    requires sl < 4
    ensures sl * g.seg + g.seg == (sl + 1) * g.seg <= g.q
    ensures sl == 3 ==> (sl + 1) * g.seg == g.q
    ensures sl > 0 ==> sl * g.seg >= g.seg
  {
    if sl == 0 {
    } else if sl == 1 {
    } else if sl == 2 {
    } else {
    }
  }

  /** There is always a block to choose (section 3.4.2): never the current one nor the
      one before it, in another lane never one of the current slice, and in the first
      pass never one that is not filled yet. */
  lemma RefWindow(g: Geo, pas: nat, sl: nat, i: nat, same: bool, pseudo: nat)
    requires InSlice(g, pas, sl, i) && (pas == 0 && sl == 0 ==> same)
    ensures Area(g, pas, sl, i, same) >= 1
    ensures var r, j := RefColumn(g, pas, sl, i, same, pseudo), Column(g, sl, i);
      && 0 <= r < g.q
      && (same ==> r != j && r != PrevColumn(g, j))
      && (!same ==> r < sl * g.seg || r >= (sl + 1) * g.seg)
      && (pas == 0 ==> r < if same then j - 1 else sl * g.seg)
  {
    Segments(g, sl);
    var area := Area(g, pas, sl, i, same);
    RelativeInRange(area, pseudo);
    var rel := Relative(area, pseudo);
    var begin := if pas == 0 || sl == 3 then 0 else (sl + 1) * g.seg;
    assert RefColumn(g, pas, sl, i, same, pseudo) == if begin + rel < g.q then begin + rel else begin + rel - g.q by {
      assert 0 <= begin + rel < 2 * g.q;
      WrapOnce(begin + rel, g.q);
    }
  }

  lemma WrapOnce(x: nat, q: nat)
    requires 0 <= x < 2 * q
    ensures x % q == if x < q then x else x - q
  {
    if x < q {
      DivModUnique(x, q, 0, x);
    } else {
      DivModUnique(x, q, 1, x - q);
    }
  }

  // ---- one block ----

  /** The block of addresses number `counter` of a segment. */
  function Addresses<B>(core: Core<B>, pas: nat, lane: nat, sl: nat, counter: nat): B {
    core.fill(core.zero, core.fill(core.zero, core.input(pas, lane, sl, counter), core.zero, false), core.zero, false)
  }

  /** Argon2i's half: pass 0, slices 0 and 1. */
  predicate Independent(pas: nat, sl: nat) {
    pas == 0 && sl < 2
  }

  function Pseudo<B>(core: Core<B>, pas: nat, lane: nat, sl: nat, i: nat, prev: B): nat {
    if Independent(pas, sl) then core.word(Addresses(core, pas, lane, sl, i / 128 + 1), i % 128)
    else core.word(prev, 0)
  }

  /** Place (l, j) was written before block `i` of `lane` in this slice. */
  ghost predicate Past(g: Geo, pas: nat, sl: nat, lane: nat, i: nat, l: nat, j: nat) {
    pas > 0 || j < sl * g.seg || (l == lane && j < Column(g, sl, i))
  }

  /** All the past of block `i` of `lane` is filled. */
  ghost predicate Filled<B>(g: Geo, mem: seq<Cell<B>>, pas: nat, sl: nat, lane: nat, i: nat) {
    && |mem| == g.p * g.q
    && forall l, j :: 0 <= l < g.p && 0 <= j < g.q && Past(g, pas, sl, lane, i, l, j) ==> Has(g, mem, l, j)
  }

  ghost predicate Has<B>(g: Geo, mem: seq<Cell<B>>, l: nat, j: nat) {
    At(g, l, j) < |mem| && mem[At(g, l, j)].Block?
  }

  /** The block written at place (lane, sl, i). */
  function NewBlock<B>(core: Core<B>, g: Geo, mem: seq<Cell<B>>, pas: nat, sl: nat, lane: nat, i: nat): (b: B)
    requires InSlice(g, pas, sl, i) && lane < g.p && Filled(g, mem, pas, sl, lane, i)
  {
    Segments(g, sl);
    var j := Column(g, sl, i);
    AtBound(g, lane, j);
    assert Has(g, mem, lane, PrevColumn(g, j));
    var prev := mem[At(g, lane, PrevColumn(g, j))].b;
    var pseudo := Pseudo(core, pas, lane, sl, i, prev);
    var l := RefLane(g, pas, sl, lane, pseudo);
    RefWindow(g, pas, sl, i, l == lane, pseudo);
    var r := RefColumn(g, pas, sl, i, l == lane, pseudo);
    assert Has(g, mem, lane, PrevColumn(g, j)) && Has(g, mem, l, r);
    var cur := if mem[At(g, lane, j)].Block? then mem[At(g, lane, j)].b else core.zero;
    core.fill(prev, mem[At(g, l, r)].b, cur, pas != 0)
  }

  function Put<B>(core: Core<B>, g: Geo, mem: seq<Cell<B>>, pas: nat, sl: nat, lane: nat, i: nat): (r: seq<Cell<B>>)
    requires InSlice(g, pas, sl, i) && lane < g.p && Filled(g, mem, pas, sl, lane, i)
    ensures |r| == |mem|
  {
    Segments(g, sl);
    AtBound(g, lane, Column(g, sl, i));
    mem[At(g, lane, Column(g, sl, i)) := Block(NewBlock(core, g, mem, pas, sl, lane, i))]
  }

  lemma PutAt<B>(core: Core<B>, g: Geo, mem: seq<Cell<B>>, pas: nat, sl: nat, lane: nat, i: nat, l: nat, j: nat)
    requires InSlice(g, pas, sl, i) && lane < g.p && Filled(g, mem, pas, sl, lane, i) && l < g.p && j < g.q
    ensures At(g, l, j) < |mem|
    ensures Put(core, g, mem, pas, sl, lane, i)[At(g, l, j)] ==
      if l == lane && j == Column(g, sl, i) then Block(NewBlock(core, g, mem, pas, sl, lane, i))
      else mem[At(g, l, j)]
  {
    Segments(g, sl);
    AtBound(g, l, j);
    if At(g, l, j) == At(g, lane, Column(g, sl, i)) {
      AtInjective(g, l, j, lane, Column(g, sl, i));
    }
  }

  lemma PutFills<B>(core: Core<B>, g: Geo, mem: seq<Cell<B>>, pas: nat, sl: nat, lane: nat, i: nat)
    requires InSlice(g, pas, sl, i) && lane < g.p && Filled(g, mem, pas, sl, lane, i)
    ensures Filled(g, Put(core, g, mem, pas, sl, lane, i), pas, sl, lane, i + 1)
  {
    var r := Put(core, g, mem, pas, sl, lane, i);
    forall l, j | 0 <= l < g.p && 0 <= j < g.q && Past(g, pas, sl, lane, i + 1, l, j)
      ensures Has(g, r, l, j)
    {
      PutAt(core, g, mem, pas, sl, lane, i, l, j);
      assert Past(g, pas, sl, lane, i, l, j) ==> Has(g, mem, l, j);
    }
  }

  // ---- a lane by itself ----

  ghost predicate Ready<B>(g: Geo, mem: seq<Cell<B>>, pas: nat, sl: nat) {
    g.Ok() && sl < 4 && forall lane :: 0 <= lane < g.p ==> Filled(g, mem, pas, sl, lane, Start(pas, sl))
  }

  /** The slice's blocks of one lane up to `k`, the other lanes as they were. */
  ghost function LaneRun<B>(core: Core<B>, g: Geo, mem: seq<Cell<B>>, pas: nat, sl: nat, lane: nat,
                            k: nat): (r: seq<Cell<B>>)
    requires Ready(g, mem, pas, sl) && lane < g.p && Start(pas, sl) <= k <= g.seg
    ensures |r| == |mem| && Filled(g, r, pas, sl, lane, k)
  {
    if k == Start(pas, sl) then mem
    else
      var before := LaneRun(core, g, mem, pas, sl, lane, k - 1);
      PutFills(core, g, before, pas, sl, lane, k - 1);
      Put(core, g, before, pas, sl, lane, k - 1)
  }

  /** A lane alone touches only its own blocks of the slice. */
  lemma {:induction false} LaneRunFrame<B>(core: Core<B>, g: Geo, mem: seq<Cell<B>>, pas: nat, sl: nat, lane: nat,
                                           k: nat, l: nat, j: nat)
    requires Ready(g, mem, pas, sl) && lane < g.p && Start(pas, sl) <= k <= g.seg && l < g.p && j < g.q
    requires l != lane || j < sl * g.seg || j >= (sl + 1) * g.seg
    ensures At(g, l, j) < |mem| && LaneRun(core, g, mem, pas, sl, lane, k)[At(g, l, j)] == mem[At(g, l, j)]
  {
    Segments(g, sl);
    AtBound(g, l, j);
    assert Filled(g, mem, pas, sl, lane, Start(pas, sl));
    if k > Start(pas, sl) {
      LaneRunFrame(core, g, mem, pas, sl, lane, k - 1, l, j);
      PutAt(core, g, LaneRun(core, g, mem, pas, sl, lane, k - 1), pas, sl, lane, k - 1, l, j);
    }
  }

  // ---- lanes interleaved ----

  /** The slice in progress: lane `l` has reached block `c[l]`, and each lane is as if it
      had run alone. */
  ghost predicate Apart<B>(core: Core<B>, g: Geo, mem: seq<Cell<B>>, pas: nat, sl: nat, now: seq<Cell<B>>, c: seq<nat>)
    requires Ready(g, mem, pas, sl)
  {
    && |now| == |mem| && |c| == g.p
    && (forall l :: 0 <= l < g.p ==> Start(pas, sl) <= c[l] <= g.seg)
    && (forall l, j :: 0 <= l < g.p && 0 <= j < g.q ==> Alone(core, g, mem, pas, sl, now, c[l], l, j))
  }

  ghost predicate Alone<B>(core: Core<B>, g: Geo, mem: seq<Cell<B>>, pas: nat, sl: nat, now: seq<Cell<B>>, k: nat,
                           l: nat, j: nat)
    requires Ready(g, mem, pas, sl) && l < g.p && Start(pas, sl) <= k <= g.seg
  {
    At(g, l, j) < |now| == |mem| && now[At(g, l, j)] == LaneRun(core, g, mem, pas, sl, l, k)[At(g, l, j)]
  }

  /** What lane `l` can read is the same in the interleaved memory and alone: its own
      lane anywhere, another lane outside the slice. */
  lemma SameView<B>(core: Core<B>, g: Geo, mem: seq<Cell<B>>, pas: nat, sl: nat, now: seq<Cell<B>>, c: seq<nat>,
                    lane: nat, l: nat, j: nat)
    requires Ready(g, mem, pas, sl) && Apart(core, g, mem, pas, sl, now, c) && lane < g.p && l < g.p && j < g.q
    requires l == lane || j < sl * g.seg || j >= (sl + 1) * g.seg
    ensures At(g, l, j) < |now| && now[At(g, l, j)] == LaneRun(core, g, mem, pas, sl, lane, c[lane])[At(g, l, j)]
  {
    assert Alone(core, g, mem, pas, sl, now, c[l], l, j);
    if l != lane {
      LaneRunFrame(core, g, mem, pas, sl, l, c[l], l, j);
      LaneRunFrame(core, g, mem, pas, sl, lane, c[lane], l, j);
    }
  }

  lemma ApartFilled<B>(core: Core<B>, g: Geo, mem: seq<Cell<B>>, pas: nat, sl: nat, now: seq<Cell<B>>, c: seq<nat>,
                       lane: nat)
    requires Ready(g, mem, pas, sl) && Apart(core, g, mem, pas, sl, now, c) && lane < g.p
    ensures Filled(g, now, pas, sl, lane, c[lane])
  {
    assert Filled(g, mem, pas, sl, lane, Start(pas, sl));
    forall l, j | 0 <= l < g.p && 0 <= j < g.q && Past(g, pas, sl, lane, c[lane], l, j)
      ensures Has(g, now, l, j)
    {
      assert Alone(core, g, mem, pas, sl, now, c[l], l, j);
      var r := LaneRun(core, g, mem, pas, sl, l, c[l]);
      assert Past(g, pas, sl, l, c[l], l, j);
      assert Has(g, r, l, j);
    }
  }

  /** The next block of a lane does not depend on how far the others are. */
  lemma SameBlock<B>(core: Core<B>, g: Geo, mem: seq<Cell<B>>, pas: nat, sl: nat, now: seq<Cell<B>>, c: seq<nat>,
                     lane: nat)
    requires Ready(g, mem, pas, sl) && Apart(core, g, mem, pas, sl, now, c) && lane < g.p && c[lane] < g.seg
    requires Filled(g, now, pas, sl, lane, c[lane])
    ensures NewBlock(core, g, now, pas, sl, lane, c[lane]) ==
      NewBlock(core, g, LaneRun(core, g, mem, pas, sl, lane, c[lane]), pas, sl, lane, c[lane])
  {
    var i := c[lane];
    var j := Column(g, sl, i);
    var alone := LaneRun(core, g, mem, pas, sl, lane, i);
    Segments(g, sl);
    SameView(core, g, mem, pas, sl, now, c, lane, lane, j);
    SameView(core, g, mem, pas, sl, now, c, lane, lane, PrevColumn(g, j));
    assert Has(g, alone, lane, PrevColumn(g, j));
    var pseudo := Pseudo(core, pas, lane, sl, i, alone[At(g, lane, PrevColumn(g, j))].b);
    var l := RefLane(g, pas, sl, lane, pseudo);
    RefWindow(g, pas, sl, i, l == lane, pseudo);
    SameView(core, g, mem, pas, sl, now, c, lane, l, RefColumn(g, pas, sl, i, l == lane, pseudo));
  }

  lemma ApartStep<B>(core: Core<B>, g: Geo, mem: seq<Cell<B>>, pas: nat, sl: nat, now: seq<Cell<B>>, c: seq<nat>,
                     lane: nat)
    requires Ready(g, mem, pas, sl) && Apart(core, g, mem, pas, sl, now, c) && lane < g.p && c[lane] < g.seg
    ensures Filled(g, now, pas, sl, lane, c[lane])
    ensures Apart(core, g, mem, pas, sl, Put(core, g, now, pas, sl, lane, c[lane]), c[lane := c[lane] + 1])
  {
    var i := c[lane];
    ApartFilled(core, g, mem, pas, sl, now, c, lane);
    SameBlock(core, g, mem, pas, sl, now, c, lane);
    var alone := LaneRun(core, g, mem, pas, sl, lane, i);
    var next, c' := Put(core, g, now, pas, sl, lane, i), c[lane := i + 1];
    forall l, j | 0 <= l < g.p && 0 <= j < g.q
      ensures Alone(core, g, mem, pas, sl, next, c'[l], l, j)
    {
      PutAt(core, g, now, pas, sl, lane, i, l, j);
      assert Alone(core, g, mem, pas, sl, now, c[l], l, j);
      if l == lane {
        PutAt(core, g, alone, pas, sl, lane, i, l, j);
      }
    }
  }

  /** Two memories that are both the lanes run alone, as far, are one memory. */
  lemma ApartUnique<B>(core: Core<B>, g: Geo, mem: seq<Cell<B>>, pas: nat, sl: nat, a: seq<Cell<B>>, b: seq<Cell<B>>,
                       c: seq<nat>)
    requires Ready(g, mem, pas, sl) && Apart(core, g, mem, pas, sl, a, c) && Apart(core, g, mem, pas, sl, b, c)
    ensures a == b
  {
    assert Filled(g, mem, pas, sl, 0, Start(pas, sl));
    forall x | 0 <= x < |a|
      ensures a[x] == b[x]
    {
      var l, j := Place(g, x);
      assert Alone(core, g, mem, pas, sl, a, c[l], l, j) && Alone(core, g, mem, pas, sl, b, c[l], l, j);
    }
  }

  lemma MulMono(a: nat, b: nat, q: nat)
    ensures a <= b ==> a * q <= b * q
  {
    assert b * q == a * q + (b - a) * q;
  }

  lemma DivBound(x: nat, p: nat, q: nat) returns (d: nat, r: nat)
    requires q > 0 && x < p * q
    ensures d < p && r < q && x == d * q + r
  {
    d, r := x / q, x % q;
    MulMono(p, d, q);
  }

  lemma Place(g: Geo, x: nat) returns (l: nat, j: nat)
    requires g.Ok() && x < g.p * g.q
    ensures l < g.p && j < g.q && At(g, l, j) == x
  {
    l, j := DivBound(x, g.p, g.q);
  }

  // ---- schedules ----

  /** An order of work for a slice: lanes, each to compute its next block. */
  ghost predicate Fits(g: Geo, order: seq<nat>, c: seq<nat>)
    requires |c| == g.p
    decreases |order|
  {
    order == [] ||
    (order[0] < g.p && c[order[0]] < g.seg && Fits(g, order[1..], c[order[0] := c[order[0]] + 1]))
  }

  ghost function Counts(g: Geo, order: seq<nat>, c: seq<nat>): (r: seq<nat>)
    requires |c| == g.p && Fits(g, order, c)
    ensures |r| == g.p
    decreases |order|
  {
    if order == [] then c else Counts(g, order[1..], c[order[0] := c[order[0]] + 1])
  }

  ghost function Work<B>(core: Core<B>, g: Geo, mem: seq<Cell<B>>, pas: nat, sl: nat, now: seq<Cell<B>>,
                         order: seq<nat>, c: seq<nat>): (r: seq<Cell<B>>)
    requires Ready(g, mem, pas, sl) && Apart(core, g, mem, pas, sl, now, c) && Fits(g, order, c)
    ensures Apart(core, g, mem, pas, sl, r, Counts(g, order, c))
    decreases |order|
  {
    if order == [] then now
    else
      ApartStep(core, g, mem, pas, sl, now, c, order[0]);
      Work(core, g, mem, pas, sl, Put(core, g, now, pas, sl, order[0], c[order[0]]), order[1..],
           c[order[0] := c[order[0]] + 1])
  }

  function All(g: Geo, k: nat): (c: seq<nat>)
    ensures |c| == g.p && forall l :: 0 <= l < g.p ==> c[l] == k
  {
    seq(g.p, _ => k)
  }

  /** An order that computes every block of the slice, the lanes interleaved anyhow. */
  ghost predicate Complete(g: Geo, pas: nat, sl: nat, order: seq<nat>) {
    Fits(g, order, All(g, Start(pas, sl))) && Counts(g, order, All(g, Start(pas, sl))) == All(g, g.seg)
  }

  /** The source's own order, from `lane` on: each lane to its end before the next. */
  ghost function LaneByLane(g: Geo, pas: nat, sl: nat, lane: nat): seq<nat>
    requires lane <= g.p && Start(pas, sl) <= g.seg
    decreases g.p - lane
  {
    if lane == g.p then []
    else seq(g.seg - Start(pas, sl), _ => lane) + LaneByLane(g, pas, sl, lane + 1)
  }

  lemma {:induction false} FitsLane(g: Geo, lane: nat, n: nat, rest: seq<nat>, c: seq<nat>)
    requires |c| == g.p && lane < g.p && c[lane] + n <= g.seg
    requires Fits(g, rest, c[lane := c[lane] + n])
    ensures Fits(g, seq(n, _ => lane) + rest, c)
    ensures Counts(g, seq(n, _ => lane) + rest, c) == Counts(g, rest, c[lane := c[lane] + n])
    decreases n
  {
    var order := seq(n, _ => lane) + rest;
    if n == 0 {
      assert order == rest && c[lane := c[lane] + n] == c;
    } else {
      var c' := c[lane := c[lane] + 1];
      assert c'[lane := c'[lane] + (n - 1)] == c[lane := c[lane] + n];
      FitsLane(g, lane, n - 1, rest, c');
      assert order[1..] == seq(n - 1, _ => lane) + rest;
    }
  }

  lemma {:induction false} LaneByLaneFits(g: Geo, pas: nat, sl: nat, lane: nat, c: seq<nat>)
    requires lane <= g.p && Start(pas, sl) <= g.seg && |c| == g.p
    requires forall l :: 0 <= l < g.p ==> c[l] == if l < lane then g.seg else Start(pas, sl)
    ensures Fits(g, LaneByLane(g, pas, sl, lane), c)
    ensures Counts(g, LaneByLane(g, pas, sl, lane), c) == All(g, g.seg)
    decreases g.p - lane
  {
    if lane < g.p {
      LaneByLaneFits(g, pas, sl, lane + 1, c[lane := g.seg]);
      FitsLane(g, lane, g.seg - Start(pas, sl), LaneByLane(g, pas, sl, lane + 1), c);
    }
  }

  /** The source's order is one of those the results speak of. */
  lemma LaneByLaneComplete(g: Geo, pas: nat, sl: nat)
    requires g.Ok()
    ensures Complete(g, pas, sl, LaneByLane(g, pas, sl, 0))
  {
    LaneByLaneFits(g, pas, sl, 0, All(g, Start(pas, sl)));
  }

  lemma ApartStart<B>(core: Core<B>, g: Geo, mem: seq<Cell<B>>, pas: nat, sl: nat)
    requires Ready(g, mem, pas, sl)
    ensures Apart(core, g, mem, pas, sl, mem, All(g, Start(pas, sl)))
  {
    assert Filled(g, mem, pas, sl, 0, Start(pas, sl));
    forall l, j | 0 <= l < g.p && 0 <= j < g.q
      ensures Alone(core, g, mem, pas, sl, mem, Start(pas, sl), l, j)
    {
      AtBound(g, l, j);
    }
  }

  ghost function Slice<B>(core: Core<B>, g: Geo, mem: seq<Cell<B>>, pas: nat, sl: nat,
                          order: seq<nat>): (r: seq<Cell<B>>)
    requires Ready(g, mem, pas, sl) && Complete(g, pas, sl, order)
    ensures Apart(core, g, mem, pas, sl, r, All(g, g.seg))
  {
    ApartStart(core, g, mem, pas, sl);
    Work(core, g, mem, pas, sl, mem, order, All(g, Start(pas, sl)))
  }

  /** Lane independence of one slice: every order gives the same memory. */
  lemma OrderIrrelevant<B>(core: Core<B>, g: Geo, mem: seq<Cell<B>>, pas: nat, sl: nat, order: seq<nat>,
                           order': seq<nat>)
    requires Ready(g, mem, pas, sl) && Complete(g, pas, sl, order) && Complete(g, pas, sl, order')
    ensures Slice(core, g, mem, pas, sl, order) == Slice(core, g, mem, pas, sl, order')
  {
    ApartUnique(core, g, mem, pas, sl, Slice(core, g, mem, pas, sl, order), Slice(core, g, mem, pas, sl, order'),
                All(g, g.seg));
  }

  // ---- the whole filling ----

  /** Slice number `n` of the run, counting four to a pass. */
  function Pass(n: nat): nat { n / 4 }
  function Sl(n: nat): nat { n % 4 }

  lemma SliceReadies<B>(core: Core<B>, g: Geo, mem: seq<Cell<B>>, n: nat, now: seq<Cell<B>>)
    requires Ready(g, mem, Pass(n), Sl(n)) && Apart(core, g, mem, Pass(n), Sl(n), now, All(g, g.seg))
    ensures Ready(g, now, Pass(n + 1), Sl(n + 1))
  {
    var pas, sl := Pass(n), Sl(n);
    Segments(g, sl);
    assert Filled(g, mem, pas, sl, 0, Start(pas, sl));
    var pas', sl' := Pass(n + 1), Sl(n + 1);
    forall lane | 0 <= lane < g.p
      ensures Filled(g, now, pas', sl', lane, Start(pas', sl'))
    {
      forall l, j | 0 <= l < g.p && 0 <= j < g.q && Past(g, pas', sl', lane, Start(pas', sl'), l, j)
        ensures Has(g, now, l, j)
      {
        assert Alone(core, g, mem, pas, sl, now, All(g, g.seg)[l], l, j);
        var r := LaneRun(core, g, mem, pas, sl, l, g.seg);
        assert pas > 0 || j < (sl + 1) * g.seg;
        assert Past(g, pas, sl, l, g.seg, l, j);
        assert Has(g, r, l, j);
      }
    }
  }

  /** An order of work for every slice from `n` to `end`. */
  ghost predicate Orders(g: Geo, orders: nat -> seq<nat>, n: nat, end: nat) {
    forall k :: n <= k < end ==> Complete(g, Pass(k), Sl(k), orders(k))
  }

  ghost function FillFrom<B>(core: Core<B>, g: Geo, mem: seq<Cell<B>>, n: nat, end: nat,
                             orders: nat -> seq<nat>): seq<Cell<B>>
    requires n <= end && Ready(g, mem, Pass(n), Sl(n)) && Orders(g, orders, n, end)
    decreases end - n
  {
    if n == end then mem
    else
      var next := Slice(core, g, mem, Pass(n), Sl(n), orders(n));
      SliceReadies(core, g, mem, n, next);
      FillFrom(core, g, next, n + 1, end, orders)
  }

  /** Lane independence of the whole run (section 3.4): however each slice's lanes are
      ordered or interleaved, the memory is the same after any number of slices. */
  lemma {:induction false} FillIndependent<B>(core: Core<B>, g: Geo, mem: seq<Cell<B>>, n: nat, end: nat,
                                              orders: nat -> seq<nat>, orders': nat -> seq<nat>)
    requires n <= end && Ready(g, mem, Pass(n), Sl(n)) && Orders(g, orders, n, end) && Orders(g, orders', n, end)
    ensures FillFrom(core, g, mem, n, end, orders) == FillFrom(core, g, mem, n, end, orders')
    decreases end - n
  {
    if n < end {
      OrderIrrelevant(core, g, mem, Pass(n), Sl(n), orders(n), orders'(n));
      var next := Slice(core, g, mem, Pass(n), Sl(n), orders(n));
      SliceReadies(core, g, mem, n, next);
      FillIndependent(core, g, next, n + 1, end, orders, orders');
    }
  }

  /** One segment, as the source fills it: `cur` and `prev` run along, wrapping at the
      lane's ends, and a counter and its address block serve the independent slices. */
  method FillSegment<B>(core: Core<B>, g: Geo, pas: nat, sl: nat, lane: nat, mem: seq<Cell<B>>,
                        ghost mem0: seq<Cell<B>>, ghost c: seq<nat>) returns (out: seq<Cell<B>>)
    requires Ready(g, mem0, pas, sl) && lane < g.p
    requires Apart(core, g, mem0, pas, sl, mem, c) && c[lane] == Start(pas, sl)
    ensures Apart(core, g, mem0, pas, sl, out, c[lane := g.seg])
  {
    out := mem;
    var indep := Independent(pas, sl);
    var counter, addr, start := 0, core.zero, 0;
    if pas == 0 && sl == 0 {
      start := 2;
      counter := 1;
      addr := Addresses(core, pas, lane, sl, counter);
    }
    Segments(g, sl);
    var cur := lane * g.q + sl * g.seg + start;
    AtSplit(g, lane, Column(g, sl, start));
    var prev: int := if cur % g.q != 0 then cur - 1 else cur + g.q - 1;
    ghost var reached: seq<nat> := c;
    for i := start to g.seg
      invariant cur == At(g, lane, Column(g, sl, i))
      invariant prev == At(g, lane, PrevColumn(g, Column(g, sl, i))) || Column(g, sl, i) == 1
      invariant |reached| == |c| && reached[lane] == i && forall l :: 0 <= l < |c| && l != lane ==> reached[l] == c[l]
      invariant Apart(core, g, mem0, pas, sl, out, reached)
      invariant indep ==> counter == Counter(i)
      invariant indep && i > 0 ==> addr == Addresses(core, pas, lane, sl, counter)
    {
      prev := Wrapped(g, lane, Column(g, sl, i), cur, prev);
      if indep {
        counter, addr := NextAddresses(core, pas, lane, sl, i, counter, addr);
      }
      ApartStep(core, g, mem0, pas, sl, out, reached, lane);
      out := FillBlock(core, g, pas, sl, lane, i, out, cur, prev, addr);
      cur, prev := cur + 1, prev + 1;
      reached := reached[lane := reached[lane] + 1];
    }
    assert reached == c[lane := g.seg];
  }

  /** `prev` corrected where the lane has wrapped: always the cyclic predecessor. */
  method Wrapped(g: Geo, lane: nat, j: nat, cur: nat, prev: int) returns (r: nat)
    requires j < g.q && cur == At(g, lane, j)
    requires prev == At(g, lane, PrevColumn(g, j)) || j == 1
    ensures r == At(g, lane, PrevColumn(g, j))
  {
    AtSplit(g, lane, j);
    r := if cur % g.q == 1 then cur - 1 else prev;
  }

  /** The address counter before block `i`. */
  function Counter(i: nat): nat {
    if i == 0 then 0 else (i - 1) / 128 + 1
  }

  method NextAddresses<B>(core: Core<B>, pas: nat, lane: nat, sl: nat, i: nat, counter: nat, addr: B)
    returns (counter': nat, addr': B)
    requires counter == Counter(i) && (i > 0 ==> addr == Addresses(core, pas, lane, sl, counter))
    ensures counter' == Counter(i + 1) == i / 128 + 1 && addr' == Addresses(core, pas, lane, sl, counter')
  {
    CounterNext(i);
    counter', addr' := counter, addr;
    if i % 128 == 0 {
      counter' := counter + 1;
      addr' := Addresses(core, pas, lane, sl, counter');
    }
  }

  lemma CounterNext(i: nat)
    ensures i > 0 ==> i / 128 == (i - 1) / 128 + if i % 128 == 0 then 1 else 0
  {
  }

  /** The body of the innermost loop. */
  method FillBlock<B>(core: Core<B>, g: Geo, pas: nat, sl: nat, lane: nat, i: nat, mem: seq<Cell<B>>, cur: nat,
                      prev: nat, addr: B) returns (out: seq<Cell<B>>)
    requires InSlice(g, pas, sl, i) && lane < g.p && Filled(g, mem, pas, sl, lane, i)
    requires cur == At(g, lane, Column(g, sl, i)) && prev == At(g, lane, PrevColumn(g, Column(g, sl, i)))
    requires Independent(pas, sl) ==> addr == Addresses(core, pas, lane, sl, i / 128 + 1)
    ensures out == Put(core, g, mem, pas, sl, lane, i)
  {
    Segments(g, sl);
    AtBound(g, lane, Column(g, sl, i));
    assert Has(g, mem, lane, PrevColumn(g, Column(g, sl, i)));
    var pseudo := if Independent(pas, sl) then core.word(addr, i % 128) else core.word(mem[prev].b, 0);
    var refLane := RefLane(g, pas, sl, lane, pseudo);
    var same := refLane == lane;
    RefWindow(g, pas, sl, i, same, pseudo);
    var ref := RefColumn(g, pas, sl, i, same, pseudo);
    assert Has(g, mem, refLane, ref);
    var old_ := if mem[cur].Block? then mem[cur].b else core.zero;
    out := mem[cur := Block(core.fill(mem[prev].b, mem[refLane * g.q + ref].b, old_, pas != 0))];
  }

  /** `now`, after `n` slices, leads where every order of the lanes leads from `mem`. */
  ghost predicate OnTheWay<B>(core: Core<B>, g: Geo, mem: seq<Cell<B>>, now: seq<Cell<B>>, n: nat, end: nat) {
    && n <= end && Ready(g, mem, 0, 0) && Ready(g, now, Pass(n), Sl(n))
    && forall orders: nat -> seq<nat> :: Orders(g, orders, 0, end) ==>
         FillFrom(core, g, mem, 0, end, orders) == FillFrom(core, g, now, n, end, orders)
  }

  lemma OneSliceFurther<B>(core: Core<B>, g: Geo, mem: seq<Cell<B>>, now: seq<Cell<B>>, next: seq<Cell<B>>, n: nat,
                           end: nat)
    requires OnTheWay(core, g, mem, now, n, end) && n < end
    requires Apart(core, g, now, Pass(n), Sl(n), next, All(g, g.seg))
    ensures OnTheWay(core, g, mem, next, n + 1, end)
  {
    SliceReadies(core, g, now, n, next);
    forall orders: nat -> seq<nat> | Orders(g, orders, 0, end)
      ensures FillFrom(core, g, mem, 0, end, orders) == FillFrom(core, g, next, n + 1, end, orders)
    {
      assert Complete(g, Pass(n), Sl(n), orders(n));
      ApartUnique(core, g, now, Pass(n), Sl(n), next, Slice(core, g, now, Pass(n), Sl(n), orders(n)), All(g, g.seg));
    }
  }

  lemma SetOut<B>(core: Core<B>, g: Geo, mem: seq<Cell<B>>, end: nat)
    requires Ready(g, mem, 0, 0)
    ensures OnTheWay(core, g, mem, mem, 0, end)
  {
  }

  lemma Arrived<B>(core: Core<B>, g: Geo, mem: seq<Cell<B>>, now: seq<Cell<B>>, end: nat)
    requires OnTheWay(core, g, mem, now, end, end)
    ensures forall orders: nat -> seq<nat> :: Orders(g, orders, 0, end) ==>
      now == FillFrom(core, g, mem, 0, end, orders)
  {
  }

  lemma SliceNumber(pas: nat, sl: nat)
    requires sl < 4
    ensures Pass(4 * pas + sl) == pas && Sl(4 * pas + sl) == sl
  {
  }

  /** The loops over passes, slices and lanes: what they leave is what any order of the
      lanes leaves. `mem` holds the first two blocks of each lane. */
  method FillMemory<B>(core: Core<B>, g: Geo, t: nat, mem: seq<Cell<B>>) returns (out: seq<Cell<B>>)
    requires Ready(g, mem, 0, 0)
    ensures forall orders: nat -> seq<nat> :: Orders(g, orders, 0, 4 * t) ==>
      out == FillFrom(core, g, mem, 0, 4 * t, orders)
    ensures Ready(g, out, t, 0)
  {
    out := mem;
    SetOut(core, g, mem, 4 * t);
    for pas := 0 to t
      invariant OnTheWay(core, g, mem, out, 4 * pas, 4 * t)
    {
      for sl := 0 to 4
        invariant OnTheWay(core, g, mem, out, 4 * pas + sl, 4 * t)
      {
        ghost var before := out;
        SliceNumber(pas, sl);
        out := FillSlice(core, g, pas, sl, out);
        OneSliceFurther(core, g, mem, before, out, 4 * pas + sl, 4 * t);
      }
    }
    SliceNumber(t, 0);
    Arrived(core, g, mem, out, 4 * t);
  }

  /** The loop over the lanes of a slice. */
  method FillSlice<B>(core: Core<B>, g: Geo, pas: nat, sl: nat, mem: seq<Cell<B>>) returns (out: seq<Cell<B>>)
    requires Ready(g, mem, pas, sl)
    ensures Apart(core, g, mem, pas, sl, out, All(g, g.seg))
  {
    out := mem;
    ApartStart(core, g, mem, pas, sl);
    ghost var c: seq<nat> := All(g, Start(pas, sl));
    for lane := 0 to g.p
      invariant |c| == g.p && Apart(core, g, mem, pas, sl, out, c)
      invariant forall l :: 0 <= l < g.p ==> c[l] == if l < lane then g.seg else Start(pas, sl)
    {
      out := FillSegment(core, g, pas, sl, lane, out, mem, c);
      c := c[lane := g.seg];
    }
    assert c == All(g, g.seg);
  }

  // ---- the tag ----

  ghost predicate HasLast<B>(g: Geo, mem: seq<Cell<B>>, lane: nat) {
    g.q > 0 && Has(g, mem, lane, g.q - 1)
  }

  /** The last blocks of the lanes up to `lane`, joined. */
  function Joined<B>(join: (B, B) -> B, g: Geo, mem: seq<Cell<B>>, lane: nat): B
    requires lane < g.p && forall l :: 0 <= l <= lane ==> HasLast(g, mem, l)
  {
    assert HasLast(g, mem, lane);
    if lane == 0 then mem[At(g, 0, g.q - 1)].b
    else join(Joined(join, g, mem, lane - 1), mem[At(g, lane, g.q - 1)].b)
  }

  /** The last column is filled once a pass is over. */
  lemma LastColumn<B>(g: Geo, mem: seq<Cell<B>>, t: nat)
    requires t > 0 && Ready(g, mem, t, 0)
    ensures forall l :: 0 <= l < g.p ==> HasLast(g, mem, l)
  {
    assert Filled(g, mem, t, 0, 0, Start(t, 0));
    forall l | 0 <= l < g.p
      ensures HasLast(g, mem, l)
    {
      assert Past(g, t, 0, 0, Start(t, 0), l, g.q - 1);
    }
  }

  /** `argon2id` from its first blocks on: the memory filled, the last column joined and
      hashed. The tag is the same for every order of the lanes. */
  method Tag<B, H>(core: Core<B>, join: (B, B) -> B, hash: B -> H, g: Geo, t: nat, mem: seq<Cell<B>>) returns (tag: H)
    requires Ready(g, mem, 0, 0) && t > 0
    ensures forall orders: nat -> seq<nat> :: Orders(g, orders, 0, 4 * t) ==>
      && (forall l :: 0 <= l < g.p ==> HasLast(g, FillFrom(core, g, mem, 0, 4 * t, orders), l))
      && tag == hash(Joined(join, g, FillFrom(core, g, mem, 0, 4 * t, orders), g.p - 1))
  {
    var out := FillMemory(core, g, t, mem);
    LastColumn(g, out, t);
    var final := LastOf(g, out, 0);
    for lane := 1 to g.p
      invariant final == Joined(join, g, out, lane - 1)
    {
      var last := LastOf(g, out, lane);
      final := join(final, last);
    }
    tag := hash(final);
  }

  method LastOf<B>(g: Geo, mem: seq<Cell<B>>, lane: nat) returns (b: B)
    requires HasLast(g, mem, lane)
    ensures b == mem[At(g, lane, g.q - 1)].b
  {
    b := mem[At(g, lane, g.q - 1)].b;
  }
}
