/**
 * The keystream generator: three shift registers clocked together. A word is emitted at the first
 * clock, after at least one, at which the stop bits of the 64-bit register are clear.
 */
module Keystream {
  import opened Counting

  /** The 33-bit register is `s33` with its top bit parked in the top bit of `s31`. */
  datatype Regs = Regs(s31: bv32, s33: bv32, h64: bv32, l64: bv32)

  datatype Taps = Taps(p31: bv32, p33: bv32, p64: bv32, butt: bv32)

  function ClockLow(p: bv32, low: bv32): bv32 {
    if low & 1 != 0 then (low >> 1) ^ p else low >> 1
  }

  function Park(low: bv32, bit: bool): bv32 {
    if bit then low | 0x80000000 else low
  }

  function Clock31(p: bv32, s31: bv32, s33: bv32): bv32 {
    Park(ClockLow(p, s31 & 0x7fffffff), s33 & 0x80000000 != 0)
  }

  function Clock33(p: bv32, s31: bv32, s33: bv32): bv32 {
    if s31 & 0x80000000 != 0 then (s33 << 1) ^ p else s33 << 1
  }

  function ClockH(h: bv32, l: bv32): bv32 {
    (h >> 1) | (l & 0x80000000)
  }

  function ClockL(p: bv32, h: bv32, l: bv32): bv32 {
    if h & 1 != 0 then (l << 1) ^ p else l << 1
  }

  function Clock(k: Taps, r: Regs): Regs {
    Regs(Clock31(k.p31, r.s31, r.s33), Clock33(k.p33, r.s31, r.s33), ClockH(r.h64, r.l64), ClockL(k.p64, r.h64, r.l64))
  }

  /** What the tables and the forced low bits give every key. */
  predicate GoodTaps(k: Taps) {
    k.p31 & 0xc0000000 == 0x40000000 && k.p33 & 1 == 1 && k.p64 & 1 == 1
  }

  /** Each of the three registers is nonzero. */
  predicate Alive(r: Regs) {
    && r.s31 & 0x7fffffff != 0
    && (r.s33 != 0 || r.s31 & 0x80000000 != 0)
    && (r.h64 != 0 || r.l64 != 0)
  }

  // ---------- one clock ----------

  lemma ClockAlive(k: Taps, r: Regs)
    requires GoodTaps(k) && Alive(r)
    ensures Alive(Clock(k, r))
  {
  }

  function BackLow(p: bv32, low: bv32): bv32 {
    if low & 0x40000000 != 0 then ((low ^ p) << 1) | 1 else low << 1
  }

  function Back31(p: bv32, s31: bv32, s33: bv32): bv32 {
    Park(BackLow(p, s31 & 0x7fffffff), s33 & 1 != 0)
  }

  function Back33(p: bv32, parked: bv32, s33: bv32): bv32 {
    if s33 & 1 != 0 then ((s33 ^ p) >> 1) | parked else (s33 >> 1) | parked
  }

  function BackH(h: bv32, l: bv32): bv32 {
    ((h & 0x7fffffff) << 1) | (l & 1)
  }

  /** The clock run backwards. */
  function Unclock(k: Taps, r: Regs): Regs {
    Regs(Back31(k.p31, r.s31, r.s33), Back33(k.p33, r.s31 & 0x80000000, r.s33),
         BackH(r.h64, r.l64), Back33(k.p64, r.h64 & 0x80000000, r.l64))
  }

  lemma ParkedBit(p: bv32, s31: bv32, s33: bv32)
    requires p & 0xc0000000 == 0x40000000
    ensures Clock31(p, s31, s33) & 0x80000000 == s33 & 0x80000000
  {
  }

  /** A left shift with an odd tap leaves the bit shifted out in the lowest place. */
  lemma BackFed(p: bv32, l: bv32)
    requires p & 1 == 1
    ensures ((l << 1) ^ p) & 1 != 0
    ensures Back33(p, l & 0x80000000, (l << 1) ^ p) == l
  {
  }

  lemma BackPlain(p: bv32, l: bv32)
    ensures (l << 1) & 1 == 0
    ensures Back33(p, l & 0x80000000, l << 1) == l
  {
  }

  lemma Unclocked33(p: bv32, s31: bv32, s33: bv32)
    requires p & 1 == 1
    ensures Clock33(p, s31, s33) & 1 != 0 <==> s31 & 0x80000000 != 0
    ensures Back33(p, s33 & 0x80000000, Clock33(p, s31, s33)) == s33
  {
    hide Back33;
    BackFed(p, s33);
    BackPlain(p, s33);
  }

  /** A right shift with the tap's top bit set leaves the bit shifted out in the top place. */
  lemma BackLowOf(p: bv32, low: bv32)
    requires p & 0xc0000000 == 0x40000000 && low <= 0x7fffffff
    ensures ClockLow(p, low) <= 0x7fffffff
    ensures BackLow(p, ClockLow(p, low)) == low
  {
  }

  lemma LowOfParked(n: bv32, bit: bool)
    requires n <= 0x7fffffff
    ensures Park(n, bit) & 0x7fffffff == n
  {
  }

  lemma LowPart(s: bv32)
    ensures s & 0x7fffffff <= 0x7fffffff
  {
  }

  lemma Rejoined(s: bv32)
    ensures Park(s & 0x7fffffff, s & 0x80000000 != 0) == s
  {
    if s & 0x80000000 != 0 {} else {}
  }

  lemma ParkedClock(p: bv32, low: bv32, bit: bool)
    requires p & 0xc0000000 == 0x40000000 && low <= 0x7fffffff
    ensures Park(ClockLow(p, low), bit) & 0x7fffffff == ClockLow(p, low)
  {
    hide ClockLow, BackLow, Park;
    BackLowOf(p, low);
    LowOfParked(ClockLow(p, low), bit);
  }

  lemma Clock31Low(p: bv32, s31: bv32, s33: bv32)
    requires p & 0xc0000000 == 0x40000000
    ensures Clock31(p, s31, s33) & 0x7fffffff == ClockLow(p, s31 & 0x7fffffff)
  {
    hide ClockLow, Park;
    LowPart(s31);
    ParkedClock(p, s31 & 0x7fffffff, s33 & 0x80000000 != 0);
  }

  lemma Unclocked31(p: bv32, s31: bv32, s33: bv32, next33: bv32)
    requires p & 0xc0000000 == 0x40000000
    requires next33 & 1 != 0 <==> s31 & 0x80000000 != 0
    ensures Back31(p, Clock31(p, s31, s33), next33) == s31
  {
    hide ClockLow, BackLow, Clock31, Park;
    Rejoined(s31);
    LowPart(s31);
    BackLowOf(p, s31 & 0x7fffffff);
    Clock31Low(p, s31, s33);
  }

  lemma UnclockedH(p: bv32, h: bv32, l: bv32)
    requires p & 1 == 1
    ensures BackH(ClockH(h, l), ClockL(p, h, l)) == h
  {
  }

  lemma ParkedHigh(h: bv32, l: bv32)
    ensures ClockH(h, l) & 0x80000000 == l & 0x80000000
  {
  }

  lemma UnclockedL(p: bv32, h: bv32, l: bv32)
    requires p & 1 == 1
    ensures Back33(p, ClockH(h, l) & 0x80000000, ClockL(p, h, l)) == l
  {
    hide ClockH, Back33;
    ParkedHigh(h, l);
    BackFed(p, l);
    BackPlain(p, l);
  }

  /** No two states clock to the same state. */
  lemma ClockReversible(k: Taps, r: Regs)
    requires GoodTaps(k)
    ensures Unclock(k, Clock(k, r)) == r
  {
    hide Clock31, Clock33, ClockH, ClockL, Back31, Back33, BackH;
    ParkedBit(k.p31, r.s31, r.s33);
    Unclocked33(k.p33, r.s31, r.s33);
    Unclocked31(k.p31, r.s31, r.s33, Clock33(k.p33, r.s31, r.s33));
    UnclockedH(k.p64, r.h64, r.l64);
    UnclockedL(k.p64, r.h64, r.l64);
  }

  // ---------- the split registers as single ones ----------

  /**
   * One step of a shift register whose highest place is `top`: the bit shifted out of it feeds back through the tap.
   */
  function Shifted(v: bv64, top: bv64, p: bv64): bv64 {
    if v & top != 0 then ((v & !top) << 1) ^ p else v << 1
  }

  /** The word of the 33-bit register below the bit parked in the other word. */
  function Wide(s31: bv32, s33: bv32): bv64 {
    ((s31 & 0x80000000) as bv64 << 1) | s33 as bv64
  }

  /** The bits of a word in reverse. */
  function Mirror(w: bv32): bv32 {
    var a := ((w >> 1) & 0x55555555) | ((w & 0x55555555) << 1);
    var b := ((a >> 2) & 0x33333333) | ((a & 0x33333333) << 2);
    var c := ((b >> 4) & 0x0f0f0f0f) | ((b & 0x0f0f0f0f) << 4);
    var d := ((c >> 8) & 0x00ff00ff) | ((c & 0x00ff00ff) << 8);
    (d >> 16) | (d << 16)
  }

  /** Two words end to end. */
  function Ring(m: bv32, l: bv32): bv64 {
    (m as bv64 << 32) | l as bv64
  }

  /** What a register of the single kind holds: its two words, or its word and the bit that was parked. */
  lemma RegistersHold(m: bv32, l: bv32, s31: bv32, s33: bv32)
    ensures Ring(m, l) >> 32 == m as bv64 && Ring(m, l) & 0xffffffff == l as bv64
    ensures Wide(s31, s33) >> 32 == (s31 >> 31) as bv64 && Wide(s31, s33) & 0xffffffff == s33 as bv64
  {
  }

  lemma MirrorBits(w: bv32, i: nat)
    requires i < 32
    ensures (Mirror(w) >> i) & 1 == (w >> (31 - i)) & 1
  {
    if i < 16 {
      MirrorLowBits(w, i);
    } else if i < 24 {
      MirrorHighBits(w, i);
    } else {
      MirrorTopBits(w, i);
    }
  }

  lemma MirrorLowBits(w: bv32, i: nat)
    requires i < 16
    ensures (Mirror(w) >> i) & 1 == (w >> (31 - i)) & 1
  {
    if i == 0 {} else if i == 1 {} else if i == 2 {} else if i == 3 {} else if i == 4 {} else if i == 5 {}
    else if i == 6 {} else if i == 7 {} else if i == 8 {} else if i == 9 {} else if i == 10 {} else if i == 11 {}
    else if i == 12 {} else if i == 13 {} else if i == 14 {} else {}
  }

  lemma MirrorHighBits(w: bv32, i: nat)
    requires 16 <= i < 24
    ensures (Mirror(w) >> i) & 1 == (w >> (31 - i)) & 1
  {
    if i == 16 {} else if i == 17 {} else if i == 18 {} else if i == 19 {} else if i == 20 {} else if i == 21 {}
    else if i == 22 {} else {}
  }

  lemma MirrorTopBits(w: bv32, i: nat)
    requires 24 <= i < 32
    ensures (Mirror(w) >> i) & 1 == (w >> (31 - i)) & 1
  {
    if i == 24 {} else if i == 25 {} else if i == 26 {} else if i == 27 {} else if i == 28 {} else if i == 29 {}
    else if i == 30 {} else {}
  }

  lemma WideFed(s31: bv32, s33: bv32, p: bv32)
    requires s31 & 0x80000000 != 0
    ensures Wide(s33, (s33 << 1) ^ p) == Shifted(Wide(s31, s33), 0x1_0000_0000, p as bv64)
  {
  }

  lemma WidePlain(s31: bv32, s33: bv32, p: bv32)
    requires s31 & 0x80000000 == 0
    ensures Wide(s33, s33 << 1) == Shifted(Wide(s31, s33), 0x1_0000_0000, p as bv64)
  {
  }

  lemma WideParked(v: bv32, w: bv32, s: bv32)
    requires v & 0x80000000 == w & 0x80000000
    ensures Wide(v, s) == Wide(w, s)
  {
  }

  /** Word and parked bit together are one 33-bit shift register. */
  lemma Register33IsOne(p31: bv32, p: bv32, s31: bv32, s33: bv32)
    requires p31 & 0xc0000000 == 0x40000000
    ensures Wide(Clock31(p31, s31, s33), Clock33(p, s31, s33)) == Shifted(Wide(s31, s33), 0x1_0000_0000, p as bv64)
  {
    hide Clock31, Wide, Shifted;
    ParkedBit(p31, s31, s33);
    WideParked(Clock31(p31, s31, s33), s33, Clock33(p, s31, s33));
    if s31 & 0x80000000 != 0 {
      WideFed(s31, s33, p);
    } else {
      WidePlain(s31, s33, p);
    }
  }

  lemma MirrorShift(h: bv32, l: bv32)
    ensures Mirror((h >> 1) | (l & 0x80000000)) == (Mirror(h) << 1) | (l >> 31)
  {
  }

  lemma MirrorTop(h: bv32)
    ensures Mirror(h) & 0x80000000 != 0 <==> h & 1 != 0
  {
  }

  lemma RingFed(m: bv32, l: bv32, p: bv32)
    requires m & 0x80000000 != 0
    ensures Ring((m << 1) | (l >> 31), (l << 1) ^ p) == Shifted(Ring(m, l), 0x8000_0000_0000_0000, p as bv64)
  {
  }

  lemma RingPlain(m: bv32, l: bv32, p: bv32)
    requires m & 0x80000000 == 0
    ensures Ring((m << 1) | (l >> 31), l << 1) == Shifted(Ring(m, l), 0x8000_0000_0000_0000, p as bv64)
  {
  }

  /** The two words that move in opposite directions are one 64-bit shift register, the upper one seen in the mirror. */
  lemma Register64IsOne(p: bv32, h: bv32, l: bv32)
    ensures Ring(Mirror(ClockH(h, l)), ClockL(p, h, l)) == Shifted(Ring(Mirror(h), l), 0x8000_0000_0000_0000, p as bv64)
  {
    hide Mirror, Ring, Shifted;
    MirrorShift(h, l);
    MirrorTop(h);
    if h & 1 != 0 {
      RingFed(Mirror(h), l, p);
    } else {
      RingPlain(Mirror(h), l, p);
    }
  }

  // ---------- whole runs ----------

  ghost function Clocked(k: Taps, r: Regs, n: nat): Regs {
    if n == 0 then r else Clock(k, Clocked(k, r, n - 1))
  }

  /** No register is zero at any clock of any run. */
  lemma {:induction false} RunStaysAlive(k: Taps, r: Regs, n: nat)
    requires GoodTaps(k) && Alive(r)
    ensures Alive(Clocked(k, r, n))
  {
    hide Clock, Alive, GoodTaps;
    if n != 0 {
      RunStaysAlive(k, r, n - 1);
      ClockAlive(k, Clocked(k, r, n - 1));
    }
  }

  /** Runs from different states never merge. */
  lemma {:induction false} RunsNeverMerge(k: Taps, r: Regs, s: Regs, n: nat)
    requires GoodTaps(k) && Clocked(k, r, n) == Clocked(k, s, n)
    ensures r == s
  {
    hide Clock, Unclock, GoodTaps;
    if n != 0 {
      ClockReversible(k, Clocked(k, r, n - 1));
      ClockReversible(k, Clocked(k, s, n - 1));
      RunsNeverMerge(k, r, s, n - 1);
    }
  }

  lemma {:induction false} ClockedSum(k: Taps, r: Regs, m: nat, n: nat)
    ensures Clocked(k, Clocked(k, r, m), n) == Clocked(k, r, m + n)
  {
    hide Clock;
    if n != 0 {
      ClockedSum(k, r, m, n - 1);
    }
  }

  const WORDS: nat := 0x1_0000_0000

  ghost function Number32(w: bv32): (v: nat)
    ensures v < WORDS
  {
    w as nat
  }

  ghost function Pair(a: nat, b: nat): nat {
    a * WORDS + b
  }

  ghost function Number(r: Regs): nat {
    Pair(Pair(Pair(Number32(r.s31), Number32(r.s33)), Number32(r.h64)), Number32(r.l64))
  }

  lemma PairInjective(a: nat, b: nat, c: nat, d: nat)
    requires b < WORDS && d < WORDS && Pair(a, b) == Pair(c, d)
    ensures a == c && b == d
  {
  }

  lemma Number32Injective(v: bv32, w: bv32)
    requires Number32(v) == Number32(w)
    ensures v == w
  {
    assert (v as nat) as bv32 == v && (w as nat) as bv32 == w;
  }

  lemma NumberBound(r: Regs)
    ensures Number(r) < WORDS * WORDS * WORDS * WORDS
  {
  }

  lemma NumberInjective(r: Regs, s: Regs)
    requires Number(r) == Number(s)
    ensures r == s
  {
    hide Pair, Number32;
    var x, y := Pair(Number32(r.s31), Number32(r.s33)), Pair(Number32(s.s31), Number32(s.s33));
    PairInjective(Pair(x, Number32(r.h64)), Number32(r.l64), Pair(y, Number32(s.h64)), Number32(s.l64));
    PairInjective(x, Number32(r.h64), y, Number32(s.h64));
    PairInjective(Number32(r.s31), Number32(r.s33), Number32(s.s31), Number32(s.s33));
    Number32Injective(r.s31, s.s31);
    Number32Injective(r.s33, s.s33);
    Number32Injective(r.h64, s.h64);
    Number32Injective(r.l64, s.l64);
  }

  /** Every run comes back to the state it started from. */
  lemma RunIsCycle(k: Taps, r: Regs) returns (n: nat)
    requires GoodTaps(k)
    ensures 1 <= n && Clocked(k, r, n) == r
  {
    hide Clocked, Number, GoodTaps;
    var size := WORDS * WORDS * WORDS * WORDS;
    var s := seq(size + 1, (i: nat) => Number(Clocked(k, r, i)));
    forall x | x in s
      ensures x in Below(size)
    {
      var i :| 0 <= i < |s| && s[i] == x;
      NumberBound(Clocked(k, r, i));
    }
    var i, j := Pigeonhole(s, Below(size));
    NumberInjective(Clocked(k, r, i), Clocked(k, r, j));
    n := j - i;
    ClockedSum(k, r, n, i);
    RunsNeverMerge(k, r, Clocked(k, r, n), i);
  }

  // ---------- emitting words ----------

  predicate BitsClear(w: bv32, mask: bv32) {
    w & mask == 0
  }

  predicate Stops(k: Taps, r: Regs) {
    BitsClear(r.l64, k.butt)
  }

  /** The loop that clocks the registers ends after `n` clocks at the earliest if no smaller `n` does as well. */
  ghost predicate StopsAt(k: Taps, r: Regs, n: nat) {
    1 <= n && Stops(k, Clocked(k, r, n))
  }

  /** The loop ends at all. */
  ghost predicate Returns(k: Taps, r: Regs) {
    exists n :: StopsAt(k, r, n)
  }

  ghost function FirstStop(k: Taps, r: Regs, from: nat, n: nat): (m: nat)
    requires 1 <= from <= n && StopsAt(k, r, n)
    ensures from <= m && StopsAt(k, r, m)
    ensures forall i: nat | from <= i < m :: !StopsAt(k, r, i)
    decreases n - from
  {
    if StopsAt(k, r, from) then from else FirstStop(k, r, from + 1, n)
  }

  /** How many clocks one word takes. */
  ghost function Clocks(k: Taps, r: Regs): (m: nat)
    requires Returns(k, r)
    ensures StopsAt(k, r, m)
    ensures forall i: nat | 1 <= i < m :: !StopsAt(k, r, i)
  {
    var n :| StopsAt(k, r, n);
    FirstStop(k, r, 1, n)
  }

  ghost function Next(k: Taps, r: Regs): Regs
    requires Returns(k, r)
  {
    Clocked(k, r, Clocks(k, r))
  }

  function Word(r: Regs): bv32 {
    r.s31 ^ r.s33
  }

  /** The word and either of the two registers it is mixed from give the other one. */
  lemma WordMixes(r: Regs)
    ensures Word(r) ^ r.s33 == r.s31 && Word(r) ^ r.s31 == r.s33
  {
  }

  /** Clocking once does not change whether the loop ends. */
  lemma ReturnsAfterClock(k: Taps, r: Regs)
    requires GoodTaps(k)
    ensures Returns(k, Clock(k, r)) <==> Returns(k, r)
  {
    hide Clock, GoodTaps, Stops;
    var s := Clock(k, r);
    assert Clocked(k, r, 1) == s by {
      assert Clocked(k, r, 0) == r;
    }
    if n: nat :| StopsAt(k, s, n) {
      ClockedSum(k, r, 1, n);
      assert StopsAt(k, r, n + 1);
    }
    if n: nat :| StopsAt(k, r, n) {
      if n == 1 {
        var p := RunIsCycle(k, s);
        assert StopsAt(k, s, p);
      } else {
        ClockedSum(k, r, 1, n - 1);
        assert StopsAt(k, s, n - 1);
      }
    }
  }

  /** If the generator emits its first word it goes on emitting words forever, and if not it never emits one. */
  lemma {:induction false} ReturnsAlways(k: Taps, r: Regs, n: nat)
    requires GoodTaps(k)
    ensures Returns(k, Clocked(k, r, n)) <==> Returns(k, r)
  {
    hide Clock, GoodTaps, Returns;
    if n != 0 {
      ReturnsAlways(k, r, n - 1);
      ReturnsAfterClock(k, Clocked(k, r, n - 1));
    }
  }

  /** The first `n` words. */
  ghost function Words(k: Taps, r: Regs, n: nat): (ws: seq<bv32>)
    requires GoodTaps(k) && (0 < n ==> Returns(k, r))
    ensures |ws| == n
    decreases n
  {
    if n == 0 then [] else
      ReturnsAlways(k, r, Clocks(k, r));
      [Word(Next(k, r))] + Words(k, Next(k, r), n - 1)
  }

  /** The state after `n` words. */
  ghost function After(k: Taps, r: Regs, n: nat): (s: Regs)
    requires GoodTaps(k) && (0 < n ==> Returns(k, r))
    ensures 0 < n ==> Returns(k, s)
    decreases n
  {
    if n == 0 then r else
      ReturnsAlways(k, r, Clocks(k, r));
      After(k, Next(k, r), n - 1)
  }

  /** Whether the loop ends depends on the 64-bit register, its tap and the stop bits alone. */
  lemma ReturnsByRegister64(k: Taps, r: Regs, j: Taps, s: Regs)
    requires k.p64 == j.p64 && k.butt == j.butt && r.h64 == s.h64 && r.l64 == s.l64
    ensures Returns(k, r) <==> Returns(j, s)
  {
    hide ClockH, ClockL, Clock31, Clock33, BitsClear;
    forall n: nat
      ensures StopsAt(k, r, n) <==> StopsAt(j, s, n)
    {
      SameRegister64(k, r, j, s, n);
    }
  }

  lemma {:induction false} SameRegister64(k: Taps, r: Regs, j: Taps, s: Regs, n: nat)
    requires k.p64 == j.p64 && r.h64 == s.h64 && r.l64 == s.l64
    ensures Clocked(k, r, n).h64 == Clocked(j, s, n).h64 && Clocked(k, r, n).l64 == Clocked(j, s, n).l64
  {
    hide ClockH, ClockL, Clock31, Clock33;
    if n != 0 {
      SameRegister64(k, r, j, s, n - 1);
    }
  }

  /** The upper half is full, and the lower half is what the clock makes of it. */
  predicate Fixed(k: Taps, r: Regs) {
    r.h64 == 0xffffffff && r.l64 & 0x80000000 != 0 && r.l64 == (r.l64 << 1) ^ k.p64
  }

  lemma {:induction false} FixedStays(k: Taps, r: Regs, n: nat)
    requires Fixed(k, r)
    ensures Clocked(k, r, n).h64 == r.h64 && Clocked(k, r, n).l64 == r.l64
  {
    if n != 0 {
      FixedStays(k, r, n - 1);
    }
  }

  /** A fixed register that does not stop the loop at once never does. */
  lemma FixedHangs(k: Taps, r: Regs)
    requires Fixed(k, r) && !Stops(k, r)
    ensures !Returns(k, r)
  {
    hide Clocked, Fixed, BitsClear;
    if n: nat :| StopsAt(k, r, n) {
      FixedStays(k, r, n);
    }
  }

  /** Keys that meet every guarantee and yet hang the generator: full 64-bit registers under the tap 1. */
  lemma HangingKeyExists() returns (k: Taps, r: Regs)
    ensures GoodTaps(k) && Alive(r) && k.butt != 0 && !Returns(k, r)
  {
    k := Taps(0x40c6e78f, 1, 1, 1);
    r := Regs(1, 1, 0xffffffff, 0xffffffff);
    FixedHangs(k, r);
  }

  // ---------- the signed shift ----------

  /** The clock of the upper half if its shift copied the sign, as an `int` shift does. */
  function SignedClockH(h: bv32, l: bv32): bv32 {
    (h >> 1) | (h & 0x80000000) | (l & 0x80000000)
  }

  /** With the signed shift two different states of the 64-bit register clock to the same state. */
  lemma SignedShiftMerges(p: bv32)
    ensures SignedClockH(0x80000000, 0) == SignedClockH(0x80000000, 0x80000000)
         && ClockL(p, 0x80000000, 0) == ClockL(p, 0x80000000, 0x80000000)
  {
  }

  /** The two shifts agree exactly on upper halves without a sign or with the parked bit set anyway. */
  lemma SignedShiftIff(h: bv32, l: bv32)
    ensures SignedClockH(h, l) == ClockH(h, l) <==> h & 0x80000000 == 0 || l & 0x80000000 != 0
  {
  }
}
