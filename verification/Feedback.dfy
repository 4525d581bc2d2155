/**
 * The bits that the 64-bit register feeds back, and what they say of the loop that waits for clear stop bits: with
 * a single stop bit and a tap of even weight it ends from every register.
 */
module Feedback {
  import opened Basics
  import opened Keystream

  // ---------- sums of bits fed back ----------

  /** The bit fed back at clock `t` of a run. */
  ghost predicate Fed(k: Taps, r: Regs, t: nat) {
    BitOf(Clocked(k, r, t).h64, 0)
  }

  /** The bits from clock `t` on that `a` selects, added modulo 2. */
  ghost function Mix(a: seq<bool>, k: Taps, r: Regs, t: nat): bool {
    if a == [] then false else (a[0] && Fed(k, r, t)) != Mix(a[1..], k, r, t + 1)
  }

  /** An odd number of them are set. */
  predicate Odd(a: seq<bool>) {
    if a == [] then false else a[0] != Odd(a[1..])
  }

  /** Selecting with `a` from what `b` selects. */
  ghost function Twofold(a: seq<bool>, b: seq<bool>, k: Taps, r: Regs, t: nat): bool {
    if a == [] then false else (a[0] && Mix(b, k, r, t)) != Twofold(a[1..], b, k, r, t + 1)
  }

  lemma {:induction false} TwofoldHead(a: seq<bool>, b: seq<bool>, k: Taps, r: Regs, t: nat)
    requires b != []
    ensures Twofold(a, b, k, r, t) == ((b[0] && Mix(a, k, r, t)) != Twofold(a, b[1..], k, r, t + 1))
    decreases |a|
  {
    if a != [] {
      TwofoldHead(a[1..], b, k, r, t + 1);
    }
  }

  lemma {:induction false} TwofoldOfNone(a: seq<bool>, k: Taps, r: Regs, t: nat)
    ensures !Twofold(a, [], k, r, t)
    decreases |a|
  {
    if a != [] {
      TwofoldOfNone(a[1..], k, r, t + 1);
    }
  }

  /** The order of the two selections does not matter. */
  lemma {:induction false} TwofoldSwaps(a: seq<bool>, b: seq<bool>, k: Taps, r: Regs, t: nat)
    ensures Twofold(a, b, k, r, t) == Twofold(b, a, k, r, t)
    decreases |a|
  {
    if a == [] {
      TwofoldOfNone(b, k, r, t);
    } else {
      TwofoldHead(b, a, k, r, t);
      TwofoldSwaps(a[1..], b, k, r, t + 1);
    }
  }

  lemma {:induction false} TwofoldOfConstant(a: seq<bool>, b: seq<bool>, k: Taps, r: Regs, t: nat, c: bool)
    requires forall s: nat :: Mix(b, k, r, s) == c
    ensures Twofold(a, b, k, r, t) == (c && Odd(a))
    decreases |a|
  {
    if a != [] {
      TwofoldOfConstant(a[1..], b, k, r, t + 1, c);
    }
  }

  lemma {:induction false} MixConcat(a: seq<bool>, b: seq<bool>, k: Taps, r: Regs, t: nat)
    ensures Mix(a + b, k, r, t) == (Mix(a, k, r, t) != Mix(b, k, r, t + |a|))
    decreases |a|
  {
    hide Fed;
    if a == [] {
      assert a + b == b;
    } else {
      assert (a + b)[1..] == a[1..] + b;
      MixConcat(a[1..], b, k, r, t + 1);
    }
  }

  lemma {:induction false} OddConcat(a: seq<bool>, b: seq<bool>)
    ensures Odd(a + b) == (Odd(a) != Odd(b))
    decreases |a|
  {
    if a == [] {
      assert a + b == b;
    } else {
      assert (a + b)[1..] == a[1..] + b;
      OddConcat(a[1..], b);
    }
  }

  lemma MixOne(c: bool, k: Taps, r: Regs, t: nat)
    ensures Mix([c], k, r, t) == (c && Fed(k, r, t))
  {
    hide Fed;
    assert [c][1..] == [];
  }

  lemma OddOne(c: bool)
    ensures Odd([c]) == c
  {
    assert [c][1..] == [];
  }

  lemma {:induction false} MixUnset(a: seq<bool>, k: Taps, r: Regs, t: nat)
    requires forall i | 0 <= i < |a| :: !a[i]
    ensures !Mix(a, k, r, t)
    decreases |a|
  {
    hide Fed;
    if a != [] {
      MixUnset(a[1..], k, r, t + 1);
    }
  }

  lemma {:induction false} OddUnset(a: seq<bool>)
    requires forall i | 0 <= i < |a| :: !a[i]
    ensures !Odd(a)
    decreases |a|
  {
    if a != [] {
      OddUnset(a[1..]);
    }
  }

  // ---------- bits of words ----------

  function Power(j: nat): bv32
    requires j < 32
  {
    (1 as bv32) << j
  }

  predicate Meets(w: bv32, m: bv32) {
    Part(w, m) != 0
  }

  predicate BitOf(w: bv32, j: nat)
    requires j < 32
  {
    Meets(w, Power(j))
  }

  ghost function Bits(w: bv32): (a: seq<bool>)
    ensures |a| == 32 && forall j | 0 <= j < 32 :: a[j] == BitOf(w, j)
  {
    seq(32, j requires 0 <= j < 32 => BitOf(w, j))
  }

  predicate AllOrNone(w: bv32, m: bv32) {
    m != 0 && (Part(w, m) == 0 || Part(w, m) == m)
  }

  lemma OneBit(w: bv32, j: nat)
    requires j < 32
    ensures AllOrNone(w, Power(j))
  {
  }

  function Sum(a: bv32, b: bv32): bv32 {
    a ^ b
  }

  function Up(w: bv32): bv32 {
    w << 1
  }

  function Down(w: bv32): bv32 {
    w >> 1
  }

  function Part(w: bv32, m: bv32): bv32 {
    w & m
  }

  lemma PartOfSum(a: bv32, b: bv32, m: bv32)
    ensures Part(Sum(a, b), m) == Sum(Part(a, m), Part(b, m))
  {
  }

  lemma SumLaws(a: bv32, b: bv32)
    ensures Sum(a, b) == Sum(b, a)
    ensures Sum(a, a) == 0 && Sum(a, 0) == a && Sum(0, a) == a
  {
  }

  lemma MeetsSum(a: bv32, b: bv32, m: bv32)
    requires AllOrNone(a, m) && AllOrNone(b, m)
    ensures Meets(Sum(a, b), m) <==> Meets(a, m) != Meets(b, m)
  {
    hide Sum, Part;
    PartOfSum(a, b, m);
    SumLaws(m, m);
    SumLaws(0, 0);
  }

  lemma SumBit(a: bv32, b: bv32, j: nat)
    requires j < 32
    ensures BitOf(Sum(a, b), j) <==> BitOf(a, j) != BitOf(b, j)
  {
    hide Power, Meets, AllOrNone, Sum;
    OneBit(a, j);
    OneBit(b, j);
    MeetsSum(a, b, Power(j));
  }

  predicate TopClear(m: bv32) {
    m & 0x80000000 == 0
  }

  lemma MeetsShifted(w: bv32, m: bv32)
    requires TopClear(m)
    ensures Meets(Up(w), Up(m)) <==> Meets(w, m)
    ensures Meets(Down(w), m) <==> Meets(w, Up(m))
  {
  }

  lemma PowerStep(j: nat)
    requires j < 31
    ensures Power(j + 1) == Up(Power(j)) && TopClear(Power(j))
  {
    if j < 8 {} else if j < 16 {} else if j < 24 {} else {}
  }

  lemma ShiftedBit(w: bv32, j: nat)
    requires j < 31
    ensures BitOf(Up(w), j + 1) <==> BitOf(w, j)
    ensures BitOf(Down(w), j) <==> BitOf(w, j + 1)
  {
    hide Power, Meets, TopClear, Up, Down;
    PowerStep(j);
    MeetsShifted(w, Power(j));
  }

  lemma EndPowers()
    ensures Power(0) == 1 && Power(31) == 0x80000000
  {
  }

  lemma EndParts(w: bv32)
    ensures Part(Up(w), 1) == 0 && Part(Down(w), 0x80000000) == 0
  {
  }

  lemma EndBits(w: bv32)
    ensures !BitOf(Up(w), 0) && !BitOf(Down(w), 31)
    ensures BitOf(w, 0) <==> Part(w, 1) != 0
    ensures BitOf(w, 31) <==> Part(w, 0x80000000) != 0
  {
    hide Power, Part, Up, Down;
    EndPowers();
    EndParts(w);
  }

  // ---------- the bits fed back ----------

  lemma SumOfShifted(p: bv32, l: bv32)
    ensures Sum(Up(l), p) == (l << 1) ^ p
  {
  }

  lemma ClockLRaw(p: bv32, h: bv32, l: bv32)
    requires h & 1 != 0
    ensures ClockL(p, h, l) == (l << 1) ^ p
  {
  }

  lemma FedBit(p: bv32, h: bv32, l: bv32, j: nat)
    requires j < 32 && BitOf(h, 0)
    ensures BitOf(ClockL(p, h, l), j) <==> BitOf(Up(l), j) != BitOf(p, j)
  {
    hide *;
    LowestBitIs(h);
    ClockLRaw(p, h, l);
    SumOfShifted(p, l);
    SumBit(Up(l), p, j);
  }

  lemma LowestBitIs(w: bv32)
    ensures BitOf(w, 0) <==> w & 1 != 0
  {
    hide BitOf;
    EndBits(w);
  }

  lemma ClockLPlain(p: bv32, h: bv32, l: bv32)
    requires !BitOf(h, 0)
    ensures ClockL(p, h, l) == Up(l)
  {
    hide BitOf;
    LowestBitIs(h);
  }

  function TopOf(w: bv32): bv32 {
    w & 0x80000000
  }

  lemma ClockHIs(h: bv32, l: bv32)
    ensures ClockH(h, l) == Sum(Down(h), TopOf(l))
  {
  }

  lemma TopBits(w: bv32, j: nat)
    requires j < 32
    ensures BitOf(TopOf(w), j) <==> j == 31 && BitOf(w, 31)
  {
    if j < 31 {
      PowerStep(j);
    }
  }

  lemma LowerBit(p: bv32, h: bv32, l: bv32, j: nat)
    requires j < 32
    ensures BitOf(ClockL(p, h, l), j) <==> (0 < j && BitOf(l, j - 1)) != (BitOf(p, j) && BitOf(h, 0))
  {
    hide BitOf, ClockL, Up, Part;
    EndBits(l);
    if BitOf(h, 0) {
      FedBit(p, h, l, j);
    } else {
      ClockLPlain(p, h, l);
    }
    if 0 < j {
      ShiftedBit(l, j - 1);
    }
  }

  lemma UpperBit(h: bv32, l: bv32, j: nat)
    requires j < 32
    ensures BitOf(ClockH(h, l), j) <==> if j == 31 then BitOf(l, 31) else BitOf(h, j + 1)
  {
    hide BitOf, ClockH, Sum, Down, TopOf;
    ClockHIs(h, l);
    SumBit(Down(h), TopOf(l), j);
    TopBits(l, j);
    if j == 31 {
      EndBits(h);
    } else {
      ShiftedBit(h, j);
    }
  }

  lemma NextClock(k: Taps, r: Regs, t: nat)
    ensures var s := Clocked(k, r, t);
            && Clocked(k, r, t + 1).l64 == ClockL(k.p64, s.h64, s.l64)
            && Clocked(k, r, t + 1).h64 == ClockH(s.h64, s.l64)
  {
    hide ClockL, ClockH, Clock31, Clock33;
  }

  /** A bit of the lower half is a sum of bits fed back, as the tap selects them. */
  lemma {:induction false} LowerIsMix(k: Taps, r: Regs, t: nat, j: nat)
    requires j < 32
    ensures BitOf(Clocked(k, r, t + j + 1).l64, j) <==> Mix(Bits(k.p64)[..j + 1], k, r, t)
    decreases j
  {
    hide BitOf, ClockL, ClockH, Clocked, Mix;
    var a := Bits(k.p64);
    var s := Clocked(k, r, t + j);
    NextClock(k, r, t + j);
    LowerBit(k.p64, s.h64, s.l64, j);
    assert a[..j + 1] == a[..j] + [a[j]];
    MixConcat(a[..j], [a[j]], k, r, t);
    MixOne(a[j], k, r, t + j);
    if j == 0 {
      MixNone(k, r, t);
    } else {
      LowerIsMix(k, r, t, j - 1);
    }
  }

  lemma MixNone(k: Taps, r: Regs, t: nat)
    ensures !Mix([], k, r, t)
  {
  }

  /** The upper half holds the bits that will be fed back next. */
  lemma {:induction false} UpperIsFed(k: Taps, r: Regs, t: nat, j: nat)
    requires j < 32
    ensures Fed(k, r, t + j) <==> BitOf(Clocked(k, r, t).h64, j)
    decreases j
  {
    hide BitOf, ClockL, ClockH, Clocked;
    if 0 < j {
      UpperIsFed(k, r, t + 1, j - 1);
      NextClock(k, r, t);
      var s := Clocked(k, r, t);
      UpperBit(s.h64, s.l64, j - 1);
    }
  }

  lemma TopMovesUp(k: Taps, r: Regs, t: nat)
    ensures Fed(k, r, t + 32) <==> BitOf(Clocked(k, r, t).l64, 31)
  {
    hide BitOf, ClockL, ClockH, Clocked, Fed;
    UpperIsFed(k, r, t + 1, 31);
    NextClock(k, r, t);
    var s := Clocked(k, r, t);
    UpperBit(s.h64, s.l64, 31);
  }

  /** What every run satisfies: 64 clocks later the sum that the tap selects is fed back. */
  ghost function Recurrence(p: bv32): seq<bool> {
    Bits(p) + (Copies(false, 32) + [true])
  }

  lemma FedRecurs(k: Taps, r: Regs, t: nat)
    ensures !Mix(Recurrence(k.p64), k, r, t)
  {
    hide BitOf, Clocked, Fed, Mix;
    var a := Bits(k.p64);
    MixConcat(a, Copies(false, 32) + [true], k, r, t);
    MixConcat(Copies(false, 32), [true], k, r, t + 32);
    MixUnset(Copies(false, 32), k, r, t + 32);
    MixOne(true, k, r, t + 64);
    LowerIsMix(k, r, t, 31);
    assert a[..32] == a;
    TopMovesUp(k, r, t + 32);
  }

  lemma WeightOfRecurrence(p: bv32)
    ensures Odd(Recurrence(p)) <==> !Odd(Bits(p))
  {
    hide BitOf, Odd;
    OddConcat(Bits(p), Copies(false, 32) + [true]);
    OddConcat(Copies(false, 32), [true]);
    OddUnset(Copies(false, 32));
    OddOne(true);
  }

  lemma StopsByBit(k: Taps, r: Regs, b: nat)
    requires b < 32 && k.butt == Power(b)
    ensures Stops(k, r) <==> !BitOf(r.l64, b)
  {
  }

  /** With a single stop bit and a tap of even weight the loop ends, whatever the registers. */
  lemma EvenTapReturns(k: Taps, r: Regs, b: nat)
    requires b < 32 && k.butt == Power(b) && !Odd(Bits(k.p64))
    ensures Returns(k, r)
  {
    hide Power, Clocked, Recurrence, Bits, BitOf, Stops, Mix, Odd, Twofold;
    if !Returns(k, r) {
      var a, f := Bits(k.p64)[..b + 1], Recurrence(k.p64);
      forall s: nat
        ensures Mix(a, k, r, s) && !Mix(f, k, r, s)
      {
        assert !StopsAt(k, r, s + b + 1);
        StopsByBit(k, Clocked(k, r, s + b + 1), b);
        LowerIsMix(k, r, s, b);
        FedRecurs(k, r, s);
      }
      TwofoldOfConstant(f, a, k, r, 0, true);
      TwofoldOfConstant(a, f, k, r, 0, false);
      TwofoldSwaps(a, f, k, r, 0);
      WeightOfRecurrence(k.p64);
      assert false;
    }
  }

  // ---------- taps of odd weight ----------

  /** After 32 steps each bit is the sum of those of `p` up to it. */
  ghost function Folded(p: bv32, n: nat): bv32 {
    if n == 0 then 0 else Sum(Up(Folded(p, n - 1)), p)
  }

  ghost function Ups(w: bv32, n: nat): bv32 {
    if n == 0 then w else Up(Ups(w, n - 1))
  }

  lemma UpOfSum(a: bv32, b: bv32)
    ensures Up(Sum(a, b)) == Sum(Up(a), Up(b)) && Up(0) == 0
  {
  }

  lemma SameSum(a: bv32, b: bv32, p: bv32)
    ensures Sum(Sum(a, p), Sum(b, p)) == Sum(a, b)
    ensures Sum(a, b) == 0 ==> a == b
  {
  }

  lemma {:induction false} FoldedGap(p: bv32, n: nat)
    ensures Sum(Folded(p, n + 1), Folded(p, n)) == Ups(p, n)
  {
    hide Sum, Up;
    assert Folded(p, n + 1) == Sum(Up(Folded(p, n)), p);
    if n == 0 {
      UpOfSum(0, 0);
      SumLaws(p, 0);
    } else {
      var a, b := Folded(p, n), Folded(p, n - 1);
      FoldedGap(p, n - 1);
      UpOfSum(a, b);
      SameSum(Up(a), Up(b), p);
    }
  }

  function Shift8(w: bv32): bv32 {
    w << 8
  }

  lemma EightUps(w: bv32)
    ensures Up(Up(Up(Up(Up(Up(Up(Up(w)))))))) == Shift8(w)
  {
  }

  lemma FourUps(w: bv32, n: nat)
    ensures Ups(w, n + 4) == Up(Up(Up(Up(Ups(w, n)))))
  {
    hide Up;
    assert Ups(w, n + 2) == Up(Up(Ups(w, n)));
  }

  lemma UpsByEight(w: bv32, n: nat)
    ensures Ups(w, n + 8) == Shift8(Ups(w, n))
  {
    hide Up, Ups, Shift8;
    EightUps(Ups(w, n));
    FourUps(w, n);
    FourUps(w, n + 4);
  }

  lemma ShiftedOut(w: bv32)
    ensures Shift8(Shift8(Shift8(Shift8(w)))) == 0
  {
  }

  lemma FoldedIsFixed(p: bv32)
    ensures Folded(p, 32) == Sum(Up(Folded(p, 32)), p)
  {
    hide Sum, Up, Ups, Shift8;
    FoldedGap(p, 32);
    UpsByEight(p, 0);
    UpsByEight(p, 8);
    UpsByEight(p, 16);
    UpsByEight(p, 24);
    ShiftedOut(Ups(p, 0));
    SameSum(Folded(p, 33), Folded(p, 32), 0);
    assert Folded(p, 33) == Sum(Up(Folded(p, 32)), p);
  }

  lemma {:induction false} FoldedBit(l: bv32, p: bv32, j: nat)
    requires j < 32 && l == Sum(Up(l), p)
    ensures BitOf(l, j) <==> Odd(Bits(p)[..j + 1])
    decreases j
  {
    hide BitOf, Sum, Up, Odd;
    var a := Bits(p);
    EndBits(l);
    SumBit(Up(l), p, j);
    assert a[..j + 1] == a[..j] + [a[j]];
    OddConcat(a[..j], [a[j]]);
    OddOne(a[j]);
    if j == 0 {
      OddUnset([]);
    } else {
      ShiftedBit(l, j - 1);
      FoldedBit(l, p, j - 1);
    }
  }

  lemma FixedBySum(k: Taps, r: Regs)
    requires r.h64 == 0xffffffff && BitOf(r.l64, 31) && r.l64 == Sum(Up(r.l64), k.p64)
    ensures Fixed(k, r)
  {
    hide BitOf;
    EndBits(r.l64);
  }

  /** A tap of odd weight whose weight up to the stop bit is odd as well leaves a register for which it never ends. */
  lemma OddTapHangs(k: Taps, r: Regs, b: nat)
    requires b < 32 && k.butt == Power(b) && Odd(Bits(k.p64)) && Odd(Bits(k.p64)[..b + 1])
    requires r.h64 == 0xffffffff && r.l64 == Folded(k.p64, 32)
    ensures !Returns(k, r)
  {
    hide Folded, Bits, BitOf, Power, Odd, Returns, Fixed, Stops, Sum, Up;
    FoldedIsFixed(k.p64);
    FoldedBit(r.l64, k.p64, b);
    FoldedBit(r.l64, k.p64, 31);
    assert Bits(k.p64)[..32] == Bits(k.p64);
    FixedBySum(k, r);
    StopsByBit(k, r, b);
    FixedHangs(k, r);
  }

  /** With the lowest bit as the only stop bit the loop ends for all registers exactly if the tap has an even weight. */
  lemma LowestStopBitIff(k: Taps)
    requires GoodTaps(k) && k.butt == 1
    ensures (forall r :: Returns(k, r)) <==> !Odd(Bits(k.p64))
  {
    hide Returns, BitOf, Power, Odd, Folded;
    LowestBit(k);
    EndPowers();
    if Odd(Bits(k.p64)) {
      var r := Regs(1, 1, 0xffffffff, Folded(k.p64, 32));
      assert Bits(k.p64)[..1] == [Bits(k.p64)[0]];
      OddOne(true);
      OddTapHangs(k, r, 0);
    } else {
      forall r
        ensures Returns(k, r)
      {
        EvenTapReturns(k, r, 0);
      }
    }
  }

  lemma LowestBit(k: Taps)
    requires GoodTaps(k)
    ensures BitOf(k.p64, 0)
  {
    hide BitOf;
    EndBits(k.p64);
  }
}
