/** The self-decrypting archive: key set-up, the cipher, and encryption and decryption end to end. */
module Sda {
  import opened Basics
  import opened Buffers
  import opened BitPacking
  import opened Base64Form
  import opened FormLayout
  import opened FormReading
  import opened Keystream
  import Md5

  // ---------- key set-up ----------

  const POLYNOMIALS31: seq<bv32> :=
    [0x40c6e78f, 0x44ea7b19, 0x45da25ce, 0x470c368e, 0x4920f4c1, 0x4a2fb865]
    + [0x4b641875, 0x4d474412, 0x4c175700, 0x4e880047, 0x50a5894c, 0x51ae3883]
    + [0x531df126, 0x563e62e8, 0x586801c2, 0x5bef4706, 0x5c14c48a, 0x5d06e2a7]
    + [0x5f2f8a72, 0x623311d9, 0x65616f52, 0x668043b4, 0x672161c9, 0x67f0a6a8]
    + [0x6814750f, 0x6c4920c3, 0x6dca541b, 0x6e97e1ed, 0x70963ac8, 0x72de5f24]
    + [0x7411688a, 0x7502196b, 0x76202331, 0x7887a9e1, 0x790621f4, 0x7e79deae]
    + [0x7faca450]

  function Polynomial(i: nat): bv32
    requires i < 37
  {
    POLYNOMIALS31[i]
  }

  function Half(w: bv32): nat {
    (w >> 1) as nat
  }

  /** Only the first 31 of the table's entries can be chosen. */
  function Chosen(w: bv32): (i: nat)
    ensures i < 31
  {
    Half(w) % 31
  }

  /**
   * The index if the word were an `int`: a signed shift takes 2^31 off the half of a word with a sign, and the
   * remainder of a negative number is not positive.
   */
  function SignedIndex(w: bv32): int {
    if Md5.HasSign(w) then -((0x8000_0000 - Half(w)) % 31) else Half(w) % 31
  }

  /** That would never choose the same tap for a word with a sign, and mostly lie before the table. */
  lemma SignedIndexIff(w: bv32)
    ensures SignedIndex(w) == Chosen(w) <==> !Md5.HasSign(w)
    ensures SignedIndex(w) < 0 <==> Md5.HasSign(w) && Half(w) % 31 != 2
  {
    hide Half, Md5.HasSign;
    var q, c := Half(w) / 31, Half(w) % 31;
    assert 0x8000_0000 - Half(w) == 31 * (69273666 - q) + 2 - c;
  }

  function Bit(n: bv32): bv32
    requires n < 32
  {
    (1 as bv32) << n
  }

  /** The digest of the passphrase. */
  function PassDigest(p: seq<bv8>): Md5.State {
    Md5.Digest(Md5.Binl(p), 8 * |p|)
  }

  function Xor(x: bv32, y: bv32): bv32 {
    x ^ y
  }

  function Xored(s: Md5.State, t: Md5.State): Md5.State {
    Md5.State(Xor(s.a, t.a), Xor(s.b, t.b), Xor(s.c, t.c), Xor(s.d, t.d))
  }

  /**
   * The digest of that digest, mixed with one of the array that still holds the padded passphrase, cut at half its
   * length.
   */
  function TapDigest(p: seq<bv8>): Md5.State {
    Xored(Md5.Digest(Md5.Listed(PassDigest(p)), 128),
          Md5.Digest(Md5.WithPadding(Md5.Binl(p), 8 * |p|), 4 * |p|))
  }

  /** Registers that would be zero are increased by one. */
  function Woken31(w: bv32): bv32 {
    if w & 0x7fffffff == 0 then w + 1 else w
  }

  function Woken33(w: bv32): bv32 {
    if w == 0 then w + 1 else w
  }

  function Woken64(h: bv32, l: bv32): bv32 {
    if h == 0 && l == 0 then l + 1 else l
  }

  function StopBits(w: bv32): bv32 {
    Bit(w & 0x1f) | Bit((w >> 8) & 0x1f)
  }

  function Odd(w: bv32): bv32 {
    w | 1
  }

  function StartRegs(s: Md5.State): Regs {
    Regs(Woken31(s.a), Woken33(s.b), s.c, Woken64(s.c, s.d))
  }

  function StartTaps(t: Md5.State): Taps {
    Taps(Polynomial(Chosen(t.a)), Odd(t.b), Odd(t.c), StopBits(t.d))
  }

  function KeyRegs(p: seq<bv8>): Regs {
    StartRegs(PassDigest(p))
  }

  function KeyTaps(p: seq<bv8>): Taps {
    StartTaps(TapDigest(p))
  }

  /** A bit of the stop mask is set exactly if the first or the second byte of its word points to it. */
  lemma StopBitIff(w: bv32, n: bv32)
    requires n < 32
    ensures StopBits(w) & ((1 as bv32) << n) != 0 <==> n == w & 0x1f || n == (w & 0x1f00) >> 8
  {
  }

  /**
   * The registers are the words of the digest in their order; a word of which the register would be zero is increased
   * by one.
   */
  lemma RegistersOfDigest(p: seq<bv8>)
    ensures var d, r := Md5.Listed(PassDigest(p)), KeyRegs(p);
            && r.s31 == (if d[0] & 0x7fffffff == 0 then d[0] + 1 else d[0])
            && r.s33 == (if d[1] == 0 then 1 else d[1])
            && r.h64 == d[2] && r.l64 == (if d[2] == 0 && d[3] == 0 then 1 else d[3])
  {
    hide PassDigest;
  }

  /** The taps: the first word chooses one, the next two are taken with their lowest bit set, and the stop bits. */
  lemma TapsOfDigest(p: seq<bv8>)
    ensures var t, k := Md5.Listed(TapDigest(p)), KeyTaps(p);
            && k.p31 == POLYNOMIALS31[((t[0] >> 1) as nat) % 31]
            && (k.p33 ^ t[1]) & 0xfffffffe == 0 && k.p33 & 1 == 1
            && (k.p64 ^ t[2]) & 0xfffffffe == 0 && k.p64 & 1 == 1
            && k.butt == StopBits(t[3])
  {
    hide TapDigest, StopBits;
    OddIs(Md5.Listed(TapDigest(p))[1]);
    OddIs(Md5.Listed(TapDigest(p))[2]);
    hide Odd;
  }

  lemma OddIs(w: bv32)
    ensures (Odd(w) ^ w) & 0xfffffffe == 0 && Odd(w) & 1 == 1
  {
  }

  /** The digest of the passphrase is its MD5 digest, as long as its bit length fits one word. */
  lemma PassDigestIsMd5(p: seq<bv8>)
    requires 8 * |p| < 0x1_0000_0000
    ensures PassDigest(p) == Md5.Folded(Md5.INITIAL, Md5.RfcPadded(p), 0)
  {
    hide Md5.Digest, Md5.Folded, Md5.RfcPadded, Md5.Binl;
    Md5.DigestIsStandard(p);
  }

  /** Mixed with the digest of the digest, the tap words are the digest of the padded array cut at half its length. */
  lemma TapWordsMix(p: seq<bv8>, i: nat)
    requires i < 4
    ensures Md5.Listed(TapDigest(p))[i] ^ Md5.Listed(Md5.Digest(Md5.Listed(PassDigest(p)), 128))[i]
         == Md5.Listed(Md5.Digest(Md5.WithPadding(Md5.Binl(p), 8 * |p|), 4 * |p|))[i]
  {
    hide Md5.Digest, Md5.WithPadding, Md5.Binl, PassDigest, Xor, Xored, Md5.Listed;
    var s := Md5.Digest(Md5.Listed(PassDigest(p)), 128);
    var t := Md5.Digest(Md5.WithPadding(Md5.Binl(p), 8 * |p|), 4 * |p|);
    XoredWords(s, t, i);
    XorBack(Md5.Listed(s)[i], Md5.Listed(t)[i]);
  }

  lemma XoredWords(s: Md5.State, t: Md5.State, i: nat)
    requires i < 4
    ensures Md5.Listed(Xored(s, t))[i] == Xor(Md5.Listed(s)[i], Md5.Listed(t)[i])
  {
    hide Xor;
  }

  lemma XorBack(x: bv32, y: bv32)
    ensures Xor(x, y) ^ x == y
  {
  }

  lemma PolynomialsAreGood(i: nat)
    requires i < 37
    ensures Polynomial(i) & 0xc0000000 == 0x40000000
  {
    var row, col := i / 6, i % 6;
    assert i == 6 * row + col;
    if row == 0 {} else if row == 1 {} else if row == 2 {} else if row == 3 {} else if row == 4 {}
    else if row == 5 {} else {}
  }

  lemma ForcedOdd(w: bv32)
    ensures Odd(w) & 1 == 1
  {
  }

  lemma StartTapsGood(t: Md5.State)
    ensures GoodTaps(StartTaps(t))
  {
    hide Polynomial, StopBits, Chosen, Odd;
    PolynomialsAreGood(Chosen(t.a));
    ForcedOdd(t.b);
    ForcedOdd(t.c);
  }

  lemma StartRegsAlive(s: Md5.State)
    ensures Alive(StartRegs(s))
  {
  }

  /** Whatever the passphrase, the generator starts in good order, and so never loses a register in any run. */
  lemma KeyIsGood(p: seq<bv8>, n: nat)
    ensures GoodTaps(KeyTaps(p)) && Alive(Clocked(KeyTaps(p), KeyRegs(p), n))
    ensures var r := Clocked(KeyTaps(p), KeyRegs(p), n);
            r.s31 & 0x7fffffff != 0 && (r.s33 != 0 || r.s31 & 0x80000000 != 0) && (r.h64 != 0 || r.l64 != 0)
  {
    hide StartTaps, StartRegs, PassDigest, TapDigest, GoodTaps;
    StartTapsGood(TapDigest(p));
    StartRegsAlive(PassDigest(p));
    RunStaysAlive(KeyTaps(p), KeyRegs(p), n);
  }

  // ---------- the cipher ----------

  /** Words mixed with as many keystream words. */
  function Masked(ws: seq<bv32>, ks: seq<bv32>): (r: seq<bv32>)
    requires |ws| == |ks|
    ensures |r| == |ws|
  {
    seq(|ws|, i requires 0 <= i < |ws| => Xor(ws[i], ks[i]))
  }

  method XorArray(a: WordArray, b: WordArray) returns (c: WordArray)
    requires a.Valid() && b.Valid() && a.used == b.used
    ensures fresh(c) && fresh(c.elem)
    ensures c.Valid() && c.Contents() == Masked(a.Contents(), b.Contents())
  {
    hide Xor;
    c := new WordArray(a.used);
    for i := 0 to a.used
      invariant fresh(c.elem) && c.Valid() && |c.Contents()| == i && (0 < a.used ==> 0 < c.elem.Length)
      invariant forall k | 0 <= k < i :: c.Contents()[k] == Xor(a.elem[k], b.elem[k])
    {
      c.Insert(Xor(a.elem[i], b.elem[i]));
    }
  }

  lemma ListedXor(s: Md5.State, t: Md5.State)
    ensures Masked(Md5.Listed(s), Md5.Listed(t)) == Md5.Listed(Xored(s, t))
  {
    hide Xor;
  }

  lemma TapSchedule(p: seq<bv8>)
    ensures Masked(Md5.Listed(Md5.Digest(Md5.Listed(PassDigest(p)), 128)),
                   Md5.Listed(Md5.Digest(Md5.WithPadding(Md5.Binl(p), 8 * |p|), 4 * |p|)))
         == Md5.Listed(TapDigest(p))
  {
    hide Masked, Md5.Listed, Md5.Digest, Md5.WithPadding, Md5.Binl, PassDigest, Xored;
    ListedXor(Md5.Digest(Md5.Listed(PassDigest(p)), 128),
              Md5.Digest(Md5.WithPadding(Md5.Binl(p), 8 * |p|), 4 * |p|));
  }

  /** The three digests of the key set-up; the first and the last are taken of the same array, padded in place. */
  method KeySchedule(passphr: seq<bv8>) returns (pnState: seq<bv32>, polynom: seq<bv32>)
    ensures pnState == Md5.Listed(PassDigest(passphr)) && polynom == Md5.Listed(TapDigest(passphr))
  {
    hide Md5.Listed, Md5.Digest, Md5.WithPadding, Md5.Binl, Masked, TapDigest;
    TapSchedule(passphr);
    var bin := Md5.Str2Binl(passphr);
    var pn := Md5.CoreMd5(bin, 8 * |passphr|);
    pnState := pn.Contents();
    var a := Md5.CoreMd5(pn, 0x80);
    var b := Md5.CoreMd5(bin, 8 * |passphr| / 2);
    assert a.used == |a.Contents()| == 4 && b.used == |b.Contents()| == 4;
    var x := XorArray(a, b);
    polynom := x.Contents();
  }

  class Sda {
    var state31: bv32
    var polynom31: bv32
    var state33: bv32
    var polynom33: bv32
    var state64H: bv32
    var state64L: bv32
    var polynom64: bv32
    var butt: bv32
    var buf: ByteBuffer

    function Regs(): Keystream.Regs
      reads this
    {
      Keystream.Regs(state31, state33, state64H, state64L)
    }

    function Taps(): Keystream.Taps
      reads this
    {
      Keystream.Taps(polynom31, polynom33, polynom64, butt)
    }

    /** Derives registers and taps from the passphrase. */
    constructor Init(passphr: seq<bv8>)
      ensures fresh(buf) && fresh(buf.str) && buf.Valid() && buf.Contents() == []
      ensures Regs() == KeyRegs(passphr) && Taps() == KeyTaps(passphr)
    {
      hide Polynomial, StopBits, Chosen, Odd, Woken31, Woken33, Woken64, PassDigest, TapDigest;
      buf := new ByteBuffer(256);
      var pn, x := KeySchedule(passphr);
      state31 := Woken31(pn[0]);
      state33 := Woken33(pn[1]);
      state64H := pn[2];
      state64L := Woken64(pn[2], pn[3]);
      polynom31 := Polynomial(Chosen(x[0]));
      polynom33 := Odd(x[1]);
      polynom64 := Odd(x[2]);
      butt := StopBits(x[3]);
    }

    method ShiftLow(low: bv32) returns (s: bv32)
      ensures s == ClockLow(polynom31, low)
    {
      if low & 1 != 0 {
        s := (low >> 1) ^ polynom31;
      } else {
        s := low >> 1;
      }
    }

    method ParkBit(s: bv32, bit: bool) returns (r: bv32)
      ensures r == Park(s, bit)
    {
      r := s;
      if bit {
        r := r | 0x80000000;
      }
    }

    /** The 31-bit register moves right; the top bit of its word takes the top bit of the 33-bit one. */
    method Clock31Once()
      modifies `state31
      ensures state31 == Clock31(polynom31, old(state31), state33)
    {
      hide ClockLow, Park;
      var s := ShiftLow(state31 & 0x7fffffff);
      state31 := ParkBit(s, state33 & 0x80000000 != 0);
    }

    /** The 33-bit register moves left; `msb` is the bit that was parked. */
    method Clock33Once(msb: bv32)
      modifies `state33
      ensures state33 == if msb != 0 then (old(state33) << 1) ^ polynom33 else old(state33) << 1
    {
      if msb != 0 {
        state33 := (state33 << 1) ^ polynom33;
      } else {
        state33 := state33 << 1;
      }
    }

    /** The 64-bit register: its upper half moves right, its lower half left. */
    method Clock64Once()
      modifies `state64H, `state64L
      ensures state64H == ClockH(old(state64H), old(state64L))
      ensures state64L == ClockL(polynom64, old(state64H), old(state64L))
    {
      var msb := state64H & 1;
      state64H := (state64H >> 1) | (state64L & 0x80000000);
      if msb != 0 {
        state64L := (state64L << 1) ^ polynom64;
      } else {
        state64L := state64L << 1;
      }
    }

    /** One clock of the three registers. */
    method ClockOnce()
      modifies `state31, `state33, `state64H, `state64L
      ensures Regs() == Clock(old(Taps()), old(Regs()))
    {
      hide Clock31, ClockH, ClockL;
      var msb := state31 & 0x80000000;
      Clock31Once();
      Clock33Once(msb);
      Clock64Once();
    }

    method StopsNow() returns (stop: bool)
      ensures stop == Stops(Taps(), Regs())
    {
      hide BitsClear;
      stop := BitsClear(state64L, butt);
    }

    method CurrentWord() returns (w: bv32)
      ensures w == Word(Regs())
    {
      w := state31 ^ state33;
    }

    /** The next keystream word: clocks until the stop bits are clear. */
    method Pn() returns (w: bv32)
      requires GoodTaps(Taps()) && Returns(Taps(), Regs())
      modifies `state31, `state33, `state64H, `state64L
      ensures Regs() == Next(old(Taps()), old(Regs())) && w == Word(Regs())
      ensures w ^ state33 == state31
    {
      hide Clock, GoodTaps, Stops, Word;
      ghost var k, r, n := Taps(), Regs(), 0;
      while true
        invariant Taps() == k && Regs() == Clocked(k, r, n) && n < Clocks(k, r)
        decreases Clocks(k, r) - n
      {
        ClockOnce();
        n := n + 1;
        var stop := StopsNow();
        if stop {
          assert StopsAt(k, r, n);
          break;
        }
      }
      w := CurrentWord();
      WordMixes(Regs());
    }

    /** Mixes one word with the next keystream word. */
    method CryptWord(ina: WordArray, i: nat, ota: WordArray)
      requires ina.Valid() && i < ina.used && GoodTaps(Taps()) && Returns(Taps(), Regs())
      requires ota.Valid() && 0 < ota.elem.Length && ota != ina && ota.elem != ina.elem
      modifies `state31, `state33, `state64H, `state64L, ota, ota.elem
      ensures ina.Valid() && ina.Contents() == old(ina.Contents())
      ensures ota.Valid() && 0 < ota.elem.Length && (ota.elem == old(ota.elem) || fresh(ota.elem))
      ensures Taps() == old(Taps()) && Regs() == Next(old(Taps()), old(Regs()))
      ensures ota.Contents()
           == old(ota.Contents()) + [Xor(old(ina.Contents()[i]), Word(Next(old(Taps()), old(Regs()))))]
    {
      hide GoodTaps, Next, Returns, Xor, Word;
      var w := ina.elem[i];
      var p := Pn();
      ota.Insert(Xor(w, p));
    }

    /** Mixes every word of an array with the next keystream word. */
    method Crypt(ina: WordArray) returns (ota: WordArray)
      requires ina.Valid() && GoodTaps(Taps()) && (0 < ina.used ==> Returns(Taps(), Regs()))
      modifies `state31, `state33, `state64H, `state64L
      ensures fresh(ota) && fresh(ota.elem)
      ensures ota.Valid() && ota.Contents() == Masked(ina.Contents(), Words(old(Taps()), old(Regs()), ina.used))
      ensures Regs() == After(old(Taps()), old(Regs()), ina.used)
    {
      hide GoodTaps, Next, Returns, Xor, Words, After, Masked, Word, MaskedFrom, Mixing;
      ghost var k, r, ws, done := Taps(), Regs(), ina.Contents(), [];
      ghost var now := r;
      var count := ina.used;
      ota := new WordArray(count);
      NothingMixed(ws, k, r);
      for i := 0 to count
        invariant ina.Valid() && ina.Contents() == ws && Taps() == k && Regs() == now && fresh(ota.elem)
        invariant ota.Valid() && ota.Contents() == done && (0 < count ==> 0 < ota.elem.Length)
        invariant Mixing(ws, i, k, r, now, done)
      {
        MixNext(ws, i, k, r, now, done);
        CryptWord(ina, i, ota);
        now := Next(k, now);
        done := done + [Xor(ws[i], Word(now))];
      }
      AllMixed(ws, k, r, now, done);
    }
  }

  /** Before word `i` the generator is at `now`, and the words before it have become `done`. */
  ghost predicate Mixing(ws: seq<bv32>, i: nat, k: Keystream.Taps, r: Keystream.Regs, now: Keystream.Regs,
      done: seq<bv32>)
    requires i <= |ws| && GoodTaps(k) && (0 < |ws| ==> Returns(k, r))
  {
    && (i < |ws| ==> Returns(k, now))
    && After(k, r, |ws|) == After(k, now, |ws| - i)
    && Masked(ws, Words(k, r, |ws|)) == done + MaskedFrom(ws, i, k, now)
  }

  lemma NothingMixed(ws: seq<bv32>, k: Keystream.Taps, r: Keystream.Regs)
    requires GoodTaps(k) && (0 < |ws| ==> Returns(k, r))
    ensures Mixing(ws, 0, k, r, r, [])
  {
    hide GoodTaps, Words, Returns, Masked;
    MaskedAll(ws, k, r);
  }

  lemma MixNext(ws: seq<bv32>, i: nat, k: Keystream.Taps, r: Keystream.Regs, now: Keystream.Regs, done: seq<bv32>)
    requires i < |ws| && GoodTaps(k) && Returns(k, r) && Mixing(ws, i, k, r, now, done)
    ensures Returns(k, now) && Mixing(ws, i + 1, k, r, Next(k, now), done + [Xor(ws[i], Word(Next(k, now)))])
  {
    hide GoodTaps, Xor, Word, Words, Returns, Next, After, Masked, MaskedFrom;
    MaskedNext(ws, i, k, now);
  }

  lemma AllMixed(ws: seq<bv32>, k: Keystream.Taps, r: Keystream.Regs, now: Keystream.Regs, done: seq<bv32>)
    requires GoodTaps(k) && (0 < |ws| ==> Returns(k, r)) && Mixing(ws, |ws|, k, r, now, done)
    ensures Masked(ws, Words(k, r, |ws|)) == done && After(k, r, |ws|) == now
  {
    hide GoodTaps, Words, Returns, After, Masked, MaskedFrom;
    NoMoreWords(ws, k, now);
  }

  /** Words mixed with the keystream, from word `i` on, where the generator is at `r`. */
  ghost function MaskedFrom(ws: seq<bv32>, i: nat, k: Keystream.Taps, r: Keystream.Regs): seq<bv32>
    requires i <= |ws| && GoodTaps(k) && (i < |ws| ==> Returns(k, r))
  {
    Masked(ws[i..], Words(k, r, |ws| - i))
  }

  lemma MaskedAll(ws: seq<bv32>, k: Keystream.Taps, r: Keystream.Regs)
    requires GoodTaps(k) && (0 < |ws| ==> Returns(k, r))
    ensures MaskedFrom(ws, 0, k, r) == Masked(ws, Words(k, r, |ws|))
  {
    hide GoodTaps, Words, Returns, Masked;
    assert ws[0..] == ws;
  }

  lemma NoMoreWords(ws: seq<bv32>, k: Keystream.Taps, r: Keystream.Regs)
    requires GoodTaps(k)
    ensures After(k, r, 0) == r && MaskedFrom(ws, |ws|, k, r) == []
  {
    hide GoodTaps, Returns;
  }

  lemma MaskedNext(ws: seq<bv32>, i: nat, k: Keystream.Taps, r: Keystream.Regs)
    requires i < |ws| && GoodTaps(k) && Returns(k, r)
    ensures Returns(k, Next(k, r))
    ensures After(k, r, |ws| - i) == After(k, Next(k, r), |ws| - i - 1)
    ensures MaskedFrom(ws, i, k, r) == [Xor(ws[i], Word(Next(k, r)))] + MaskedFrom(ws, i + 1, k, Next(k, r))
  {
    hide GoodTaps, Xor, Word, Words, Returns, Next, After, Masked;
    MaskedStep(ws[i..], k, r);
    assert ws[i..][1..] == ws[i + 1..];
  }

  lemma MaskedStep(ws: seq<bv32>, k: Keystream.Taps, r: Keystream.Regs)
    requires ws != [] && GoodTaps(k) && Returns(k, r)
    ensures Returns(k, Next(k, r))
    ensures After(k, r, |ws|) == After(k, Next(k, r), |ws| - 1)
    ensures Masked(ws, Words(k, r, |ws|))
         == [Xor(ws[0], Word(Next(k, r)))] + Masked(ws[1..], Words(k, Next(k, r), |ws| - 1))
  {
    hide GoodTaps, Xor, Word, Returns, Clocked;
    ReturnsAlways(k, r, Clocks(k, r));
  }

  // ---------- end to end ----------

  /**
   * Good taps and registers whose generator emits words at all, if any are asked for; it then emits as many as are
   * asked for.
   */
  ghost predicate Emits(k: Keystream.Taps, r: Keystream.Regs, n: nat) {
    GoodTaps(k) && (0 < n ==> Returns(k, r))
  }

  /** The generator of this passphrase emits words. */
  ghost predicate KeyWorks(p: seq<bv8>) {
    Returns(KeyTaps(p), KeyRegs(p))
  }

  lemma KeyEmits(p: seq<bv8>, n: nat)
    requires 0 < n ==> KeyWorks(p)
    ensures Emits(KeyTaps(p), KeyRegs(p), n)
  {
    hide StartTaps, GoodTaps, Returns;
    StartTapsGood(TapDigest(p));
  }

  /** The cipher words of a message. */
  ghost function Cipher(m: seq<bv8>, k: Keystream.Taps, r: Keystream.Regs): (ws: seq<bv32>)
    requires Emits(k, r, |m|)
    ensures |ws| == PackedLength(|m|)
  {
    Masked(Packed(m), Words(k, r, PackedLength(|m|)))
  }

  /** What decryption makes of a text. */
  ghost function Plain(t: seq<bv8>, k: Keystream.Taps, r: Keystream.Regs): seq<bv8>
    requires Emits(k, r, |t|)
  {
    Expanded(Masked(Decoded(t), Words(k, r, |Decoded(t)|)))
  }

  lemma NothingPacked()
    ensures PackedLength(0) == 0
  {
  }

  method Encrypt(input: seq<bv8>, passphrase: seq<bv8>) returns (sda: Sda)
    requires input != [] ==> KeyWorks(passphrase)
    ensures fresh(sda) && sda.buf.Valid()
    ensures Emits(KeyTaps(passphrase), KeyRegs(passphrase), |input|)
    ensures sda.buf.Contents() == Form(Cipher(input, KeyTaps(passphrase), KeyRegs(passphrase)))
  {
    hide Packed, PackedLength, FormFrom, Masked, Words, KeyTaps, KeyRegs, KeyWorks, Returns, GoodTaps, After;
    NothingPacked();
    KeyEmits(passphrase, |input|);
    sda := new Sda.Init(passphrase);
    var a := Compress8to7(input);
    assert a.used == |a.Contents()| == PackedLength(|input|);
    var b := sda.Crypt(a);
    ArrayToForm(sda.buf, b);
  }

  method Decrypt(input: seq<bv8>, passphrase: seq<bv8>) returns (sda: Sda)
    requires input != [] ==> KeyWorks(passphrase)
    ensures fresh(sda) && sda.buf.Valid()
    ensures Emits(KeyTaps(passphrase), KeyRegs(passphrase), |input|)
    ensures sda.buf.Contents() == Plain(input, KeyTaps(passphrase), KeyRegs(passphrase))
  {
    hide Expanded, Masked, Words, KeyTaps, KeyRegs, KeyWorks, Returns, GoodTaps, Decoded, After;
    KeyEmits(passphrase, |input|);
    sda := new Sda.Init(passphrase);
    var a := B64ToArray(input);
    assert a.used == |a.Contents()|;
    var b := sda.Crypt(a);
    Expand7to8(sda.buf, b);
  }

  lemma XorTwice(a: bv32, k: bv32)
    ensures Low(Xor(Low(Xor(a, k)), k)) == Low(a)
  {
  }

  lemma MaskedTwice(ws: seq<bv32>, ks: seq<bv32>)
    requires |ws| == |ks|
    ensures LowBytes(Masked(LowBytes(Masked(ws, ks)), ks)) == LowBytes(ws)
  {
    hide Low, Xor;
    forall i | 0 <= i < |ws|
      ensures Low(Xor(Low(Xor(ws[i], ks[i])), ks[i])) == Low(ws[i])
    {
      XorTwice(ws[i], ks[i]);
    }
  }

  /** Whoever can encrypt a message can decrypt its text, as it is or stripped of its newlines. */
  lemma TextEmits(m: seq<bv8>, k: Keystream.Taps, r: Keystream.Regs)
    requires Emits(k, r, |m|)
    ensures Emits(k, r, |Form(Cipher(m, k, r))|) && Emits(k, r, |Strip(Form(Cipher(m, k, r)))|)
  {
    hide GoodTaps, Returns, Packed;
  }

  /**
   * Decrypting the text of a message, stripped of its newlines, gives back the message with zeros up to a multiple
   * of eight, whatever the key, as long as no cipher word is dropped.
   */
  lemma RoundTripOfCipher(m: seq<bv8>, k: Keystream.Taps, r: Keystream.Regs)
    requires Emits(k, r, |m|)
    ensures Emits(k, r, |Strip(Form(Cipher(m, k, r)))|)
    ensures SevenBit(m) && NothingDropped(Cipher(m, k, r)) ==> Plain(Strip(Form(Cipher(m, k, r))), k, r) == Padded(m)
  {
    hide GoodTaps, Returns, Packed, Form, Words, Decoded, Strip, Expanded, Masked, LowBytes, Padded, NothingDropped;
    var c, ks := Cipher(m, k, r), Words(k, r, PackedLength(|m|));
    TextEmits(m, k, r);
    if SevenBit(m) && NothingDropped(c) {
      TextRoundTripIff(c);
      assert Decoded(Strip(Form(c))) == LowBytes(c);
      MaskedTwice(Packed(m), ks);
      HighBitsAreIgnored(Masked(LowBytes(c), ks));
      HighBitsAreIgnored(Packed(m));
      RoundTrip(m);
    }
  }

  /** A message of up to 53 characters is decrypted from the very text that encryption gives. */
  lemma ShortRoundTrip(m: seq<bv8>, k: Keystream.Taps, r: Keystream.Regs)
    requires Emits(k, r, |m|) && |m| <= 53
    ensures Emits(k, r, |Form(Cipher(m, k, r))|)
    ensures SevenBit(m) && NothingDropped(Cipher(m, k, r)) ==> Plain(Form(Cipher(m, k, r)), k, r) == Padded(m)
  {
    hide Emits, Form, Words, Decoded, Expanded, Masked, Packed, Strip, NothingDropped;
    RoundTripOfCipher(m, k, r);
    TextEmits(m, k, r);
    NewlineIff(Cipher(m, k, r));
    StripKeeps(Form(Cipher(m, k, r)));
  }

  // ---------- exactly when decryption succeeds ----------

  lemma {:induction false} WordsPrefix(k: Keystream.Taps, r: Keystream.Regs, m: nat, n: nat)
    requires GoodTaps(k) && (0 < n ==> Returns(k, r)) && m <= n
    ensures Words(k, r, m) == Words(k, r, n)[..m]
    decreases m
  {
    hide GoodTaps, Returns, Word;
    if m != 0 {
      ReturnsAlways(k, r, Clocks(k, r));
      WordsPrefix(k, Next(k, r), m - 1, n - 1);
    }
  }

  /**
   * What the reader of a text needs of the words `d` in it, if `packed` was masked with the keystream `ks`: as many
   * groups of seven as were written; right bytes as far as both go; nothing but zeros packed after that; and, where
   * there are more words than were written, just the keystream.
   */
  ghost predicate ReadsEnough(d: seq<bv32>, packed: seq<bv32>, ks: seq<bv32>)
    requires |d| <= |ks| && |packed| <= |ks|
  {
    && Groups(|d|, 7) == Groups(|packed|, 7)
    && (forall i | 0 <= i < |d| && i < |packed| :: d[i] == Low(Xor(packed[i], ks[i])))
    && (forall i | |d| <= i < |packed| :: packed[i] == 0)
    && (forall i | |packed| <= i < |d| :: d[i] == Low(ks[i]))
  }

  lemma XorOfLow(a: bv32, k: bv32)
    ensures Low(Xor(Low(a), k)) == Low(Xor(a, k))
  {
  }

  lemma XorMoves(d: bv32, a: bv32, k: bv32)
    requires Low(d) == d
    ensures Low(Xor(d, k)) == Low(a) <==> d == Low(Xor(a, k))
  {
    hide Low, Xor;
    XorTwice(d, k);
    XorTwice(a, k);
    XorOfLow(Xor(d, k), k);
    XorOfLow(a, k);
  }

  lemma XorWithZero(k: bv32)
    ensures Xor(0, k) == k && Low(0) == 0
  {
  }

  lemma SameUnmasked(d: seq<bv32>, a: seq<bv32>, ks: seq<bv32>)
    requires |d| <= |ks| && |a| <= |ks| && LowBytes(d) == d && LowBytes(a) == a
    ensures Expanded(Masked(d, ks[..|d|])) == Expanded(a) <==> ReadsEnough(d, a, ks)
  {
    hide Low, Xor, Expanded;
    var x := Masked(d, ks[..|d|]);
    SameExpansion(x, a);
    SamePaddedBytes(x, a);
    forall i | 0 <= i < |d|
      ensures Low(x[i]) == Low(At(a, i)) <==> d[i] == Low(Xor(At(a, i), ks[i]))
    {
      assert d[i] == LowBytes(d)[i];
      XorMoves(d[i], At(a, i), ks[i]);
    }
    forall i | |a| <= i < |d|
      ensures Low(Xor(At(a, i), ks[i])) == Low(ks[i])
    {
      XorWithZero(ks[i]);
    }
    XorWithZero(0);
    forall i | 0 <= i < |a|
      ensures Low(a[i]) == a[i]
    {
      assert a[i] == LowBytes(a)[i];
    }
    UnmaskedBytes(x, d, a, ks);
  }

  lemma UnmaskedBytes(x: seq<bv32>, d: seq<bv32>, a: seq<bv32>, ks: seq<bv32>)
    requires |x| == |d| <= |ks| && |a| <= |ks|
    requires forall i | 0 <= i < |d| :: Low(x[i]) == Low(At(a, i)) <==> d[i] == Low(Xor(At(a, i), ks[i]))
    requires forall i | |a| <= i < |d| :: Low(Xor(At(a, i), ks[i])) == Low(ks[i])
    requires Low(0) == 0 && forall i | 0 <= i < |a| :: Low(a[i]) == a[i]
    ensures (Groups(|x|, 7) == Groups(|a|, 7) && SameLows(x, a)) <==> ReadsEnough(d, a, ks)
  {
    hide Low, Xor;
    if SameLows(x, a) {
      assert forall i | 0 <= i < |d| :: At(x, i) == x[i];
      assert forall i | 0 <= i < |a| :: At(a, i) == a[i];
      assert forall i | |d| <= i < |a| :: Low(At(x, i)) == Low(At(a, i));
    }
  }

  ghost predicate SameLows(x: seq<bv32>, a: seq<bv32>) {
    forall i | 0 <= i < Max(|x|, |a|) :: Low(At(x, i)) == Low(At(a, i))
  }

  lemma SamePaddedBytes(x: seq<bv32>, a: seq<bv32>)
    ensures LowBytes(PaddedWords(x)) == LowBytes(PaddedWords(a)) <==> Groups(|x|, 7) == Groups(|a|, 7) && SameLows(x, a)
  {
    hide Low;
    var u, v := LowBytes(PaddedWords(x)), LowBytes(PaddedWords(a));
    assert forall i | 0 <= i < |u| :: u[i] == Low(At(x, i));
    assert forall i | 0 <= i < |v| :: v[i] == Low(At(a, i));
    assert |u| == |v| <==> Groups(|x|, 7) == Groups(|a|, 7);
    assert |x| <= |u| && |a| <= |v|;
    if u == v {
      forall i | 0 <= i < Max(|x|, |a|)
        ensures Low(At(x, i)) == Low(At(a, i))
      {
        assert u[i] == v[i];
      }
    }
  }

  /** Enough of a message can be read in a text. */
  ghost predicate Readable(t: seq<bv8>, m: seq<bv8>, k: Keystream.Taps, r: Keystream.Regs)
    requires Emits(k, r, |t|) && Emits(k, r, |m|)
  {
    ReadsEnough(Decoded(t), Packed(m), Words(k, r, Max(|Decoded(t)|, PackedLength(|m|))))
  }

  ghost predicate Recovers(t: seq<bv8>, m: seq<bv8>, k: Keystream.Taps, r: Keystream.Regs)
    requires Emits(k, r, |t|)
  {
    Plain(t, k, r) == Padded(m)
  }

  /**
   * Whatever the text, decryption makes a message of it exactly when the message is 7-bit and enough of it can be
   * read there.
   */
  lemma DecryptsIff(t: seq<bv8>, m: seq<bv8>, k: Keystream.Taps, r: Keystream.Regs)
    requires Emits(k, r, |t|) && Emits(k, r, |m|)
    ensures Recovers(t, m, k, r) <==> SevenBit(m) && Readable(t, m, k, r)
  {
    hide Packed, Words, Returns, GoodTaps, Decoded, Expanded, Masked, LowBytes, ReadsEnough;
    var d, n := Decoded(t), PackedLength(|m|);
    var ks := Words(k, r, Max(|d|, n));
    WordsPrefix(k, r, |d|, Max(|d|, n));
    var x := Masked(d, Words(k, r, |d|));
    ExpandedIsSevenBit(x);
    if Expanded(x) == Padded(m) {
      assert forall j | 0 <= j < |m| :: m[j] == Padded(m)[j];
    }
    if SevenBit(m) {
      RoundTrip(m);
      DecodedAreBytes(t);
      PackedWordsAreBytes(m);
      SameUnmasked(d, Packed(m), ks);
    }
  }

  /** Where all words can be read, what can be read is enough only if it is right. */
  lemma AllWordsNeeded(t: seq<bv8>, m: seq<bv8>, k: Keystream.Taps, r: Keystream.Regs)
    requires Emits(k, r, |t|) && Emits(k, r, |m|)
    ensures |Decoded(t)| == PackedLength(|m|) ==>
              (Readable(t, m, k, r) <==> Decoded(t) == LowBytes(Cipher(m, k, r)))
  {
    hide Packed, Words, Returns, GoodTaps, Decoded, Low, Xor;
    var d, c := Decoded(t), LowBytes(Cipher(m, k, r));
    assert forall i | 0 <= i < |c| :: c[i] == Low(Xor(Packed(m)[i], Words(k, r, |c|)[i]));
  }

  /** Where fewer words can be read, those must be the first ones, in as many groups, and only zeros packed behind. */
  ghost predicate Suffices(d: seq<bv32>, c: seq<bv32>, packed: seq<bv32>)
  {
    Groups(|d|, 7) == Groups(|c|, 7) && d <= LowBytes(c) && forall i | |d| <= i < |packed| :: packed[i] == 0
  }

  lemma FewerWordsNeeded(t: seq<bv8>, m: seq<bv8>, k: Keystream.Taps, r: Keystream.Regs)
    requires Emits(k, r, |t|) && Emits(k, r, |m|) && |Decoded(t)| <= PackedLength(|m|)
    ensures Readable(t, m, k, r) <==> Suffices(Decoded(t), Cipher(m, k, r), Packed(m))
  {
    hide Packed, Words, Returns, GoodTaps, Decoded, Low, Xor;
    var d, c := Decoded(t), LowBytes(Cipher(m, k, r));
    assert forall i | 0 <= i < |c| :: c[i] == Low(Xor(Packed(m)[i], Words(k, r, |c|)[i]));
    assert d <= c <==> forall i | 0 <= i < |d| :: d[i] == c[i];
  }

  /**
   * Decryption of the stripped text succeeds exactly if the message is 7-bit and the words read suffice; where the
   * digits dropped leave as many words as were written, exactly if none was dropped, or one without harm.
   */
  lemma StrippedDecryptsIff(m: seq<bv8>, k: Keystream.Taps, r: Keystream.Regs)
    requires Emits(k, r, |m|)
    ensures Emits(k, r, |Strip(Form(Cipher(m, k, r)))|)
    ensures var c := Cipher(m, k, r);
            Recovers(Strip(Form(c)), m, k, r) <==> SevenBit(m) && Suffices(Decoded(Strip(Form(c))), c, Packed(m))
    ensures var c := Cipher(m, k, r);
            Dropped(c) == 0 || (Dropped(c) == 1 && |c| % 3 == 1) ==>
              (Recovers(Strip(Form(c)), m, k, r) <==> SevenBit(m) && (NothingDropped(c) || OneHarmlessDrop(c)))
  {
    hide Emits, Cipher, FormFrom, Strip, Decoded, Digits, LowBytes, NothingDropped, OneHarmlessDrop, Recovers, Readable,
      SevenBit, Suffices, Dropped;
    var c := Cipher(m, k, r);
    TextEmits(m, k, r);
    DecryptsIff(Strip(Form(c)), m, k, r);
    NoExtraWords(c);
    FewerWordsNeeded(Strip(Form(c)), m, k, r);
    AllWordsNeeded(Strip(Form(c)), m, k, r);
    StrippedForm(c, 0);
    LengthsAgree(c);
    TextRoundTripIff(c);
  }

  /** The same of the text as it is: the digits that were dropped must be made up for by the newlines. */
  lemma WholeDecryptsIff(m: seq<bv8>, k: Keystream.Taps, r: Keystream.Regs)
    requires Emits(k, r, |m|)
    ensures Emits(k, r, |Form(Cipher(m, k, r))|)
    ensures var c := Cipher(m, k, r);
            Dropped(c) == Breaks(|c|) || (Dropped(c) == Breaks(|c|) + 1 && |c| % 3 == 1) ==>
              (Recovers(Form(c), m, k, r) <==> SevenBit(m) && CatchesUp(c, true))
  {
    hide Emits, Cipher, FormFrom, Decoded, LowBytes, CatchesUp, Recovers, Readable, SevenBit, Dropped, Breaks;
    var c := Cipher(m, k, r);
    TextEmits(m, k, r);
    DecryptsIff(Form(c), m, k, r);
    AllWordsNeeded(Form(c), m, k, r);
    AsManyWordsIff(c, true);
    ReadsBackIff(c, true);
  }
}
