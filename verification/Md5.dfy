/**
 * The key schedule: MD5 over words (RFC 1321), with the padding written into the array itself and the
 * sixty-four steps of a block written out one by one.
 */
module Md5 {
  import opened Basics
  import opened BitPacking
  import opened Buffers

  // ---------- the basic operations ----------

  /** Addition modulo 2^32. */
  function Plus(x: bv32, y: bv32): bv32 {
    x + y
  }

  function HighHalf(x: bv32): bv32 {
    x >> 16
  }

  function LowHalf(x: bv32): bv32 {
    x & 0xffff
  }

  function Joined(high: bv32, low: bv32): bv32 {
    (high << 16) | (low & 0xffff)
  }

  /** Addition in two 16-bit halves. */
  function SafeAdd(x: bv32, y: bv32): bv32 {
    var lsw := Plus(LowHalf(x), LowHalf(y));
    var msw := Plus(Plus(HighHalf(x), HighHalf(y)), HighHalf(lsw));
    Joined(msw, lsw)
  }

  function BitRol(num: bv32, cnt: nat): bv32
    requires 0 < cnt < 32
  {
    (num << cnt) | (num >> (32 - cnt))
  }

  function Cmn(q: bv32, a: bv32, b: bv32, x: bv32, s: nat, t: bv32): bv32
    requires 0 < s < 32
  {
    SafeAdd(BitRol(SafeAdd(SafeAdd(a, q), SafeAdd(x, t)), s), b)
  }

  function Ff(a: bv32, b: bv32, c: bv32, d: bv32, x: bv32, s: nat, t: bv32): bv32
    requires 0 < s < 32
  {
    Cmn((b & c) | (!b & d), a, b, x, s, t)
  }

  function Gg(a: bv32, b: bv32, c: bv32, d: bv32, x: bv32, s: nat, t: bv32): bv32
    requires 0 < s < 32
  {
    Cmn((b & d) | (c & !d), a, b, x, s, t)
  }

  function Hh(a: bv32, b: bv32, c: bv32, d: bv32, x: bv32, s: nat, t: bv32): bv32
    requires 0 < s < 32
  {
    Cmn((b ^ c) ^ d, a, b, x, s, t)
  }

  function Ii(a: bv32, b: bv32, c: bv32, d: bv32, x: bv32, s: nat, t: bv32): bv32
    requires 0 < s < 32
  {
    Cmn(c ^ (b | !d), a, b, x, s, t)
  }

  function WordOf(n: nat): bv32
    requires n < 0x1_0000_0000
  {
    n as bv32
  }

  function Unsigned(n: int): (m: nat)
    requires -0x8000_0000 <= n < 0x8000_0000
    ensures m < 0x1_0000_0000
  {
    if n < 0 then n + 0x1_0000_0000 else n
  }

  /** A signed literal as a word. */
  function Signed(n: int): bv32
    requires -0x8000_0000 <= n < 0x8000_0000
  {
    WordOf(Unsigned(n))
  }

  // ---------- the compression of section 3.4 of RFC 1321 ----------

  datatype State = State(a: bv32, b: bv32, c: bv32, d: bv32)

  function Rotated(x: bv32, n: nat): bv32
    requires n < 32
  {
    x.RotateLeft(n)
  }

  /** The auxiliary functions F, G, H and I. */
  function Mix(round: nat, x: bv32, y: bv32, z: bv32): bv32
    requires round < 4
  {
    if round == 0 then (x & y) | (!x & z)
    else if round == 1 then (x & z) | (y & !z)
    else if round == 2 then (x ^ y) ^ z
    else y ^ (x | !z)
  }

  function Place(i: nat): (k: nat)
    requires i < 64
    ensures k < 16
  {
    if i < 16 then i else if i < 32 then (5 * i + 1) % 16 else if i < 48 then (3 * i + 5) % 16 else 7 * i % 16
  }

  function Shift(i: nat): (s: nat)
    requires i < 64
    ensures 0 < s < 32
  {
    var j := i % 4;
    if i < 16 then 7 + 5 * j
    else if i < 32 then (if j == 0 then 5 else if j == 1 then 9 else if j == 2 then 14 else 20)
    else if i < 48 then (if j == 0 then 4 else if j == 1 then 11 else if j == 2 then 16 else 23)
    else (if j == 0 then 6 else if j == 1 then 10 else if j == 2 then 15 else 21)
  }

  function Sine(i: nat): bv32
    requires i < 64
  {
    WordOf(SineTable(i))
  }

  /** The integer parts of 2^32 times the absolute sines of 1 to 64. */
  function SineTable(i: nat): (t: nat)
    requires i < 64
    ensures t < 0x1_0000_0000
  {
    if i < 16 then FirstTable(i)
    else if i < 32 then SecondTable(i)
    else if i < 48 then ThirdTable(i)
    else FourthTable(i)
  }

  function FirstTable(i: nat): (t: nat)
    requires 0 <= i < 16
    ensures t < 0x1_0000_0000
  {
    match i
    case 0 => 0xd76aa478 case 1 => 0xe8c7b756 case 2 => 0x242070db case 3 => 0xc1bdceee
    case 4 => 0xf57c0faf case 5 => 0x4787c62a case 6 => 0xa8304613 case 7 => 0xfd469501
    case 8 => 0x698098d8 case 9 => 0x8b44f7af case 10 => 0xffff5bb1 case 11 => 0x895cd7be
    case 12 => 0x6b901122 case 13 => 0xfd987193 case 14 => 0xa679438e case _ => 0x49b40821
  }

  function SecondTable(i: nat): (t: nat)
    requires 16 <= i < 32
    ensures t < 0x1_0000_0000
  {
    match i
    case 16 => 0xf61e2562 case 17 => 0xc040b340 case 18 => 0x265e5a51 case 19 => 0xe9b6c7aa
    case 20 => 0xd62f105d case 21 => 0x02441453 case 22 => 0xd8a1e681 case 23 => 0xe7d3fbc8
    case 24 => 0x21e1cde6 case 25 => 0xc33707d6 case 26 => 0xf4d50d87 case 27 => 0x455a14ed
    case 28 => 0xa9e3e905 case 29 => 0xfcefa3f8 case 30 => 0x676f02d9 case _ => 0x8d2a4c8a
  }

  function ThirdTable(i: nat): (t: nat)
    requires 32 <= i < 48
    ensures t < 0x1_0000_0000
  {
    match i
    case 32 => 0xfffa3942 case 33 => 0x8771f681 case 34 => 0x6d9d6122 case 35 => 0xfde5380c
    case 36 => 0xa4beea44 case 37 => 0x4bdecfa9 case 38 => 0xf6bb4b60 case 39 => 0xbebfbc70
    case 40 => 0x289b7ec6 case 41 => 0xeaa127fa case 42 => 0xd4ef3085 case 43 => 0x04881d05
    case 44 => 0xd9d4d039 case 45 => 0xe6db99e5 case 46 => 0x1fa27cf8 case _ => 0xc4ac5665
  }

  function FourthTable(i: nat): (t: nat)
    requires 48 <= i < 64
    ensures t < 0x1_0000_0000
  {
    match i
    case 48 => 0xf4292244 case 49 => 0x432aff97 case 50 => 0xab9423a7 case 51 => 0xfc93a039
    case 52 => 0x655b59c3 case 53 => 0x8f0ccc92 case 54 => 0xffeff47d case 55 => 0x85845dd1
    case 56 => 0x6fa87e4f case 57 => 0xfe2ce6e0 case 58 => 0xa3014314 case 59 => 0x4e0811a1
    case 60 => 0xf7537e82 case 61 => 0xbd3af235 case 62 => 0x2ad7d2bb case _ => 0xeb86d391
  }

  function Mixed(s: State, x: seq<bv32>, i: nat): bv32
    requires |x| == 16 && i < 64
  {
    Plus(Plus(Plus(s.a, Mix(i / 16, s.b, s.c, s.d)), x[Place(i)]), Sine(i))
  }

  function Step(s: State, x: seq<bv32>, i: nat): State
    requires |x| == 16 && i < 64
  {
    State(s.d, Plus(s.b, Rotated(Mixed(s, x, i), Shift(i))), s.b, s.c)
  }

  /** Steps `from` to `from + n`. */
  function Steps(s: State, x: seq<bv32>, from: nat, n: nat): State
    requires |x| == 16 && from + n <= 64
  {
    if n == 0 then s else Step(Steps(s, x, from, n - 1), x, from + n - 1)
  }

  // ---------- the steps as written ----------

  /** The split addition is addition modulo 2^32. */
  lemma SafeAddIsAddition(x: bv32, y: bv32)
    ensures SafeAdd(x, y) == Plus(x, y)
  {
    hide Plus, HighHalf, LowHalf, Joined, Raised;
    var low := Plus(LowHalf(x), LowHalf(y));
    JoinedIsSum(Plus(Plus(HighHalf(x), HighHalf(y)), HighHalf(low)), low);
    InHalves(x);
    InHalves(y);
    InHalves(low);
    RaisedSum(Plus(HighHalf(x), HighHalf(y)), HighHalf(low));
    RaisedSum(HighHalf(x), HighHalf(y));
    var a, b := Raised(HighHalf(x)), Raised(HighHalf(y));
    PlusLaws(Plus(a, b), Raised(HighHalf(low)), LowHalf(low));
    PlusLaws(a, b, low);
    PlusLaws(b, LowHalf(x), LowHalf(y));
    PlusLaws(LowHalf(x), b, LowHalf(y));
    PlusLaws(a, LowHalf(x), Plus(b, LowHalf(y)));
  }

  function Raised(x: bv32): bv32 {
    x << 16
  }

  lemma InHalves(x: bv32)
    ensures x == Plus(Raised(HighHalf(x)), LowHalf(x))
  {
  }

  function Twice(x: bv32): bv32 {
    x << 1
  }

  function Lifted(x: bv32): bv32 {
    x << 4
  }

  lemma TwiceIsSum(x: bv32)
    ensures Twice(x) == Plus(x, x)
  {
  }

  lemma TwiceSum(x: bv32, y: bv32)
    ensures Twice(Plus(x, y)) == Plus(Twice(x), Twice(y))
  {
    hide *;
    TwiceIsSum(x);
    TwiceIsSum(y);
    TwiceIsSum(Plus(x, y));
    PlusLaws(Plus(x, y), x, y);
    PlusLaws(x, y, x);
    PlusLaws(x, x, y);
    PlusLaws(Plus(x, x), y, y);
  }

  lemma LiftedIsTwice(x: bv32)
    ensures Lifted(x) == Twice(Twice(Twice(Twice(x))))
  {
  }

  lemma LiftedSum(x: bv32, y: bv32)
    ensures Lifted(Plus(x, y)) == Plus(Lifted(x), Lifted(y))
  {
    hide *;
    LiftedIsTwice(x);
    LiftedIsTwice(y);
    LiftedIsTwice(Plus(x, y));
    TwiceSum(x, y);
    TwiceSum(Twice(x), Twice(y));
    TwiceSum(Twice(Twice(x)), Twice(Twice(y)));
    TwiceSum(Twice(Twice(Twice(x))), Twice(Twice(Twice(y))));
  }

  lemma RaisedIsLifted(x: bv32)
    ensures Raised(x) == Lifted(Lifted(Lifted(Lifted(x))))
  {
  }

  lemma RaisedSum(x: bv32, y: bv32)
    ensures Raised(Plus(x, y)) == Plus(Raised(x), Raised(y))
  {
    hide *;
    RaisedIsLifted(x);
    RaisedIsLifted(y);
    RaisedIsLifted(Plus(x, y));
    LiftedSum(x, y);
    LiftedSum(Lifted(x), Lifted(y));
    LiftedSum(Lifted(Lifted(x)), Lifted(Lifted(y)));
    LiftedSum(Lifted(Lifted(Lifted(x))), Lifted(Lifted(Lifted(y))));
  }

  lemma JoinedIsSum(x: bv32, y: bv32)
    ensures Joined(x, y) == Plus(Raised(x), LowHalf(y))
  {
  }

  lemma RotationsOfFirst(num: bv32)
    ensures BitRol(num, 7) == Rotated(num, 7)
    ensures BitRol(num, 12) == Rotated(num, 12)
    ensures BitRol(num, 17) == Rotated(num, 17)
    ensures BitRol(num, 22) == Rotated(num, 22)
  {
  }

  lemma RotationsOfSecond(num: bv32)
    ensures BitRol(num, 5) == Rotated(num, 5)
    ensures BitRol(num, 9) == Rotated(num, 9)
    ensures BitRol(num, 14) == Rotated(num, 14)
    ensures BitRol(num, 20) == Rotated(num, 20)
  {
  }

  lemma RotationsOfThird(num: bv32)
    ensures BitRol(num, 4) == Rotated(num, 4)
    ensures BitRol(num, 11) == Rotated(num, 11)
    ensures BitRol(num, 16) == Rotated(num, 16)
    ensures BitRol(num, 23) == Rotated(num, 23)
  {
  }

  lemma RotationsOfFourth(num: bv32)
    ensures BitRol(num, 6) == Rotated(num, 6)
    ensures BitRol(num, 10) == Rotated(num, 10)
    ensures BitRol(num, 15) == Rotated(num, 15)
    ensures BitRol(num, 21) == Rotated(num, 21)
  {
  }

  lemma RotationByHand(num: bv32, i: nat)
    requires i < 64
    ensures BitRol(num, Shift(i)) == Rotated(num, Shift(i))
  {
    hide BitRol, Rotated;
    RotationsOfFirst(num);
    RotationsOfSecond(num);
    RotationsOfThird(num);
    RotationsOfFourth(num);
  }

  lemma StepByHand(s: State, x: seq<bv32>, i: nat, q: bv32)
    requires |x| == 16 && i < 64 && q == Mix(i / 16, s.b, s.c, s.d)
    ensures Step(s, x, i) == State(s.d, Cmn(q, s.a, s.b, x[Place(i)], Shift(i), Sine(i)), s.b, s.c)
  {
    hide Mix, Place, Shift, Sine, SafeAdd, BitRol, Plus, Rotated;
    var y, t, m := x[Place(i)], Sine(i), Mixed(s, x, i);
    SafeAddIsAddition(s.a, q);
    SafeAddIsAddition(y, t);
    SafeAddIsAddition(Plus(s.a, q), Plus(y, t));
    PlusLaws(Plus(s.a, q), y, t);
    RotationByHand(m, i);
    SafeAddIsAddition(Rotated(m, Shift(i)), s.b);
    PlusLaws(Rotated(m, Shift(i)), s.b, 0);
  }

  lemma PlusLaws(x: bv32, y: bv32, z: bv32)
    ensures Plus(x, Plus(y, z)) == Plus(Plus(x, y), z)
    ensures Plus(x, y) == Plus(y, x)
  {
  }

  lemma FfMixes(x: bv32, y: bv32, z: bv32)
    ensures Mix(0, x, y, z) == (x & y) | (!x & z)
  {
  }

  lemma GgMixes(x: bv32, y: bv32, z: bv32)
    ensures Mix(1, x, y, z) == (x & z) | (y & !z)
  {
  }

  lemma HhMixes(x: bv32, y: bv32, z: bv32)
    ensures Mix(2, x, y, z) == (x ^ y) ^ z
  {
  }

  lemma IiMixes(x: bv32, y: bv32, z: bv32)
    ensures Mix(3, x, y, z) == y ^ (x | !z)
  {
  }

  lemma NoSteps(s: State, x: seq<bv32>, from: nat)
    requires |x| == 16 && from <= 64
    ensures Steps(s, x, from, 0) == s
  {
  }

  lemma FfStep(s: State, x: seq<bv32>, from: nat, n: nat, r: State, k: nat, c: nat, t: int)
    requires |x| == 16 && from + n < 16 && -0x8000_0000 <= t < 0x8000_0000
    requires k == Place(from + n) && c == Shift(from + n) && Unsigned(t) == SineTable(from + n)
    requires Steps(s, x, from, n) == r
    ensures Steps(s, x, from, n + 1) == State(r.d, Ff(r.a, r.b, r.c, r.d, x[k], c, Signed(t)), r.b, r.c)
  {
    hide Step, Cmn, Place, Shift, SineTable, WordOf, Mix;
    FfMixes(r.b, r.c, r.d);
    StepByHand(r, x, from + n, Mix(0, r.b, r.c, r.d));
  }

  lemma GgStep(s: State, x: seq<bv32>, from: nat, n: nat, r: State, k: nat, c: nat, t: int)
    requires |x| == 16 && 16 <= from + n < 32 && -0x8000_0000 <= t < 0x8000_0000
    requires k == Place(from + n) && c == Shift(from + n) && Unsigned(t) == SineTable(from + n)
    requires Steps(s, x, from, n) == r
    ensures Steps(s, x, from, n + 1) == State(r.d, Gg(r.a, r.b, r.c, r.d, x[k], c, Signed(t)), r.b, r.c)
  {
    hide Step, Cmn, Place, Shift, SineTable, WordOf, Mix;
    GgMixes(r.b, r.c, r.d);
    StepByHand(r, x, from + n, Mix(1, r.b, r.c, r.d));
  }

  lemma HhStep(s: State, x: seq<bv32>, from: nat, n: nat, r: State, k: nat, c: nat, t: int)
    requires |x| == 16 && 32 <= from + n < 48 && -0x8000_0000 <= t < 0x8000_0000
    requires k == Place(from + n) && c == Shift(from + n) && Unsigned(t) == SineTable(from + n)
    requires Steps(s, x, from, n) == r
    ensures Steps(s, x, from, n + 1) == State(r.d, Hh(r.a, r.b, r.c, r.d, x[k], c, Signed(t)), r.b, r.c)
  {
    hide Step, Cmn, Place, Shift, SineTable, WordOf, Mix;
    HhMixes(r.b, r.c, r.d);
    StepByHand(r, x, from + n, Mix(2, r.b, r.c, r.d));
  }

  lemma IiStep(s: State, x: seq<bv32>, from: nat, n: nat, r: State, k: nat, c: nat, t: int)
    requires |x| == 16 && 48 <= from + n < 64 && -0x8000_0000 <= t < 0x8000_0000
    requires k == Place(from + n) && c == Shift(from + n) && Unsigned(t) == SineTable(from + n)
    requires Steps(s, x, from, n) == r
    ensures Steps(s, x, from, n + 1) == State(r.d, Ii(r.a, r.b, r.c, r.d, x[k], c, Signed(t)), r.b, r.c)
  {
    hide Step, Cmn, Place, Shift, SineTable, WordOf, Mix;
    IiMixes(r.b, r.c, r.d);
    StepByHand(r, x, from + n, Mix(3, r.b, r.c, r.d));
  }

  lemma EarlyFfTables()
    ensures Place(0) == 0 && Place(1) == 1 && Place(2) == 2 && Place(3) == 3
    ensures Place(4) == 4 && Place(5) == 5 && Place(6) == 6 && Place(7) == 7
    ensures Shift(0) == 7 && Shift(1) == 12 && Shift(2) == 17 && Shift(3) == 22
    ensures Shift(4) == 7 && Shift(5) == 12 && Shift(6) == 17 && Shift(7) == 22
    ensures SineTable(0) == Unsigned(-680876936) && SineTable(1) == Unsigned(-389564586)
    ensures SineTable(2) == Unsigned(606105819) && SineTable(3) == Unsigned(-1044525330)
    ensures SineTable(4) == Unsigned(-176418897) && SineTable(5) == Unsigned(1200080426)
    ensures SineTable(6) == Unsigned(-1473231341) && SineTable(7) == Unsigned(-45705983)
  {
  }

  lemma LateFfTables()
    ensures Place(8) == 8 && Place(9) == 9 && Place(10) == 10 && Place(11) == 11
    ensures Place(12) == 12 && Place(13) == 13 && Place(14) == 14 && Place(15) == 15
    ensures Shift(8) == 7 && Shift(9) == 12 && Shift(10) == 17 && Shift(11) == 22
    ensures Shift(12) == 7 && Shift(13) == 12 && Shift(14) == 17 && Shift(15) == 22
    ensures SineTable(8) == Unsigned(1770035416) && SineTable(9) == Unsigned(-1958414417)
    ensures SineTable(10) == Unsigned(-42063) && SineTable(11) == Unsigned(-1990404162)
    ensures SineTable(12) == Unsigned(1804603682) && SineTable(13) == Unsigned(-40341101)
    ensures SineTable(14) == Unsigned(-1502002290) && SineTable(15) == Unsigned(1236535329)
  {
  }

  method EarlyFf(s: State, x: seq<bv32>) returns (r: State)
    requires |x| == 16
    ensures r == Steps(s, x, 0, 8)
  {
    hide *;
    NoSteps(s, x, 0);
    EarlyFfTables();
    var a, b, c, d := s.a, s.b, s.c, s.d;
    FfStep(s, x, 0, 0, State(a, b, c, d), 0, 7, -680876936);
    a := Ff(a, b, c, d, x[0], 7, Signed(-680876936));
    FfStep(s, x, 0, 1, State(d, a, b, c), 1, 12, -389564586);
    d := Ff(d, a, b, c, x[1], 12, Signed(-389564586));
    FfStep(s, x, 0, 2, State(c, d, a, b), 2, 17, 606105819);
    c := Ff(c, d, a, b, x[2], 17, Signed(606105819));
    FfStep(s, x, 0, 3, State(b, c, d, a), 3, 22, -1044525330);
    b := Ff(b, c, d, a, x[3], 22, Signed(-1044525330));
    FfStep(s, x, 0, 4, State(a, b, c, d), 4, 7, -176418897);
    a := Ff(a, b, c, d, x[4], 7, Signed(-176418897));
    FfStep(s, x, 0, 5, State(d, a, b, c), 5, 12, 1200080426);
    d := Ff(d, a, b, c, x[5], 12, Signed(1200080426));
    FfStep(s, x, 0, 6, State(c, d, a, b), 6, 17, -1473231341);
    c := Ff(c, d, a, b, x[6], 17, Signed(-1473231341));
    FfStep(s, x, 0, 7, State(b, c, d, a), 7, 22, -45705983);
    b := Ff(b, c, d, a, x[7], 22, Signed(-45705983));
    r := State(a, b, c, d);
  }

  method LateFf(s: State, x: seq<bv32>) returns (r: State)
    requires |x| == 16
    ensures r == Steps(s, x, 8, 8)
  {
    hide *;
    NoSteps(s, x, 8);
    LateFfTables();
    var a, b, c, d := s.a, s.b, s.c, s.d;
    FfStep(s, x, 8, 0, State(a, b, c, d), 8, 7, 1770035416);
    a := Ff(a, b, c, d, x[8], 7, Signed(1770035416));
    FfStep(s, x, 8, 1, State(d, a, b, c), 9, 12, -1958414417);
    d := Ff(d, a, b, c, x[9], 12, Signed(-1958414417));
    FfStep(s, x, 8, 2, State(c, d, a, b), 10, 17, -42063);
    c := Ff(c, d, a, b, x[10], 17, Signed(-42063));
    FfStep(s, x, 8, 3, State(b, c, d, a), 11, 22, -1990404162);
    b := Ff(b, c, d, a, x[11], 22, Signed(-1990404162));
    FfStep(s, x, 8, 4, State(a, b, c, d), 12, 7, 1804603682);
    a := Ff(a, b, c, d, x[12], 7, Signed(1804603682));
    FfStep(s, x, 8, 5, State(d, a, b, c), 13, 12, -40341101);
    d := Ff(d, a, b, c, x[13], 12, Signed(-40341101));
    FfStep(s, x, 8, 6, State(c, d, a, b), 14, 17, -1502002290);
    c := Ff(c, d, a, b, x[14], 17, Signed(-1502002290));
    FfStep(s, x, 8, 7, State(b, c, d, a), 15, 22, 1236535329);
    b := Ff(b, c, d, a, x[15], 22, Signed(1236535329));
    r := State(a, b, c, d);
  }

  lemma EarlyGgTables()
    ensures Place(16) == 1 && Place(17) == 6 && Place(18) == 11 && Place(19) == 0
    ensures Place(20) == 5 && Place(21) == 10 && Place(22) == 15 && Place(23) == 4
    ensures Shift(16) == 5 && Shift(17) == 9 && Shift(18) == 14 && Shift(19) == 20
    ensures Shift(20) == 5 && Shift(21) == 9 && Shift(22) == 14 && Shift(23) == 20
    ensures SineTable(16) == Unsigned(-165796510) && SineTable(17) == Unsigned(-1069501632)
    ensures SineTable(18) == Unsigned(643717713) && SineTable(19) == Unsigned(-373897302)
    ensures SineTable(20) == Unsigned(-701558691) && SineTable(21) == Unsigned(38016083)
    ensures SineTable(22) == Unsigned(-660478335) && SineTable(23) == Unsigned(-405537848)
  {
  }

  lemma LateGgTables()
    ensures Place(24) == 9 && Place(25) == 14 && Place(26) == 3 && Place(27) == 8
    ensures Place(28) == 13 && Place(29) == 2 && Place(30) == 7 && Place(31) == 12
    ensures Shift(24) == 5 && Shift(25) == 9 && Shift(26) == 14 && Shift(27) == 20
    ensures Shift(28) == 5 && Shift(29) == 9 && Shift(30) == 14 && Shift(31) == 20
    ensures SineTable(24) == Unsigned(568446438) && SineTable(25) == Unsigned(-1019803690)
    ensures SineTable(26) == Unsigned(-187363961) && SineTable(27) == Unsigned(1163531501)
    ensures SineTable(28) == Unsigned(-1444681467) && SineTable(29) == Unsigned(-51403784)
    ensures SineTable(30) == Unsigned(1735328473) && SineTable(31) == Unsigned(-1926607734)
  {
  }

  method EarlyGg(s: State, x: seq<bv32>) returns (r: State)
    requires |x| == 16
    ensures r == Steps(s, x, 16, 8)
  {
    hide *;
    NoSteps(s, x, 16);
    EarlyGgTables();
    var a, b, c, d := s.a, s.b, s.c, s.d;
    GgStep(s, x, 16, 0, State(a, b, c, d), 1, 5, -165796510);
    a := Gg(a, b, c, d, x[1], 5, Signed(-165796510));
    GgStep(s, x, 16, 1, State(d, a, b, c), 6, 9, -1069501632);
    d := Gg(d, a, b, c, x[6], 9, Signed(-1069501632));
    GgStep(s, x, 16, 2, State(c, d, a, b), 11, 14, 643717713);
    c := Gg(c, d, a, b, x[11], 14, Signed(643717713));
    GgStep(s, x, 16, 3, State(b, c, d, a), 0, 20, -373897302);
    b := Gg(b, c, d, a, x[0], 20, Signed(-373897302));
    GgStep(s, x, 16, 4, State(a, b, c, d), 5, 5, -701558691);
    a := Gg(a, b, c, d, x[5], 5, Signed(-701558691));
    GgStep(s, x, 16, 5, State(d, a, b, c), 10, 9, 38016083);
    d := Gg(d, a, b, c, x[10], 9, Signed(38016083));
    GgStep(s, x, 16, 6, State(c, d, a, b), 15, 14, -660478335);
    c := Gg(c, d, a, b, x[15], 14, Signed(-660478335));
    GgStep(s, x, 16, 7, State(b, c, d, a), 4, 20, -405537848);
    b := Gg(b, c, d, a, x[4], 20, Signed(-405537848));
    r := State(a, b, c, d);
  }

  method LateGg(s: State, x: seq<bv32>) returns (r: State)
    requires |x| == 16
    ensures r == Steps(s, x, 24, 8)
  {
    hide *;
    NoSteps(s, x, 24);
    LateGgTables();
    var a, b, c, d := s.a, s.b, s.c, s.d;
    GgStep(s, x, 24, 0, State(a, b, c, d), 9, 5, 568446438);
    a := Gg(a, b, c, d, x[9], 5, Signed(568446438));
    GgStep(s, x, 24, 1, State(d, a, b, c), 14, 9, -1019803690);
    d := Gg(d, a, b, c, x[14], 9, Signed(-1019803690));
    GgStep(s, x, 24, 2, State(c, d, a, b), 3, 14, -187363961);
    c := Gg(c, d, a, b, x[3], 14, Signed(-187363961));
    GgStep(s, x, 24, 3, State(b, c, d, a), 8, 20, 1163531501);
    b := Gg(b, c, d, a, x[8], 20, Signed(1163531501));
    GgStep(s, x, 24, 4, State(a, b, c, d), 13, 5, -1444681467);
    a := Gg(a, b, c, d, x[13], 5, Signed(-1444681467));
    GgStep(s, x, 24, 5, State(d, a, b, c), 2, 9, -51403784);
    d := Gg(d, a, b, c, x[2], 9, Signed(-51403784));
    GgStep(s, x, 24, 6, State(c, d, a, b), 7, 14, 1735328473);
    c := Gg(c, d, a, b, x[7], 14, Signed(1735328473));
    GgStep(s, x, 24, 7, State(b, c, d, a), 12, 20, -1926607734);
    b := Gg(b, c, d, a, x[12], 20, Signed(-1926607734));
    r := State(a, b, c, d);
  }

  lemma EarlyHhTables()
    ensures Place(32) == 5 && Place(33) == 8 && Place(34) == 11 && Place(35) == 14
    ensures Place(36) == 1 && Place(37) == 4 && Place(38) == 7 && Place(39) == 10
    ensures Shift(32) == 4 && Shift(33) == 11 && Shift(34) == 16 && Shift(35) == 23
    ensures Shift(36) == 4 && Shift(37) == 11 && Shift(38) == 16 && Shift(39) == 23
    ensures SineTable(32) == Unsigned(-378558) && SineTable(33) == Unsigned(-2022574463)
    ensures SineTable(34) == Unsigned(1839030562) && SineTable(35) == Unsigned(-35309556)
    ensures SineTable(36) == Unsigned(-1530992060) && SineTable(37) == Unsigned(1272893353)
    ensures SineTable(38) == Unsigned(-155497632) && SineTable(39) == Unsigned(-1094730640)
  {
  }

  lemma LateHhTables()
    ensures Place(40) == 13 && Place(41) == 0 && Place(42) == 3 && Place(43) == 6
    ensures Place(44) == 9 && Place(45) == 12 && Place(46) == 15 && Place(47) == 2
    ensures Shift(40) == 4 && Shift(41) == 11 && Shift(42) == 16 && Shift(43) == 23
    ensures Shift(44) == 4 && Shift(45) == 11 && Shift(46) == 16 && Shift(47) == 23
    ensures SineTable(40) == Unsigned(681279174) && SineTable(41) == Unsigned(-358537222)
    ensures SineTable(42) == Unsigned(-722521979) && SineTable(43) == Unsigned(76029189)
    ensures SineTable(44) == Unsigned(-640364487) && SineTable(45) == Unsigned(-421815835)
    ensures SineTable(46) == Unsigned(530742520) && SineTable(47) == Unsigned(-995338651)
  {
  }

  method EarlyHh(s: State, x: seq<bv32>) returns (r: State)
    requires |x| == 16
    ensures r == Steps(s, x, 32, 8)
  {
    hide *;
    NoSteps(s, x, 32);
    EarlyHhTables();
    var a, b, c, d := s.a, s.b, s.c, s.d;
    HhStep(s, x, 32, 0, State(a, b, c, d), 5, 4, -378558);
    a := Hh(a, b, c, d, x[5], 4, Signed(-378558));
    HhStep(s, x, 32, 1, State(d, a, b, c), 8, 11, -2022574463);
    d := Hh(d, a, b, c, x[8], 11, Signed(-2022574463));
    HhStep(s, x, 32, 2, State(c, d, a, b), 11, 16, 1839030562);
    c := Hh(c, d, a, b, x[11], 16, Signed(1839030562));
    HhStep(s, x, 32, 3, State(b, c, d, a), 14, 23, -35309556);
    b := Hh(b, c, d, a, x[14], 23, Signed(-35309556));
    HhStep(s, x, 32, 4, State(a, b, c, d), 1, 4, -1530992060);
    a := Hh(a, b, c, d, x[1], 4, Signed(-1530992060));
    HhStep(s, x, 32, 5, State(d, a, b, c), 4, 11, 1272893353);
    d := Hh(d, a, b, c, x[4], 11, Signed(1272893353));
    HhStep(s, x, 32, 6, State(c, d, a, b), 7, 16, -155497632);
    c := Hh(c, d, a, b, x[7], 16, Signed(-155497632));
    HhStep(s, x, 32, 7, State(b, c, d, a), 10, 23, -1094730640);
    b := Hh(b, c, d, a, x[10], 23, Signed(-1094730640));
    r := State(a, b, c, d);
  }

  method LateHh(s: State, x: seq<bv32>) returns (r: State)
    requires |x| == 16
    ensures r == Steps(s, x, 40, 8)
  {
    hide *;
    NoSteps(s, x, 40);
    LateHhTables();
    var a, b, c, d := s.a, s.b, s.c, s.d;
    HhStep(s, x, 40, 0, State(a, b, c, d), 13, 4, 681279174);
    a := Hh(a, b, c, d, x[13], 4, Signed(681279174));
    HhStep(s, x, 40, 1, State(d, a, b, c), 0, 11, -358537222);
    d := Hh(d, a, b, c, x[0], 11, Signed(-358537222));
    HhStep(s, x, 40, 2, State(c, d, a, b), 3, 16, -722521979);
    c := Hh(c, d, a, b, x[3], 16, Signed(-722521979));
    HhStep(s, x, 40, 3, State(b, c, d, a), 6, 23, 76029189);
    b := Hh(b, c, d, a, x[6], 23, Signed(76029189));
    HhStep(s, x, 40, 4, State(a, b, c, d), 9, 4, -640364487);
    a := Hh(a, b, c, d, x[9], 4, Signed(-640364487));
    HhStep(s, x, 40, 5, State(d, a, b, c), 12, 11, -421815835);
    d := Hh(d, a, b, c, x[12], 11, Signed(-421815835));
    HhStep(s, x, 40, 6, State(c, d, a, b), 15, 16, 530742520);
    c := Hh(c, d, a, b, x[15], 16, Signed(530742520));
    HhStep(s, x, 40, 7, State(b, c, d, a), 2, 23, -995338651);
    b := Hh(b, c, d, a, x[2], 23, Signed(-995338651));
    r := State(a, b, c, d);
  }

  lemma EarlyIiTables()
    ensures Place(48) == 0 && Place(49) == 7 && Place(50) == 14 && Place(51) == 5
    ensures Place(52) == 12 && Place(53) == 3 && Place(54) == 10 && Place(55) == 1
    ensures Shift(48) == 6 && Shift(49) == 10 && Shift(50) == 15 && Shift(51) == 21
    ensures Shift(52) == 6 && Shift(53) == 10 && Shift(54) == 15 && Shift(55) == 21
    ensures SineTable(48) == Unsigned(-198630844) && SineTable(49) == Unsigned(1126891415)
    ensures SineTable(50) == Unsigned(-1416354905) && SineTable(51) == Unsigned(-57434055)
    ensures SineTable(52) == Unsigned(1700485571) && SineTable(53) == Unsigned(-1894986606)
    ensures SineTable(54) == Unsigned(-1051523) && SineTable(55) == Unsigned(-2054922799)
  {
  }

  lemma LateIiTables()
    ensures Place(56) == 8 && Place(57) == 15 && Place(58) == 6 && Place(59) == 13
    ensures Place(60) == 4 && Place(61) == 11 && Place(62) == 2 && Place(63) == 9
    ensures Shift(56) == 6 && Shift(57) == 10 && Shift(58) == 15 && Shift(59) == 21
    ensures Shift(60) == 6 && Shift(61) == 10 && Shift(62) == 15 && Shift(63) == 21
    ensures SineTable(56) == Unsigned(1873313359) && SineTable(57) == Unsigned(-30611744)
    ensures SineTable(58) == Unsigned(-1560198380) && SineTable(59) == Unsigned(1309151649)
    ensures SineTable(60) == Unsigned(-145523070) && SineTable(61) == Unsigned(-1120210379)
    ensures SineTable(62) == Unsigned(718787259) && SineTable(63) == Unsigned(-343485551)
  {
  }

  method EarlyIi(s: State, x: seq<bv32>) returns (r: State)
    requires |x| == 16
    ensures r == Steps(s, x, 48, 8)
  {
    hide *;
    NoSteps(s, x, 48);
    EarlyIiTables();
    var a, b, c, d := s.a, s.b, s.c, s.d;
    IiStep(s, x, 48, 0, State(a, b, c, d), 0, 6, -198630844);
    a := Ii(a, b, c, d, x[0], 6, Signed(-198630844));
    IiStep(s, x, 48, 1, State(d, a, b, c), 7, 10, 1126891415);
    d := Ii(d, a, b, c, x[7], 10, Signed(1126891415));
    IiStep(s, x, 48, 2, State(c, d, a, b), 14, 15, -1416354905);
    c := Ii(c, d, a, b, x[14], 15, Signed(-1416354905));
    IiStep(s, x, 48, 3, State(b, c, d, a), 5, 21, -57434055);
    b := Ii(b, c, d, a, x[5], 21, Signed(-57434055));
    IiStep(s, x, 48, 4, State(a, b, c, d), 12, 6, 1700485571);
    a := Ii(a, b, c, d, x[12], 6, Signed(1700485571));
    IiStep(s, x, 48, 5, State(d, a, b, c), 3, 10, -1894986606);
    d := Ii(d, a, b, c, x[3], 10, Signed(-1894986606));
    IiStep(s, x, 48, 6, State(c, d, a, b), 10, 15, -1051523);
    c := Ii(c, d, a, b, x[10], 15, Signed(-1051523));
    IiStep(s, x, 48, 7, State(b, c, d, a), 1, 21, -2054922799);
    b := Ii(b, c, d, a, x[1], 21, Signed(-2054922799));
    r := State(a, b, c, d);
  }

  method LateIi(s: State, x: seq<bv32>) returns (r: State)
    requires |x| == 16
    ensures r == Steps(s, x, 56, 8)
  {
    hide *;
    NoSteps(s, x, 56);
    LateIiTables();
    var a, b, c, d := s.a, s.b, s.c, s.d;
    IiStep(s, x, 56, 0, State(a, b, c, d), 8, 6, 1873313359);
    a := Ii(a, b, c, d, x[8], 6, Signed(1873313359));
    IiStep(s, x, 56, 1, State(d, a, b, c), 15, 10, -30611744);
    d := Ii(d, a, b, c, x[15], 10, Signed(-30611744));
    IiStep(s, x, 56, 2, State(c, d, a, b), 6, 15, -1560198380);
    c := Ii(c, d, a, b, x[6], 15, Signed(-1560198380));
    IiStep(s, x, 56, 3, State(b, c, d, a), 13, 21, 1309151649);
    b := Ii(b, c, d, a, x[13], 21, Signed(1309151649));
    IiStep(s, x, 56, 4, State(a, b, c, d), 4, 6, -145523070);
    a := Ii(a, b, c, d, x[4], 6, Signed(-145523070));
    IiStep(s, x, 56, 5, State(d, a, b, c), 11, 10, -1120210379);
    d := Ii(d, a, b, c, x[11], 10, Signed(-1120210379));
    IiStep(s, x, 56, 6, State(c, d, a, b), 2, 15, 718787259);
    c := Ii(c, d, a, b, x[2], 15, Signed(718787259));
    IiStep(s, x, 56, 7, State(b, c, d, a), 9, 21, -343485551);
    b := Ii(b, c, d, a, x[9], 21, Signed(-343485551));
    r := State(a, b, c, d);
  }

  // ---------- blocks ----------

  lemma {:induction false} StepsSum(s: State, x: seq<bv32>, from: nat, m: nat, n: nat)
    requires |x| == 16 && from + m + n <= 64
    ensures Steps(Steps(s, x, from, m), x, from + m, n) == Steps(s, x, from, m + n)
  {
    hide Step;
    if n != 0 {
      StepsSum(s, x, from, m, n - 1);
    }
  }

  function Sum(s: State, t: State): State {
    State(Plus(s.a, t.a), Plus(s.b, t.b), Plus(s.c, t.c), Plus(s.d, t.d))
  }

  /** The four rounds over one block. */
  function Compressed(s: State, x: seq<bv32>): State
    requires |x| == 16
  {
    Sum(Steps(s, x, 0, 64), s)
  }

  function Block(ws: seq<bv32>, i: nat): (x: seq<bv32>)
    ensures |x| == 16
  {
    seq(16, k requires 0 <= k => At(ws, i + k))
  }

  /** The state after the blocks from word `i` on. */
  function Folded(s: State, ws: seq<bv32>, i: nat): State
    decreases |ws| - i
  {
    if |ws| <= i then s else Folded(Compressed(s, Block(ws, i)), ws, i + 16)
  }

  const INITIAL := State(0x67452301, 0xefcdab89, 0x98badcfe, 0x10325476)

  /** In bytes, low words and low bytes first, these are the ones of section 3.3 of RFC 1321. */
  lemma InitialBytes()
    ensures Listed(INITIAL) == Binl([0x01, 0x23, 0x45, 0x67, 0x89, 0xab, 0xcd, 0xef]
                                    + [0xfe, 0xdc, 0xba, 0x98, 0x76, 0x54, 0x32, 0x10])
  {
    var s: seq<bv8> := [0x01, 0x23, 0x45, 0x67, 0x89, 0xab, 0xcd, 0xef]
        + [0xfe, 0xdc, 0xba, 0x98, 0x76, 0x54, 0x32, 0x10];
    assert BinlAt(s, 0) == 0x67452301 && BinlAt(s, 1) == 0xefcdab89;
    assert BinlAt(s, 2) == 0x98badcfe && BinlAt(s, 3) == 0x10325476;
  }

  /** The loop over the blocks takes sixteen words in their order, and goes on behind them with what they made. */
  lemma FoldedByBlocks(s: State, x: seq<bv32>, ws: seq<bv32>)
    requires |x| == 16
    ensures Folded(s, x + ws, 0) == Folded(Compressed(s, x), ws, 0)
    ensures Folded(s, [], 0) == s
  {
    hide Compressed;
    assert Block(x + ws, 0) == x;
    FoldedBehind(Compressed(s, x), x, ws, 0);
  }

  lemma {:induction false} FoldedBehind(s: State, x: seq<bv32>, ws: seq<bv32>, i: nat)
    requires |x| == 16
    ensures Folded(s, x + ws, i + 16) == Folded(s, ws, i)
    decreases |ws| - i
  {
    hide Compressed;
    if i < |ws| {
      var b, c := Block(x + ws, i + 16), Block(ws, i);
      forall k | 0 <= k < 16
        ensures b[k] == c[k]
      {
        assert b[k] == At(x + ws, i + 16 + k) && c[k] == At(ws, i + k);
      }
      assert b == c;
      FoldedBehind(Compressed(s, Block(ws, i)), x, ws, i + 16);
    }
  }

  /** One round of the block loop: the sixty-four steps and the addition of the old state. */
  method CompressBlock(s: State, x: seq<bv32>) returns (r: State)
    requires |x| == 16
    ensures r == Compressed(s, x)
  {
    hide Steps, SafeAdd, Plus;
    var t := EarlyFf(s, x);
    t := LateFf(t, x);
    t := EarlyGg(t, x);
    t := LateGg(t, x);
    t := EarlyHh(t, x);
    t := LateHh(t, x);
    t := EarlyIi(t, x);
    t := LateIi(t, x);
    StepsSum(s, x, 0, 8, 8);
    StepsSum(s, x, 0, 16, 8);
    StepsSum(s, x, 0, 24, 8);
    StepsSum(s, x, 0, 32, 8);
    StepsSum(s, x, 0, 40, 8);
    StepsSum(s, x, 0, 48, 8);
    StepsSum(s, x, 0, 56, 8);
    r := State(SafeAdd(t.a, s.a), SafeAdd(t.b, s.b), SafeAdd(t.c, s.c), SafeAdd(t.d, s.d));
    SafeAddIsAddition(t.a, s.a);
    SafeAddIsAddition(t.b, s.b);
    SafeAddIsAddition(t.c, s.c);
    SafeAddIsAddition(t.d, s.d);
  }

  // ---------- padding ----------

  function BlockCount(len: nat): nat {
    (len + 64) / 512 + 1
  }

  function MarkerPlace(len: nat): nat {
    len / 32
  }

  function LengthPlace(len: nat): nat {
    (len + 64) / 512 * 16 + 14
  }

  /**
   * The padding always fits: the marker bit lies below the length word, which lies in the last of the least blocks
   * needed.
   */
  lemma PaddingBounds(len: nat)
    ensures 512 * BlockCount(len) >= len + 65 && 512 * (BlockCount(len) - 1) < len + 65
    ensures LengthPlace(len) == 16 * BlockCount(len) - 2
    ensures MarkerPlace(len) < LengthPlace(len)
  {
  }

  function LengthWord(len: nat): bv32 {
    WordOf(len % 0x1_0000_0000)
  }

  function MarkBit(n: nat): bv32
    requires n < 32
  {
    (0x80 as bv32) << n
  }

  function Marked(w: bv32, len: nat): bv32 {
    w | MarkBit(len % 32)
  }

  function PaddedSize(n: nat, len: nat): nat {
    if n < 16 * BlockCount(len) then 16 * BlockCount(len) else n
  }

  /** The array once the marker bit and the bit length are written into it. */
  function WithPadding(ws: seq<bv32>, len: nat): (r: seq<bv32>)
    ensures |r| == PaddedSize(|ws|, len)
  {
    PaddingBounds(len);
    var m, l := MarkerPlace(len), LengthPlace(len);
    ZeroExtended(ws, PaddedSize(|ws|, len))[m := Marked(At(ws, m), len)][l := LengthWord(len)]
  }

  /** Padding takes no word away and changes none but those of the marker and the length. */
  lemma PaddingKeeps(ws: seq<bv32>, len: nat, k: nat)
    requires k < |ws|
    ensures k < |WithPadding(ws, len)|
    ensures k != MarkerPlace(len) && k != LengthPlace(len) ==> WithPadding(ws, len)[k] == ws[k]
    ensures k == MarkerPlace(len) ==> WithPadding(ws, len)[k] == ws[k] | ((0x80 as bv32) << (len % 32))
  {
    PaddingBounds(len);
    hide BlockCount, MarkerPlace, LengthPlace;
  }

  function Digest(ws: seq<bv32>, len: nat): State {
    Folded(INITIAL, WithPadding(ws, len), 0)
  }

  function Listed(s: State): (ws: seq<bv32>)
    ensures |ws| == 4
  {
    [s.a, s.b, s.c, s.d]
  }

  /** Pads the array in place and returns the four words of its digest in a new one. */
  method CoreMd5(ina: WordArray, len: nat) returns (ret: WordArray)
    requires ina.Valid()
    modifies ina, ina.elem
    ensures ina.Valid() && (ina.elem == old(ina.elem) || fresh(ina.elem))
    ensures ina.Contents() == WithPadding(old(ina.Contents()), len)
    ensures fresh(ret) && fresh(ret.elem) && ret.elem != ina.elem
    ensures ret.Valid() && ret.Contents() == Listed(Digest(old(ina.Contents()), len))
  {
    hide WithPadding, Folded;
    PadArray(ina, len);
    var s := FoldArray(ina);
    ret := ListArray(s);
  }

  method FoldArray(ina: WordArray) returns (s: State)
    requires ina.Valid()
    ensures s == Folded(INITIAL, ina.Contents(), 0)
  {
    hide Compressed;
    s := InitialState();
    var i := 0;
    while i < ina.used
      invariant Folded(INITIAL, ina.Contents(), 0) == Folded(s, ina.Contents(), i)
    {
      s := CompressBlock(s, Block(ina.Contents(), i));
      i := i + 16;
    }
  }

  method InitialState() returns (s: State)
    ensures s == INITIAL
  {
    s := State(Signed(1732584193), Signed(-271733879), Signed(-1732584194), Signed(271733878));
  }

  method PadArray(ina: WordArray, len: nat)
    requires ina.Valid()
    modifies ina, ina.elem
    ensures ina.Valid() && (ina.elem == old(ina.elem) || fresh(ina.elem))
    ensures ina.Contents() == WithPadding(old(ina.Contents()), len)
  {
    hide Marked, LengthWord;
    PaddingBounds(len);
    hide BlockCount, MarkerPlace, LengthPlace;
    ina.ZeroTo(16 * BlockCount(len));
    ina.Set(MarkerPlace(len), Marked(ina.Get(MarkerPlace(len)), len));
    ina.Set(LengthPlace(len), LengthWord(len));
  }

  method ListArray(s: State) returns (ret: WordArray)
    ensures fresh(ret) && fresh(ret.elem)
    ensures ret.Valid() && ret.Contents() == Listed(s)
  {
    ret := new WordArray(4);
    ret.Insert(s.a);
    ret.Insert(s.b);
    ret.Insert(s.c);
    ret.Insert(s.d);
  }

  // ---------- strings as words ----------

  /** Puts a byte into place `j` of a word, the lowest place being the first. */
  function Put(w: bv32, c: bv8, j: nat): bv32
    requires j < 4
  {
    var b := c as bv32;
    if j == 0 then w | b else if j == 1 then w | (b << 8) else if j == 2 then w | (b << 16) else w | (b << 24)
  }

  /** Four bytes as a word, the first one lowest. */
  function LittleEndian(a: bv8, b: bv8, c: bv8, d: bv8): bv32 {
    Put(Put(Put(Put(0, a, 0), b, 1), c, 2), d, 3)
  }

  function BinlAt(s: seq<bv8>, k: nat): bv32 {
    LittleEndian(CharAt(s, 4 * k), CharAt(s, 4 * k + 1), CharAt(s, 4 * k + 2), CharAt(s, 4 * k + 3))
  }

  /** The words of a string, the last one filled up with zeros. */
  function Binl(s: seq<bv8>): seq<bv32> {
    seq((|s| + 3) / 4, k requires 0 <= k => BinlAt(s, k))
  }

  lemma PutNothing(w: bv32, j: nat)
    requires j < 4
    ensures Put(w, 0, j) == w
  {
    if j == 0 {} else if j == 1 {} else if j == 2 {} else {}
  }

  /** One more character is one more byte in the word it falls in; the other words keep their value. */
  lemma BinlAtAppend(s: seq<bv8>, c: bv8, k: nat)
    ensures BinlAt(s + [c], k) == if k == |s| / 4 then Put(BinlAt(s, k), c, |s| % 4) else BinlAt(s, k)
    ensures |s| <= 4 * k ==> BinlAt(s, k) == 0
  {
    forall w, j | 0 <= j < 4
      ensures Put(w, 0, j) == w
    {
      PutNothing(w, j);
    }
    hide Put;
    var j := |s| % 4;
    assert |s| == 4 * (|s| / 4) + j;
    if k == |s| / 4 {
      if j == 0 {
      } else if j == 1 {
      } else if j == 2 {
      } else {
      }
    }
  }

  method Str2Binl(str: seq<bv8>) returns (bin: WordArray)
    ensures fresh(bin) && fresh(bin.elem)
    ensures bin.Valid() && bin.Contents() == Binl(str)
  {
    hide Binl, Put;
    var len := |str|;
    bin := new WordArray(len * 2);
    BinlOfNothing();
    for i := 0 to len
      invariant fresh(bin.elem) && bin.Valid() && (0 < len ==> 0 < bin.elem.Length)
      invariant bin.Contents() == Binl(str[..i])
    {
      BinlNext(str, i);
      if i % 4 == 0 {
        bin.Insert(0);
      }
      bin.Set(i / 4, Put(bin.Get(i / 4), str[i], i % 4));
    }
    assert str[..len] == str;
  }

  lemma BinlOfNothing()
    ensures Binl([]) == []
  {
  }

  lemma BinlNext(s: seq<bv8>, i: nat)
    requires i < |s|
    ensures var b := Binl(s[..i]) + if i % 4 == 0 then [0] else [];
            i / 4 < |b| && Binl(s[..i + 1]) == b[i / 4 := Put(b[i / 4], s[i], i % 4)]
  {
    hide Binl, Put;
    BinlStep(s[..i], s[i]);
    assert s[..i] + [s[i]] == s[..i + 1];
  }

  lemma BinlStep(s: seq<bv8>, c: bv8)
    ensures var b := Binl(s) + if |s| % 4 == 0 then [0] else [];
            |s| / 4 < |b| && Binl(s + [c]) == b[|s| / 4 := Put(b[|s| / 4], c, |s| % 4)]
  {
    hide BinlAt, Put;
    forall k | 0 <= k < |Binl(s + [c])|
      ensures BinlAt(s + [c], k) == if k == |s| / 4 then Put(BinlAt(s, k), c, |s| % 4) else BinlAt(s, k)
    {
      BinlAtAppend(s, c, k);
    }
    BinlAtAppend(s, c, |s| / 4);
  }

  // ---------- padding as sections 3.1 and 3.2 of RFC 1321 state it ----------

  /** How many zero bytes follow the marker: the least number that leaves eight bytes of a block. */
  function Fill(n: nat): nat {
    (119 - n % 64) % 64
  }

  lemma FillIsLeast(n: nat, f: nat)
    ensures (n + 1 + Fill(n)) % 64 == 56
    ensures f < Fill(n) ==> (n + 1 + f) % 64 != 56
  {
    var q, c := n / 64, n % 64;
    assert n + 1 + Fill(n) == if c <= 55 then 64 * q + 56 else 64 * (q + 1) + 56;
    assert n + 1 + f == 64 * q + (c + 1 + f);
  }

  /** The message, a one bit, zeros, and the bit length as two words, the low one first. */
  function RfcPadded(p: seq<bv8>): seq<bv32> {
    var b := 8 * |p|;
    Binl(p + [0x80] + Copies(0, Fill(|p|))) + [WordOf(b % 0x1_0000_0000), WordOf(b / 0x1_0000_0000 % 0x1_0000_0000)]
  }

  lemma BinlReads(s: seq<bv8>, k: nat)
    ensures At(Binl(s), k) == BinlAt(s, k)
  {
  }

  lemma ZerosAddNothing(s: seq<bv8>, n: nat, k: nat)
    ensures BinlAt(s + Copies(0, n), k) == BinlAt(s, k)
  {
  }

  lemma MarkBits()
    ensures MarkBit(0) == 0x80 && MarkBit(8) == 0x8000 && MarkBit(16) == 0x800000 && MarkBit(24) == 0x80000000
  {
  }

  lemma MarkerPut(w: bv32)
    ensures Put(w, 0x80, 0) == w | 0x80 && Put(w, 0x80, 1) == w | 0x8000
    ensures Put(w, 0x80, 2) == w | 0x800000 && Put(w, 0x80, 3) == w | 0x80000000
  {
  }

  lemma MarkerPlaces(w: bv32, j: nat)
    requires j < 4
    ensures w | MarkBit(8 * j) == Put(w, 0x80, j)
  {
    hide MarkBit, Put;
    match j
    case 0 => MarkerPut(w); MarkBits();
    case 1 => MarkerPut(w); MarkBits();
    case 2 => MarkerPut(w); MarkBits();
    case _ => MarkerPut(w); MarkBits();
  }

  lemma MarkerIsByte(w: bv32, n: nat)
    ensures Marked(w, 8 * n) == Put(w, 0x80, n % 4)
  {
    hide MarkBit, Put;
    assert 8 * n % 32 == 8 * (n % 4);
    MarkerPlaces(w, n % 4);
  }

  lemma PaddingPlaces(n: nat)
    ensures n + 1 + Fill(n) == 4 * LengthPlace(8 * n)
    ensures MarkerPlace(8 * n) == n / 4
    ensures (n + 3) / 4 <= 16 * BlockCount(8 * n) == LengthPlace(8 * n) + 2
  {
    assert (8 * n + 64) / 512 == (n + 8) / 64;
    var q := (n + 8) / 64;
    assert n + 8 == 64 * q + (n + 8) % 64;
  }

  lemma PaddedWord(p: seq<bv8>, k: nat)
    requires k < LengthPlace(8 * |p|)
    ensures k < |RfcPadded(p)| && WithPadding(Binl(p), 8 * |p|)[k] == RfcPadded(p)[k]
  {
    hide BinlAt, Marked, WordOf, MarkerPlace, LengthPlace, BlockCount, Fill, Put;
    var n, s := |p|, p + [0x80];
    PaddingPlaces(n);
    PaddingBounds(8 * n);
    BinlReads(p, k);
    BinlAtAppend(p, 0x80, k);
    ZerosAddNothing(s, Fill(n), k);
    MarkerIsByte(BinlAt(p, k), n);
  }

  lemma PaddedSizes(p: seq<bv8>)
    ensures |WithPadding(Binl(p), 8 * |p|)| == |RfcPadded(p)| == LengthPlace(8 * |p|) + 2
  {
    hide BinlAt, Marked, WordOf, MarkerPlace, LengthPlace, BlockCount, Fill;
    PaddingPlaces(|p|);
    PaddingBounds(8 * |p|);
    assert |p + [0x80] + Copies(0, Fill(|p|))| == 4 * LengthPlace(8 * |p|);
  }

  lemma PaddedLength(p: seq<bv8>)
    requires 8 * |p| < 0x1_0000_0000
    ensures var l := LengthPlace(8 * |p|);
            && l + 1 < |RfcPadded(p)| && l + 1 < |WithPadding(Binl(p), 8 * |p|)|
            && WithPadding(Binl(p), 8 * |p|)[l] == RfcPadded(p)[l]
            && WithPadding(Binl(p), 8 * |p|)[l + 1] == RfcPadded(p)[l + 1]
  {
    assert WordOf(0) == 0;
    assert 8 * |p| / 0x1_0000_0000 % 0x1_0000_0000 == 0;
    PaddedSizes(p);
    PaddingPlaces(|p|);
    PaddingBounds(8 * |p|);
    hide BinlAt, Marked, WordOf, MarkerPlace, LengthPlace, BlockCount, Fill;
    var l := LengthPlace(8 * |p|);
    BinlReads(p, l + 1);
    BinlAtAppend(p, 0, l + 1);
  }

  /** What the array holds is the padded message of the standard, as long as its bit length fits one word. */
  lemma PaddingIsStandard(p: seq<bv8>)
    requires 8 * |p| < 0x1_0000_0000
    ensures WithPadding(Binl(p), 8 * |p|) == RfcPadded(p)
  {
    hide WithPadding, RfcPadded, LengthPlace;
    PaddedSizes(p);
    PaddedLength(p);
    forall k | 0 <= k < LengthPlace(8 * |p|)
      ensures WithPadding(Binl(p), 8 * |p|)[k] == RfcPadded(p)[k]
    {
      PaddedWord(p, k);
    }
  }

  /** So the digest of a string's words is the MD5 digest of the string. */
  lemma DigestIsStandard(p: seq<bv8>)
    requires 8 * |p| < 0x1_0000_0000
    ensures Digest(Binl(p), 8 * |p|) == Folded(INITIAL, RfcPadded(p), 0)
  {
    hide WithPadding, RfcPadded, Folded;
    PaddingIsStandard(p);
  }

  // ---------- the signed shift ----------

  /** The rotation if its right shift copied the sign, as an `int` shift does. */
  function SignedRol(num: bv32, cnt: nat): bv32
    requires 0 < cnt < 32
  {
    if HasSign(num) then Filled(BitRol(num, cnt), cnt) else BitRol(num, cnt)
  }

  predicate HasSign(num: bv32) {
    num & 0x80000000 != 0
  }

  lemma SignIsTop(num: bv32)
    ensures HasSign(num) <==> 0x80000000 <= num
  {
  }

  function Filled(w: bv32, cnt: nat): bv32
    requires cnt < 32
  {
    w | Ones(cnt)
  }

  /** Ones from place `cnt` up: what a signed shift to the right by `32 - cnt` fills in. */
  function Ones(cnt: nat): bv32
    requires cnt < 32
  {
    (0xffffffff as bv32) << cnt
  }

  function Up(num: bv32, cnt: nat): bv32
    requires cnt < 32
  {
    num << cnt
  }

  function Down(num: bv32, cnt: nat): bv32
    requires 0 < cnt < 32
  {
    num >> (32 - cnt)
  }

  predicate Apart(num: bv32, cnt: nat)
    requires 0 < cnt < 32
  {
    Up(num, cnt) & !Ones(cnt) == 0 && Down(num, cnt) & Ones(cnt) == 0
  }

  lemma ShiftsFirst(num: bv32)
    ensures Up(num, 7) == num << 7 && Down(num, 7) == num >> 25 && Ones(7) == 0xffffff80
    ensures Up(num, 12) == num << 12 && Down(num, 12) == num >> 20 && Ones(12) == 0xfffff000
    ensures Up(num, 17) == num << 17 && Down(num, 17) == num >> 15 && Ones(17) == 0xfffe0000
    ensures Up(num, 22) == num << 22 && Down(num, 22) == num >> 10 && Ones(22) == 0xffc00000
  {
  }

  lemma ShiftsSecond(num: bv32)
    ensures Up(num, 5) == num << 5 && Down(num, 5) == num >> 27 && Ones(5) == 0xffffffe0
    ensures Up(num, 9) == num << 9 && Down(num, 9) == num >> 23 && Ones(9) == 0xfffffe00
    ensures Up(num, 14) == num << 14 && Down(num, 14) == num >> 18 && Ones(14) == 0xffffc000
    ensures Up(num, 20) == num << 20 && Down(num, 20) == num >> 12 && Ones(20) == 0xfff00000
  {
  }

  lemma ShiftsThird(num: bv32)
    ensures Up(num, 4) == num << 4 && Down(num, 4) == num >> 28 && Ones(4) == 0xfffffff0
    ensures Up(num, 11) == num << 11 && Down(num, 11) == num >> 21 && Ones(11) == 0xfffff800
    ensures Up(num, 16) == num << 16 && Down(num, 16) == num >> 16 && Ones(16) == 0xffff0000
    ensures Up(num, 23) == num << 23 && Down(num, 23) == num >> 9 && Ones(23) == 0xff800000
  {
  }

  lemma ShiftsFourth(num: bv32)
    ensures Up(num, 6) == num << 6 && Down(num, 6) == num >> 26 && Ones(6) == 0xffffffc0
    ensures Up(num, 10) == num << 10 && Down(num, 10) == num >> 22 && Ones(10) == 0xfffffc00
    ensures Up(num, 15) == num << 15 && Down(num, 15) == num >> 17 && Ones(15) == 0xffff8000
    ensures Up(num, 21) == num << 21 && Down(num, 21) == num >> 11 && Ones(21) == 0xffe00000
  {
  }

  lemma HalvesApartFirst(num: bv32)
    ensures Apart(num, 7) && Apart(num, 12) && Apart(num, 17) && Apart(num, 22)
  {
    hide Up, Down, Ones;
    ShiftsFirst(num);
  }

  lemma HalvesApartSecond(num: bv32)
    ensures Apart(num, 5) && Apart(num, 9) && Apart(num, 14) && Apart(num, 20)
  {
    hide Up, Down, Ones;
    ShiftsSecond(num);
  }

  lemma HalvesApartThird(num: bv32)
    ensures Apart(num, 4) && Apart(num, 11) && Apart(num, 16) && Apart(num, 23)
  {
    hide Up, Down, Ones;
    ShiftsThird(num);
  }

  lemma HalvesApartFourth(num: bv32)
    ensures Apart(num, 6) && Apart(num, 10) && Apart(num, 15) && Apart(num, 21)
  {
    hide Up, Down, Ones;
    ShiftsFourth(num);
  }

  lemma UpIfFilled(num: bv32, cnt: nat)
    requires 0 < cnt < 32 && Apart(num, cnt) && Filled(BitRol(num, cnt), cnt) == BitRol(num, cnt)
    ensures Up(num, cnt) == Ones(cnt)
  {
    hide Up, Down, Ones, BitRol;
    RolIs(num, cnt);
  }

  lemma FilledIfUp(num: bv32, cnt: nat)
    requires 0 < cnt < 32 && Up(num, cnt) == Ones(cnt)
    ensures Filled(BitRol(num, cnt), cnt) == BitRol(num, cnt)
  {
    hide Up, Down, Ones, BitRol;
    RolIs(num, cnt);
  }

  lemma RolIs(num: bv32, cnt: nat)
    requires 0 < cnt < 32
    ensures BitRol(num, cnt) == Up(num, cnt) | Down(num, cnt)
  {
  }

  /** With the signed shift a step would rotate only words without a sign, or whose low `32 - s` bits are all set. */
  lemma SignedRotationIff(num: bv32, i: nat)
    requires i < 64
    ensures var s := Shift(i);
            SignedRol(num, s) == Rotated(num, s) <==> !HasSign(num) || Up(num, s) == Ones(s)
  {
    hide Rotated, Shift, BitRol, Up, Ones, Apart, HasSign, Filled;
    var s := Shift(i);
    RotationByHand(num, i);
    if Up(num, s) == Ones(s) {
      FilledIfUp(num, s);
    } else if Filled(BitRol(num, s), s) == BitRol(num, s) {
      ShiftsApart(num, i);
      UpIfFilled(num, s);
    }
  }

  lemma ShiftsApart(num: bv32, i: nat)
    requires i < 64
    ensures Apart(num, Shift(i))
  {
    hide Apart;
    HalvesApartFirst(num);
    HalvesApartSecond(num);
    HalvesApartThird(num);
    HalvesApartFourth(num);
  }

  /** In every step there is a word that it would not rotate. */
  lemma SignedRotationFails(i: nat)
    requires i < 64
    ensures SignedRol(0x80000000, Shift(i)) != Rotated(0x80000000, Shift(i))
  {
    SignedRotationIff(0x80000000, i);
  }
}
