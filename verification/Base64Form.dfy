/**
 * The text form of cipher words: base64 of their low bytes (sections 3.2 and 4 of RFC 4648, without
 * padding), broken into lines after every 48 words; and the way back.
 */
module Base64Form {
  import opened Buffers
  import opened BitPacking

  const NEWLINE: bv8 := 0x0a

  // ---------- the alphabet ----------

  const B64_TAB: seq<bv8> :=
    [0x41, 0x42, 0x43, 0x44, 0x45, 0x46, 0x47, 0x48, 0x49, 0x4a, 0x4b, 0x4c, 0x4d]
    + [0x4e, 0x4f, 0x50, 0x51, 0x52, 0x53, 0x54, 0x55, 0x56, 0x57, 0x58, 0x59, 0x5a]
    + [0x61, 0x62, 0x63, 0x64, 0x65, 0x66, 0x67, 0x68, 0x69, 0x6a, 0x6b, 0x6c, 0x6d]
    + [0x6e, 0x6f, 0x70, 0x71, 0x72, 0x73, 0x74, 0x75, 0x76, 0x77, 0x78, 0x79, 0x7a]
    + [0x30, 0x31, 0x32, 0x33, 0x34, 0x35, 0x36, 0x37, 0x38, 0x39, 0x2b, 0x2f]

  /** The alphabet by ranges: A-Z, a-z, 0-9, + and /. */
  function Digit(v: bv32): bv8
    requires v < 64
  {
    var b := v as bv8;
    if b < 26 then 0x41 + b else if b < 52 then 0x47 + b else if b < 62 then b - 4 else if b == 62 then 0x2b else 0x2f
  }

  lemma TableIsAlphabet(v: bv32)
    requires v < 64
    ensures B64_TAB[v as nat] == Digit(v)
  {
  }

  lemma DigitInjective(v: bv32, w: bv32)
    requires v < 64 && w < 64 && Digit(v) == Digit(w)
    ensures v == w
  {
  }

  /** The first place of `c` in a table at or after `i`, or the table's length. */
  function PlaceFrom(tab: seq<bv8>, c: bv8, i: nat): (p: nat)
    requires i <= |tab|
    ensures i <= p <= |tab|
    ensures p < |tab| ==> tab[p] == c
    ensures forall k | i <= k < p :: tab[k] != c
    decreases |tab| - i
  {
    if i == |tab| || tab[i] == c then i else PlaceFrom(tab, c, i + 1)
  }

  function PlaceOf(c: bv8): (p: nat)
    ensures p <= 64
    ensures p < 64 ==> B64_TAB[p] == c
    ensures forall k | 0 <= k < p :: B64_TAB[k] != c
  {
    PlaceFrom(B64_TAB, c, 0)
  }

  lemma TableSize()
    ensures |B64_TAB| == 64
  {
  }

  method Decode(c: bv8) returns (i: nat)
    ensures i == PlaceOf(c) <= 64
    ensures i < 64 ==> B64_TAB[i] == c
    ensures forall k | 0 <= k < i :: B64_TAB[k] != c
  {
    hide B64_TAB;
    TableSize();
    i := 0;
    while i < 64
      invariant i <= 64 && PlaceOf(c) == PlaceFrom(B64_TAB, c, i)
    {
      if B64_TAB[i] == c {
        break;
      }
      i := i + 1;
    }
  }

  /** The value of a character, 64 for one outside the alphabet. */
  function Value(c: bv8): bv32 {
    (PlaceOf(c) as bv8) as bv32
  }

  lemma ValueOfDigit(v: bv32)
    requires v < 64
    ensures Value(Digit(v)) == v
  {
    var n, p := v as nat, PlaceOf(Digit(v));
    TableIsAlphabet(v);
    assert p <= n < 64;
    PlaceAsWord(p);
    TableIsAlphabet((p as bv8) as bv32);
    DigitInjective(v, (p as bv8) as bv32);
  }

  lemma PlaceAsWord(p: nat)
    requires p < 64
    ensures ((p as bv8) as bv32) < 64 && ((p as bv8) as bv32) as nat == p
  {
    PlaceAsByte(p);
    var b := p as bv8;
  }

  lemma PlaceAsByte(p: nat)
    requires p < 64
    ensures (p as bv8) as nat == p
  {
  }

  // ---------- words to text ----------

  function Triplet(u: bv32, v: bv32, w: bv32): bv32 {
    ((u << 16) & 0xffffff) | ((v << 8) & 0xffff) | (w & 0xff)
  }

  function Sextet(t: bv32, j: nat): (v: bv32)
    requires j < 4
    ensures v < 64
  {
    (if j == 0 then t >> 18 else if j == 1 then t >> 12 else if j == 2 then t >> 6 else t) & 0x3f
  }

  function DigitOf(t: bv32, j: nat): bv8
    requires j < 4
  {
    Digit(Sextet(t, j))
  }

  /** The characters of one group of words: a zero word in the second or third place drops its character. */
  function Quad(u: bv32, v: bv32, w: bv32): (q: seq<bv8>)
    ensures 2 <= |q| <= 4
  {
    var t := Triplet(u, v, w);
    [DigitOf(t, 0), DigitOf(t, 1)] + (if v != 0 then [DigitOf(t, 2)] else []) + (if w != 0 then [DigitOf(t, 3)] else [])
  }

  function QuadAt(ws: seq<bv32>, i: nat): seq<bv8> {
    Quad(At(ws, i), At(ws, i + 1), At(ws, i + 2))
  }

  function Break(i: nat, n: nat): seq<bv8> {
    if i % 48 == 45 && i + 3 < n then [NEWLINE] else []
  }

  /** The text of the words from position `i` on. */
  function FormFrom(ws: seq<bv32>, i: nat): seq<bv8>
    decreases |ws| - i
  {
    if |ws| <= i then [] else QuadAt(ws, i) + Break(i, |ws|) + FormFrom(ws, i + 3)
  }

  function Form(ws: seq<bv32>): seq<bv8> {
    FormFrom(ws, 0)
  }

  /** Appends the text of an array to `buf`, one line at a time. */
  method ArrayToForm(buf: ByteBuffer, arr: WordArray)
    requires buf.Valid() && arr.Valid()
    modifies buf, buf.str
    ensures buf.Valid() && (buf.str == old(buf.str) || fresh(buf.str))
    ensures buf.Contents() == old(buf.Contents()) + Form(arr.Contents())
  {
    hide QuadAt, Break, FormFrom;
    ghost var ws := arr.Contents();
    var lng := arr.used;
    var str := new ByteBuffer(if lng == 0 then 1 else lng);
    var i := 0;
    while i < lng
      invariant buf.Valid() && (buf.str == old(buf.str) || fresh(buf.str))
      invariant str.Valid() && fresh(str) && fresh(str.str) && str.str != buf.str
      invariant arr.Valid() && arr.Contents() == ws
      invariant old(buf.Contents()) + Form(ws)
             == buf.Contents() + (if i < lng then str.Contents() else []) + FormFrom(ws, i)
    {
      FormBehind(buf.Contents() + str.Contents(), ws, i);
      GroupToForm(buf, str, arr, i);
      i := i + 3;
    }
    FormStep(ws, i);
  }

  /** One round of the loop: the characters of a group, and whatever ends its line. */
  method GroupToForm(buf: ByteBuffer, str: ByteBuffer, arr: WordArray, i: nat)
    requires buf.Valid() && str.Valid() && buf != str && buf.str != str.str && arr.Valid() && i < arr.used
    modifies buf, buf.str, str, str.str
    ensures buf.Valid() && (buf.str == old(buf.str) || fresh(buf.str))
    ensures str.Valid() && (str.str == old(str.str) || fresh(str.str)) && str.str != buf.str
    ensures old(buf.Contents()) + old(str.Contents()) + QuadAt(arr.Contents(), i) + Break(i, arr.used)
         == buf.Contents() + if i + 3 < arr.used then str.Contents() else []
  {
    hide QuadAt, Quad, Break;
    QuadInPlace(arr.Contents(), i);
    PushQuad(str, arr.Get(i), arr.Get(i + 1), arr.Get(i + 2));
    EndGroup(buf, str, i, arr.used);
  }

  lemma QuadInPlace(ws: seq<bv32>, i: nat)
    ensures QuadAt(ws, i) == Quad(At(ws, i), At(ws, i + 1), At(ws, i + 2))
  {
  }

  /** A full line, and the last one, is moved to `buf`; a full line that is not the last leaves a newline behind. */
  method EndGroup(buf: ByteBuffer, str: ByteBuffer, i: nat, lng: nat)
    requires buf.Valid() && str.Valid() && buf != str && buf.str != str.str && 0 < str.len
    modifies buf, buf.str, str, str.str
    ensures buf.Valid() && (buf.str == old(buf.str) || fresh(buf.str))
    ensures str.Valid() && (str.str == old(str.str) || fresh(str.str)) && str.str != buf.str
    ensures old(buf.Contents()) + old(str.Contents()) + Break(i, lng)
         == buf.Contents() + if i + 3 < lng then str.Contents() else []
  {
    if i % 48 == 45 {
      buf.Push(str.str[..str.len]);
      if i + 3 < lng {
        str.Clear();
        str.Push([NEWLINE]);
      }
    } else {
      if lng <= i + 3 {
        buf.Push(str.str[..str.len]);
      }
    }
  }

  method PushQuad(str: ByteBuffer, u: bv32, b2: bv32, b3: bv32)
    requires str.Valid()
    modifies str, str.str
    ensures str.Valid() && (str.str == old(str.str) || fresh(str.str))
    ensures str.Contents() == old(str.Contents()) + Quad(u, b2, b3) && 0 < str.len
  {
    hide DigitOf, Triplet, Quad;
    ghost var s := str.Contents();
    var triplet := Triplet(u, b2, b3);
    PushDigit(str, triplet, 0);
    PushDigit(str, triplet, 1);
    ghost var c := if b2 != 0 then [DigitOf(triplet, 2)] else [];
    if b2 != 0 {
      PushDigit(str, triplet, 2);
    }
    assert str.Contents() == s + [DigitOf(triplet, 0)] + [DigitOf(triplet, 1)] + c;
    if b3 != 0 {
      PushDigit(str, triplet, 3);
    }
    QuadInParts(s, u, b2, b3);
  }

  lemma QuadInParts(s: seq<bv8>, u: bv32, v: bv32, w: bv32)
    ensures var t := Triplet(u, v, w);
            s + Quad(u, v, w) == s + [DigitOf(t, 0)] + [DigitOf(t, 1)] + (if v != 0 then [DigitOf(t, 2)] else [])
                               + if w != 0 then [DigitOf(t, 3)] else []
  {
  }

  method PushDigit(str: ByteBuffer, t: bv32, j: nat)
    requires str.Valid() && j < 4
    modifies str, str.str
    ensures str.Valid() && (str.str == old(str.str) || fresh(str.str))
    ensures str.Contents() == old(str.Contents()) + [DigitOf(t, j)]
  {
    hide Digit;
    var v := Sextet(t, j);
    TableIsAlphabet(v);
    str.Push([B64_TAB[v as nat]]);
  }

  // ---------- text to words ----------

  /** Four values put together; each is cut to the bits left for it. */
  function Together(a: bv32, b: bv32, c: bv32, d: bv32): bv32 {
    ((a << 18) & 0xffffff) | ((b << 12) & 0x3ffff) | ((c << 6) & 0xfff) | (d & 0x3f)
  }

  function ByteOf(t: bv32, j: nat): bv32
    requires j < 3
  {
    (if j == 0 then t >> 16 else if j == 1 then t >> 8 else t) & 0xff
  }

  function TripletOf(a: bv8, b: bv8, c: bv8, d: bv8): bv32 {
    Together(Value(a), Value(b), Value(c), Value(d))
  }

  /** The words of one group of characters; a missing third or fourth character is zero and yields none. */
  function Group(a: bv8, b: bv8, c: bv8, d: bv8): (g: seq<bv32>)
    ensures 1 <= |g| <= 3
  {
    var t := TripletOf(a, b, c, d);
    [ByteOf(t, 0)] + (if c != 0 then [ByteOf(t, 1)] else []) + (if d != 0 then [ByteOf(t, 2)] else [])
  }

  function Rest<T>(s: seq<T>, n: nat): (r: seq<T>)
    ensures |r| == if n <= |s| then |s| - n else 0
    ensures n <= |s| ==> r == s[n..]
  {
    if n <= |s| then s[n..] else []
  }

  function Decoded(t: seq<bv8>): (ws: seq<bv32>)
    ensures t == [] ==> ws == []
    decreases |t|
  {
    if t == [] then [] else Group(t[0], CharAt(t, 1), CharAt(t, 2), CharAt(t, 3)) + Decoded(Rest(t, 4))
  }

  method B64ToArray(str: seq<bv8>) returns (arr: WordArray)
    ensures fresh(arr) && fresh(arr.elem)
    ensures arr.Valid() && arr.Contents() == Decoded(str)
  {
    hide Decoded, Group, CharAt;
    var lng := |str|;
    arr := new WordArray(lng);
    var i := 0;
    assert Rest(str, 0) == str;
    while i < lng
      invariant fresh(arr.elem) && arr.Valid() && (0 < lng ==> 0 < arr.elem.Length)
      invariant Decoded(str) == arr.Contents() + Decoded(Rest(str, i))
    {
      DecodedStep(str, i);
      InsertGroup(arr, str[i], CharAt(str, i + 1), CharAt(str, i + 2), CharAt(str, i + 3));
      i := i + 4;
    }
  }

  lemma DecodedStep(s: seq<bv8>, i: nat)
    requires i < |s|
    ensures Decoded(Rest(s, i))
         == Group(s[i], CharAt(s, i + 1), CharAt(s, i + 2), CharAt(s, i + 3)) + Decoded(Rest(s, i + 4))
  {
  }

  method ReadValue(c: bv8) returns (v: bv32)
    ensures v == Value(c)
  {
    var i := Decode(c);
    v := (i as bv8) as bv32;
  }

  method InsertGroup(arr: WordArray, b1: bv8, b2: bv8, b3: bv8, b4: bv8)
    requires arr.Valid() && 0 < arr.elem.Length
    modifies arr, arr.elem
    ensures arr.Valid() && 0 < arr.elem.Length && (arr.elem == old(arr.elem) || fresh(arr.elem))
    ensures arr.Contents() == old(arr.Contents()) + Group(b1, b2, b3, b4)
  {
    hide Together, ByteOf, Value, Group;
    ghost var s := arr.Contents();
    var v1 := ReadValue(b1);
    var v2 := ReadValue(b2);
    var v3 := ReadValue(b3);
    var v4 := ReadValue(b4);
    var triplet := Together(v1, v2, v3, v4);
    arr.Insert(ByteOf(triplet, 0));
    ghost var c := if b3 != 0 then [ByteOf(triplet, 1)] else [];
    if b3 != 0 {
      arr.Insert(ByteOf(triplet, 1));
    }
    assert arr.Contents() == s + [ByteOf(triplet, 0)] + c;
    if b4 != 0 {
      arr.Insert(ByteOf(triplet, 2));
    }
    GroupInParts(s, b1, b2, b3, b4);
  }

  lemma GroupInParts(s: seq<bv32>, a: bv8, b: bv8, c: bv8, d: bv8)
    ensures var t := Together(Value(a), Value(b), Value(c), Value(d));
            s + Group(a, b, c, d) == s + [ByteOf(t, 0)] + (if c != 0 then [ByteOf(t, 1)] else [])
                                   + if d != 0 then [ByteOf(t, 2)] else []
  {
    hide Together, ByteOf, Value;
  }

  // ---------- the text without its newlines ----------

  function Strip(t: seq<bv8>): seq<bv8> {
    if t == [] then [] else if t[0] == NEWLINE then Strip(t[1..]) else [t[0]] + Strip(t[1..])
  }

  /** The characters of the words with no line breaks. */
  function Digits(ws: seq<bv32>): seq<bv8>
    decreases |ws|
  {
    if ws == [] then [] else QuadAt(ws, 0) + Digits(Rest(ws, 3))
  }

  lemma {:induction false} StripConcat(s: seq<bv8>, t: seq<bv8>)
    ensures Strip(s + t) == Strip(s) + Strip(t)
  {
    if s == [] {
      assert s + t == t;
    } else {
      assert (s + t)[1..] == s[1..] + t;
      StripConcat(s[1..], t);
    }
  }

  lemma {:induction false} StripKeeps(t: seq<bv8>)
    requires NEWLINE !in t
    ensures Strip(t) == t
  {
    if t != [] {
      StripKeeps(t[1..]);
    }
  }

  lemma DigitIsPrintable(v: bv32)
    requires v < 64
    ensures Digit(v) != NEWLINE && Digit(v) != 0
  {
  }

  lemma DigitOfIsPrintable(t: bv32, j: nat)
    requires j < 4
    ensures DigitOf(t, j) != NEWLINE && DigitOf(t, j) != 0
  {
  }

  lemma QuadIsPrintable(u: bv32, v: bv32, w: bv32)
    ensures NEWLINE !in Quad(u, v, w) && 0 !in Quad(u, v, w)
  {
    hide DigitOf, Triplet;
    var t := Triplet(u, v, w);
    DigitOfIsPrintable(t, 0);
    DigitOfIsPrintable(t, 1);
    DigitOfIsPrintable(t, 2);
    DigitOfIsPrintable(t, 3);
  }

  /** The line breaks are the only newlines: what is left without them is the plain text of the words. */
  lemma {:induction false} StrippedForm(ws: seq<bv32>, i: nat)
    ensures Strip(FormFrom(ws, i)) == Digits(Rest(ws, i))
    decreases |ws| - i
  {
    hide QuadAt, Break, FormFrom, Strip;
    FormStep(ws, i);
    if i < |ws| {
      var q, b := QuadAt(ws, i), Break(i, |ws|);
      StrippedForm(ws, i + 3);
      StripConcat(q + b, FormFrom(ws, i + 3));
      StripConcat(q, b);
      StripBreak(i, |ws|);
      QuadHasNoNewline(ws, i);
      StripKeeps(q);
      DigitsBehind(ws, i);
      assert q + [] == q;
    } else {
      StripBreak(0, 0);
    }
  }

  lemma StripBreak(i: nat, n: nat)
    ensures Strip(Break(i, n)) == [] && Strip([]) == []
  {
  }

  lemma DigitsBehind(ws: seq<bv32>, i: nat)
    requires i < |ws|
    ensures Digits(Rest(ws, i)) == QuadAt(ws, i) + Digits(Rest(ws, i + 3))
  {
    hide Quad;
    assert QuadAt(Rest(ws, i), 0) == QuadAt(ws, i);
    assert Rest(Rest(ws, i), 3) == Rest(ws, i + 3);
  }

  // ---------- reading back what was written ----------

  lemma SextetsMakeTriplet(t: bv32)
    requires t <= 0xffffff
    ensures Together(Sextet(t, 0), Sextet(t, 1), Sextet(t, 2), Sextet(t, 3)) == t
  {
  }

  lemma TripletBytes(u: bv32, v: bv32, w: bv32)
    ensures Triplet(u, v, w) <= 0xffffff
    ensures ByteOf(Triplet(u, v, w), 0) == Low(u)
    ensures ByteOf(Triplet(u, v, w), 1) == Low(v)
    ensures ByteOf(Triplet(u, v, w), 2) == Low(w)
  {
  }

  lemma LastSextets(u: bv32, v: bv32)
    ensures Sextet(Triplet(u, v, 0), 3) == 0
    ensures Sextet(Triplet(u, 0, 0), 2) == 0
  {
  }

  lemma TableIsPrintable(p: nat)
    requires p < 64
    ensures B64_TAB[p] != 0
  {
    hide Digit;
    PlaceAsWord(p);
    TableIsAlphabet((p as bv8) as bv32);
    DigitIsPrintable((p as bv8) as bv32);
  }

  lemma MissingValue()
    ensures Value(0) == 64
  {
    hide B64_TAB, PlaceOf;
    if PlaceOf(0) < 64 {
      TableIsPrintable(PlaceOf(0));
    }
    assert PlaceOf(0) == 64;
  }

  lemma ValueOfDigitOf(t: bv32, j: nat)
    requires j < 4
    ensures Value(DigitOf(t, j)) == Sextet(t, j)
  {
    hide Value, Digit;
    ValueOfDigit(Sextet(t, j));
  }

  /** No word that the writer would drop as zero: such words stand in the second or third place of a group. */
  ghost predicate NothingDropped(ws: seq<bv32>) {
    forall i | 0 <= i < |ws| :: i % 3 != 0 ==> ws[i] != 0
  }

  lemma FirstGroup(ws: seq<bv32>)
    requires ws != []
    ensures |ws| == 1 ==> LowBytes(ws) == [Low(At(ws, 0))]
    ensures |ws| == 2 ==> LowBytes(ws) == [Low(At(ws, 0)), Low(At(ws, 1))]
    ensures |ws| > 2 ==> LowBytes(ws) == [Low(At(ws, 0)), Low(At(ws, 1)), Low(At(ws, 2))] + LowBytes(Rest(ws, 3))
  {
  }

  // ---------- counting ----------

  /** How many characters are dropped. */
  function Dropped(ws: seq<bv32>): nat
    decreases |ws|
  {
    if ws == [] then 0
    else (if 1 < |ws| && ws[1] == 0 then 1 else 0) + (if 2 < |ws| && ws[2] == 0 then 1 else 0) + Dropped(Rest(ws, 3))
  }

  function FullLength(n: nat): nat {
    n / 3 * 4 + if n % 3 == 0 then 0 else n % 3 + 1
  }

  function DecodedLength(n: nat): nat {
    n / 4 * 3 + if n % 4 == 0 then 0 else if n % 4 == 3 then 2 else 1
  }

  lemma {:induction false} DigitsLength(ws: seq<bv32>)
    ensures |Digits(ws)| + Dropped(ws) == FullLength(|ws|)
    ensures 0 !in Digits(ws)
    decreases |ws|
  {
    hide Quad, FullLength;
    FullLengthStep(|ws|);
    if ws != [] {
      QuadLength(At(ws, 0), At(ws, 1), At(ws, 2));
      QuadIsPrintable(At(ws, 0), At(ws, 1), At(ws, 2));
      DigitsLength(Rest(ws, 3));
    }
  }

  lemma QuadLength(u: bv32, v: bv32, w: bv32)
    ensures |Quad(u, v, w)| == 2 + (if v == 0 then 0 else 1) + if w == 0 then 0 else 1
  {
  }

  lemma FullLengthStep(n: nat)
    ensures FullLength(n) == if n == 0 then 0 else if n < 3 then n + 1 else 4 + FullLength(n - 3)
  {
  }

  lemma {:induction false} DecodedLengthOf(t: seq<bv8>)
    requires 0 !in t
    ensures |Decoded(t)| == DecodedLength(|t|)
    decreases |t|
  {
    hide ByteOf, TripletOf;
    if t != [] {
      assert forall c | c in Rest(t, 4) :: c in t;
      DecodedLengthOf(Rest(t, 4));
    }
  }

  lemma NothingDroppedStep(ws: seq<bv32>)
    requires ws != []
    ensures NothingDropped(ws) <==>
              (1 < |ws| ==> ws[1] != 0) && (2 < |ws| ==> ws[2] != 0) && NothingDropped(Rest(ws, 3))
  {
  }

  lemma {:induction false} NothingDroppedCount(ws: seq<bv32>)
    ensures Dropped(ws) == 0 <==> NothingDropped(ws)
    decreases |ws|
  {
    hide NothingDropped;
    NothingDroppedEmpty();
    if ws != [] {
      NothingDroppedStep(ws);
      NothingDroppedCount(Rest(ws, 3));
    }
  }

  lemma NothingDroppedEmpty()
    ensures NothingDropped([])
  {
  }

  /** Dropped characters shorten what is read back, but for one of them in a text with a one-word last group. */
  lemma LengthsAgree(ws: seq<bv32>)
    ensures |Decoded(Digits(ws))| == |ws| <==> Dropped(ws) == 0 || (Dropped(ws) == 1 && |ws| % 3 == 1)
  {
    DigitsLength(ws);
    DecodedLengthOf(Digits(ws));
    ShorterText(|ws|, Dropped(ws));
  }

  lemma ShorterText(n: nat, z: nat)
    requires z <= FullLength(n)
    ensures DecodedLength(FullLength(n) - z) == n <==> z == 0 || (z == 1 && n % 3 == 1)
  {
  }

  ghost predicate LowZero(ws: seq<bv32>) {
    forall k | 0 <= k < |ws| :: Low(ws[k]) == 0
  }

  lemma ByteLists(t: bv32, u: bv32)
    requires t <= 0xffffff && u <= 0xffffff
    requires ByteOf(t, 0) == ByteOf(u, 0) && ByteOf(t, 1) == ByteOf(u, 1) && ByteOf(t, 2) == ByteOf(u, 2)
    ensures t == u
  {
  }

  lemma TogetherIsSmall(a: bv32, b: bv32, c: bv32, d: bv32)
    ensures Together(a, b, c, d) <= 0xffffff
  {
  }

  lemma SameLists<T>(a: seq<T>, b: seq<T>, x: seq<T>, y: seq<T>)
    requires |a| == |b|
    ensures a + x == b + y <==> a == b && x == y
  {
    if a + x == b + y {
      assert a == (a + x)[..|a|] && b == (b + y)[..|b|];
      assert x == (a + x)[|a|..] && y == (b + y)[|b|..];
    }
  }

  lemma RestHasNothingDropped(ws: seq<bv32>)
    requires NothingDropped(ws)
    ensures NothingDropped(Rest(ws, 3))
    ensures 1 < |ws| ==> ws[1] != 0
    ensures 2 < |ws| ==> ws[2] != 0
  {
  }

  lemma LowZeroSplit(ws: seq<bv32>)
    requires ws != []
    ensures LowZero(ws) <==> Low(At(ws, 0)) == 0 && Low(At(ws, 1)) == 0 && Low(At(ws, 2)) == 0 && LowZero(Rest(ws, 3))
  {
  }

  // ---------- the text group by group ----------

  lemma FormStep(ws: seq<bv32>, i: nat)
    ensures FormFrom(ws, i) == if |ws| <= i then [] else QuadAt(ws, i) + Break(i, |ws|) + FormFrom(ws, i + 3)
  {
  }

  lemma FormBehind(t: seq<bv8>, ws: seq<bv32>, i: nat)
    ensures i < |ws| ==> t + FormFrom(ws, i) == t + QuadAt(ws, i) + Break(i, |ws|) + FormFrom(ws, i + 3)
  {
    hide QuadAt, Break;
  }

  lemma BreakPlace(line: nat, col: nat, n: nat)
    requires col < 16
    ensures (48 * line + 3 * col) % 3 == 0
    ensures Break(48 * line + 3 * col, n) == if col == 15 && 48 * line + 48 < n then [NEWLINE] else []
  {
    var i := 48 * line + 3 * col;
    assert i / 48 == line && i % 48 == 3 * col;
    assert i == 3 * (16 * line + col);
  }

  lemma QuadHasNoNewline(ws: seq<bv32>, i: nat)
    ensures NEWLINE !in QuadAt(ws, i)
  {
  }

  /** The last of the test vectors in section 10 of RFC 4648: the text of "foobar". */
  lemma FormExample()
    ensures Form([0x66, 0x6f, 0x6f, 0x62, 0x61, 0x72]) == [0x5a, 0x6d, 0x39, 0x76, 0x59, 0x6d, 0x46, 0x79]
  {
    hide Quad;
    var ws: seq<bv32> := [0x66, 0x6f, 0x6f, 0x62, 0x61, 0x72];
    FormStep(ws, 0);
    FormStep(ws, 3);
    FormStep(ws, 6);
    QuadsOfExample();
  }

  lemma QuadsOfExample()
    ensures Quad(0x66, 0x6f, 0x6f) == [0x5a, 0x6d, 0x39, 0x76] && Quad(0x62, 0x61, 0x72) == [0x59, 0x6d, 0x46, 0x79]
  {
    hide Digit;
    assert Triplet(0x66, 0x6f, 0x6f) == 0x666f6f && Triplet(0x62, 0x61, 0x72) == 0x626172;
    SextetsOfExample();
    DigitsOfExample();
  }

  lemma SextetsOfExample()
    ensures Sextet(0x666f6f, 0) == 25 && Sextet(0x666f6f, 1) == 38
    ensures Sextet(0x666f6f, 2) == 61 && Sextet(0x666f6f, 3) == 47
    ensures Sextet(0x626172, 0) == 24 && Sextet(0x626172, 1) == 38
    ensures Sextet(0x626172, 2) == 5 && Sextet(0x626172, 3) == 50
  {
  }

  lemma DigitsOfExample()
    ensures Digit(25) == 0x5a && Digit(38) == 0x6d && Digit(61) == 0x39 && Digit(47) == 0x76
    ensures Digit(24) == 0x59 && Digit(5) == 0x46 && Digit(50) == 0x79
  {
  }

  // ---------- what is read back at all ----------

  lemma {:induction false} DecodedAreBytes(t: seq<bv8>)
    ensures LowBytes(Decoded(t)) == Decoded(t)
    decreases |t|
  {
    hide TripletOf, Low;
    if t != [] {
      hide ByteOf;
      var g := Group(t[0], CharAt(t, 1), CharAt(t, 2), CharAt(t, 3));
      GroupIsBytes(t[0], CharAt(t, 1), CharAt(t, 2), CharAt(t, 3));
      DecodedAreBytes(Rest(t, 4));
      assert LowBytes(g + Decoded(Rest(t, 4))) == LowBytes(g) + LowBytes(Decoded(Rest(t, 4)));
    }
  }

  lemma GroupIsBytes(a: bv8, b: bv8, c: bv8, d: bv8)
    ensures LowBytes(Group(a, b, c, d)) == Group(a, b, c, d)
  {
    hide TripletOf, Low, ByteOf;
    ByteOfIsByte(TripletOf(a, b, c, d), 0);
    ByteOfIsByte(TripletOf(a, b, c, d), 1);
    ByteOfIsByte(TripletOf(a, b, c, d), 2);
  }

  lemma ByteOfIsByte(t: bv32, j: nat)
    requires j < 3
    ensures Low(ByteOf(t, j)) == ByteOf(t, j)
  {
  }

  /** Never more words are read than were written. */
  lemma NoExtraWords(ws: seq<bv32>)
    ensures |Decoded(Strip(Form(ws)))| <= |ws|
  {
    hide Decoded, Digits, Strip;
    StrippedForm(ws, 0);
    DigitsLength(ws);
    DecodedLengthOf(Digits(ws));
    assert DecodedLength(|Digits(ws)|) <= DecodedLength(FullLength(|ws|)) == |ws| by {
      ShorterText(|ws|, 0);
    }
  }

}
