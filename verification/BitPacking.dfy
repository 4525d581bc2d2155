/**
 * Packing of 7-bit text: eight characters become seven words of eight bits each, as one
 * contiguous most-significant-bit-first stream, and back.
 */
module BitPacking {
  import opened Buffers

  /** A string's bytes, without its terminator; reads past the end are zero. */
  function CharAt(s: seq<bv8>, k: nat): bv8 {
    if k < |s| then s[k] else 0
  }

  /** A plain char is signed: it widens to a word with its top bit copied upwards. */
  function Widen(c: bv8): bv32 {
    if c < 0x80 then c as bv32 else c as bv32 | 0xffffff00
  }

  /** The low byte is the character itself, and the bits above repeat its top bit, as in a signed byte. */
  lemma WidenSigned(c: bv8)
    ensures Widen(c) & 0xff == c as bv32
    ensures Widen(c) >> 8 == if c & 0x80 != 0 then 0xffffff else 0
  {
  }

  ghost predicate SevenBit(s: seq<bv8>) {
    forall k | 0 <= k < |s| :: s[k] < 0x80
  }

  function Groups(n: nat, size: nat): (g: nat)
    requires 0 < size
    ensures size * g >= n && (n > 0 ==> size * (g - 1) < n) && (n == 0 ==> g == 0)
  {
    (n + size - 1) / size
  }

  // ---------- packing ----------

  function PackedLength(n: nat): nat {
    7 * (n / 8) + (if n % 8 == 0 then 0 else if n % 8 == 7 then 7 else n % 8 + 1)
  }

  /** A character widened and moved up by `n` bits. */
  function Raised(c: bv8, n: nat): bv32
    requires n < 32
  {
    Widen(c) << n
  }

  /** Word `j` of a group, made from the neighbouring characters `c` and `d`. */
  function PackedWord(c: bv8, d: bv8, j: nat): bv32
    requires j < 7
  {
    ((Raised(c, j + 1) & 0xff) | (Raised(d, j + 2) >> 8)) & 0xff
  }

  function PackedAt(s: seq<bv8>, m: nat): bv32 {
    PackedWord(CharAt(s, m / 7 * 8 + m % 7), CharAt(s, m / 7 * 8 + m % 7 + 1), m % 7)
  }

  function PackedTo(s: seq<bv8>, n: nat): (ws: seq<bv32>)
    ensures |ws| == n
    ensures forall m | 0 <= m < n :: ws[m] == PackedAt(s, m)
  {
    seq(n, m requires 0 <= m => PackedAt(s, m))
  }

  function Packed(s: seq<bv8>): (ws: seq<bv32>)
    ensures |ws| == PackedLength(|s|)
  {
    PackedTo(s, PackedLength(|s|))
  }

  lemma PackedWordIs(c: bv8, d: bv8, j: nat)
    requires j < 7
    ensures PackedWord(c, d, j) == ((Raised(c, j + 1) & 0xff) | (Raised(d, j + 2) >> 8)) & 0xff
  {
    hide Raised;
  }

  lemma PackedToNext(s: seq<bv8>, q: nat, j: nat)
    requires j < 7
    ensures PackedTo(s, 7 * q + j + 1)
         == PackedTo(s, 7 * q + j) + [PackedWord(CharAt(s, 8 * q + j), CharAt(s, 8 * q + j + 1), j)]
  {
    hide PackedWord;
    assert (7 * q + j) / 7 == q && (7 * q + j) % 7 == j;
  }

  lemma PackedLengthOfGroup(n: nat, i: nat)
    requires i % 8 == 0 && i < n
    ensures n <= i + 8 ==> PackedLength(n) == 7 * (i / 8) + if n - i + 1 < 7 then n - i + 1 else 7
    ensures (i + 8) / 8 == i / 8 + 1
  {
  }

  method Compress8to7(str: seq<bv8>) returns (arr: WordArray)
    ensures fresh(arr) && fresh(arr.elem)
    ensures arr.Valid() && arr.Contents() == Packed(str)
  {
    var len := |str|;
    arr := new WordArray(len * 2);
    var i := 0;
    assert arr.Contents() == PackedTo(str, 0);
    while i < len
      invariant i % 8 == 0 && fresh(arr.elem) && arr.Valid()
      invariant len > 0 ==> arr.elem.Length > 0
      invariant arr.Contents() == PackedTo(str, if i < len then 7 * (i / 8) else PackedLength(len))
    {
      hide PackedAt, PackedLength;
      CompressGroup(str, i, arr);
      PackedLengthOfGroup(len, i);
      i := i + 8;
    }
  }

  /** The inner loop: the words of the group of characters that starts at `i`. */
  method CompressGroup(str: seq<bv8>, i: nat, arr: WordArray)
    requires i % 8 == 0 && i < |str|
    requires arr.Valid() && arr.elem.Length > 0 && arr.Contents() == PackedTo(str, 7 * (i / 8))
    modifies arr, arr.elem
    ensures arr.Valid() && arr.elem.Length > 0 && (arr.elem == old(arr.elem) || fresh(arr.elem))
    ensures arr.Contents() == PackedTo(str, 7 * (i / 8) + if |str| - i + 1 < 7 then |str| - i + 1 else 7)
  {
    hide Raised, PackedAt, PackedTo, PackedWord, CharAt, Widen;
    ghost var q := i / 8;
    assert i == 8 * q;
    var val := (Widen(str[i]) << 1) & 0xfe;
    assert val == Raised(CharAt(str, i), 1) & 0xff by { FirstRaised(str, i); }
    var j := 0;
    while j < 7 && i + j < |str| + 1
      invariant j <= 7 && i + j <= |str| + 1
      invariant arr.Valid() && arr.elem.Length > 0 && (arr.elem == old(arr.elem) || fresh(arr.elem))
      invariant j < 7 ==> val == Raised(CharAt(str, 8 * q + j), j + 1) & 0xff
      invariant arr.Contents() == PackedTo(str, 7 * q + j)
    {
      PackedToNext(str, q, j);
      PackedWordIs(CharAt(str, i + j), CharAt(str, i + j + 1), j);
      val := CompressWord(val, CharAt(str, i + j + 1), j, arr);
      j := j + 1;
    }
  }

  /** Inserts what is left of one character with the top of the next, and returns what is left of that. */
  method CompressWord(val: bv32, next: bv8, j: nat, arr: WordArray) returns (rest: bv32)
    requires j < 7 && arr.Valid() && 0 < arr.elem.Length
    modifies arr, arr.elem
    ensures arr.Valid() && 0 < arr.elem.Length && (arr.elem == old(arr.elem) || fresh(arr.elem))
    ensures arr.Contents() == old(arr.Contents()) + [(val | (Raised(next, j + 2) >> 8)) & 0xff]
    ensures rest == Raised(next, j + 2) & 0xff
  {
    hide Raised;
    var tmp := Raised(next, j + 2);
    arr.Insert((val | (tmp >> 8)) & 0xff);
    rest := tmp & 0xff;
  }

  lemma FirstRaised(s: seq<bv8>, i: nat)
    requires i < |s|
    ensures (Widen(s[i]) << 1) & 0xfe == Raised(CharAt(s, i), 1) & 0xff
  {
  }

  // ---------- unpacking ----------

  /** The low bits of a word that belong to character `j` of its group. */
  function Kept(v: bv32, j: nat): (out: bv32)
    requires 1 <= j < 8
    ensures out <= 0x7f
  {
    (v << (7 - j)) & 0x7f
  }

  /** Those bits completed by the high bits of the next word. */
  function Joined(out: bv32, w: bv32, j: nat): bv8
    requires 1 <= j < 8 && out <= 0x7f
  {
    (out | ((w & 0xff) >> (j + 1))) as bv8
  }

  function First(w: bv32): bv8 {
    ((w >> 1) & 0x7f) as bv8
  }

  /** Character `j` of a group, made from the neighbouring words `v` and `w`; the first one uses `w` only. */
  function ExpandedChar(v: bv32, w: bv32, j: nat): bv8
    requires j < 8
  {
    if j == 0 then First(w) else Joined(Kept(v, j), w, j)
  }

  function ExpandedAt(ws: seq<bv32>, k: nat): bv8 {
    var m := k / 8 * 7 + k % 8;
    ExpandedChar(if k % 8 == 0 then 0 else At(ws, m - 1), At(ws, m), k % 8)
  }

  function ExpandedTo(ws: seq<bv32>, n: nat): (s: seq<bv8>)
    ensures |s| == n
    ensures forall k | 0 <= k < n :: s[k] == ExpandedAt(ws, k)
  {
    seq(n, k requires 0 <= k => ExpandedAt(ws, k))
  }

  function Expanded(ws: seq<bv32>): seq<bv8> {
    ExpandedTo(ws, 8 * Groups(|ws|, 7))
  }

  lemma ExpandedToNext(ws: seq<bv32>, q: nat, j: nat)
    requires j < 8
    ensures ExpandedTo(ws, 8 * q + j + 1) == ExpandedTo(ws, 8 * q + j)
         + [ExpandedChar(if j == 0 then 0 else At(ws, 7 * q + j - 1), At(ws, 7 * q + j), j)]
  {
    hide ExpandedChar;
    assert (8 * q + j) / 8 == q && (8 * q + j) % 8 == j;
  }

  lemma FirstBehind(s: seq<bv8>, ws: seq<bv32>, q: nat)
    ensures s + ExpandedTo(ws, 8 * q + 1) == s + ExpandedTo(ws, 8 * q) + [First(At(ws, 7 * q))]
  {
    hide First, ExpandedTo;
    ExpandedToNext(ws, q, 0);
  }

  lemma JoinedBehind(s: seq<bv8>, ws: seq<bv32>, q: nat, j: nat)
    requires 1 <= j < 8
    ensures s + ExpandedTo(ws, 8 * q + j + 1)
         == s + ExpandedTo(ws, 8 * q + j) + [Joined(Kept(At(ws, 7 * q + j - 1), j), At(ws, 7 * q + j), j)]
  {
    hide Kept, Joined, ExpandedTo;
    ExpandedToNext(ws, q, j);
  }

  method Expand7to8(buf: ByteBuffer, arr: WordArray)
    requires buf.Valid() && arr.Valid()
    modifies buf, buf.str
    ensures buf.Valid() && (buf.str == old(buf.str) || fresh(buf.str))
    ensures buf.Contents() == old(buf.Contents()) + Expanded(arr.Contents())
  {
    hide ExpandedChar;
    ghost var ws := arr.Contents();
    var i := 0;
    while i < arr.used
      invariant i % 7 == 0 && 7 * (i / 7) == i && i < arr.used + 7
      invariant buf.Valid() && (buf.str == old(buf.str) || fresh(buf.str))
      invariant arr.Valid() && arr.Contents() == ws
      invariant buf.Contents() == old(buf.Contents()) + ExpandedTo(ws, 8 * (i / 7))
    {
      ExpandGroup(buf, arr, i, old(buf.Contents()));
      assert (i + 7) / 7 == i / 7 + 1;
      i := i + 7;
    }
  }

  /** The characters of the group of words that starts at `i`. */
  method ExpandGroup(buf: ByteBuffer, arr: WordArray, i: nat, ghost start: seq<bv8>)
    requires buf.Valid() && arr.Valid() && i % 7 == 0
    requires buf.Contents() == start + ExpandedTo(arr.Contents(), 8 * (i / 7))
    modifies buf, buf.str
    ensures buf.Valid() && (buf.str == old(buf.str) || fresh(buf.str))
    ensures arr.Valid() && arr.Contents() == old(arr.Contents())
    ensures buf.Contents() == start + ExpandedTo(arr.Contents(), 8 * (i / 7) + 8)
  {
    hide ExpandedTo, ExpandedAt, First, Kept, Joined, At;
    ghost var ws, q := arr.Contents(), i / 7;
    assert i == 7 * q;
    var tmp := arr.Get(i);
    FirstBehind(start, ws, q);
    buf.Push([First(tmp)]);
    for j := 1 to 8
      invariant buf.Valid() && (buf.str == old(buf.str) || fresh(buf.str))
      invariant arr.Valid() && arr.Contents() == ws && tmp == At(ws, 7 * q + j - 1)
      invariant buf.Contents() == start + ExpandedTo(ws, 8 * q + j)
    {
      var out := Kept(tmp, j);
      tmp := arr.Get(i + j);
      JoinedBehind(start, ws, q, j);
      buf.Push([Joined(out, tmp, j)]);
    }
  }

  // ---------- the two are inverse ----------

  /** The string with zeros up to the next multiple of eight. */
  function Padded(s: seq<bv8>): seq<bv8> {
    seq(8 * Groups(|s|, 8), k requires 0 <= k => CharAt(s, k))
  }

  lemma CharSurvivesEarly(b: bv8, c: bv8, d: bv8)
    requires b < 0x80 && c < 0x80 && d < 0x80
    ensures ExpandedChar(0, PackedWord(c, d, 0), 0) == c
    ensures ExpandedChar(PackedWord(b, c, 0), PackedWord(c, d, 1), 1) == c
    ensures ExpandedChar(PackedWord(b, c, 1), PackedWord(c, d, 2), 2) == c
  {
  }

  lemma CharSurvivesMiddle(b: bv8, c: bv8, d: bv8)
    requires b < 0x80 && c < 0x80 && d < 0x80
    ensures ExpandedChar(PackedWord(b, c, 2), PackedWord(c, d, 3), 3) == c
    ensures ExpandedChar(PackedWord(b, c, 3), PackedWord(c, d, 4), 4) == c
    ensures ExpandedChar(PackedWord(b, c, 4), PackedWord(c, d, 5), 5) == c
  {
  }

  lemma CharSurvivesLate(b: bv8, c: bv8, d: bv8, w: bv32)
    requires b < 0x80 && c < 0x80 && d < 0x80
    ensures ExpandedChar(PackedWord(b, c, 5), PackedWord(c, d, 6), 6) == c
    ensures ExpandedChar(PackedWord(b, c, 6), w, 7) == c
  {
  }

  lemma CharSurvives(b: bv8, c: bv8, d: bv8, w: bv32, j: nat)
    requires j < 8 && b < 0x80 && c < 0x80 && d < 0x80
    requires j < 7 ==> w == PackedWord(c, d, j)
    ensures ExpandedChar(if j == 0 then 0 else PackedWord(b, c, j - 1), w, j) == c
  {
    hide *;
    CharSurvivesEarly(b, c, d);
    CharSurvivesMiddle(b, c, d);
    CharSurvivesLate(b, c, d, w);
  }

  /** Past its length the packed form would only continue with zero words, up to the end of the last group. */
  lemma PackedTailIsZero(s: seq<bv8>, m: nat)
    requires m < 7 * Groups(|s|, 8)
    ensures At(Packed(s), m) == PackedAt(s, m)
  {
  }

  lemma PackedGroups(n: nat)
    ensures Groups(PackedLength(n), 7) == Groups(n, 8)
  {
  }

  /** Packing loses nothing of a 7-bit string: unpacking gives it back, with zeros up to a multiple of eight. */
  lemma RoundTrip(s: seq<bv8>)
    requires SevenBit(s)
    ensures Expanded(Packed(s)) == Padded(s)
  {
    hide Packed, ExpandedAt, CharAt;
    PackedGroups(|s|);
    forall k | 0 <= k < 8 * Groups(|s|, 8)
      ensures ExpandedAt(Packed(s), k) == CharAt(s, k)
    {
      CharRoundTrip(s, k / 8, k % 8);
    }
  }

  lemma CharRoundTrip(s: seq<bv8>, q: nat, j: nat)
    requires SevenBit(s) && j < 8 && q < Groups(|s|, 8)
    ensures ExpandedAt(Packed(s), 8 * q + j) == CharAt(s, 8 * q + j)
  {
    hide ExpandedChar, PackedWord, Packed;
    var ws, m := Packed(s), 7 * q + j;
    assert (8 * q + j) / 8 == q && (8 * q + j) % 8 == j;
    if j < 7 {
      assert m / 7 == q && m % 7 == j;
      PackedTailIsZero(s, m);
    }
    if 0 < j {
      assert (m - 1) / 7 == q && (m - 1) % 7 == j - 1;
      PackedTailIsZero(s, m - 1);
    }
    var b := if j == 0 then 0 else CharAt(s, 8 * q + j - 1);
    CharSurvives(b, CharAt(s, 8 * q + j), CharAt(s, 8 * q + j + 1), At(ws, m), j);
  }

  /** The round trip holds of 7-bit strings only: unpacking never yields a byte above 0x7f. */
  lemma RoundTripIff(s: seq<bv8>)
    ensures Expanded(Packed(s)) == Padded(s) <==> SevenBit(s)
  {
    hide Expanded, Packed;
    ExpandedIsSevenBit(Packed(s));
    assert forall k | 0 <= k < |s| :: s[k] == Padded(s)[k];
    if SevenBit(s) {
      RoundTrip(s);
    }
  }

  function Low(w: bv32): bv32 {
    w & 0xff
  }

  function LowBytes(ws: seq<bv32>): (bs: seq<bv32>)
    ensures |bs| == |ws|
  {
    seq(|ws|, m requires 0 <= m < |ws| => Low(ws[m]))
  }

  /** The words with zeros up to the next multiple of seven. */
  function PaddedWords(ws: seq<bv32>): seq<bv32> {
    seq(7 * Groups(|ws|, 7), m requires 0 <= m => At(ws, m))
  }

  lemma WordSurvivesFirst(v: bv32, w: bv32)
    ensures PackedWord(ExpandedChar(0, v, 0), ExpandedChar(v, w, 1), 0) == Low(v)
  {
  }

  lemma WordSurvivesEarly(u: bv32, v: bv32, w: bv32)
    ensures PackedWord(ExpandedChar(u, v, 1), ExpandedChar(v, w, 2), 1) == Low(v)
    ensures PackedWord(ExpandedChar(u, v, 2), ExpandedChar(v, w, 3), 2) == Low(v)
  {
  }

  lemma WordSurvivesMiddle(u: bv32, v: bv32, w: bv32)
    ensures PackedWord(ExpandedChar(u, v, 3), ExpandedChar(v, w, 4), 3) == Low(v)
    ensures PackedWord(ExpandedChar(u, v, 4), ExpandedChar(v, w, 5), 4) == Low(v)
  {
  }

  lemma WordSurvivesLate(u: bv32, v: bv32, w: bv32)
    ensures PackedWord(ExpandedChar(u, v, 5), ExpandedChar(v, w, 6), 5) == Low(v)
    ensures PackedWord(ExpandedChar(u, v, 6), ExpandedChar(v, w, 7), 6) == Low(v)
  {
  }

  /** Unpacking loses nothing but the bits above each low byte. */
  lemma Repacked(ws: seq<bv32>)
    ensures Packed(Expanded(ws)) == LowBytes(PaddedWords(ws))
  {
    hide PackedWord, ExpandedChar;
    var s, g := Expanded(ws), Groups(|ws|, 7);
    assert PackedLength(8 * g) == 7 * g;
    forall m | 0 <= m < 7 * g
      ensures PackedAt(s, m) == Low(At(ws, m))
    {
      WordRoundTrip(ws, m / 7, m % 7);
    }
  }

  lemma ExpandedInGroup(ws: seq<bv32>, q: nat, j: nat)
    requires j < 8 && q < Groups(|ws|, 7)
    ensures CharAt(Expanded(ws), 8 * q + j) == ExpandedChar(if j
        == 0 then 0 else At(ws, 7 * q + j - 1), At(ws, 7 * q + j), j)
  {
    hide ExpandedChar;
    var k := 8 * q + j;
    assert k / 8 == q && k % 8 == j && k < 8 * Groups(|ws|, 7);
  }

  lemma WordRoundTrip(ws: seq<bv32>, q: nat, j: nat)
    requires j < 7 && q < Groups(|ws|, 7)
    ensures PackedAt(Expanded(ws), 7 * q + j) == Low(At(ws, 7 * q + j))
  {
    hide ExpandedChar, PackedWord, Expanded;
    var m := 7 * q + j;
    assert m / 7 == q && m % 7 == j;
    ExpandedInGroup(ws, q, j);
    ExpandedInGroup(ws, q, j + 1);
    var u := if j == 0 then 0 else At(ws, m - 1);
    WordSurvivesFirst(At(ws, m), At(ws, m + 1));
    WordSurvivesEarly(u, At(ws, m), At(ws, m + 1));
    WordSurvivesMiddle(u, At(ws, m), At(ws, m + 1));
    WordSurvivesLate(u, At(ws, m), At(ws, m + 1));
  }

  /** Only the low bytes of the words matter to unpacking. */
  lemma HighBitsAreIgnored(ws: seq<bv32>)
    ensures Expanded(LowBytes(ws)) == Expanded(ws)
  {
    hide ExpandedAt, LowBytes;
    forall k | 0 <= k < 8 * Groups(|ws|, 7)
      ensures ExpandedAt(LowBytes(ws), k) == ExpandedAt(ws, k)
    {
      ExpandedAtIgnoresHighBits(ws, k);
    }
  }

  lemma ExpandedAtIgnoresHighBits(ws: seq<bv32>, k: nat)
    ensures ExpandedAt(LowBytes(ws), k) == ExpandedAt(ws, k)
  {
    assert Low(0) == 0;
    hide ExpandedChar, Low;
    var j, m := k % 8, k / 8 * 7 + k % 8;
    CharIgnoresHighBits(if j == 0 then 0 else At(ws, m - 1), At(ws, m), j);
  }

  lemma CharIgnoresHighBits(v: bv32, w: bv32, j: nat)
    requires j < 8
    ensures ExpandedChar(Low(v), Low(w), j) == ExpandedChar(v, w, j)
  {
  }

  /**
   * Two lists of words unpack alike exactly when their low bytes agree, a missing word counting as zero up to the end
   * of the group.
   */
  lemma SameExpansion(a: seq<bv32>, b: seq<bv32>)
    ensures Expanded(a) == Expanded(b) <==> LowBytes(PaddedWords(a)) == LowBytes(PaddedWords(b))
  {
    hide Expanded, LowBytes, PaddedWords, Packed;
    Repacked(a);
    Repacked(b);
    ExpandedPadding(a);
    ExpandedPadding(b);
    HighBitsAreIgnored(PaddedWords(a));
    HighBitsAreIgnored(PaddedWords(b));
  }

  lemma ExpandedPadding(ws: seq<bv32>)
    ensures Expanded(PaddedWords(ws)) == Expanded(ws)
  {
    hide ExpandedChar;
    var p, g := PaddedWords(ws), Groups(|ws|, 7);
    assert Groups(|p|, 7) == g;
    forall k | 0 <= k < 8 * g
      ensures ExpandedAt(p, k) == ExpandedAt(ws, k)
    {
      var m := k / 8 * 7 + k % 8;
      assert m <= 7 * g;
      assert At(p, m) == At(ws, m);
    }
  }

  lemma ExpandedIsSevenBit(ws: seq<bv32>)
    ensures SevenBit(Expanded(ws))
  {
  }

  lemma PackedWordsAreBytes(s: seq<bv8>)
    ensures LowBytes(Packed(s)) == Packed(s)
  {
  }

  // ---------- the packed form as a number ----------

  /** Eight characters read as one number in base 128. */
  function CharsNumber(c0: bv8, c1: bv8, c2: bv8, c3: bv8, c4: bv8, c5: bv8, c6: bv8, c7: bv8): bv64 {
    (c0 as bv64 << 49) | (c1 as bv64 << 42) | (c2 as bv64 << 35) | (c3 as bv64 << 28)
    | (c4 as bv64 << 21) | (c5 as bv64 << 14) | (c6 as bv64 << 7) | c7 as bv64
  }

  /** Seven words read as one number in base 256. */
  function WordsNumber(w0: bv32, w1: bv32, w2: bv32, w3: bv32, w4: bv32, w5: bv32, w6: bv32): bv64 {
    (w0 as bv64 << 48) | (w1 as bv64 << 40) | (w2 as bv64 << 32) | (w3 as bv64 << 24)
    | (w4 as bv64 << 16) | (w5 as bv64 << 8) | w6 as bv64
  }

  function CharsNumberOfGroup(s: seq<bv8>, q: nat): bv64 {
    CharsNumber(CharAt(s, 8 * q), CharAt(s, 8 * q + 1), CharAt(s, 8 * q + 2), CharAt(s, 8 * q + 3),
                CharAt(s, 8 * q + 4), CharAt(s, 8 * q + 5), CharAt(s, 8 * q + 6), CharAt(s, 8 * q + 7))
  }

  function WordsNumberOfGroup(ws: seq<bv32>, q: nat): bv64 {
    WordsNumber(At(ws, 7 * q), At(ws, 7 * q + 1), At(ws, 7 * q + 2), At(ws, 7 * q + 3),
                At(ws, 7 * q + 4), At(ws, 7 * q + 5), At(ws, 7 * q + 6))
  }

  /** Packing regroups bits and does nothing else: each group keeps its value. */
  lemma PackingKeepsGroupValue(s: seq<bv8>, q: nat)
    requires SevenBit(s) && q < Groups(|s|, 8)
    ensures WordsNumberOfGroup(Packed(s), q) == CharsNumberOfGroup(s, q)
  {
    hide PackedWord, Packed, PackedAt, CharsNumber, WordsNumber;
    PackedWordInGroup(s, q, 0);
    PackedWordInGroup(s, q, 1);
    PackedWordInGroup(s, q, 2);
    PackedWordInGroup(s, q, 3);
    PackedWordInGroup(s, q, 4);
    PackedWordInGroup(s, q, 5);
    PackedWordInGroup(s, q, 6);
    SameNumber(CharAt(s, 8 * q), CharAt(s, 8 * q + 1), CharAt(s, 8 * q + 2), CharAt(s, 8 * q + 3),
               CharAt(s, 8 * q + 4), CharAt(s, 8 * q + 5), CharAt(s, 8 * q + 6), CharAt(s, 8 * q + 7));
  }

  lemma PackedWordInGroup(s: seq<bv8>, q: nat, j: nat)
    requires j < 7 && q < Groups(|s|, 8)
    ensures At(Packed(s), 7 * q + j) == PackedWord(CharAt(s, 8 * q + j), CharAt(s, 8 * q + j + 1), j)
  {
    hide PackedWord, Packed;
    assert (7 * q + j) / 7 == q && (7 * q + j) % 7 == j;
    PackedTailIsZero(s, 7 * q + j);
  }

  lemma SameNumber(c0: bv8, c1: bv8, c2: bv8, c3: bv8, c4: bv8, c5: bv8, c6: bv8, c7: bv8)
    requires c0 < 0x80 && c1 < 0x80 && c2 < 0x80 && c3 < 0x80 && c4 < 0x80 && c5 < 0x80 && c6 < 0x80 && c7 < 0x80
    ensures WordsNumber(PackedWord(c0, c1, 0), PackedWord(c1, c2, 1), PackedWord(c2, c3, 2), PackedWord(c3, c4, 3),
                        PackedWord(c4, c5, 4), PackedWord(c5, c6, 5), PackedWord(c6, c7, 6))
         == CharsNumber(c0, c1, c2, c3, c4, c5, c6, c7)
  {
  }
}
