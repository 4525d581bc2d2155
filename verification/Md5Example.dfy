/** A digest from the test suite of RFC 1321 (appendix A.5), worked out step by step. */
module Md5Example {
  import opened BitPacking
  import opened Buffers
  import opened Md5

  /** The letters from a to z. */
  const ALPHABET: seq<bv8> :=
    [0x61, 0x62, 0x63, 0x64, 0x65, 0x66, 0x67, 0x68, 0x69, 0x6a, 0x6b, 0x6c, 0x6d]
    + [0x6e, 0x6f, 0x70, 0x71, 0x72, 0x73, 0x74, 0x75, 0x76, 0x77, 0x78, 0x79, 0x7a]

  /** The digest that the standard gives for them. */
  const ITS_DIGEST: seq<bv8> :=
    [0xc3, 0xfc, 0xd3, 0xd7, 0x61, 0x92, 0xe4, 0x00]
    + [0x7d, 0xfb, 0x49, 0x6c, 0xca, 0x67, 0xe1, 0x3b]

  /** The block they make: the letters, the marker bit, zeros, and the length of 208 bits. */
  const BLOCK: seq<bv32> :=
    [0x64636261, 0x68676665, 0x6c6b6a69, 0x706f6e6d, 0x74737271, 0x78777675, 0x00807a79, 0x00000000]
    + [0x0, 0x0, 0x0, 0x0, 0x0, 0x0, 0xd0, 0x0]

  /** The states after each of the four rounds. */
  const AFTER_FIRST := State(0x1754a316, 0x608d6b7e, 0x00df74d5, 0x85567d90)
  const AFTER_SECOND := State(0xf54d8710, 0xaeb35766, 0x2e69afc7, 0x927b72e2)
  const AFTER_THIRD := State(0xb5d41f9c, 0x71d10367, 0x703d54d8, 0xa04b4904)
  const AFTER_FOURTH := State(0x708ed9c2, 0x1116e6d8, 0xd38f1e7f, 0x2baf1354)

  lemma BlockWords()
    ensures |BLOCK| == 16
    ensures BLOCK[0] == 0x64636261 && BLOCK[1] == 0x68676665 && BLOCK[2] == 0x6c6b6a69 && BLOCK[3] == 0x706f6e6d
    ensures BLOCK[4] == 0x74737271 && BLOCK[5] == 0x78777675 && BLOCK[6] == 0x00807a79 && BLOCK[7] == 0x0
    ensures BLOCK[8] == 0x0 && BLOCK[9] == 0x0 && BLOCK[10] == 0x0 && BLOCK[11] == 0x0
    ensures BLOCK[12] == 0x0 && BLOCK[13] == 0x0 && BLOCK[14] == 0xd0 && BLOCK[15] == 0x0
  {
  }

  /** One more step: `t` is its constant and `next` the new word. */
  lemma StepTo(start: State, from: nat, n: nat, s: State, t: bv32, next: bv32)
    requires from + n < 64 && |BLOCK| == 16 && Steps(start, BLOCK, from, n) == s && SineTable(from + n) == t as nat
    requires var sum := Plus(Plus(Plus(s.a, Mix((from + n) / 16, s.b, s.c, s.d)), BLOCK[Place(from + n)]), t);
             next == Plus(s.b, Rotated(sum, Shift(from + n)))
    ensures Steps(start, BLOCK, from, n + 1) == State(s.d, next, s.b, s.c)
  {
    hide WordOf, Mix, Place, Shift, SineTable, Plus, Rotated, BLOCK;
    SineIs(from + n, t);
  }

  lemma SineIs(i: nat, t: bv32)
    requires i < 64 && SineTable(i) == t as nat
    ensures Sine(i) == t
  {
    hide SineTable;
    WordIs(t as nat, t);
  }

  lemma WordIs(n: nat, w: bv32)
    requires w as nat == n
    ensures n < 0x1_0000_0000 && WordOf(n) == w
  {
    assert (w as nat) as bv32 == w;
  }

  lemma FirstRound()
    ensures |BLOCK| == 16 && Steps(INITIAL, BLOCK, 0, 16) == AFTER_FIRST
  {
    hide Step, Steps, BLOCK, Place, Shift, SineTable;
    BlockWords();
    EarlyFfTables();
    LateFfTables();
    var s := State(0x67452301, 0xefcdab89, 0x98badcfe, 0x10325476);
    NoSteps(s, BLOCK, 0);
    StepTo(s, 0, 0, State(0x67452301, 0xefcdab89, 0x98badcfe, 0x10325476), 0xd76aa478, 0xd6d117a6);
    StepTo(s, 0, 1, State(0x10325476, 0xd6d117a6, 0xefcdab89, 0x98badcfe), 0xe8c7b756, 0xaab1aaaa);
    StepTo(s, 0, 2, State(0x98badcfe, 0xaab1aaaa, 0xd6d117a6, 0xefcdab89), 0x242070db, 0x227d8cf1);
    StepTo(s, 0, 3, State(0xefcdab89, 0x227d8cf1, 0xaab1aaaa, 0xd6d117a6), 0xc1bdceee, 0x4503b812);
    StepTo(s, 0, 4, State(0xd6d117a6, 0x4503b812, 0x227d8cf1, 0xaab1aaaa), 0xf57c0faf, 0xfe15f787);
    StepTo(s, 0, 5, State(0xaab1aaaa, 0xfe15f787, 0x4503b812, 0x227d8cf1), 0x4787c62a, 0xa811b278);
    StepTo(s, 0, 6, State(0x227d8cf1, 0xa811b278, 0xfe15f787, 0x4503b812), 0xa8304613, 0xb71122fc);
    StepTo(s, 0, 7, State(0x4503b812, 0xb71122fc, 0xa811b278, 0xfe15f787), 0xfd469501, 0xda9bbb0d);
    StepTo(s, 0, 8, State(0xfe15f787, 0xda9bbb0d, 0xb71122fc, 0xa811b278), 0x698098d8, 0xae752899);
    StepTo(s, 0, 9, State(0xa811b278, 0xae752899, 0xda9bbb0d, 0xb71122fc), 0x8b44f7af, 0x2bbe757f);
    StepTo(s, 0, 10, State(0xb71122fc, 0x2bbe757f, 0xae752899, 0xda9bbb0d), 0xffff5bb1, 0x7d4bd80b);
    StepTo(s, 0, 11, State(0xda9bbb0d, 0x7d4bd80b, 0x2bbe757f, 0xae752899), 0x895cd7be, 0x56cfa5cb);
    StepTo(s, 0, 12, State(0xae752899, 0x56cfa5cb, 0x7d4bd80b, 0x2bbe757f), 0x6b901122, 0x1754a316);
    StepTo(s, 0, 13, State(0x2bbe757f, 0x1754a316, 0x56cfa5cb, 0x7d4bd80b), 0xfd987193, 0x85567d90);
    StepTo(s, 0, 14, State(0x7d4bd80b, 0x85567d90, 0x1754a316, 0x56cfa5cb), 0xa679438e, 0x00df74d5);
    StepTo(s, 0, 15, State(0x56cfa5cb, 0x00df74d5, 0x85567d90, 0x1754a316), 0x49b40821, 0x608d6b7e);
  }

  lemma SecondRound()
    ensures |BLOCK| == 16 && Steps(AFTER_FIRST, BLOCK, 16, 16) == AFTER_SECOND
  {
    hide Step, Steps, BLOCK, Place, Shift, SineTable;
    BlockWords();
    EarlyGgTables();
    LateGgTables();
    var s := State(0x1754a316, 0x608d6b7e, 0x00df74d5, 0x85567d90);
    NoSteps(s, BLOCK, 16);
    StepTo(s, 16, 0, State(0x1754a316, 0x608d6b7e, 0x00df74d5, 0x85567d90), 0xf61e2562, 0x2d8071cc);
    StepTo(s, 16, 1, State(0x85567d90, 0x2d8071cc, 0x608d6b7e, 0x00df74d5), 0xc040b340, 0x5dcee119);
    StepTo(s, 16, 2, State(0x00df74d5, 0x5dcee119, 0x2d8071cc, 0x608d6b7e), 0x265e5a51, 0xedfe7e4b);
    StepTo(s, 16, 3, State(0x608d6b7e, 0xedfe7e4b, 0x5dcee119, 0x2d8071cc), 0xe9b6c7aa, 0x4c2145b3);
    StepTo(s, 16, 4, State(0x2d8071cc, 0x4c2145b3, 0xedfe7e4b, 0x5dcee119), 0xd62f105d, 0x570c43e0);
    StepTo(s, 16, 5, State(0x5dcee119, 0x570c43e0, 0x4c2145b3, 0xedfe7e4b), 0x02441453, 0x977efd2a);
    StepTo(s, 16, 6, State(0xedfe7e4b, 0x977efd2a, 0x570c43e0, 0x4c2145b3), 0xd8a1e681, 0xc28ab49d);
    StepTo(s, 16, 7, State(0x4c2145b3, 0xc28ab49d, 0x977efd2a, 0x570c43e0), 0xe7d3fbc8, 0xc9f162d4);
    StepTo(s, 16, 8, State(0x570c43e0, 0xc9f162d4, 0xc28ab49d, 0x977efd2a), 0x21e1cde6, 0x25bfae3b);
    StepTo(s, 16, 9, State(0x977efd2a, 0x25bfae3b, 0xc9f162d4, 0xc28ab49d), 0xc33707d6, 0x89980104);
    StepTo(s, 16, 10, State(0xc28ab49d, 0x89980104, 0x25bfae3b, 0xc9f162d4), 0xf4d50d87, 0xf8c8365f);
    StepTo(s, 16, 11, State(0xc9f162d4, 0xf8c8365f, 0x89980104, 0x25bfae3b), 0x455a14ed, 0xe6d3b398);
    StepTo(s, 16, 12, State(0x25bfae3b, 0xe6d3b398, 0xf8c8365f, 0x89980104), 0xa9e3e905, 0xf54d8710);
    StepTo(s, 16, 13, State(0x89980104, 0xf54d8710, 0xe6d3b398, 0xf8c8365f), 0xfcefa3f8, 0x927b72e2);
    StepTo(s, 16, 14, State(0xf8c8365f, 0x927b72e2, 0xf54d8710, 0xe6d3b398), 0x676f02d9, 0x2e69afc7);
    StepTo(s, 16, 15, State(0xe6d3b398, 0x2e69afc7, 0x927b72e2, 0xf54d8710), 0x8d2a4c8a, 0xaeb35766);
  }

  lemma ThirdRound()
    ensures |BLOCK| == 16 && Steps(AFTER_SECOND, BLOCK, 32, 16) == AFTER_THIRD
  {
    hide Step, Steps, BLOCK, Place, Shift, SineTable;
    BlockWords();
    EarlyHhTables();
    LateHhTables();
    var s := State(0xf54d8710, 0xaeb35766, 0x2e69afc7, 0x927b72e2);
    NoSteps(s, BLOCK, 32);
    StepTo(s, 32, 0, State(0xf54d8710, 0xaeb35766, 0x2e69afc7, 0x927b72e2), 0xfffa3942, 0xb4bf680e);
    StepTo(s, 32, 1, State(0x927b72e2, 0xb4bf680e, 0xaeb35766, 0x2e69afc7), 0x8771f681, 0x4c8ffa80);
    StepTo(s, 32, 2, State(0x2e69afc7, 0x4c8ffa80, 0xb4bf680e, 0xaeb35766), 0x6d9d6122, 0x2361ed0a);
    StepTo(s, 32, 3, State(0xaeb35766, 0x2361ed0a, 0x4c8ffa80, 0xb4bf680e), 0xfde5380c, 0x06a5e211);
    StepTo(s, 32, 4, State(0xb4bf680e, 0x06a5e211, 0x2361ed0a, 0x4c8ffa80), 0xa4beea44, 0xb9c0c733);
    StepTo(s, 32, 5, State(0x4c8ffa80, 0xb9c0c733, 0x06a5e211, 0x2361ed0a), 0x4bdecfa9, 0xf1e6dc7a);
    StepTo(s, 32, 6, State(0x2361ed0a, 0xf1e6dc7a, 0xb9c0c733, 0x06a5e211), 0xf6bb4b60, 0x23a9451b);
    StepTo(s, 32, 7, State(0x06a5e211, 0x23a9451b, 0xf1e6dc7a, 0xb9c0c733), 0xbebfbc70, 0x8d41bf99);
    StepTo(s, 32, 8, State(0xb9c0c733, 0x8d41bf99, 0x23a9451b, 0xf1e6dc7a), 0x289b7ec6, 0xa3e88ead);
    StepTo(s, 32, 9, State(0xf1e6dc7a, 0xa3e88ead, 0x8d41bf99, 0x23a9451b), 0xeaa127fa, 0x02c0b11c);
    StepTo(s, 32, 10, State(0x23a9451b, 0x02c0b11c, 0xa3e88ead, 0x8d41bf99), 0xd4ef3085, 0x66f6468d);
    StepTo(s, 32, 11, State(0x8d41bf99, 0x66f6468d, 0x02c0b11c, 0xa3e88ead), 0x04881d05, 0x90a35af5);
    StepTo(s, 32, 12, State(0xa3e88ead, 0x90a35af5, 0x66f6468d, 0x02c0b11c), 0xd9d4d039, 0xb5d41f9c);
    StepTo(s, 32, 13, State(0x02c0b11c, 0xb5d41f9c, 0x90a35af5, 0x66f6468d), 0xe6db99e5, 0xa04b4904);
    StepTo(s, 32, 14, State(0x66f6468d, 0xa04b4904, 0xb5d41f9c, 0x90a35af5), 0x1fa27cf8, 0x703d54d8);
    StepTo(s, 32, 15, State(0x90a35af5, 0x703d54d8, 0xa04b4904, 0xb5d41f9c), 0xc4ac5665, 0x71d10367);
  }

  lemma FourthRound()
    ensures |BLOCK| == 16 && Steps(AFTER_THIRD, BLOCK, 48, 16) == AFTER_FOURTH
  {
    hide Step, Steps, BLOCK, Place, Shift, SineTable;
    BlockWords();
    EarlyIiTables();
    LateIiTables();
    var s := State(0xb5d41f9c, 0x71d10367, 0x703d54d8, 0xa04b4904);
    NoSteps(s, BLOCK, 48);
    StepTo(s, 48, 0, State(0xb5d41f9c, 0x71d10367, 0x703d54d8, 0xa04b4904), 0xf4292244, 0xfc32dd6e);
    StepTo(s, 48, 1, State(0xa04b4904, 0xfc32dd6e, 0x71d10367, 0x703d54d8), 0x432aff97, 0x65456b34);
    StepTo(s, 48, 2, State(0x703d54d8, 0x65456b34, 0xfc32dd6e, 0x71d10367), 0xab9423a7, 0xb35602cb);
    StepTo(s, 48, 3, State(0x71d10367, 0xb35602cb, 0x65456b34, 0xfc32dd6e), 0xfc93a039, 0x33edb197);
    StepTo(s, 48, 4, State(0xfc32dd6e, 0x33edb197, 0xb35602cb, 0x65456b34), 0x655b59c3, 0xc1e942f1);
    StepTo(s, 48, 5, State(0x65456b34, 0xc1e942f1, 0x33edb197, 0xb35602cb), 0x8f0ccc92, 0xd9bb987c);
    StepTo(s, 48, 6, State(0xb35602cb, 0xd9bb987c, 0xc1e942f1, 0x33edb197), 0xffeff47d, 0x23a68048);
    StepTo(s, 48, 7, State(0x33edb197, 0x23a68048, 0xd9bb987c, 0xc1e942f1), 0x85845dd1, 0x83877d1b);
    StepTo(s, 48, 8, State(0xc1e942f1, 0x83877d1b, 0x23a68048, 0xd9bb987c), 0x6fa87e4f, 0x0077c208);
    StepTo(s, 48, 9, State(0xd9bb987c, 0x0077c208, 0x83877d1b, 0x23a68048), 0xfe2ce6e0, 0x847fc2e7);
    StepTo(s, 48, 10, State(0x23a68048, 0x847fc2e7, 0x0077c208, 0x83877d1b), 0xa3014314, 0xa3e2247f);
    StepTo(s, 48, 11, State(0x83877d1b, 0xa3e2247f, 0x847fc2e7, 0x0077c208), 0x4e0811a1, 0x5e6bc930);
    StepTo(s, 48, 12, State(0x0077c208, 0x5e6bc930, 0xa3e2247f, 0x847fc2e7), 0xf7537e82, 0x708ed9c2);
    StepTo(s, 48, 13, State(0x847fc2e7, 0x708ed9c2, 0x5e6bc930, 0xa3e2247f), 0xbd3af235, 0x2baf1354);
    StepTo(s, 48, 14, State(0xa3e2247f, 0x2baf1354, 0x708ed9c2, 0x5e6bc930), 0x2ad7d2bb, 0xd38f1e7f);
    StepTo(s, 48, 15, State(0x5e6bc930, 0xd38f1e7f, 0x2baf1354, 0x708ed9c2), 0xeb86d391, 0x1116e6d8);
  }

  lemma AllRounds()
    ensures |BLOCK| == 16 && Steps(INITIAL, BLOCK, 0, 64) == AFTER_FOURTH
  {
    hide Steps, BLOCK;
    FirstRound();
    SecondRound();
    ThirdRound();
    FourthRound();
    StepsSum(INITIAL, BLOCK, 0, 16, 16);
    StepsSum(INITIAL, BLOCK, 0, 32, 16);
    StepsSum(INITIAL, BLOCK, 0, 48, 16);
  }

  lemma AlphabetLetters()
    ensures |ALPHABET| == 26
    ensures ALPHABET[0] == 0x61 && ALPHABET[1] == 0x62 && ALPHABET[2] == 0x63 && ALPHABET[3] == 0x64
    ensures ALPHABET[4] == 0x65 && ALPHABET[5] == 0x66 && ALPHABET[6] == 0x67 && ALPHABET[7] == 0x68
    ensures ALPHABET[8] == 0x69 && ALPHABET[9] == 0x6a && ALPHABET[10] == 0x6b && ALPHABET[11] == 0x6c
    ensures ALPHABET[12] == 0x6d && ALPHABET[13] == 0x6e && ALPHABET[14] == 0x6f && ALPHABET[15] == 0x70
    ensures ALPHABET[16] == 0x71 && ALPHABET[17] == 0x72 && ALPHABET[18] == 0x73 && ALPHABET[19] == 0x74
    ensures ALPHABET[20] == 0x75 && ALPHABET[21] == 0x76 && ALPHABET[22] == 0x77 && ALPHABET[23] == 0x78
    ensures ALPHABET[24] == 0x79 && ALPHABET[25] == 0x7a
  {
  }

  /** Their words; the last one is not full. */
  lemma AlphabetWords()
    ensures BinlAt(ALPHABET, 0) == 0x64636261 && BinlAt(ALPHABET, 1) == 0x68676665
    ensures BinlAt(ALPHABET, 2) == 0x6c6b6a69 && BinlAt(ALPHABET, 3) == 0x706f6e6d
    ensures BinlAt(ALPHABET, 4) == 0x74737271 && BinlAt(ALPHABET, 5) == 0x78777675
    ensures BinlAt(ALPHABET, 6) == 0x7a79
  {
    hide ALPHABET;
    AlphabetLetters();
  }

  lemma MarkerAndLength()
    ensures Marked(0x7a79, 208) == 0x00807a79 && LengthWord(208) == 0xd0
    ensures BlockCount(208) == 1 && MarkerPlace(208) == 6 && LengthPlace(208) == 14
  {
    hide WordOf;
    MarkBits();
    WordIs(208, 0xd0);
  }

  lemma AlphabetPadded()
    ensures WithPadding(Binl(ALPHABET), 208) == BLOCK
  {
    hide ALPHABET, BLOCK, BinlAt, Marked, LengthWord, BlockCount, MarkerPlace, LengthPlace;
    AlphabetLetters();
    AlphabetWords();
    MarkerAndLength();
    BlockWords();
    PaddingBounds(208);
    var ws, x := Binl(ALPHABET), WithPadding(Binl(ALPHABET), 208);
    assert |ws| == 7 && forall k | 0 <= k < 7 :: ws[k] == BinlAt(ALPHABET, k);
    assert x[0] == BLOCK[0] && x[1] == BLOCK[1] && x[2] == BLOCK[2] && x[3] == BLOCK[3];
    assert x[4] == BLOCK[4] && x[5] == BLOCK[5] && x[6] == BLOCK[6] && x[14] == BLOCK[14];
    assert forall k | 7 <= k < 16 && k != 14 :: x[k] == 0;
  }

  lemma SumIsDigest()
    ensures Listed(Sum(AFTER_FOURTH, INITIAL)) == [0xd7d3fcc3, 0x00e49261, 0x6c49fb7d, 0x3be167ca]
  {
  }

  lemma DigestWords()
    ensures Binl(ITS_DIGEST) == [0xd7d3fcc3, 0x00e49261, 0x6c49fb7d, 0x3be167ca]
  {
    var d := ITS_DIGEST;
    assert |d| == 16 && d[0] == 0xc3 && d[1] == 0xfc && d[2] == 0xd3 && d[3] == 0xd7;
    assert d[4] == 0x61 && d[5] == 0x92 && d[6] == 0xe4 && d[7] == 0x00;
    assert d[8] == 0x7d && d[9] == 0xfb && d[10] == 0x49 && d[11] == 0x6c;
    assert d[12] == 0xca && d[13] == 0x67 && d[14] == 0xe1 && d[15] == 0x3b;
    hide ITS_DIGEST;
    assert BinlAt(d, 0) == 0xd7d3fcc3 && BinlAt(d, 1) == 0x00e49261;
    assert BinlAt(d, 2) == 0x6c49fb7d && BinlAt(d, 3) == 0x3be167ca;
  }

  /** The digest of the alphabet is the one of the standard. */
  lemma AlphabetDigest()
    ensures Listed(Digest(Binl(ALPHABET), 8 * |ALPHABET|)) == Binl(ITS_DIGEST)
  {
    hide Steps, BLOCK, ALPHABET, ITS_DIGEST, Binl, WithPadding, Sum, Listed;
    AlphabetLetters();
    AlphabetPadded();
    AllRounds();
    BlockWords();
    assert Block(BLOCK, 0) == BLOCK;
    assert Folded(INITIAL, BLOCK, 0) == Folded(Compressed(INITIAL, BLOCK), BLOCK, 16) == Compressed(INITIAL, BLOCK);
    SumIsDigest();
    DigestWords();
  }
}
