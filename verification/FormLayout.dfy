/** Where the line breaks of a text stand. */
module FormLayout {
  import opened Buffers
  import opened BitPacking
  import opened Base64Form

  /** The characters of line `line` from its group `col` on. */
  function LineFrom(ws: seq<bv32>, line: nat, col: nat): seq<bv8>
    requires col < 16
    decreases 16 - col
  {
    var i := 48 * line + 3 * col;
    if |ws| <= i then [] else QuadAt(ws, i) + if col < 15 then LineFrom(ws, line, col + 1) else []
  }

  /** What follows a line: nothing, or a newline and the lines behind it. */
  function Behind(ws: seq<bv32>, line: nat): seq<bv8> {
    if 48 * line + 48 < |ws| then [NEWLINE] + FormFrom(ws, 48 * line + 48) else []
  }

  lemma {:induction false} TextByLines(ws: seq<bv32>, line: nat, col: nat)
    requires col < 16
    ensures FormFrom(ws, 48 * line + 3 * col) == LineFrom(ws, line, col) + Behind(ws, line)
    decreases 16 - col
  {
    hide QuadAt, Break, FormFrom;
    var i := 48 * line + 3 * col;
    FormStep(ws, i);
    FormStep(ws, i + 3);
    BreakPlace(line, col, |ws|);
    if i < |ws| {
      var q := QuadAt(ws, i);
      if col < 15 {
        TextByLines(ws, line, col + 1);
        assert q + [] == q;
        assert q + (LineFrom(ws, line, col + 1) + Behind(ws, line))
            == q + LineFrom(ws, line, col + 1) + Behind(ws, line);
      } else {
        assert q + [NEWLINE] + FormFrom(ws, i + 3) == q + [] + ([NEWLINE] + FormFrom(ws, i + 3));
      }
    }
  }

  /** No word from `a` to `b` is dropped. */
  ghost predicate WholeFrom(ws: seq<bv32>, a: nat, b: nat) {
    forall k | a <= k < b && k < |ws| :: k % 3 != 0 ==> ws[k] != 0
  }

  lemma GroupWidth(ws: seq<bv32>, i: nat)
    requires i < |ws| && i % 3 == 0
    ensures |QuadAt(ws, i)| <= 4
    ensures i + 3 <= |ws| ==> (|QuadAt(ws, i)| == 4 <==> WholeFrom(ws, i, i + 3))
  {
    hide Quad;
    QuadLength(At(ws, i), At(ws, i + 1), At(ws, i + 2));
    assert (i + 1) % 3 == 1 && (i + 2) % 3 == 2;
    assert forall k | i <= k < i + 3 && k % 3 != 0 :: k == i + 1 || k == i + 2;
  }

  lemma WholeSplits(ws: seq<bv32>, a: nat, b: nat, c: nat)
    requires a <= b <= c
    ensures WholeFrom(ws, a, c) <==> WholeFrom(ws, a, b) && WholeFrom(ws, b, c)
  {
  }

  /** A line has no newline in it and at most 64 characters, and a full line has 64 if none of its words is dropped. */
  lemma {:induction false} LineShape(ws: seq<bv32>, line: nat, col: nat)
    requires col < 16
    ensures NEWLINE !in LineFrom(ws, line, col) && |LineFrom(ws, line, col)| <= 64 - 4 * col
    ensures 48 * line + 48 <= |ws| ==>
              (|LineFrom(ws, line, col)| == 64 - 4 * col <==> WholeFrom(ws, 48 * line + 3 * col, 48 * line + 48))
    decreases 16 - col
  {
    hide QuadAt, WholeFrom;
    var i := 48 * line + 3 * col;
    BreakPlace(line, col, |ws|);
    if i < |ws| {
      GroupWidth(ws, i);
      QuadHasNoNewline(ws, i);
      WholeSplits(ws, i, i + 3, 48 * line + 48);
      if col < 15 {
        LineShape(ws, line, col + 1);
      } else {
        WholeNothing(ws, i + 3);
      }
    }
  }

  lemma WholeNothing(ws: seq<bv32>, a: nat)
    ensures WholeFrom(ws, a, a)
  {
  }

  /** Newlines stand exactly where lines of 64 characters end. */
  ghost predicate LaidOut(t: seq<bv8>) {
    forall k | 0 <= k < |t| :: t[k] == NEWLINE <==> k % 65 == 64
  }

  lemma FirstLineLaidOut(l: seq<bv8>, rest: seq<bv8>)
    requires NEWLINE !in l && |l| <= 64
    ensures LaidOut(l + ([NEWLINE] + rest)) <==> |l| == 64 && LaidOut(rest)
  {
    var t := l + ([NEWLINE] + rest);
    assert t[|l|] == NEWLINE;
    if |l| == 64 {
      assert forall k | 0 <= k < |rest| :: t[65 + k] == rest[k] && (65 + k) % 65 == k % 65;
      assert forall k | 65 <= k < |t| :: t[k] == rest[k - 65] && (k - 65) % 65 == k % 65;
    }
  }

  lemma LastLineLaidOut(l: seq<bv8>)
    requires NEWLINE !in l && |l| <= 64
    ensures LaidOut(l + [])
  {
  }

  /** How many words stand in the lines before the last. */
  function InFullLines(n: nat): nat {
    if n == 0 then 0 else (n - 1) / 48 * 48
  }

  lemma FullLinesEnd(line: nat, n: nat)
    ensures 48 * line + 48 < n ==> 48 * line + 48 <= InFullLines(n)
    ensures n <= 48 * line + 48 ==> InFullLines(n) <= 48 * line
  {
  }

  lemma {:induction false} LinesLaidOut(ws: seq<bv32>, line: nat)
    ensures LaidOut(FormFrom(ws, 48 * line)) <==> WholeFrom(ws, 48 * line, InFullLines(|ws|))
    decreases |ws| - 48 * line
  {
    hide LaidOut, WholeFrom, FormFrom, LineFrom, InFullLines;
    var i, n := 48 * line, |ws|;
    TextByLines(ws, line, 0);
    LineShape(ws, line, 0);
    FullLinesEnd(line, n);
    if i + 48 < n {
      LinesLaidOut(ws, line + 1);
      FirstLineLaidOut(LineFrom(ws, line, 0), FormFrom(ws, i + 48));
      WholeSplits(ws, i, i + 48, InFullLines(n));
    } else {
      LastLineLaidOut(LineFrom(ws, line, 0));
      WholeBefore(ws, i, InFullLines(n));
    }
  }

  lemma WholeBefore(ws: seq<bv32>, a: nat, b: nat)
    requires b <= a
    ensures WholeFrom(ws, a, b)
  {
  }

  /**
   * Every line but the last has 64 characters and ends in a newline, and the last has none, if and only if no word
   * is dropped in the lines before the last.
   */
  lemma LayoutIff(ws: seq<bv32>)
    ensures (forall k | 0 <= k < |Form(ws)| :: Form(ws)[k] == NEWLINE <==> k % 65 == 64)
       <==> (forall k | 0 <= k < InFullLines(|ws|) :: k % 3 != 0 ==> ws[k] != 0)
  {
    hide FormFrom;
    LinesLaidOut(ws, 0);
    assert FormFrom(ws, 48 * 0) == Form(ws);
    assert InFullLines(|ws|) <= |ws|;
    assert LaidOut(Form(ws)) <==> WholeFrom(ws, 0, InFullLines(|ws|));
  }

  /** A text never ends in a newline. */
  lemma EndsInDigit(ws: seq<bv32>)
    ensures Form(ws) != [] ==> Form(ws)[|Form(ws)| - 1] != NEWLINE
  {
    EndsInDigitFrom(ws, 0);
  }

  lemma {:induction false} EndsInDigitFrom(ws: seq<bv32>, i: nat)
    ensures i < |ws| ==> FormFrom(ws, i) != []
    ensures FormFrom(ws, i) != [] ==> FormFrom(ws, i)[|FormFrom(ws, i)| - 1] != NEWLINE
    decreases |ws| - i
  {
    hide Quad, Break, FormFrom;
    FormStep(ws, i);
    FormStep(ws, i + 3);
    if i < |ws| {
      EndsInDigitFrom(ws, i + 3);
      QuadHasNoNewline(ws, i);
      NoBreakAtEnd(i, |ws|);
    }
  }

  lemma NoBreakAtEnd(i: nat, n: nat)
    ensures n <= i + 3 ==> Break(i, n) == []
  {
  }

  /** A text has newlines exactly when it has more than 48 words, dropped or not. */
  lemma NewlineIff(ws: seq<bv32>)
    ensures 0x0a in Form(ws) <==> 48 < |ws|
  {
    hide FormFrom, LineFrom;
    TextByLines(ws, 0, 0);
    LineShape(ws, 0, 0);
  }
}
