/** Exactly which texts of cipher words read back: with their newlines, as `decrypt` takes them, and without. */
module FormReading {
  import opened Basics
  import opened Buffers
  import opened BitPacking
  import opened Base64Form
  import opened FormLayout
  import opened Streams

  // ---------- a text as a script ----------

  function Mark(w: bv32, v: bv32): Item {
    if w != 0 then Shown(v) else Lost(v)
  }

  /** The digits of the group of words at `i`: those of a second or third word that is zero get lost. */
  function GroupItems(ws: seq<bv32>, i: nat): seq<Item>
    requires i < |ws|
  {
    var t := Triplet(At(ws, i), At(ws, i + 1), At(ws, i + 2));
    [Shown(Sextet(t, 0)), Shown(Sextet(t, 1))]
    + (if i + 1 < |ws| then [Mark(ws[i + 1], Sextet(t, 2))] else [])
    + (if i + 2 < |ws| then [Mark(ws[i + 2], Sextet(t, 3))] else [])
  }

  /** A newline is read as a digit, namely zero. */
  function BreakItems(i: nat, n: nat, broken: bool): seq<Item> {
    if broken && Break(i, n) != [] then [Gap] else []
  }

  /** The digits of the words from `i` on, with the line breaks among them or without. */
  function Script(ws: seq<bv32>, i: nat, broken: bool): seq<Item>
    decreases |ws| - i
  {
    if |ws| <= i then [] else GroupItems(ws, i) + BreakItems(i, |ws|, broken) + Script(ws, i + 3, broken)
  }

  function TextFrom(ws: seq<bv32>, i: nat, broken: bool): seq<bv8> {
    if broken then FormFrom(ws, i) else Digits(Rest(ws, i))
  }

  /** The six bits a reader takes of a character; a newline, like anything outside the alphabet, gives zero. */
  function Taken(c: bv8): bv32 {
    Value(c) & 0x3f
  }

  function Values(t: seq<bv8>): (vs: seq<bv32>)
    ensures |vs| == |t|
  {
    seq(|t|, k requires 0 <= k < |t| => Taken(t[k]))
  }

  lemma ValuesConcat(s: seq<bv8>, t: seq<bv8>)
    ensures Values(s + t) == Values(s) + Values(t)
  {
    hide Taken;
  }

  lemma DigitIsTaken(t: bv32, j: nat)
    requires j < 4
    ensures Taken(DigitOf(t, j)) == Sextet(t, j)
  {
    hide Value, DigitOf, Sextet;
    ValueOfDigitOf(t, j);
  }

  lemma NewlineInTable(p: nat)
    requires p < 64
    ensures B64_TAB[p] != NEWLINE
  {
    hide Digit;
    PlaceAsWord(p);
    TableIsAlphabet((p as bv8) as bv32);
    DigitIsPrintable((p as bv8) as bv32);
  }

  lemma NewlineIsTaken()
    ensures Taken(NEWLINE) == 0
  {
    hide B64_TAB, PlaceOf;
    if PlaceOf(NEWLINE) < 64 {
      NewlineInTable(PlaceOf(NEWLINE));
    }
    assert PlaceOf(NEWLINE) == 64;
  }

  lemma GroupIsSeen(ws: seq<bv32>, i: nat)
    requires i < |ws|
    ensures var t := Triplet(At(ws, i), At(ws, i + 1), At(ws, i + 2));
            Seen(GroupItems(ws, i)) == [Sextet(t, 0)] + [Sextet(t, 1)]
              + (if At(ws, i + 1) != 0 then [Sextet(t, 2)] else [])
              + (if At(ws, i + 2) != 0 then [Sextet(t, 3)] else [])
  {
    hide Seen, Triplet, Sextet, Mark, GroupItems;
    var t := Triplet(At(ws, i), At(ws, i + 1), At(ws, i + 2));
    ItemsInFour(ws, i);
    SeenItems(Sextet(t, 0), Sextet(t, 1), Sextet(t, 2), Sextet(t, 3), At(ws, i + 1), At(ws, i + 2),
              i + 1 < |ws|, i + 2 < |ws|);
  }

  lemma SeenItems(a: bv32, b: bv32, c: bv32, d: bv32, v: bv32, w: bv32, second: bool, third: bool)
    requires (second || v == 0) && (third || w == 0)
    ensures Seen([Shown(a)] + [Shown(b)] + (if second then [Mark(v, c)] else []) + (if third then [Mark(w, d)] else []))
         == [a] + [b] + (if v != 0 then [c] else []) + (if w != 0 then [d] else [])
  {
    hide Seen, Mark;
    SeenOfFour([Shown(a)], [Shown(b)], if second then [Mark(v, c)] else [], if third then [Mark(w, d)] else []);
    SeenMark(0, a);
    SeenMark(0, b);
    SeenMark(v, c);
    SeenMark(w, d);
  }

  lemma SeenMark(w: bv32, v: bv32)
    ensures Seen([Mark(w, v)]) == (if w != 0 then [v] else []) && Seen([Shown(v)]) == [v] && Seen([]) == []
  {
  }

  lemma OneTaken(t: bv32, j: nat)
    requires j < 4
    ensures Values([DigitOf(t, j)]) == [Sextet(t, j)]
  {
    hide Taken, DigitOf, Sextet;
    DigitIsTaken(t, j);
  }

  lemma QuadIsSeen(ws: seq<bv32>, i: nat)
    requires i < |ws|
    ensures Values(QuadAt(ws, i)) == Seen(GroupItems(ws, i))
  {
    hide Values, Seen, DigitOf, Triplet, Sextet, Quad, GroupItems;
    var u, v, w := At(ws, i), At(ws, i + 1), At(ws, i + 2);
    var t := Triplet(u, v, w);
    NothingTaken();
    OneTaken(t, 0);
    OneTaken(t, 1);
    OneTaken(t, 2);
    OneTaken(t, 3);
    QuadInFour(u, v, w);
    ValuesOfFour([DigitOf(t, 0)], [DigitOf(t, 1)], if v != 0 then [DigitOf(t, 2)] else [],
                 if w != 0 then [DigitOf(t, 3)] else []);
    GroupIsSeen(ws, i);
  }

  lemma QuadInFour(u: bv32, v: bv32, w: bv32)
    ensures var t := Triplet(u, v, w);
            Quad(u, v, w) == [DigitOf(t, 0)] + [DigitOf(t, 1)] + (if v != 0 then [DigitOf(t, 2)] else [])
                           + if w != 0 then [DigitOf(t, 3)] else []
  {
    hide DigitOf, Triplet;
  }

  lemma ItemsInFour(ws: seq<bv32>, i: nat)
    requires i < |ws|
    ensures var t := Triplet(At(ws, i), At(ws, i + 1), At(ws, i + 2));
            GroupItems(ws, i) == [Shown(Sextet(t, 0))] + [Shown(Sextet(t, 1))]
              + (if i + 1 < |ws| then [Mark(At(ws, i + 1), Sextet(t, 2))] else [])
              + if i + 2 < |ws| then [Mark(At(ws, i + 2), Sextet(t, 3))] else []
  {
    hide Sextet, Triplet, Mark;
  }

  lemma ValuesOfFour(a: seq<bv8>, b: seq<bv8>, c: seq<bv8>, d: seq<bv8>)
    ensures Values(a + b + c + d) == Values(a) + Values(b) + Values(c) + Values(d)
  {
    hide Values;
    ValuesConcat(a + b + c, d);
    ValuesConcat(a + b, c);
    ValuesConcat(a, b);
  }

  lemma SeenOfFour(a: seq<Item>, b: seq<Item>, c: seq<Item>, d: seq<Item>)
    ensures Seen(a + b + c + d) == Seen(a) + Seen(b) + Seen(c) + Seen(d)
    ensures Meant(a + b + c + d) == Meant(a) + Meant(b) + Meant(c) + Meant(d)
  {
    hide Seen, Meant;
    SeenConcat(a + b + c, d);
    SeenConcat(a + b, c);
    SeenConcat(a, b);
  }

  lemma BreakIsSeen(i: nat, n: nat)
    ensures Values(Break(i, n)) == Seen(BreakItems(i, n, true))
  {
    hide Taken;
    NewlineIsTaken();
  }

  lemma TextStep(ws: seq<bv32>, i: nat, broken: bool)
    ensures TextFrom(ws, i, broken)
         == if |ws| <= i then []
            else QuadAt(ws, i) + (if broken then Break(i, |ws|) else []) + TextFrom(ws, i + 3, broken)
  {
    hide QuadAt;
    FormStep(ws, i);
    if i < |ws| {
      DigitsBehind(ws, i);
    }
  }

  /** What the reader takes of a text is what is seen of its script. */
  lemma {:induction false} TextIsSeen(ws: seq<bv32>, i: nat, broken: bool)
    ensures Values(TextFrom(ws, i, broken)) == Seen(Script(ws, i, broken))
    decreases |ws| - i
  {
    hide QuadAt, Break, Values, Seen, GroupItems, BreakItems, TextFrom;
    TextStep(ws, i, broken);
    NothingTaken();
    if i < |ws| {
      var q, b, t := QuadAt(ws, i), if broken then Break(i, |ws|) else [], TextFrom(ws, i + 3, broken);
      ValuesConcat(q + b, t);
      ValuesConcat(q, b);
      SeenConcat(GroupItems(ws, i) + BreakItems(i, |ws|, broken), Script(ws, i + 3, broken));
      SeenConcat(GroupItems(ws, i), BreakItems(i, |ws|, broken));
      QuadIsSeen(ws, i);
      BreakIsSeen(i, |ws|);
      UnbrokenItems(i, |ws|);
      TextIsSeen(ws, i + 3, broken);
    }
  }

  lemma NothingTaken()
    ensures Values([]) == [] && Seen([]) == []
  {
  }

  lemma UnbrokenItems(i: nat, n: nat)
    ensures BreakItems(i, n, false) == []
  {
  }

  // ---------- values as words ----------

  /** The bytes of a triplet that are there. */
  function Pieces(t: bv32, second: bool, third: bool): seq<bv32> {
    [ByteOf(t, 0)] + (if second then [ByteOf(t, 1)] else []) + (if third then [ByteOf(t, 2)] else [])
  }

  /** The bytes of up to four values. */
  function BytesOf(x: seq<bv32>): (bs: seq<bv32>)
    requires x != []
    ensures |bs| == if |x| < 3 then 1 else if |x| == 3 then 2 else 3
  {
    Pieces(Together(x[0], At(x, 1), At(x, 2), At(x, 3)), 3 <= |x|, 4 <= |x|)
  }

  lemma GroupInPieces(a: bv8, b: bv8, c: bv8, d: bv8)
    ensures Group(a, b, c, d) == Pieces(Together(Value(a), Value(b), Value(c), Value(d)), c != 0, d != 0)
  {
    hide Value, Together, ByteOf;
  }

  function Assembled(x: seq<bv32>): seq<bv32>
    decreases |x|
  {
    if x == [] then [] else BytesOf(x) + Assembled(Rest(x, 4))
  }

  lemma TogetherOfTaken(a: bv32, b: bv32, c: bv32, d: bv32)
    requires a <= 64 && b <= 64 && c <= 64 && d <= 64
    ensures Together(a, b, c, d) == Together(a & 0x3f, b & 0x3f, c & 0x3f, d & 0x3f)
  {
  }

  lemma ValueIsSmall(c: bv8)
    ensures Value(c) <= 64
  {
    hide PlaceOf;
    var p := PlaceOf(c);
    if p < 64 {
      PlaceAsWord(p);
    }
  }

  lemma TogetherOfChars(a: bv8, b: bv8, c: bv8, d: bv8)
    ensures Together(Value(a), Value(b), Value(c), Value(d)) == Together(Taken(a), Taken(b), Taken(c), Taken(d))
  {
    hide Value, Together;
    ValueIsSmall(a);
    ValueIsSmall(b);
    ValueIsSmall(c);
    ValueIsSmall(d);
    TogetherOfTaken(Value(a), Value(b), Value(c), Value(d));
  }

  lemma MissingIsTaken()
    ensures Taken(0) == 0
  {
    MissingValue();
  }

  lemma TakenAt(t: seq<bv8>, k: nat)
    requires 0 !in t
    ensures At(Values(t), k) == Taken(CharAt(t, k)) && (CharAt(t, k) != 0 <==> k < |t|)
  {
    hide Value;
    MissingIsTaken();
    assert k < |t| ==> t[k] in t;
  }

  lemma GroupIsBytesOf(t: seq<bv8>)
    requires 0 !in t && t != []
    ensures Group(t[0], CharAt(t, 1), CharAt(t, 2), CharAt(t, 3)) == BytesOf(Values(t))
  {
    hide Value, Values, Taken, At, CharAt, Together, Group, Pieces;
    GroupInPieces(t[0], CharAt(t, 1), CharAt(t, 2), CharAt(t, 3));
    TakenAt(t, 0);
    TakenAt(t, 1);
    TakenAt(t, 2);
    TakenAt(t, 3);
    FirstAt(t);
    TogetherOfChars(t[0], CharAt(t, 1), CharAt(t, 2), CharAt(t, 3));
  }

  lemma FirstAt(t: seq<bv8>)
    requires t != []
    ensures CharAt(t, 0) == t[0] && At(Values(t), 0) == Values(t)[0]
  {
    hide Taken;
  }

  /** Reading a text only depends on the values taken. */
  lemma {:induction false} DecodedIsAssembled(t: seq<bv8>)
    requires 0 !in t
    ensures Decoded(t) == Assembled(Values(t))
    decreases |t|
  {
    hide Taken, Group, BytesOf;
    if t != [] {
      GroupIsBytesOf(t);
      assert forall c | c in Rest(t, 4) :: c in t;
      DecodedIsAssembled(Rest(t, 4));
      assert Rest(Values(t), 4) == Values(Rest(t, 4));
    }
  }

  lemma {:induction false} AssembledLength(x: seq<bv32>)
    ensures |Assembled(x)| == DecodedLength(|x|)
    decreases |x|
  {
    hide BytesOf;
    if x != [] {
      AssembledLength(Rest(x, 4));
    }
  }

  ghost predicate Small(x: seq<bv32>) {
    forall k | 0 <= k < |x| :: x[k] < 64
  }

  /** The bits of the last value that no byte takes are zero. */
  predicate Trimmed(x: seq<bv32>, n: nat) {
    x != [] ==>
      && (n % 4 == 2 ==> x[|x| - 1] & 0xf == 0)
      && (n % 4 == 3 ==> x[|x| - 1] & 0x3 == 0)
  }

  lemma TogetherInjective(a: bv32, b: bv32, c: bv32, d: bv32, e: bv32, f: bv32, g: bv32, h: bv32)
    requires a < 64 && b < 64 && c < 64 && d < 64 && e < 64 && f < 64 && g < 64 && h < 64
    requires Together(a, b, c, d) == Together(e, f, g, h)
    ensures a == e && b == f && c == g && d == h
  {
  }

  lemma OneByteInjective(a: bv32, b: bv32, c: bv32, d: bv32)
    requires a < 64 && b < 64 && c < 64 && d < 64 && b & 0xf == 0 && d & 0xf == 0
    requires ByteOf(Together(a, b, 0, 0), 0) == ByteOf(Together(c, d, 0, 0), 0)
    ensures a == c && b == d
  {
  }

  lemma TwoBytesInjective(a: bv32, b: bv32, c: bv32, d: bv32, e: bv32, f: bv32)
    requires a < 64 && b < 64 && c < 64 && d < 64 && e < 64 && f < 64 && c & 0x3 == 0 && f & 0x3 == 0
    requires ByteOf(Together(a, b, c, 0), 0) == ByteOf(Together(d, e, f, 0), 0)
    requires ByteOf(Together(a, b, c, 0), 1) == ByteOf(Together(d, e, f, 0), 1)
    ensures a == d && b == e && c == f
  {
  }

  lemma BytesInjective(x: seq<bv32>, y: seq<bv32>)
    requires x != [] && |x| == |y| && Small(x) && Small(y) && |x| != 1
    requires |x| < 4 ==> Trimmed(x, |x|) && Trimmed(y, |x|)
    requires BytesOf(x) == BytesOf(y)
    ensures x[..Min(|x|, 4)] == y[..Min(|x|, 4)]
  {
    hide Together, ByteOf, Trimmed, Small;
    SmallFirst(x);
    SmallFirst(y);
    var b, c := BytesOf(x), BytesOf(y);
    assert b[0] == c[0];
    if |x| == 2 {
      TrimmedTwo(x);
      TrimmedTwo(y);
      OneByteInjective(x[0], x[1], y[0], y[1]);
    } else if |x| == 3 {
      assert b[1] == c[1];
      TrimmedThree(x);
      TrimmedThree(y);
      TwoBytesInjective(x[0], x[1], x[2], y[0], y[1], y[2]);
    } else {
      assert b[1] == c[1] && b[2] == c[2];
      ThreeBytesInjective(x[0], x[1], x[2], x[3], y[0], y[1], y[2], y[3]);
    }
  }

  lemma SmallFirst(x: seq<bv32>)
    requires Small(x)
    ensures forall k | 0 <= k < |x| && k < 4 :: x[k] < 64
  {
  }

  lemma TrimmedTwo(x: seq<bv32>)
    requires |x| == 2 && Trimmed(x, 2)
    ensures x[1] & 0xf == 0
  {
  }

  lemma TrimmedThree(x: seq<bv32>)
    requires |x| == 3 && Trimmed(x, 3)
    ensures x[2] & 0x3 == 0
  {
  }

  lemma ThreeBytesInjective(a: bv32, b: bv32, c: bv32, d: bv32, e: bv32, f: bv32, g: bv32, h: bv32)
    requires a < 64 && b < 64 && c < 64 && d < 64 && e < 64 && f < 64 && g < 64 && h < 64
    requires forall j: nat | j < 3 :: ByteOf(Together(a, b, c, d), j) == ByteOf(Together(e, f, g, h), j)
    ensures a == e && b == f && c == g && d == h
  {
    hide Together, ByteOf;
    TogetherIsSmall(a, b, c, d);
    TogetherIsSmall(e, f, g, h);
    ByteLists(Together(a, b, c, d), Together(e, f, g, h));
    TogetherInjective(a, b, c, d, e, f, g, h);
  }

  /** Nothing is lost in putting values together. */
  lemma {:induction false} AssembledInjective(x: seq<bv32>, y: seq<bv32>)
    requires |x| == |y| && |x| % 4 != 1 && Small(x) && Small(y) && Trimmed(x, |x|) && Trimmed(y, |x|)
    requires Assembled(x) == Assembled(y)
    ensures x == y
    decreases |x|
  {
    hide BytesOf, Trimmed;
    if x != [] {
      var p, q := Rest(x, 4), Rest(y, 4);
      SameLists(BytesOf(x), BytesOf(y), Assembled(p), Assembled(q));
      BytesInjective(x, y);
      if 4 <= |x| {
        TrimmedRest(x);
        TrimmedRest(y);
        AssembledInjective(p, q);
        assert x == x[..4] + p && y == y[..4] + q;
      } else {
        assert x == x[..Min(|x|, 4)] && y == y[..Min(|x|, 4)];
      }
    }
  }

  lemma TrimmedRest(x: seq<bv32>)
    requires 4 <= |x| && Trimmed(x, |x|) && Small(x)
    ensures Trimmed(Rest(x, 4), |x| - 4) && Small(Rest(x, 4)) && (|x| - 4) % 4 == |x| % 4
  {
  }

  // ---------- what was meant ----------

  lemma ScriptStep(ws: seq<bv32>, i: nat, broken: bool)
    requires i < |ws|
    ensures Meant(Script(ws, i, broken)) == Meant(GroupItems(ws, i)) + Meant(Script(ws, i + 3, broken))
    ensures Seen(Script(ws, i, broken))
         == Seen(GroupItems(ws, i)) + Seen(BreakItems(i, |ws|, broken)) + Seen(Script(ws, i + 3, broken))
  {
    hide Seen, Meant, GroupItems, BreakItems;
    var g, b, r := GroupItems(ws, i), BreakItems(i, |ws|, broken), Script(ws, i + 3, broken);
    SeenConcat(g + b, r);
    SeenConcat(g, b);
    BreakIsNotMeant(i, |ws|, broken);
    assert Meant(g) + [] == Meant(g);
  }

  lemma BreakIsNotMeant(i: nat, n: nat, broken: bool)
    ensures Meant(BreakItems(i, n, broken)) == []
  {
    hide Break;
  }

  lemma OneMeant(w: bv32, v: bv32)
    ensures Meant([Mark(w, v)]) == [v] && Meant([Shown(v)]) == [v] && Meant([]) == []
  {
  }

  /** All digits of a group are meant. */
  lemma GroupIsMeant(ws: seq<bv32>, i: nat)
    requires i < |ws|
    ensures var t := Triplet(At(ws, i), At(ws, i + 1), At(ws, i + 2));
            Meant(GroupItems(ws, i)) == [Sextet(t, 0)] + [Sextet(t, 1)]
              + (if i + 1 < |ws| then [Sextet(t, 2)] else []) + (if i + 2 < |ws| then [Sextet(t, 3)] else [])
  {
    hide Meant, Triplet, Sextet, Mark, GroupItems;
    var t := Triplet(At(ws, i), At(ws, i + 1), At(ws, i + 2));
    ItemsInFour(ws, i);
    SeenOfFour([Shown(Sextet(t, 0))], [Shown(Sextet(t, 1))],
               if i + 1 < |ws| then [Mark(At(ws, i + 1), Sextet(t, 2))] else [],
               if i + 2 < |ws| then [Mark(At(ws, i + 2), Sextet(t, 3))] else []);
    OneMeant(0, Sextet(t, 0));
    OneMeant(0, Sextet(t, 1));
    OneMeant(At(ws, i + 1), Sextet(t, 2));
    OneMeant(At(ws, i + 2), Sextet(t, 3));
  }

  lemma {:induction false} MeantLength(ws: seq<bv32>, i: nat, broken: bool)
    requires i <= |ws|
    ensures |Meant(Script(ws, i, broken))| == FullLength(|ws| - i)
    decreases |ws| - i
  {
    hide Meant, GroupItems, BreakItems, FullLength, Triplet, Sextet;
    FullLengthStep(|ws| - i);
    if i < |ws| {
      ScriptStep(ws, i, broken);
      GroupIsMeant(ws, i);
      if i + 3 <= |ws| {
        MeantLength(ws, i + 3, broken);
      } else {
        OneMeant(0, 0);
      }
    } else {
      OneMeant(0, 0);
    }
  }

  lemma WordsOfThree(u: bv32, v: bv32, w: bv32, x: seq<bv32>)
    ensures var t := Triplet(u, v, w);
            Assembled([Sextet(t, 0)] + [Sextet(t, 1)] + [Sextet(t, 2)] + [Sextet(t, 3)] + x)
              == [Low(u), Low(v), Low(w)] + Assembled(x)
  {
    hide Triplet, Sextet, Together, ByteOf, Low;
    var t := Triplet(u, v, w);
    var y := [Sextet(t, 0)] + [Sextet(t, 1)] + [Sextet(t, 2)] + [Sextet(t, 3)] + x;
    TripletBytes(u, v, w);
    SextetsMakeTriplet(t);
    assert Rest(y, 4) == x;
  }

  lemma WordsOfTwo(u: bv32, v: bv32)
    ensures var t := Triplet(u, v, 0);
            Assembled([Sextet(t, 0)] + [Sextet(t, 1)] + [Sextet(t, 2)]) == [Low(u), Low(v)]
  {
    hide Triplet, Sextet, Together, ByteOf, Low;
    var t := Triplet(u, v, 0);
    TripletBytes(u, v, 0);
    SextetsMakeTriplet(t);
    LastSextets(u, v);
    assert Assembled([]) == [];
  }

  lemma WordsOfOne(u: bv32)
    ensures var t := Triplet(u, 0, 0);
            Assembled([Sextet(t, 0)] + [Sextet(t, 1)]) == [Low(u)]
  {
    hide Triplet, Sextet, Together, ByteOf, Low;
    var t := Triplet(u, 0, 0);
    TripletBytes(u, 0, 0);
    SextetsMakeTriplet(t);
    LastSextets(u, 0);
    assert Assembled([]) == [];
  }

  /** Put together, the digits that were meant are the low bytes of the words. */
  lemma {:induction false} MeantIsWords(ws: seq<bv32>, i: nat, broken: bool)
    ensures Assembled(Meant(Script(ws, i, broken))) == LowBytes(Rest(ws, i))
    decreases |ws| - i
  {
    hide Meant, GroupItems, BreakItems, Triplet, Sextet, Low, LowBytes, Assembled;
    if i < |ws| {
      var u, v, w, m := At(ws, i), At(ws, i + 1), At(ws, i + 2), Meant(Script(ws, i + 3, broken));
      ScriptStep(ws, i, broken);
      GroupIsMeant(ws, i);
      MeantIsWords(ws, i + 3, broken);
      RestBytes(ws, i);
      NothingAssembled();
      var t := Triplet(u, v, w);
      if i + 2 < |ws| {
        WordsOfThree(u, v, w, m);
      } else if i + 1 < |ws| {
        WordsOfTwo(u, v);
        assert [Sextet(t, 0)] + [Sextet(t, 1)] + [Sextet(t, 2)] + [] + []
            == [Sextet(t, 0)] + [Sextet(t, 1)] + [Sextet(t, 2)];
      } else {
        WordsOfOne(u);
        assert [Sextet(t, 0)] + [Sextet(t, 1)] + [] + [] + [] == [Sextet(t, 0)] + [Sextet(t, 1)];
      }
    } else {
      NothingAssembled();
    }
  }

  lemma NothingAssembled()
    ensures Assembled([]) == [] && Meant([]) == [] && LowBytes([]) == []
  {
  }

  lemma RestBytes(ws: seq<bv32>, i: nat)
    requires i < |ws|
    ensures LowBytes(Rest(ws, i))
         == if i + 2 < |ws| then [Low(At(ws, i)), Low(At(ws, i + 1)), Low(At(ws, i + 2))] + LowBytes(Rest(ws, i + 3))
            else if i + 1 < |ws| then [Low(At(ws, i)), Low(At(ws, i + 1))]
            else [Low(At(ws, i))]
  {
    hide Low;
    FirstGroup(Rest(ws, i));
    assert Rest(Rest(ws, i), 3) == Rest(ws, i + 3);
    assert forall k: nat | k < 3 :: At(Rest(ws, i), k) == At(ws, i + k);
  }

  // ---------- what holds of every digit ----------

  predicate SmallItem(x: Item) {
    match x case Shown(v) => v < 64 case Lost(v) => v < 64 case Gap => true
  }

  ghost predicate SmallItems(items: seq<Item>) {
    forall k | 0 <= k < |items| :: SmallItem(items[k])
  }

  lemma {:induction false} SmallStreams(items: seq<Item>)
    requires SmallItems(items)
    ensures Small(Seen(items)) && Small(Meant(items))
  {
    if items != [] {
      assert SmallItem(items[0]);
      assert forall k | 0 <= k < |items| - 1 :: items[1..][k] == items[k + 1];
      SmallStreams(items[1..]);
    }
  }

  lemma GroupIsSmall(ws: seq<bv32>, i: nat)
    requires i < |ws|
    ensures SmallItems(GroupItems(ws, i))
  {
    hide Sextet, Triplet;
  }

  lemma {:induction false} ScriptIsSmall(ws: seq<bv32>, i: nat, broken: bool)
    ensures SmallItems(Script(ws, i, broken))
    decreases |ws| - i
  {
    hide GroupItems, Break, SmallItem;
    if i < |ws| {
      GroupIsSmall(ws, i);
      assert SmallItem(Gap) by { GapIsSmall(); }
      ScriptIsSmall(ws, i + 3, broken);
    }
  }

  lemma GapIsSmall()
    ensures SmallItem(Gap)
  {
  }

  lemma LastBitsOfTwo(u: bv32)
    ensures Sextet(Triplet(u, 0, 0), 1) & 0xf == 0
  {
  }

  lemma LastBitsOfThree(u: bv32, v: bv32)
    ensures Sextet(Triplet(u, v, 0), 2) & 0x3 == 0
    ensures v == 0 ==> Sextet(Triplet(u, v, 0), 1) & 0x3 == 0
  {
  }

  /** The last digit that is seen, like the last that was meant, has no bits too many. */
  lemma {:induction false} LastDigits(ws: seq<bv32>, i: nat, broken: bool)
    requires i < |ws|
    ensures Trimmed(Seen(Script(ws, i, broken)), FullLength(|ws| - i)) && Seen(Script(ws, i, broken)) != []
    ensures Trimmed(Meant(Script(ws, i, broken)), FullLength(|ws| - i)) && Meant(Script(ws, i, broken)) != []
    decreases |ws| - i
  {
    hide Seen, Meant, GroupItems, BreakItems, Trimmed, FullLength;
    ScriptStep(ws, i, broken);
    if i + 3 < |ws| {
      LastDigits(ws, i + 3, broken);
      FullLengthStep(|ws| - i);
      TrimmedBehind(Meant(GroupItems(ws, i)), Meant(Script(ws, i + 3, broken)), FullLength(|ws| - i - 3));
      TrimmedBehind(Seen(GroupItems(ws, i)) + Seen(BreakItems(i, |ws|, broken)), Seen(Script(ws, i + 3, broken)),
                    FullLength(|ws| - i - 3));
    } else {
      NoMoreItems(ws, i, broken);
      LastGroupDigits(ws, i);
    }
  }

  lemma TrimmedBehind(a: seq<bv32>, x: seq<bv32>, n: nat)
    requires x != [] && Trimmed(x, n)
    ensures Trimmed(a + x, n + 4)
  {
    assert (n + 4) % 4 == n % 4;
    assert (a + x)[|a + x| - 1] == x[|x| - 1];
  }

  lemma NoMoreItems(ws: seq<bv32>, i: nat, broken: bool)
    requires i < |ws| <= i + 3
    ensures Seen(Script(ws, i, broken)) == Seen(GroupItems(ws, i))
    ensures Meant(Script(ws, i, broken)) == Meant(GroupItems(ws, i))
  {
    hide Seen, Meant, GroupItems;
    assert Script(ws, i, broken) == GroupItems(ws, i);
  }

  lemma LastGroupDigits(ws: seq<bv32>, i: nat)
    requires i < |ws| <= i + 3
    ensures Seen(GroupItems(ws, i)) != [] && Trimmed(Seen(GroupItems(ws, i)), FullLength(|ws| - i))
    ensures Meant(GroupItems(ws, i)) != [] && Trimmed(Meant(GroupItems(ws, i)), FullLength(|ws| - i))
  {
    hide Triplet, Sextet, Seen, Meant, GroupItems;
    var u, v, w := At(ws, i), At(ws, i + 1), At(ws, i + 2);
    var t := Triplet(u, v, w);
    GroupIsMeant(ws, i);
    GroupIsSeen(ws, i);
    if |ws| == i + 1 {
      LastBitsOfTwo(u);
    } else if |ws| == i + 2 {
      LastBitsOfThree(u, v);
    }
  }

  // ---------- when a text reads back ----------

  /**
   * The digits keep in step, or are one short at the end of a one-word last group, where a missing digit reads as
   * zero.
   */
  predicate CatchesUp(ws: seq<bv32>, broken: bool) {
    var s := Script(ws, 0, broken);
    InStep(s, 0) || (|ws| % 3 == 1 && InStep(s + [Gap], 0))
  }

  lemma {:induction false} TextHasNoNul(ws: seq<bv32>, i: nat, broken: bool)
    ensures 0 !in TextFrom(ws, i, broken)
    decreases |ws| - i
  {
    hide QuadAt, TextFrom;
    TextStep(ws, i, broken);
    if i < |ws| {
      TextHasNoNul(ws, i + 3, broken);
      QuadHasNoNul(ws, i);
    }
  }

  lemma QuadHasNoNul(ws: seq<bv32>, i: nat)
    ensures 0 !in QuadAt(ws, i)
  {
    QuadIsPrintable(At(ws, i), At(ws, i + 1), At(ws, i + 2));
  }

  lemma FullLengthIs(q: nat, r: nat)
    requires r < 3
    ensures FullLength(3 * q + r) == 4 * q + (if r == 0 then 0 else r + 1)
    ensures (3 * q + r) % 3 == r
  {
  }

  lemma DecodedLengthIs(q: nat, r: nat)
    requires r < 4
    ensures DecodedLength(4 * q + r) == 3 * q + (if r == 0 then 0 else if r == 3 then 2 else 1)
    ensures (4 * q + r) % 4 == r
  {
  }

  lemma LengthsMatch(m: nat, n: nat)
    ensures FullLength(n) % 4 != 1
    ensures DecodedLength(m) == DecodedLength(FullLength(n)) ==>
              m == FullLength(n) || (m + 1 == FullLength(n) && n % 3 == 1)
    ensures n % 3 == 1 && m + 1 == FullLength(n) ==> m % 4 == 1
  {
    hide FullLength, DecodedLength;
    var q, r, c, d := n / 3, n % 3, m / 4, m % 4;
    FullLengthIs(q, r);
    DecodedLengthIs(q, if r == 0 then 0 else r + 1);
    DecodedLengthIs(c, d);
  }

  lemma {:induction false} ZeroAtTheEnd(x: seq<bv32>)
    requires |x| % 4 == 1
    ensures Assembled(x + [0]) == Assembled(x)
    decreases |x|
  {
    hide Together, ByteOf;
    if |x| == 1 {
      assert Rest(x, 4) == Rest(x + [0], 4) == [];
    } else {
      hide BytesOf;
      assert Rest(x + [0], 4) == Rest(x, 4) + [0];
      ZeroAtTheEnd(Rest(x, 4));
    }
  }

  lemma GapAtTheEnd(s: seq<Item>)
    ensures Seen(s + [Gap]) == Seen(s) + [0] && Meant(s + [Gap]) == Meant(s)
  {
    hide Seen, Meant;
    SeenConcat(s, [Gap]);
    OneGap();
    assert Meant(s) + [] == Meant(s);
  }

  lemma OneGap()
    ensures Seen([Gap]) == [0] && Meant([Gap]) == []
  {
    assert Meant([]) == [] && Seen([]) == [];
  }

  /**
   * A text, with its newlines or without, reads back as the low bytes of its words if and only if the digits the
   * reader takes catch up with those that were meant, with nothing but zeros passing while they are out of step.
   */
  lemma ReadsBackIff(ws: seq<bv32>, broken: bool)
    ensures Decoded(TextFrom(ws, 0, broken)) == LowBytes(ws) <==> CatchesUp(ws, broken)
  {
    hide *;
    BothSides(ws, broken);
    if CatchesUp(ws, broken) {
      CaughtUp(ws, broken);
    }
    if Assembled(Seen(Script(ws, 0, broken))) == Assembled(Meant(Script(ws, 0, broken))) {
      SameAssembly(ws, broken);
    }
  }

  lemma BothSides(ws: seq<bv32>, broken: bool)
    ensures Decoded(TextFrom(ws, 0, broken)) == Assembled(Seen(Script(ws, 0, broken)))
    ensures LowBytes(ws) == Assembled(Meant(Script(ws, 0, broken)))
  {
    hide Decoded, TextFrom, LowBytes, Script, Seen, Meant, Assembled, Values;
    TextHasNoNul(ws, 0, broken);
    DecodedIsAssembled(TextFrom(ws, 0, broken));
    TextIsSeen(ws, 0, broken);
    MeantIsWords(ws, 0, broken);
    assert Rest(ws, 0) == ws;
  }

  lemma CaughtUp(ws: seq<bv32>, broken: bool)
    requires CatchesUp(ws, broken)
    ensures Assembled(Seen(Script(ws, 0, broken))) == Assembled(Meant(Script(ws, 0, broken)))
  {
    hide Script, Seen, Meant, InStep, Assembled, FullLength, DecodedLength;
    var s := Script(ws, 0, broken);
    if InStep(s, 0) {
      SameIff(s);
    } else {
      SameIff(s + [Gap]);
      GapAtTheEnd(s);
      MeantLength(ws, 0, broken);
      LengthsMatch(|Seen(s)|, |ws|);
      assert |Seen(s) + [0]| == |Meant(s)|;
      ZeroAtTheEnd(Seen(s));
    }
  }

  lemma SameAssembly(ws: seq<bv32>, broken: bool)
    requires Assembled(Seen(Script(ws, 0, broken))) == Assembled(Meant(Script(ws, 0, broken)))
    ensures CatchesUp(ws, broken)
  {
    hide Script, Seen, Meant, InStep, Assembled, Trimmed, FullLength, DecodedLength;
    var s := Script(ws, 0, broken);
    var a, b := Seen(s), Meant(s);
    MeantLength(ws, 0, broken);
    AssembledLength(a);
    AssembledLength(b);
    ScriptIsSmall(ws, 0, broken);
    SmallStreams(s);
    LengthsMatch(|a|, |ws|);
    SameIff(s);
    if ws == [] {
      NoScript(broken);
    } else {
      LastDigits(ws, 0, broken);
      if |a| == |b| {
        AssembledInjective(a, b);
      } else {
        GapAtTheEnd(s);
        SameIff(s + [Gap]);
        ZeroAtTheEnd(a);
        TrimmedZero(a, |b|);
        AssembledInjective(a + [0], b);
      }
    }
  }

  lemma NoScript(broken: bool)
    ensures InStep(Script([], 0, broken), 0)
  {
  }

  lemma TrimmedZero(a: seq<bv32>, n: nat)
    ensures Trimmed(a + [0], n)
  {
    assert (0 as bv32) & 0xf == 0 && (0 as bv32) & 0x3 == 0;
  }

  // ---------- counting lost digits against line breaks ----------

  /** How many newlines the text of `n` words has. */
  function Breaks(n: nat): nat {
    if n == 0 then 0 else (n - 1) / 48
  }

  lemma {:induction false} LeadConcat(a: seq<Item>, b: seq<Item>)
    ensures TotalLead(a + b) == TotalLead(a) + TotalLead(b)
  {
    if a == [] {
      assert a + b == b;
    } else {
      assert (a + b)[1..] == a[1..] + b;
      LeadConcat(a[1..], b);
    }
  }

  lemma LeadOfOne(w: bv32, v: bv32)
    ensures TotalLead([Mark(w, v)]) == (if w == 0 then -1 else 0) && TotalLead([Shown(v)]) == TotalLead([]) == 0
  {
  }

  /** The digits lost in a group. */
  function LostIn(ws: seq<bv32>, i: nat): nat {
    (if i + 1 < |ws| && ws[i + 1] == 0 then 1 else 0) + if i + 2 < |ws| && ws[i + 2] == 0 then 1 else 0
  }

  lemma LeadOfGroup(ws: seq<bv32>, i: nat)
    requires i < |ws|
    ensures TotalLead(GroupItems(ws, i)) == 0 - LostIn(ws, i)
  {
    hide TotalLead, Triplet, Sextet, Mark, GroupItems;
    var t := Triplet(At(ws, i), At(ws, i + 1), At(ws, i + 2));
    ItemsInFour(ws, i);
    LeadOfItems(Sextet(t, 0), Sextet(t, 1), Sextet(t, 2), Sextet(t, 3), At(ws, i + 1), At(ws, i + 2),
                i + 1 < |ws|, i + 2 < |ws|);
  }

  lemma LeadOfItems(a: bv32, b: bv32, c: bv32, d: bv32, v: bv32, w: bv32, second: bool, third: bool)
    ensures TotalLead([Shown(a)] + [Shown(b)] + (if second then [Mark(v, c)] else [])
                      + (if third then [Mark(w, d)] else []))
         == (if second && v == 0 then -1 else 0) + if third && w == 0 then -1 else 0
  {
    hide TotalLead, Mark;
    var x, y := if second then [Mark(v, c)] else [], if third then [Mark(w, d)] else [];
    LeadConcat([Shown(a)] + [Shown(b)] + x, y);
    LeadConcat([Shown(a)] + [Shown(b)], x);
    LeadConcat([Shown(a)], [Shown(b)]);
    LeadOfOne(0, a);
    LeadOfOne(0, b);
    LeadOfOne(v, c);
    LeadOfOne(w, d);
  }

  /** In the end a reader is ahead by the newlines read and behind by the digits dropped. */
  lemma {:induction false} LeadOfScript(ws: seq<bv32>, line: nat, col: nat, broken: bool)
    requires col < 16 && 48 * line + 3 * col <= |ws|
    ensures var i := 48 * line + 3 * col;
            TotalLead(Script(ws, i, broken))
              == (if broken && i < |ws| then Breaks(|ws|) - line else 0) - Dropped(Rest(ws, i))
    decreases |ws| - 48 * line - 3 * col
  {
    hide TotalLead, GroupItems, BreakItems, Break, Breaks, Dropped, LostIn, Rest;
    var i, n := 48 * line + 3 * col, |ws|;
    DroppedStep(ws, i);
    BreakPlace(line, col, n);
    LeadOfBreak(i, n, broken);
    if i < n {
      BreaksLeft(line, col, n);
      var g, b, r := GroupItems(ws, i), BreakItems(i, n, broken), Script(ws, i + 3, broken);
      LeadConcat(g + b, r);
      LeadConcat(g, b);
      LeadOfGroup(ws, i);
      if n < i + 3 {
        assert r == [];
        DroppedStep(ws, i + 3);
      } else if col < 15 {
        LeadOfScript(ws, line, col + 1, broken);
      } else {
        LeadOfScript(ws, line + 1, 0, broken);
      }
    }
  }

  lemma LeadOfBreak(i: nat, n: nat, broken: bool)
    ensures TotalLead(BreakItems(i, n, broken)) == if broken && Break(i, n) != [] then 1 else 0
    ensures TotalLead([]) == 0
  {
    hide Break;
  }

  lemma DroppedStep(ws: seq<bv32>, i: nat)
    ensures Dropped(Rest(ws, i)) == if |ws| <= i then 0 else LostIn(ws, i) + Dropped(Rest(ws, i + 3))
  {
    assert i < |ws| ==> Rest(Rest(ws, i), 3) == Rest(ws, i + 3);
  }

  lemma BreaksLeft(line: nat, col: nat, n: nat)
    requires col < 16 && 48 * line + 3 * col < n
    ensures n <= 48 * line + 3 * col + 3 ==> Breaks(n) == line
    ensures col == 15 && 48 * line + 48 < n ==> Breaks(n) > line
  {
  }

  /** By how many digits the reader of a text is ahead at its end. */
  function Ahead(ws: seq<bv32>, broken: bool): int {
    (if broken then Breaks(|ws|) else 0) - Dropped(ws)
  }

  /** As many words are read as were written exactly if the reader ends in step, or misses one digit of a lone word. */
  lemma AsManyWordsIff(ws: seq<bv32>, broken: bool)
    ensures |Decoded(TextFrom(ws, 0, broken))| == |ws|
       <==> Ahead(ws, broken) == 0 || (Ahead(ws, broken) == -1 && |ws| % 3 == 1)
  {
    hide Decoded, TextFrom, Script, Seen, Meant, Assembled, TotalLead, FullLength, DecodedLength, Breaks, Dropped, Rest;
    var s := Script(ws, 0, broken);
    BothSides(ws, broken);
    AssembledLength(Seen(s));
    AssembledLength(Meant(s));
    SeenLength(s);
    MeantLength(ws, 0, broken);
    LeadOfScript(ws, 0, 0, broken);
    assert Rest(ws, 0) == ws;
    NoBreaks();
    LengthsMatch(|Seen(s)|, |ws|);
    if |Seen(s)| + 1 == FullLength(|ws|) {
      ShorterText(|ws|, 1);
    }
  }

  /** A text that reads back has as many digits dropped as newlines, or one more before a one-word last group. */
  lemma DropsMatchBreaks(ws: seq<bv32>)
    ensures Decoded(Form(ws)) == LowBytes(ws) ==>
              Dropped(ws) == Breaks(|ws|) || (Dropped(ws) == Breaks(|ws|) + 1 && |ws| % 3 == 1)
  {
    hide Decoded, LowBytes, Script, FormFrom, TotalLead, InStep, Dropped, Breaks;
    var s := Script(ws, 0, true);
    ReadsBackIff(ws, true);
    LeadOfScript(ws, 0, 0, true);
    assert Rest(ws, 0) == ws;
    NoBreaks();
    LeadConcat(s, [Gap]);
    LeadOfGap();
    if InStep(s, 0) {
      InStepCounts(s, 0);
    } else if InStep(s + [Gap], 0) {
      InStepCounts(s + [Gap], 0);
    }
  }

  lemma NoBreaks()
    ensures Breaks(0) == 0
  {
  }

  lemma LeadOfGap()
    ensures TotalLead([Gap]) == 1
  {
    assert TotalLead([]) == 0;
  }

  /**
   * The text as `encrypt` gives it, newlines and all, reads back if no word is dropped and it is one line, and not if
   * it is more.
   */
  lemma WholeTextIff(ws: seq<bv32>)
    requires NothingDropped(ws)
    ensures Decoded(Form(ws)) == LowBytes(ws) <==> |ws| <= 48
  {
    hide Decoded, LowBytes, FormFrom, Strip, NothingDropped;
    DropsMatchBreaks(ws);
    NothingDroppedCount(ws);
    if |ws| <= 48 {
      NewlineIff(ws);
      StripKeeps(Form(ws));
      TextRoundTripIff(ws);
    }
  }

  // ---------- without the newlines ----------

  /** Position `i` holds the only dropped word, and nothing but zero bytes follow it. */
  ghost predicate HarmlessAt(ws: seq<bv32>, i: nat) {
    && i < |ws| && i % 3 != 0 && ws[i] == 0
    && (forall k | 0 <= k < |ws| && k != i :: k % 3 != 0 ==> ws[k] != 0)
    && (forall k | i < k < |ws| :: Low(ws[k]) == 0)
  }

  ghost predicate OneHarmlessDrop(ws: seq<bv32>) {
    |ws| % 3 == 1 && exists i :: HarmlessAt(ws, i)
  }

  lemma HarmlessLater(ws: seq<bv32>, i: nat)
    requires 3 < |ws| && ws[1] != 0 && ws[2] != 0 && 3 <= i
    ensures HarmlessAt(ws, i) <==> HarmlessAt(Rest(ws, 3), i - 3)
  {
  }

  lemma HarmlessInFirstGroup(ws: seq<bv32>)
    requires 3 < |ws| && NothingDropped(Rest(ws, 3))
    requires (ws[1] == 0) != (ws[2] == 0)
    ensures (exists i :: HarmlessAt(ws, i)) <==> LowZero(Rest(ws, 3)) && (ws[1] == 0 ==> Low(ws[2]) == 0)
  {
    hide Low;
    var r, j := Rest(ws, 3), if ws[1] == 0 then 1 else 2;
    assert forall k | 0 <= k < |r| :: r[k] == ws[k + 3] && (k + 3) % 3 == k % 3;
    assert forall k | 3 <= k < |ws| :: ws[k] == r[k - 3] && (k - 3) % 3 == k % 3;
    if i: nat :| HarmlessAt(ws, i) {
      assert i == j;
    }
    if LowZero(r) && (ws[1] == 0 ==> Low(ws[2]) == 0) {
      forall k | 0 <= k < |ws| && k != j && k % 3 != 0
        ensures ws[k] != 0
      {
        assert k < 3 ==> k == 1 || k == 2;
      }
      assert HarmlessAt(ws, j);
    }
  }

  lemma HarmlessNotFirst(ws: seq<bv32>, i: nat)
    requires 3 < |ws| && ws[1] != 0 && ws[2] != 0 && HarmlessAt(ws, i)
    ensures 3 <= i
  {
  }

  lemma SameDrops(ws: seq<bv32>)
    requires 3 < |ws| && ws[1] != 0 && ws[2] != 0
    ensures OneHarmlessDrop(ws) <==> OneHarmlessDrop(Rest(ws, 3))
  {
    hide HarmlessAt;
    if i: nat :| HarmlessAt(ws, i) {
      HarmlessNotFirst(ws, i);
      HarmlessLater(ws, i);
      assert HarmlessAt(Rest(ws, 3), i - 3);
    }
    if i: nat :| HarmlessAt(Rest(ws, 3), i) {
      HarmlessLater(ws, i + 3);
      assert HarmlessAt(ws, i + 3);
    }
  }

  lemma {:induction false} HarmlessCount(ws: seq<bv32>)
    requires OneHarmlessDrop(ws)
    ensures Dropped(ws) == 1
    decreases |ws|
  {
    hide Low;
    var i: nat :| HarmlessAt(ws, i);
    if 3 <= i {
      assert 3 < |ws| && ws[1] != 0 && ws[2] != 0;
      SameDrops(ws);
      HarmlessCount(Rest(ws, 3));
    } else {
      var r := Rest(ws, 3);
      assert forall k | 0 <= k < |r| :: r[k] == ws[k + 3] && (k + 3) % 3 == k % 3;
      NothingDroppedCount(r);
      assert i == 1 || i == 2;
    }
  }

  lemma GroupOfRest(ws: seq<bv32>, i: nat)
    requires 3 <= |ws| && i + 3 < |ws|
    ensures GroupItems(ws, i + 3) == GroupItems(Rest(ws, 3), i)
  {
    hide Sextet, Triplet, Mark;
    assert forall k: nat :: At(ws, k + 3) == At(Rest(ws, 3), k);
  }

  lemma {:induction false} ScriptOfRest(ws: seq<bv32>, i: nat)
    requires 3 <= |ws|
    ensures Script(ws, i + 3, false) == Script(Rest(ws, 3), i, false)
    decreases |ws| - i
  {
    hide GroupItems, Break;
    if i + 3 < |ws| {
      GroupOfRest(ws, i);
      ScriptOfRest(ws, i + 3);
    }
  }

  lemma {:induction false} PassConcat(a: seq<Item>, b: seq<Item>, o: int)
    ensures AllPass(a + b, o) <==> AllPass(a, o) && AllPass(b, o + TotalLead(a))
  {
    hide Passes;
    if a == [] {
      assert a + b == b;
    } else {
      assert (a + b)[1..] == a[1..] + b;
      PassConcat(a[1..], b, o + Lead(a[0]));
    }
  }

  lemma OnePasses(x: Item, o: int)
    ensures (AllPass([x], o) <==> Passes(x, o)) && TotalLead([x]) == Lead(x)
  {
    hide Passes;
    assert AllPass([], o + Lead(x)) && TotalLead([]) == 0;
  }

  lemma FourPass(a: Item, b: Item, c: Item, d: Item, o: int)
    ensures AllPass([a] + [b] + [c] + [d], o) <==>
              Passes(a, o) && Passes(b, o + Lead(a)) && Passes(c, o + Lead(a) + Lead(b))
              && Passes(d, o + Lead(a) + Lead(b) + Lead(c))
    ensures TotalLead([a] + [b] + [c] + [d]) == Lead(a) + Lead(b) + Lead(c) + Lead(d)
  {
    hide AllPass, TotalLead, Passes, Lead;
    PassConcat([a] + [b] + [c], [d], o);
    PassConcat([a] + [b], [c], o);
    PassConcat([a], [b], o);
    LeadConcat([a] + [b] + [c], [d]);
    LeadConcat([a] + [b], [c]);
    LeadConcat([a], [b]);
    OnePasses(a, o);
    OnePasses(b, o + Lead(a));
    OnePasses(c, o + Lead(a) + Lead(b));
    OnePasses(d, o + Lead(a) + Lead(b) + Lead(c));
  }

  lemma SextetsAreZero(u: bv32, v: bv32, w: bv32, t: bv32)
    requires t == Triplet(u, v, w)
    ensures (Sextet(t, 0) == 0 && Sextet(t, 1) == 0 && Sextet(t, 2) == 0 && Sextet(t, 3) == 0)
       <==> (Low(u) == 0 && Low(v) == 0 && Low(w) == 0)
  {
  }

  lemma LastSextetsAreZero(u: bv32, w: bv32)
    ensures Sextet(Triplet(u, 0, w), 2) == 0 && Sextet(Triplet(u, 0, w), 3) == 0 <==> Low(w) == 0
  {
  }

  /** A group none of whose digits gets lost passes in step, and out of step if it is all zeros. */
  lemma WholeGroupPasses(ws: seq<bv32>, i: nat, o: int)
    requires i + 2 < |ws| && ws[i + 1] != 0 && ws[i + 2] != 0
    ensures AllPass(GroupItems(ws, i), o) <==> o == 0 || (Low(ws[i]) == 0 && Low(ws[i + 1]) == 0 && Low(ws[i + 2]) == 0)
    ensures TotalLead(GroupItems(ws, i)) == 0
  {
    hide AllPass, TotalLead, Sextet, Triplet, Low, GroupItems;
    var t := Triplet(ws[i], ws[i + 1], ws[i + 2]);
    ItemsInFour(ws, i);
    FourPass(Shown(Sextet(t, 0)), Shown(Sextet(t, 1)), Shown(Sextet(t, 2)), Shown(Sextet(t, 3)), o);
    SextetsAreZero(ws[i], ws[i + 1], ws[i + 2], t);
  }

  /** A group of which one digit gets lost. */
  lemma LossyGroupPasses(ws: seq<bv32>, i: nat)
    requires i + 2 < |ws| && (ws[i + 1] == 0) != (ws[i + 2] == 0)
    ensures AllPass(GroupItems(ws, i), 0) <==> (ws[i + 1] == 0 ==> Low(ws[i + 2]) == 0)
    ensures TotalLead(GroupItems(ws, i)) == -1
  {
    hide AllPass, TotalLead, Sextet, Triplet, Low, GroupItems;
    var u, v, w := ws[i], ws[i + 1], ws[i + 2];
    var t := Triplet(u, v, w);
    ItemsInFour(ws, i);
    FourPass(Shown(Sextet(t, 0)), Shown(Sextet(t, 1)), Mark(v, Sextet(t, 2)), Mark(w, Sextet(t, 3)), 0);
    LastSextets(u, v);
    LastSextetsAreZero(u, w);
  }

  lemma LastWordInStep(ws: seq<bv32>)
    requires |ws| == 1
    ensures InStep(Script(ws, 0, false) + [Gap], -1) <==> Low(ws[0]) == 0
  {
    hide Sextet, Triplet, Low;
    var t := Triplet(ws[0], 0, 0);
    assert Script(ws, 0, false) + [Gap] == [Shown(Sextet(t, 0)), Shown(Sextet(t, 1)), Gap];
    assert InStep([], 0) && InStep([Gap], -1);
    assert [Shown(Sextet(t, 0)), Shown(Sextet(t, 1)), Gap][1..] == [Shown(Sextet(t, 1)), Gap];
    assert [Shown(Sextet(t, 1)), Gap][1..] == [Gap];
    SextetsAreZero(ws[0], 0, 0, t);
    LastSextets(ws[0], 0);
    assert Low(0) == 0 by { ZeroIsLow(); }
  }

  lemma ZeroIsLow()
    ensures Low(0) == 0
  {
  }

  lemma UnbrokenStep(ws: seq<bv32>, o: int)
    requires 3 < |ws|
    ensures InStep(Script(ws, 0, false) + [Gap], o)
       <==> (&& AllPass(GroupItems(ws, 0), o)
             && InStep(Script(Rest(ws, 3), 0, false) + [Gap], o + TotalLead(GroupItems(ws, 0))))
  {
    hide GroupItems, InStep, AllPass, TotalLead;
    ScriptOfRest(ws, 0);
    UnbrokenItems(0, |ws|);
    assert Script(ws, 0, false) + [Gap] == GroupItems(ws, 0) + (Script(Rest(ws, 3), 0, false) + [Gap]);
    InStepConcat(GroupItems(ws, 0), Script(Rest(ws, 3), 0, false) + [Gap], o);
  }

  lemma UnbrokenCounts(ws: seq<bv32>, o: int)
    ensures InStep(Script(ws, 0, false), o) ==> Dropped(ws) == o
    ensures InStep(Script(ws, 0, false) + [Gap], o) ==> Dropped(ws) == o + 1
  {
    hide Script, InStep, TotalLead, Dropped;
    var s := Script(ws, 0, false);
    LeadOfScript(ws, 0, 0, false);
    assert Rest(ws, 0) == ws;
    LeadConcat(s, [Gap]);
    LeadOfGap();
    if InStep(s, o) {
      InStepCounts(s, o);
    }
    if InStep(s + [Gap], o) {
      InStepCounts(s + [Gap], o);
    }
  }

  /** With one digit lost before it, a text with a one-word last group must lose no more, and be zeros. */
  lemma {:induction false} QuietTail(ws: seq<bv32>)
    requires |ws| % 3 == 1
    ensures InStep(Script(ws, 0, false) + [Gap], -1) <==> NothingDropped(ws) && LowZero(ws)
    decreases |ws|
  {
    hide Script, InStep, AllPass, GroupItems, TotalLead, Low, NothingDropped, LowZero, Dropped, Rest;
    UnbrokenCounts(ws, -1);
    NothingDroppedCount(ws);
    LowZeroSplit(ws);
    if |ws| == 1 {
      LastWordInStep(ws);
      ZeroIsLow();
      NoWords();
    } else if NothingDropped(ws) {
      RestHasNothingDropped(ws);
      UnbrokenStep(ws, -1);
      WholeGroupPasses(ws, 0, -1);
      QuietTail(Rest(ws, 3));
    }
  }

  lemma NoWords()
    ensures NothingDropped([]) && LowZero([])
    ensures forall w: bv32 :: NothingDropped([w])
  {
  }

  lemma OneDropIsLong(ws: seq<bv32>)
    requires |ws| % 3 == 1 && Dropped(ws) != 0
    ensures 3 < |ws|
  {
    if |ws| == 1 {
      assert Rest(ws, 3) == [];
      assert Dropped(Rest(ws, 3)) == 0;
    }
  }

  /** In such a text a digit that is missing at the end makes up for one harmless drop. */
  lemma {:induction false} OneGapIff(ws: seq<bv32>)
    requires |ws| % 3 == 1
    ensures InStep(Script(ws, 0, false) + [Gap], 0) <==> OneHarmlessDrop(ws)
    decreases |ws|
  {
    hide Script, InStep, AllPass, GroupItems, TotalLead, Low, NothingDropped, LowZero, HarmlessAt;
    UnbrokenCounts(ws, 0);
    if OneHarmlessDrop(ws) {
      HarmlessCount(ws);
    }
    if Dropped(ws) == 1 {
      OneDropIsLong(ws);
      UnbrokenStep(ws, 0);
      if ws[1] != 0 && ws[2] != 0 {
        WholeGroupPasses(ws, 0, 0);
        OneGapIff(Rest(ws, 3));
        SameDrops(ws);
      } else {
        NothingDroppedCount(Rest(ws, 3));
        LossyGroupPasses(ws, 0);
        QuietTail(Rest(ws, 3));
        HarmlessInFirstGroup(ws);
      }
    }
  }

  /**
   * Stripped of its newlines, the text of any words reads back as their low bytes exactly when no word is
   * dropped, or a single one is, in a text with a one-word last group, and only zero bytes follow it.
   */
  lemma TextRoundTripIff(ws: seq<bv32>)
    ensures Decoded(Strip(Form(ws))) == LowBytes(ws) <==> NothingDropped(ws) || OneHarmlessDrop(ws)
  {
    hide Low, Decoded, Digits, Strip, FormFrom, InStep, Script, NothingDropped, HarmlessAt;
    StrippedForm(ws, 0);
    assert Rest(ws, 0) == ws;
    NothingDroppedCount(ws);
    ReadsBackIff(ws, false);
    if NothingDropped(ws) {
      WholeInStep(ws, 0);
    } else {
      UnbrokenCounts(ws, 0);
      if |ws| % 3 == 1 {
        OneGapIff(ws);
      }
    }
  }

  lemma {:induction false} WholeInStep(ws: seq<bv32>, i: nat)
    requires NothingDropped(ws) && i % 3 == 0
    ensures InStep(Script(ws, i, false), 0)
    decreases |ws| - i
  {
    hide GroupItems, InStep, AllPass, TotalLead, Break;
    NoScript(false);
    if i < |ws| {
      WholeInStep(ws, i + 3);
      UnbrokenItems(i, |ws|);
      InStepConcat(GroupItems(ws, i), Script(ws, i + 3, false), 0);
      assert GroupItems(ws, i) + [] == GroupItems(ws, i);
      assert (i + 1) % 3 == 1 && (i + 2) % 3 == 2;
      InStepGroup(ws, i);
    } else {
      assert Script(ws, i, false) == [];
    }
  }

  // ---------- newlines that stand in for dropped digits ----------

  /** A word is dropped at the end of every full line but not elsewhere. */
  ghost predicate DropsAtLineEnds(ws: seq<bv32>) {
    forall k | 0 <= k < |ws| :: k % 3 != 0 ==> (ws[k] == 0 <==> k % 48 == 47 && k + 1 < |ws|)
  }

  lemma {:induction false} LineEndsInStep(ws: seq<bv32>, i: nat)
    requires DropsAtLineEnds(ws) && i % 3 == 0
    ensures InStep(Script(ws, i, true), 0)
    decreases |ws| - i
  {
    hide GroupItems, InStep, AllPass, TotalLead, Break, DropsAtLineEnds;
    NoScript(true);
    if i < |ws| {
      var g, b, r := GroupItems(ws, i), BreakItems(i, |ws|, true), Script(ws, i + 3, true);
      LineEndsInStep(ws, i + 3);
      InStepConcat(g + b, r, 0);
      PassConcat(g, b, 0);
      LeadConcat(g, b);
      GroupAtLineEnd(ws, i);
    } else {
      assert Script(ws, i, true) == [];
    }
  }

  lemma GroupAtLineEnd(ws: seq<bv32>, i: nat)
    requires DropsAtLineEnds(ws) && i % 3 == 0 && i < |ws|
    ensures var g, b := GroupItems(ws, i), BreakItems(i, |ws|, true);
            AllPass(g, 0) && AllPass(b, TotalLead(g)) && TotalLead(g) + TotalLead(b) == 0
  {
    hide GroupItems, AllPass, TotalLead, Low, DropsAtLineEnds;
    var n := |ws|;
    OnePasses(Gap, -1);
    LeadOfBreak(i, n, true);
    if i % 48 == 45 && i + 3 < n {
      EndOfLine(ws, i);
      LossyGroupPasses(ws, i);
    } else {
      ShownGroupPasses(ws, i);
      NothingPasses();
    }
  }

  lemma EndOfLine(ws: seq<bv32>, i: nat)
    requires DropsAtLineEnds(ws) && i % 48 == 45 && i + 3 < |ws|
    ensures ws[i + 1] != 0 && ws[i + 2] == 0
  {
    InLine(i / 48, 46);
    InLine(i / 48, 47);
    InGroup(16 * (i / 48) + 15, 1);
    InGroup(16 * (i / 48) + 15, 2);
  }

  lemma InLine(line: nat, place: nat)
    requires place < 48
    ensures (48 * line + place) % 48 == place
  {
  }

  lemma InGroup(group: nat, place: nat)
    requires place < 3
    ensures (3 * group + place) % 3 == place
  {
  }

  lemma NothingPasses()
    ensures AllPass([], 0) && TotalLead([]) == 0
  {
  }

  lemma ShownGroupPasses(ws: seq<bv32>, i: nat)
    requires DropsAtLineEnds(ws) && i % 3 == 0 && i < |ws| && !(i % 48 == 45 && i + 3 < |ws|)
    ensures AllPass(GroupItems(ws, i), 0) && TotalLead(GroupItems(ws, i)) == 0
  {
    hide Sextet, Triplet, Low;
    assert (i + 1) % 3 == 1 && (i + 2) % 3 == 2;
    assert i + 1 < |ws| ==> (i + 1) % 48 != 47 && ws[i + 1] != 0;
    assert i + 2 < |ws| ==> ws[i + 2] != 0;
    hide GroupItems, AllPass, TotalLead;
    InStepGroup(ws, i);
  }

  lemma InStepGroup(ws: seq<bv32>, i: nat)
    requires i < |ws| && (i + 1 < |ws| ==> ws[i + 1] != 0) && (i + 2 < |ws| ==> ws[i + 2] != 0)
    ensures AllPass(GroupItems(ws, i), 0) && TotalLead(GroupItems(ws, i)) == 0
  {
    hide Sextet, Triplet, GroupItems, AllPass, TotalLead;
    var t := Triplet(At(ws, i), At(ws, i + 1), At(ws, i + 2));
    var a, b, c, d := Shown(Sextet(t, 0)), Shown(Sextet(t, 1)), Shown(Sextet(t, 2)), Shown(Sextet(t, 3));
    ItemsInFour(ws, i);
    FourPass(a, b, c, d, 0);
    PassConcat([a] + [b] + [c], [d], 0);
    PassConcat([a] + [b], [c], 0);
    LeadConcat([a] + [b] + [c], [d]);
    LeadConcat([a] + [b], [c]);
    OnePasses(c, 0);
    OnePasses(d, 0);
    assert [a] + [b] + [] + [] == [a] + [b] && [a] + [b] + [c] + [] == [a] + [b] + [c];
  }

  /** A text of several lines does read back if a newline stands in for every dropped digit. */
  lemma StandInsReadBack(ws: seq<bv32>)
    requires DropsAtLineEnds(ws)
    ensures Decoded(Form(ws)) == LowBytes(ws)
  {
    hide Decoded, LowBytes, FormFrom, Script, InStep;
    LineEndsInStep(ws, 0);
    ReadsBackIff(ws, true);
  }
}
