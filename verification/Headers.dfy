/** Splitting a request into header lines, with names lower-cased and both parts cut to fixed sizes. */
module Headers {
  import opened Basics
  import opened Wrappers

  const MAX_HEADER_NAME: nat := 64
  const MAX_HEADER_VALUE: nat := 256

  /** A slot of the caller's header table; the sizes leave room for a terminator. */
  datatype Slot = Slot(name: seq<char>, value: seq<char>)

  /** A header found; no value leaves that part of its slot as it was. */
  datatype Found = Found(name: seq<char>, value: Option<seq<char>>)

  /** The parse ends normally, or with a copy of negative length. */
  datatype Ending = Normal | NegativeCopy

  /** The request buffer is followed by a terminator. */
  function At(t: seq<char>, k: nat): char {
    if k < |t| then t[k] else NUL
  }

  function LowerChar(c: char): char {
    if 'A' <= c <= 'Z' then (c as int + 32) as char else c
  }

  /** A capital letter becomes the small one of its place in the alphabet, and any other character stays. */
  lemma LowerCase(c: char)
    ensures c in "ABCDEFGHIJKLMNOPQRSTUVWXYZ" ==>
              'a' <= LowerChar(c) <= 'z' && LowerChar(c) as int - 'a' as int == c as int - 'A' as int
    ensures c !in "ABCDEFGHIJKLMNOPQRSTUVWXYZ" ==> LowerChar(c) == c
  {
    var capitals := "ABCDEFGHIJKLMNOPQRSTUVWXYZ";
    if 'A' <= c <= 'Z' {
      assert capitals[c as int - 'A' as int] == c;
    }
  }

  function Lowered(s: seq<char>): (r: seq<char>)
    ensures |r| == |s|
  {
    seq(|s|, i requires 0 <= i < |s| => LowerChar(s[i]))
  }

  /** Position `p` is the last of its line. */
  predicate EndsLine(t: seq<char>, p: nat) {
    At(t, p + 1) == '\r' && At(t, p + 2) == '\n'
  }

  /** The first colon of the string that starts at `i`: the search runs on to the terminator, over any line ends. */
  function ColonFrom(t: seq<char>, i: nat): (d: Option<nat>)
    ensures d.Some? ==> i <= d.value < |t| && t[d.value] == ':'
    decreases |t| - i
  {
    if |t| <= i || t[i] == NUL then None else if t[i] == ':' then Some(i) else ColonFrom(t, i + 1)
  }

  function SkipBlanks(t: seq<char>, i: nat): (v: nat)
    ensures i <= v && !IsBlank(At(t, v))
    ensures forall k | i <= k < v :: IsBlank(At(t, k))
    ensures i <= |t| ==> v <= |t|
    decreases |t| - i
  {
    if i < |t| && IsBlank(t[i]) then SkipBlanks(t, i + 1) else i
  }

  /** Blanks and tabs are skipped, and nothing else. */
  lemma BlanksSkipped(t: seq<char>, i: nat)
    requires i <= |t|
    ensures var v := SkipBlanks(t, i);
            && i <= v <= |t| && (forall k | i <= k < v :: t[k] in {' ', '\t'})
            && (v < |t| ==> t[v] !in {' ', '\t'})
  {
    var v := SkipBlanks(t, i);
    forall k | i <= k < v
      ensures t[k] in {' ', '\t'}
    {
      assert IsBlank(At(t, k));
    }
    assert v < |t| ==> At(t, v) == t[v];
  }

  /**
   * The header of the line from `p1` to `p` whose colon is at `d`; None where the value's length comes out negative.
   */
  function HeaderOf(t: seq<char>, p1: nat, p: nat, d: nat): Option<Found>
    requires p1 <= d < |t| && p < |t|
  {
    var name := Lowered(t[p1..p1 + Min(d - p1, MAX_HEADER_NAME - 1)]);
    var v := SkipBlanks(t, d + 1);
    if At(t, v) == NUL then Some(Found(name, None))
    else
      var vlen := Min(p - v + 1, MAX_HEADER_VALUE - 1);
      if vlen < 0 then None else Some(Found(name, Some(t[v..v + vlen])))
  }

  /** The headers from position `p` on, in a line that started at `p1`, `left` slots being free. */
  function ParseFrom(t: seq<char>, p: nat, p1: nat, left: int): (seq<Found>, Ending)
    requires p1 <= p
    decreases |t| - p
  {
    if |t| <= p then ([], Normal)
    else if !EndsLine(t, p) then ParseFrom(t, p + 1, p1, left)
    else if p == p1 || ColonFrom(t, p1) == None then ParseFrom(t, p + 3, p + 3, left)
    else
      match HeaderOf(t, p1, p, ColonFrom(t, p1).value)
      case None => ([], NegativeCopy)
      case Some(h) =>
        if left <= 1 then ([h], Normal) else
          var (hs, e) := ParseFrom(t, p + 3, p + 3, left - 1);
          ([h] + hs, e)
  }

  /** A slot with a header stored in it. */
  function Stored(s: Slot, h: Found): Slot {
    Slot(h.name, if h.value.Some? then h.value.value else s.value)
  }

  /** The first slots hold the headers found, the others are untouched. */
  ghost predicate Holds(now: seq<Slot>, before: seq<Slot>, hs: seq<Found>) {
    && |now| == |before| && |hs| <= |now|
    && (forall i | 0 <= i < |hs| :: now[i] == Stored(before[i], hs[i]))
    && (forall i | |hs| <= i < |now| :: now[i] == before[i])
  }

  lemma HoldsNext(now: seq<Slot>, before: seq<Slot>, hs: seq<Found>, h: Found)
    requires Holds(now, before, hs) && |hs| < |now|
    ensures Holds(now[|hs| := Stored(now[|hs|], h)], before, hs + [h])
  {
  }

  /** The headers stand in the first slots in their order; a header without a value leaves that of its slot. */
  lemma SlotsFilled(now: seq<Slot>, before: seq<Slot>, hs: seq<Found>, i: nat)
    requires Holds(now, before, hs) && i < |before|
    ensures |now| == |before| && |hs| <= |before|
    ensures i < |hs| ==> now[i].name == hs[i].name
    ensures i < |hs| ==> now[i].value == if hs[i].value.Some? then hs[i].value.value else before[i].value
    ensures |hs| <= i ==> now[i] == before[i]
  {
  }

  lemma NothingHeld(now: seq<Slot>)
    ensures Holds(now, now, [])
  {
  }

  method GetHeaders(req: seq<char>, headers: array<Slot>, maxh: int) returns (count: nat, ending: Ending)
    requires 1 <= headers.Length && maxh <= headers.Length
    modifies headers
    ensures ending == ParseFrom(req, 0, 0, maxh).1
    ensures count == |ParseFrom(req, 0, 0, maxh).0|
    ensures Holds(headers[..], old(headers[..]), ParseFrom(req, 0, 0, maxh).0)
  {
    hide HeaderOf, ColonFrom, Holds, Stored;
    NothingHeld(headers[..]);
    count, ending := 0, Normal;
    ghost var hs: seq<Found> := [];
    var p1, p := 0, 0;
    while p < |req|
      invariant p1 <= p && count == |hs| && (0 < count ==> count < maxh)
      invariant Holds(headers[..], old(headers[..]), hs)
      invariant ParseFrom(req, 0, 0, maxh).0 == hs + ParseFrom(req, p, p1, maxh - count).0
      invariant ParseFrom(req, 0, 0, maxh).1 == ParseFrom(req, p, p1, maxh - count).1
      decreases |req| - p
    {
      if At(req, p + 1) == '\r' && At(req, p + 2) == '\n' {
        var delim := ColonFrom(req, p1);
        if p1 < p && delim.Some? {
          var h := HeaderOf(req, p1, p, delim.value);
          if h.None? {
            ending := NegativeCopy;
            assert ParseFrom(req, 0, 0, maxh).0 == hs;
            return;
          }
          HoldsNext(headers[..], old(headers[..]), hs, h.value);
          headers[count] := Stored(headers[count], h.value);
          hs := hs + [h.value];
          count := count + 1;
          if maxh <= count {
            assert ParseFrom(req, 0, 0, maxh).0 == hs;
            return;
          }
        }
        p1 := p + 3;
        p := p + 2;
      }
      p := p + 1;
    }
    assert ParseFrom(req, 0, 0, maxh).0 == hs;
  }

  // ---------- printing ----------

  /** A header line, a longer line without a colon of its own, or a line of a single character, which is passed over. */
  datatype Line =
    | Field(name: seq<char>, blanks: seq<char>, value: seq<char>)
    | Bare(content: seq<char>)
    | Single(c: char)

  const CRLF: seq<char> := ['\r', '\n']

  function Content(l: Line): seq<char> {
    match l
    case Field(name, blanks, value) => name + [':'] + blanks + value
    case Bare(content) => content
    case Single(c) => [c]
  }

  function Print(ls: seq<Line>): seq<char> {
    if ls == [] then [] else Content(ls[0]) + CRLF + Print(ls[1..])
  }

  /** No line end but at the very start, where it is not noticed. */
  ghost predicate OneLine(s: seq<char>) {
    forall k | 1 <= k < |s| - 1 :: !(s[k] == '\r' && s[k + 1] == '\n')
  }

  /** Lines of two or more characters are taken apart at their first colon, unless a terminator comes before it. */
  ghost predicate WellFormed(l: Line) {
    && (!l.Single? ==> 2 <= |Content(l)| && OneLine(Content(l)))
    && (l.Bare? ==> ColonFrom(l.content, 0) == None)
    && (l.Field? ==>
          && ':' !in l.name && NUL !in l.name
          && (forall c | c in l.blanks :: IsBlank(c))
          && (l.value != [] ==> !IsBlank(l.value[0])))
  }

  function Cut(s: seq<char>, n: nat): seq<char> {
    if |s| <= n then s else s[..n]
  }

  /** A terminator where the value should start: there is none. */
  predicate NoValue(l: Line)
    requires l.Field?
  {
    l.value != [] && l.value[0] == NUL
  }

  /** The header a line stands for: its name in lower case, both parts cut to size. */
  function Meant(l: Line): Found
    requires l.Field?
  {
    Found(Lowered(Cut(l.name, MAX_HEADER_NAME - 1)),
          if NoValue(l) then None else Some(Cut(l.value, MAX_HEADER_VALUE - 1)))
  }

  /** There is room for 63 characters of a name and 255 of a value. */
  lemma CutSizes(l: Line)
    requires l.Field?
    ensures |Meant(l).name| == Min(|l.name|, 63)
    ensures Meant(l).value.Some? ==> |Meant(l).value.value| == Min(|l.value|, 255) && Meant(l).value.value <= l.value
    ensures Meant(l).value.Some? <==> l.value == [] || l.value[0] != '\0'
    ensures forall i | 0 <= i < |Meant(l).name| :: Meant(l).name[i] == LowerChar(l.name[i])
  {
  }

  function AllMeant(ls: seq<Line>): seq<Found> {
    if ls == [] then [] else (if ls[0].Field? then [Meant(ls[0])] else []) + AllMeant(ls[1..])
  }

  /** What is found of `hs` with `left` free slots; one is taken even if none is free. */
  function Taken(hs: seq<Found>, left: int): seq<Found> {
    var n := if left <= 1 then 1 else left;
    if |hs| <= n then hs else hs[..n]
  }

  // ---------- parsing what was printed ----------

  lemma {:induction false} Scan(t: seq<char>, p: nat, e: nat, p1: nat, left: int)
    requires p1 <= p <= e < |t| && forall k | p <= k < e :: !EndsLine(t, k)
    ensures ParseFrom(t, p, p1, left) == ParseFrom(t, e, p1, left)
    decreases e - p
  {
    hide HeaderOf;
    if p < e {
      Scan(t, p + 1, e, p1, left);
    }
  }

  lemma {:induction false} ColonIs(t: seq<char>, i: nat, d: nat)
    requires i <= d < |t| && t[d] == ':' && forall k | i <= k < d :: t[k] != ':' && t[k] != NUL
    ensures ColonFrom(t, i) == Some(d)
    decreases d - i
  {
    if i < d {
      ColonIs(t, i + 1, d);
    }
  }

  lemma {:induction false} BlanksEnd(t: seq<char>, i: nat, v: nat)
    requires i <= v < |t| && !IsBlank(t[v]) && forall k | i <= k < v :: IsBlank(t[k])
    ensures SkipBlanks(t, i) == v
    decreases v - i
  {
    if i < v {
      BlanksEnd(t, i + 1, v);
    }
  }

  /** The text `s` stands at position `i` of `t`. */
  ghost predicate StandsAt(t: seq<char>, i: nat, s: seq<char>) {
    i + |s| <= |t| && t[i..i + |s|] == s
  }

  lemma StandsApart(t: seq<char>, i: nat, a: seq<char>, b: seq<char>)
    requires StandsAt(t, i, a + b)
    ensures StandsAt(t, i, a) && StandsAt(t, i + |a|, b)
  {
    assert (a + b)[..|a|] == a && (a + b)[|a|..] == b;
    assert t[i..i + |a|] == t[i..i + |a + b|][..|a|];
    assert t[i + |a|..i + |a| + |b|] == t[i..i + |a + b|][|a|..];
  }

  lemma CharStands(t: seq<char>, i: nat, s: seq<char>, k: nat)
    requires StandsAt(t, i, s) && k < |s|
    ensures t[i + k] == s[k]
  {
  }

  lemma CutStands(t: seq<char>, i: nat, s: seq<char>, n: nat)
    requires StandsAt(t, i, s)
    ensures t[i..i + Min(|s|, n)] == Cut(s, n)
  {
  }

  lemma NameStands(t: seq<char>, i: nat, l: Line)
    requires l.Field? && WellFormed(l) && StandsAt(t, i, l.name) && StandsAt(t, i + |l.name|, [':'])
    ensures ColonFrom(t, i) == Some(i + |l.name|)
  {
    CharStands(t, i + |l.name|, [':'], 0);
    forall k | i <= k < i + |l.name|
      ensures t[k] != ':' && t[k] != NUL
    {
      CharStands(t, i, l.name, k - i);
      assert l.name[k - i] in l.name;
    }
    ColonIs(t, i, i + |l.name|);
  }

  lemma ValueStands(t: seq<char>, b: nat, l: Line)
    requires l.Field? && WellFormed(l)
    requires StandsAt(t, b, l.blanks) && StandsAt(t, b + |l.blanks|, l.value)
        && StandsAt(t, b + |l.blanks| + |l.value|, CRLF)
    ensures SkipBlanks(t, b) == b + |l.blanks| && (At(t, b + |l.blanks|) == NUL <==> NoValue(l))
  {
    var v := b + |l.blanks|;
    if l.value == [] {
      CharStands(t, v, CRLF, 0);
    } else {
      CharStands(t, v, l.value, 0);
    }
    forall k | b <= k < v
      ensures IsBlank(t[k])
    {
      CharStands(t, b, l.blanks, k - b);
      assert l.blanks[k - b] in l.blanks;
    }
    BlanksEnd(t, b, v);
  }

  lemma PartsStand(t: seq<char>, i: nat, l: Line)
    requires l.Field? && StandsAt(t, i, Content(l) + CRLF)
    ensures var n := |l.name|;
            && StandsAt(t, i, l.name) && StandsAt(t, i + n, [':']) && StandsAt(t, i + n + 1, l.blanks)
            && StandsAt(t, i + n + 1 + |l.blanks|, l.value) && StandsAt(t, i + n + 1 + |l.blanks| + |l.value|, CRLF)
    ensures |Content(l)| == |l.name| + 1 + |l.blanks| + |l.value| && i + |Content(l)| + 2 <= |t|
  {
    hide StandsAt;
    var a := l.name + [':'];
    var b := a + l.blanks;
    StandsApart(t, i, Content(l), CRLF);
    StandsApart(t, i, b, l.value);
    StandsApart(t, i, a, l.blanks);
    StandsApart(t, i, l.name, [':']);
    assert |a| == |l.name| + 1 && |b| == |a| + |l.blanks| && |Content(l)| == |b| + |l.value|;
  }

  lemma HeaderRead(t: seq<char>, i: nat, l: Line)
    requires l.Field? && WellFormed(l) && StandsAt(t, i, Content(l) + CRLF)
    ensures i + |l.name| < |t| && ColonFrom(t, i) == Some(i + |l.name|)
    ensures i + |Content(l)| - 1 < |t| && HeaderOf(t, i, i + |Content(l)| - 1, i + |l.name|) == Some(Meant(l))
  {
    hide WellFormed, StandsAt, Content, HeaderOf, Meant, NoValue, Cut, SkipBlanks, ColonFrom, At, IsBlank, Lowered;
    var n := |l.name|;
    PartsStand(t, i, l);
    NameStands(t, i, l);
    ValueStands(t, i + n + 1, l);
    CutStands(t, i, l.name, MAX_HEADER_NAME - 1);
    CutStands(t, i + n + 1 + |l.blanks|, l.value, MAX_HEADER_VALUE - 1);
    hide HeaderOf, At;
    HeaderIsMeant(t, i, i + |Content(l)| - 1, i + n, i + n + 1 + |l.blanks|, l);
  }

  lemma HeaderIsMeant(t: seq<char>, p1: nat, p: nat, d: nat, v: nat, l: Line)
    requires l.Field? && p1 <= d < |t| && p < |t| && v + |l.value| <= |t|
    requires SkipBlanks(t, d + 1) == v && (At(t, v) == NUL <==> NoValue(l))
    requires d - p1 == |l.name| && p - v + 1 == |l.value|
    requires t[p1..p1 + Min(|l.name|, MAX_HEADER_NAME - 1)] == Cut(l.name, MAX_HEADER_NAME - 1)
    requires t[v..v + Min(|l.value|, MAX_HEADER_VALUE - 1)] == Cut(l.value, MAX_HEADER_VALUE - 1)
    ensures HeaderOf(t, p1, p, d) == Some(Meant(l))
  {
  }

  lemma LineEnds(t: seq<char>, i: nat, c: seq<char>)
    requires c != [] && OneLine(c) && StandsAt(t, i, c + CRLF)
    ensures i + |c| + 1 < |t| && EndsLine(t, i + |c| - 1)
    ensures forall k | i <= k < i + |c| - 1 :: !EndsLine(t, k)
  {
  }

  lemma LineScanned(t: seq<char>, i: nat, c: seq<char>, left: int)
    requires c != [] && OneLine(c) && StandsAt(t, i, c + CRLF)
    ensures i + |c| + 1 < |t| && EndsLine(t, i + |c| - 1)
    ensures ParseFrom(t, i, i, left) == ParseFrom(t, i + |c| - 1, i, left)
  {
    hide StandsAt, OneLine, EndsLine, ParseFrom;
    LineEnds(t, i, c);
    Scan(t, i, i + |c| - 1, i, left);
  }

  lemma TakenStep(h: Found, hs: seq<Found>, left: int)
    ensures Taken([h] + hs, left) == if left <= 1 then [h] else [h] + Taken(hs, left - 1)
  {
  }

  lemma FirstLine(t: seq<char>, i: nat, ls: seq<Line>, tail: seq<char>)
    requires ls != [] && i <= |t| && t[i..] == Print(ls) + tail
    ensures var j := i + |Content(ls[0])| + 2;
            j <= |t| && StandsAt(t, i, Content(ls[0]) + CRLF) && t[j..] == Print(ls[1..]) + tail
  {
    hide Content, StandsAt;
    var c, more := Content(ls[0]) + CRLF, Print(ls[1..]) + tail;
    assert t[i..] == c + more;
    TwoParts(t, i, c, more);
  }

  lemma TwoParts(t: seq<char>, i: nat, c: seq<char>, more: seq<char>)
    requires i <= |t| && t[i..] == c + more
    ensures i + |c| <= |t| && StandsAt(t, i, c) && t[i + |c|..] == more
  {
  }

  // ---------- what a list of lines is read as ----------

  /** What a line yields: a bare one, what stands before the first colon of a later line. */
  function Yielded(t: seq<char>, i: nat, l: Line): Option<Found> {
    match l
    case Field(_, _, _) => Some(Meant(l))
    case Bare(_) =>
      (match ColonFrom(t, i)
       case None => None
       case Some(d) => Some(Found(Lowered(t[i..i + Min(d - i, MAX_HEADER_NAME - 1)]), None)))
    case Single(_) => None
  }

  /** A bare line is copied with a negative length: there is a colon in a later line, and something behind it. */
  predicate Fails(t: seq<char>, i: nat, l: Line) {
    l.Bare? && ColonFrom(t, i).Some? && At(t, SkipBlanks(t, ColonFrom(t, i).value + 1)) != NUL
  }

  /** The headers of the lines `ls`, which stand at `i`, while `left` slots are free. */
  function Expected(t: seq<char>, i: nat, ls: seq<Line>, left: int): (seq<Found>, Ending)
    decreases |ls|
  {
    if ls == [] then ([], Normal)
    else if Fails(t, i, ls[0]) then ([], NegativeCopy)
    else
      var j := i + |Content(ls[0])| + 2;
      match Yielded(t, i, ls[0])
      case None => Expected(t, j, ls[1..], left)
      case Some(h) =>
        if left <= 1 then ([h], Normal) else
          var (hs, e) := Expected(t, j, ls[1..], left - 1);
          ([h] + hs, e)
  }

  lemma {:induction false} ColonBeyond(t: seq<char>, i: nat, c: seq<char>, k: nat)
    requires StandsAt(t, i, c) && k <= |c| && ColonFrom(c, k) == None
    ensures ColonFrom(t, i + k).Some? ==> i + |c| <= ColonFrom(t, i + k).value
    decreases |c| - k
  {
    hide StandsAt;
    if k < |c| {
      CharIs(t, i, c, k);
      if c[k] != NUL {
        ColonBeyond(t, i, c, k + 1);
      }
    }
  }

  lemma CharIs(t: seq<char>, i: nat, c: seq<char>, k: nat)
    requires StandsAt(t, i, c) && k < |c|
    ensures i + k < |t| && t[i + k] == c[k]
  {
    CharStands(t, i, c, k);
  }

  lemma BareRead(t: seq<char>, i: nat, l: Line)
    requires l.Bare? && WellFormed(l) && StandsAt(t, i, l.content) && i + |l.content| + 1 < |t|
    requires ColonFrom(t, i).Some?
    ensures HeaderOf(t, i, i + |l.content| - 1, ColonFrom(t, i).value)
        == if Fails(t, i, l) then None else Yielded(t, i, l)
  {
    hide Lowered, SkipBlanks, ColonFrom, StandsAt;
    ColonBeyond(t, i, l.content, 0);
  }

  /** The parser reads a list of lines as it should. */
  lemma {:induction false} PrintedLines(t: seq<char>, i: nat, ls: seq<Line>, tail: seq<char>, left: int)
    requires forall k | 0 <= k < |ls| :: WellFormed(ls[k])
    requires i <= |t| && t[i..] == Print(ls) + tail && OneLine(tail)
    ensures ParseFrom(t, i, i, left) == Expected(t, i, ls, left)
    decreases |ls|
  {
    hide HeaderOf, ColonFrom, WellFormed, Meant, StandsAt, OneLine, EndsLine, Content, Print, Fails, Yielded;
    if ls == [] {
      assert t[i..] == tail by { NoLines(); }
      NothingLeft(t, i, i, left);
    } else {
      var l, j := ls[0], i + |Content(ls[0])| + 2;
      FirstLine(t, i, ls, tail);
      LineIsOne(l);
      LineScanned(t, i, Content(l), left);
      PrintedLines(t, j, ls[1..], tail, left);
      PrintedLines(t, j, ls[1..], tail, left - 1);
      LineYields(t, i, l);
    }
  }

  lemma LineYields(t: seq<char>, i: nat, l: Line)
    requires WellFormed(l) && StandsAt(t, i, Content(l) + CRLF)
    ensures !l.Single? && ColonFrom(t, i).Some? ==>
              && i + |Content(l)| - 1 < |t| && Yielded(t, i, l).Some?
              && HeaderOf(t, i, i + |Content(l)| - 1, ColonFrom(t, i).value)
                  == if Fails(t, i, l) then None else Yielded(t, i, l)
    ensures l.Single? || ColonFrom(t, i) == None ==> !Fails(t, i, l) && Yielded(t, i, l) == None
  {
    hide HeaderOf, ColonFrom, Meant, StandsAt, Lowered, SkipBlanks;
    if l.Field? {
      HeaderRead(t, i, l);
    } else if l.Bare? && ColonFrom(t, i).Some? {
      StandsApart(t, i, l.content, CRLF);
      StandsInside(t, i, Content(l) + CRLF);
      BareRead(t, i, l);
    }
  }

  lemma StandsInside(t: seq<char>, i: nat, s: seq<char>)
    requires StandsAt(t, i, s)
    ensures i + |s| <= |t|
  {
  }

  lemma NoLines()
    ensures Print([]) == [] && AllMeant([]) == []
  {
  }

  lemma NothingTaken(left: int)
    ensures Taken([], left) == []
  {
  }

  lemma LineIsOne(l: Line)
    requires WellFormed(l)
    ensures Content(l) != [] && OneLine(Content(l)) && (l.Single? <==> |Content(l)| == 1)
  {
  }

  /** Without a line end no more headers are found. */
  lemma {:induction false} NothingLeft(t: seq<char>, p: nat, p1: nat, left: int)
    requires p1 <= p <= |t| && OneLine(t[p1..])
    ensures ParseFrom(t, p, p1, left) == ([], Normal)
    decreases |t| - p
  {
    hide HeaderOf, ColonFrom;
    if p < |t| {
      assert p + 2 < |t| ==> t[p1..][p - p1 + 1] == t[p + 1] && t[p1..][p - p1 + 2] == t[p + 2];
      NothingLeft(t, p + 1, p1, left);
    }
  }

  /** Every list of lines, with whatever follows that has no further line end, is read as it should be. */
  lemma LinesAreRead(ls: seq<Line>, tail: seq<char>, maxh: int)
    requires (forall k | 0 <= k < |ls| :: WellFormed(ls[k])) && OneLine(tail)
    ensures ParseFrom(Print(ls) + tail, 0, 0, maxh) == Expected(Print(ls) + tail, 0, ls, maxh)
  {
    hide WellFormed, ParseFrom, Expected, OneLine;
    var t := Print(ls) + tail;
    assert t[0..] == t;
    PrintedLines(t, 0, ls, tail, maxh);
  }

  lemma {:induction false} AllExpected(t: seq<char>, i: nat, ls: seq<Line>, left: int)
    requires forall k | 0 <= k < |ls| :: !ls[k].Bare?
    ensures Expected(t, i, ls, left) == (Taken(AllMeant(ls), left), Normal)
    decreases |ls|
  {
    hide Meant, Content, Taken;
    NothingTaken(left);
    if ls != [] {
      var j := i + |Content(ls[0])| + 2;
      AllExpected(t, j, ls[1..], left);
      AllExpected(t, j, ls[1..], left - 1);
      if ls[0].Field? {
        TakenStep(Meant(ls[0]), AllMeant(ls[1..]), left);
      } else {
        assert AllMeant(ls) == AllMeant(ls[1..]);
      }
    }
  }

  /** Header lines and single characters are read as the first headers, in order. */
  lemma RoundTrip(ls: seq<Line>, tail: seq<char>, maxh: int)
    requires forall k | 0 <= k < |ls| :: WellFormed(ls[k]) && !ls[k].Bare?
    requires OneLine(tail)
    ensures ParseFrom(Print(ls) + tail, 0, 0, maxh) == (Taken(AllMeant(ls), maxh), Normal)
  {
    hide WellFormed, ParseFrom, Expected, Taken, OneLine;
    LinesAreRead(ls, tail, maxh);
    AllExpected(Print(ls) + tail, 0, ls, maxh);
  }

  // ---------- every text is a list of lines ----------

  lemma {:induction false} ColonIsFirst(t: seq<char>, i: nat)
    requires ColonFrom(t, i).Some?
    ensures forall k | i <= k < ColonFrom(t, i).value :: t[k] != ':' && t[k] != NUL
    decreases |t| - i
  {
    if t[i] != ':' {
      ColonIsFirst(t, i + 1);
    }
  }

  lemma FieldOf(c: seq<char>, d: nat, v: nat) returns (l: Line)
    requires 2 <= |c| && OneLine(c) && ColonFrom(c, 0) == Some(d) && v == SkipBlanks(c, d + 1)
    ensures WellFormed(l) && Content(l) == c
  {
    hide OneLine, ColonFrom, SkipBlanks, IsBlank;
    ColonIsFirst(c, 0);
    l := Field(c[..d], c[d + 1..v], c[v..]);
    assert c == c[..d] + [':'] + c[d + 1..v] + c[v..];
    assert forall b | b in l.blanks :: IsBlank(b) by {
      assert forall k | 0 <= k < |l.blanks| :: l.blanks[k] == c[d + 1 + k] == At(c, d + 1 + k);
    }
    assert l.value != [] ==> l.value[0] == At(c, v);
  }

  lemma LineOf(c: seq<char>) returns (l: Line)
    requires c != [] && OneLine(c)
    ensures WellFormed(l) && Content(l) == c
  {
    hide OneLine, ColonFrom, SkipBlanks;
    if |c| == 1 {
      l := Single(c[0]);
    } else if ColonFrom(c, 0) == None {
      l := Bare(c);
    } else {
      var d := ColonFrom(c, 0).value;
      l := FieldOf(c, d, SkipBlanks(c, d + 1));
    }
  }

  /** Every text is a list of lines, and a tail without a line end. */
  lemma {:induction false} EveryText(t: seq<char>) returns (ls: seq<Line>, tail: seq<char>)
    ensures (forall k | 0 <= k < |ls| :: WellFormed(ls[k])) && OneLine(tail) && t == Print(ls) + tail
    decreases |t|
  {
    hide WellFormed, Content;
    if OneLine(t) {
      ls, tail := [], t;
      assert t == Print([]) + t;
    } else {
      var k := LineEnd(t);
      var l := LineOf(t[..k]);
      ls, tail := EveryText(t[k + 2..]);
      ls := [l] + ls;
      assert Print(ls) == t[..k] + CRLF + Print(ls[1..]);
      assert t == t[..k] + CRLF + t[k + 2..];
    }
  }

  lemma LineEnd(t: seq<char>) returns (k: nat)
    requires !OneLine(t)
    ensures 1 <= k < |t| - 1 && t[k] == '\r' && t[k + 1] == '\n' && OneLine(t[..k])
  {
    k := 1;
    while !(t[k] == '\r' && t[k + 1] == '\n')
      invariant 1 <= k < |t| - 1
      invariant forall j | 1 <= j < k :: !(t[j] == '\r' && t[j + 1] == '\n')
      decreases |t| - k
    {
      k := k + 1;
    }
  }

  // ---------- exactly when a copy has a negative length ----------

  function LineStart(i: nat, ls: seq<Line>, k: nat): nat
    requires k <= |ls|
    decreases k
  {
    if k == 0 then i else LineStart(i + |Content(ls[0])| + 2, ls[1..], k - 1)
  }

  /** How many of the first `k` lines yield a header. */
  function YieldedBefore(t: seq<char>, i: nat, ls: seq<Line>, k: nat): nat
    requires k <= |ls|
    decreases k
  {
    if k == 0 then 0
    else (if Yielded(t, i, ls[0]).Some? then 1 else 0) + YieldedBefore(t, i + |Content(ls[0])| + 2, ls[1..], k - 1)
  }

  /** The slots there are; one is taken even if there is none. */
  function Slots(left: int): nat {
    if left <= 1 then 1 else left
  }

  /** Line `k` is bare, a colon with something behind it follows, and there is a free slot when it is reached. */
  ghost predicate FailsAt(t: seq<char>, i: nat, ls: seq<Line>, left: int, k: nat) {
    k < |ls| && Fails(t, LineStart(i, ls, k), ls[k]) && YieldedBefore(t, i, ls, k) < Slots(left)
  }

  lemma {:induction false} ExpectedFails(t: seq<char>, i: nat, ls: seq<Line>, left: int)
    ensures Expected(t, i, ls, left).1 == NegativeCopy <==> exists k :: FailsAt(t, i, ls, left, k)
    decreases |ls|
  {
    hide Fails, Yielded, Content;
    if ls != [] {
      var j, rest, one := i + |Content(ls[0])| + 2, ls[1..], Yielded(t, i, ls[0]).Some?;
      var less := if one then left - 1 else left;
      ExpectedFails(t, j, rest, less);
      if Fails(t, i, ls[0]) {
        assert FailsAt(t, i, ls, left, 0);
      } else if one && left <= 1 {
        assert forall k: nat :: !FailsAt(t, i, ls, left, k);
      } else {
        if k: nat :| FailsAt(t, i, ls, left, k) {
          assert k != 0 && FailsAt(t, j, rest, less, k - 1);
        }
        if k: nat :| FailsAt(t, j, rest, less, k) {
          assert FailsAt(t, i, ls, left, k + 1);
        }
      }
    }
  }

  /**
   * The parse ends in a copy of negative length exactly if a line without a colon of its own comes before the slots
   * are full, and a colon with something behind it follows in a later line.
   */
  lemma NegativeIff(ls: seq<Line>, tail: seq<char>, maxh: int)
    requires (forall k | 0 <= k < |ls| :: WellFormed(ls[k])) && OneLine(tail)
    ensures ParseFrom(Print(ls) + tail, 0, 0, maxh).1 == NegativeCopy
       <==> exists k :: FailsAt(Print(ls) + tail, 0, ls, maxh, k)
  {
    hide WellFormed, ParseFrom, Expected, FailsAt, OneLine;
    LinesAreRead(ls, tail, maxh);
    ExpectedFails(Print(ls) + tail, 0, ls, maxh);
  }

  /** So does every request whose first line, like `GET / HTTP/1.1`, has no colon, if a header line follows. */
  lemma RequestLineFails(c: seq<char>, l: Line, ls: seq<Line>, tail: seq<char>, maxh: int)
    requires l.Field? && !NoValue(l) && NUL !in c && WellFormed(Bare(c)) && WellFormed(l)
    requires (forall k | 0 <= k < |ls| :: WellFormed(ls[k])) && OneLine(tail)
    ensures ParseFrom(Print([Bare(c), l] + ls) + tail, 0, 0, maxh) == ([], NegativeCopy)
  {
    hide WellFormed, ParseFrom, OneLine, Print, ColonFrom, NoValue, Content;
    var all := [Bare(c), l] + ls;
    var t := Print(all) + tail;
    LinesAreRead(all, tail, maxh);
    assert all[0] == Bare(c) && all[1] == l;
    SecondLineColon(t, c, l, all, tail);
  }

  lemma {:induction false} NoColonYet(t: seq<char>, i: nat, e: nat)
    requires i <= e <= |t| && forall k | i <= k < e :: t[k] != ':' && t[k] != NUL
    ensures ColonFrom(t, i) == ColonFrom(t, e)
    decreases e - i
  {
    if i < e {
      NoColonYet(t, i + 1, e);
    }
  }

  lemma {:induction false} NoOwnColon(c: seq<char>, k: nat)
    requires ColonFrom(c, k) == None && NUL !in c
    ensures forall j | k <= j < |c| :: c[j] != ':'
    decreases |c| - k
  {
    if k < |c| {
      assert c[k] in c;
      NoOwnColon(c, k + 1);
    }
  }

  lemma SecondLineColon(t: seq<char>, c: seq<char>, l: Line, all: seq<Line>, tail: seq<char>)
    requires l.Field? && !NoValue(l) && NUL !in c && WellFormed(Bare(c)) && WellFormed(l)
    requires 2 <= |all| && all[0] == Bare(c) && all[1] == l && t == Print(all) + tail
    ensures Fails(t, 0, Bare(c))
  {
    hide WellFormed, Print, ColonFrom, NoValue, SkipBlanks, StandsAt, At;
    TwoLinesStand(t, c, all, tail);
    BareIsSkipped(t, c);
    FieldColon(t, |c| + 2, l);
  }

  lemma TwoLinesStand(t: seq<char>, c: seq<char>, all: seq<Line>, tail: seq<char>)
    requires 2 <= |all| && all[0] == Bare(c) && t == Print(all) + tail
    ensures StandsAt(t, 0, c + CRLF) && StandsAt(t, |c| + 2, Content(all[1]) + CRLF)
  {
    hide Print, StandsAt;
    assert Content(Bare(c)) == c && t[0..] == t;
    FirstLine(t, 0, all, tail);
    FirstLine(t, |c| + 2, all[1..], tail);
  }

  /** The search for a colon passes over a bare line. */
  lemma BareIsSkipped(t: seq<char>, c: seq<char>)
    requires NUL !in c && WellFormed(Bare(c)) && StandsAt(t, 0, c + CRLF)
    ensures |c| + 2 <= |t| && ColonFrom(t, 0) == ColonFrom(t, |c| + 2)
  {
    hide WellFormed, ColonFrom, StandsAt;
    StandsInside(t, 0, c + CRLF);
    BareHasNoColon(c);
    NoOwnColon(c, 0);
    forall k | 0 <= k < |c| + 2
      ensures t[k] != ':' && t[k] != NUL
    {
      CharIs(t, 0, c + CRLF, k);
      assert k < |c| ==> c[k] in c;
    }
    NoColonYet(t, 0, |c| + 2);
  }

  lemma FieldColon(t: seq<char>, i: nat, l: Line)
    requires l.Field? && !NoValue(l) && WellFormed(l) && StandsAt(t, i, Content(l) + CRLF)
    ensures ColonFrom(t, i).Some? && At(t, SkipBlanks(t, ColonFrom(t, i).value + 1)) != NUL
  {
    hide WellFormed, ColonFrom, NoValue, SkipBlanks, StandsAt, Content, At;
    PartsStand(t, i, l);
    NameStands(t, i, l);
    ValueStands(t, i + |l.name| + 1, l);
  }

  lemma BareHasNoColon(c: seq<char>)
    requires WellFormed(Bare(c))
    ensures ColonFrom(c, 0) == None
  {
  }

  lemma PrintTwo(a: Line, b: Line)
    ensures Print([a, b] + []) + [] == Content(a) + CRLF + (Content(b) + CRLF)
  {
    hide Content;
    var ls := [a, b] + [];
    assert ls[1..] == [b] && [b][1..] == [] && Print([]) == [];
    assert Print([b]) == Content(b) + CRLF + [];
  }

  lemma WitnessText()
    ensures Content(Bare("GET /")) + CRLF + (Content(Field("Host", " ", "x")) + CRLF) == "GET /\r\nHost: x\r\n"
  {
  }

  lemma WitnessLines()
    ensures WellFormed(Bare("GET /")) && NUL !in "GET /"
    ensures WellFormed(Field("Host", " ", "x")) && !NoValue(Field("Host", " ", "x"))
  {
    NoColonHere("GET /", 0);
  }

  /** A request line and one header. */
  lemma RequestLineWitness(maxh: int)
    ensures ParseFrom("GET /\r\nHost: x\r\n", 0, 0, maxh) == ([], NegativeCopy)
  {
    hide WellFormed, NoValue, Content, Print, ParseFrom;
    WitnessLines();
    WitnessText();
    PrintTwo(Bare("GET /"), Field("Host", " ", "x"));
    assert OneLine([]);
    RequestLineFails("GET /", Field("Host", " ", "x"), [], [], maxh);
  }

  lemma {:induction false} NoColonHere(c: seq<char>, k: nat)
    requires ':' !in c
    ensures ColonFrom(c, k) == None
    decreases |c| - k
  {
    if k < |c| {
      NoColonHere(c, k + 1);
    }
  }
}
