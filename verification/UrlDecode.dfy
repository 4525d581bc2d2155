/** Percent decoding (section 2.1 of RFC 3986) of a C string. */
module UrlDecode {
  import opened Basics

  predicate IsHex(c: char) {
    '0' <= c <= '9' || 'A' <= c <= 'F' || 'a' <= c <= 'f'
  }

  function HexValue(c: char): (v: nat)
    requires IsHex(c)
    ensures v < 16
  {
    if '0' <= c <= '9' then c as int - '0' as int
    else if 'A' <= c <= 'F' then c as int - 'A' as int + 10
    else c as int - 'a' as int + 10
  }

  predicate IsEscape(t: seq<char>) {
    |t| >= 3 && t[0] == '%' && IsHex(t[1]) && IsHex(t[2])
  }

  function EscapeValue(t: seq<char>): char
    requires IsEscape(t)
  {
    (16 * HexValue(t[1]) + HexValue(t[2])) as char
  }

  function Decode(t: seq<char>): seq<char>
    decreases |t|
  {
    if t == [] then []
    else if IsEscape(t) then [EscapeValue(t)] + Decode(t[3..])
    else [t[0]] + Decode(t[1..])
  }

  function Escapes(t: seq<char>): nat
    decreases |t|
  {
    if t == [] then 0 else if IsEscape(t) then 1 + Escapes(t[3..]) else Escapes(t[1..])
  }

  /** Decoding shrinks a string by two characters for every escape in it. */
  lemma {:induction false} DecodeShrinks(t: seq<char>)
    ensures |Decode(t)| + 2 * Escapes(t) == |t|
    decreases |t|
  {
    if t != [] {
      DecodeShrinks(if IsEscape(t) then t[3..] else t[1..]);
    }
  }

  /** The digit arithmetic of the decoder: lower case is raised first, then the offset taken off. */
  method DigitValue(c: char) returns (v: nat)
    requires IsHex(c)
    ensures v == HexValue(c)
  {
    var a := c as int;
    if c >= 'a' {
      a := a - ('a' as int - 'A' as int);
    }
    if a >= 'A' as int {
      a := a - ('A' as int - 10);
    } else {
      a := a - '0' as int;
    }
    v := a;
  }

  /** Reads the character written at `s`, and where the next one starts. */
  method ReadCharacter(src: array<char>, s: nat, ghost text: seq<char>) returns (c: char, next: nat)
    requires s < |text| < src.Length && src[|text|] == NUL
    requires forall k | s <= k < |text| :: src[k] == text[k] != NUL
    ensures s < next <= |text|
    ensures Decode(text[s..]) == [c] + Decode(text[next..])
  {
    hide Decode, EscapeValue, HexValue;
    DecodeStep(text, s);
    if src[s] == '%' && src[s + 1] != NUL && src[s + 2] != NUL && IsHex(src[s + 1]) && IsHex(src[s + 2]) {
      var a := DigitValue(src[s + 1]);
      var b := DigitValue(src[s + 2]);
      EscapeOf(text[s..], a, b);
      return (16 * a + b) as char, s + 3;
    }
    return src[s], s + 1;
  }

  /**
   * Decodes the string in `src` into `dst`, which may be the same buffer. Nothing past the terminator of `src` is
   * read, and of `dst` only the result and its terminator are written.
   */
  method UrlDecode(dst: array<char>, src: array<char>, ghost n: nat)
    requires IsString(src, n) && n < dst.Length
    modifies dst
    ensures var r := Decode(old(src[..n]));
            && |r| <= n && dst[..|r|] == r && dst[|r|] == NUL
            && dst[|r| + 1..] == old(dst[|r| + 1..])
  {
    hide Decode;
    ghost var text := src[..n];
    var s, d := 0, 0;
    assert text[0..] == text;
    while src[s] != NUL
      invariant d <= s <= n && src[n] == NUL
      invariant forall k | s <= k < n :: src[k] == text[k] != NUL
      invariant forall k | d <= k < dst.Length :: dst[k] == old(dst[k])
      invariant Decode(text) == dst[..d] + Decode(text[s..])
      decreases n - s
    {
      ghost var done := dst[..d];
      var c, next := ReadCharacter(src, s, text);
      dst[d] := c;
      s, d := next, d + 1;
      assert dst[..d] == done + [c];
    }
    DecodeEnd(text, s);
    dst[d] := NUL;
  }

  lemma DecodeStep(text: seq<char>, s: nat)
    requires s < |text|
    ensures Decode(text[s..]) == if IsEscape(text[s..]) then [EscapeValue(text[s..])] + Decode(text[s + 3..])
                                 else [text[s]] + Decode(text[s + 1..])
    ensures IsEscape(text[s..]) <==> s + 3 <= |text| && text[s] == '%' && IsHex(text[s + 1]) && IsHex(text[s + 2])
  {
  }

  lemma DecodeEnd(text: seq<char>, s: nat)
    requires s == |text|
    ensures Decode(text[s..]) == []
  {
  }

  lemma EscapeOf(t: seq<char>, a: nat, b: nat)
    requires IsEscape(t) && a == HexValue(t[1]) && b == HexValue(t[2])
    ensures 16 * a + b < 256 && EscapeValue(t) == (16 * a + b) as char
  {
  }

  // ---------- encoders ----------

  /** How an encoder writes one character: as itself, or as an escape with each digit in either case. */
  datatype Piece = Plain(c: char) | Escaped(c: char, upperHigh: bool, upperLow: bool)

  function HexDigit(v: nat, upper: bool): (c: char)
    requires v < 16
    ensures IsHex(c) && HexValue(c) == v
  {
    if v < 10 then (v + '0' as int) as char
    else if upper then (v - 10 + 'A' as int) as char
    else (v - 10 + 'a' as int) as char
  }

  /** Characters are bytes; a NUL can only be escaped. */
  ghost predicate Writable(p: Piece) {
    p.c as int < 256 && (p.Plain? ==> p.c != NUL)
  }

  ghost predicate AllWritable(ps: seq<Piece>) {
    forall i | 0 <= i < |ps| :: Writable(ps[i])
  }

  /** Every byte can be escaped, and every byte but zero can stand for itself. */
  lemma WhatIsWritable(ps: seq<Piece>)
    ensures AllWritable(ps) <==> forall p | p in ps :: p.c as int < 256 && (p.Plain? ==> p.c != '\0')
  {
    if AllWritable(ps) {
      assert forall p | p in ps :: Writable(p);
    }
  }

  function PrintPiece(p: Piece): seq<char> {
    match p
    case Plain(c) => [c]
    case Escaped(c, high, low) => ['%', HexDigit(c as int / 16 % 16, high), HexDigit(c as int % 16, low)]
  }

  function Print(ps: seq<Piece>): seq<char> {
    if ps == [] then [] else PrintPiece(ps[0]) + Print(ps[1..])
  }

  function Meaning(ps: seq<Piece>): seq<char> {
    seq(|ps|, i requires 0 <= i < |ps| => ps[i].c)
  }

  /** No percent sign that stands for itself is followed by two hex digits. */
  ghost predicate Clear(ps: seq<Piece>) {
    ps != [] ==> (ps[0].Plain? ==> !IsEscape(Print(ps))) && Clear(ps[1..])
  }

  /** A few escapes, and what only looks like one. */
  lemma DecodeExample()
    ensures Decode("%41%2f%7E%4") == "A/~%4"
  {
    assert "%41%2f%7E%4"[3..] == "%2f%7E%4";
    assert "%2f%7E%4"[3..] == "%7E%4";
    assert "%7E%4"[3..] == "%4";
    assert "%4"[1..] == "4";
    assert "4"[1..] == "";
  }

  /** Decoding undoes every encoder that leaves percent signs clear, and no other. */
  lemma RoundTripIff(ps: seq<Piece>)
    requires AllWritable(ps)
    ensures Decode(Print(ps)) == Meaning(ps) <==> Clear(ps)
  {
    if Clear(ps) {
      RoundTrip(ps);
    } else {
      LosesCharacters(ps);
    }
  }

  lemma EscapedPiece(p: Piece, rest: seq<char>)
    requires p.Escaped? && p.c as int < 256
    ensures IsEscape(PrintPiece(p) + rest) && EscapeValue(PrintPiece(p) + rest) == p.c
    ensures (PrintPiece(p) + rest)[3..] == rest
  {
  }

  lemma {:induction false} RoundTrip(ps: seq<Piece>)
    requires AllWritable(ps)
    requires Clear(ps)
    ensures Decode(Print(ps)) == Meaning(ps)
  {
    if ps != [] {
      var rest := Print(ps[1..]);
      RoundTrip(ps[1..]);
      assert Meaning(ps) == [ps[0].c] + Meaning(ps[1..]);
      if ps[0].Escaped? {
        EscapedPiece(ps[0], rest);
      } else {
        assert Print(ps)[1..] == rest;
      }
    }
  }

  function EscapedCount(ps: seq<Piece>): nat {
    if ps == [] then 0 else (if ps[0].Escaped? then 1 else 0) + EscapedCount(ps[1..])
  }

  /** Every escape written is read as one; an unclear percent sign is read as one more. */
  lemma {:induction false} EscapesRead(ps: seq<Piece>)
    requires AllWritable(ps)
    ensures |Print(ps)| == |ps| + 2 * EscapedCount(ps)
    ensures Escapes(Print(ps)) >= EscapedCount(ps)
    ensures !Clear(ps) ==> Escapes(Print(ps)) > EscapedCount(ps)
    decreases |ps|
  {
    hide EscapeValue, HexDigit;
    if ps != [] {
      var rest := Print(ps[1..]);
      EscapesRead(ps[1..]);
      if ps[0].Escaped? {
        EscapedPiece(ps[0], rest);
      } else if !IsEscape(Print(ps)) {
        assert Print(ps)[1..] == rest;
      } else {
        Swallowed(ps);
        EscapesRead(ps[3..]);
      }
    }
  }

  lemma PlainFirst(ps: seq<Piece>)
    requires ps != []
    ensures Print(ps) != [] && (ps[0].Escaped? ==> Print(ps)[0] == '%')
    ensures ps[0].Plain? ==> Print(ps)[0] == ps[0].c && Print(ps)[1..] == Print(ps[1..])
  {
  }

  /** The two digits behind an unclear percent sign were written plainly, so what follows them is a text of its own. */
  lemma Swallowed(ps: seq<Piece>)
    requires ps != [] && ps[0].Plain? && IsEscape(Print(ps))
    ensures 3 <= |ps| && EscapedCount(ps) == EscapedCount(ps[3..])
    ensures Print(ps)[3..] == Print(ps[3..])
  {
    hide PrintPiece;
    PlainFirst(ps);
    var one := ps[1..];
    assert Print(one)[0] == Print(ps)[1] && Print(one)[1] == Print(ps)[2];
    PlainFirst(one);
    var two := one[1..];
    assert Print(two)[0] == Print(one)[1];
    PlainFirst(two);
    assert two[1..] == ps[3..];
    assert EscapedCount(ps) == EscapedCount(one) == EscapedCount(two) == EscapedCount(ps[3..]);
    assert Print(ps)[3..] == Print(ps)[1..][1..][1..];
  }

  lemma LosesCharacters(ps: seq<Piece>)
    requires AllWritable(ps) && !Clear(ps)
    ensures |Decode(Print(ps))| < |Meaning(ps)|
  {
    hide Print, Escapes, Decode, Clear;
    EscapesRead(ps);
    DecodeShrinks(Print(ps));
  }
}
