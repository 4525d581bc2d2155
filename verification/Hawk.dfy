/** The Hawk authorization header: a parser that cuts tokens out of the header by writing terminators into it. */
module Hawk {
  import opened Basics
  import opened Wrappers

  const QUOTE := '"'
  const COMMA := ','

  /** The buffer ends in a terminator, if it has none before. */
  predicate Terminated(t: seq<char>) {
    t != [] && t[|t| - 1] == NUL
  }

  /** The end of the string that starts at `i`. */
  function StrEnd(t: seq<char>, i: nat): (e: nat)
    requires Terminated(t) && i < |t|
    ensures i <= e < |t| && t[e] == NUL
    ensures forall k | i <= k < e :: t[k] != NUL
    decreases |t| - i
  {
    if t[i] == NUL then i else StrEnd(t, i + 1)
  }

  /** The first `c` of the string that starts at `i`. */
  function StrChr(t: seq<char>, i: nat, c: char): (r: Option<nat>)
    requires Terminated(t) && i < |t| && c != NUL
    ensures r.Some? ==> i <= r.value < |t| - 1 && t[r.value] == c
    ensures forall k | i <= k < (if r.Some? then r.value else StrEnd(t, i)) :: t[k] != c && t[k] != NUL
    decreases |t| - i
  {
    if t[i] == c then Some(i) else if t[i] == NUL then None else StrChr(t, i + 1, c)
  }

  predicate Here(t: seq<char>, i: nat, s: seq<char>) {
    i + |s| <= |t| && t[i..i + |s|] == s
  }

  /** The first `s` in the string that starts at `i`. */
  function StrStr(t: seq<char>, i: nat, s: seq<char>): (r: Option<nat>)
    requires Terminated(t) && i < |t| && s != [] && NUL !in s
    ensures r.Some? ==> i <= r.value && Here(t, r.value, s) && r.value + |s| < |t|
    ensures r.Some? ==> forall k | i <= k < r.value :: !Here(t, k, s)
    decreases |t| - i
  {
    if Here(t, i, s) then
      assert t[i + |s| - 1] == s[|s| - 1];
      Some(i)
    else if t[i] == NUL then None
    else StrStr(t, i + 1, s)
  }

  /** A C string read off the buffer. */
  function StringAt(t: seq<char>, i: nat): seq<char>
    requires Terminated(t) && i < |t|
  {
    t[i..StrEnd(t, i)]
  }

  /** The buffer afterwards, the token's start, and the new cursor. */
  datatype Parsed = Parsed(text: seq<char>, token: Option<nat>, cursor: Option<nat>)

  function Quoted(t: seq<char>, q: nat): bool {
    q + 1 < |t| && t[q + 1] == QUOTE
  }

  function TokenStart(t: seq<char>, q: nat): nat {
    if Quoted(t, q) then q + 2 else q + 1
  }

  /** Cuts the token out whose equals sign is at `q`. */
  function CutToken(t: seq<char>, q: nat): (r: Parsed)
    requires Terminated(t) && q < |t| - 1
  {
    var cut := t[q := NUL];
    var token := TokenStart(cut, q);
    var comma := StrChr(cut, token, COMMA);
    var e := if comma.Some? then comma.value else StrEnd(cut, token);
    Parsed(if Quoted(cut, q) then cut[e - 1 := NUL] else cut[e := NUL],
           Some(token),
           if comma.Some? then Some(e + 1) else None)
  }

  function ParseToken(t: seq<char>, p: Option<nat>, s: seq<char>): Parsed
    requires Terminated(t) && (p.Some? ==> p.value < |t|) && NUL !in s
  {
    if p == None || |s| < 2 then Parsed(t, None, p)
    else
      var at := StrStr(t, p.value, s);
      if at == None then Parsed(t, None, p) else CutToken(t, at.value + |s| - 1)
  }

  /** A search string needs two characters; for a shorter one nothing is looked for. */
  lemma ShortSearch(t: seq<char>, p: Option<nat>, s: seq<char>)
    requires Terminated(t) && (p.Some? ==> p.value < |t|) && NUL !in s
    ensures |s| <= 1 || p == None ==> ParseToken(t, p, s) == Parsed(t, None, p)
    ensures 2 <= |s| && p.Some? && Here(t, p.value, s) ==> ParseToken(t, p, s).token.Some?
  {
  }

  method HawkParseToken(buf: array<char>, s: seq<char>, p: Option<nat>)
    returns (token: Option<nat>, cursor: Option<nat>)
    requires Terminated(buf[..]) && (p.Some? ==> p.value < buf.Length) && NUL !in s
    modifies buf
    ensures Parsed(buf[..], token, cursor) == ParseToken(old(buf[..]), p, s)
  {
    if p == None || |s| < 2 {
      return None, p;
    }
    var str := StrStr(buf[..], p.value, s);
    if str == None {
      return None, p;
    }
    token, cursor := CutInPlace(buf, str.value + |s| - 1);
  }

  method CutInPlace(buf: array<char>, q: nat) returns (token: Option<nat>, cursor: Option<nat>)
    requires Terminated(buf[..]) && q < buf.Length - 1
    modifies buf
    ensures Parsed(buf[..], token, cursor) == CutToken(old(buf[..]), q)
  {
    hide StrChr, StrEnd;
    ghost var cut := buf[..][q := NUL];
    buf[q] := NUL;
    assert buf[..] == cut;
    var start, unquote := q + 1, false;
    if buf[start] == QUOTE {
      unquote := true;
      start := start + 1;
    }
    var comma := StrChr(buf[..], start, COMMA);
    var e;
    if comma.Some? {
      e := comma.value;
      cursor := Some(e + 1);
    } else {
      e := StrEnd(buf[..], start);
      cursor := None;
    }
    if unquote {
      buf[e - 1] := NUL;
    } else {
      buf[e] := NUL;
    }
    token := Some(start);
  }

  // ---------- every call, whatever the text ----------

  /**
   * The cursor only moves right, the buffer stays a terminated string of its length, and nothing left of the cursor
   * changes.
   */
  lemma ParseTokenFrame(t: seq<char>, p: nat, s: seq<char>)
    requires Terminated(t) && p < |t| && NUL !in s
    ensures var r := ParseToken(t, Some(p), s);
            && |r.text| == |t| && Terminated(r.text) && r.text[..p] == t[..p]
            && (r.cursor.Some? ==> p <= r.cursor.value < |t| && r.text[r.cursor.value..] == t[r.cursor.value..])
            && (r.token.Some? ==> p < r.token.value < |t|)
  {
    hide StrEnd, StrChr, StrStr;
  }

  /** A token that ends before the new cursor is not touched by any later call. */
  lemma LaterCallKeepsToken(t: seq<char>, i: nat, p: nat, s: seq<char>)
    requires Terminated(t) && i <= p < |t| && NUL !in s && StrEnd(t, i) < p
    ensures Terminated(ParseToken(t, Some(p), s).text) && i < |ParseToken(t, Some(p), s).text|
    ensures StringAt(ParseToken(t, Some(p), s).text, i) == StringAt(t, i)
  {
    hide ParseToken;
    ParseTokenFrame(t, p, s);
    var u, e := ParseToken(t, Some(p), s).text, StrEnd(t, i);
    assert forall k | i <= k <= e :: u[k] == u[..p][k] == t[k];
  }

  /**
   * A token ends before the new cursor unless its opening quote has a comma right behind it: it then starts with that
   * comma.
   */
  lemma TokenEndsIff(t: seq<char>, q: nat)
    requires Terminated(t) && q < |t| - 1 && CutToken(t, q).cursor.Some?
    ensures var r := CutToken(t, q);
            && Terminated(r.text) && r.token.value < |r.text|
            && (StrEnd(r.text, r.token.value) < r.cursor.value <==> !(Quoted(t, q) && t[q + 2] == COMMA))
  {
    hide StrStr;
    var cut := t[q := NUL];
    var token := TokenStart(cut, q);
    var e := StrChr(cut, token, COMMA).value;
    var u := CutToken(t, q).text;
    assert Terminated(u);
    if Quoted(cut, q) {
      if e == token {
        assert u[token] == COMMA;
      } else {
        assert u[e - 1] == NUL;
      }
    } else {
      assert u[e] == NUL;
    }
  }

  // ---------- a whole header ----------

  /** The tokens of several keys in turn, each search starting where the last token ended. */
  function ParseAll(t: seq<char>, p: Option<nat>, keys: seq<seq<char>>): (r: (seq<char>, seq<Option<nat>>))
    requires Terminated(t) && (p.Some? ==> p.value < |t|) && forall k | k in keys :: NUL !in k
    ensures |r.0| == |t| && Terminated(r.0) && |r.1| == |keys|
    ensures forall i | 0 <= i < |r.1| :: r.1[i].Some? ==> r.1[i].value < |t|
    decreases |keys|
  {
    if keys == [] then (t, []) else
      ParseTokenShape(t, p, keys[0]);
      var one := ParseToken(t, p, keys[0]);
      var (u, rest) := ParseAll(one.text, one.cursor, keys[1..]);
      (u, [one.token] + rest)
  }

  lemma ParseTokenShape(t: seq<char>, p: Option<nat>, s: seq<char>)
    requires Terminated(t) && (p.Some? ==> p.value < |t|) && NUL !in s
    ensures var r := ParseToken(t, p, s);
            && |r.text| == |t| && Terminated(r.text)
            && (r.cursor.Some? ==> r.cursor.value < |t|) && (r.token.Some? ==> r.token.value < |t|)
  {
  }

  lemma NoCursor(t: seq<char>, s: seq<char>)
    requires Terminated(t) && NUL !in s
    ensures ParseToken(t, None, s) == Parsed(t, None, None)
  {
  }

  const KEYS: seq<seq<char>> := ["id=", "ts=", "nonce=", "ext=", "mac="]
  const SCHEME: seq<char> := "Hawk"

  lemma KeysAreKeys()
    ensures forall k | k in KEYS :: IsKey(k)
  {
  }

  class Artifacts {
    var id: Option<nat>
    var ts: Option<nat>
    var nonce: Option<nat>
    var ext: Option<nat>
    var mac: Option<nat>

    constructor ()
      ensures id == None && ts == None && nonce == None && ext == None && mac == None
    {
      id, ts, nonce, ext, mac := None, None, None, None, None;
    }
  }

  lemma ParseAllStep(t: seq<char>, p: Option<nat>, keys: seq<seq<char>>)
    requires Terminated(t) && (p.Some? ==> p.value < |t|) && (forall k | k in keys :: NUL !in k)
    ensures keys == [] ==> ParseAll(t, p, keys) == (t, [])
    ensures keys != [] ==>
              var one := ParseToken(t, p, keys[0]);
              && Terminated(one.text) && (one.cursor.Some? ==> one.cursor.value < |one.text|)
              && var (u, rest) := ParseAll(one.text, one.cursor, keys[1..]);
                 ParseAll(t, p, keys) == (u, [one.token] + rest)
  {
  }

  /** The five tokens, one after the other. */
  method ParseFive(buf: array<char>, art: Artifacts, start: nat)
    requires Terminated(buf[..]) && start < buf.Length
    requires forall k | k in KEYS :: NUL !in k
    modifies buf, art
    ensures (buf[..], [art.id, art.ts, art.nonce, art.ext, art.mac]) == ParseAll(old(buf[..]), Some(start), KEYS)
  {
    hide ParseToken, ParseAll, Terminated, KEYS;
    KeySlices();
    var p := Some(start);
    ParseAllStep(buf[..], p, KEYS);
    art.id, p := HawkParseToken(buf, "id=", p);
    ParseAllStep(buf[..], p, KEYS[1..]);
    art.ts, p := HawkParseToken(buf, "ts=", p);
    ParseAllStep(buf[..], p, KEYS[2..]);
    art.nonce, p := HawkParseToken(buf, "nonce=", p);
    ParseAllStep(buf[..], p, KEYS[3..]);
    art.ext, p := HawkParseToken(buf, "ext=", p);
    ParseAllStep(buf[..], p, KEYS[4..]);
    art.mac, p := HawkParseToken(buf, "mac=", p);
    ParseAllStep(buf[..], p, KEYS[5..]);
    InOrder(art.id, art.ts, art.nonce, art.ext, art.mac);
  }

  lemma InOrder<T>(a: T, b: T, c: T, d: T, e: T)
    ensures [a] + ([b] + ([c] + ([d] + ([e] + [])))) == [a, b, c, d, e]
  {
  }

  lemma KeySlices()
    ensures |KEYS| == 5 && KEYS[0..] == KEYS && KEYS[0] == "id="
    ensures KEYS[1..][1..] == KEYS[2..] && KEYS[2..][1..] == KEYS[3..]
    ensures KEYS[3..][1..] == KEYS[4..] && KEYS[4..][1..] == KEYS[5..] == []
    ensures KEYS[1..][0] == "ts=" && KEYS[2..][0] == "nonce=" && KEYS[3..][0] == "ext=" && KEYS[4..][0] == "mac="
  {
  }

  /** Parses an authorization header; 0 means that it is for another scheme. */
  method HawkParseArtifacts(buf: array<char>, art: Artifacts) returns (ok: int)
    requires Terminated(buf[..])
    modifies buf, art
    ensures forall k | k in KEYS :: NUL !in k
    ensures ok == if Here(old(buf[..]), 0, SCHEME) then 1 else 0
    ensures ok == 0 || StrEnd(old(buf[..]), 0) < 5 ==>
              buf[..] == old(buf[..]) && art.id == old(art.id) && art.ts == old(art.ts) && art.nonce == old(art.nonce)
              && art.ext == old(art.ext) && art.mac == old(art.mac)
    ensures ok == 1 && StrEnd(old(buf[..]), 0) >= 5 ==>
              Terminated(old(buf[..])[4 := NUL])
              && (buf[..], [art.id, art.ts, art.nonce, art.ext, art.mac])
                  == ParseAll(old(buf[..])[4 := NUL], Some(5), KEYS)
  {
    hide ParseAll;
    KeysAreKeys();
    if !Here(buf[..], 0, SCHEME) {
      return 0;
    }
    ok := 1;
    if StrEnd(buf[..], 0) < 5 {
      return;
    }
    ghost var t := buf[..][4 := NUL];
    buf[4] := NUL;
    assert buf[..] == t;
    ParseFive(buf, art, 5);
  }

  // ---------- headers as they are written ----------

  predicate IsKey(k: seq<char>) {
    2 <= |k| && forall c | c in k :: c != NUL && c != QUOTE && !IsBlank(c)
  }

  lemma KeyIff(k: seq<char>)
    ensures IsKey(k) <==> 2 <= |k| && '\0' !in k && '"' !in k && ' ' !in k && '\t' !in k
  {
  }

  /** A value written after a key, with blanks before the key, and in quotes or bare. */
  datatype Attr = Attr(blanks: seq<char>, value: seq<char>, quoted: bool)

  predicate Plain(a: Attr) {
    && (forall c | c in a.blanks :: IsBlank(c))
    && (forall c | c in a.value :: c != COMMA && c != QUOTE && c != NUL)
  }

  function Written(k: seq<char>, a: Attr): seq<char> {
    a.blanks + k + (if a.quoted then [QUOTE] + a.value + [QUOTE] else a.value)
  }

  function AllWritten(ks: seq<seq<char>>, xs: seq<Attr>): seq<char>
    requires |ks| == |xs|
  {
    if ks == [] then []
    else if |ks| == 1 then Written(ks[0], xs[0])
    else Written(ks[0], xs[0]) + [COMMA] + AllWritten(ks[1..], xs[1..])
  }

  lemma StrEndIs(t: seq<char>, i: nat, e: nat)
    requires Terminated(t) && i <= e < |t| && t[e] == NUL && forall k | i <= k < e :: t[k] != NUL
    ensures StrEnd(t, i) == e
  {
  }

  lemma NotHere(t: seq<char>, i: nat, s: seq<char>)
    requires i < |t| && s != [] && t[i] != s[0]
    ensures !Here(t, i, s)
  {
  }

  /** Behind blanks a key is found right there. */
  lemma {:induction false} KeyFound(t: seq<char>, p: nat, b: nat, k: seq<char>)
    requires Terminated(t) && p <= b < |t| && IsKey(k) && Here(t, b, k)
    requires forall i | p <= i < b :: IsBlank(t[i])
    ensures StrStr(t, p, k) == Some(b)
    decreases b - p
  {
    assert k[0] in k;
    if p < b {
      assert !Here(t, p, k) by { assert t[p] != k[0]; NotHere(t, p, k); }
      KeyFound(t, p + 1, b, k);
    }
  }

  /** The text `s` stands at position `i`. */
  lemma CharHere(t: seq<char>, i: nat, s: seq<char>, k: nat)
    requires Here(t, i, s) && k < |s|
    ensures t[i + k] == s[k]
  {
  }

  lemma HereApart(t: seq<char>, i: nat, a: seq<char>, b: seq<char>)
    requires Here(t, i, a + b)
    ensures Here(t, i, a) && Here(t, i + |a|, b)
  {
    assert (a + b)[..|a|] == a && (a + b)[|a|..] == b;
    assert t[i..i + |a|] == t[i..i + |a + b|][..|a|];
    assert t[i + |a|..i + |a| + |b|] == t[i..i + |a + b|][|a|..];
  }

  function Wrapped(a: Attr): seq<char> {
    if a.quoted then [QUOTE] + a.value + [QUOTE] else a.value
  }

  /**
   * What stands in the buffer, once the equals sign is cut, from the token's start to where its own terminator goes.
   */
  lemma WrappedStands(cut: seq<char>, q: nat, a: Attr)
    requires q < |cut| && Plain(a) && Here(cut, q + 1, Wrapped(a)) && q + 1 + |Wrapped(a)| < |cut|
    requires cut[q + 1 + |Wrapped(a)|] == COMMA || cut[q + 1 + |Wrapped(a)|] == NUL
    ensures Quoted(cut, q) == a.quoted
    ensures var token, e := TokenStart(cut, q), q + 1 + |Wrapped(a)|;
            && token <= e && token + |a.value| == (if a.quoted then e - 1 else e)
            && (forall k | token <= k < e :: cut[k] != COMMA && cut[k] != NUL)
            && cut[token..token + |a.value|] == a.value
  {
    var w, n := Wrapped(a), |a.value|;
    var e := q + 1 + |w|;
    WrappedChars(cut, q, a);
    var token := TokenStart(cut, q);
    hide Here, Plain;
    assert forall k | token <= k < e :: cut[k] == w[k - q - 1];
    assert forall k | 0 <= k < n :: cut[token + k] == a.value[k];
  }

  lemma WrappedChars(cut: seq<char>, q: nat, a: Attr)
    requires q < |cut| && Plain(a) && Here(cut, q + 1, Wrapped(a)) && q + 1 + |Wrapped(a)| < |cut|
    requires cut[q + 1 + |Wrapped(a)|] == COMMA || cut[q + 1 + |Wrapped(a)|] == NUL
    ensures forall k | 0 <= k < |Wrapped(a)| :: cut[q + 1 + k] == Wrapped(a)[k] != COMMA && Wrapped(a)[k] != NUL
    ensures Quoted(cut, q) == a.quoted
  {
    hide Here;
    var w := Wrapped(a);
    forall k | 0 <= k < |w|
      ensures cut[q + 1 + k] == w[k] != COMMA && w[k] != NUL
    {
      CharHere(cut, q + 1, w, k);
      assert w[k] == QUOTE || w[k] in a.value;
    }
    assert !a.quoted && a.value != [] ==> w[0] in a.value;
  }

  lemma CutTokenIs(t: seq<char>, q: nat, e: nat, stop: nat)
    requires Terminated(t) && q < |t| - 1
    requires var cut := t[q := NUL];
             && TokenStart(cut, q) <= stop <= e < |t| && stop == (if Quoted(cut, q) then e - 1 else e)
             && (forall k | TokenStart(cut, q) <= k < e :: cut[k] != COMMA && cut[k] != NUL)
             && (cut[e] == COMMA || cut[e] == NUL)
    ensures var cut := t[q := NUL];
            CutToken(t, q) == Parsed(cut[stop := NUL], Some(TokenStart(cut, q)),
                                     if cut[e] == COMMA then Some(e + 1) else None)
  {
  }

  /** Cutting a written value out of its place between an equals sign and a comma or the end. */
  lemma ValueCut(t: seq<char>, q: nat, a: Attr)
    requires Terminated(t) && q < |t| && Plain(a) && Here(t, q + 1, Wrapped(a))
    requires q + 1 + |Wrapped(a)| < |t| && (t[q + 1 + |Wrapped(a)|] == COMMA || t[q + 1 + |Wrapped(a)|] == NUL)
    ensures var r, e := CutToken(t, q), q + 1 + |Wrapped(a)|;
            && Terminated(r.text) && |r.text| == |t|
            && r.token.Some? && r.token.value < |t| && StringAt(r.text, r.token.value) == a.value
            && StrEnd(r.text, r.token.value) <= e
            && r.cursor == (if t[e] == COMMA then Some(e + 1) else None)
            && (forall k | e < k < |t| :: r.text[k] == t[k])
  {
    hide CutToken, Wrapped, TokenStart, Quoted, StrEnd, Plain;
    var cut, e, n := t[q := NUL], q + 1 + |Wrapped(a)|, |a.value|;
    assert cut[q + 1..e] == t[q + 1..e];
    WrappedStands(cut, q, a);
    var token := TokenStart(cut, q);
    CutTokenIs(t, q, e, token + n);
    var u := cut[token + n := NUL];
    StrEndIs(u, token, token + n);
    assert u[token..token + n] == cut[token..token + n];
  }

  lemma WrittenParts(k: seq<char>, a: Attr)
    ensures Written(k, a) == a.blanks + k + Wrapped(a)
  {
  }

  lemma TwoParts(t: seq<char>, p: nat, w: seq<char>, more: seq<char>)
    requires p <= |t| && t[p..] == w + more
    ensures Here(t, p, w) && t[p + |w|..] == more
  {
    assert t[p..p + |w|] == t[p..][..|w|];
    assert t[p + |w|..] == t[p..][|w|..];
  }

  lemma AttrStands(t: seq<char>, p: nat, k: seq<char>, a: Attr, more: seq<char>)
    requires Terminated(t) && p < |t| && IsKey(k) && Plain(a) && t[p..] == Written(k, a) + more && more != []
    ensures NUL !in k && 2 <= |k|
    ensures var q := p + |a.blanks| + |k| - 1;
            && StrStr(t, p, k) == Some(p + |a.blanks|) && Here(t, q + 1, Wrapped(a))
            && q + 1 + |Wrapped(a)| + |more| == |t| && t[q + 1 + |Wrapped(a)|..] == more
  {
    hide Here, Wrapped, Written, StrStr, IsBlank;
    WrittenParts(k, a);
    TwoParts(t, p, Written(k, a), more);
    HereApart(t, p, a.blanks + k, Wrapped(a));
    HereApart(t, p, a.blanks, k);
    forall i | p <= i < p + |a.blanks|
      ensures IsBlank(t[i])
    {
      CharHere(t, p, a.blanks, i - p);
      assert a.blanks[i - p] in a.blanks;
    }
    KeyFound(t, p, p + |a.blanks|, k);
  }

  /** One written attribute is parsed to its value, and the cursor goes to what follows its comma. */
  lemma AttrParsed(t: seq<char>, p: nat, k: seq<char>, a: Attr, more: seq<char>)
    requires Terminated(t) && p < |t| && IsKey(k) && Plain(a)
    requires t[p..] == Written(k, a) + more && more != [] && (more[0] == COMMA || more[0] == NUL)
    requires more[0] == COMMA ==> 1 < |more|
    ensures NUL !in k
    ensures var r := ParseToken(t, Some(p), k);
            && Terminated(r.text) && |r.text| == |t|
            && r.token.Some? && r.token.value < |t| && StringAt(r.text, r.token.value) == a.value
            && (if more[0] == COMMA then
                  r.cursor.Some? && r.cursor.value < |t| && StrEnd(r.text, r.token.value) < r.cursor.value
                  && r.text[r.cursor.value..] == more[1..]
                else r.cursor == None)
  {
    hide CutToken, Wrapped, Written, StrStr, IsKey, Plain, Here, StrEnd, StringAt;
    AttrStands(t, p, k, a, more);
    var q := p + |a.blanks| + |k| - 1;
    var e := q + 1 + |Wrapped(a)|;
    assert t[e] == t[e..][0];
    ValueCut(t, q, a);
    var r := CutToken(t, q);
    if more[0] == COMMA {
      assert r.text[e + 1..] == t[e + 1..] == t[e..][1..];
    }
  }

  /** Tokens that end before the cursor survive all the calls that follow. */
  lemma {:induction false} ParseAllKeeps(t: seq<char>, i: nat, p: Option<nat>, keys: seq<seq<char>>)
    requires Terminated(t) && (p.Some? ==> p.value < |t|) && forall k | k in keys :: NUL !in k
    requires i < |t| && (p.Some? ==> StrEnd(t, i) < p.value)
    ensures StringAt(ParseAll(t, p, keys).0, i) == StringAt(t, i)
    decreases |keys|
  {
    hide ParseToken;
    if keys != [] {
      ParseTokenShape(t, p, keys[0]);
      var one := ParseToken(t, p, keys[0]);
      if p.Some? {
        LaterCallKeepsToken(t, i, p.value, keys[0]);
        ParseTokenFrame(t, p.value, keys[0]);
        assert StrEnd(one.text, i) == StrEnd(t, i);
      } else {
        NoCursor(t, keys[0]);
      }
      ParseAllKeeps(one.text, i, one.cursor, keys[1..]);
    }
  }

  lemma KeysHaveNoNul(ks: seq<seq<char>>)
    requires forall k | k in ks :: IsKey(k)
    ensures forall k | k in ks :: NUL !in k
  {
  }

  // ---------- headers with attributes missing ----------

  /** The attributes that are there, and their keys. */
  function Present(ks: seq<seq<char>>, xs: seq<Option<Attr>>): (r: (seq<seq<char>>, seq<Attr>))
    requires |ks| == |xs|
    ensures |r.0| == |r.1|
  {
    if ks == [] then ([], [])
    else
      var rest := Present(ks[1..], xs[1..]);
      if xs[0] == None then rest else ([ks[0]] + rest.0, [xs[0].value] + rest.1)
  }

  function PresentText(ks: seq<seq<char>>, xs: seq<Option<Attr>>): seq<char>
    requires |ks| == |xs|
  {
    AllWritten(Present(ks, xs).0, Present(ks, xs).1)
  }

  ghost predicate Absent(k: seq<char>, s: seq<char>) {
    forall i | 0 <= i <= |s| :: !Here(s, i, k)
  }

  /** No key that is missing occurs in the text of the attributes behind it. */
  ghost predicate MissingAreAbsent(ks: seq<seq<char>>, xs: seq<Option<Attr>>)
    requires |ks| == |xs|
  {
    ks != [] ==>
      && (xs[0] == None ==> Absent(ks[0], PresentText(ks, xs)))
      && MissingAreAbsent(ks[1..], xs[1..])
  }

  /** What is left of the buffer from the cursor on is the text of these attributes. */
  ghost predicate Stands(t: seq<char>, p: Option<nat>, ks: seq<seq<char>>, xs: seq<Option<Attr>>)
    requires |ks| == |xs| && (p.Some? ==> p.value < |t|)
  {
    && (forall x | x in xs :: x.Some? ==> Plain(x.value))
    && if p.Some? then t[p.value..] == PresentText(ks, xs) + [NUL] else Present(ks, xs).0 == []
  }

  lemma HereInside(t: seq<char>, p: nat, b: nat, s: seq<char>, k: seq<char>)
    requires b <= p < |t| && t[b..] == s + [NUL] && IsKey(k) && Here(t, p, k)
    ensures p - b <= |s| && Here(s, p - b, k)
  {
    forall j | 0 <= j < |k|
      ensures p - b + j < |s| && s[p - b + j] == k[j]
    {
      CharHere(t, p, k, j);
      assert k[j] in k;
      assert t[b..][p - b + j] == t[p + j];
    }
    var last := |k| - 1;
    assert k[last] in k && p - b + last < |s|;
    var part := s[p - b..p - b + |k|];
    assert |part| == |k| && forall j | 0 <= j < |k| :: part[j] == s[p - b + j];
    assert part == k;
  }

  lemma {:induction false} NotFound(t: seq<char>, p: nat, b: nat, s: seq<char>, k: seq<char>)
    requires Terminated(t) && b <= p < |t| && t[b..] == s + [NUL] && IsKey(k)
    requires Absent(k, s)
    ensures NUL !in k && StrStr(t, p, k) == None
    decreases |t| - p
  {
    hide Here;
    assert !Here(t, p, k) by {
      if Here(t, p, k) {
        HereInside(t, p, b, s, k);
      }
    }
    if t[p] != NUL {
      NotFound(t, p + 1, b, s, k);
    }
  }

  lemma PresentStep(ks: seq<seq<char>>, xs: seq<Option<Attr>>)
    requires ks != [] && |ks| == |xs|
    ensures xs[0] == None ==> PresentText(ks, xs) == PresentText(ks[1..], xs[1..])
    ensures xs[0].Some? ==>
              var more := Present(ks[1..], xs[1..]).0;
              PresentText(ks, xs) == Written(ks[0], xs[0].value)
                + if more == [] then [] else [COMMA] + PresentText(ks[1..], xs[1..])
  {
    hide Written;
    if xs[0].Some? {
      var r := Present(ks[1..], xs[1..]);
      assert Present(ks, xs) == ([ks[0]] + r.0, [xs[0].value] + r.1);
      assert ([ks[0]] + r.0)[1..] == r.0 && ([xs[0].value] + r.1)[1..] == r.1;
    }
  }

  /** There is a token exactly if there should be, and it holds the value written. */
  predicate Right(u: seq<char>, token: Option<nat>, x: Option<Attr>)
    requires Terminated(u) && (token.Some? ==> token.value < |u|)
  {
    (token.Some? <==> x.Some?) && (token.Some? ==> StringAt(u, token.value) == x.value.value)
  }

  /** Every token that there should be is there and holds the value written, and there is no other. */
  ghost predicate ReadAs(u: seq<char>, tokens: seq<Option<nat>>, xs: seq<Option<Attr>>)
    requires Terminated(u) && |tokens| == |xs|
    requires forall i | 0 <= i < |tokens| :: tokens[i].Some? ==> tokens[i].value < |u|
  {
    forall i | 0 <= i < |xs| :: Right(u, tokens[i], xs[i])
  }

  /** An attribute that is missing has got a token. */
  ghost predicate Stray(tokens: seq<Option<nat>>, xs: seq<Option<Attr>>)
    requires |tokens| == |xs|
  {
    exists i :: 0 <= i < |xs| && tokens[i].Some? && xs[i] == None
  }

  lemma ReadAsStep(u: seq<char>, token: Option<nat>, tokens: seq<Option<nat>>, xs: seq<Option<Attr>>)
    requires Terminated(u) && |tokens| + 1 == |xs| && (token.Some? ==> token.value < |u|)
    requires forall i | 0 <= i < |tokens| :: tokens[i].Some? ==> tokens[i].value < |u|
    requires Right(u, token, xs[0])
    ensures ReadAs(u, [token] + tokens, xs) <==> ReadAs(u, tokens, xs[1..])
    ensures Stray([token] + tokens, xs) <==> Stray(tokens, xs[1..])
  {
    hide Right, Stray;
    var all := [token] + tokens;
    TokenOfRight(u, token, xs[0]);
    StrayStep(token, tokens, xs);
    assert forall i | 0 <= i < |tokens| :: all[i + 1] == tokens[i] && xs[i + 1] == xs[1..][i];
    assert forall i | 1 <= i < |all| :: all[i] == tokens[i - 1] && xs[i] == xs[1..][i - 1];
  }

  lemma TokenOfRight(u: seq<char>, token: Option<nat>, x: Option<Attr>)
    requires Terminated(u) && (token.Some? ==> token.value < |u|) && Right(u, token, x)
    ensures token.Some? <==> x.Some?
  {
  }

  lemma StrayStep(token: Option<nat>, tokens: seq<Option<nat>>, xs: seq<Option<Attr>>)
    requires |tokens| + 1 == |xs| && (token.Some? ==> xs[0].Some?)
    ensures Stray([token] + tokens, xs) <==> Stray(tokens, xs[1..])
  {
    var all := [token] + tokens;
    assert forall i | 0 <= i < |tokens| :: all[i + 1] == tokens[i] && xs[i + 1] == xs[1..][i];
    assert forall i | 1 <= i < |all| :: all[i] == tokens[i - 1] && xs[i] == xs[1..][i - 1];
  }

  lemma StrayFirst(u: seq<char>, tokens: seq<Option<nat>>, xs: seq<Option<Attr>>)
    requires Terminated(u) && |tokens| == |xs|
    requires forall i | 0 <= i < |tokens| :: tokens[i].Some? ==> tokens[i].value < |u|
    requires xs != [] && tokens[0].Some? && xs[0] == None
    ensures Stray(tokens, xs) && !ReadAs(u, tokens, xs)
  {
  }

  /**
   * A header with attributes missing is parsed to those that are there, and the others give no token, exactly if no
   * missing key occurs in what follows; if one does, a missing attribute gets a token.
   */
  lemma {:induction false} SparseRoundTripIff(t: seq<char>, p: Option<nat>, ks: seq<seq<char>>, xs: seq<Option<Attr>>)
    requires Terminated(t) && (p.Some? ==> p.value < |t|) && |ks| == |xs|
    requires (forall k | k in ks :: IsKey(k)) && Stands(t, p, ks, xs)
    ensures forall k | k in ks :: NUL !in k
    ensures var (u, tokens) := ParseAll(t, p, ks);
            && (ReadAs(u, tokens, xs) <==> MissingAreAbsent(ks, xs))
            && (Stray(tokens, xs) <==> !MissingAreAbsent(ks, xs))
    decreases |ks|
  {
    hide Stands, IsKey, ParseToken, Absent, ReadAs, Right, Stray;
    KeysHaveNoNul(ks);
    ParseAllStep(t, p, ks);
    if ks == [] {
      NothingRead(t);
    } else {
      var one := ParseToken(t, p, ks[0]);
      var (u, tokens) := ParseAll(one.text, one.cursor, ks[1..]);
      if xs[0] == None && !Absent(ks[0], PresentText(ks, xs)) {
        MissingToken(t, p, ks, xs);
        StrayFirst(u, [one.token] + tokens, xs);
      } else {
        TokenRight(t, p, ks, xs);
        SparseRoundTripIff(one.text, one.cursor, ks[1..], xs[1..]);
        ReadAsStep(u, one.token, tokens, xs);
      }
    }
  }

  lemma NothingRead(u: seq<char>)
    requires Terminated(u)
    ensures ReadAs(u, [], []) && !Stray([], [])
  {
  }

  /** The first token is that of the first attribute, the buffer behind it stands for the others, and it stays. */
  lemma TokenRight(t: seq<char>, p: Option<nat>, ks: seq<seq<char>>, xs: seq<Option<Attr>>)
    requires Terminated(t) && (p.Some? ==> p.value < |t|) && ks != [] && |ks| == |xs|
    requires (forall k | k in ks :: IsKey(k)) && Stands(t, p, ks, xs)
    requires xs[0] == None ==> Absent(ks[0], PresentText(ks, xs))
    ensures forall k | k in ks :: NUL !in k
    ensures var one := ParseToken(t, p, ks[0]);
            && Terminated(one.text) && (one.cursor.Some? ==> one.cursor.value < |one.text|)
            && Stands(one.text, one.cursor, ks[1..], xs[1..])
            && (one.token.Some? ==> one.token.value < |one.text|)
            && Right(ParseAll(one.text, one.cursor, ks[1..]).0, one.token, xs[0])
  {
    hide Written, Plain, IsKey, StringAt, StrEnd, PresentText, AllWritten, ParseToken, Absent;
    KeysHaveNoNul(ks);
    assert ks[0] in ks && xs[0] in xs;
    PresentStep(ks, xs);
    ParseTokenShape(t, p, ks[0]);
    if xs[0] == None {
      MissingToken(t, p, ks, xs);
    } else {
      var more := if Present(ks[1..], xs[1..]).0 == [] then [NUL]
          else [COMMA] + (PresentText(ks[1..], xs[1..]) + [NUL]);
      assert t[p.value..] == Written(ks[0], xs[0].value) + more;
      AttrParsed(t, p.value, ks[0], xs[0].value, more);
      var one := ParseToken(t, p, ks[0]);
      ParseAllKeeps(one.text, one.token.value, one.cursor, ks[1..]);
    }
  }

  /** The search for a missing key finds it exactly if it occurs in what follows. */
  lemma MissingToken(t: seq<char>, p: Option<nat>, ks: seq<seq<char>>, xs: seq<Option<Attr>>)
    requires Terminated(t) && (p.Some? ==> p.value < |t|) && ks != [] && |ks| == |xs|
    requires (forall k | k in ks :: IsKey(k)) && xs[0] == None && Stands(t, p, ks, xs)
    ensures NUL !in ks[0]
    ensures if Absent(ks[0], PresentText(ks, xs)) then ParseToken(t, p, ks[0]) == Parsed(t, None, p)
            else ParseToken(t, p, ks[0]).token.Some?
  {
    hide Here, PresentText, Absent, IsKey, Plain, StrStr, StrChr, StrEnd;
    var s, k := PresentText(ks, xs), ks[0];
    assert k in ks;
    KeysHaveNoNul(ks);
    KeyIsLong(k);
    if p == None {
      NothingPresent(ks, xs);
    } else if Absent(k, s) {
      NotFound(t, p.value, p.value, s, k);
    } else {
      var i := Occurrence(k, s);
      TextHasNoNul(ks, xs);
      KeyFoundBehind(t, p.value, s, i, k);
    }
  }

  lemma KeyIsLong(k: seq<char>)
    requires IsKey(k)
    ensures 2 <= |k|
  {
  }

  lemma NothingPresent(ks: seq<seq<char>>, xs: seq<Option<Attr>>)
    requires ks != [] && |ks| == |xs| && IsKey(ks[0]) && Present(ks, xs).0 == []
    ensures Absent(ks[0], PresentText(ks, xs))
  {
    hide Present;
  }

  lemma Occurrence(k: seq<char>, s: seq<char>) returns (i: nat)
    requires !Absent(k, s)
    ensures i <= |s| && Here(s, i, k)
  {
    i :| 0 <= i <= |s| && Here(s, i, k);
  }

  lemma KeyFoundBehind(t: seq<char>, p: nat, s: seq<char>, i: nat, k: seq<char>)
    requires Terminated(t) && p < |t| && t[p..] == s + [NUL] && NUL !in s
    requires i <= |s| && Here(s, i, k) && k != [] && NUL !in k
    ensures StrStr(t, p, k).Some?
  {
    hide StrStr;
    assert forall j | 0 <= j < |s| :: t[p + j] == t[p..][j] == s[j];
    assert t[p + i..p + i + |k|] == s[i..i + |k|];
    KeyFoundLater(t, p, p + i, k);
  }

  lemma {:induction false} KeyFoundLater(t: seq<char>, p: nat, b: nat, k: seq<char>)
    requires Terminated(t) && p <= b < |t| && k != [] && NUL !in k && Here(t, b, k)
    requires forall i | p <= i < b :: t[i] != NUL
    ensures StrStr(t, p, k).Some?
    decreases b - p
  {
    hide Here;
    if p < b {
      KeyFoundLater(t, p + 1, b, k);
    }
  }

  lemma {:induction false} TextHasNoNul(ks: seq<seq<char>>, xs: seq<Option<Attr>>)
    requires |ks| == |xs| && (forall k | k in ks :: IsKey(k)) && forall x | x in xs :: x.Some? ==> Plain(x.value)
    ensures NUL !in PresentText(ks, xs)
    decreases |ks|
  {
    hide PresentText, IsKey, Plain, Written;
    if ks == [] {
      NoText(ks, xs);
    } else {
      assert ks[0] in ks && xs[0] in xs;
      PresentStep(ks, xs);
      TextHasNoNul(ks[1..], xs[1..]);
      if xs[0].Some? {
        WrittenHasNoNul(ks[0], xs[0].value);
      }
    }
  }

  lemma NoText(ks: seq<seq<char>>, xs: seq<Option<Attr>>)
    requires ks == [] && xs == []
    ensures PresentText(ks, xs) == []
  {
  }

  lemma WrittenHasNoNul(k: seq<char>, a: Attr)
    requires IsKey(k) && Plain(a)
    ensures NUL !in Written(k, a)
  {
  }

  /** The buffer of a header with some of the five attributes, behind the scheme and a separator. */
  function HeaderText(separator: char, xs: seq<Option<Attr>>): seq<char>
    requires |xs| == 5
  {
    SCHEME + [separator] + PresentText(KEYS, xs) + [NUL]
  }

  /** What is parsed off a buffer behind the scheme. */
  function ParseHeader(t: seq<char>): (r: (seq<char>, seq<Option<nat>>))
    requires Terminated(t) && 6 <= |t|
    ensures Terminated(r.0) && |r.1| == 5 && forall i | 0 <= i < 5 :: r.1[i].Some? ==> r.1[i].value < |r.0|
  {
    KeysHaveNoNul(KEYS);
    ParseAll(t[4 := NUL], Some(5), KEYS)
  }

  /**
   * Parsing it fills in the attributes that are there, each with the value written, and no other, exactly if the key
   * of none that is missing occurs in the text behind its place; otherwise a missing one is filled in.
   */
  lemma HeaderIff(separator: char, xs: seq<Option<Attr>>)
    requires |xs| == 5 && separator != NUL && forall x | x in xs :: x.Some? ==> Plain(x.value)
    ensures var t := HeaderText(separator, xs);
            && Terminated(t) && Here(t, 0, SCHEME) && 5 <= StrEnd(t, 0)
            && var (u, tokens) := ParseHeader(t);
               && (ReadAs(u, tokens, xs) <==> MissingAreAbsent(KEYS, xs))
               && (Stray(tokens, xs) <==> !MissingAreAbsent(KEYS, xs))
  {
    hide ParseAll, PresentText, Plain, IsKey, ReadAs, Stray, MissingAreAbsent;
    KeysAreKeys();
    var t := HeaderText(separator, xs);
    assert t[0] == 'H' && t[1] == 'a' && t[2] == 'w' && t[3] == 'k' && t[4] == separator;
    assert t[4 := NUL][5..] == PresentText(KEYS, xs) + [NUL];
    SparseRoundTripIff(t[4 := NUL], Some(5), KEYS, xs);
  }

  /** With all five there, all five are filled in. */
  lemma HeaderRoundTrip(separator: char, xs: seq<Option<Attr>>)
    requires |xs| == 5 && separator != NUL && forall x | x in xs :: x.Some? && Plain(x.value)
    ensures var t := HeaderText(separator, xs);
            Terminated(t) && 6 <= |t| && ReadAs(ParseHeader(t).0, ParseHeader(t).1, xs)
  {
    hide ParseHeader, HeaderText, Plain, ReadAs;
    HeaderIff(separator, xs);
    NothingMissing(KEYS, xs);
  }

  lemma NothingMissing(ks: seq<seq<char>>, xs: seq<Option<Attr>>)
    requires |ks| == |xs| && forall x | x in xs :: x.Some?
    ensures MissingAreAbsent(ks, xs)
  {
  }

  const ID := Attr("", "a", true)
  const NONCE := Attr(" ", "ts=1", true)
  const MAC := Attr(" ", "m", true)

  lemma MacText()
    ensures Present(["mac="], [Some(MAC)]).0 != [] && PresentText(["mac="], [Some(MAC)]) == " mac=\"m\""
  {
  }

  lemma NonceText()
    ensures Present(["nonce=", "ext=", "mac="], [Some(NONCE), None, Some(MAC)]).0 != []
    ensures PresentText(["nonce=", "ext=", "mac="], [Some(NONCE), None, Some(MAC)]) == " nonce=\"ts=1\", mac=\"m\""
  {
    hide PresentText;
    var ks, xs := ["nonce=", "ext=", "mac="], [Some(NONCE), None, Some(MAC)];
    assert ks[1..] == ["ext=", "mac="] && xs[1..] == [None, Some(MAC)];
    assert ks[1..][1..] == ["mac="] && xs[1..][1..] == [Some(MAC)];
    MacText();
    PresentStep(ks[1..], xs[1..]);
    PresentStep(ks, xs);
  }

  const SOME_MISSING := [Some(ID), None, Some(NONCE), None, Some(MAC)]

  lemma FirstMissing()
    ensures Present(KEYS[1..], SOME_MISSING[1..]).0 != []
    ensures PresentText(KEYS[1..], SOME_MISSING[1..]) == " nonce=\"ts=1\", mac=\"m\""
  {
    hide PresentText, Present;
    var ks, xs := KEYS[1..], SOME_MISSING[1..];
    KeySlices();
    assert ks[1..] == ["nonce=", "ext=", "mac="] && xs[1..] == [Some(NONCE), None, Some(MAC)];
    NonceText();
    PresentStep(ks, xs);
    PresentMore(ks, xs);
  }

  lemma AllText()
    ensures PresentText(KEYS, SOME_MISSING) == "id=\"a\", nonce=\"ts=1\", mac=\"m\""
  {
    hide PresentText, Present;
    hide PresentText, Present;
    FirstMissing();
    PresentStep(KEYS, SOME_MISSING);
    assert Written("id=", ID) == "id=\"a\"";
  }

  lemma TimestampOccurs()
    ensures !MissingAreAbsent(KEYS, SOME_MISSING)
  {
    hide PresentText, Present;
    FirstMissing();
    var s := PresentText(KEYS[1..], SOME_MISSING[1..]);
    assert s[8..8 + 3] == "ts=";
    assert Here(s, 8, KEYS[1]);
    assert !Absent(KEYS[1..][0], s);
    assert !MissingAreAbsent(KEYS[1..], SOME_MISSING[1..]);
  }

  /** A header in which the search for the time stamp takes its token out of the nonce. */
  lemma NonceGivesTimestamp()
    ensures PresentText(KEYS, SOME_MISSING) == "id=\"a\", nonce=\"ts=1\", mac=\"m\""
    ensures Stray(ParseHeader(HeaderText(' ', SOME_MISSING)).1, SOME_MISSING)
  {
    hide ParseHeader, Stray, PresentText, MissingAreAbsent, HeaderText, ReadAs, KEYS;
    AllText();
    TimestampOccurs();
    HeaderIff(' ', SOME_MISSING);
  }

  lemma PresentMore(ks: seq<seq<char>>, xs: seq<Option<Attr>>)
    requires ks != [] && |ks| == |xs| && Present(ks[1..], xs[1..]).0 != []
    ensures Present(ks, xs).0 != []
  {
  }
}
