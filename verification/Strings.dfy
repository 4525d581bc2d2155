/** The string helpers: lower-casing and clean-up in place, and joining into a buffer. */
module Strings {
  import opened Basics
  import Headers

  /** Lower-cases the first `len` characters of a buffer, or the whole string if `len` is 0. */
  method StringToLowercase(s: array<char>, len: nat, ghost n: nat)
    requires IsString(s, n) && len <= n
    modifies s
    ensures var l := if len == 0 then n else len;
            s[..] == Headers.Lowered(old(s[..])[..l]) + old(s[..])[l..]
  {
    ghost var before := s[..];
    var l := len;
    if l == 0 {
      l := StrLen(s, n);
    }
    for i := 0 to l
      invariant forall k | 0 <= k < i :: s[k] == Headers.LowerChar(before[k])
      invariant forall k | i <= k < s.Length :: s[k] == before[k]
    {
      s[i] := Headers.LowerChar(s[i]);
    }
  }

  method StrLen(s: array<char>, ghost n: nat) returns (l: nat)
    requires IsString(s, n)
    ensures l == n
  {
    l := 0;
    while s[l] != '\0'
      invariant l <= n
      decreases n - l
    {
      l := l + 1;
    }
  }

  /**
   * A double quote becomes a single one; control characters, and bytes above 0x7f, which count as negative, a caret.
   */
  function CleanChar(c: char): char {
    if c == '"' then '\''
    else if c as int < 0x20 || 0x80 <= c as int then '^'
    else c
  }

  /** Every other character stays as it is. */
  lemma CleanChars(c: char)
    ensures CleanChar(c) == c <==> c != '"' && ' ' <= c <= '\U{7f}'
    ensures CleanChar('"') == '\'' && (c < ' ' || '\U{7f}' < c ==> CleanChar(c) == '^')
  {
  }

  method Unquote(s: array<char>, ghost n: nat)
    requires IsString(s, n)
    modifies s
    ensures IsString(s, n)
    ensures forall k | 0 <= k < n :: s[k] == CleanChar(old(s[k])) && 0x20 <= s[k] as int < 0x80 && s[k] != '"'
    ensures forall k | n <= k < s.Length :: s[k] == old(s[k])
  {
    var length := StrLen(s, n);
    for i := 0 to length
      invariant forall k | 0 <= k < i :: s[k] == CleanChar(old(s[k]))
      invariant forall k | i <= k < s.Length :: s[k] == old(s[k])
    {
      if s[i] == '"' {
        s[i] := '\'';
      } else if (s[i] as int < 0x20) || 0x80 <= s[i] as int {
        s[i] := '^';
      }
    }
  }

  // ---------- joining ----------

  function Bracket(c: char): seq<char> {
    if c == '\0' then [] else [c]
  }

  function Commas(list: seq<seq<char>>): seq<char> {
    if list == [] then [] else if |list| == 1 then list[0] else list[0] + [','] + Commas(list[1..])
  }

  /** Joins a list into a buffer; the delimiter that is passed in is not used, a comma always is. */
  method StrJoin(buf: seq<char>, list: seq<seq<char>>, start: char, stop: char, delim: char) returns (r: seq<char>)
    ensures r == if list == [] then buf else buf + Bracket(start) + Commas(list) + Bracket(stop)
  {
    r := buf;
    if |list| < 1 {
      return;
    }
    if start != '\0' {
      r := r + [start];
    }
    ghost var open := r;
    var at := 0;
    var i := |list| - 1;
    while i > 0
      invariant 0 <= i < |list| && at == |list| - 1 - i
      invariant open + Commas(list) == r + Commas(list[at..])
      decreases i
    {
      assert list[at..][1..] == list[at + 1..];
      r := r + list[at] + [','];
      at := at + 1;
      i := i - 1;
    }
    assert list[at..] == [list[at]];
    r := r + list[at];
    if stop != '\0' {
      r := r + [stop];
    }
  }

  /** The parts between commas. */
  function Split(s: seq<char>): (parts: seq<seq<char>>)
    ensures parts != []
  {
    if s == [] then [[]]
    else
      var rest := Split(s[1..]);
      if s[0] == ',' then [[]] + rest else [[s[0]] + rest[0]] + rest[1..]
  }

  lemma {:induction false} SplitWord(w: seq<char>, rest: seq<char>)
    requires ',' !in w
    ensures Split(w) == [w]
    ensures Split(w + [','] + rest) == [w] + Split(rest)
  {
    if w == [] {
      assert w + [','] + rest == [','] + rest && ([','] + rest)[1..] == rest;
    } else {
      SplitWord(w[1..], rest);
      assert (w + [','] + rest)[1..] == w[1..] + [','] + rest;
      assert ',' != w[0] && [w[0]] + w[1..] == w;
    }
  }

  function CommaCount(s: seq<char>): nat {
    if s == [] then 0 else (if s[0] == ',' then 1 else 0) + CommaCount(s[1..])
  }

  lemma {:induction false} SplitCount(s: seq<char>)
    ensures |Split(s)| == CommaCount(s) + 1
  {
    if s != [] {
      SplitCount(s[1..]);
    }
  }

  lemma {:induction false} CountConcat(a: seq<char>, b: seq<char>)
    ensures CommaCount(a + b) == CommaCount(a) + CommaCount(b)
  {
    if a == [] {
      assert a + b == b;
    } else {
      assert (a + b)[1..] == a[1..] + b;
      CountConcat(a[1..], b);
    }
  }

  lemma {:induction false} CommaIsCounted(w: seq<char>)
    requires ',' in w
    ensures CommaCount(w) >= 1
  {
    if w[0] != ',' {
      CommaIsCounted(w[1..]);
    }
  }

  ghost predicate NoCommas(list: seq<seq<char>>) {
    forall w | w in list :: ',' !in w
  }

  /** A joined list has a comma between any two parts, and more if a part has one of its own. */
  lemma {:induction false} JoinedCount(list: seq<seq<char>>)
    requires list != []
    ensures CommaCount(Commas(list)) >= |list| - 1
    ensures !NoCommas(list) ==> CommaCount(Commas(list)) >= |list|
  {
    var w, rest := list[0], list[1..];
    if ',' in w {
      CommaIsCounted(w);
    }
    if rest != [] {
      JoinedCount(rest);
      CountConcat(w + [','], Commas(rest));
      CountConcat(w, [',']);
      assert CommaCount([',']) == 1;
      assert list == [w] + rest;
    }
  }

  /** A joined list can be taken apart into the same parts again exactly if none of them has a comma. */
  lemma JoinSplitsIff(list: seq<seq<char>>)
    requires list != []
    ensures Split(Commas(list)) == list <==> NoCommas(list)
  {
    if NoCommas(list) {
      JoinSplits(list);
    } else {
      JoinedCount(list);
      SplitCount(Commas(list));
    }
  }

  /** So can one between brackets, once they are taken off; a bracket that is the zero character is not written. */
  lemma BracketedSplitsIff(list: seq<seq<char>>, start: char, stop: char)
    requires list != [] && start != '\0' && stop != '\0'
    ensures var s := Bracket(start) + Commas(list) + Bracket(stop);
            && 2 <= |s| && s[0] == start && s[|s| - 1] == stop
            && (Split(s[1..|s| - 1]) == list <==> NoCommas(list))
    ensures Bracket('\0') + Commas(list) + Bracket('\0') == Commas(list)
  {
    var s := Bracket(start) + Commas(list) + Bracket(stop);
    assert s[1..|s| - 1] == Commas(list);
    JoinSplitsIff(list);
  }

  lemma {:induction false} JoinSplits(list: seq<seq<char>>)
    requires list != [] && NoCommas(list)
    ensures Split(Commas(list)) == list
  {
    assert list[0] in list;
    SplitWord(list[0], if |list| == 1 then [] else Commas(list[1..]));
    if |list| > 1 {
      JoinSplits(list[1..]);
    }
  }
}
