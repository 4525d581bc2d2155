/**
 * The reply to a query: a state machine over the results of a connection that writes JSON as it goes. The
 * reply buffer is a list of tokens.
 */
module ResponseStream {
  import opened Wrappers

  /** One token of the reply. */
  datatype Token =
    | Opening(code: nat)      // {"code":N,"result":[ with a blank behind
    | Closing(items: nat)     // ],"items":N}
    | NoItems(code: nat)      // {"code":N,"items":0}
    | Failure(status: nat)    // a whole error object
    | LBrace | RBrace | Comma | Blank
    | Key(name: string)
    | Text(text: string) | Base64(bytes: string) | Null | Raw(json: string)
    | Damaged(token: Token)   // a token whose last character was overwritten

  datatype Column = Column(name: string, binary: bool)

  /** A value, or NULL. */
  type Value = Option<string>

  const COMMAND_OK := 1
  const TUPLES_OK := 2
  const SINGLE_TUPLE := 9

  const HTTP_OK := 200
  const HTTP_BAD_REQUEST := 400
  const HTTP_INTERNAL_ERROR := 500

  datatype PgResult = PgResult(status: nat, columns: seq<Column>, rows: seq<seq<Value>>)

  /** Rows are as wide as the header; a single tuple is one row. */
  ghost predicate ValidResult(r: PgResult) {
    && (forall i | 0 <= i < |r.rows| :: |r.rows[i]| == |r.columns|)
    && (r.status == SINGLE_TUPLE ==> |r.rows| == 1)
  }

  /** A result, and whether the waits for it, however many, ended with it being ready. */
  datatype Fetch = Fetch(ready: bool, result: PgResult)

  ghost predicate ValidTrace(trace: seq<Fetch>) {
    forall i | 0 <= i < |trace| :: ValidResult(trace[i].result)
  }

  // ---------- rows ----------

  predicate JsonAt(name: string, k: nat) {
    k + 4 <= |name| && name[k..k + 4] == "json"
  }

  /** The place of the first "json" in a column name at or after `i`. */
  function JsonFrom(name: string, i: nat): (p: Option<nat>)
    ensures p.Some? ==> i <= p.value && JsonAt(name, p.value)
    ensures forall k | i <= k :: JsonAt(name, k) ==> p.Some? && p.value <= k
    decreases |name| - i
  {
    if |name| < i + 4 then None else if JsonAt(name, i) then Some(i) else JsonFrom(name, i + 1)
  }

  predicate IsJson(c: Column) {
    JsonFrom(c.name, 0).Some?
  }

  /** The member name of a json column: what follows "json" and one more character, or "json" itself. */
  function JsonName(c: Column): string
    requires IsJson(c)
  {
    var p := JsonFrom(c.name, 0).value;
    if |c.name| - p > 5 then c.name[p + 5..] else "json"
  }

  function ValueToken(c: Column, v: Value): Token {
    if !c.binary then Text(if v == None then "" else v.value)
    else if v == None then Null
    else Base64(v.value)
  }

  /** A json value goes out as it is; NULL is an empty string and leaves no token. */
  function JsonTokens(v: Value): seq<Token> {
    if v == None then [] else [Raw(v.value)]
  }

  function CellTokens(c: Column, v: Value, many: bool, inObject: bool): seq<Token> {
    if IsJson(c) then (if many then [Key(JsonName(c))] else []) + JsonTokens(v)
    else (if inObject then [] else [LBrace]) + [Key(c.name), ValueToken(c, v)]
  }

  /** The tokens of a row from column `col` on. */
  function RowFrom(cs: seq<Column>, row: seq<Value>, col: nat, inObject: bool): seq<Token>
    requires col <= |cs| == |row|
    decreases |cs| - col
  {
    if col == |cs| then [] else
      var inside := inObject || !IsJson(cs[col]);
      CellTokens(cs[col], row[col], |cs| > 1, inObject)
      + CellEnd(cs, col, inside)
      + RowFrom(cs, row, col + 1, inside)
  }

  function Row(cs: seq<Column>, row: seq<Value>): seq<Token>
    requires |cs| == |row|
  {
    RowFrom(cs, row, 0, false)
  }

  /** Rows from `i` on: a comma between rows, and after the last one too while rows come singly. */
  function RowsFrom(r: PgResult, i: nat, single: bool): seq<Token>
    requires ValidResult(r) && i <= |r.rows|
    decreases |r.rows| - i
  {
    if i == |r.rows| then [] else
      Row(r.columns, r.rows[i]) + (if single || i < |r.rows| - 1 then [Comma] else []) + RowsFrom(r, i + 1, single)
  }

  // ---------- the state machine ----------

  datatype State = State(toks: seq<Token>, items: nat, status: nat, single: bool)

  /** How a response ends: with an HTTP status, or by overwriting the byte before an empty buffer. */
  datatype Outcome = Status(code: nat) | Underrun

  predicate IsTuples(r: PgResult) {
    r.status == TUPLES_OK || r.status == SINGLE_TUPLE
  }

  predicate IsFatal(r: PgResult) {
    r.status != COMMAND_OK && !IsTuples(r)
  }

  /** In the numbers of libpq: neither a command that is done nor rows, all or one. */
  lemma FatalIs(r: PgResult)
    ensures IsFatal(r) <==> r.status !in {1, 2, 9}
    ensures IsTuples(r) <==> r.status in {2, 9}
  {
  }

  function Blanked(toks: seq<Token>): seq<Token>
    requires toks != []
  {
    var last := toks[|toks| - 1];
    toks[..|toks| - 1] + [if last == Comma || last == Blank then Blank else Damaged(last)]
  }

  /** A comma becomes a blank, a blank stays, and anything else loses its last character. */
  lemma BlankedIs(toks: seq<Token>, last: Token)
    ensures Blanked(toks + [last]) == toks + [if last in {Comma, Blank} then Blank else Damaged(last)]
  {
  }

  predicate Emits(r: PgResult) {
    r.rows != [] && r.columns != []
  }

  /** A result with tuples; None is the write before the buffer. */
  function TakeTuples(s: State, r: PgResult): Option<State>
    requires ValidResult(r) && IsTuples(r)
  {
    var single := s.single || r.status == SINGLE_TUPLE;
    if Emits(r) then
      Some(State(s.toks + (if s.items == 0 then [Opening(r.status)] else []) + RowsFrom(r, 0, single),
                 (s.items + |r.rows|) % 0x1_0000_0000, r.status, single))
    else if r.status == TUPLES_OK && single then
      if s.toks == [] then None else Some(State(Blanked(s.toks), s.items, r.status, single))
    else Some(s.(status := r.status, single := single))
  }

  function Finish(s: State): seq<Token> {
    s.toks + [if s.items != 0 then Closing(s.items) else NoItems(s.status)]
  }

  function Respond(s: State, trace: seq<Fetch>): (seq<Token>, Outcome)
    requires ValidTrace(trace)
    decreases |trace|
  {
    if trace == [] then (Finish(s), Status(HTTP_OK))
    else if !trace[0].ready then (s.toks + [Failure(HTTP_INTERNAL_ERROR)], Status(HTTP_INTERNAL_ERROR))
    else
      var r := trace[0].result;
      if r.status == COMMAND_OK then Respond(s.(status := r.status), trace[1..])
      else if IsFatal(r) then
        if |trace| == 1 then ([Failure(HTTP_BAD_REQUEST)], Status(HTTP_BAD_REQUEST))
        else Respond(s.(status := r.status), trace[1..])
      else
        var t := TakeTuples(s, r);
        if t == None then (s.toks, Underrun) else Respond(t.value, trace[1..])
  }

  function Start(toks: seq<Token>): State {
    State(toks, 0, 0, false)
  }

  class XBuf {
    var toks: seq<Token>

    constructor ()
      ensures toks == []
    {
      toks := [];
    }

    method Cat(t: Token)
      modifies this
      ensures toks == old(toks) + [t]
    {
      toks := toks + [t];
    }

    method Reset()
      modifies this
      ensures toks == []
    {
      toks := [];
    }
  }

  function CellEnd(cs: seq<Column>, col: nat, inside: bool): seq<Token> {
    if col + 1 < |cs| then [Comma] else if inside then [RBrace] else []
  }

  lemma RowStep(toks: seq<Token>, cs: seq<Column>, row: seq<Value>, col: nat, inObject: bool)
    requires col <= |cs| == |row|
    ensures col == |cs| ==> RowFrom(cs, row, col, inObject) == []
    ensures col < |cs| ==>
              var inside := inObject || !IsJson(cs[col]);
              toks + RowFrom(cs, row, col, inObject)
                == toks + CellTokens(cs[col], row[col], |cs| > 1, inObject) + CellEnd(cs, col, inside)
                    + RowFrom(cs, row, col + 1, inside)
  {
    hide CellTokens, CellEnd, IsJson;
    if col < |cs| {
      var inside := inObject || !IsJson(cs[col]);
      var a, b := CellTokens(cs[col], row[col], |cs| > 1, inObject), CellEnd(cs, col, inside);
      assert toks + (a + b + RowFrom(cs, row, col + 1, inside)) == toks + a + b + RowFrom(cs, row, col + 1, inside);
    }
  }

  method WriteRow(rep: XBuf, cs: seq<Column>, row: seq<Value>)
    requires |cs| == |row|
    modifies rep
    ensures rep.toks == old(rep.toks) + Row(cs, row)
  {
    hide RowFrom, CellTokens, IsJson;
    var inObject := false;
    var col := 0;
    while col < |cs|
      invariant col <= |cs|
      invariant old(rep.toks) + RowFrom(cs, row, 0, false) == rep.toks + RowFrom(cs, row, col, inObject)
    {
      RowStep(rep.toks, cs, row, col, inObject);
      inObject := WriteCell(rep, cs[col], row[col], |cs| > 1, inObject);
      if col < |cs| - 1 {
        rep.Cat(Comma);
      } else if inObject {
        rep.Cat(RBrace);
      }
      col := col + 1;
    }
    RowStep(rep.toks, cs, row, col, inObject);
  }

  method WriteCell(rep: XBuf, c: Column, v: Value, many: bool, inObject: bool) returns (inside: bool)
    modifies rep
    ensures rep.toks == old(rep.toks) + CellTokens(c, v, many, inObject)
    ensures inside == (inObject || !IsJson(c))
  {
    hide JsonName;
    inside := inObject;
    if !IsJson(c) {
      if !inside {
        rep.Cat(LBrace);
        inside := true;
      }
      rep.Cat(Key(c.name));
      rep.Cat(ValueToken(c, v));
    } else {
      if many {
        rep.Cat(Key(JsonName(c)));
      }
      if v.Some? {
        rep.Cat(Raw(v.value));
      }
    }
  }

  lemma RowsStep(toks: seq<Token>, r: PgResult, i: nat, single: bool)
    requires ValidResult(r) && i <= |r.rows|
    ensures i == |r.rows| ==> RowsFrom(r, i, single) == []
    ensures i < |r.rows| ==>
              toks + RowsFrom(r, i, single)
                == toks + Row(r.columns, r.rows[i])
                   + (if single || i < |r.rows| - 1 then [Comma] else []) + RowsFrom(r, i + 1, single)
  {
    hide Row;
  }

  method WriteRows(rep: XBuf, r: PgResult, single: bool)
    requires ValidResult(r)
    modifies rep
    ensures rep.toks == old(rep.toks) + RowsFrom(r, 0, single)
  {
    hide Row, RowsFrom;
    var i := 0;
    while i < |r.rows|
      invariant i <= |r.rows|
      invariant old(rep.toks) + RowsFrom(r, 0, single) == rep.toks + RowsFrom(r, i, single)
    {
      RowsStep(rep.toks, r, i, single);
      WriteRow(rep, r.columns, r.rows[i]);
      if single || i < |r.rows| - 1 {
        rep.Cat(Comma);
      }
      i := i + 1;
    }
    RowsStep(rep.toks, r, i, single);
  }

  /** Reads results until none is left, writing rows as they come. `readable` is the outcome of the first wait. */
  method DbResponse(rep: XBuf, readable: bool, trace: seq<Fetch>) returns (o: Outcome)
    requires ValidTrace(trace)
    modifies rep
    ensures (rep.toks, o) ==
            if readable then Respond(Start(old(rep.toks)), trace)
            else (old(rep.toks) + [Failure(500)], Status(500))
  {
    if !readable {
      rep.Cat(Failure(HTTP_INTERNAL_ERROR));
      return Status(HTTP_INTERNAL_ERROR);
    }
    var items: nat, status: nat, single := 0, 0, false;
    ghost var start := Start(rep.toks);
    var i := 0;
    while i < |trace|
      invariant i <= |trace|
      invariant Respond(start, trace) == Respond(State(rep.toks, items, status, single), trace[i..])
    {
      hide RowsFrom;
      ghost var s := State(rep.toks, items, status, single);
      assert trace[i..][1..] == trace[i + 1..] && trace[i..][0] == trace[i];
      assert s.toks + [] == s.toks && [] + [Failure(HTTP_BAD_REQUEST)] == [Failure(HTTP_BAD_REQUEST)];
      if !trace[i].ready {
        rep.Cat(Failure(HTTP_INTERNAL_ERROR));
        return Status(HTTP_INTERNAL_ERROR);
      }
      var r := trace[i].result;
      status := r.status;
      if status == COMMAND_OK {
      } else if status != TUPLES_OK && status != SINGLE_TUPLE {
        if i == |trace| - 1 {
          rep.Reset();
          rep.Cat(Failure(HTTP_BAD_REQUEST));
          return Status(HTTP_BAD_REQUEST);
        }
      } else {
        if status == SINGLE_TUPLE {
          single := true;
        }
        if r.rows != [] && r.columns != [] {
          if items == 0 {
            rep.Cat(Opening(status));
          }
          WriteRows(rep, r, single);
          items := (items + |r.rows|) % 0x1_0000_0000;
        } else if status == TUPLES_OK && single {
          if rep.toks == [] {
            return Underrun;
          }
          rep.toks := Blanked(rep.toks);
        }
      }
      i := i + 1;
    }
    if items != 0 {
      rep.Cat(Closing(items));
    } else {
      rep.Cat(NoItems(status));
    }
    o := Status(HTTP_OK);
  }

  // ---------- a reader of replies ----------

  datatype Json = Scalar(value: Token) | Object(members: seq<(string, Token)>)

  datatype Reply = Reply(code: nat, rows: seq<Json>, items: nat)

  predicate IsValue(t: Token) {
    t.Text? || t.Base64? || t.Null? || t.Raw?
  }

  function ParseMembers(ts: seq<Token>): Option<(seq<(string, Token)>, seq<Token>)>
    decreases |ts|
  {
    if |ts| < 3 || !ts[0].Key? || !IsValue(ts[1]) then None
    else if ts[2] == RBrace then Some(([(ts[0].name, ts[1])], ts[3..]))
    else if ts[2] != Comma then None
    else
      match ParseMembers(ts[3..])
      case None => None
      case Some((ms, rest)) => Some(([(ts[0].name, ts[1])] + ms, rest))
  }

  /** One value at the front of a list of tokens, and the tokens behind it. */
  function ParseJson(ts: seq<Token>): (r: Option<(Json, seq<Token>)>)
    ensures r.Some? ==> |r.value.1| < |ts|
  {
    if ts == [] then None
    else if IsValue(ts[0]) then Some((Scalar(ts[0]), ts[1..]))
    else if ts[0] != LBrace then None
    else
      MembersShrink(ts[1..]);
      match ParseMembers(ts[1..])
      case None => None
      case Some((ms, rest)) => Some((Object(ms), rest))
  }

  lemma {:induction false} MembersShrink(ts: seq<Token>)
    ensures ParseMembers(ts).Some? ==> |ParseMembers(ts).value.1| < |ts|
    decreases |ts|
  {
    if 3 <= |ts| {
      MembersShrink(ts[3..]);
    }
  }

  /** Values between commas up to the closing token, which a blank may precede. */
  function ParseRows(ts: seq<Token>): Option<(seq<Json>, nat)>
    decreases |ts|
  {
    match ParseJson(ts)
    case None => None
    case Some((j, rest)) =>
      if |rest| == 1 && rest[0].Closing? then Some(([j], rest[0].items))
      else if |rest| == 2 && rest[0] == Blank && rest[1].Closing? then Some(([j], rest[1].items))
      else if rest == [] || rest[0] != Comma then None
      else
        match ParseRows(rest[1..])
        case None => None
        case Some((js, n)) => Some(([j] + js, n))
  }

  function ParseReply(ts: seq<Token>): Option<Reply> {
    if |ts| == 1 && ts[0].NoItems? then Some(Reply(ts[0].code, [], 0))
    else if ts == [] || !ts[0].Opening? then None
    else
      match ParseRows(ts[1..])
      case None => None
      case Some((js, n)) => Some(Reply(ts[0].code, js, n))
  }

  // ---------- when a row is a value ----------

  function MemberName(c: Column): string {
    if IsJson(c) then JsonName(c) else c.name
  }

  function MemberValue(c: Column, v: Value): Token {
    if IsJson(c) then (if v.Some? then Raw(v.value) else Null) else ValueToken(c, v)
  }

  /**
   * A column is a json column by the first "json" in its name, and the name of its member is what follows the one
   * character behind that, or "json" if nothing does; any other column gives its own name.
   */
  lemma MemberNames(prefix: string, tail: string, binary: bool)
    requires forall k | 0 <= k < |prefix| :: !JsonAt(prefix + "json" + tail, k)
    ensures MemberName(Column(prefix + "json" + tail, binary)) == if |tail| <= 1 then "json" else tail[1..]
    ensures (forall k :: !JsonAt(prefix, k)) ==> MemberName(Column(prefix, binary)) == prefix
  {
    var name, p := prefix + "json" + tail, |prefix|;
    assert name[p..p + 4] == "json";
    assert JsonAt(name, p);
    if 1 < |tail| {
      assert name[p + 5..] == tail[1..];
    }
  }

  /** What a value is sent as: text, with NULL as the empty text, or binary data in base64, with NULL as such. */
  lemma ValuesTold(c: Column, v: Value, w: Value)
    ensures ValueToken(c, v).Text? <==> !c.binary
    ensures ValueToken(c, v).Null? <==> c.binary && v == None
    ensures v.Some? ==> ValueToken(c, v) in {Text(v.value), Base64(v.value)}
    ensures ValueToken(c, v) == ValueToken(c, w)
       <==> v == w || (!c.binary && v in {None, Some("")} && w in {None, Some("")})
  {
  }

  function MembersFrom(cs: seq<Column>, row: seq<Value>, col: nat): seq<(string, Token)>
    requires col <= |cs| == |row|
  {
    seq(|cs| - col, i requires 0 <= i < |cs| - col => (MemberName(cs[col + i]), MemberValue(cs[col + i], row[col + i])))
  }

  /** The value a row stands for: a lone json column by itself, else an object with its members in column order. */
  function RowValue(cs: seq<Column>, row: seq<Value>): Json
    requires 0 < |cs| == |row|
  {
    if |cs| == 1 && IsJson(cs[0]) then Scalar(MemberValue(cs[0], row[0])) else Object(MembersFrom(cs, row, 0))
  }

  ghost predicate NoNullJson(cs: seq<Column>, row: seq<Value>, col: nat)
    requires col <= |cs| == |row|
  {
    forall c | col <= c < |cs| :: IsJson(cs[c]) ==> row[c].Some?
  }

  /** One column, or a first column that is not json; and no json column is NULL. */
  ghost predicate GoodRow(cs: seq<Column>, row: seq<Value>)
    requires |cs| == |row|
  {
    cs != [] && (|cs| == 1 || !IsJson(cs[0])) && NoNullJson(cs, row, 0)
  }

  lemma RowHead(cs: seq<Column>, row: seq<Value>, col: nat)
    requires col < |cs| == |row|
    ensures RowFrom(cs, row, col, true)
         == CellTokens(cs[col], row[col], |cs| > 1, true) + CellEnd(cs, col, true) + RowFrom(cs, row, col + 1, true)
    ensures RowFrom(cs, row, |cs|, true) == []
  {
  }

  lemma MembersFromStep(cs: seq<Column>, row: seq<Value>, col: nat)
    requires col < |cs| == |row|
    ensures MembersFrom(cs, row, col)
         == [(MemberName(cs[col]), MemberValue(cs[col], row[col]))] + MembersFrom(cs, row, col + 1)
    ensures col + 1 == |cs| ==> MembersFrom(cs, row, col) == [(MemberName(cs[col]), MemberValue(cs[col], row[col]))]
  {
  }

  lemma MemberRead(name: string, v: Token, sep: Token, tail: seq<Token>)
    requires IsValue(v) && (sep == Comma || sep == RBrace)
    ensures ParseMembers([Key(name), v, sep] + tail)
         == if sep == RBrace then Some(([(name, v)], tail))
            else if ParseMembers(tail) == None then None
            else Some(([(name, v)] + ParseMembers(tail).value.0, ParseMembers(tail).value.1))
  {
    assert ([Key(name), v, sep] + tail)[3..] == tail;
  }

  lemma MemberMissing(name: string, sep: Token, tail: seq<Token>)
    requires !IsValue(sep)
    ensures ParseMembers([Key(name), sep] + tail) == None
  {
  }

  /** The tokens of one cell inside an object and of what separates it from the next. */
  lemma CellInObject(c: Column, v: Value, many: bool, sep: Token)
    requires many || !IsJson(c)
    ensures CellTokens(c, v, many, true) + [sep]
         == if IsJson(c) && v == None then [Key(MemberName(c)), sep] else [Key(MemberName(c)), MemberValue(c, v), sep]
    ensures (IsJson(c) ==> v.Some?) ==> IsValue(MemberValue(c, v))
  {
    hide IsJson, JsonName;
  }

  /** Inside an object the cells from `col` on read as the members from `col` on, unless a json value is missing. */
  lemma {:induction false} MembersParse(cs: seq<Column>, row: seq<Value>, col: nat, rest: seq<Token>)
    requires col < |cs| == |row| && (|cs| == 1 ==> !IsJson(cs[0]))
    ensures ParseMembers(RowFrom(cs, row, col, true) + rest)
         == if NoNullJson(cs, row, col) then Some((MembersFrom(cs, row, col), rest)) else None
    decreases |cs| - col
  {
    hide IsJson, RowFrom, MembersFrom, MemberName, MemberValue, CellTokens, ParseMembers, IsValue;
    RowHead(cs, row, col);
    MembersFromStep(cs, row, col);
    var c, v := cs[col], row[col];
    var last := col + 1 == |cs|;
    var sep := if last then RBrace else Comma;
    var tail := if last then rest else RowFrom(cs, row, col + 1, true) + rest;
    assert RowFrom(cs, row, col, true) + rest == CellTokens(c, v, |cs| > 1, true) + [sep] + tail;
    CellInObject(c, v, |cs| > 1, sep);
    assert NoNullJson(cs, row, col) <==> (IsJson(c) ==> v.Some?) && NoNullJson(cs, row, col + 1);
    if IsJson(c) && v == None {
      MemberMissing(MemberName(c), sep, tail) by { NotAValue(); }
    } else {
      MemberRead(MemberName(c), MemberValue(c, v), sep, tail);
      if !last {
        MembersParse(cs, row, col + 1, rest);
      }
    }
  }

  lemma NotAValue()
    ensures !IsValue(Comma) && !IsValue(RBrace)
  {
  }

  /** A good row reads as its value, whatever follows it. */
  lemma RowParses(cs: seq<Column>, row: seq<Value>, rest: seq<Token>)
    requires |cs| == |row| && GoodRow(cs, row)
    ensures ParseJson(Row(cs, row) + rest) == Some((RowValue(cs, row), rest))
  {
    hide IsJson, JsonName, ParseMembers, RowFrom, Row, CellTokens;
    if IsJson(cs[0]) {
      LoneJson(cs, row);
    } else {
      RowOpens(cs, row);
      assert (Row(cs, row) + rest)[1..] == RowFrom(cs, row, 0, true) + rest;
      MembersParse(cs, row, 0, rest);
    }
  }

  lemma LoneJson(cs: seq<Column>, row: seq<Value>)
    requires |cs| == |row| == 1 && IsJson(cs[0]) && row[0].Some?
    ensures Row(cs, row) == [Raw(row[0].value)]
  {
    hide IsJson, JsonName;
    assert RowFrom(cs, row, 1, false) == [];
  }

  lemma RowOpens(cs: seq<Column>, row: seq<Value>)
    requires 0 < |cs| == |row| && !IsJson(cs[0])
    ensures Row(cs, row) == [LBrace] + RowFrom(cs, row, 0, true)
  {
  }

  /** And only good rows are one value: the others do not read at all. */
  lemma RowParsesIff(cs: seq<Column>, row: seq<Value>)
    requires |cs| == |row|
    ensures ParseJson(Row(cs, row)).Some? && ParseJson(Row(cs, row)).value.1 == [] <==> GoodRow(cs, row)
  {
    hide IsJson, JsonName, ParseMembers;
    if GoodRow(cs, row) {
      RowParses(cs, row, []);
      assert Row(cs, row) + [] == Row(cs, row);
    } else if cs == [] {
      assert Row(cs, row) == [];
    } else if IsJson(cs[0]) {
      if |cs| == 1 {
        assert RowFrom(cs, row, 1, false) == [];
        assert Row(cs, row) == [];
      } else {
        assert Row(cs, row)[0] == Key(JsonName(cs[0]));
      }
    } else {
      RowOpens(cs, row);
      MembersParse(cs, row, 0, []);
      assert RowFrom(cs, row, 0, true) + [] == RowFrom(cs, row, 0, true) == Row(cs, row)[1..];
    }
  }

  // ---------- one tuple at a time, or all at once ----------

  /** A result set that comes one tuple at a time, closed by an empty result. */
  function Streamed(cs: seq<Column>, rows: seq<seq<Value>>): seq<Fetch> {
    if rows == [] then [Fetch(true, PgResult(TUPLES_OK, cs, []))]
    else [Fetch(true, PgResult(SINGLE_TUPLE, cs, [rows[0]]))] + Streamed(cs, rows[1..])
  }

  /** The same result set in one result. */
  function Batched(cs: seq<Column>, rows: seq<seq<Value>>): seq<Fetch> {
    [Fetch(true, PgResult(TUPLES_OK, cs, rows))]
  }

  ghost predicate Wide(cs: seq<Column>, rows: seq<seq<Value>>) {
    forall i | 0 <= i < |rows| :: |rows[i]| == |cs|
  }

  /** Rows with commas between them. */
  function Joined(cs: seq<Column>, rows: seq<seq<Value>>): seq<Token>
    requires Wide(cs, rows)
  {
    if rows == [] then []
    else if |rows| == 1 then Row(cs, rows[0])
    else Row(cs, rows[0]) + [Comma] + Joined(cs, rows[1..])
  }

  lemma {:induction false} BatchRows(r: PgResult, i: nat)
    requires ValidResult(r) && i <= |r.rows|
    ensures RowsFrom(r, i, false) == Joined(r.columns, r.rows[i..])
    decreases |r.rows| - i
  {
    hide Row;
    if i < |r.rows| {
      BatchRows(r, i + 1);
      assert r.rows[i..][1..] == r.rows[i + 1..];
      if i + 1 == |r.rows| {
        assert r.rows[i..] == [r.rows[i]];
        assert RowsFrom(r, i + 1, false) == [];
      }
    }
  }

  lemma SingleRow(cs: seq<Column>, row: seq<Value>)
    requires |row| == |cs|
    ensures RowsFrom(PgResult(SINGLE_TUPLE, cs, [row]), 0, true) == Row(cs, row) + [Comma]
  {
  }

  lemma {:induction false} StreamedValid(cs: seq<Column>, rows: seq<seq<Value>>)
    requires Wide(cs, rows)
    ensures ValidTrace(Streamed(cs, rows)) && ValidTrace(Batched(cs, rows))
  {
    if rows != [] {
      StreamedValid(cs, rows[1..]);
    }
  }

  /** With rows already written singly, the rest follow, and the comma behind the last one is blanked. */
  lemma {:induction false} StreamTail(toks: seq<Token>, n: nat, st: nat, cs: seq<Column>, rows: seq<seq<Value>>)
    requires Wide(cs, rows) && cs != [] && 0 < n && n + |rows| < 0x1_0000_0000
    ensures ValidTrace(Streamed(cs, rows))
    ensures Respond(State(toks + [Comma], n, st, true), Streamed(cs, rows))
         == (toks + (if rows == [] then [] else [Comma] + Joined(cs, rows)) + [Blank, Closing(n + |rows|)],
             Status(HTTP_OK))
    decreases |rows|
  {
    hide Row;
    StreamedValid(cs, rows);
    var s, trace := State(toks + [Comma], n, st, true), Streamed(cs, rows);
    if rows == [] {
      assert Blanked(toks + [Comma]) == toks + [Blank];
      assert trace[1..] == [];
      assert toks + [] + [Blank, Closing(n)] == toks + [Blank] + [Closing(n)];
    } else {
      SingleRow(cs, rows[0]);
      var r, more := Row(cs, rows[0]), rows[1..];
      assert trace[1..] == Streamed(cs, more);
      hide RowsFrom, Streamed;
      assert TakeTuples(s, trace[0].result)
          == Some(State(toks + [Comma] + [] + (r + [Comma]), n + 1, SINGLE_TUPLE, true));
      assert toks + [Comma] + [] + (r + [Comma]) == (toks + [Comma] + r) + [Comma];
      StreamTail(toks + [Comma] + r, n + 1, SINGLE_TUPLE, cs, more);
      JoinedStep(cs, rows);
      assert toks + [Comma] + r + (if more == [] then [] else [Comma] + Joined(cs, more))
          == toks + ([Comma] + Joined(cs, rows));
    }
  }

  lemma JoinedStep(cs: seq<Column>, rows: seq<seq<Value>>)
    requires Wide(cs, rows) && rows != []
    ensures Joined(cs, rows) == Row(cs, rows[0]) + if rows[1..] == [] then [] else [Comma] + Joined(cs, rows[1..])
  {
  }

  /** A stream of rows with columns: the rows between commas, and the comma behind the last one blanked. */
  lemma StreamReply(toks: seq<Token>, cs: seq<Column>, rows: seq<seq<Value>>)
    requires Wide(cs, rows) && cs != [] && 0 < |rows| < 0x1_0000_0000
    ensures ValidTrace(Streamed(cs, rows))
    ensures Respond(Start(toks), Streamed(cs, rows))
         == (toks + [Opening(SINGLE_TUPLE)] + Joined(cs, rows) + [Blank, Closing(|rows|)], Status(HTTP_OK))
  {
    hide Row;
    StreamedValid(cs, rows);
    var s, trace := Start(toks), Streamed(cs, rows);
    SingleRow(cs, rows[0]);
    var r, more := Row(cs, rows[0]), rows[1..];
    assert trace[1..] == Streamed(cs, more);
    hide RowsFrom, Streamed;
    assert TakeTuples(s, trace[0].result)
        == Some(State(toks + [Opening(SINGLE_TUPLE)] + (r + [Comma]), 1, SINGLE_TUPLE, true));
    assert toks + [Opening(SINGLE_TUPLE)] + (r + [Comma]) == (toks + [Opening(SINGLE_TUPLE)] + r) + [Comma];
    StreamTail(toks + [Opening(SINGLE_TUPLE)] + r, 1, SINGLE_TUPLE, cs, more);
    JoinedStep(cs, rows);
    assert toks + [Opening(SINGLE_TUPLE)] + r + (if more == [] then [] else [Comma] + Joined(cs, more))
        == toks + [Opening(SINGLE_TUPLE)] + Joined(cs, rows);
  }

  lemma BatchReply(toks: seq<Token>, cs: seq<Column>, rows: seq<seq<Value>>)
    requires Wide(cs, rows) && cs != [] && 0 < |rows| < 0x1_0000_0000
    ensures ValidTrace(Batched(cs, rows))
    ensures Respond(Start(toks), Batched(cs, rows))
         == (toks + [Opening(TUPLES_OK)] + Joined(cs, rows) + [Closing(|rows|)], Status(HTTP_OK))
  {
    hide Row, Joined;
    var r := PgResult(TUPLES_OK, cs, rows);
    BatchRows(r, 0);
    assert rows[0..] == rows;
    hide RowsFrom;
    assert Batched(cs, rows)[1..] == [];
  }

  ghost predicate AllGood(cs: seq<Column>, rows: seq<seq<Value>>) {
    cs != [] && Wide(cs, rows) && forall i | 0 <= i < |rows| :: |rows[i]| == |cs| && GoodRow(cs, rows[i])
  }

  ghost function Values(cs: seq<Column>, rows: seq<seq<Value>>): (js: seq<Json>)
    requires AllGood(cs, rows)
    ensures |js| == |rows|
  {
    if rows == [] then [] else [RowValue(cs, rows[0])] + Values(cs, rows[1..])
  }

  /** A token that can stand behind a row. */
  predicate EndsRow(t: Token) {
    t == Comma || t == Blank || t.Closing?
  }

  /** A row that is not good does not read as a value, whatever follows it. */
  lemma BadRowFails(cs: seq<Column>, row: seq<Value>, rest: seq<Token>)
    requires cs != [] && |cs| == |row| && !GoodRow(cs, row) && rest != [] && EndsRow(rest[0])
    ensures ParseJson(Row(cs, row) + rest) == None
  {
    hide IsJson, JsonName, ParseMembers;
    if !IsJson(cs[0]) {
      RowOpens(cs, row);
      MembersParse(cs, row, 0, rest);
      hide RowFrom;
      assert (Row(cs, row) + rest)[1..] == RowFrom(cs, row, 0, true) + rest;
    } else if |cs| == 1 {
      assert RowFrom(cs, row, 1, false) == [];
      assert Row(cs, row) + rest == rest;
    } else {
      assert (Row(cs, row) + rest)[0] == Key(JsonName(cs[0]));
    }
  }

  /** Rows between commas read as their values if all of them are good, and not at all if one is not. */
  lemma {:induction false} JoinedParse(cs: seq<Column>, rows: seq<seq<Value>>, end: seq<Token>, n: nat)
    requires cs != [] && Wide(cs, rows) && rows != []
    requires end == [Closing(n)] || end == [Blank, Closing(n)]
    ensures ParseRows(Joined(cs, rows) + end) == if AllGood(cs, rows) then Some((Values(cs, rows), n)) else None
    decreases |rows|
  {
    hide Row, RowValue, ParseJson, GoodRow, Joined, Values;
    var more := rows[1..];
    JoinedStep(cs, rows);
    var behind := if more == [] then end else [Comma] + (Joined(cs, more) + end);
    assert Joined(cs, rows) + end == Row(cs, rows[0]) + behind;
    if !GoodRow(cs, rows[0]) {
      BadRowFails(cs, rows[0], behind);
    } else {
      RowParses(cs, rows[0], behind);
      GoodRowsStep(cs, rows);
      if more != [] {
        assert behind[1..] == Joined(cs, more) + end;
        JoinedParse(cs, more, end, n);
      }
    }
  }

  lemma GoodRowsStep(cs: seq<Column>, rows: seq<seq<Value>>)
    requires cs != [] && Wide(cs, rows) && rows != [] && GoodRow(cs, rows[0])
    ensures AllGood(cs, rows) <==> AllGood(cs, rows[1..])
    ensures AllGood(cs, rows) ==> Values(cs, rows) == [RowValue(cs, rows[0])] + Values(cs, rows[1..])
    ensures AllGood(cs, rows) && rows[1..] == [] ==> Values(cs, rows) == [RowValue(cs, rows[0])]
  {
    hide GoodRow, RowValue;
    assert forall i | 1 <= i < |rows| :: rows[i] == rows[1..][i - 1];
  }

  /**
   * For any rows with columns, both ways of sending them give replies that can be read exactly if all rows are
   * good; they then read as the same rows in the same order, with their count.
   */
  lemma StreamingRefinesBatch(cs: seq<Column>, rows: seq<seq<Value>>)
    requires cs != [] && Wide(cs, rows) && |rows| < 0x1_0000_0000
    ensures ValidTrace(Streamed(cs, rows)) && ValidTrace(Batched(cs, rows))
    ensures var stream := ParseReply(Respond(Start([]), Streamed(cs, rows)).0);
            var batch := ParseReply(Respond(Start([]), Batched(cs, rows)).0);
            && (stream.Some? <==> AllGood(cs, rows)) && (batch.Some? <==> AllGood(cs, rows))
            && (stream.Some? ==> stream.value.rows == batch.value.rows == Values(cs, rows)
                                 && stream.value.items == batch.value.items == |rows|)
  {
    hide Joined, Values, ParseRows, Respond, Streamed, Batched, GoodRow;
    if rows == [] {
      EmptySet([], cs);
    } else {
      var t, n := Joined(cs, rows), |rows|;
      StreamReply([], cs, rows);
      BatchReply([], cs, rows);
      JoinedParse(cs, rows, [Blank, Closing(n)], n);
      JoinedParse(cs, rows, [Closing(n)], n);
      var stream, batch := Respond(Start([]), Streamed(cs, rows)).0, Respond(Start([]), Batched(cs, rows)).0;
      assert stream[0] == Opening(SINGLE_TUPLE) && stream[1..] == t + [Blank, Closing(n)];
      assert batch[0] == Opening(TUPLES_OK) && batch[1..] == t + [Closing(n)];
    }
  }

  /** Without rows there is nothing to tell the two apart. */
  lemma EmptySet(toks: seq<Token>, cs: seq<Column>)
    ensures ValidTrace(Streamed(cs, [])) && Streamed(cs, []) == Batched(cs, [])
    ensures Respond(Start(toks), Batched(cs, [])) == (toks + [NoItems(TUPLES_OK)], Status(HTTP_OK))
  {
  }

  // ---------- the character that is blanked ----------

  /**
   * A stream blanks a trailing comma exactly when its rows have columns. Rows without columns write nothing:
   * the end of the stream then spoils whatever the buffer held, or writes before it if it was empty.
   */
  lemma {:induction false} NoColumns(s: State, rows: seq<seq<Value>>)
    requires Wide([], rows) && s.items == 0 && (s.single || rows != [])
    ensures ValidTrace(Streamed([], rows))
    ensures Respond(s, Streamed([], rows))
         == if s.toks == [] then ([], Underrun) else (Blanked(s.toks) + [NoItems(TUPLES_OK)], Status(HTTP_OK))
    decreases |rows|
  {
    StreamedValid([], rows);
    var trace := Streamed([], rows);
    if rows == [] {
      assert trace[1..] == [];
    } else {
      assert trace[1..] == Streamed([], rows[1..]);
      hide Streamed;
      NoColumns(s.(status := SINGLE_TUPLE, single := true), rows[1..]);
    }
  }

  lemma BlankedIsComma(cs: seq<Column>, rows: seq<seq<Value>>)
    requires Wide(cs, rows) && 0 < |rows| < 0x1_0000_0000
    ensures ValidTrace(Streamed(cs, rows))
    ensures Respond(Start([]), Streamed(cs, rows)).1 == Status(HTTP_OK) <==> cs != []
  {
    hide Respond, Streamed, Joined;
    if cs == [] {
      NoColumns(Start([]), rows);
    } else {
      StreamReply([], cs, rows);
    }
  }

  // ---------- errors ----------

  /** A result that writes rows. */
  predicate Writes(r: PgResult) {
    IsTuples(r) && Emits(r)
  }

  /** The result at `n` ends a stream that has written nothing, over an empty buffer: it blanks the byte before it. */
  ghost predicate Spoils(s: State, trace: seq<Fetch>, n: nat) {
    && n < |trace| && s.toks == []
    && trace[n].result.status == TUPLES_OK && !Emits(trace[n].result)
    && (s.single || exists i :: 0 <= i < n && trace[i].result.status == SINGLE_TUPLE)
    && forall i | 0 <= i < n :: !Writes(trace[i].result)
  }

  /** The response ends at result `n`, because of a wait that failed or an overrun. */
  ghost predicate EndsAt(s: State, trace: seq<Fetch>, n: nat) {
    n < |trace| && (!trace[n].ready || Spoils(s, trace, n))
  }

  /** The first result at or after `n` at which the response ends, or the number of results. */
  ghost function EndFrom(s: State, trace: seq<Fetch>, n: nat): (m: nat)
    requires n <= |trace|
    ensures n <= m <= |trace| && (m < |trace| ==> EndsAt(s, trace, m))
    ensures forall i | n <= i < m :: !EndsAt(s, trace, i)
    decreases |trace| - n
  {
    if n == |trace| || EndsAt(s, trace, n) then n else EndFrom(s, trace, n + 1)
  }

  /** The state after a result at which the response does not end. */
  ghost function After(s: State, r: PgResult): State
    requires ValidResult(r)
  {
    if IsTuples(r) && TakeTuples(s, r).Some? then TakeTuples(s, r).value else s.(status := r.status)
  }

  ghost predicate Fresh(s: State) {
    s.toks == [] ==> s.items == 0
  }

  lemma EndsLater(s: State, trace: seq<Fetch>, n: nat)
    requires ValidTrace(trace) && trace != [] && Fresh(s) && !EndsAt(s, trace, 0)
    ensures EndsAt(s, trace, n + 1) <==> EndsAt(After(s, trace[0].result), trace[1..], n)
    ensures Fresh(After(s, trace[0].result))
  {
    hide RowsFrom;
    var r, rest := trace[0].result, trace[1..];
    assert forall i | 1 <= i < |trace| :: trace[i] == rest[i - 1];
    assert forall i | 0 <= i < |rest| :: rest[i] == trace[i + 1];
    if n + 1 < |trace| && s.toks == [] && !Writes(r) {
      if i :| 0 <= i < n + 1 && trace[i].result.status == SINGLE_TUPLE {
        assert i == 0 || rest[i - 1].result.status == SINGLE_TUPLE;
      }
    }
  }

  /**
   * How a response ends, for every trace: with an error of the server at the first wait that fails, or an overrun
   * at the first stream that spoils, whichever is first; else with an error object alone if the last result is a
   * fatal one, however many rows came before, and well otherwise.
   */
  lemma {:induction false} OutcomeIs(s: State, trace: seq<Fetch>, n: nat)
    requires ValidTrace(trace) && Fresh(s) && n <= |trace|
    requires (forall i | 0 <= i < n :: !EndsAt(s, trace, i)) && (n < |trace| ==> EndsAt(s, trace, n))
    ensures Respond(s, trace).1
         == if n < |trace| then (if trace[n].ready then Underrun else Status(500))
            else if trace != [] && IsFatal(trace[|trace| - 1].result) then Status(400)
            else Status(200)
    ensures Respond(s, trace).1 == Status(400) ==> Respond(s, trace).0 == [Failure(400)]
    decreases |trace|
  {
    hide RowsFrom, EndsAt;
    if n == 0 {
      EndsAtOnce(s, trace);
    } else {
      var t, rest := After(s, trace[0].result), trace[1..];
      assert !EndsAt(s, trace, 0);
      PassesFirst(s, trace);
      EndsLater(s, trace, n - 1);
      forall i | 0 <= i < n - 1
        ensures !EndsAt(t, rest, i)
      {
        EndsLater(s, trace, i);
        assert !EndsAt(s, trace, i + 1);
      }
      OutcomeIs(t, rest, n - 1);
    }
  }

  lemma EndsAtOnce(s: State, trace: seq<Fetch>)
    requires ValidTrace(trace) && (trace != [] ==> EndsAt(s, trace, 0))
    ensures Respond(s, trace).1
         == if trace == [] then Status(HTTP_OK) else if trace[0].ready then Underrun else Status(HTTP_INTERNAL_ERROR)
  {
    hide RowsFrom;
  }

  lemma PassesFirst(s: State, trace: seq<Fetch>)
    requires ValidTrace(trace) && trace != [] && !EndsAt(s, trace, 0)
    ensures Respond(s, trace)
         == if |trace| == 1 && IsFatal(trace[0].result) then ([Failure(HTTP_BAD_REQUEST)], Status(HTTP_BAD_REQUEST))
            else Respond(After(s, trace[0].result), trace[1..])
    ensures |trace| == 1 ==> Respond(After(s, trace[0].result), trace[1..]).1 == Status(HTTP_OK)
  {
    hide RowsFrom;
  }

  /** After a wait that fails, what was written stays, and the error object stands behind it. */
  lemma {:induction false} ErrorIsLast(s: State, trace: seq<Fetch>)
    requires ValidTrace(trace)
    ensures var (toks, o) := Respond(s, trace);
            o == Status(500) ==> toks != [] && toks[|toks| - 1] == Failure(500)
    ensures trace != [] && !trace[0].ready ==> s.toks < Respond(s, trace).0
    decreases |trace|
  {
    hide RowsFrom, Finish, Blanked;
    if trace != [] && trace[0].ready {
      var r := trace[0].result;
      if IsTuples(r) {
        var t := TakeTuples(s, r);
        if t.Some? {
          ErrorIsLast(t.value, trace[1..]);
        }
      } else {
        ErrorIsLast(s.(status := r.status), trace[1..]);
      }
    }
  }

  /**
   * The reply is the error object alone if and only if the last result is a fatal one, and the response does not end
   * before.
   */
  lemma ErrorIffLastFatal(s: State, trace: seq<Fetch>)
    requires ValidTrace(trace) && Fresh(s)
    ensures Respond(s, trace).1 == Status(400)
       <==> trace != [] && IsFatal(trace[|trace| - 1].result) && forall n | 0 <= n < |trace| :: !EndsAt(s, trace, n)
    ensures Respond(s, trace).1 == Status(400) ==> Respond(s, trace).0 == [Failure(400)]
  {
    hide Respond, EndsAt;
    OutcomeIs(s, trace, EndFrom(s, trace, 0));
  }

  /** The tuples of all results that have columns. */
  function TupleCount(trace: seq<Fetch>): nat {
    if trace == [] then 0
    else (if Writes(trace[0].result) then |trace[0].result.rows| else 0) + TupleCount(trace[1..])
  }

  /** The last token gives the number of tuples, or says that there are none. */
  ghost predicate ClosesWith(toks: seq<Token>, n: nat) {
    toks != [] && if n != 0 then toks[|toks| - 1] == Closing(n) else toks[|toks| - 1].NoItems?
  }

  lemma FinishCloses(s: State)
    requires s.items < 0x1_0000_0000
    ensures ClosesWith(Finish(s), s.items % 0x1_0000_0000)
  {
  }

  /** A reply that is not an error closes with the number of all tuples, counted in 32 bits. */
  lemma {:induction false} ItemsAreCounted(s: State, trace: seq<Fetch>)
    requires ValidTrace(trace) && s.items < 0x1_0000_0000 && Respond(s, trace).1 == Status(HTTP_OK)
    ensures ClosesWith(Respond(s, trace).0, (s.items + TupleCount(trace)) % 0x1_0000_0000)
    decreases |trace|
  {
    hide RowsFrom, ClosesWith, Finish;
    if trace == [] {
      FinishCloses(s);
    } else {
      var r := trace[0].result;
      if IsTuples(r) {
        var t := TakeTuples(s, r).value;
        ItemsAreCounted(t, trace[1..]);
        AddModulo(s.items, if Emits(r) then |r.rows| else 0, TupleCount(trace[1..]));
      } else {
        ItemsAreCounted(s.(status := r.status), trace[1..]);
      }
    }
  }

  /** A response starts to count at zero: without results, or without rows, there are no items. */
  lemma ReplyIsCounted(toks: seq<Token>, trace: seq<Fetch>)
    requires ValidTrace(trace) && Respond(Start(toks), trace).1 == Status(200)
    ensures ClosesWith(Respond(Start(toks), trace).0, TupleCount(trace) % 0x1_0000_0000)
    ensures Respond(Start(toks), []).0 == toks + [NoItems(0)]
  {
    hide Respond, ClosesWith;
    ItemsAreCounted(Start(toks), trace);
    NoResults(toks);
  }

  lemma NoResults(toks: seq<Token>)
    ensures Respond(Start(toks), []).0 == toks + [NoItems(0)]
  {
  }

  lemma AddModulo(a: nat, b: nat, c: nat)
    ensures ((a + b) % 0x1_0000_0000 + c) % 0x1_0000_0000 == (a + (b + c)) % 0x1_0000_0000
  {
  }
}
