/**
 * The graph traversal: the recursive query that is built clause by clause, what it means over the two tables
 * of a graph, and its evaluation with a working table.
 */
module GraphTraversal {
  import opened Wrappers
  import opened Counting

  type Id = nat

  /** A row of the collection table: the identifier is its primary key, the name may be NULL. */
  datatype Node = Node(id: Id, name: Option<string>)

  /** A row of the edge table. */
  datatype Edge = Edge(a: Option<Id>, b: Option<Id>, lbl: Option<string>)

  datatype Graph = Graph(edges: set<Edge>, nodes: set<Node>)

  /** SQL's three truth values. */
  datatype Truth = False | True | Unknown

  /** A row of the recursive table. */
  datatype Row = Row(id: Id, name: Option<string>, depth: nat, path: seq<Option<string>>, ids: seq<Id>, cycle: Truth)

  // ---------- building the query ----------

  /** The pieces of text the query is put together from. */
  datatype Clause =
    | SelectChildren | WhereStart(start: Option<Id>) | AndLabel(lbl: string)
    | UnionExtend | AndNotCycle | SelectRows | WhereId(id: Id) | OrderByDepth

  method BuildTraverse(from: Option<Id>, to: Option<Id>, lbl: Option<string>) returns (query: seq<Clause>)
    ensures Read(query) == Some(Plan(from, lbl, lbl, to))
  {
    query := [SelectChildren];
    if from.Some? {
      query := query + [WhereStart(from)];
    } else {
      query := query + [WhereStart(None)];
    }
    assert query == [SelectChildren, WhereStart(from)];
    if lbl.Some? {
      query := query + [AndLabel(lbl.value)];
    }
    assert query == [SelectChildren, WhereStart(from)] + LabelClause(lbl);
    query := query + [UnionExtend];
    if lbl.Some? {
      query := query + [AndLabel(lbl.value)];
    }
    assert query == [SelectChildren, WhereStart(from)] + LabelClause(lbl) + [UnionExtend] + LabelClause(lbl);
    query := query + [AndNotCycle];
    query := query + [SelectRows];
    if to.Some? {
      query := query + [WhereId(to.value)];
    } else {
      query := query + [OrderByDepth];
    }
    assert query == Clauses(from, to, LabelClause(lbl));
    ReadsAs(from, to, lbl);
  }

  function LabelClause(lbl: Option<string>): seq<Clause> {
    if lbl.Some? then [AndLabel(lbl.value)] else []
  }

  function LastClause(to: Option<Id>): Clause {
    if to.Some? then WhereId(to.value) else OrderByDepth
  }

  /** All clauses, with the condition on the label in two places. */
  function Clauses(from: Option<Id>, to: Option<Id>, cond: seq<Clause>): seq<Clause> {
    [SelectChildren, WhereStart(from)] + cond + [UnionExtend] + cond + [AndNotCycle, SelectRows, LastClause(to)]
  }

  /** A query as its reader takes it: each condition belongs to the select it follows. */
  datatype Plan = Plan(start: Option<Id>, first: Option<string>, later: Option<string>, only: Option<Id>)

  function ReadLabel(q: seq<Clause>): (Option<string>, seq<Clause>) {
    if q != [] && q[0].AndLabel? then (Some(q[0].lbl), q[1..]) else (None, q)
  }

  function Read(q: seq<Clause>): Option<Plan> {
    if |q| < 2 || q[0] != SelectChildren || !q[1].WhereStart? then None else
      var (first, r) := ReadLabel(q[2..]);
      if r == [] || r[0] != UnionExtend then None else
        var (later, s) := ReadLabel(r[1..]);
        if |s| != 3 || s[0] != AndNotCycle || s[1] != SelectRows then None
        else if s[2].WhereId? then Some(Plan(q[1].start, first, later, Some(s[2].id)))
        else if s[2] == OrderByDepth then Some(Plan(q[1].start, first, later, None))
        else None
  }

  lemma LabelReadBack(lbl: Option<string>, next: Clause, rest: seq<Clause>)
    requires !next.AndLabel?
    ensures ReadLabel(LabelClause(lbl) + [next] + rest) == (lbl, [next] + rest)
  {
    if lbl.Some? {
      assert (LabelClause(lbl) + [next] + rest)[1..] == [next] + rest;
    } else {
      assert LabelClause(lbl) + [next] + rest == [next] + rest;
    }
  }

  lemma ReadsAs(from: Option<Id>, to: Option<Id>, lbl: Option<string>)
    ensures Read(Clauses(from, to, LabelClause(lbl))) == Some(Plan(from, lbl, lbl, to))
  {
    hide ReadLabel, LabelClause;
    var cond, last := LabelClause(lbl), LastClause(to);
    var tail := cond + [AndNotCycle] + [SelectRows, last];
    assert Clauses(from, to, cond)[2..] == cond + [UnionExtend] + tail;
    LabelReadBack(lbl, UnionExtend, tail);
    assert ([UnionExtend] + tail)[1..] == tail;
    LabelReadBack(lbl, AndNotCycle, [SelectRows, last]);
  }

  // ---------- what the two selects of the recursion yield ----------

  predicate LabelMatches(lbl: Option<string>, wanted: Option<string>) {
    wanted == None || lbl == wanted
  }

  /** `name = ANY(path)`: a NULL on either side leaves the answer open unless an equal name is found. */
  function AnyName(name: Option<string>, path: seq<Option<string>>): Truth {
    if path == [] then False
    else if name == None then Unknown
    else if name in path then True
    else if None in path then Unknown
    else False
  }

  predicate Joined(g: Graph, e: Edge, n: Node, a: Option<Id>, wanted: Option<string>) {
    e in g.edges && n in g.nodes && e.a == a && e.b == Some(n.id) && LabelMatches(e.lbl, wanted)
  }

  function Children(g: Graph, p: Plan): set<Row> {
    set e, n | e in g.edges && n in g.nodes && Joined(g, e, n, p.start, p.first)
      :: Row(n.id, n.name, 1, [n.name], [n.id], False)
  }

  function Extended(r: Row, n: Node): Row {
    Row(n.id, n.name, r.depth + 1, r.path + [n.name], r.ids + [n.id], AnyName(n.name, r.path))
  }

  /** The rows that extend those of the working table; a row is extended only where NOT cycle is true. */
  function Extensions(g: Graph, p: Plan, work: set<Row>): set<Row> {
    set r, e, n | r in work && r.cycle == False && e in g.edges && n in g.nodes && Joined(g, e, n, Some(r.id), p.later)
      :: Extended(r, n)
  }

  // ---------- walks ----------

  ghost predicate Linked(g: Graph, a: Option<Id>, n: Node, wanted: Option<string>) {
    exists e :: Joined(g, e, n, a, wanted)
  }

  /** A walk along matching edges from the start, which is not part of it. */
  ghost predicate Walk(g: Graph, p: Plan, w: seq<Node>) {
    && w != []
    && Linked(g, p.start, w[0], p.first)
    && forall i | 1 <= i < |w| :: Linked(g, Some(w[i - 1].id), w[i], p.later)
  }

  ghost function Names(w: seq<Node>): (s: seq<Option<string>>)
    ensures |s| == |w| && forall i | 0 <= i < |w| :: s[i] == w[i].name
  {
    seq(|w|, i requires 0 <= i < |w| => w[i].name)
  }

  ghost function Ids(w: seq<Node>): (s: seq<Id>)
    ensures |s| == |w| && forall i | 0 <= i < |w| :: s[i] == w[i].id
  {
    seq(|w|, i requires 0 <= i < |w| => w[i].id)
  }

  ghost function Front<T>(s: seq<T>): seq<T>
    requires s != []
  {
    s[..|s| - 1]
  }

  ghost function Last<T>(s: seq<T>): T
    requires s != []
  {
    s[|s| - 1]
  }

  /** The row that stands for a walk. */
  ghost function RowOf(w: seq<Node>): Row
    requires w != []
  {
    Row(Last(w).id, Last(w).name, |w|, Names(w), Ids(w), AnyName(Last(w).name, Names(Front(w))))
  }

  /** All names known and different, as soon as there are two. */
  ghost predicate NamesApart(w: seq<Node>) {
    |w| > 1 ==>
      && (forall i | 0 <= i < |w| :: w[i].name != None)
      && (forall i, j | 0 <= i < j < |w| :: w[i].name != w[j].name)
  }

  /** A walk whose row is in the table. */
  ghost predicate Listed(g: Graph, p: Plan, w: seq<Node>) {
    Walk(g, p, w) && NamesApart(Front(w))
  }

  lemma CycleFlag(w: seq<Node>)
    requires w != [] && NamesApart(Front(w))
    ensures RowOf(w).cycle == False <==> NamesApart(w)
  {
  }

  /** The rows of the table that are not cycles are those of the walks with all names known and different. */
  lemma NoCycleIffNamesApart(g: Graph, p: Plan, w: seq<Node>)
    requires Walk(g, p, w)
    ensures Listed(g, p, w) && RowOf(w).cycle == False <==> NamesApart(w)
  {
  }

  // ---------- the rows in terms of the two tables ----------

  /** An edge of the table that leads from `a` to the node of this identifier and name, and has the label asked for. */
  ghost predicate EdgeTo(g: Graph, a: Option<Id>, id: Id, name: Option<string>, wanted: Option<string>) {
    && Node(id, name) in g.nodes
    && exists e :: e in g.edges && e.a == a && e.b == Some(id) && (wanted.Some? ==> e.lbl == wanted)
  }

  /** What a row says of itself: a list of nodes, their names, how many they are, and whether the last name is new. */
  ghost predicate Traced(g: Graph, p: Plan, r: Row) {
    var n := |r.ids|;
    && 0 < n == |r.path| == r.depth && r.id == r.ids[n - 1] && r.name == r.path[n - 1]
    && EdgeTo(g, p.start, r.ids[0], r.path[0], p.first)
    && (forall i | 1 <= i < n :: EdgeTo(g, Some(r.ids[i - 1]), r.ids[i], r.path[i], p.later))
    && (2 < n ==> forall i | 0 <= i < n - 1 :: r.path[i] != None && r.path[i] !in r.path[..i])
    && (r.cycle == True <==> r.name != None && r.name in r.path[..n - 1])
    && (r.cycle == False <==> n == 1 || (r.name != None && r.name !in r.path[..n - 1] && None !in r.path[..n - 1]))
  }

  lemma LinkedIsEdge(g: Graph, a: Option<Id>, n: Node, wanted: Option<string>)
    ensures Linked(g, a, n, wanted) <==> EdgeTo(g, a, n.id, n.name, wanted)
  {
    if e :| e in g.edges && e.a == a && e.b == Some(n.id) && (wanted.Some? ==> e.lbl == wanted) {
      if n in g.nodes {
        assert Joined(g, e, n, a, wanted);
      }
    }
  }

  ghost function WalkOf(r: Row): (w: seq<Node>)
    requires |r.ids| == |r.path|
    ensures |w| == |r.ids| && forall i | 0 <= i < |w| :: w[i] == Node(r.ids[i], r.path[i])
  {
    seq(|r.ids|, i requires 0 <= i < |r.ids| => Node(r.ids[i], r.path[i]))
  }

  lemma WalkIsTrace(g: Graph, p: Plan, w: seq<Node>)
    requires w != []
    ensures Listed(g, p, w) <==> Traced(g, p, RowOf(w))
  {
    hide Linked, EdgeTo;
    var f, n := Names(Front(w)), |w|;
    assert Names(w)[..n - 1] == f;
    LinkedIsEdge(g, p.start, w[0], p.first);
    forall i | 1 <= i < n
      ensures Linked(g, Some(w[i - 1].id), w[i], p.later)
         <==> EdgeTo(g, Some(w[i - 1].id), Ids(w)[i], Names(w)[i], p.later)
    {
      LinkedIsEdge(g, Some(w[i - 1].id), w[i], p.later);
    }
    FrontNames(w);
  }

  lemma FrontNames(w: seq<Node>)
    requires w != []
    ensures NamesApart(Front(w))
       <==> (2 < |w| ==> forall i | 0 <= i < |w| - 1 :: Names(w)[i] != None && Names(w)[i] !in Names(w)[..i])
  {
    var f, s := Front(w), Names(w);
    if NamesApart(f) && 2 < |w| {
      forall i | 0 <= i < |w| - 1
        ensures s[i] != None && s[i] !in s[..i]
      {
        assert f[i].name == s[i];
        assert forall j | 0 <= j < i :: s[..i][j] == f[j].name != f[i].name;
      }
    }
    if 2 < |w| && forall i | 0 <= i < |w| - 1 :: s[i] != None && s[i] !in s[..i] {
      forall i | 0 <= i < |f|
        ensures f[i].name != None
        ensures forall j | 0 <= j < i :: f[j].name != f[i].name
      {
        assert s[i] == f[i].name && s[i] !in s[..i];
        assert forall j | 0 <= j < i :: f[j].name == s[..i][j] && s[..i][j] in s[..i];
      }
    }
  }

  lemma RowOfTrace(g: Graph, p: Plan, r: Row)
    requires Traced(g, p, r)
    ensures RowOf(WalkOf(r)) == r
  {
    hide EdgeTo;
    var w := WalkOf(r);
    assert Ids(w) == r.ids && Names(w) == r.path;
    assert Names(Front(w)) == r.path[..|w| - 1];
  }

  /** The rows are exactly the tuples that trace edges of the table as long as every name but the last is a new one. */
  lemma RowIff(g: Graph, p: Plan, r: Row)
    ensures IsRow(g, p, r) <==> Traced(g, p, r)
  {
    hide EdgeTo, Linked, NamesApart;
    if w :| Listed(g, p, w) && r == RowOf(w) {
      WalkIsTrace(g, p, w);
    }
    if Traced(g, p, r) {
      RowOfTrace(g, p, r);
      WalkIsTrace(g, p, WalkOf(r));
    }
  }

  // ---------- what a label asks for ----------

  function OfLabel(g: Graph, lbl: string): Graph {
    Graph((set e | e in g.edges && e.lbl == Some(lbl)), g.nodes)
  }

  lemma LinkedByLabel(g: Graph, a: Option<Id>, n: Node, lbl: string)
    ensures Linked(g, a, n, Some(lbl)) <==> Linked(OfLabel(g, lbl), a, n, None)
  {
    if e :| Joined(g, e, n, a, Some(lbl)) {
      assert Joined(OfLabel(g, lbl), e, n, a, None);
    }
    if e :| Joined(OfLabel(g, lbl), e, n, a, None) {
      assert Joined(g, e, n, a, Some(lbl));
    }
  }

  /** To ask for a label is to ask without one in the graph of the edges of that label. */
  lemma LabelIsSubgraph(g: Graph, start: Option<Id>, lbl: string, only: Option<Id>, w: seq<Node>)
    ensures Listed(g, Plan(start, Some(lbl), Some(lbl), only), w)
       <==> Listed(OfLabel(g, lbl), Plan(start, None, None, only), w)
  {
    hide Linked, OfLabel;
    if w != [] {
      LinkedByLabel(g, start, w[0], lbl);
    }
    forall i | 1 <= i < |w|
      ensures Linked(g, Some(w[i - 1].id), w[i], Some(lbl)) <==> Linked(OfLabel(g, lbl), Some(w[i - 1].id), w[i], None)
    {
      LinkedByLabel(g, Some(w[i - 1].id), w[i], lbl);
    }
  }

  ghost predicate IsRow(g: Graph, p: Plan, r: Row) {
    exists w :: Listed(g, p, w) && r == RowOf(w)
  }

  /** So the rows are the same. */
  lemma RowsOfLabel(g: Graph, start: Option<Id>, lbl: string, only: Option<Id>, r: Row)
    ensures IsRow(g, Plan(start, Some(lbl), Some(lbl), only), r)
       <==> IsRow(OfLabel(g, lbl), Plan(start, None, None, only), r)
  {
    hide Walk, RowOf, OfLabel;
    var p, q := Plan(start, Some(lbl), Some(lbl), only), Plan(start, None, None, only);
    forall w
      ensures Listed(g, p, w) <==> Listed(OfLabel(g, lbl), q, w)
    {
      LabelIsSubgraph(g, start, lbl, only, w);
    }
  }

  // ---------- the rounds of the working table ----------

  ghost function Round(g: Graph, p: Plan, k: nat): set<Row> {
    if k == 0 then Children(g, p) else Extensions(g, p, Round(g, p, k - 1))
  }

  lemma OneStepWalk(g: Graph, p: Plan, n: Node)
    requires Linked(g, p.start, n, p.first)
    ensures Listed(g, p, [n]) && RowOf([n]) == Row(n.id, n.name, 1, [n.name], [n.id], False)
  {
  }

  lemma LongerWalk(g: Graph, p: Plan, w: seq<Node>, n: Node)
    requires Listed(g, p, w) && NamesApart(w) && Linked(g, Some(Last(w).id), n, p.later)
    ensures Listed(g, p, w + [n]) && RowOf(w + [n]) == Extended(RowOf(w), n)
  {
    var v := w + [n];
    assert Front(v) == w;
    assert Names(v) == Names(w) + [n.name] && Ids(v) == Ids(w) + [n.id];
  }

  lemma ShorterWalk(g: Graph, p: Plan, w: seq<Node>)
    requires Listed(g, p, w) && |w| > 1
    ensures Listed(g, p, Front(w)) && NamesApart(Front(w))
    ensures Linked(g, Some(Last(Front(w)).id), Last(w), p.later)
    ensures w == Front(w) + [Last(w)]
  {
  }

  /** Round `k` holds the rows of the listed walks of `k + 1` nodes, and no others. */
  lemma RoundIsWalks(g: Graph, p: Plan, k: nat, r: Row)
    ensures r in Round(g, p, k) <==> exists w :: Listed(g, p, w) && |w| == k + 1 && r == RowOf(w)
  {
    if r in Round(g, p, k) {
      var w := WalkOfRow(g, p, k, r);
    }
    if w :| Listed(g, p, w) && |w| == k + 1 && r == RowOf(w) {
      RowOfWalk(g, p, k, w);
    }
  }

  lemma ExtensionOf(g: Graph, p: Plan, work: set<Row>, r: Row) returns (r': Row, n: Node)
    requires r in Extensions(g, p, work)
    ensures r' in work && r'.cycle == False && Linked(g, Some(r'.id), n, p.later) && r == Extended(r', n)
  {
    var r0, e, n0 :| r0 in work && r0.cycle == False && Joined(g, e, n0, Some(r0.id), p.later) && r == Extended(r0, n0);
    r', n := r0, n0;
  }

  lemma {:induction false} WalkOfRow(g: Graph, p: Plan, k: nat, r: Row) returns (w: seq<Node>)
    requires r in Round(g, p, k)
    ensures Listed(g, p, w) && |w| == k + 1 && r == RowOf(w)
  {
    hide Listed, NamesApart, RowOf, AnyName, Extensions, Extended;
    if k == 0 {
      var e, n :| Joined(g, e, n, p.start, p.first) && r == Row(n.id, n.name, 1, [n.name], [n.id], False);
      w := [n];
      OneStepWalk(g, p, n);
    } else {
      var r', n := ExtensionOf(g, p, Round(g, p, k - 1), r);
      var v := WalkOfRow(g, p, k - 1, r');
      RowEnds(g, p, v);
      LongerWalk(g, p, v, n);
      w := v + [n];
    }
  }

  lemma RowEnds(g: Graph, p: Plan, w: seq<Node>)
    requires Listed(g, p, w)
    ensures w != [] && RowOf(w).id == Last(w).id && RowOf(w).depth == |w|
    ensures RowOf(w).cycle == False <==> NamesApart(w)
  {
    CycleFlag(w);
  }

  lemma {:induction false} RowOfWalk(g: Graph, p: Plan, k: nat, w: seq<Node>)
    requires Listed(g, p, w) && |w| == k + 1
    ensures RowOf(w) in Round(g, p, k)
  {
    hide NamesApart, AnyName;
    if k == 0 {
      assert w == [w[0]];
      OneStepWalk(g, p, w[0]);
      var e :| Joined(g, e, w[0], p.start, p.first);
    } else {
      ShorterWalk(g, p, w);
      var v, n := Front(w), Last(w);
      RowOfWalk(g, p, k - 1, v);
      RowEnds(g, p, v);
      LongerWalk(g, p, v, n);
      var e :| Joined(g, e, n, Some(Last(v).id), p.later);
      assert Extended(RowOf(v), n) in Extensions(g, p, Round(g, p, k - 1));
    }
  }

  // ---------- evaluation ----------

  function AllNames(g: Graph): set<Option<string>> {
    set n | n in g.nodes :: n.name
  }

  /** A listed walk is at most one node longer than there are names: all but its last node have different names. */
  lemma DepthBound(g: Graph, p: Plan, w: seq<Node>)
    requires Listed(g, p, w)
    ensures |w| <= |AllNames(g)| + 1
  {
    hide Linked;
    var s, u := Names(Front(w)), AllNames(g);
    WalkInNodes(g, p, w);
    assert forall x | x in s :: x in u;
    if |u| < |s| {
      var i, j := Pigeonhole(s, u);
    }
  }

  lemma WalkInNodes(g: Graph, p: Plan, w: seq<Node>)
    requires Walk(g, p, w)
    ensures forall n | n in w :: n in g.nodes
  {
    forall i | 0 <= i < |w|
      ensures w[i] in g.nodes
    {
      assert i == 0 || Linked(g, Some(w[i - 1].id), w[i], p.later);
    }
  }

  lemma RoundDepth(g: Graph, p: Plan, k: nat, r: Row)
    requires r in Round(g, p, k)
    ensures r.depth == k + 1 <= |AllNames(g)| + 1
  {
    hide Round, Listed;
    var w := WalkOfRow(g, p, k, r);
    DepthBound(g, p, w);
  }

  lemma {:induction false} EmptyForever(g: Graph, p: Plan, k: nat, j: nat)
    requires Round(g, p, k) == {} && k <= j
    ensures Round(g, p, j) == {}
  {
    if k < j {
      EmptyForever(g, p, k, j - 1);
    }
  }

  /** The rows of the first `k` rounds. */
  ghost function RowsBefore(g: Graph, p: Plan, k: nat): set<Row> {
    if k == 0 then {} else RowsBefore(g, p, k - 1) + Round(g, p, k - 1)
  }

  lemma {:induction false} RowsBeforeDepth(g: Graph, p: Plan, k: nat, r: Row)
    ensures r in RowsBefore(g, p, k) <==> 1 <= r.depth <= k && r in Round(g, p, r.depth - 1)
  {
    hide Round;
    if k != 0 {
      RowsBeforeDepth(g, p, k - 1, r);
      if r in Round(g, p, k - 1) {
        RoundDepth(g, p, k - 1, r);
      }
    }
  }

  /**
   * Evaluates the recursive table: the working table is replaced by the rows that extend it, less those already
   * found, until none is left. On every graph this ends, and what it finds are the rows of the listed walks.
   */
  method Evaluate(g: Graph, p: Plan) returns (rows: set<Row>)
    ensures forall r :: r in rows <==> IsRow(g, p, r)
    ensures forall r | r in rows :: 1 <= r.depth <= |AllNames(g)| + 1
  {
    hide Listed, RowOf, Children, Extensions, AllNames;
    var work := Children(g, p);
    rows := work;
    ghost var k := 0;
    while work != {}
      invariant work == Round(g, p, k) && rows == RowsBefore(g, p, k + 1)
      decreases |AllNames(g)| + 1 - k
    {
      var r :| r in work;
      RoundDepth(g, p, k, r);
      var found := Extensions(g, p, work) - rows;
      NextRound(g, p, k);
      rows := rows + found;
      work := found;
      k := k + 1;
    }
    RowsAreWalks(g, p, k, rows);
  }

  /** No round finds a row again: the rows of a round are all deeper than those before it. */
  lemma NextRound(g: Graph, p: Plan, k: nat)
    ensures Extensions(g, p, Round(g, p, k)) - RowsBefore(g, p, k + 1) == Round(g, p, k + 1)
    ensures RowsBefore(g, p, k + 1) + Round(g, p, k + 1) == RowsBefore(g, p, k + 2)
  {
    hide Extensions;
    var later, before := Round(g, p, k + 1), RowsBefore(g, p, k + 1);
    forall r | r in later
      ensures r !in before
    {
      RoundDepth(g, p, k + 1, r);
      RowsBeforeDepth(g, p, k + 1, r);
    }
  }

  lemma RowsAreWalks(g: Graph, p: Plan, k: nat, rows: set<Row>)
    requires Round(g, p, k) == {} && rows == RowsBefore(g, p, k + 1)
    ensures forall r :: r in rows <==> exists w :: Listed(g, p, w) && r == RowOf(w)
    ensures forall r | r in rows :: 1 <= r.depth <= |AllNames(g)| + 1
  {
    hide NamesApart, Linked, RowsBefore, Round, AllNames;
    forall r | r in rows
      ensures exists w :: Listed(g, p, w) && r == RowOf(w)
      ensures 1 <= r.depth <= |AllNames(g)| + 1
    {
      RowsBeforeDepth(g, p, k + 1, r);
      var w := WalkOfRow(g, p, r.depth - 1, r);
      RoundDepth(g, p, r.depth - 1, r);
    }
    forall w | Listed(g, p, w)
      ensures RowOf(w) in rows
    {
      RowEnds(g, p, w);
      RowOfWalk(g, p, |w| - 1, w);
      if k < |w| {
        EmptyForever(g, p, k, |w| - 1);
      }
      RowsBeforeDepth(g, p, k + 1, RowOf(w));
    }
  }

  // ---------- what is found ----------

  /** The rows of the answer: all of them, or those of one node. */
  predicate Answered(p: Plan, r: Row) {
    p.only == None || p.only == Some(r.id)
  }

  /** A node is found when a row of it is in the answer. */
  ghost predicate Found(g: Graph, p: Plan, id: Id) {
    exists w :: Listed(g, p, w) && Answered(p, RowOf(w)) && Last(w).id == id
  }

  ghost predicate Reachable(g: Graph, p: Plan, id: Id) {
    exists w :: Walk(g, p, w) && Last(w).id == id
  }

  /** The primary key, with names that tell the nodes apart. */
  ghost predicate WellNamed(g: Graph) {
    && (forall n | n in g.nodes :: n.name != None)
    && (forall m, n | m in g.nodes && n in g.nodes :: m.id == n.id <==> m.name == n.name)
  }

  ghost predicate NodesApart(w: seq<Node>) {
    forall i, j | 0 <= i < j < |w| :: w[i] != w[j]
  }

  /** The part of a walk between two visits of the same node can be left out. */
  lemma CutLoop(g: Graph, p: Plan, w: seq<Node>, i: nat, j: nat) returns (v: seq<Node>)
    requires Walk(g, p, w) && i < j < |w| && w[i] == w[j]
    ensures Walk(g, p, v) && |v| < |w| && Last(v) == Last(w)
  {
    v := w[..i + 1] + w[j + 1..];
    forall k | 1 <= k < |v|
      ensures Linked(g, Some(v[k - 1].id), v[k], p.later)
    {
      if k <= i {
        assert v[k - 1] == w[k - 1] && v[k] == w[k];
      } else {
        var l := k - i - 1 + j + 1;
        assert v[k] == w[l] && v[k - 1] == w[l - 1];
      }
    }
  }

  /** Every walk has a walk to the same node, no longer, that visits no node twice. */
  lemma {:induction false} WithoutLoops(g: Graph, p: Plan, w: seq<Node>) returns (v: seq<Node>)
    requires Walk(g, p, w)
    ensures Walk(g, p, v) && NodesApart(v) && |v| <= |w| && Last(v) == Last(w)
    decreases |w|
  {
    hide Linked;
    if NodesApart(w) {
      v := w;
    } else {
      var i, j :| 0 <= i < j < |w| && w[i] == w[j];
      v := CutLoop(g, p, w, i, j);
      v := WithoutLoops(g, p, v);
    }
  }

  lemma ApartByName(g: Graph, p: Plan, w: seq<Node>)
    requires WellNamed(g) && Walk(g, p, w) && NodesApart(w)
    ensures Listed(g, p, w) && NamesApart(w)
  {
    WalkInNodes(g, p, w);
    forall i, j | 0 <= i < j < |w|
      ensures w[i].name != w[j].name
    {
      assert w[i] in g.nodes && w[j] in g.nodes;
    }
  }

  /** Where names tell nodes apart, a node is found exactly when some walk of matching edges leads to it. */
  lemma FoundIffReachable(g: Graph, p: Plan, id: Id)
    requires WellNamed(g)
    ensures Found(g, p, id) <==> Reachable(g, p, id) && (p.only == None || p.only == Some(id))
  {
    hide NamesApart, NodesApart, WellNamed;
    if Found(g, p, id) {
      var w :| Listed(g, p, w) && Answered(p, RowOf(w)) && Last(w).id == id;
      assert Walk(g, p, w);
    }
    if Reachable(g, p, id) {
      var w :| Walk(g, p, w) && Last(w).id == id;
      var v := WithoutLoops(g, p, w);
      ApartByName(g, p, v);
    }
  }

  /** There the least depth of a node's rows is its distance: no walk to it is shorter, and one is as short. */
  lemma LeastDepthIsDistance(g: Graph, p: Plan, w: seq<Node>) returns (v: seq<Node>)
    requires WellNamed(g) && Walk(g, p, w)
    ensures Listed(g, p, v) && RowOf(v).id == Last(w).id && RowOf(v).depth <= |w|
    ensures RowOf(v).cycle == False && Walk(g, p, v)
  {
    hide NodesApart, WellNamed;
    v := WithoutLoops(g, p, w);
    ApartByName(g, p, v);
    RowEnds(g, p, v);
  }

  // ---------- exactly when everything reachable is found ----------

  /** The identifier is the primary key. */
  ghost predicate UniqueIds(nodes: set<Node>) {
    forall m, n | m in nodes && n in nodes && m.id == n.id :: m == n
  }

  /** No name is NULL, and none occurs twice. */
  ghost predicate UniqueNames(nodes: set<Node>) {
    && (forall n | n in nodes :: n.name != None)
    && (forall m, n | m in nodes && n in nodes && m.name == n.name :: m == n)
  }

  ghost predicate Finds(g: Graph, p: Plan, id: Id) {
    Found(g, p, id) <==> Reachable(g, p, id) && (p.only == None || p.only == Some(id))
  }

  /** Whatever the edges and the question, what is found among these nodes is what can be reached. */
  ghost predicate AlwaysFinds(nodes: set<Node>) {
    forall edges: set<Edge>, p: Plan, id: Id :: Finds(Graph(edges, nodes), p, id)
  }

  /** Three nodes in a row, the first one linked to the root. */
  function Chain(nodes: set<Node>, l: Node, m: Node, n: Node): Graph {
    Graph({Edge(None, Some(l.id), None), Edge(Some(l.id), Some(m.id), None), Edge(Some(m.id), Some(n.id), None)}, nodes)
  }

  ghost predicate Three(nodes: set<Node>, l: Node, m: Node, n: Node) {
    UniqueIds(nodes) && l in nodes && m in nodes && n in nodes && l != m && l != n && m != n
  }

  const EVERYTHING := Plan(None, None, None, None)

  lemma ChainLinks(nodes: set<Node>, l: Node, m: Node, n: Node, s: Option<Id>, x: Node)
    requires Three(nodes, l, m, n)
    ensures Linked(Chain(nodes, l, m, n), s, x, None) <==>
              (s == None && x == l) || (s == Some(l.id) && x == m) || (s == Some(m.id) && x == n)
  {
    var g := Chain(nodes, l, m, n);
    if s == None && x == l {
      assert Joined(g, Edge(None, Some(l.id), None), x, s, None);
    } else if s == Some(l.id) && x == m {
      assert Joined(g, Edge(Some(l.id), Some(m.id), None), x, s, None);
    } else if s == Some(m.id) && x == n {
      assert Joined(g, Edge(Some(m.id), Some(n.id), None), x, s, None);
    }
  }

  /** The only walk to the end of the chain is the chain. */
  lemma ChainWalk(nodes: set<Node>, l: Node, m: Node, n: Node, w: seq<Node>)
    requires Three(nodes, l, m, n) && Walk(Chain(nodes, l, m, n), EVERYTHING, w) && Last(w).id == n.id
    ensures w == [l, m, n]
  {
    hide Linked, Chain;
    var g, k := Chain(nodes, l, m, n), |w|;
    assert g.nodes == nodes by { ChainNodes(nodes, l, m, n); }
    WalkInNodes(g, EVERYTHING, w);
    ChainLinks(nodes, l, m, n, None, w[0]);
    assert w[k - 1] == n;
    assert 2 <= k;
    ChainLinks(nodes, l, m, n, Some(w[k - 2].id), w[k - 1]);
    assert w[k - 2] == m;
    assert 3 <= k;
    ChainLinks(nodes, l, m, n, Some(w[k - 3].id), w[k - 2]);
    assert w[k - 3] == l;
    if 3 < k {
      ChainLinks(nodes, l, m, n, Some(w[k - 4].id), w[k - 3]);
    }
  }

  lemma ChainNodes(nodes: set<Node>, l: Node, m: Node, n: Node)
    ensures Chain(nodes, l, m, n).nodes == nodes
  {
  }

  /**
   * A node without a name, or two nodes of the same name, hide what lies behind the second: it is reachable and yet
   * not found.
   */
  lemma HiddenBehind(nodes: set<Node>, l: Node, m: Node, n: Node)
    requires Three(nodes, l, m, n) && (l.name == None || l.name == m.name)
    ensures Reachable(Chain(nodes, l, m, n), EVERYTHING, n.id) && !Found(Chain(nodes, l, m, n), EVERYTHING, n.id)
  {
    hide Linked, Chain, Three;
    var g, w := Chain(nodes, l, m, n), [l, m, n];
    ChainLinks(nodes, l, m, n, None, l);
    ChainLinks(nodes, l, m, n, Some(l.id), m);
    ChainLinks(nodes, l, m, n, Some(m.id), n);
    assert Walk(g, EVERYTHING, w) && Last(w) == n;
    assert Front(w)[0] == l && Front(w)[1] == m;
    forall v | Walk(g, EVERYTHING, v) && Last(v).id == n.id
      ensures !Listed(g, EVERYTHING, v)
    {
      ChainWalk(nodes, l, m, n, v);
    }
  }

  /** Three nodes in a row, the first two of the same name: the third is not found. */
  lemma SameNameHides()
    ensures var g := Graph({Edge(None, Some(1), None), Edge(Some(1), Some(2), None), Edge(Some(2), Some(3), None)},
                           {Node(1, Some("x")), Node(2, Some("x")), Node(3, Some("y"))});
            Reachable(g, EVERYTHING, 3) && !Found(g, EVERYTHING, 3)
  {
    var l, m, n := Node(1, Some("x")), Node(2, Some("x")), Node(3, Some("y"));
    HiddenBehind({l, m, n}, l, m, n);
  }

  lemma FewNodesApart(g: Graph, p: Plan, w: seq<Node>)
    requires |g.nodes| <= 2 && Walk(g, p, w) && NodesApart(w)
    ensures Listed(g, p, w)
  {
    hide Linked;
    WalkInNodes(g, p, w);
    if 2 < |w| {
      var i, j := Pigeonhole(w, g.nodes);
    }
  }

  lemma FewNodesFind(g: Graph, p: Plan, id: Id)
    requires |g.nodes| <= 2
    ensures Finds(g, p, id)
  {
    hide NamesApart, NodesApart;
    if w :| Walk(g, p, w) && Last(w).id == id {
      var v := WithoutLoops(g, p, w);
      FewNodesApart(g, p, v);
    }
  }

  lemma ThirdNode(nodes: set<Node>, l: Node, m: Node) returns (n: Node)
    requires 2 < |nodes| && l in nodes && m in nodes
    ensures n in nodes && n != l && n != m
  {
    assert |nodes - {l, m}| > 0 by {
      assert |nodes - {l}| == |nodes| - 1;
      assert nodes - {l, m} == nodes - {l} - {m};
    }
    n :| n in nodes - {l, m};
  }

  /**
   * What is reachable is found, whatever the edges and whatever is asked for, exactly when the names are unique and
   * not NULL, or there are at most two nodes.
   */
  lemma AlwaysFindsIff(nodes: set<Node>)
    requires UniqueIds(nodes)
    ensures AlwaysFinds(nodes) <==> UniqueNames(nodes) || |nodes| <= 2
  {
    if UniqueNames(nodes) || |nodes| <= 2 {
      forall edges, p, id
        ensures Finds(Graph(edges, nodes), p, id)
      {
        if UniqueNames(nodes) {
          assert WellNamed(Graph(edges, nodes));
          FoundIffReachable(Graph(edges, nodes), p, id);
        } else {
          FewNodesFind(Graph(edges, nodes), p, id);
        }
      }
    } else {
      var l, m := ClashingNodes(nodes);
      var n := ThirdNode(nodes, l, m);
      HiddenBehind(nodes, l, m, n);
      assert !Finds(Graph(Chain(nodes, l, m, n).edges, nodes), EVERYTHING, n.id);
    }
  }

  lemma ClashingNodes(nodes: set<Node>) returns (l: Node, m: Node)
    requires !UniqueNames(nodes) && 2 < |nodes|
    ensures l in nodes && m in nodes && l != m && (l.name == None || l.name == m.name)
  {
    if n :| n in nodes && n.name == None {
      l := n;
      m := ThirdNode(nodes, n, n);
    } else {
      l, m :| l in nodes && m in nodes && l.name == m.name && l != m;
    }
  }

  // ---------- exactly when the least depth is the distance ----------

  /** A node that has a row has one as shallow as any walk to it. */
  ghost predicate Shallow(g: Graph, p: Plan) {
    forall v, w | Listed(g, p, v) && Walk(g, p, w) && Last(v) == Last(w) :: HasRowWithin(g, p, Last(w), |w|)
  }

  ghost predicate HasRowWithin(g: Graph, p: Plan, n: Node, depth: nat) {
    exists u :: Listed(g, p, u) && Last(u) == n && RowOf(u).depth <= depth
  }

  /** Whatever the edges and the question, among these nodes the least depth of a node's rows is its distance. */
  ghost predicate AlwaysShallow(nodes: set<Node>) {
    forall edges: set<Edge>, p: Plan :: Shallow(Graph(edges, nodes), p)
  }

  ghost function KnownNames(nodes: set<Node>): set<Option<string>> {
    set n | n in nodes && n.name != None :: n.name
  }

  /** Two ways to `z`, one over `x` and a longer one over `a` and `b`, which both lead through `y`. */
  function Detour(nodes: set<Node>, x: Node, a: Node, b: Node, y: Node, z: Node): Graph {
    Graph({Edge(None, Some(x.id), None), Edge(Some(x.id), Some(y.id), None), Edge(Some(y.id), Some(z.id), None),
           Edge(None, Some(a.id), None), Edge(Some(a.id), Some(b.id), None), Edge(Some(b.id), Some(y.id), None)}, nodes)
  }

  ghost predicate Five(nodes: set<Node>, x: Node, a: Node, b: Node, y: Node, z: Node) {
    UniqueIds(nodes) && {x, a, b, y, z} <= nodes && NodesApart([x, a, b, y, z])
  }

  lemma DetourLinks(nodes: set<Node>, x: Node, a: Node, b: Node, y: Node, z: Node, s: Option<Id>, n: Node)
    requires Five(nodes, x, a, b, y, z)
    ensures Linked(Detour(nodes, x, a, b, y, z), s, n, None) <==>
              || (s == None && (n == x || n == a)) || (s == Some(a.id) && n == b)
              || (n == y && (s == Some(x.id) || s == Some(b.id))) || (s == Some(y.id) && n == z)
  {
    var g := Detour(nodes, x, a, b, y, z);
    FiveApart(nodes, x, a, b, y, z);
    if n in nodes && Edge(s, Some(n.id), None) in g.edges {
      assert Joined(g, Edge(s, Some(n.id), None), n, s, None);
    }
  }

  lemma FiveApart(nodes: set<Node>, x: Node, a: Node, b: Node, y: Node, z: Node)
    requires Five(nodes, x, a, b, y, z)
    ensures x in nodes && a in nodes && b in nodes && y in nodes && z in nodes
    ensures x != a && x != b && x != y && x != z && a != b && a != y && a != z && b != y && b != z && y != z
    ensures forall m, n | m in nodes && n in nodes && m.id == n.id :: m == n
  {
    var s := [x, a, b, y, z];
    assert s[0] == x && s[1] == a && s[2] == b && s[3] == y && s[4] == z;
  }

  /** The only walks to the last node are the two ways. */
  lemma DetourWalk(nodes: set<Node>, x: Node, a: Node, b: Node, y: Node, z: Node, w: seq<Node>)
    requires Five(nodes, x, a, b, y, z) && Walk(Detour(nodes, x, a, b, y, z), EVERYTHING, w) && Last(w) == z
    ensures w == [x, y, z] || w == [a, b, y, z]
  {
    hide Linked, Detour, Five;
    var g, k := Detour(nodes, x, a, b, y, z), |w|;
    assert g.nodes == nodes by { DetourNodes(nodes, x, a, b, y, z); }
    FiveApart(nodes, x, a, b, y, z);
    WalkInNodes(g, EVERYTHING, w);
    DetourLinks(nodes, x, a, b, y, z, None, w[0]);
    assert w[k - 1] == z && 2 <= k;
    DetourLinks(nodes, x, a, b, y, z, Some(w[k - 2].id), w[k - 1]);
    assert w[k - 2] == y && 3 <= k;
    DetourLinks(nodes, x, a, b, y, z, Some(w[k - 3].id), w[k - 2]);
    if 3 < k {
      DetourLinks(nodes, x, a, b, y, z, Some(w[k - 4].id), w[k - 3]);
      assert w[k - 4] == a;
      if 4 < k {
        DetourLinks(nodes, x, a, b, y, z, Some(w[k - 5].id), w[k - 4]);
      }
    }
  }

  lemma DetourNodes(nodes: set<Node>, x: Node, a: Node, b: Node, y: Node, z: Node)
    ensures Detour(nodes, x, a, b, y, z).nodes == nodes
  {
  }

  /** If `x` hides `y`, only the longer way to the last node has a row. */
  lemma DetourIsListed(nodes: set<Node>, x: Node, a: Node, b: Node, y: Node, z: Node)
    requires Five(nodes, x, a, b, y, z) && NamesApart([a, b, y]) && (x.name == None || x.name == y.name)
    ensures !Shallow(Detour(nodes, x, a, b, y, z), EVERYTHING)
  {
    hide Linked, Detour, Five, NamesApart;
    var g, w, v := Detour(nodes, x, a, b, y, z), [x, y, z], [a, b, y, z];
    FiveApart(nodes, x, a, b, y, z);
    DetourLinks(nodes, x, a, b, y, z, None, x);
    DetourLinks(nodes, x, a, b, y, z, Some(x.id), y);
    DetourLinks(nodes, x, a, b, y, z, Some(y.id), z);
    DetourLinks(nodes, x, a, b, y, z, None, a);
    DetourLinks(nodes, x, a, b, y, z, Some(a.id), b);
    DetourLinks(nodes, x, a, b, y, z, Some(b.id), y);
    assert Walk(g, EVERYTHING, w) && Walk(g, EVERYTHING, v);
    assert Front(v) == [a, b, y] && Front(w) == [x, y];
    TwoClash(x, y);
    forall u | Listed(g, EVERYTHING, u) && Last(u) == z
      ensures 3 < |u|
    {
      DetourWalk(nodes, x, a, b, y, z, u);
    }
    assert !HasRowWithin(g, EVERYTHING, z, 3);
  }

  lemma TwoClash(x: Node, y: Node)
    requires x.name == None || x.name == y.name
    ensures !NamesApart([x, y])
  {
    assert [x, y][0] == x && [x, y][1] == y;
  }

  lemma PrefixListed(g: Graph, p: Plan, v: seq<Node>, n: nat)
    requires Listed(g, p, v) && 0 < n <= |v|
    ensures Listed(g, p, v[..n]) && Last(v[..n]) == v[n - 1]
  {
    hide Linked;
    var u := v[..n];
    assert forall i | 0 <= i < n :: u[i] == v[i];
    assert forall i | 0 <= i < n - 1 :: Front(u)[i] == Front(v)[i];
  }

  /** A listed walk that comes to its last node for the first time. */
  lemma {:induction false} FirstVisit(g: Graph, p: Plan, v: seq<Node>) returns (u: seq<Node>)
    requires Listed(g, p, v)
    ensures Listed(g, p, u) && |u| <= |v| && Last(u) == Last(v) && Last(u) !in Front(u)
    decreases |v|
  {
    hide Linked, NamesApart;
    if Last(v) in Front(v) {
      var i :| 0 <= i < |v| - 1 && v[i] == Last(v);
      PrefixListed(g, p, v, i + 1);
      u := FirstVisit(g, p, v[..i + 1]);
    } else {
      u := v;
    }
  }

  lemma ShortWalk(g: Graph, p: Plan, w: seq<Node>)
    requires Walk(g, p, w) && |w| <= 2
    ensures Listed(g, p, w)
  {
  }

  lemma NamesOfFront(g: Graph, p: Plan, v: seq<Node>)
    requires Listed(g, p, v) && 4 <= |v|
    ensures 3 <= |KnownNames(g.nodes)|
    ensures v[0] != v[1] && v[0] != v[2] && v[1] != v[2]
  {
    hide Linked;
    WalkInNodes(g, p, v);
    var f := Front(v);
    assert f[0] == v[0] && f[1] == v[1] && f[2] == v[2];
    var three := {v[0].name, v[1].name, v[2].name};
    assert |three| == 3 by {
      assert three == {v[0].name} + {v[1].name} + {v[2].name};
    }
    assert v[0] in g.nodes && v[1] in g.nodes && v[2] in g.nodes;
    Subset(three, KnownNames(g.nodes));
  }

  lemma Subset<T>(a: set<T>, b: set<T>)
    requires a <= b
    ensures |a| <= |b|
    ensures |a| == |b| ==> a == b
  {
    assert b == a + (b - a);
    assert |b| == |a| + |b - a|;
  }

  /** Of four nodes, all but the end of a listed walk of four stand before that end. */
  lemma FourNodes(g: Graph, p: Plan, v: seq<Node>, x: Node)
    requires Listed(g, p, v) && 4 <= |v| && Last(v) !in Front(v) && |g.nodes| <= 4 && x in g.nodes && x != Last(v)
    ensures x in Front(v)
  {
    hide Linked;
    NamesOfFront(g, p, v);
    WalkInNodes(g, p, v);
    var f, n := Front(v), Last(v);
    assert f[0] == v[0] && f[1] == v[1] && f[2] == v[2] && f[0] in f && f[1] in f && f[2] in f;
    var four := {v[0]} + {v[1]} + {v[2]} + {n};
    assert |four| == 4;
    Subset(four, g.nodes);
    assert x in four;
  }

  /** A loop-free walk to the same node over nodes that stand before the end of a listed walk is listed. */
  lemma FrontInFront(g: Graph, p: Plan, v: seq<Node>, w: seq<Node>)
    requires Listed(g, p, v) && 3 <= |v| && Walk(g, p, w) && NodesApart(w)
    requires forall x | x in Front(w) :: x in Front(v)
    ensures Listed(g, p, w)
  {
    hide Linked;
    var f, h := Front(v), Front(w);
    forall i | 0 <= i < |h|
      ensures h[i].name != None
      ensures forall j | i < j < |h| :: h[i].name != h[j].name
    {
      var k := h[i];
      assert k in h && k in f;
      forall j | i < j < |h|
        ensures h[i].name != h[j].name
      {
        assert h[j] in h && h[j] in f && w[i] != w[j];
      }
    }
  }

  lemma FewAreShallow(g: Graph, p: Plan, v: seq<Node>, w: seq<Node>)
    requires |g.nodes| <= 4 || |KnownNames(g.nodes)| <= 2
    requires Listed(g, p, v) && Walk(g, p, w) && Last(v) == Last(w)
    ensures HasRowWithin(g, p, Last(w), |w|)
  {
    hide Linked, NamesApart, NodesApart, KnownNames;
    var u := FirstVisit(g, p, v);
    var x := WithoutLoops(g, p, w);
    if |x| <= 2 {
      ShortWalk(g, p, x);
    } else if 4 <= |u| {
      NamesOfFront(g, p, u);
      WalkInNodes(g, p, x);
      forall y | y in Front(x)
        ensures y in Front(u)
      {
        FrontIsNotLast(x, y);
        FourNodes(g, p, u, y);
      }
      FrontInFront(g, p, u, x);
    }
    assert RowOf(u).depth == |u| && RowOf(x).depth == |x|;
  }

  lemma FrontIsNotLast(w: seq<Node>, y: Node)
    requires w != [] && NodesApart(w) && y in Front(w)
    ensures y in w && y != Last(w)
  {
    var i :| 0 <= i < |w| - 1 && w[i] == y;
  }

  lemma NodeOfName(nodes: set<Node>, s: Option<string>) returns (n: Node)
    requires s in KnownNames(nodes)
    ensures n in nodes && n.name == s && s != None
  {
    n :| n in nodes && n.name != None && n.name == s;
  }

  lemma AnotherOf<T>(u: set<T>, v: set<T>) returns (x: T)
    requires |v| < |u|
    ensures x in u && x !in v
  {
    if u <= v {
      Subset(u, v);
    }
    x :| x in u && x !in v;
  }

  lemma HidingPair(nodes: set<Node>) returns (x: Node, y: Node)
    requires !UniqueNames(nodes) && KnownNames(nodes) != {}
    ensures x in nodes && y in nodes && x != y && y.name != None && (x.name == None || x.name == y.name)
  {
    hide KnownNames;
    if n :| n in nodes && n.name == None {
      x := n;
      var s :| s in KnownNames(nodes);
      y := NodeOfName(nodes, s);
    } else {
      x, y :| x in nodes && y in nodes && x.name == y.name && x != y;
    }
  }

  /** A name that is NULL or occurs twice, three names that are known, and five nodes: enough for the two ways. */
  lemma DetourNodesExist(nodes: set<Node>) returns (x: Node, a: Node, b: Node, y: Node, z: Node)
    requires UniqueIds(nodes) && !UniqueNames(nodes) && 4 < |nodes| && 2 < |KnownNames(nodes)|
    ensures Five(nodes, x, a, b, y, z) && NamesApart([a, b, y]) && (x.name == None || x.name == y.name)
  {
    hide KnownNames, UniqueNames, UniqueIds;
    x, y := HidingPair(nodes);
    var s := AnotherOf(KnownNames(nodes), {y.name});
    a := NodeOfName(nodes, s);
    s := AnotherOf(KnownNames(nodes), {y.name, a.name});
    b := NodeOfName(nodes, s);
    z := AnotherOf(nodes, {x, a, b, y});
  }

  /**
   * The least depth of a node's rows is its distance, whatever the edges and whatever is asked for, exactly when the
   * names are unique and not NULL, or there are at most four nodes, or at most two names that are known.
   */
  lemma LeastDepthIff(nodes: set<Node>)
    requires UniqueIds(nodes)
    ensures AlwaysShallow(nodes) <==> UniqueNames(nodes) || |nodes| <= 4 || |KnownNames(nodes)| <= 2
  {
    hide Linked, Five, KnownNames, HasRowWithin;
    if UniqueNames(nodes) || |nodes| <= 4 || |KnownNames(nodes)| <= 2 {
      forall edges, p, v, w | Listed(Graph(edges, nodes), p, v) && Walk(Graph(edges, nodes), p, w) && Last(v) == Last(w)
        ensures HasRowWithin(Graph(edges, nodes), p, Last(w), |w|)
      {
        if UniqueNames(nodes) {
          UniqueAreShallow(Graph(edges, nodes), p, w);
        } else {
          FewAreShallow(Graph(edges, nodes), p, v, w);
        }
      }
    } else {
      var x, a, b, y, z := DetourNodesExist(nodes);
      DetourIsListed(nodes, x, a, b, y, z);
      assert !Shallow(Graph(Detour(nodes, x, a, b, y, z).edges, nodes), EVERYTHING);
    }
  }

  lemma UniqueAreShallow(g: Graph, p: Plan, w: seq<Node>)
    requires UniqueIds(g.nodes) && UniqueNames(g.nodes) && Walk(g, p, w)
    ensures HasRowWithin(g, p, Last(w), |w|)
  {
    hide Linked;
    assert WellNamed(g);
    var v := LeastDepthIsDistance(g, p, w);
    WalkInNodes(g, p, v);
    WalkInNodes(g, p, w);
    assert Last(v) in v && Last(w) in w;
  }
}
