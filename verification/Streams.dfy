/**
 * Two streams of digits made by one writer: what was meant to be written, and what is read. A digit can get lost,
 * and a gap that reads as zero can come in; the two streams are the same if and only if they run in step again at
 * the end and nothing but zeros passed while they did not.
 */
module Streams {
  import opened Basics

  /** A digit that is read as it was meant, one that got lost, or a zero that nobody meant. */
  datatype Item = Shown(v: bv32) | Lost(v: bv32) | Gap

  function Seen(items: seq<Item>): seq<bv32> {
    if items == [] then []
    else
      match items[0]
      case Shown(v) => [v] + Seen(items[1..])
      case Lost(_) => Seen(items[1..])
      case Gap => [0] + Seen(items[1..])
  }

  function Meant(items: seq<Item>): seq<bv32> {
    if items == [] then []
    else
      match items[0]
      case Shown(v) => [v] + Meant(items[1..])
      case Lost(v) => [v] + Meant(items[1..])
      case Gap => Meant(items[1..])
  }

  /** By how many digits an item puts what is read ahead of what was meant. */
  function Lead(x: Item): int {
    match x case Shown(_) => 0 case Lost(_) => -1 case Gap => 1
  }

  /** Whether an item may come at a lead of `o`: out of step only zeros pass, and only zeros get lost at all. */
  predicate Passes(x: Item, o: int) {
    match x case Shown(v) => o == 0 || v == 0 case Lost(v) => v == 0 case Gap => true
  }

  /** From a lead of `o` on everything passes, and the lead is gone at the end. */
  predicate InStep(items: seq<Item>, o: int) {
    if items == [] then o == 0 else Passes(items[0], o) && InStep(items[1..], o + Lead(items[0]))
  }

  function Zeros(n: nat): (s: seq<bv32>)
    ensures |s| == n
  {
    Copies(0, n)
  }

  ghost predicate AllZero(s: seq<bv32>) {
    forall k | 0 <= k < |s| :: s[k] == 0
  }

  lemma HeadsAndTails(x: bv32, a: seq<bv32>, y: bv32, b: seq<bv32>)
    ensures [x] + a == [y] + b <==> x == y && a == b
  {
    if [x] + a == [y] + b {
      assert ([x] + a)[0] == ([y] + b)[0];
      assert ([x] + a)[1..] == a && ([y] + b)[1..] == b;
    }
  }

  lemma ZerosShift(n: nat, a: seq<bv32>)
    ensures Zeros(n) + ([0] + a) == Zeros(n + 1) + a == [0] + (Zeros(n) + a)
  {
  }

  /** A queue that has moved on by one. */
  lemma QueueMoves(q: seq<bv32>, v: bv32, a: seq<bv32>, b: seq<bv32>)
    requires q != []
    ensures [v] + a == q + b <==> v == q[0] && a == q[1..] + b
  {
    assert q + b == [q[0]] + (q[1..] + b);
    HeadsAndTails(v, a, q[0], q[1..] + b);
  }

  /** The streams from some item on, with zeros read ahead or a queue of digits still to be read. */
  lemma {:induction false} SameFrom(items: seq<Item>, n: nat, q: seq<bv32>)
    requires n == 0 || q == []
    ensures Zeros(n) + Seen(items) == q + Meant(items) <==> AllZero(q) && InStep(items, n - |q|)
    decreases |items|, 0
  {
    if items == [] {
      assert Zeros(n) + [] == Zeros(n) && q + [] == q;
    } else {
      var rest := items[1..];
      match items[0]
      case Shown(v) => ShownFrom(v, rest, n, q);
      case Lost(v) => LostFrom(v, rest, n, q);
      case Gap => GapFrom(rest, n, q);
    }
  }

  lemma {:induction false} ShownFrom(v: bv32, rest: seq<Item>, n: nat, q: seq<bv32>)
    requires n == 0 || q == []
    ensures Zeros(n) + ([v] + Seen(rest)) == q + ([v] + Meant(rest))
       <==> AllZero(q) && (n - |q| == 0 || v == 0) && InStep(rest, n - |q|)
    decreases |rest|, 1
  {
    hide InStep, Seen, Meant;
    var a, b := Seen(rest), Meant(rest);
    if q != [] {
      var moved := q[1..] + [v];
      assert Zeros(n) + ([v] + a) == [v] + a;
      QueueMoves(q, v, a, [v] + b);
      assert q[1..] + ([v] + b) == moved + b;
      assert Zeros(0) + a == a;
      SameFrom(rest, 0, moved);
      assert AllZero(moved) && v == q[0] <==> AllZero(q) && v == 0 by { MovedZeros(q, v); }
    } else if n != 0 {
      assert Zeros(n) + ([v] + a) == [0] + (Zeros(n - 1) + ([v] + a));
      assert q + ([v] + b) == [v] + b && q + b == b;
      HeadsAndTails(0, Zeros(n - 1) + ([v] + a), v, b);
      ZerosShift(n - 1, a);
      SameFrom(rest, n, []);
    } else {
      assert Zeros(n) + ([v] + a) == [v] + a && Zeros(n) + a == a;
      assert q + ([v] + b) == [v] + b && q + b == b;
      HeadsAndTails(v, a, v, b);
      SameFrom(rest, 0, []);
    }
  }

  lemma MovedZeros(q: seq<bv32>, v: bv32)
    requires q != []
    ensures AllZero(q[1..] + [v]) && v == q[0] <==> AllZero(q) && v == 0
  {
    var m := q[1..] + [v];
    assert forall k | 0 <= k < |q| - 1 :: m[k] == q[k + 1];
    assert forall k | 1 <= k < |q| :: q[k] == m[k - 1];
    assert m[|q| - 1] == v;
  }

  lemma {:induction false} LostFrom(v: bv32, rest: seq<Item>, n: nat, q: seq<bv32>)
    requires n == 0 || q == []
    ensures Zeros(n) + Seen(rest) == q + ([v] + Meant(rest))
       <==> AllZero(q) && v == 0 && InStep(rest, n - |q| - 1)
    decreases |rest|, 1
  {
    hide InStep, Seen, Meant;
    var a, b := Seen(rest), Meant(rest);
    if n != 0 {
      assert Zeros(n) + a == [0] + (Zeros(n - 1) + a);
      assert q + ([v] + b) == [v] + b && [] + b == b;
      HeadsAndTails(0, Zeros(n - 1) + a, v, b);
      SameFrom(rest, n - 1, []);
    } else {
      assert q + ([v] + b) == q + [v] + b;
      SameFrom(rest, 0, q + [v]);
      assert AllZero(q + [v]) <==> AllZero(q) && v == 0 by {
        assert forall k | 0 <= k < |q| :: (q + [v])[k] == q[k];
        assert (q + [v])[|q|] == v;
      }
    }
  }

  lemma {:induction false} GapFrom(rest: seq<Item>, n: nat, q: seq<bv32>)
    requires n == 0 || q == []
    ensures Zeros(n) + ([0] + Seen(rest)) == q + Meant(rest) <==> AllZero(q) && InStep(rest, n - |q| + 1)
    decreases |rest|, 1
  {
    hide InStep, Seen, Meant;
    var a, b := Seen(rest), Meant(rest);
    if q == [] {
      ZerosShift(n, a);
      SameFrom(rest, n + 1, []);
    } else {
      assert Zeros(n) + ([0] + a) == [0] + a && Zeros(0) + a == a;
      QueueMoves(q, 0, a, b);
      SameFrom(rest, 0, q[1..]);
      assert AllZero(q) <==> q[0] == 0 && AllZero(q[1..]) by {
        assert forall k | 1 <= k < |q| :: q[k] == q[1..][k - 1];
      }
    }
  }

  /** What is read is what was meant if and only if the two streams keep in step. */
  lemma SameIff(items: seq<Item>)
    ensures Seen(items) == Meant(items) <==> InStep(items, 0)
  {
    hide InStep, Seen, Meant;
    SameFrom(items, 0, []);
    assert Zeros(0) + Seen(items) == Seen(items) && [] + Meant(items) == Meant(items);
  }

  // ---------- scripts put together ----------

  lemma {:induction false} SeenConcat(a: seq<Item>, b: seq<Item>)
    ensures Seen(a + b) == Seen(a) + Seen(b) && Meant(a + b) == Meant(a) + Meant(b)
  {
    if a == [] {
      assert a + b == b;
    } else {
      assert (a + b)[1..] == a[1..] + b;
      SeenConcat(a[1..], b);
    }
  }

  /** The lead at the end of a script. */
  function TotalLead(items: seq<Item>): int {
    if items == [] then 0 else Lead(items[0]) + TotalLead(items[1..])
  }

  lemma {:induction false} SeenLength(items: seq<Item>)
    ensures |Seen(items)| == |Meant(items)| + TotalLead(items)
  {
    if items != [] {
      SeenLength(items[1..]);
    }
  }

  /** Everything passes from a lead of `o` on. */
  predicate AllPass(items: seq<Item>, o: int) {
    items == [] || (Passes(items[0], o) && AllPass(items[1..], o + Lead(items[0])))
  }

  lemma {:induction false} InStepConcat(a: seq<Item>, b: seq<Item>, o: int)
    ensures InStep(a + b, o) <==> AllPass(a, o) && InStep(b, o + TotalLead(a))
  {
    hide Passes;
    if a == [] {
      assert a + b == b;
    } else {
      assert (a + b)[1..] == a[1..] + b;
      InStepConcat(a[1..], b, o + Lead(a[0]));
    }
  }

  lemma {:induction false} InStepCounts(items: seq<Item>, o: int)
    requires InStep(items, o)
    ensures o + TotalLead(items) == 0 && |Seen(items)| + o == |Meant(items)|
  {
    if items != [] {
      InStepCounts(items[1..], o + Lead(items[0]));
    }
  }
}
