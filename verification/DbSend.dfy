/** Sending a query over a connection that does not block: at most four waits for it to become writable. */
module DbSend {

  /**
   * What the connection will answer: whether it is busy when asked for the n-th time, whether the n-th wait finds
   * it writable, whether it takes the query, and whether output is left when it is flushed for the n-th time.
   */
  datatype Link = Link(busy: nat -> bool, writable: nat -> bool, accepts: bool, pending: nat -> bool)

  const WAITS: nat := 4

  const SENT := 0
  const INTERNAL_ERROR := 500
  const TOO_MANY_REQUESTS := 429

  /** `p` holds for exactly the first `rounds` times. */
  ghost predicate LastsExactly(p: nat -> bool, rounds: nat) {
    !p(rounds) && forall k: nat | k < rounds :: p(k)
  }

  ghost predicate AllBelow(p: nat -> bool, n: nat) {
    forall k: nat | k < n :: p(k)
  }

  /** The connection was busy for `b` rounds, took the query, and was flushed after `f` more, every wait succeeding. */
  ghost predicate Through(l: Link, b: nat, f: nat) {
    LastsExactly(l.busy, b) && l.accepts && LastsExactly(l.pending, f) && AllBelow(l.writable, b + f)
  }

  /** It went through with a wait to spare. */
  ghost predicate InTime(l: Link) {
    exists b: nat, f: nat :: b + f < WAITS && Through(l, b, f)
  }

  /** It went through with the fourth wait. */
  ghost predicate JustInTime(l: Link) {
    exists b: nat, f: nat :: b + f == WAITS && Through(l, b, f)
  }

  /**
   * Waits are counted over both loops. The result is 0 exactly when the query went through with a wait to spare;
   * a fourth wait fails the request even if it was the one that finished it.
   */
  method Send(l: Link) returns (code: nat, waits: nat, flushed: bool)
    ensures waits <= 4 && (code == 429 ==> waits == 4)
    ensures code == 0 <==> InTime(l)
    ensures code == 0 ==> flushed && l.accepts && waits < 4
    ensures code == 429 <==> l.accepts && AllBelow(l.writable, 4) && !InTime(l)
    ensures code in {0, 429, 500}
    ensures JustInTime(l) ==> code == 429 && flushed
  {
    var count := WAITS;
    var b: nat := 0;
    flushed := false;
    while l.busy(b) && count > 0
      invariant b + count == WAITS && AllBelow(l.busy, b) && AllBelow(l.writable, b)
      decreases count
    {
      count := count - 1;
      if !l.writable(b) {
        return INTERNAL_ERROR, b + 1, false;
      }
      b := b + 1;
    }
    if !l.accepts {
      return INTERNAL_ERROR, b, false;
    }
    var f: nat := 0;
    var flush := l.pending(f);
    while flush && count > 0
      invariant b + f + count == WAITS && AllBelow(l.pending, f) && AllBelow(l.writable, b + f) && flush == l.pending(f)
      decreases count
    {
      count := count - 1;
      if !l.writable(b + f) {
        return INTERNAL_ERROR, b + f + 1, false;
      }
      f := f + 1;
      flush := l.pending(f);
    }
    flushed := !flush;
    waits := b + f;
    code := if count == 0 then TOO_MANY_REQUESTS else SENT;
    if count > 0 {
      assert Through(l, b, f);
    }
    assert AllBelow(l.busy, b) && AllBelow(l.pending, f);
    assert b < WAITS ==> LastsExactly(l.busy, b);
    forall b': nat, f': nat | Through(l, b', f') && b' + f' <= WAITS && b + f == WAITS
      ensures b' + f' == WAITS && flushed
    {
      assert b <= b' by { assert !l.busy(b'); }
      assert f <= f' by { assert !l.pending(f'); }
    }
  }
}
