/** The session table: login, refresh, logout and the sweep that ends expired sessions. */
module Sessions {
  import opened Wrappers

  type Key = string

  /** A database connection; the number stands for its address. */
  type Conn = nat

  const SESSION_TIMEOUT: nat := 300 * 1000

  const U32: nat := 0x1_0000_0000
  const U64: nat := 0x1_0000_0000_0000_0000

  // ---------- deadlines ----------

  /** A deadline is kept in 32 bits. */
  function Deadline(now: nat): nat {
    (now + SESSION_TIMEOUT) % U32
  }

  /** The 64-bit difference of a deadline and the clock, cut to a signed 32-bit number. */
  function Remaining(timeout: nat, now: nat): int {
    var low := (timeout - now) % U64 % U32;
    if low < 0x8000_0000 then low else low - U32
  }

  predicate Expired(timeout: nat, now: nat) {
    Remaining(timeout, now) < 0
  }

  lemma ModuloOfModulo(x: int)
    ensures x % U64 % U32 == x % U32
  {
  }

  lemma ModuloShift(r: int, k: int)
    ensures (k * U32 + r) % U32 == r % U32
  {
  }

  /** By how much the clock is past the deadline decides, and only up to multiples of 2^32. */
  lemma ExpiredByDistance(t: nat, now: nat)
    ensures Expired(Deadline(t), now) <==> (t + SESSION_TIMEOUT - now) % U32 >= 0x8000_0000
  {
    var due := t + SESSION_TIMEOUT;
    ModuloOfModulo(Deadline(t) - now);
    assert Deadline(t) == due - due / U32 * U32;
    ModuloShift(due - now, -(due / U32));
    assert (Deadline(t) - now) % U32 == (due - now) % U32;
  }

  /** Within 2^31 milliseconds of the deadline the wrapped comparison says what the true times say. */
  lemma ExpiryWithinRange(t: nat, now: nat)
    requires t <= now <= t + SESSION_TIMEOUT + 0x8000_0000
    ensures Expired(Deadline(t), now) <==> t + SESSION_TIMEOUT < now
  {
    ExpiredByDistance(t, now);
  }

  /** A session lasts for five minutes. */
  lemma FiveMinutes(t: nat)
    ensures !Expired(Deadline(t), t + 300_000) && Expired(Deadline(t), t + 300_001)
  {
    ExpiryWithinRange(t, t + 300_000);
    ExpiryWithinRange(t, t + 300_001);
  }

  /** In general it does so exactly when the time past the deadline, counted from 1, falls in a first half of 2^32. */
  lemma ExpiryIff(t: nat, now: nat)
    requires t <= now
    ensures (Expired(Deadline(t), now) <==> t + SESSION_TIMEOUT < now)
       <==> (now <= t + SESSION_TIMEOUT || (now - t - SESSION_TIMEOUT - 1) % U32 < 0x8000_0000)
  {
    ExpiredByDistance(t, now);
    var late := now - t - SESSION_TIMEOUT;
    if 0 < late {
      var q, r := (late - 1) / U32, (late - 1) % U32;
      ModuloShift(U32 - 1 - r, -(q + 1));
    }
  }

  /** A session left alone for some 25 days would count as fresh again. */
  lemma WrappedSessionLives()
    ensures !Expired(Deadline(0), SESSION_TIMEOUT + 0x8000_0001)
  {
  }

  // ---------- the table and its steps ----------

  datatype Entry = Entry(timestamp: nat, timeout: nat, conn: Conn)

  /** The entries, the connections that are open, and those that were closed, in order. */
  datatype Table = Table(entries: map<Key, Entry>, open: set<Conn>, finished: seq<Conn>)

  /** How a login ends: with a session, without a connection, or with one but an address that is not accepted. */
  datatype Attempt = Accepted | Disconnected | BadAddress(malformed: bool)

  datatype Event =
    | Login(key: Key, conn: Conn, attempt: Attempt, now: nat)
    | Refresh(key: Key, now: nat)
    | Logout(key: Key)
    | Sweep(clock: Key -> nat)

  function Touched(now: nat, conn: Conn): Entry {
    Entry(now, Deadline(now), conn)
  }

  /** Removes one entry and closes its connection. */
  function Freed(t: Table, k: Key): Table
    requires k in t.entries
  {
    var c := t.entries[k].conn;
    Table(t.entries - {k}, t.open - {c}, t.finished + [c])
  }

  ghost predicate Stale(t: Table, clock: Key -> nat, k: Key) {
    k in t.entries && Expired(t.entries[k].timeout, clock(k))
  }

  /** One step; a sweep may close the connections of the expired entries in any order. */
  ghost predicate Steps(t: Table, e: Event, u: Table) {
    match e
    case Login(k, c, attempt, now) =>
      (match attempt
       case Accepted => u == Table(t.entries[k := Touched(now, c)], t.open + {c}, t.finished)
       case Disconnected => u == t.(finished := t.finished + [c])
       case BadAddress(_) => u == t.(open := t.open + {c}))
    case Refresh(k, now) =>
      u == if k in t.entries then t.(entries := t.entries[k := Touched(now, t.entries[k].conn)]) else t
    case Logout(k) =>
      u == if k in t.entries then Freed(t, k) else t
    case Sweep(clock) =>
      && (forall k :: k in u.entries <==> k in t.entries && !Stale(t, clock, k))
      && (forall k | k in u.entries :: u.entries[k] == t.entries[k])
      && (forall c :: c in u.open <==> c in t.open && !exists k :: Stale(t, clock, k) && t.entries[k].conn == c)
      && t.finished <= u.finished
      && (forall c :: c in u.finished[|t.finished|..] <==> exists k :: Stale(t, clock, k) && t.entries[k].conn == c)
      && (forall i, j | |t.finished| <= i < j < |u.finished| :: u.finished[i] != u.finished[j])
  }

  /** A connection is new: it is neither open nor closed. */
  ghost predicate Allowed(t: Table, e: Event) {
    e.Login? ==> e.conn !in t.open && e.conn !in t.finished
  }

  /** What every step keeps. */
  ghost predicate Sound(t: Table) {
    && (forall k | k in t.entries ::
          t.entries[k].timeout == Deadline(t.entries[k].timestamp) && t.entries[k].conn in t.open)
    && (forall k, l | k in t.entries && l in t.entries && k != l :: t.entries[k].conn != t.entries[l].conn)
    && (forall c | c in t.open :: c !in t.finished)
    && (forall i, j | 0 <= i < j < |t.finished| :: t.finished[i] != t.finished[j])
  }

  /** Every entry has the deadline of its time stamp and an open connection of its own; none is closed twice. */
  lemma SoundMeans(t: Table, k: Key, l: Key, i: nat, j: nat)
    requires Sound(t)
    ensures k in t.entries ==> t.entries[k].timeout == Deadline(t.entries[k].timestamp)
    ensures k in t.entries ==> t.entries[k].conn in t.open && t.entries[k].conn !in t.finished
    ensures k in t.entries && l in t.entries && k != l ==> t.entries[k].conn != t.entries[l].conn
    ensures i < j < |t.finished| ==> t.finished[i] != t.finished[j]
  {
  }

  lemma StepKeepsSound(t: Table, e: Event, u: Table)
    requires Sound(t) && Allowed(t, e) && Steps(t, e, u)
    ensures Sound(u)
  {
    if e.Sweep? {
      SweepKeepsSound(t, e.clock, u);
    }
  }

  lemma SweepKeepsSound(t: Table, clock: Key -> nat, u: Table)
    requires Sound(t) && Steps(t, Sweep(clock), u)
    ensures Sound(u)
  {
    forall k | k in u.entries
      ensures u.entries[k].conn in u.open
    {
      assert forall l | Stale(t, clock, l) :: l != k;
    }
    var n := |t.finished|;
    forall i | 0 <= i < |u.finished|
      ensures i < n ==> u.finished[i] == t.finished[i]
      ensures n <= i ==> u.finished[i] in t.open && u.finished[i] !in u.open
    {
      if n <= i {
        assert u.finished[i] in u.finished[n..];
      }
    }
  }

  // ---------- runs ----------

  const EMPTY := Table(map[], {}, [])

  /** The tables before, between and after the events of a run that starts with an empty table. */
  ghost predicate Run(es: seq<Event>, ts: seq<Table>) {
    && |ts| == |es| + 1 && ts[0] == EMPTY
    && forall i | 0 <= i < |es| :: Allowed(ts[i], es[i]) && Steps(ts[i], es[i], ts[i + 1])
  }

  /**
   * In every run, every entry has the deadline of its time stamp and an open connection of its own, and no connection
   * is closed twice.
   */
  lemma {:induction false} RunIsSound(es: seq<Event>, ts: seq<Table>, n: nat)
    requires Run(es, ts) && n <= |es|
    ensures Sound(ts[n])
  {
    hide Steps, Allowed;
    if n != 0 {
      RunIsSound(es, ts, n - 1);
      StepKeepsSound(ts[n - 1], es[n - 1], ts[n]);
    }
  }

  /** In every run the list of closed connections only grows, at its end. */
  lemma {:induction false} HistoryGrows(es: seq<Event>, ts: seq<Table>, m: nat, n: nat)
    requires Run(es, ts) && m <= n <= |es|
    ensures ts[m].finished <= ts[n].finished
    decreases n - m
  {
    hide Allowed;
    if m < n {
      HistoryGrows(es, ts, m, n - 1);
      assert Steps(ts[n - 1], es[n - 1], ts[n]);
      StepExtends(ts[n - 1], es[n - 1], ts[n]);
    }
  }

  lemma StepExtends(t: Table, e: Event, u: Table)
    requires Steps(t, e, u)
    ensures t.finished <= u.finished
  {
  }

  predicate Touches(e: Event, k: Key) {
    (e.Login? && e.attempt == Accepted && e.key == k) || (e.Refresh? && e.key == k)
  }

  /** The time of the last login or refresh under a key among the first `n` events. */
  function LastTouch(es: seq<Event>, n: nat, k: Key): Option<nat>
    requires n <= |es|
  {
    if n == 0 then None
    else if Touches(es[n - 1], k) then Some(es[n - 1].now)
    else LastTouch(es, n - 1, k)
  }

  /** In every run the time stamp of an entry is the time of the last login or refresh under its key. */
  lemma {:induction false} TimestampIsLastTouch(es: seq<Event>, ts: seq<Table>, n: nat, k: Key)
    requires Run(es, ts) && n <= |es| && k in ts[n].entries
    ensures LastTouch(es, n, k) == Some(ts[n].entries[k].timestamp)
  {
    if n != 0 {
      var t, e := ts[n - 1], es[n - 1];
      assert Steps(t, e, ts[n]);
      if k in t.entries {
        TimestampIsLastTouch(es, ts, n - 1, k);
      }
    }
  }

  /**
   * In every run a sweep keeps an entry whose last touch is not longer ago than the timeout, and removes any other,
   * exactly if it comes in time or in a first half of 2^32 past the deadline; at once past the deadline it does.
   */
  lemma SweepKeepsExactlyTheLive(es: seq<Event>, ts: seq<Table>, n: nat, k: Key)
    requires Run(es, ts) && n < |es| && es[n].Sweep? && k in ts[n].entries
    ensures LastTouch(es, n, k).Some?
    ensures var t, now := LastTouch(es, n, k).value, es[n].clock(k);
            t <= now ==> ((k in ts[n + 1].entries <==> now <= t + SESSION_TIMEOUT)
                      <==> (now <= t + SESSION_TIMEOUT || (now - t - SESSION_TIMEOUT - 1) % U32 < 0x8000_0000))
  {
    hide Expired;
    TimestampIsLastTouch(es, ts, n, k);
    RunIsSound(es, ts, n);
    assert Steps(ts[n], es[n], ts[n + 1]);
    var t, now := LastTouch(es, n, k).value, es[n].clock(k);
    if t <= now {
      ExpiryIff(t, now);
    }
  }

  /** Every connection ever made is open, or has been closed. */
  lemma {:induction false} ConnectionsAreAccounted(es: seq<Event>, ts: seq<Table>, n: nat, c: Conn)
    requires Run(es, ts) && n <= |es|
    ensures (c in ts[n].open || c in ts[n].finished) <==> exists i :: 0 <= i < n && es[i].Login? && es[i].conn == c
  {
    if n != 0 {
      ConnectionsAreAccounted(es, ts, n - 1, c);
      var t, e, u := ts[n - 1], es[n - 1], ts[n];
      assert Steps(t, e, u);
      RunIsSound(es, ts, n - 1);
      StepAccounts(t, e, u, c);
      if c in u.open || c in u.finished {
        if c in t.open || c in t.finished {
          var i :| 0 <= i < n - 1 && es[i].Login? && es[i].conn == c;
        }
      }
    }
  }

  lemma StepAccounts(t: Table, e: Event, u: Table, c: Conn)
    requires Sound(t) && Steps(t, e, u)
    ensures (c in u.open || c in u.finished) <==> (c in t.open || c in t.finished || (e.Login? && e.conn == c))
  {
    if e.Sweep? {
      var more := u.finished[|t.finished|..];
      assert u.finished == t.finished + more;
      if c in more {
        var k :| Stale(t, e.clock, k) && t.entries[k].conn == c;
      }
    }
  }

  ghost function Owned(t: Table): set<Conn> {
    set k | k in t.entries :: t.entries[k].conn
  }

  /** A login that leaves every open connection with an entry: its key is not in use, and its address accepted. */
  ghost predicate Clean(t: Table, e: Event) {
    e.Login? ==> !e.attempt.BadAddress? && (e.attempt == Accepted ==> e.key !in t.entries)
  }

  /**
   * In every run the open connections are those of the entries exactly if all logins were clean: a login under a
   * key in use, or from an address that is not accepted, loses a connection for good.
   */
  lemma {:induction false} NoConnectionIsLostIff(es: seq<Event>, ts: seq<Table>, n: nat)
    requires Run(es, ts) && n <= |es|
    ensures ts[n].open == Owned(ts[n]) <==> forall i | 0 <= i < n :: Clean(ts[i], es[i])
  {
    hide Steps, Sound, Owned, Clean, Allowed;
    if n == 0 {
      NothingOwned();
    } else {
      var t, e, u := ts[n - 1], es[n - 1], ts[n];
      NoConnectionIsLostIff(es, ts, n - 1);
      RunIsSound(es, ts, n - 1);
      EntriesAreOpen(t);
      assert Steps(t, e, u) && Allowed(t, e);
      if t.open == Owned(t) && Clean(t, e) {
        StepLosesNothing(t, e, u);
      } else if t.open == Owned(t) {
        var c := UncleanStep(t, e, u);
      } else {
        var c :| c in t.open && c !in Owned(t);
        LostStaysLost(t, e, u, c);
      }
    }
  }

  lemma NothingOwned()
    ensures Owned(EMPTY) == EMPTY.open
  {
  }

  lemma EntriesAreOpen(t: Table)
    requires Sound(t)
    ensures Owned(t) <= t.open
  {
  }

  /** An open connection without an entry gets none, and is not closed, in any step. */
  lemma LostStaysLost(t: Table, e: Event, u: Table, c: Conn)
    requires Sound(t) && Allowed(t, e) && Steps(t, e, u) && c in t.open && c !in Owned(t)
    ensures c in u.open && c !in Owned(u)
  {
    hide Expired;
    assert forall k | k in t.entries :: t.entries[k].conn in Owned(t);
    assert forall k | k in u.entries :: u.entries[k].conn != c;
  }

  /** A login that is not clean leaves a connection without an entry. */
  lemma UncleanStep(t: Table, e: Event, u: Table) returns (c: Conn)
    requires Sound(t) && Allowed(t, e) && Steps(t, e, u) && !Clean(t, e)
    ensures c in u.open && c !in Owned(u)
  {
    c := if e.attempt.BadAddress? then e.conn else t.entries[e.key].conn;
    assert forall k | k in u.entries :: u.entries[k].conn != c;
  }

  lemma StepLosesNothing(t: Table, e: Event, u: Table)
    requires Sound(t) && Steps(t, e, u) && t.open == Owned(t) && Clean(t, e)
    ensures u.open == Owned(u)
  {
    hide Steps, Sound, Owned, Clean;
    forall c
      ensures c in u.open <==> c in Owned(u)
    {
      StaysOwned(t, e, u, c);
      StaysOpen(t, e, u, c);
    }
  }

  lemma StaysOwned(t: Table, e: Event, u: Table, c: Conn)
    requires Sound(t) && Steps(t, e, u) && t.open == Owned(t) && Clean(t, e)
    ensures c in u.open ==> c in Owned(u)
  {
    hide Expired;
    if c in u.open {
      if c in t.open {
        var k :| k in t.entries && t.entries[k].conn == c;
        assert k in u.entries && u.entries[k].conn == c;
      } else {
        assert u.entries[e.key].conn == c;
      }
    }
  }

  lemma StaysOpen(t: Table, e: Event, u: Table, c: Conn)
    requires Sound(t) && Steps(t, e, u) && t.open == Owned(t)
    ensures c in Owned(u) ==> c in u.open
  {
    hide Expired;
    if c in Owned(u) {
      var k :| k in u.entries && u.entries[k].conn == c;
      assert k in t.entries || c == e.conn;
    }
  }

  // ---------- the sweep, entry by entry ----------

  /** The connection of an expired entry that the sweep has looked at. */
  ghost predicate Gone(t: Table, clock: Key -> nat, left: set<Key>, c: Conn) {
    exists k :: Stale(t, clock, k) && k !in left && t.entries[k].conn == c
  }

  /** A table in the middle of a sweep that has yet to look at `left`. */
  ghost predicate SweptExcept(t: Table, clock: Key -> nat, left: set<Key>, u: Table) {
    && (forall k :: k in u.entries <==> k in t.entries && (k in left || !Stale(t, clock, k)))
    && (forall k | k in u.entries :: u.entries[k] == t.entries[k])
    && (forall c :: c in u.open <==> c in t.open && !Gone(t, clock, left, c))
    && t.finished <= u.finished
    && (forall c :: c in u.finished[|t.finished|..] <==> Gone(t, clock, left, c))
    && (forall i, j | |t.finished| <= i < j < |u.finished| :: u.finished[i] != u.finished[j])
  }

  lemma GoneNext(t: Table, clock: Key -> nat, left: set<Key>, k: Key, c: Conn)
    requires k in left
    ensures Gone(t, clock, left - {k}, c) <==> Gone(t, clock, left, c) || (Stale(t, clock, k) && t.entries[k].conn == c)
  {
  }

  lemma SweepOne(t: Table, clock: Key -> nat, left: set<Key>, u: Table, k: Key)
    requires Sound(t) && SweptExcept(t, clock, left, u) && k in left && k in u.entries
    ensures SweptExcept(t, clock, left - {k}, if Expired(u.entries[k].timeout, clock(k)) then Freed(u, k) else u)
  {
    hide Expired;
    forall c
      ensures Gone(t, clock, left - {k}, c)
         <==> Gone(t, clock, left, c) || (Stale(t, clock, k) && t.entries[k].conn == c)
    {
      GoneNext(t, clock, left, k, c);
    }
    if Stale(t, clock, k) {
      OneMoreGone(t, clock, left, k);
    }
    hide Gone;
    if Stale(t, clock, k) {
      var c, v := t.entries[k].conn, Freed(u, k);
      var n := |t.finished|;
      assert v.finished[n..] == u.finished[n..] + [c];
      assert forall i | n <= i < |u.finished| :: u.finished[i] in u.finished[n..];
    }
  }

  lemma SweepDone(t: Table, clock: Key -> nat, u: Table)
    requires SweptExcept(t, clock, {}, u)
    ensures Steps(t, Sweep(clock), u)
  {
    hide Expired;
    assert forall c :: Gone(t, clock, {}, c) <==> exists k :: Stale(t, clock, k) && t.entries[k].conn == c;
  }

  lemma OneMoreGone(t: Table, clock: Key -> nat, left: set<Key>, k: Key)
    requires Sound(t) && k in left && k in t.entries
    ensures !Gone(t, clock, left, t.entries[k].conn)
  {
  }

  // ---------- the server ----------

  class Session {
    var timestamp: nat
    var timeout: nat
    const conn: Conn
    const skey: Key

    constructor (skey: Key, conn: Conn, now: nat)
      ensures this.skey == skey && this.conn == conn && timestamp == now && timeout == Deadline(now)
    {
      this.skey := skey;
      this.conn := conn;
      timestamp := now;
      timeout := Deadline(now);
    }
  }

  class Server {
    var sessions: map<Key, Session>
    var open: set<Conn>
    var finished: seq<Conn>

    /** Every session is filed under its own key. */
    ghost predicate Valid()
      reads this
    {
      forall k | k in sessions :: sessions[k].skey == k
    }

    ghost function Abs(): Table
      reads this, sessions.Values
    {
      Table(map k | k in sessions :: Entry(sessions[k].timestamp, sessions[k].timeout, sessions[k].conn), open,
          finished)
    }

    constructor ()
      ensures Valid() && Abs() == EMPTY
    {
      sessions, open, finished := map[], {}, [];
    }

    /**
     * A connection that could not be used is closed at once. Else it is filed, and an older session of that key
     * forgotten; but if the client's address is not accepted it is left open and filed nowhere.
     */
    method Login(k: Key, c: Conn, attempt: Attempt, now: nat)
      requires Valid()
      modifies this
      ensures Valid() && Steps(old(Abs()), Event.Login(k, c, attempt, now), Abs())
      ensures forall l | l in sessions :: (l in old(sessions) && sessions[l] == old(sessions[l])) || fresh(sessions[l])
    {
      if attempt == Disconnected {
        finished := finished + [c];
        return;
      }
      open := open + {c};
      if attempt.BadAddress? {
        return;
      }
      var s := new Session(k, c, now);
      sessions := sessions[k := s];
    }

    /** Looks a session up and, if it is there, moves its deadline. */
    method Refresh(k: Key, now: nat) returns (found: bool)
      requires Valid()
      modifies sessions.Values
      ensures Valid() && found == (k in sessions)
      ensures Steps(old(Abs()), Event.Refresh(k, now), Abs())
    {
      found := k in sessions;
      if found {
        var s := sessions[k];
        s.timestamp := now;
        s.timeout := Deadline(s.timestamp);
        assert forall l | l in sessions && l != k :: sessions[l] != s;
      }
    }

    /** Takes a session off the table and closes its connection. */
    method Free(k: Key)
      requires Valid() && k in sessions
      modifies this
      ensures Valid() && Abs() == Freed(old(Abs()), k)
      ensures sessions == old(sessions) - {k}
    {
      var c := sessions[k].conn;
      sessions := sessions - {k};
      open := open - {c};
      finished := finished + [c];
    }

    method Logout(k: Key)
      requires Valid()
      modifies this
      ensures Valid() && Steps(old(Abs()), Event.Logout(k), Abs())
    {
      if k in sessions {
        Free(k);
      }
    }

    /** Checks one entry against the clock. */
    method CheckSession(k: Key, now: nat)
      requires Valid() && k in sessions
      modifies this
      ensures Valid()
      ensures Abs() == if Expired(old(Abs()).entries[k].timeout, now) then Freed(old(Abs()), k) else old(Abs())
      ensures sessions.Keys == old(sessions.Keys) - if Expired(old(sessions[k].timeout), now) then {k} else {}
    {
      if Remaining(sessions[k].timeout, now) < 0 {
        Free(k);
      }
    }
  }

  /** A sweep, one entry after the other. */
  method TimerSweep(server: Server, clock: Key -> nat)
    requires server.Valid() && Sound(server.Abs())
    modifies server
    ensures server.Valid() && Steps(old(server.Abs()), Event.Sweep(clock), server.Abs())
  {
    ghost var t := server.Abs();
    var keys := server.sessions.Keys;
    while keys != {}
      invariant server.Valid() && keys <= server.sessions.Keys
      invariant SweptExcept(t, clock, keys, server.Abs())
      decreases keys
    {
      hide SweptExcept, Sound, Expired;
      var k :| k in keys;
      ghost var u := server.Abs();
      server.CheckSession(k, clock(k));
      SweepOne(t, clock, keys, u, k);
      keys := keys - {k};
    }
    SweepDone(t, clock, server.Abs());
  }
}
