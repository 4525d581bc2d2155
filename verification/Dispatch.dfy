/** Endpoint dispatch, and the session servlet run through it. */
module Dispatch {
  import opened Wrappers
  import S = Sessions

  /** A table row: method, command (none matches any) and whether it may be called without a session. */
  datatype Endpoint = Endpoint(verb: nat, cmd: Option<string>, permitsUnauth: bool)

  datatype Request = Request(verb: nat, cmd: Option<string>)

  /** What became of a request. */
  datatype Answer =
    | Unauthorized          // 401
    | NotFound              // 404
    | NotAllowed            // 405
    | Handled(index: nat)   // the handler of this row was called

  predicate Matches(e: Endpoint, req: Request) {
    && e.verb == req.verb
    && (e.cmd == None || (req.cmd.Some? && req.cmd.value != "" && req.cmd == e.cmd))
  }

  /**
   * A row without a command matches every request of its method; one with a command matches that command alone, and
   * none if the command is empty.
   */
  lemma WhatMatches(verb: nat, free: bool, cmd: string, asked: Option<string>, other: nat)
    ensures Matches(Endpoint(verb, None, free), Request(verb, asked))
    ensures Matches(Endpoint(verb, Some(cmd), free), Request(verb, asked)) <==> cmd != "" && asked == Some(cmd)
    ensures verb != other ==> !Matches(Endpoint(verb, Some(cmd), free), Request(other, asked))
    ensures verb != other ==> !Matches(Endpoint(verb, None, free), Request(other, asked))
  {
  }

  /** Row `i` is the first to match. */
  predicate FirstMatch(table: seq<Endpoint>, req: Request, i: nat) {
    i < |table| && Matches(table[i], req) && forall j | 0 <= j < i :: !Matches(table[j], req)
  }

  /**
   * Finds the first row that matches, and calls its handler if there is a session or none is needed; reads a response
   * if the handler, whose return codes are given row by row, returned 0.
   */
  method ExecEndpoint(table: seq<Endpoint>, req: Request, db: bool, codes: nat -> int)
    returns (answer: Answer, responded: bool)
    ensures answer.Handled? ==> FirstMatch(table, req, answer.index) && (db || table[answer.index].permitsUnauth)
    ensures answer.Handled? ==> forall j | 0 <= j < answer.index :: !Matches(table[j], req)
    ensures answer == Unauthorized <==> exists i: nat :: FirstMatch(table, req, i) && !db && !table[i].permitsUnauth
    ensures answer == NotAllowed <==> forall i | 0 <= i < |table| :: table[i].verb != req.verb
    ensures answer == NotFound <==>
              && (exists i :: 0 <= i < |table| && table[i].verb == req.verb)
              && (forall i | 0 <= i < |table| :: !Matches(table[i], req))
    ensures responded <==> answer.Handled? && codes(answer.index) == 0
  {
    var methodAllowed := false;
    for index := 0 to |table|
      invariant forall j | 0 <= j < index :: !Matches(table[j], req)
      invariant methodAllowed <==> exists j :: 0 <= j < index && table[j].verb == req.verb
    {
      var entry := table[index];
      if entry.verb == req.verb {
        if entry.cmd == None || (req.cmd.Some? && req.cmd.value != "" && req.cmd == entry.cmd) {
          assert FirstMatch(table, req, index);
          assert forall i: nat | FirstMatch(table, req, i) :: i == index;
          if !db && !entry.permitsUnauth {
            return Unauthorized, false;
          }
          return Handled(index), codes(index) == 0;
        }
        methodAllowed := true;
      }
    }
    answer := if methodAllowed then NotFound else NotAllowed;
    responded := false;
  }

  // ---------- the session servlet ----------

  const HTTP_GET := 1
  const HTTP_POST := 3
  const HTTP_DELETE := 5

  const SESSION_ENDPOINTS := [
    Endpoint(HTTP_GET, None, true),
    Endpoint(HTTP_POST, None, true),
    Endpoint(HTTP_DELETE, None, false)]

  /**
   * What a request for the session servlet does to the table once its own session has been refreshed; one that is
   * refused for its parameters logs nobody in.
   */
  ghost predicate Served(t: S.Table, req: Request, key: Option<S.Key>, refused: bool, login: S.Event, u: S.Table) {
    var db := key.Some? && key.value in t.entries;
    if req.verb == HTTP_POST && !db && !refused then S.Steps(t, login, u)
    else if req.verb == HTTP_DELETE && db then u == S.Freed(t, key.value)
    else u == t
  }

  lemma ServedKeepsSound(t: S.Table, req: Request, key: Option<S.Key>, refused: bool, login: S.Event, u: S.Table)
    requires S.Sound(t) && login.Login? && S.Allowed(t, login) && Served(t, req, key, refused, login, u)
    ensures S.Sound(u)
  {
    hide S.Sound, S.Allowed;
    var db := key.Some? && key.value in t.entries;
    if req.verb == HTTP_POST && !db && !refused {
      S.StepKeepsSound(t, login, u);
    } else if req.verb == HTTP_DELETE && db {
      S.StepKeepsSound(t, S.Logout(key.value), u);
    }
  }

  /** The status of a login that is not refused for its parameters. */
  function LoginStatus(attempt: S.Attempt): nat {
    match attempt
    case Accepted => 230
    case Disconnected => 401
    case BadAddress(malformed) => if malformed then 400 else 500
  }

  /**
   * The handler of a row: show the session, log in unless there is one, or log out. The first two may refuse the
   * request for its parameters, with a status of their own.
   */
  method RunHandler(server: S.Server, row: nat, key: Option<S.Key>, db: bool, refusal: Option<nat>,
                    newKey: S.Key, conn: S.Conn, attempt: S.Attempt, now: nat)
    returns (code: nat)
    requires server.Valid() && row < 3 && db == (key.Some? && key.value in server.sessions) && (row == 2 ==> db)
    modifies server
    ensures server.Valid()
    ensures row == 1 && !db && refusal == None ==>
              && S.Steps(old(server.Abs()), S.Login(newKey, conn, attempt, now), server.Abs())
              && code == LoginStatus(attempt)
    ensures row == 2 ==> server.Abs() == S.Freed(old(server.Abs()), key.value) && code == 200
    ensures row == 1 && db ==> server.Abs() == old(server.Abs()) && code == 200
    ensures row == 0 || (row == 1 && !db && refusal.Some?) ==>
              server.Abs() == old(server.Abs()) && code == if refusal.Some? then refusal.value else 200
  {
    code := 200;
    if row == 0 {
      if refusal.Some? {
        code := refusal.value;
      }
    } else if row == 1 {
      if !db {
        if refusal.Some? {
          return refusal.value;
        }
        server.Login(newKey, conn, attempt, now);
        code := LoginStatus(attempt);
      }
    } else {
      server.Free(key.value);
    }
  }

  lemma SessionRows(req: Request, i: nat)
    ensures FirstMatch(SESSION_ENDPOINTS, req, i) <==>
              || (i == 0 && req.verb == HTTP_GET)
              || (i == 1 && req.verb == HTTP_POST)
              || (i == 2 && req.verb == HTTP_DELETE)
    ensures |SESSION_ENDPOINTS| == 3 && (i < 3 ==> (SESSION_ENDPOINTS[i].permitsUnauth <==> i != 2))
  {
  }

  lemma SessionVerbs(req: Request)
    ensures (forall i | 0 <= i < |SESSION_ENDPOINTS| :: SESSION_ENDPOINTS[i].verb != req.verb)
       <==> req.verb !in {HTTP_GET, HTTP_POST, HTTP_DELETE}
    ensures (exists i :: 0 <= i < |SESSION_ENDPOINTS| && SESSION_ENDPOINTS[i].verb == req.verb)
        ==> exists i :: 0 <= i < |SESSION_ENDPOINTS| && Matches(SESSION_ENDPOINTS[i], req)
  {
    assert SESSION_ENDPOINTS[0].verb == HTTP_GET;
    assert SESSION_ENDPOINTS[1].verb == HTTP_POST;
    assert SESSION_ENDPOINTS[2].verb == HTTP_DELETE;
    if i :| 0 <= i < |SESSION_ENDPOINTS| && SESSION_ENDPOINTS[i].verb == req.verb {
      assert Matches(SESSION_ENDPOINTS[i], req);
    }
  }

  /** The status of a request for the session servlet. */
  function StatusOf(req: Request, db: bool, refusal: Option<nat>, attempt: S.Attempt): nat {
    if req.verb == HTTP_GET then (if refusal.Some? then refusal.value else 200)
    else if req.verb == HTTP_POST then
      (if db then 200 else if refusal.Some? then refusal.value else LoginStatus(attempt))
    else if req.verb == HTTP_DELETE then (if db then 200 else 401)
    else 405
  }

  /** Deleting a session takes its entry alone out of the table, and closes its connection. */
  lemma LogoutEnds(t: S.Table, req: Request, key: Option<S.Key>, refused: bool, login: S.Event, u: S.Table)
    requires Served(t, req, key, refused, login, u) && req.verb == HTTP_DELETE && key.Some? && key.value in t.entries
    ensures key.value !in u.entries && u.entries.Keys + {key.value} == t.entries.Keys
    ensures forall k | k in u.entries :: u.entries[k] == t.entries[k]
    ensures u.open == t.open - {t.entries[key.value].conn} && u.finished == t.finished + [t.entries[key.value].conn]
  {
  }

  /** Only a login files a session, and only where there was none and nothing is refused. */
  lemma LoginFiles(t: S.Table, req: Request, key: Option<S.Key>, refused: bool, login: S.Event, u: S.Table, k: S.Key)
    requires Served(t, req, key, refused, login, u) && login.Login? && k in u.entries
    ensures k !in t.entries || u.entries[k] != t.entries[k] ==>
              && req.verb == HTTP_POST && !refused && (key == None || key.value !in t.entries)
              && login.attempt == S.Accepted && k == login.key
              && u.entries[k].timestamp == login.now && u.entries[k].conn == login.conn
  {
  }

  /** What the status tells of a request, by the server's method numbers, that was not refused for its parameters. */
  lemma StatusTells(req: Request, db: bool, attempt: S.Attempt)
    ensures var code := StatusOf(req, db, None, attempt);
            && (code == 230 <==> req.verb == 3 && !db && attempt == S.Accepted)
            && (code == 401
                <==> !db && (req.verb == 5 || (req.verb == 3 && attempt == S.Disconnected)))
            && (code == 405 <==> req.verb !in {1, 3, 5})
            && (code in {400, 500} <==> req.verb == 3 && !db && attempt.BadAddress?)
            && (code == 400 ==> attempt == S.BadAddress(true)) && (code == 500 ==> attempt == S.BadAddress(false))
            && code in {200, 230, 400, 401, 405, 500}
  {
  }

  /**
   * A request: the sender's session is looked up and refreshed, and the handler found is run. A logout without a
   * session is refused, so that only sessions in the table are ever freed.
   */
  method Serve(server: S.Server, req: Request, key: Option<S.Key>, refusal: Option<nat>,
               newKey: S.Key, conn: S.Conn, attempt: S.Attempt, now: nat)
    returns (code: nat)
    requires server.Valid() && S.Sound(server.Abs())
    requires S.Allowed(server.Abs(), S.Login(newKey, conn, attempt, now))
    modifies server, server.sessions.Values
    ensures server.Valid() && S.Sound(server.Abs())
    ensures exists t :: Served(t, req, key, refusal.Some?, S.Login(newKey, conn, attempt, now), server.Abs())
                     && (if key.Some? then S.Steps(old(server.Abs()), S.Refresh(key.value, now), t)
                         else t == old(server.Abs()))
    ensures code == StatusOf(req, key.Some? && key.value in old(server.sessions), refusal, attempt)
  {
    hide S.Sound, SESSION_ENDPOINTS, Matches;
    ghost var login := S.Login(newKey, conn, attempt, now);
    ghost var before := server.Abs();
    var db := false;
    if key.Some? {
      db := server.Refresh(key.value, now);
      S.StepKeepsSound(before, S.Refresh(key.value, now), server.Abs());
    }
    ghost var t := server.Abs();
    var answer, responded := ExecEndpoint(SESSION_ENDPOINTS, req, db, _ => 200);
    SessionVerbs(req);
    SessionRows(req, if answer.Handled? then answer.index else 2);
    match answer {
    case Unauthorized =>
      code := 401;
      ghost var i: nat :| FirstMatch(SESSION_ENDPOINTS, req, i) && i < 3 && !SESSION_ENDPOINTS[i].permitsUnauth;
      SessionRows(req, i);
    case NotFound =>
      assert false;
    case NotAllowed =>
      code := 405;
    case Handled(i) =>
      code := RunHandler(server, i, key, db, refusal, newKey, conn, attempt, now);
    }
    assert Served(t, req, key, refusal.Some?, login, server.Abs());
    ServedKeepsSound(t, req, key, refusal.Some?, login, server.Abs());
  }
}
