/** `SessionDBAuth`: sessions that are also persisted as `UserSession` records.
    The persisted store is the sequence of records in the order they were
    saved, which is the order a search returns them in. A record's
    `created_at` is set by the record base class, whose rule is not part of
    this model, so it arrives as the parameter `stamp`; `None` stands for a
    record without that attribute. The expiry rule `is_session_expired` is
    called but defined neither here nor in `SessionExpAuth` or `SessionAuth`,
    so it is the uninterpreted parameter `expired`. */
module SessionDbAuth {
  import opened Wrappers
  import opened SessionAuth
  import SessionExpAuth

  /** A persisted `UserSession(user_id=..., session_id=...)`. */
  datatype UserSession = UserSession(userId: string, sessionId: string, createdAt: Option<int>)

  /** The shared in-memory map together with the persisted records. */
  datatype State = State(store: Store, sessions: seq<UserSession>)

  /** The state after `create_session`, and the id it returned. */
  datatype Outcome = Outcome(state: State, sessionId: Option<string>)

  /** A request, reduced to what `session_cookie` reads from it. */
  datatype Request = Request(cookie: Option<string>)

  /** The position of the first record whose `session_id` is `sessionId`:
      `UserSession.search({'session_id': ...})[0]`. */
  function FirstMatch(sessions: seq<UserSession>, sessionId: string): (r: Option<nat>)
    ensures r.None? <==> forall s <- sessions :: s.sessionId != sessionId
    ensures r.Some? ==> r.value < |sessions| && sessions[r.value].sessionId == sessionId
    ensures r.Some? ==> forall j :: 0 <= j < r.value ==> sessions[j].sessionId != sessionId
  {
    if |sessions| == 0 then None
    else if sessions[0].sessionId == sessionId then Some(0)
    else
      match FirstMatch(sessions[1..], sessionId)
      case None => None
      case Some(i) => Some(i + 1)
  }

  /** A record saved after records that do not carry its id is the first match
      for that id. */
  lemma {:induction false} FirstMatchOfAppended(sessions: seq<UserSession>, record: UserSession)
    requires forall s <- sessions :: s.sessionId != record.sessionId
    ensures FirstMatch(sessions + [record], record.sessionId) == Some(|sessions|)
  {
    if |sessions| > 0 {
      assert (sessions + [record])[1..] == sessions[1..] + [record];
      FirstMatchOfAppended(sessions[1..], record);
    }
  }

  /** A record matching `sessionId` with no match before it is the one
      `FirstMatch` finds. */
  lemma FirstMatchIsUnique(sessions: seq<UserSession>, sessionId: string)
    ensures forall i :: 0 <= i < |sessions| && sessions[i].sessionId == sessionId
                        && (forall j :: 0 <= j < i ==> sessions[j].sessionId != sessionId) ==>
              FirstMatch(sessions, sessionId) == Some(i)
  {
    forall i | 0 <= i < |sessions| && sessions[i].sessionId == sessionId
               && (forall j :: 0 <= j < i ==> sessions[j].sessionId != sessionId)
      ensures FirstMatch(sessions, sessionId) == Some(i)
    {
      var r := FirstMatch(sessions, sessionId);
      assert r.Some? by { assert sessions[i] in sessions; }
    }
  }

  /** `create_session(user_id)` at clock reading `now`, where `newId` is the id
      drawn for the call and `stamp` the `created_at` the new record gets. */
  function CreateSession(st: State, userId: UserIdArg, newId: string, now: int, stamp: Option<int>)
    : (r: Outcome)
    ensures r.sessionId.None? <==> !userId.Str?
    ensures r.sessionId.None? ==> r.state == st
    ensures r.sessionId.Some? ==>
              && r.sessionId.value == newId
              && r.state.sessions == st.sessions + [UserSession(userId.s, newId, stamp)]
              && r.state.store == SessionExpAuth.CreateSession(st.store, userId, newId, now).store
  {
    if userId.NoneArg? then Outcome(st, None)
    else
      var parent := SessionExpAuth.CreateSession(st.store, userId, newId, now);
      if parent.sessionId.None? then Outcome(State(parent.store, st.sessions), None)
      else
        var record := UserSession(userId.s, parent.sessionId.value, stamp);
        Outcome(State(parent.store, st.sessions + [record]), parent.sessionId)
  }

  /** `user_id_for_session_id(session_id)`, answered from the persisted
      records alone. */
  function UserIdForSessionId(sessions: seq<UserSession>, duration: int, expired: int -> bool,
                              sessionId: Option<string>): (r: Option<string>)
    ensures sessionId.None? ==> r.None?
    ensures sessionId.Some? && (forall s <- sessions :: s.sessionId != sessionId.value) ==> r.None?
    ensures r.Some? ==> exists i :: 0 <= i < |sessions| && sessions[i].sessionId == sessionId.value
                                    && r.value == sessions[i].userId
    ensures forall i :: sessionId.Some? && 0 <= i < |sessions| && sessions[i].sessionId == sessionId.value
                        && (forall j :: 0 <= j < i ==> sessions[j].sessionId != sessionId.value) ==>
              r == (if duration <= 0 then Some(sessions[i].userId)
                    else if sessions[i].createdAt.None? || expired(sessions[i].createdAt.value) then None
                    else Some(sessions[i].userId))
  {
    if sessionId.None? then None
    else
      FirstMatchIsUnique(sessions, sessionId.value);
      match FirstMatch(sessions, sessionId.value)
      case None => None
      case Some(i) =>
        var record := sessions[i];
        if duration <= 0 then Some(record.userId)
        else if record.createdAt.None? then None
        else if expired(record.createdAt.value) then None
        else Some(record.userId)
  }

  /** `destroy_session(request)`: the new state and whether a record was
      removed. The in-memory map is left as it is. */
  function DestroySession(st: State, duration: int, expired: int -> bool, request: Option<Request>)
    : (r: (State, bool))
    ensures r.0.store == st.store
    ensures request.None? || request.value.cookie.None? || request.value.cookie == Some("") ==> r == (st, false)
    ensures r.1 <==> && request.Some? && request.value.cookie !in {None, Some("")}
                     && UserIdForSessionId(st.sessions, duration, expired, request.value.cookie) !in {None, Some("")}
    ensures !r.1 ==> r.0 == st
    ensures r.1 ==> exists i :: 0 <= i < |st.sessions|
                      && st.sessions[i].sessionId == request.value.cookie.value
                      && (forall j :: 0 <= j < i ==> st.sessions[j].sessionId != request.value.cookie.value)
                      && r.0.sessions == st.sessions[..i] + st.sessions[i + 1..]
  {
    if request.None? then (st, false)
    else
      var sessionId := request.value.cookie;
      if sessionId.None? || sessionId.value == "" then (st, false)
      else
        var userId := UserIdForSessionId(st.sessions, duration, expired, sessionId);
        if userId.None? || userId.value == "" then (st, false)
        else
          match FirstMatch(st.sessions, sessionId.value)
          case Some(i) => (State(st.store, st.sessions[..i] + st.sessions[i + 1..]), true)
          case None => (st, false)
  }

  /** An expired session is never destroyed: the lookup that guards the
      removal already answers `None`. */
  lemma ExpiredNeverDestroyed(st: State, duration: int, expired: int -> bool, sessionId: string, i: nat)
    requires duration > 0
    requires i < |st.sessions| && st.sessions[i].sessionId == sessionId
    requires forall j :: 0 <= j < i ==> st.sessions[j].sessionId != sessionId
    requires st.sessions[i].createdAt.None? || expired(st.sessions[i].createdAt.value)
    ensures DestroySession(st, duration, expired, Some(Request(Some(sessionId)))) == (st, false)
  {
  }

  /** A session created under an id no record carries resolves to its user
      when sessions do not expire, or while the expiry rule accepts its stamp. */
  lemma CreateThenLookup(st: State, userId: string, newId: string, now: int, stamp: Option<int>,
                         duration: int, expired: int -> bool)
    requires forall s <- st.sessions :: s.sessionId != newId
    ensures var r := CreateSession(st, Str(userId), newId, now, stamp);
            && r.sessionId == Some(newId)
            && (UserIdForSessionId(r.state.sessions, duration, expired, Some(newId)) == Some(userId)
                <==> duration <= 0 || (stamp.Some? && !expired(stamp.value)))
  {
    FirstMatchOfAppended(st.sessions, UserSession(userId, newId, stamp));
  }

  /** Destroying the session whose first record sits at `i`, when the lookup
      accepts it, removes exactly that record. */
  lemma DestroyFirstMatch(st: State, duration: int, expired: int -> bool, sessionId: string, i: nat)
    requires sessionId != "" && FirstMatch(st.sessions, sessionId) == Some(i)
    requires UserIdForSessionId(st.sessions, duration, expired, Some(sessionId)) !in {None, Some("")}
    ensures DestroySession(st, duration, expired, Some(Request(Some(sessionId))))
            == (State(st.store, st.sessions[..i] + st.sessions[i + 1..]), true)
  {
  }

  /** Creating a session for a non-empty user id and destroying it again,
      before it expires, restores the persisted records; the in-memory map
      keeps the session. */
  lemma CreateThenDestroy(st: State, userId: string, newId: string, now: int, stamp: Option<int>,
                          duration: int, expired: int -> bool)
    requires forall s <- st.sessions :: s.sessionId != newId
    requires userId != "" && newId != ""
    requires duration <= 0 || (stamp.Some? && !expired(stamp.value))
    ensures var created := CreateSession(st, Str(userId), newId, now, stamp);
            var destroyed := DestroySession(created.state, duration, expired, Some(Request(Some(newId))));
            && destroyed.1
            && destroyed.0.sessions == st.sessions
            && destroyed.0.store == created.state.store
  {
    var record := UserSession(userId, newId, stamp);
    var sessions := st.sessions + [record];
    var n := |st.sessions|;
    var created := CreateSession(st, Str(userId), newId, now, stamp);
    assert created.state.sessions == sessions;
    assert FirstMatch(sessions, newId) == Some(n) by {
      FirstMatchOfAppended(st.sessions, record);
    }
    assert UserIdForSessionId(sessions, duration, expired, Some(newId)) == Some(userId) by {
      assert sessions[n] == record;
    }
    DestroyFirstMatch(created.state, duration, expired, newId, n);
    assert sessions[..n] + sessions[n + 1..] == st.sessions by {
      assert sessions[..n] == st.sessions && sessions[n + 1..] == [];
    }
  }
}
