/** `SessionExpAuth`: sessions that carry their creation time and expire
    `session_duration` seconds later. `session_duration` (read from the
    environment, `0` when unset or not an integer) and the clock reading `now`
    are parameters; the clock counts microseconds, the resolution of
    `datetime`. */
module SessionExpAuth {
  import opened Wrappers
  import opened SessionAuth

  const MICROS_PER_SECOND: int := 1_000_000

  /** What indexing a bare string entry raises: `entry["user_id"]` is a
      `TypeError`, `entry.get("created_at")` an `AttributeError`. */
  datatype PyError = TypeError | AttributeError

  /** The last instant at which a session created at `createdAt` is valid. */
  function ExpiresAt(createdAt: int, duration: int): int {
    createdAt + duration * MICROS_PER_SECOND
  }

  /** `create_session(user_id)`: the parent stores the bare user id under a
      newId id, then this layer overwrites it with the stamped dictionary. */
  function CreateSession(store: Store, userId: UserIdArg, newId: string, now: int): (r: Created)
    ensures r.sessionId.None? <==> !userId.Str?
    ensures r.sessionId.None? ==> r.store == store
    ensures r.sessionId.Some? ==>
              && r.sessionId.value == newId
              && newId in r.store && r.store[newId] == Stamped(userId.s, Some(now))
              && r.store.Keys == store.Keys + {newId}
    ensures forall k :: k in store && k != newId ==> k in r.store && r.store[k] == store[k]
  {
    var parent := SessionAuth.CreateSession(store, userId, newId);
    if parent.sessionId.None? then parent
    else Created(parent.store[parent.sessionId.value := Stamped(userId.s, Some(now))], parent.sessionId)
  }

  /** `user_id_for_session_id(session_id)` at clock reading `now`. */
  function UserIdForSessionId(store: Store, duration: int, now: int, sessionId: Option<string>)
    : (r: Result<Option<string>, PyError>)
    ensures sessionId.None? || sessionId.value !in store ==> r == Ok(None)
    ensures r.Err? <==> sessionId.Some? && sessionId.value in store && store[sessionId.value].Bare?
    ensures r == Ok(None) && sessionId.Some? && sessionId.value in store ==> duration > 0
    ensures r.Ok? && r.value.Some? ==>
              && sessionId.Some? && sessionId.value in store
              && r.value.value == store[sessionId.value].userId
    ensures (&& sessionId.Some? && sessionId.value in store && duration <= 0
             && store[sessionId.value].Stamped?)
            ==> r == Ok(Some(store[sessionId.value].userId))
    ensures (&& sessionId.Some? && sessionId.value in store && duration > 0
             && store[sessionId.value] == Stamped(store[sessionId.value].userId, None))
            ==> r == Ok(None)
    ensures forall u, c :: (&& sessionId.Some? && sessionId.value in store && duration > 0
                            && store[sessionId.value] == Stamped(u, Some(c)))
                           ==> (r == Ok(Some(u)) <==> now <= ExpiresAt(c, duration))
  {
    if sessionId.None? then Ok(None)
    else if sessionId.value !in store then Ok(None)
    else
      match store[sessionId.value]
      case Bare(_) => if duration <= 0 then Err(TypeError) else Err(AttributeError)
      case Stamped(userId, createdAt) =>
        if duration <= 0 then Ok(Some(userId))
        else if createdAt.None? then Ok(None)
        else if now > ExpiresAt(createdAt.value, duration) then Ok(None)
        else Ok(Some(userId))
  }

  /** Expiry is permanent: a lookup that finds nothing keeps finding nothing
      at every later time. */
  lemma ExpiryIsMonotone(store: Store, duration: int, t: int, later: int, sessionId: Option<string>)
    requires t <= later
    requires UserIdForSessionId(store, duration, t, sessionId) == Ok(None)
    ensures UserIdForSessionId(store, duration, later, sessionId) == Ok(None)
  {
  }

  /** With no positive duration a session never expires. */
  lemma NoDurationNeverExpires(store: Store, duration: int, t: int, sessionId: string, userId: string, createdAt: Option<int>)
    requires duration <= 0
    requires sessionId in store && store[sessionId] == Stamped(userId, createdAt)
    ensures UserIdForSessionId(store, duration, t, Some(sessionId)) == Ok(Some(userId))
  {
  }

  /** A session created at `now` resolves to its user exactly until
      `session_duration` seconds later, the boundary instant included; with no
      positive duration, forever. */
  lemma CreateThenLookup(store: Store, userId: string, newId: string, now: int, duration: int, t: int)
    ensures var r := CreateSession(store, Str(userId), newId, now);
            && r.sessionId == Some(newId)
            && UserIdForSessionId(r.store, duration, t, Some(newId))
               == if duration <= 0 || t <= ExpiresAt(now, duration) then Ok(Some(userId)) else Ok(None)
  {
  }

  /** The map is shared with the plain layer: a session created there holds a
      bare string, and looking it up here raises. */
  lemma PlainSessionBreaksLookup(store: Store, userId: string, newId: string, duration: int, t: int)
    ensures var r := SessionAuth.CreateSession(store, Str(userId), newId);
            UserIdForSessionId(r.store, duration, t, r.sessionId).Err?
  {
  }
}
