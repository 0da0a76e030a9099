/** `SessionAuth`: session ids handed out for user ids and kept in one map,
    `user_id_by_session_id`, that is a class attribute. Every instance, and
    every instance of the subclasses `SessionExpAuth` and `SessionDBAuth`, reads
    and writes that same map, so the model threads a single `Store` through all
    three layers. */
module SessionAuth {
  import opened Wrappers

  /** A Python value passed as `user_id`: `None`, a `str`, or anything else. */
  datatype UserIdArg = NoneArg | Str(s: string) | NotStr

  /** A value of the shared map. The plain layer stores the bare user id; the
      expiring layer stores the dictionary `{"user_id": ..., "created_at": ...}`,
      where a missing `created_at` key reads as `None`. Times are clock readings
      in microseconds. */
  datatype Entry =
    | Bare(userId: string)
    | Stamped(userId: string, createdAt: Option<int>)

  type Store = map<string, Entry>

  /** The map after a `create_session` call, and the id it returned. */
  datatype Created = Created(store: Store, sessionId: Option<string>)

  /** `create_session(user_id)`, where `newId` is the `str(uuid4())` drawn for
      the call. Anything but a string is refused with `None`. */
  function CreateSession(store: Store, userId: UserIdArg, newId: string): (r: Created)
    ensures r.sessionId.None? <==> !userId.Str?
    ensures r.sessionId.None? ==> r.store == store
    ensures r.sessionId.Some? ==>
              && r.sessionId.value == newId
              && newId in r.store && r.store[newId] == Bare(userId.s)
              && r.store.Keys == store.Keys + {newId}
    ensures forall k :: k in store && k != newId ==> k in r.store && r.store[k] == store[k]
    ensures r.sessionId.Some? && newId !in store ==> |r.store| == |store| + 1
  {
    match userId
    case Str(s) => Created(store[newId := Bare(s)], Some(newId))
    case _ => Created(store, None)
  }
}
