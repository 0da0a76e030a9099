/** `Auth`: registration, login, sessions and password resets over the user
    table. Hashing with a fresh salt and drawing a `uuid4` are not modelled:
    the hash `_hash_password` computes for a call and the id drawn for it are
    parameters, and `bcrypt.checkpw` is the uninterpreted parameter
    `checkpw(password, hash)`. */
module Auth {
  import opened Wrappers
  import opened UserModel
  import opened Db

  /** The `ValueError`s `Auth` raises. */
  datatype AuthError =
    | AlreadyExists(email: string)   // "User <email> already exists"
    | UserDoesNotExist               // "User does not exist"
    | InvalidResetToken              // "Invalid reset token"

  /** The table after an operation, and what the operation returned. */
  datatype Step<T> = Step(users: seq<User>, value: T)

  /** `register_user(email, password)`, where `hashed` is the hash of
      `password` drawn for the call. */
  function RegisterUser(users: seq<User>, email: string, hashed: Hash): (r: Step<Result<User, AuthError>>)
    ensures (exists u <- users :: u.email == email) ==> r == Step(users, Err(AlreadyExists(email)))
    ensures (forall u <- users :: u.email != email) ==>
              && r.value.Ok?
              && r.users == users + [r.value.value]
              && r.value.value.email == email && r.value.value.hashedPassword == hashed
              && r.value.value.sessionId.None? && r.value.value.resetToken.None?
              && (forall u <- users :: u.id != r.value.value.id)
    ensures UniqueIds(users) ==> UniqueIds(r.users)
    ensures UniqueSessions(users) ==> UniqueSessions(r.users)
  {
    FindBySingleColumn(users, Email(email));
    match FindUserBy(users, [Email(email)])
    case Ok(_) => Step(users, Err(AlreadyExists(email)))
    case Err(_) =>
      var added := AddUser(users, email, hashed);
      Step(added.users, Ok(added.user))
  }

  /** `valid_login(email, password)`. */
  function ValidLogin(users: seq<User>, email: string, password: string, checkpw: (string, Hash) -> bool)
    : (ok: bool)
    ensures (forall u <- users :: u.email != email) ==> !ok
    ensures forall i :: FirstHolder(users, Email(email), i) ==> ok == checkpw(password, users[i].hashedPassword)
  {
    FindBySingleColumn(users, Email(email));
    match FindUserBy(users, [Email(email)])
    case Ok(user) => checkpw(password, user.hashedPassword)
    case Err(_) => false
  }

  /** The effect of `update_user(id, session_id=s)` on the row it finds. */
  lemma SetSession(u: User, s: Option<string>)
    ensures ApplyAll(u, [SessionId(s)]) == (u.(sessionId := s), None)
  {
    assert [SessionId(s)][1..] == [];
  }

  /** The effect of `update_user(id, reset_token=t)` on the row it finds. */
  lemma SetResetToken(u: User, t: Option<string>)
    ensures ApplyAll(u, [ResetToken(t)]) == (u.(resetToken := t), None)
  {
    assert [ResetToken(t)][1..] == [];
  }

  /** The effect of `update_user(id, hashed_password=h, reset_token=None)`. */
  lemma SetPassword(u: User, h: Hash)
    ensures ApplyAll(u, [HashedPassword(h), ResetToken(None)]) == (u.(hashedPassword := h, resetToken := None), None)
  {
    assert [HashedPassword(h), ResetToken(None)][1..] == [ResetToken(None)];
    SetResetToken(u.(hashedPassword := h), None);
  }

  /** `create_session(email)`, where `newId` is the id drawn for the call. */
  function CreateSession(users: seq<User>, email: string, newId: string): (r: Step<Option<string>>)
    ensures (forall u <- users :: u.email != email) ==> r == Step(users, None)
    ensures UniqueIds(users) ==> UniqueIds(r.users)
    ensures forall i :: UniqueIds(users) && FirstHolder(users, Email(email), i) ==>
              && r.value == Some(newId)
              && r.users == users[i := users[i].(sessionId := Some(newId))]
  {
    FindBySingleColumn(users, Email(email));
    match FindIndexBy(users, [Email(email)])
    case Err(_) => Step(users, None)
    case Ok(i) =>
      var user := users[i];
      var updated := UpdateUser(users, user.id, [SessionId(Some(newId))]);
      OwnIdFindsRow(users, i);
      SetSession(user, Some(newId));
      ReplaceKeepsUniqueIds(users, i, user.(sessionId := Some(newId)));
      assert updated.error.None? by {
        OwnColumnUpdateSucceeds(users, i, [SessionId(Some(newId))]);
      }
      Step(updated.users, Some(newId))
  }

  /** `get_user_from_session_id(session_id)`. */
  function GetUserFromSessionId(users: seq<User>, sessionId: Option<string>): (r: Option<User>)
    ensures sessionId.None? ==> r.None?
    ensures r.Some? ==> r.value in users && r.value.sessionId == sessionId
    ensures sessionId.Some? ==> (r.None? <==> forall u <- users :: u.sessionId != sessionId)
    ensures forall i :: sessionId.Some? && FirstHolder(users, SessionId(sessionId), i) ==> r == Some(users[i])
  {
    if sessionId.None? then None
    else
      FindBySingleColumn(users, SessionId(sessionId));
      match FindUserBy(users, [SessionId(sessionId)])
      case Ok(user) => Some(user)
      case Err(_) => None
  }

  /** `destroy_session(user_id)`: an unknown id is silently ignored. */
  function DestroySession(users: seq<User>, userId: int): (r: seq<User>)
    ensures (forall u <- users :: u.id != userId) ==> r == users
    ensures forall i :: FirstHolder(users, Id(userId), i) ==> r == users[i := users[i].(sessionId := None)]
    ensures UniqueIds(users) ==> UniqueIds(r)
  {
    ClearSessionEffect(users, userId);
    UpdateUser(users, userId, [SessionId(None)]).users
  }

  /** What `update_user(user_id, session_id=None)` does to the table. */
  lemma ClearSessionEffect(users: seq<User>, userId: int)
    ensures forall i :: FirstHolder(users, Id(userId), i) ==>
              UpdateUser(users, userId, [SessionId(None)]).users == users[i := users[i].(sessionId := None)]
    ensures UniqueIds(users) ==> UniqueIds(UpdateUser(users, userId, [SessionId(None)]).users)
  {
    FindBySingleColumn(users, Id(userId));
    if FindIndexBy(users, [Id(userId)]).Ok? {
      var i := FindIndexBy(users, [Id(userId)]).value;
      SetSession(users[i], None);
      ReplaceKeepsUniqueIds(users, i, users[i].(sessionId := None));
    }
  }

  /** `get_reset_password_token(email)`, where `newToken` is the token drawn
      for the call. */
  function GetResetPasswordToken(users: seq<User>, email: string, newToken: string)
    : (r: Step<Result<string, AuthError>>)
    ensures (forall u <- users :: u.email != email) ==> r == Step(users, Err(UserDoesNotExist))
    ensures UniqueIds(users) ==> UniqueIds(r.users)
    ensures forall i :: UniqueIds(users) && FirstHolder(users, Email(email), i) ==>
              && r.value == Ok(newToken)
              && r.users == users[i := users[i].(resetToken := Some(newToken))]
  {
    FindBySingleColumn(users, Email(email));
    match FindIndexBy(users, [Email(email)])
    case Err(_) => Step(users, Err(UserDoesNotExist))
    case Ok(i) =>
      var user := users[i];
      var updated := UpdateUser(users, user.id, [ResetToken(Some(newToken))]);
      OwnIdFindsRow(users, i);
      SetResetToken(user, Some(newToken));
      ReplaceKeepsUniqueIds(users, i, user.(resetToken := Some(newToken)));
      assert updated.error.None? by {
        OwnColumnUpdateSucceeds(users, i, [ResetToken(Some(newToken))]);
      }
      Step(updated.users, Ok(newToken))
  }

  /** `update_password(reset_token, password)`, where `hashed` is the hash of
      `password` drawn for the call. */
  function UpdatePassword(users: seq<User>, resetToken: Option<string>, hashed: Hash)
    : (r: Step<Result<(), AuthError>>)
    ensures (forall u <- users :: u.resetToken != resetToken) ==> r == Step(users, Err(InvalidResetToken))
    ensures UniqueIds(users) ==> UniqueIds(r.users)
    ensures forall i :: UniqueIds(users) && FirstHolder(users, ResetToken(resetToken), i) ==>
              && r.value == Ok(())
              && r.users == users[i := users[i].(hashedPassword := hashed, resetToken := None)]
  {
    FindBySingleColumn(users, ResetToken(resetToken));
    match FindIndexBy(users, [ResetToken(resetToken)])
    case Err(_) => Step(users, Err(InvalidResetToken))
    case Ok(i) =>
      var user := users[i];
      var updated := UpdateUser(users, user.id, [HashedPassword(hashed), ResetToken(None)]);
      OwnIdFindsRow(users, i);
      SetPassword(user, hashed);
      ReplaceKeepsUniqueIds(users, i, user.(hashedPassword := hashed, resetToken := None));
      assert updated.error.None? by {
        OwnColumnUpdateSucceeds(users, i, [HashedPassword(hashed), ResetToken(None)]);
      }
      Step(updated.users, Ok(()))
  }

  /** No two rows hold the same session id. */
  predicate UniqueSessions(users: seq<User>) {
    forall i, j :: 0 <= i < j < |users| && users[i].sessionId.Some? ==> users[i].sessionId != users[j].sessionId
  }

  /** Opening a session under an id no row holds keeps session ids unique. */
  lemma CreateSessionKeepsUniqueSessions(users: seq<User>, email: string, newId: string)
    requires UniqueIds(users) && UniqueSessions(users)
    requires forall u <- users :: u.sessionId != Some(newId)
    ensures UniqueSessions(CreateSession(users, email, newId).users)
  {
    FindBySingleColumn(users, Email(email));
    if FindIndexBy(users, [Email(email)]).Ok? {
      var i := FindIndexBy(users, [Email(email)]).value;
      var after := users[i := users[i].(sessionId := Some(newId))];
      assert CreateSession(users, email, newId).users == after;
      forall j, k | 0 <= j < k < |after| && after[j].sessionId.Some?
        ensures after[j].sessionId != after[k].sessionId
      {
        if j == i {
          assert users[k] in users;
        } else if k == i {
          assert users[j] in users;
        }
      }
    }
  }

  /** Clearing a row's session keeps session ids unique. */
  lemma DestroySessionKeepsUniqueSessions(users: seq<User>, userId: int)
    requires UniqueSessions(users)
    ensures UniqueSessions(DestroySession(users, userId))
  {
    FindBySingleColumn(users, Id(userId));
    if FindIndexBy(users, [Id(userId)]).Ok? {
      var i := FindIndexBy(users, [Id(userId)]).value;
      var after := users[i := users[i].(sessionId := None)];
      assert DestroySession(users, userId) == after;
      forall j, k | 0 <= j < k < |after| && after[j].sessionId.Some?
        ensures after[j].sessionId != after[k].sessionId
      {
      }
    }
  }

  /** A session created for a registered email under an id no row holds yet
      resolves to that user, with the session stored on the row. */
  lemma CreateSessionThenLookup(users: seq<User>, email: string, newId: string, i: int)
    requires UniqueIds(users) && FirstHolder(users, Email(email), i)
    requires forall u <- users :: u.sessionId != Some(newId)
    ensures var r := CreateSession(users, email, newId);
            && r.value == Some(newId)
            && GetUserFromSessionId(r.users, Some(newId)) == Some(users[i].(sessionId := Some(newId)))
  {
    var after := users[i := users[i].(sessionId := Some(newId))];
    forall j | 0 <= j < i ensures !Holds(after[j], SessionId(Some(newId))) {
      assert after[j] == users[j] && users[j] in users;
    }
    assert FirstHolder(after, SessionId(Some(newId)), i);
  }

  /** `get_user_from_session_id(None)` finds no one, although a lookup of
      `session_id=None` would find every user without a session. */
  lemma NoneSessionIsGuarded(users: seq<User>, i: int)
    requires 0 <= i < |users| && users[i].sessionId.None?
    ensures GetUserFromSessionId(users, None) == None
    ensures FindUserBy(users, [SessionId(None)]).Ok?
  {
    FindBySingleColumn(users, SessionId(None));
    assert users[i] in users;
  }

  /** Logging out, as the logout route does it: the user the session resolves
      to has its session cleared, and the session resolves to no one after. */
  lemma LogoutEndsSession(users: seq<User>, sessionId: string)
    requires UniqueIds(users) && UniqueSessions(users)
    requires GetUserFromSessionId(users, Some(sessionId)).Some?
    ensures var user := GetUserFromSessionId(users, Some(sessionId)).value;
            GetUserFromSessionId(DestroySession(users, user.id), Some(sessionId)) == None
  {
    var user := GetUserFromSessionId(users, Some(sessionId)).value;
    var i :| 0 <= i < |users| && users[i] == user;
    var after := DestroySession(users, user.id);
    assert after == users[i := users[i].(sessionId := None)] by {
      OwnIdFindsRow(users, i);
    }
    ClearedSessionIsGone(users, i, sessionId);
  }

  /** Under unique sessions, clearing the session of the row holding it
      leaves no row holding it. */
  lemma ClearedSessionIsGone(users: seq<User>, i: int, sessionId: string)
    requires UniqueSessions(users) && 0 <= i < |users| && users[i].sessionId == Some(sessionId)
    ensures forall u <- users[i := users[i].(sessionId := None)] :: u.sessionId != Some(sessionId)
  {
    var after := users[i := users[i].(sessionId := None)];
    forall u | u in after ensures u.sessionId != Some(sessionId) {
      var j :| 0 <= j < |after| && after[j] == u;
      if j != i {
        assert after[j] == users[j];
        if j < i {
          assert users[j].sessionId != users[i].sessionId;
        } else {
          assert users[i].sessionId != users[j].sessionId;
        }
      }
    }
  }

  /** A reset token works once: the update clears it, so presenting it again
      raises `ValueError`. */
  lemma ResetTokenIsSingleUse(users: seq<User>, token: string, hashed: Hash, again: Hash, i: int)
    requires UniqueIds(users) && FirstHolder(users, ResetToken(Some(token)), i)
    requires forall j :: 0 <= j < |users| && j != i ==> users[j].resetToken != Some(token)
    ensures var first := UpdatePassword(users, Some(token), hashed);
            && first.value == Ok(())
            && UpdatePassword(first.users, Some(token), again) == Step(first.users, Err(InvalidResetToken))
  {
    var after := users[i := users[i].(hashedPassword := hashed, resetToken := None)];
    forall u | u in after ensures u.resetToken != Some(token) {
      var j :| 0 <= j < |after| && after[j] == u;
    }
  }

  /** `update_password(None, ...)` is not refused: it resets the password of
      the first user without a pending reset token. The reset route never
      passes `None`. */
  lemma NoneTokenMatchesUntokenedUser(users: seq<User>, hashed: Hash, i: int)
    requires UniqueIds(users) && FirstHolder(users, ResetToken(None), i)
    ensures UpdatePassword(users, None, hashed)
            == Step(users[i := users[i].(hashedPassword := hashed)], Ok(()))
  {
    assert users[i].(hashedPassword := hashed, resetToken := None) == users[i].(hashedPassword := hashed);
  }

  /** The client script's run against a fresh table: the user registers; a
      login with the wrong password fails; without a session the profile is
      refused; a login with the right password opens a session that resolves
      to the user; logging out closes it; a reset token is issued and changes
      the password; the new password then logs in. What `checkpw` accepts is
      an assumption about bcrypt, stated as preconditions. */
  lemma ClientScenario(email: string, password: string, newPassword: string, hashed: Hash, newHashed: Hash,
                       sessionId: string, token: string, newSessionId: string,
                       checkpw: (string, Hash) -> bool)
    requires checkpw(password, hashed) && !checkpw(newPassword, hashed) && checkpw(newPassword, newHashed)
    ensures var registered := RegisterUser(Init(), email, hashed);
            var users := registered.users;
            && registered.value.Ok?
            && !ValidLogin(users, email, newPassword, checkpw)
            && GetUserFromSessionId(users, None) == None
            && ValidLogin(users, email, password, checkpw)
            && var login := CreateSession(users, email, sessionId);
               && login.value == Some(sessionId)
               && var profile := GetUserFromSessionId(login.users, Some(sessionId));
                  && profile.Some? && profile.value.email == email
                  && var loggedOut := DestroySession(login.users, profile.value.id);
                     && GetUserFromSessionId(loggedOut, Some(sessionId)) == None
                     && var reset := GetResetPasswordToken(loggedOut, email, token);
                        && reset.value == Ok(token)
                        && var updated := UpdatePassword(reset.users, Some(token), newHashed);
                           && updated.value == Ok(())
                           && ValidLogin(updated.users, email, newPassword, checkpw)
                           && CreateSession(updated.users, email, newSessionId).value == Some(newSessionId)
  {
    var user := User(1, email, hashed, None, None);
    var loggedIn := user.(sessionId := Some(sessionId));
    var withToken := user.(resetToken := Some(token));
    var updated := user.(hashedPassword := newHashed);
    assert RegisterUser(Init(), email, hashed) == Step([user], Ok(user)) by { RegisterFirst(email, hashed); }
    assert ValidLogin([user], email, newPassword, checkpw) == checkpw(newPassword, hashed) by { LoginAlone(user, newPassword, checkpw); }
    assert ValidLogin([user], email, password, checkpw) == checkpw(password, hashed) by { LoginAlone(user, password, checkpw); }
    assert CreateSession([user], email, sessionId) == Step([loggedIn], Some(sessionId)) by { SessionAlone(user, sessionId); }
    assert GetUserFromSessionId([loggedIn], Some(sessionId)) == Some(loggedIn) by { LookupAlone(loggedIn, sessionId); }
    assert DestroySession([loggedIn], 1) == [user] by { LogoutAlone(loggedIn); }
    assert GetUserFromSessionId([user], Some(sessionId)) == None by { LookupAlone(user, sessionId); }
    assert GetResetPasswordToken([user], email, token) == Step([withToken], Ok(token)) by { ResetAlone(user, token); }
    assert UpdatePassword([withToken], Some(token), newHashed) == Step([updated], Ok(())) by { UpdateAlone(withToken, token, newHashed); }
    assert ValidLogin([updated], email, newPassword, checkpw) by { LoginAlone(updated, newPassword, checkpw); }
    assert CreateSession([updated], email, newSessionId).value == Some(newSessionId) by { SessionAlone(updated, newSessionId); }
  }

  // The scenario's steps, each on a table holding one user.

  lemma RegisterFirst(email: string, hashed: Hash)
    ensures RegisterUser(Init(), email, hashed)
            == Step([User(1, email, hashed, None, None)], Ok(User(1, email, hashed, None, None)))
  {
  }

  lemma LoginAlone(user: User, password: string, checkpw: (string, Hash) -> bool)
    ensures ValidLogin([user], user.email, password, checkpw) == checkpw(password, user.hashedPassword)
  {
    assert FirstHolder([user], Email(user.email), 0);
  }

  lemma SessionAlone(user: User, sessionId: string)
    ensures CreateSession([user], user.email, sessionId) == Step([user.(sessionId := Some(sessionId))], Some(sessionId))
  {
    assert FirstHolder([user], Email(user.email), 0);
    assert [user][0 := user.(sessionId := Some(sessionId))] == [user.(sessionId := Some(sessionId))];
  }

  lemma LookupAlone(user: User, sessionId: string)
    ensures GetUserFromSessionId([user], Some(sessionId))
            == if user.sessionId == Some(sessionId) then Some(user) else None
  {
    if user.sessionId == Some(sessionId) {
      assert FirstHolder([user], SessionId(Some(sessionId)), 0);
    }
  }

  lemma LogoutAlone(user: User)
    ensures DestroySession([user], user.id) == [user.(sessionId := None)]
  {
    assert FirstHolder([user], Id(user.id), 0);
    assert [user][0 := user.(sessionId := None)] == [user.(sessionId := None)];
  }

  lemma ResetAlone(user: User, token: string)
    ensures GetResetPasswordToken([user], user.email, token) == Step([user.(resetToken := Some(token))], Ok(token))
  {
    assert FirstHolder([user], Email(user.email), 0);
    assert [user][0 := user.(resetToken := Some(token))] == [user.(resetToken := Some(token))];
  }

  lemma UpdateAlone(user: User, token: string, hashed: Hash)
    requires user.resetToken == Some(token)
    ensures UpdatePassword([user], Some(token), hashed)
            == Step([user.(hashedPassword := hashed, resetToken := None)], Ok(()))
  {
    assert FirstHolder([user], ResetToken(Some(token)), 0);
    assert [user][0 := user.(hashedPassword := hashed, resetToken := None)]
           == [user.(hashedPassword := hashed, resetToken := None)];
  }
}
