# Session stores, user authentication and log redaction, in Dafny

This project models three small parts of the `alx-backend-user-data`
exercises and proves properties of each. Every operation is a pure function
that maps a state to a new state and a result.

- **Session stores** (`0x02-Session_authentication`) come in three layers.
  - `SessionAuth` hands out session ids for user ids. It keeps them in one
    class-level map that every instance and subclass shares.
  - `SessionExpAuth` stores `{user_id, created_at}` in that same map. Its
    lookups expire `session_duration` seconds after creation, and the
    boundary instant still counts as valid.
  - `SessionDBAuth` also persists `UserSession` records and deletes the
    first matching record on logout.

  Modules: `SessionAuth`, `SessionExpAuth`, `SessionDbAuth`.
- **User authentication service** (`0x03-user_authentication_service`):
  - `DB` is the `users` table, modelled as a sequence of rows in table order.
    `find_user_by` is a first-match scan over its keyword arguments.
    `update_user` assigns fields one by one.
  - `Auth` builds registration, login, sessions and password reset on top
    of `DB`.

  Modules: `UserModel`, `Db`, `Auth`.
- **Log redaction** (`0x00-personal_data/filtered_logger.py` and the
  top-level `filtered_logger.py`, which holds the same `filter_datum`):
  - `filter_datum` is modelled as the left-to-right scan that `re.sub`
    performs with the pattern `(f1|...|fn)=[^sep]*`.
  - `RedactingFormatter` passes each message through it before laying out
    the line.

  Modules: `FilteredLogger`, `RedactionProofs`, `RedactingFormatter`.

`Wrappers` holds `Option` (Python's `None`) and `Result` (a returned value
or a raised exception).

Things the model receives as parameters:

- the id `uuid4` draws (`newId`, `newToken`);
- the clock reading, an integer count of microseconds;
- `session_duration`;
- the bcrypt hash computed for a call (`hashed`);
- `bcrypt.checkpw`, as the uninterpreted `checkpw`;
- `is_session_expired`, which `SessionDBAuth` calls but which neither it nor `SessionExpAuth` or `SessionAuth` defines, as the uninterpreted `expired`.

## Model

| member | source | states |
|---|---|---|
| SessionAuth.CreateSession | 0x02-Session_authentication/api/v1/auth/session_auth.py:11-26 | The call refuses exactly when `user_id` is not a string (`None` or another type), and a refusal leaves the shared map as it was. On success it returns the drawn id, which maps to exactly the given user id. The key set grows by that id alone, every other entry keeps its value, and the map's size grows by one when the id was unused. |
| SessionExpAuth.CreateSession | 0x02-Session_authentication/api/v1/auth/session_exp_auth.py:19-30 | The call refuses exactly when the parent refuses, and the map is then unchanged. On success the new id holds `{user_id, created_at = now}`, overwriting the bare string the parent wrote. Only that key is added, and other entries are untouched. |
| SessionExpAuth.UserIdForSessionId | 0x02-Session_authentication/api/v1/auth/session_exp_auth.py:32-54 | A `None` id or an unknown id gives `None`. A bare-string entry raises. With duration <= 0 a stamped entry gives its user id. With a positive duration, an entry without `created_at` gives `None`, and an entry created at `c` gives its user id exactly when `now <= c + duration`. |
| SessionExpAuth.ExpiryIsMonotone | 0x02-Session_authentication/api/v1/auth/session_exp_auth.py:49-54 | A lookup that answers `None` at time t answers `None` at every later time. |
| SessionExpAuth.NoDurationNeverExpires | 0x02-Session_authentication/api/v1/auth/session_exp_auth.py:41-42 | With no positive duration, a stamped session resolves to its user at any time. |
| SessionExpAuth.CreateThenLookup | 0x02-Session_authentication/api/v1/auth/session_exp_auth.py:19-54 | A session created at `now` resolves to its user at time t exactly when the duration is not positive or `t <= now + duration`. |
| SessionExpAuth.PlainSessionBreaksLookup | 0x02-Session_authentication/api/v1/auth/session_exp_auth.py:41-46 | Because the map is shared, a session that the plain layer created holds a bare string, and looking it up in this layer raises. |
| SessionDbAuth.FirstMatch | 0x02-Session_authentication/api/v1/auth/session_db_auth.py:31-36 | The search finds nothing exactly when no record carries the id. Otherwise it returns the position of a matching record, and no record before that position matches. |
| SessionDbAuth.FirstMatchOfAppended | 0x02-Session_authentication/api/v1/auth/session_db_auth.py:22-23 | A record saved behind records that do not carry its id is the first match for that id. |
| SessionDbAuth.CreateSession | 0x02-Session_authentication/api/v1/auth/session_db_auth.py:13-24 | For a `None` or non-string user id the call returns `None` and persists nothing. On success it returns the drawn id and appends exactly one `UserSession` with that user id and session id. The in-memory map changes as the expiring layer's `create_session` changes it. |
| SessionDbAuth.UserIdForSessionId | 0x02-Session_authentication/api/v1/auth/session_db_auth.py:26-51 | A `None` id, or an id that no record carries, gives `None`. Only the first matching record is consulted. With duration <= 0 it gives that record's user id. Otherwise a record without `created_at`, or one the expiry rule flags, gives `None`, and any other record gives its user id. |
| SessionDbAuth.DestroySession | 0x02-Session_authentication/api/v1/auth/session_db_auth.py:53-72 | The call returns True exactly when there is a request, its cookie is non-empty and the lookup yields a non-empty user id. When it returns False, nothing changes. When it returns True, exactly the first record carrying the id is removed and all others stay in order. The in-memory map is never touched. |
| SessionDbAuth.ExpiredNeverDestroyed | 0x02-Session_authentication/api/v1/auth/session_db_auth.py:55-64 | Under a positive duration, a session whose first record is expired or unstamped is never destroyed. |
| SessionDbAuth.DestroyFirstMatch | 0x02-Session_authentication/api/v1/auth/session_db_auth.py:62-70 | When the lookup accepts a session, destroying it removes exactly its first record and returns True. |
| SessionDbAuth.CreateThenLookup | 0x02-Session_authentication/api/v1/auth/session_db_auth.py:13-51 | A session created under an unused id resolves to its user exactly when sessions do not expire or the expiry rule accepts the new record's stamp. |
| SessionDbAuth.CreateThenDestroy | 0x02-Session_authentication/api/v1/auth/session_db_auth.py:53-72 | For a non-empty user id, creating a session and destroying it before expiry returns True and restores the persisted records exactly. The in-memory map keeps the session. |
| Db.Init | 0x03-user_authentication_service/db.py:18-25 | A new `DB` starts with an empty table. |
| Db.InitFindsNoOne | 0x03-user_authentication_service/db.py:23-24 | Every lookup on the fresh table raises. |
| Db.NextId | 0x03-user_authentication_service/user.py:22 | A new primary key is larger than every key in the table. It is 1 on an empty table and otherwise one more than the largest key. |
| Db.AddUser | 0x03-user_authentication_service/db.py:36-47 | `add_user` appends one row and changes nothing else. The row carries the given email and hash, no session id and no reset token, and the key `NextId` gives: one more than the largest key, or 1 on an empty table, which no other row has. Unique keys stay unique, and a table in key order stays in key order. |
| Db.AddThenFind | 0x03-user_authentication_service/db.py:44-47 | When no existing row has the email, `find_user_by` then returns the added row both by that email and by its new key. |
| Db.Assign | 0x03-user_authentication_service/db.py:87 | `setattr` on a column makes that column hold the value and leaves every other column as it was. |
| Db.FirstHolding | 0x03-user_authentication_service/db.py:64-66 | The scan finds nothing exactly when no row holds the key. Otherwise it returns the first row, in table order, that holds it. |
| Db.FindIndexByDecides | 0x03-user_authentication_service/db.py:59-71 | `find_user_by` raises `NoResultFound` exactly when every key names a column and no row holds any of them. It raises `InvalidRequestError` exactly when an unknown key comes before any held key. It returns row i exactly when some key, preceded only by columns that no row holds, has i as its first holder. |
| Db.FindIndexBy | 0x03-user_authentication_service/db.py:59-67 | The loop over the keyword arguments: a returned position is a row of the table, and the only errors are `NoResultFound` and `InvalidRequestError`. Which row and which error is stated by `Db.FindIndexByDecides`. |
| Db.FindUserBy | 0x03-user_authentication_service/db.py:49-71 | The call raises `NoResultFound` exactly when every key names a column and no row holds any of them. It raises `InvalidRequestError` exactly when an unknown key comes before any held key, and it raises nothing else. Otherwise it returns `users[i]`, where `i` is the first holder of the first key that some row holds. |
| Db.FindBySingleColumn | 0x03-user_authentication_service/db.py:61-67 | With one column key, `find_user_by` returns the first row, in scan order, holding the key's value. When no row holds it, the call raises `NoResultFound`. |
| Db.NotAConjunction | 0x03-user_authentication_service/db.py:61-66 | Several keys are not a conjunction, because the first key with any holder decides. With rows (1, a) and (2, b), `email=b, id=1` returns row 2, and `email=x, id=1` returns row 1. |
| Db.Applied | 0x03-user_authentication_service/db.py:84-86 | Counts the leading arguments that name columns: exactly the assignments made before an unknown key raises. |
| Db.ApplyAll | 0x03-user_authentication_service/db.py:84-87 | The loop raises `Invalid attribute: <key>` exactly when some key is unknown, naming the first such key. Each column assigned before that point holds its last assigned value, and every column not assigned keeps its value. |
| Db.UpdateRow | 0x03-user_authentication_service/db.py:84-88 | The update of the found row. It fails exactly when a key is unknown or the new key is held by another row. A held key raises `IntegrityError` unless a `ValueError` came first, and either way the table keeps all its rows. Otherwise the table is a rearrangement of itself with the row replaced by its updated version. When the key is unchanged, the row stays in place. Unique keys stay unique, and key order is kept. |
| Db.Move | 0x03-user_authentication_service/db.py:87-88 | A row given a key that no row holds leaves its place, and the table is a rearrangement of itself with the new row in place of the old. Unique keys stay unique, and a table in key order stays in key order, which is SQLite's rowid order. |
| Db.UpdateUser | 0x03-user_authentication_service/db.py:73-88 | An unknown id raises `NoResultFound` and leaves the table unchanged. Otherwise the result is the update of the row `find_user_by(id=...)` returns. It succeeds exactly when every key names a column and any new key is free. A new key held by another row raises `IntegrityError` and keeps the table. A free new key moves the row to its place in key order. An unchanged key leaves the other rows as they were and gives the assigned columns their last values. Unique keys and key order are kept. |
| Db.OwnColumnUpdateSucceeds | 0x03-user_authentication_service/db.py:83-88 | `update_user` on a row's own key with known columns other than `id`, as `create_session`, `get_reset_password_token` and `update_password` call it, raises nothing: the row is found, every key passes `hasattr`, and the commit keeps the key. |
| Db.IdCollisionRaises | 0x03-user_authentication_service/db.py:87-88 | `update_user(1, id=2)` on rows 1 and 2 raises `IntegrityError`, and both rows keep their keys. |
| Db.MovedRowScansInKeyOrder | 0x03-user_authentication_service/db.py:59-88 | After `update_user(1, id=5)` on rows 1 and 2, the table in scan order is row 2 then row 5. `find_user_by(session_id=None)`, which both rows satisfy, then returns row 2. |
| Auth.RegisterUser | 0x03-user_authentication_service/auth.py:55-61 | A registered email raises `User <email> already exists` and leaves the table unchanged. A new email appends exactly one user with that email and the given hash, no session id, no reset token and a new key. Unique keys and unique session ids stay unique. |
| Auth.ValidLogin | 0x03-user_authentication_service/auth.py:74-81 | The result is False for an unknown email. Otherwise it is the password check against the hash of the first user with that email. |
| Auth.CreateSession | 0x03-user_authentication_service/auth.py:93-99 | An unknown email gives `None` and leaves the table unchanged. For a known email, under unique keys, the drawn id is stored on the first user with that email and returned. |
| Auth.GetUserFromSessionId | 0x03-user_authentication_service/auth.py:112-118 | A `None` id gives `None`. Otherwise the result is `None` exactly when no user holds the id, and it is the first such user when one does. |
| Auth.DestroySession | 0x03-user_authentication_service/auth.py:130-133 | An unknown user id changes nothing and raises nothing. Otherwise only the session id of the row with that key becomes `None`. Unique keys stay unique. |
| Auth.GetResetPasswordToken | 0x03-user_authentication_service/auth.py:148-154 | An unknown email raises `User does not exist` and leaves the table unchanged. Otherwise, under unique keys, the drawn token is stored on the first user with that email and returned. |
| Auth.UpdatePassword | 0x03-user_authentication_service/auth.py:170-179 | A token that no user holds raises `Invalid reset token` and leaves the table unchanged. Otherwise, under unique keys, the first user holding it gets the new hash, and that user's token is cleared. |
| Auth.CreateSessionThenLookup | 0x03-user_authentication_service/auth.py:93-118 | A session created for a registered email under an unused id resolves to that user, whose row now carries the session. |
| Auth.NoneSessionIsGuarded | 0x03-user_authentication_service/auth.py:112-113 | `get_user_from_session_id(None)` finds no one, even though `find_user_by(session_id=None)` would find a user without a session. |
| Auth.LogoutEndsSession | 0x03-user_authentication_service/app.py:64-76 | With unique keys and unique sessions, destroying the session of the user it resolves to makes it resolve to no one. |
| Auth.CreateSessionKeepsUniqueSessions | 0x03-user_authentication_service/auth.py:93-99 | Opening a session under an id that no user holds keeps session ids unique. Together with registration, this makes the hypothesis of `Auth.LogoutEndsSession` an invariant. |
| Auth.DestroySessionKeepsUniqueSessions | 0x03-user_authentication_service/auth.py:130-133 | Clearing a user's session keeps session ids unique. |
| Auth.ResetTokenIsSingleUse | 0x03-user_authentication_service/auth.py:170-179 | A reset token works once. The update clears it, so presenting it again raises `Invalid reset token`. |
| Auth.NoneTokenMatchesUntokenedUser | 0x03-user_authentication_service/auth.py:170-177 | `update_password(None, ...)` is not refused. It resets the password of the first user without a pending token. |
| Auth.ClientScenario | 0x03-user_authentication_service/main.py:89-98 | On a fresh table, the client script's sequence succeeds: register, a wrong-password login fails, the profile is refused without a session, log in, the profile shows the user, log out, get a reset token, update the password, and log in with the new password. |
| FilteredLogger.Alternatives | 0x00-personal_data/filtered_logger.py:27 | The pattern's alternatives are the field names in list order. An empty list gives the single empty name. |
| FilteredLogger.MatchField | 0x00-personal_data/filtered_logger.py:27 | At a position the pattern matches exactly when some field followed by `=` starts there, and the field it picks is one of them. |
| FilteredLogger.MatchFieldIsFirst | 0x00-personal_data/filtered_logger.py:27 | The field picked is the first in list order that matches. |
| FilteredLogger.ValueLength | 0x00-personal_data/filtered_logger.py:27 | `[^sep]*` swallows the longest run without a separator: it stops at the next separator or at the end. |
| FilteredLogger.AfterValue | 0x00-personal_data/filtered_logger.py:27-28 | After a match, the rest of the message is empty or starts with a separator. No separator lies inside the swallowed value. |
| RedactingFormatter.PadRight | 0x00-personal_data/filtered_logger.py:75 | `%-15s` left-justifies: the text is kept and padded with spaces to at least the width. |
| RedactingFormatter.Header | 0x00-personal_data/filtered_logger.py:75 | The text before the message is `[HOLBERTON] `, then the logger name, a space, the level name and a space. Then comes the time, left-justified and padded with spaces to at least 15 characters, and finally `: `. |
| FilteredLogger.Scan | 0x00-personal_data/filtered_logger.py:27-28 | Defines `re.sub`'s left-to-right scan. At each position the first matching alternative with its value is replaced; otherwise one character is copied. Its contract is given by the `RedactionProofs` lemmas. |
| FilteredLogger.FilterDatum | 0x00-personal_data/filtered_logger.py:16-28 | `filter_datum` is `FilteredLogger.Scan` over `FilteredLogger.Alternatives(fields)`. What it promises is given by the `RedactionProofs.FilterDatum...` lemmas. |
| RedactionProofs.NoKeyUnchanged | filtered_logger.py:19-20 | A message in which no configured `field=` starts anywhere comes back unchanged. |
| RedactionProofs.FilterDatumWithoutKeys | 0x00-personal_data/filtered_logger.py:27-28 | The same holds for `filter_datum` itself. |
| RedactionProofs.FilterDatumRedactsPair | 0x00-personal_data/filtered_logger.py:27-28 | A `field=value` whose value holds no separator comes back as `field=redaction`: the name and `=` are kept and the value is replaced. |
| RedactionProofs.SplitAtSeparator | filtered_logger.py:19 | Text before a separator, the separator itself, and text after it are filtered independently: a value never runs past a separator. |
| RedactionProofs.FilterDatumBySegment | 0x00-personal_data/filtered_logger.py:27-28 | When the separator is not `=` and no field name holds it, `filter_datum` of `a;b` is the filtered `a`, then the separator, then the filtered `b`. |
| RedactionProofs.SegmentStaysSegment | filtered_logger.py:19-20 | When the separator is not `=` and neither the redaction nor any field name holds it, text without separators stays without separators. |
| RedactionProofs.SeparatorCountKept | filtered_logger.py:19-20 | When the redaction holds no separator, the number of separators is kept. Field names are copied, and a swallowed value never holds a separator. |
| RedactionProofs.FilterDatumKeepsSeparatorCount | 0x00-personal_data/filtered_logger.py:27-28 | The same holds for `filter_datum`, for any call with literal field names whose redaction holds neither a backslash nor the separator. |
| RedactionProofs.ScanIdempotent | filtered_logger.py:19-20 | Filtering an already filtered message changes nothing. This needs the separator not to be `=`, the redaction to hold neither `=` nor the separator, and no field name to hold the separator. |
| RedactionProofs.FilterDatumIdempotent | 0x00-personal_data/filtered_logger.py:27-28 | The same holds for `filter_datum`. |
| RedactionProofs.IdempotenceNeedsSeparatorFreeFields | filtered_logger.py:19-20 | The field condition cannot be dropped. With fields `k=R;z` and `k`, the first pass turns `k=v;z=w` into `k=R;z=w`, and the second pass then gives `k=R;z=R`. |
| RedactionProofs.ScanFullyRedacts | filtered_logger.py:19-20 | Four conditions are needed: the separator is not `=`; the redaction holds neither `=` nor the separator; no field name holds the separator; no field name holds `=`. Then in the output every configured `field=`, wherever it starts, is followed by exactly the redaction and then a separator or the end. |
| RedactionProofs.FilterDatumRedactsEveryValue | 0x00-personal_data/filtered_logger.py:27-28 | The same holds for `filter_datum`, under the same four conditions and with literal field names and a redaction without a backslash. |
| RedactionProofs.UnanchoredFieldName | 0x00-personal_data/filtered_logger.py:27 | Field names are not anchored: with the field `name`, `username=bob;id=7` becomes `username=***;id=7`. |
| RedactingFormatter.Trailer | 0x00-personal_data/filtered_logger.py:101 | `logging.Formatter.format` appends the exception text and then the stack text exactly as given. Each one starts a new line unless the text before it already ends with one. Nothing is appended when both are absent. |
| RedactingFormatter.Format | 0x00-personal_data/filtered_logger.py:90-101 | The line is the header, then `filter_datum(fields, "***", message, ";")`, then the unredacted exception and stack texts. Without those two texts, nothing follows the message. The formatter takes any field list that makes a valid pattern. The message part keeps its separator count. When no field name holds `;` or `=`, every configured `field=` in the message part is followed by exactly `***`. |
| RedactingFormatter.PiiFieldsAreSafe | 0x00-personal_data/filtered_logger.py:13 | The default fields are exactly `name`, `email`, `phone`, `ssn` and `password`, and each is plain text holding neither `=` nor `;`. |
| RedactingFormatter.PiiValuesNeverLogged | 0x00-personal_data/filtered_logger.py:99-100 | A line formatted with the default fields shows `***` after every `name=`, `email=`, `phone=`, `ssn=` and `password=` in its message part, wherever they start. |

## Left out

- bcrypt is not modelled. The hash of a call is a parameter and `checkpw` is uninterpreted. `checkpw(pw, hash(pw))` is a precondition of the scenario lemma, not a theorem.
- `uuid4` is not modelled. The drawn id is a parameter, and freshness appears as a hypothesis where a property needs it. A collision overwrites the map entry, as the dict would.
- `datetime.now()` is a parameter: an integer clock in microseconds. Overflow of `datetime + timedelta` is not modelled.
- `SESSION_DURATION` is not read from the environment. The duration is a parameter, standing for the value `__init__` settles on (0 when unset or not an integer).
- `session_cookie` is not modelled. The request is reduced to its cookie value.
- `is_session_expired` is called by `SessionDBAuth` but defined neither by it nor by `SessionExpAuth` or `SessionAuth`, its parents. It is modelled as the uninterpreted parameter `expired`.
- `UserSession` persistence (`save`, `load_from_file`, `search`, `remove`) lives in `models.base`, which is not part of this model. The persisted store is a sequence of records. The `created_at` a record gets is the parameter `stamp`, and `None` stands for a missing attribute.
- `SessionDBAuth.current_user` is not modelled: it uses a `User` that is never imported, and it compares against `utcnow`.
- The SQLAlchemy engine, session and identity map are not modelled. Every change is immediately visible to the next query.
- Db.UpdateUser: after an `IntegrityError`, SQLAlchemy's session needs a rollback that `DB` never performs, so the source refuses every later query. The model's table stays usable.
- Db.UpdateUser: a key change that collides and is followed by an unknown key raises the `ValueError` first. The `IntegrityError` would then come at the next query's autoflush. The model reports the `ValueError` and keeps the table as it was.
- The scan order of `query(User)` is taken to be SQLite's rowid order, which is the key order. A table passed in out of order is scanned in the order given.
- Keys of `find_user_by` and `update_user` are the five columns plus `Unknown`, which both calls refuse. A non-column attribute defined on `User` itself passes both `k in User.__dict__` and `hasattr`. An attribute inherited from the declarative base, such as `metadata`, fails the first test and passes the second. `find_user_by` then raises `InvalidRequestError`, but `update_user` assigns it without complaint. The model has only `Unknown`, which makes both calls raise, so these keys are not modelled.
- SQLite's key allocation is modelled as one more than the largest key. Once the largest key reaches the 64-bit maximum, SQLite instead picks an unused key at random, and it fails with `SQLITE_FULL` when none is left. That regime is not modelled.
- The Flask routes and the client script are not modelled. The script's call sequence is the scenario lemma `Auth.ClientScenario`, and the logout route's sequence is `Auth.LogoutEndsSession`.
- `get_db`, `get_logger` and `main` of `0x00-personal_data/filtered_logger.py` are MySQL and logging I/O, so they are not modelled.
- The separator is modelled as one character, which is how the formatter calls `filter_datum`. A multi-character separator would form a character class of several characters.
- Log records with `%`-arguments are not modelled. The record's message is taken as already merged by `getMessage()`.
- RedactingFormatter.Format: the exception and stack texts are parameters of the record. `formatException` and `formatStack`, which render them, are not modelled. The model shows that these texts are written unredacted.
- `ValidCall` excludes three kinds of call, because each changes what the pattern or the template means. Field names holding regular-expression metacharacters are excluded. So are redactions holding a backslash. So is the separator `\`: the pattern then ends in `[^\]*`, an unterminated character set, and `re.sub` raises `re.error`. That error path is not modelled.
- RedactionProofs.ScanIdempotent: proved only when the separator is not `=`, the redaction holds neither `=` nor the separator, and no field name holds the separator. `IdempotenceNeedsSeparatorFreeFields` shows that the last condition is needed.
- RedactionProofs.FilterDatumIdempotent: proved only when the separator is not `=`, the redaction holds neither `=` nor the separator, and no field name holds the separator. `IdempotenceNeedsSeparatorFreeFields` shows that the last condition is needed.
- RedactionProofs.SplitAtSeparator: stated for separators other than `=` and for field names without the separator. Otherwise a field name could itself span a separator.
- `[^sep]*` also matches newlines, so a value runs to the next separator or to the end of the message, not to the end of a line.
