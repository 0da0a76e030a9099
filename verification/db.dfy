/** `DB`: the `users` table behind the authentication service, as the
    sequence of its rows in table order. The SQLAlchemy engine and session
    are not modelled: every change is visible to the next query, as it is
    through the session's identity map and autoflush. */
module Db {
  import opened Wrappers
  import opened UserModel

  /** A keyword argument `key=value`. The five columns carry their value;
      `Unknown(name)` is a keyword that names no attribute of a user. */
  datatype Field =
    | Id(id: int)
    | Email(email: string)
    | HashedPassword(hash: Hash)
    | SessionId(sessionId: Option<string>)
    | ResetToken(resetToken: Option<string>)
    | Unknown(name: string)

  /** SQLAlchemy's `NoResultFound` and `InvalidRequestError`, the
      `ValueError("Invalid attribute: <key>")` that `update_user` raises, and
      the `IntegrityError` that committing a primary key another row already
      holds raises. */
  datatype DbError = NoResultFound | InvalidRequestError | InvalidAttribute(key: string) | IntegrityError

  /** The table after an update, and what the update raised, if anything. */
  datatype Updated = Updated(users: seq<User>, error: Option<DbError>)

  /** The table after `add_user`, and the user it returned. */
  datatype Added = Added(users: seq<User>, user: User)

  predicate IsColumn(f: Field) {
    !f.Unknown?
  }

  /** `f` and `g` name the same column. */
  predicate SameKey(f: Field, g: Field) {
    || (f.Id? && g.Id?)
    || (f.Email? && g.Email?)
    || (f.HashedPassword? && g.HashedPassword?)
    || (f.SessionId? && g.SessionId?)
    || (f.ResetToken? && g.ResetToken?)
  }

  /** `user.<key> == value`. */
  predicate Holds(u: User, f: Field) {
    match f
    case Id(v) => u.id == v
    case Email(v) => u.email == v
    case HashedPassword(v) => u.hashedPassword == v
    case SessionId(v) => u.sessionId == v
    case ResetToken(v) => u.resetToken == v
    case Unknown(_) => false
  }

  /** `setattr(user, key, value)` for a column: the column takes the value,
      the others keep theirs. */
  function Assign(u: User, f: Field): (v: User)
    requires IsColumn(f)
    ensures Holds(v, f)
    ensures forall g :: IsColumn(g) && !SameKey(f, g) ==> (Holds(v, g) <==> Holds(u, g))
  {
    match f
    case Id(x) => u.(id := x)
    case Email(x) => u.(email := x)
    case HashedPassword(x) => u.(hashedPassword := x)
    case SessionId(x) => u.(sessionId := x)
    case ResetToken(x) => u.(resetToken := x)
  }

  /** No two rows share a primary key. */
  predicate UniqueIds(users: seq<User>) {
    forall i, j :: 0 <= i < j < |users| ==> users[i].id != users[j].id
  }

  /** Rows in ascending key order. The integer primary key is SQLite's
      rowid, and the unordered `query(User)` scans the table in rowid order,
      so this is also the order in which `find_user_by` meets the rows. */
  predicate Ordered(users: seq<User>) {
    forall i, j :: 0 <= i < j < |users| ==> users[i].id < users[j].id
  }

  /** `users[i]` is the first row, in table order, for which `f` holds. */
  predicate FirstHolder(users: seq<User>, f: Field, i: int) {
    && 0 <= i < |users|
    && Holds(users[i], f)
    && forall j :: 0 <= j < i ==> !Holds(users[j], f)
  }

  /** `DB()`: the table is dropped and created again, so it starts empty. */
  function Init(): (users: seq<User>)
    ensures |users| == 0
  {
    []
  }

  function MaxId(users: seq<User>): (m: int)
    requires |users| > 0
    ensures forall u <- users :: u.id <= m
    ensures exists u <- users :: u.id == m
  {
    if |users| == 1 then users[0].id
    else
      var rest := MaxId(users[1..]);
      assert forall u <- users[1..] :: u in users;
      if users[0].id > rest then users[0].id else rest
  }

  /** The key SQLite gives a new row of an integer primary key: one more than
      the largest key in the table, or 1 when the table is empty. */
  function NextId(users: seq<User>): (id: int)
    ensures forall u <- users :: u.id < id
    ensures |users| == 0 ==> id == 1
    ensures |users| > 0 ==> exists u <- users :: u.id == id - 1
  {
    if |users| == 0 then 1 else MaxId(users) + 1
  }

  /** `add_user(email, hashed_password)`: appends a row with a new key and no
      session or reset token. */
  function AddUser(users: seq<User>, email: string, hashed: Hash): (r: Added)
    ensures r.users == users + [r.user]
    ensures r.user.email == email && r.user.hashedPassword == hashed
    ensures r.user.sessionId.None? && r.user.resetToken.None?
    ensures forall u <- users :: u.id != r.user.id
    ensures r.user.id == NextId(users)
    ensures UniqueIds(users) ==> UniqueIds(r.users)
    ensures Ordered(users) ==> Ordered(r.users)
  {
    var user := User(NextId(users), email, hashed, None, None);
    assert forall i :: 0 <= i < |users| ==> users[i] in users;
    Added(users + [user], user)
  }

  /** A row added under an email no row holds is the one `find_user_by`
      returns for that email, and for its new key. */
  lemma AddThenFind(users: seq<User>, email: string, hashed: Hash)
    requires forall u <- users :: u.email != email
    ensures var r := AddUser(users, email, hashed);
            && FindUserBy(r.users, [Email(email)]) == Ok(r.user)
            && FindUserBy(r.users, [Id(r.user.id)]) == Ok(r.user)
  {
    var r := AddUser(users, email, hashed);
    AppendedIsFirstHolder(users, r.user, Email(email));
    AppendedIsFirstHolder(users, r.user, Id(r.user.id));
  }

  /** A row appended after rows none of which holds `f`, and holding `f`
      itself, is the first holder. */
  lemma AppendedIsFirstHolder(users: seq<User>, u: User, f: Field)
    requires IsColumn(f) && Holds(u, f) && forall v <- users :: !Holds(v, f)
    ensures FindUserBy(users + [u], [f]) == Ok(u)
  {
    var all := users + [u];
    FindBySingleColumn(all, f);
    assert FirstHolder(all, f, |users|) by {
      forall j | 0 <= j < |users| ensures !Holds(all[j], f) {
        assert all[j] == users[j] && users[j] in users;
      }
    }
  }

  /** The first row, in table order, for which `f` holds. */
  function FirstHolding(users: seq<User>, f: Field): (r: Option<nat>)
    ensures r.None? <==> forall u <- users :: !Holds(u, f)
    ensures r.Some? ==> FirstHolder(users, f, r.value)
  {
    if |users| == 0 then None
    else if Holds(users[0], f) then Some(0)
    else
      match FirstHolding(users[1..], f)
      case None => None
      case Some(i) => Some(i + 1)
  }

  /** The position of the row `find_user_by(**kwargs)` returns. Keys are taken
      in order: an unknown key raises `InvalidRequestError`, and otherwise the
      first row holding the key, if any, is the answer. */
  function FindIndexBy(users: seq<User>, kwargs: seq<Field>): (r: Result<nat, DbError>)
    decreases |kwargs|
    ensures r.Ok? ==> r.value < |users|
    ensures r.Err? ==> r.error in {NoResultFound, InvalidRequestError}
  {
    if |kwargs| == 0 then Err(NoResultFound)
    else if !IsColumn(kwargs[0]) then Err(InvalidRequestError)
    else
      match FirstHolding(users, kwargs[0])
      case Some(i) => Ok(i)
      case None => FindIndexBy(users, kwargs[1..])
  }

  /** `find_user_by(**kwargs)`: the first row, in scan order, holding the
      first key that some row holds, unless an unknown key comes first. */
  function FindUserBy(users: seq<User>, kwargs: seq<Field>): (r: Result<User, DbError>)
    ensures r.Ok? ==> r.value in users
    ensures r.Err? <==> FindIndexBy(users, kwargs).Err?
    ensures r == Err(NoResultFound) <==> Undecided(users, kwargs, |kwargs|)
    ensures r == Err(InvalidRequestError)
            <==> exists k :: 0 <= k < |kwargs| && Undecided(users, kwargs, k) && !IsColumn(kwargs[k])
    ensures r.Err? ==> r.error in {NoResultFound, InvalidRequestError}
    ensures forall k, i :: 0 <= k < |kwargs| && Undecided(users, kwargs, k) && FirstHolder(users, kwargs[k], i)
                           ==> r == Ok(users[i])
    ensures r.Ok? ==> exists k, i :: && 0 <= k < |kwargs| && Undecided(users, kwargs, k)
                                     && FirstHolder(users, kwargs[k], i) && r.value == users[i]
  {
    FindIndexByDecides(users, kwargs);
    match FindIndexBy(users, kwargs)
    case Ok(i) => Ok(users[i])
    case Err(e) => Err(e)
  }

  /** No key before position `k` is unknown or held by any row. */
  predicate Undecided(users: seq<User>, kwargs: seq<Field>, k: nat)
    requires k <= |kwargs|
  {
    forall j :: 0 <= j < k ==> IsColumn(kwargs[j]) && forall u <- users :: !Holds(u, kwargs[j])
  }

  lemma UndecidedShift(users: seq<User>, kwargs: seq<Field>, k: nat)
    requires 0 < |kwargs| && k < |kwargs|
    ensures Undecided(users, kwargs, k + 1)
            <==> (&& IsColumn(kwargs[0]) && (forall u <- users :: !Holds(u, kwargs[0]))
                  && Undecided(users, kwargs[1..], k))
  {
    assert forall j :: 0 < j <= k ==> kwargs[j] == kwargs[1..][j - 1];
  }

  /** What `find_user_by` decides: the first key that is unknown or held by
      some row decides, by raising `InvalidRequestError` or by naming the
      first row that holds it; when there is none, `NoResultFound`. The keys
      are therefore not a conjunction. */
  lemma {:induction false} FindIndexByDecides(users: seq<User>, kwargs: seq<Field>)
    ensures FindIndexBy(users, kwargs) == Err(NoResultFound) <==> Undecided(users, kwargs, |kwargs|)
    ensures FindIndexBy(users, kwargs) == Err(InvalidRequestError)
            <==> exists k :: 0 <= k < |kwargs| && Undecided(users, kwargs, k) && !IsColumn(kwargs[k])
    ensures forall i ::
              (FindIndexBy(users, kwargs) == Ok(i)
               <==> exists k :: 0 <= k < |kwargs| && Undecided(users, kwargs, k) && FirstHolder(users, kwargs[k], i))
    decreases |kwargs|
  {
    if |kwargs| == 0 {
      return;
    }
    var head := kwargs[0];
    var tail := kwargs[1..];
    assert Undecided(users, kwargs, 0);
    if !IsColumn(head) {
      assert !Undecided(users, kwargs, |kwargs|);
      forall i, k | 0 <= k < |kwargs| && FirstHolder(users, kwargs[k], i)
        ensures !Undecided(users, kwargs, k)
      {
        assert k != 0;
      }
    } else if FirstHolding(users, head).Some? {
      var first := FirstHolding(users, head).value;
      assert users[first] in users;
      forall k | 0 < k <= |kwargs| ensures !Undecided(users, kwargs, k) {
        assert users[first] in users && Holds(users[first], kwargs[0]);
      }
      assert FirstHolder(users, kwargs[0], first);
      forall i, k | 0 <= k < |kwargs| && FirstHolder(users, kwargs[k], i)
        ensures Undecided(users, kwargs, k) ==> i == first
      {
        if k == 0 {
          FirstHolderUnique(users, head, i, first);
        }
      }
    } else {
      FindIndexByDecides(users, tail);
      assert FindIndexBy(users, kwargs) == FindIndexBy(users, tail);
      forall k | 0 <= k < |tail| ensures Undecided(users, kwargs, k + 1) <==> Undecided(users, tail, k) {
        UndecidedShift(users, kwargs, k);
      }
      UndecidedShift(users, kwargs, |tail|);
      forall k | 0 <= k < |kwargs| && Undecided(users, kwargs, k) && !IsColumn(kwargs[k])
        ensures FindIndexBy(users, tail) == Err(InvalidRequestError)
      {
        assert k != 0;
        assert Undecided(users, tail, k - 1) && !IsColumn(tail[k - 1]);
      }
      if FindIndexBy(users, tail) == Err(InvalidRequestError) {
        var k :| 0 <= k < |tail| && Undecided(users, tail, k) && !IsColumn(tail[k]);
        assert Undecided(users, kwargs, k + 1) && !IsColumn(kwargs[k + 1]);
      }
      forall i, k | 0 <= k < |kwargs| && Undecided(users, kwargs, k) && FirstHolder(users, kwargs[k], i)
        ensures FindIndexBy(users, tail) == Ok(i)
      {
        assert users[i] in users;
        assert k != 0;
        assert Undecided(users, tail, k - 1) && FirstHolder(users, tail[k - 1], i);
      }
      forall i | FindIndexBy(users, tail) == Ok(i)
        ensures exists k :: 0 <= k < |kwargs| && Undecided(users, kwargs, k) && FirstHolder(users, kwargs[k], i)
      {
        var k :| 0 <= k < |tail| && Undecided(users, tail, k) && FirstHolder(users, tail[k], i);
        assert Undecided(users, kwargs, k + 1) && FirstHolder(users, kwargs[k + 1], i);
      }
    }
  }

  /** Only one row is the first to hold a key. */
  lemma FirstHolderUnique(users: seq<User>, f: Field, i: int, j: int)
    requires FirstHolder(users, f, i) && FirstHolder(users, f, j)
    ensures i == j
  {
  }

  /** With one column key, `find_user_by` returns the first row holding it,
      or raises `NoResultFound`. */
  lemma FindBySingleColumn(users: seq<User>, f: Field)
    requires IsColumn(f)
    ensures FindUserBy(users, [f]) == Err(NoResultFound) <==> forall u <- users :: !Holds(u, f)
    ensures forall i :: FindIndexBy(users, [f]) == Ok(i) <==> FirstHolder(users, f, i)
    ensures FindUserBy(users, [f]).Ok? ==> Holds(FindUserBy(users, [f]).value, f)
    ensures forall i :: FirstHolder(users, f, i) ==> FindUserBy(users, [f]) == Ok(users[i])
  {
    FindIndexByDecides(users, [f]);
    assert Undecided(users, [f], 0);
    assert Undecided(users, [f], 1) <==> forall u <- users :: !Holds(u, f);
  }

  /** On the fresh table every lookup fails. */
  lemma {:induction false} InitFindsNoOne(kwargs: seq<Field>)
    ensures FindUserBy(Init(), kwargs).Err?
    decreases |kwargs|
  {
    if |kwargs| > 0 && IsColumn(kwargs[0]) {
      InitFindsNoOne(kwargs[1..]);
    }
  }

  /** The keys are not a conjunction: the row found for `email=b, id=1` is the
      one with email `b`, whose id is 2; and `email=x, id=1` finds the row
      with id 1 though no row has email `x`. */
  lemma NotAConjunction(h: Hash)
    ensures var users := [User(1, "a", h, None, None), User(2, "b", h, None, None)];
            && FindUserBy(users, [Email("b"), Id(1)]) == Ok(users[1])
            && FindUserBy(users, [Email("x"), Id(1)]) == Ok(users[0])
  {
    var users := [User(1, "a", h, None, None), User(2, "b", h, None, None)];
    assert FirstHolder(users, Email("b"), 1);
    assert FindIndexBy(users, [Email("b"), Id(1)]) == Ok(1);
    assert forall u <- users :: !Holds(u, Email("x"));
    assert [Email("x"), Id(1)][1..] == [Id(1)];
    assert FirstHolder(users, Id(1), 0);
    assert FindIndexBy(users, [Id(1)]) == Ok(0);
  }

  /** How many leading keyword arguments name columns: the assignments
      `update_user` makes before it meets an unknown key. */
  function Applied(kwargs: seq<Field>): (n: nat)
    ensures n <= |kwargs|
    ensures forall k :: 0 <= k < n ==> IsColumn(kwargs[k])
    ensures n < |kwargs| ==> !IsColumn(kwargs[n])
  {
    if |kwargs| == 0 || !IsColumn(kwargs[0]) then 0 else 1 + Applied(kwargs[1..])
  }

  /** No argument after `k` and before `n` names the column `kwargs[k]` does. */
  predicate LastOfKey(kwargs: seq<Field>, k: nat, n: nat)
    requires k < n <= |kwargs|
  {
    forall l :: k < l < n ==> !SameKey(kwargs[l], kwargs[k])
  }

  /** The loop of `update_user` over one row: assign the arguments in order
      until an unknown key raises. */
  function ApplyAll(u: User, kwargs: seq<Field>): (r: (User, Option<DbError>))
    decreases |kwargs|
    ensures r.1.None? <==> Applied(kwargs) == |kwargs|
    ensures r.1.Some? ==> r.1.value == InvalidAttribute(kwargs[Applied(kwargs)].name)
    ensures forall g :: IsColumn(g) && (forall k :: 0 <= k < Applied(kwargs) ==> !SameKey(kwargs[k], g))
                        ==> (Holds(r.0, g) <==> Holds(u, g))
    ensures forall k :: 0 <= k < Applied(kwargs) && LastOfKey(kwargs, k, Applied(kwargs)) ==> Holds(r.0, kwargs[k])
  {
    if |kwargs| == 0 then (u, None)
    else if !IsColumn(kwargs[0]) then (u, Some(InvalidAttribute(kwargs[0].name)))
    else
      var r := ApplyAll(Assign(u, kwargs[0]), kwargs[1..]);
      ApplyAllStep(u, kwargs, r.0);
      r
  }

  /** The inductive step of `ApplyAll`: what holds after the assignments of
      the tail, on top of the head's assignment, holds of the whole list. */
  lemma ApplyAllStep(u: User, kwargs: seq<Field>, v: User)
    requires 0 < |kwargs| && IsColumn(kwargs[0])
    requires forall g :: IsColumn(g) && (forall k :: 0 <= k < Applied(kwargs[1..]) ==> !SameKey(kwargs[1..][k], g))
                         ==> (Holds(v, g) <==> Holds(Assign(u, kwargs[0]), g))
    requires forall k :: 0 <= k < Applied(kwargs[1..]) && LastOfKey(kwargs[1..], k, Applied(kwargs[1..]))
                         ==> Holds(v, kwargs[1..][k])
    ensures forall g :: IsColumn(g) && (forall k :: 0 <= k < Applied(kwargs) ==> !SameKey(kwargs[k], g))
                        ==> (Holds(v, g) <==> Holds(u, g))
    ensures forall k :: 0 <= k < Applied(kwargs) && LastOfKey(kwargs, k, Applied(kwargs)) ==> Holds(v, kwargs[k])
  {
    var n := Applied(kwargs);
    var tail := kwargs[1..];
    assert n == 1 + Applied(tail);
    forall g | IsColumn(g) && (forall k :: 0 <= k < n ==> !SameKey(kwargs[k], g))
      ensures Holds(v, g) <==> Holds(u, g)
    {
      forall k | 0 <= k < Applied(tail) ensures !SameKey(tail[k], g) {
        assert tail[k] == kwargs[k + 1];
      }
      assert !SameKey(kwargs[0], g);
    }
    forall k | 0 <= k < n && LastOfKey(kwargs, k, n) ensures Holds(v, kwargs[k]) {
      if k == 0 {
        forall j | 0 <= j < Applied(tail) ensures !SameKey(tail[j], kwargs[0]) {
          assert tail[j] == kwargs[j + 1];
        }
        assert Holds(Assign(u, kwargs[0]), kwargs[0]);
      } else {
        assert tail[k - 1] == kwargs[k];
        assert LastOfKey(tail, k - 1, Applied(tail)) by {
          forall l | k - 1 < l < Applied(tail) ensures !SameKey(tail[l], tail[k - 1]) {
            assert tail[l] == kwargs[l + 1];
          }
        }
      }
    }
  }

  /** The row at `i`, after its assignments, is `v`, and `v` carries a key
      that another row holds: committing it breaks the primary key. */
  predicate KeyTaken(users: seq<User>, i: int, v: User)
    requires 0 <= i < |users|
  {
    v.id != users[i].id && exists u <- users :: u.id == v.id
  }

  /** The number of leading rows whose key is at most `id`: where a row with
      key `id` belongs in a table in key order. */
  function Slot(users: seq<User>, id: int): (p: nat)
    ensures p <= |users|
    ensures forall j :: 0 <= j < p ==> users[j].id <= id
    ensures p < |users| ==> id < users[p].id
  {
    if |users| == 0 || id < users[0].id then 0
    else
      var p := 1 + Slot(users[1..], id);
      assert forall j :: 1 <= j < p ==> users[j] == users[1..][j - 1];
      p
  }

  /** The table after row `i` takes the new key of `v`: the row leaves its
      place and SQLite files it under its new rowid, so the other rows keep
      their order and the changed row comes where its key belongs. */
  function Move(users: seq<User>, i: int, v: User): (r: seq<User>)
    requires 0 <= i < |users|
    requires forall u <- users :: u.id != v.id
    ensures |r| == |users|
    ensures multiset(r) == multiset(users[i := v])
    ensures UniqueIds(users) ==> UniqueIds(r)
    ensures Ordered(users) ==> Ordered(r)
  {
    var rest := users[..i] + users[i + 1..];
    var p := Slot(rest, v.id);
    MoveIsPermutation(users, i, v, p);
    RemoveKeeps(users, i);
    InsertKeepsUniqueIds(rest, v, p);
    InsertKeepsOrder(rest, v, p);
    rest[..p] + [v] + rest[p..]
  }

  /** Taking row `i` out and putting `v` in at `p` rearranges the table with
      `v` in place of row `i`. */
  lemma MoveIsPermutation(users: seq<User>, i: int, v: User, p: nat)
    requires 0 <= i < |users| && p < |users|
    ensures var rest := users[..i] + users[i + 1..];
            multiset(rest[..p] + [v] + rest[p..]) == multiset(users[i := v])
  {
    var rest := users[..i] + users[i + 1..];
    assert users[i := v] == users[..i] + [v] + users[i + 1..];
    assert rest[..p] + rest[p..] == rest;
    assert multiset(rest[..p] + [v] + rest[p..]) == multiset(rest[..p]) + multiset(rest[p..]) + multiset{v};
    assert multiset(rest) == multiset(rest[..p]) + multiset(rest[p..]);
    assert multiset(users[i := v]) == multiset(users[..i]) + multiset(users[i + 1..]) + multiset{v};
  }

  /** Dropping a row keeps the keys unique and in order, and every remaining
      row comes from the table. */
  lemma RemoveKeeps(users: seq<User>, i: int)
    requires 0 <= i < |users|
    ensures var rest := users[..i] + users[i + 1..];
            && (forall u <- rest :: u in users)
            && (UniqueIds(users) ==> UniqueIds(rest))
            && (Ordered(users) ==> Ordered(rest))
  {
    var rest := users[..i] + users[i + 1..];
    assert forall j :: 0 <= j < |rest| ==> rest[j] == users[if j < i then j else j + 1];
  }

  /** Where each row of `rest` lands once `v` is inserted at `p`. */
  lemma InsertIndex(rest: seq<User>, v: User, p: nat)
    requires p <= |rest|
    ensures var r := rest[..p] + [v] + rest[p..];
            && |r| == |rest| + 1 && r[p] == v
            && (forall j :: 0 <= j < p ==> r[j] == rest[j])
            && (forall j :: p < j < |r| ==> r[j] == rest[j - 1])
  {
  }

  /** Inserting a row with a new key at its slot keeps the keys unique. */
  lemma InsertKeepsUniqueIds(rest: seq<User>, v: User, p: nat)
    requires forall u <- rest :: u.id != v.id
    requires p <= |rest|
    ensures UniqueIds(rest) ==> UniqueIds(rest[..p] + [v] + rest[p..])
  {
    var r := rest[..p] + [v] + rest[p..];
    InsertIndex(rest, v, p);
    if UniqueIds(rest) {
      forall j, k | 0 <= j < k < |r| ensures r[j].id != r[k].id {
        if j == p {
          assert rest[k - 1] in rest;
        } else if k == p {
          assert rest[j] in rest;
        } else {
          var a := if j < p then j else j - 1;
          var b := if k < p then k else k - 1;
          assert a < b && r[j] == rest[a] && r[k] == rest[b];
        }
      }
    }
  }

  /** Inserting a row with a new key at its slot keeps the keys in order. */
  lemma InsertKeepsOrder(rest: seq<User>, v: User, p: nat)
    requires forall u <- rest :: u.id != v.id
    requires p == Slot(rest, v.id)
    ensures Ordered(rest) ==> Ordered(rest[..p] + [v] + rest[p..])
  {
    var r := rest[..p] + [v] + rest[p..];
    InsertIndex(rest, v, p);
    if Ordered(rest) {
      forall j, k | 0 <= j < k < |r| ensures r[j].id < r[k].id {
        if j == p {
          assert rest[p].id <= rest[k - 1].id;
        } else if k == p {
          assert rest[j] in rest;
        } else {
          var a := if j < p then j else j - 1;
          var b := if k < p then k else k - 1;
          assert a < b && r[j] == rest[a] && r[k] == rest[b];
        }
      }
    }
  }

  /** The update of row `i` once `find_user_by(id=...)` has found it: the
      assignments, then the commit. */
  function UpdateRow(users: seq<User>, i: int, kwargs: seq<Field>): (r: Updated)
    requires 0 <= i < |users|
    ensures |r.users| == |users|
    ensures UniqueIds(users) ==> UniqueIds(r.users)
    ensures Ordered(users) ==> Ordered(r.users)
    ensures r.error.Some? ==> r.error.value == IntegrityError
                              || (Applied(kwargs) < |kwargs| && r.error.value == InvalidAttribute(kwargs[Applied(kwargs)].name))
    ensures var v := ApplyAll(users[i], kwargs).0;
            var e := ApplyAll(users[i], kwargs).1;
            && (r.error.None? <==> Applied(kwargs) == |kwargs| && !KeyTaken(users, i, v))
            && (KeyTaken(users, i, v) ==> r == Updated(users, if e.Some? then e else Some(IntegrityError)))
            && (!KeyTaken(users, i, v) ==> r.error == e && multiset(r.users) == multiset(users[i := v]))
            && (v.id == users[i].id ==> r == Updated(users[i := v], e))
  {
    var applied := ApplyAll(users[i], kwargs);
    var v := applied.0;
    if v.id == users[i].id then
      ReplaceKeepsUniqueIds(users, i, v);
      ReplaceKeepsOrder(users, i, v);
      Updated(users[i := v], applied.1)
    else if exists u <- users :: u.id == v.id then
      Updated(users, if applied.1.Some? then applied.1 else Some(IntegrityError))
    else
      Updated(Move(users, i, v), applied.1)
  }

  /** `update_user(user_id, **kwargs)`. The row is the one `find_user_by(id=...)`
      returns. Assignments made before an unknown key raises stay on it, as
      they do on the session's object. A new key that another row holds makes
      the commit raise, and the table keeps its rows; a new key that no row
      holds moves the row to its place in rowid order. */
  function UpdateUser(users: seq<User>, userId: int, kwargs: seq<Field>): (r: Updated)
    ensures |r.users| == |users|
    ensures (forall u <- users :: u.id != userId) ==> r == Updated(users, Some(NoResultFound))
    ensures UniqueIds(users) ==> UniqueIds(r.users)
    ensures Ordered(users) ==> Ordered(r.users)
    ensures r.error.Some? && r.error.value !in {NoResultFound, IntegrityError}
            ==> Applied(kwargs) < |kwargs| && r.error.value == InvalidAttribute(kwargs[Applied(kwargs)].name)
    ensures forall i :: FirstHolder(users, Id(userId), i) ==> r == UpdateRow(users, i, kwargs)
    ensures forall i :: FirstHolder(users, Id(userId), i) ==>
              var v := ApplyAll(users[i], kwargs).0;
              var e := ApplyAll(users[i], kwargs).1;
              && (r.error.None? <==> Applied(kwargs) == |kwargs| && !KeyTaken(users, i, v))
              && (KeyTaken(users, i, v) ==> r == Updated(users, if e.Some? then e else Some(IntegrityError)))
              && (!KeyTaken(users, i, v) ==> r.error == e && multiset(r.users) == multiset(users[i := v]))
              && (v.id == users[i].id ==> r == Updated(users[i := v], e))
    ensures forall i, j :: (&& FirstHolder(users, Id(userId), i) && ApplyAll(users[i], kwargs).0.id == users[i].id
                            && 0 <= j < |users| && j != i)
                           ==> r.users[j] == users[j]
    ensures forall i, g :: (&& FirstHolder(users, Id(userId), i) && ApplyAll(users[i], kwargs).0.id == users[i].id
                            && IsColumn(g) && forall k :: 0 <= k < Applied(kwargs) ==> !SameKey(kwargs[k], g))
                           ==> (Holds(r.users[i], g) <==> Holds(users[i], g))
    ensures forall i, k :: (&& FirstHolder(users, Id(userId), i) && ApplyAll(users[i], kwargs).0.id == users[i].id
                            && 0 <= k < Applied(kwargs) && LastOfKey(kwargs, k, Applied(kwargs)))
                           ==> Holds(r.users[i], kwargs[k])
  {
    FindBySingleColumn(users, Id(userId));
    match FindIndexBy(users, [Id(userId)])
    case Err(e) => Updated(users, Some(e))
    case Ok(i) =>
      assert forall j :: FirstHolder(users, Id(userId), j) ==> j == i;
      UpdateRow(users, i, kwargs)
  }

  /** Under unique keys, `find_user_by(id=...)` of a row's own key finds that
      row. */
  lemma OwnIdFindsRow(users: seq<User>, i: int)
    requires 0 <= i < |users|
    ensures UniqueIds(users) ==> FirstHolder(users, Id(users[i].id), i)
  {
  }

  /** `update_user(user.id, ...)` of a row's own key with known columns other
      than `id` raises nothing: the row is found, every key is a column, and
      the key does not change. */
  lemma OwnColumnUpdateSucceeds(users: seq<User>, i: int, kwargs: seq<Field>)
    requires 0 <= i < |users|
    requires forall k :: 0 <= k < |kwargs| ==> IsColumn(kwargs[k]) && !kwargs[k].Id?
    ensures UpdateUser(users, users[i].id, kwargs).error.None?
  {
    var key := Id(users[i].id);
    FindBySingleColumn(users, key);
    var j := FindIndexBy(users, [key]).value;
    assert FirstHolder(users, key, j);
    NoIdKeepsKey(users[j], kwargs);
  }

  /** Known columns other than `id` are all applied and leave the key as it
      was. */
  lemma {:induction false} NoIdKeepsKey(u: User, kwargs: seq<Field>)
    requires forall k :: 0 <= k < |kwargs| ==> IsColumn(kwargs[k]) && !kwargs[k].Id?
    ensures Applied(kwargs) == |kwargs|
    ensures ApplyAll(u, kwargs).0.id == u.id
    decreases |kwargs|
  {
    if |kwargs| > 0 {
      NoIdKeepsKey(Assign(u, kwargs[0]), kwargs[1..]);
    }
  }

  /** Replacing a row by one with the same key keeps the keys unique. */
  lemma ReplaceKeepsUniqueIds(users: seq<User>, i: int, v: User)
    requires 0 <= i < |users| && v.id == users[i].id
    ensures UniqueIds(users) ==> UniqueIds(users[i := v])
  {
  }

  /** Replacing a row by one with the same key keeps the keys in order. */
  lemma ReplaceKeepsOrder(users: seq<User>, i: int, v: User)
    requires 0 <= i < |users| && v.id == users[i].id
    ensures Ordered(users) ==> Ordered(users[i := v])
  {
  }

  /** `update_user(1, id=2)` on rows 1 and 2: the commit raises
      `IntegrityError` and both rows keep their keys. */
  lemma IdCollisionRaises(h: Hash)
    ensures var users := [User(1, "a", h, None, None), User(2, "b", h, None, None)];
            UpdateUser(users, 1, [Id(2)]) == Updated(users, Some(IntegrityError))
  {
    var users := [User(1, "a", h, None, None), User(2, "b", h, None, None)];
    assert FirstHolder(users, Id(1), 0);
    assert ApplyAll(users[0], [Id(2)]) == (users[0].(id := 2), None) by {
      assert [Id(2)][1..] == [];
    }
    assert users[1].id == 2 && users[1] in users;
  }

  /** `update_user(1, id=5)` on rows 1 and 2: the row moves behind row 2, so
      `find_user_by(session_id=None)`, which both rows satisfy, now returns
      row 2. */
  lemma MovedRowScansInKeyOrder(h: Hash)
    ensures var users := [User(1, "a", h, None, None), User(2, "b", h, None, None)];
            var after := UpdateUser(users, 1, [Id(5)]);
            && after == Updated([users[1], User(5, "a", h, None, None)], None)
            && FindUserBy(after.users, [SessionId(None)]) == Ok(users[1])
  {
    var users := [User(1, "a", h, None, None), User(2, "b", h, None, None)];
    var moved := User(5, "a", h, None, None);
    assert FirstHolder(users, Id(1), 0);
    assert ApplyAll(users[0], [Id(5)]) == (moved, None) by {
      assert [Id(5)][1..] == [];
    }
    assert forall u <- users :: u.id != 5;
    var after := Move(users, 0, moved);
    assert Ordered(users);
    assert after == [users[1], moved] by {
      MoveOfTwo(users, moved);
    }
    assert FirstHolder(after, SessionId(None), 0);
    FindBySingleColumn(after, SessionId(None));
  }

  /** The two-row case of `Move`, on its own to keep the literals apart. */
  lemma MoveOfTwo(users: seq<User>, v: User)
    requires |users| == 2 && users[0].id < users[1].id < v.id
    ensures Move(users, 0, v) == [users[1], v]
  {
    var rest := users[..0] + users[1..];
    assert rest == [users[1]];
    assert Slot(rest, v.id) == 1;
  }
}
