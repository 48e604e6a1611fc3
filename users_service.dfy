/** The users service: the users table with its e-mail and username
    uniqueness checks, password hashing, login and token issue and
    verification. bcrypt and jsonwebtoken are foreign libraries and appear
    as function parameters: `hash` (bcrypt.hash, salt included),
    `compare` (bcrypt.compare), `sign` (jwt.sign with the secret and
    expiry) and `verify` (jwt.verify, None when it throws). */
module UsersService {
  import opened Js
  import opened Auth
  import Tables

  /** A stored user; `password` holds the bcrypt hash. */
  datatype UserRow = UserRow(id: int, username: string, email: string, password: string,
                             createdAt: int, updatedAt: int)

  /** A user as the service returns it: without the password. */
  datatype User = User(id: int, username: string, email: string, createdAt: int, updatedAt: int)

  datatype LoginResponse = LoginResponse(token: string, user: Claim)

  /** `Partial<CreateUserRequest>`: None is an absent key. */
  datatype Updates = Updates(username: Option<string>, email: Option<string>, password: Option<string>)

  const EmailExists := "User with this email already exists"
  const UsernameTaken := "Username is already taken"
  const InvalidCredentials := "Invalid email or password"
  const InvalidToken := "Invalid or expired token"
  const NotFound := "User not found"
  const EmailTaken := "Email is already taken"

  function View(row: UserRow): (u: User)
    ensures u.id == row.id && u.username == row.username && u.email == row.email
    ensures u.createdAt == row.createdAt && u.updatedAt == row.updatedAt
  {
    User(row.id, row.username, row.email, row.createdAt, row.updatedAt)
  }

  /** No two users share an e-mail address or a username. */
  predicate UniqueRows(rows: seq<UserRow>)
  {
    forall i, j :: 0 <= i < j < |rows| ==> rows[i].email != rows[j].email && rows[i].username != rows[j].username
  }

  predicate HasEmail(rows: seq<UserRow>, email: string)
  {
    exists i :: 0 <= i < |rows| && rows[i].email == email
  }

  predicate HasUsername(rows: seq<UserRow>, username: string)
  {
    exists i :: 0 <= i < |rows| && rows[i].username == username
  }

  /** `verifyToken`: the payload of a token the secret signed, or the
      one error every failure is reported with. */
  function VerifyToken(token: string, verify: string -> Option<Claim>): (r: Result<Claim, string>)
    ensures r.Success? <==> verify(token).Some?
    ensures r.Success? ==> r.value == verify(token).value
    ensures r.Failure? ==> r.error == InvalidToken
  {
    match verify(token)
    case None => Failure(InvalidToken)
    case Some(c) => Success(c)
  }

  /** `ORDER BY createdAt DESC`. */
  function NewestFirst(rows: seq<UserRow>): (sorted: seq<UserRow>)
    ensures multiset(sorted) == multiset(rows)
    ensures |sorted| == |rows|
    ensures forall i, j :: 0 <= i < j < |sorted| ==> sorted[i].createdAt >= sorted[j].createdAt
  {
    var key := (r: UserRow) => -r.createdAt;
    var sorted := Tables.SortBy(rows, key);
    assert forall i, j :: 0 <= i < j < |sorted| ==> key(sorted[i]) <= key(sorted[j]);
    sorted
  }

  /** The stored row an update leaves behind, once every check has passed:
      every present key is written (an empty password unhashed, as
      `if (updates.password)` skips the hash), and `updatedAt` moves only
      when some value changed. */
  function Apply(row: UserRow, updates: Updates, hash: string -> string, now: int): (r: UserRow)
    ensures r.id == row.id && r.createdAt == row.createdAt
    ensures r.email == (if updates.email.Some? then updates.email.value else row.email)
    ensures r.username == (if updates.username.Some? then updates.username.value else row.username)
    ensures updates.password.None? ==> r.password == row.password
    ensures updates.password == Some("") ==> r.password == ""
    ensures updates.password.Some? && updates.password.value != "" ==> r.password == hash(updates.password.value)
    ensures r.updatedAt == (if r == row.(updatedAt := r.updatedAt) then row.updatedAt else now)
  {
    var password :=
      match updates.password
      case None => row.password
      case Some(p) => if p != "" then hash(p) else p;
    var changed := row.(username := if updates.username.Some? then updates.username.value else row.username,
                        email := if updates.email.Some? then updates.email.value else row.email,
                        password := password);
    if changed == row then row else changed.(updatedAt := now)
  }

  /** The rows `where: { id }` selects (`findByPk`). */
  function WithId(id: int): UserRow -> bool
  {
    (u: UserRow) => u.id == id
  }

  /** A new e-mail address for `row` that differs from its own and that
      some user of the table already has. */
  predicate EmailClash(rows: seq<UserRow>, row: UserRow, email: Option<string>)
  {
    email.Some? && email.value != row.email && HasEmail(rows, email.value)
  }

  /** A new username for `row` that differs from its own and that some
      user of the table already has. */
  predicate UsernameClash(rows: seq<UserRow>, row: UserRow, username: Option<string>)
  {
    username.Some? && username.value != row.username && HasUsername(rows, username.value)
  }

  /** `updateUser` AS WRITTEN, on the table value: the e-mail (and
      username) check runs only for a truthy value that differs from the
      current one, yet `user.update(updates)` writes every present key. */
  function UpdateAsWritten(rows: seq<UserRow>, id: int, updates: Updates, hash: string -> string, now: int)
    : (r: Result<seq<UserRow>, string>)
    ensures var k := Tables.FindFirst(rows, WithId(id));
            && (k < 0 <==> r == Failure(NotFound))
            && (k >= 0 && Truthy(updates.email) && EmailClash(rows, rows[k], updates.email) ==>
                  r == Failure(EmailTaken))
            && (k >= 0 && !(Truthy(updates.email) && EmailClash(rows, rows[k], updates.email))
                  && Truthy(updates.username) && UsernameClash(rows, rows[k], updates.username) ==>
                  r == Failure(UsernameTaken))
            && (r.Success? <==> k >= 0 && !(Truthy(updates.email) && EmailClash(rows, rows[k], updates.email))
                                       && !(Truthy(updates.username) && UsernameClash(rows, rows[k], updates.username)))
            && (r.Success? ==> r.value == rows[k := Apply(rows[k], updates, hash, now)])
  {
    var k := Tables.FindFirst(rows, WithId(id));
    if k < 0 then Failure(NotFound)
    else
      var row := rows[k];
      if Truthy(updates.email) && EmailClash(rows, row, updates.email) then
        Failure(EmailTaken)
      else if Truthy(updates.username) && UsernameClash(rows, row, updates.username) then
        Failure(UsernameTaken)
      else Success(rows[k := Apply(row, updates, hash, now)])
  }

  /** Setting one user's e-mail to the empty string passes the check even
      when another user already has that address. */
  lemma UpdateAsWrittenBreaksUniqueness(hash: string -> string)
    ensures var rows := [UserRow(1, "ann", "a@x", "h1", 0, 0), UserRow(2, "bob", "", "h2", 0, 0)];
            && UniqueRows(rows)
            && UpdateAsWritten(rows, 1, Updates(None, Some(""), None), hash, 5).Success?
            && !UniqueRows(UpdateAsWritten(rows, 1, Updates(None, Some(""), None), hash, 5).value)
  {
    var rows := [UserRow(1, "ann", "a@x", "h1", 0, 0), UserRow(2, "bob", "", "h2", 0, 0)];
    var r := UpdateAsWritten(rows, 1, Updates(None, Some(""), None), hash, 5);
    assert Tables.FindFirst(rows, WithId(1)) == 0;
    assert r.value[0].email == "" == r.value[1].email;
  }

  /** `updateUser` as evidently intended: every PRESENT value that differs
      from the current one is checked against the table before anything
      is written. */
  function UpdateChecked(rows: seq<UserRow>, id: int, updates: Updates, hash: string -> string, now: int)
    : (r: Result<seq<UserRow>, string>)
    ensures var k := Tables.FindFirst(rows, WithId(id));
            && (k < 0 <==> r == Failure(NotFound))
            && (k >= 0 && EmailClash(rows, rows[k], updates.email) ==> r == Failure(EmailTaken))
            && (k >= 0 && !EmailClash(rows, rows[k], updates.email) && UsernameClash(rows, rows[k], updates.username) ==>
                  r == Failure(UsernameTaken))
            && (r.Success? <==> k >= 0 && !EmailClash(rows, rows[k], updates.email)
                                       && !UsernameClash(rows, rows[k], updates.username))
            && (r.Success? ==> r.value == rows[k := Apply(rows[k], updates, hash, now)])
    ensures r.Failure? ==> r.error in {NotFound, EmailTaken, UsernameTaken}
  {
    var k := Tables.FindFirst(rows, WithId(id));
    if k < 0 then Failure(NotFound)
    else
      var row := rows[k];
      if EmailClash(rows, row, updates.email) then Failure(EmailTaken)
      else if UsernameClash(rows, row, updates.username) then Failure(UsernameTaken)
      else Success(rows[k := Apply(row, updates, hash, now)])
  }

  /** The checked update keeps e-mail addresses and usernames unique, and
      changes no row but the one with that id. */
  lemma UpdateCheckedPreservesUnique(rows: seq<UserRow>, id: int, updates: Updates, hash: string -> string, now: int)
    requires UniqueRows(rows)
    ensures var r := UpdateChecked(rows, id, updates, hash, now);
            r.Success? ==> UniqueRows(r.value)
                           && forall i :: 0 <= i < |rows| && rows[i].id != id ==> r.value[i] == rows[i]
  {
    var r := UpdateChecked(rows, id, updates, hash, now);
    if r.Success? {
      var k := Tables.FindFirst(rows, WithId(id));
      var s := r.value;
      var n := s[k];
      assert s == rows[k := n];
      forall i, j | 0 <= i < j < |s|
        ensures s[i].email != s[j].email && s[i].username != s[j].username
      {
        if i == k {
          assert s[j] == rows[j];
          if updates.email.Some? && updates.email.value != rows[k].email {
            assert !HasEmail(rows, updates.email.value);
            assert rows[j].email != updates.email.value;
          }
          if updates.username.Some? && updates.username.value != rows[k].username {
            assert !HasUsername(rows, updates.username.value);
            assert rows[j].username != updates.username.value;
          }
        } else if j == k {
          assert s[i] == rows[i];
          if updates.email.Some? && updates.email.value != rows[k].email {
            assert !HasEmail(rows, updates.email.value);
            assert rows[i].email != updates.email.value;
          }
          if updates.username.Some? && updates.username.value != rows[k].username {
            assert !HasUsername(rows, updates.username.value);
            assert rows[i].username != updates.username.value;
          }
        }
      }
    }
  }

  function UserId(r: UserRow): int
  {
    r.id
  }

  /** Deleting a user keeps e-mail addresses and usernames unique. */
  lemma RemoveAtUnique(rows: seq<UserRow>, k: nat)
    requires k < |rows| && UniqueRows(rows)
    ensures UniqueRows(Tables.RemoveAt(rows, k))
  {
    var r := Tables.RemoveAt(rows, k);
    forall i, j | 0 <= i < j < |r|
      ensures r[i].email != r[j].email && r[i].username != r[j].username
    {
      var i' := if i < k then i else i + 1;
      var j' := if j < k then j else j + 1;
      assert r[i] == rows[i'] && r[j] == rows[j'];
    }
  }

  /** The users table. Ids come from `nextId` (auto-increment); times are
      passed in as `now`. All its methods keep e-mail addresses and
      usernames unique. */
  class UserStore {
    var rows: seq<UserRow>
    var nextId: int

    ghost predicate Valid()
      reads this
    {
      && Tables.AutoIds(rows, UserId, nextId)
      && UniqueRows(rows)
    }

    constructor ()
      ensures Valid() && rows == [] && nextId == 1
    {
      rows, nextId := [], 1;
    }

    /** `createUser`: the e-mail is checked first, then the username; on
        success exactly one row is added, holding the hash of the
        password, and the user is returned without it. */
    method CreateUser(username: string, email: string, password: string, hash: string -> string, now: int)
      returns (r: Result<User, string>)
      requires Valid()
      modifies this
      ensures Valid()
      ensures HasEmail(old(rows), email) ==> r == Failure(EmailExists)
      ensures !HasEmail(old(rows), email) && HasUsername(old(rows), username) ==> r == Failure(UsernameTaken)
      ensures r.Failure? ==> rows == old(rows) && nextId == old(nextId)
      ensures r.Success? <==> !HasEmail(old(rows), email) && !HasUsername(old(rows), username)
      ensures r.Success? ==>
                var row := UserRow(old(nextId), username, email, hash(password), now, now);
                && rows == old(rows) + [row]
                && nextId == old(nextId) + 1
                && r.value == View(row)
    {
      var e := Tables.FindFirst(rows, (u: UserRow) => u.email == email);
      if e >= 0 {
        return Failure(EmailExists);
      }
      var n := Tables.FindFirst(rows, (u: UserRow) => u.username == username);
      if n >= 0 {
        return Failure(UsernameTaken);
      }
      var row := UserRow(nextId, username, email, hash(password), now, now);
      Tables.AppendAutoIds(rows, row, UserId, nextId);
      rows := rows + [row];
      nextId := nextId + 1;
      r := Success(View(row));
    }

    /** `login`: an unknown e-mail and a wrong password fail alike; on
        success the token is signed over the matched user's claim. */
    function Login(email: string, password: string, compare: (string, string) -> bool, sign: Claim -> string)
      : (r: Result<LoginResponse, string>)
      reads this
      ensures r.Failure? ==> r.error == InvalidCredentials
      ensures r.Success? <==> exists i :: 0 <= i < |rows| && rows[i].email == email && compare(password, rows[i].password)
                                          && (forall j :: 0 <= j < i ==> rows[j].email != email)
      ensures r.Success? ==> exists i :: 0 <= i < |rows| && rows[i].email == email
                                         && r.value.user == Claim(rows[i].id, rows[i].username, rows[i].email)
                                         && r.value.token == sign(r.value.user)
    {
      var k := Tables.FindFirst(rows, (u: UserRow) => u.email == email);
      if k < 0 then Failure(InvalidCredentials)
      else
        var user := rows[k];
        if !compare(password, user.password) then Failure(InvalidCredentials)
        else
          var claim := Claim(user.id, user.username, user.email);
          Success(LoginResponse(sign(claim), claim))
    }

    /** `getUserById`: the user without the password, or None (`null`). */
    function GetUserById(id: int): (u: Option<User>)
      reads this
      ensures u.Some? <==> exists i :: 0 <= i < |rows| && rows[i].id == id
      ensures u.Some? ==> exists i :: 0 <= i < |rows| && rows[i].id == id && u.value == View(rows[i])
    {
      var k := Tables.FindFirst(rows, (u: UserRow) => u.id == id);
      if k < 0 then None else Some(View(rows[k]))
    }

    /** `getAllUsers`: every user, newest first, without passwords. */
    function GetAllUsers(): (users: seq<User>)
      reads this
      ensures |users| == |rows|
      ensures forall i :: 0 <= i < |users| ==> users[i] == View(NewestFirst(rows)[i])
      ensures forall i, j :: 0 <= i < j < |users| ==> users[i].createdAt >= users[j].createdAt
    {
      var sorted := NewestFirst(rows);
      seq(|sorted|, i requires 0 <= i < |sorted| => View(sorted[i]))
    }

    /** `updateUser`, with every present value checked (see
        UpdateChecked). */
    method UpdateUser(id: int, updates: Updates, hash: string -> string, now: int)
      returns (r: Result<User, string>)
      requires Valid()
      modifies this
      ensures Valid() && nextId == old(nextId)
      ensures var u := UpdateChecked(old(rows), id, updates, hash, now);
              && (u.Failure? ==> r == Failure(u.error) && rows == old(rows))
              && (u.Success? ==> rows == u.value && r.Success?
                                 && exists k :: 0 <= k < |rows| && rows[k].id == id && r.value == View(rows[k]))
    {
      var k := Tables.FindFirst(rows, WithId(id));
      if k < 0 {
        return Failure(NotFound);
      }
      var row := rows[k];
      if updates.email.Some? && updates.email.value != row.email {
        var e := Tables.FindFirst(rows, (u: UserRow) => u.email == updates.email.value);
        if e >= 0 {
          return Failure(EmailTaken);
        }
      }
      if updates.username.Some? && updates.username.value != row.username {
        var n := Tables.FindFirst(rows, (u: UserRow) => u.username == updates.username.value);
        if n >= 0 {
          return Failure(UsernameTaken);
        }
      }
      UpdateCheckedPreservesUnique(rows, id, updates, hash, now);
      var updated := Apply(row, updates, hash, now);
      Tables.UpdateAutoIds(rows, k, updated, UserId, nextId);
      rows := rows[k := updated];
      r := Success(View(updated));
      assert rows[k].id == id;
    }

    /** `deleteUser`: removes exactly the user with that id. */
    method DeleteUser(id: int) returns (r: Result<(), string>)
      requires Valid()
      modifies this
      ensures Valid() && nextId == old(nextId)
      ensures r.Failure? <==> forall i :: 0 <= i < |old(rows)| ==> old(rows)[i].id != id
      ensures r.Failure? ==> r.error == NotFound && rows == old(rows)
      ensures r.Success? ==> exists k :: 0 <= k < |old(rows)| && old(rows)[k].id == id
                                         && rows == Tables.RemoveAt(old(rows), k)
      ensures forall i :: 0 <= i < |rows| ==> rows[i].id != id
    {
      var withId := (u: UserRow) => u.id == id;
      var k := Tables.FindFirst(rows, withId);
      if k < 0 {
        forall i | 0 <= i < |rows| ensures rows[i].id != id {
          assert !withId(rows[i]);
        }
        return Failure(NotFound);
      }
      Tables.RemoveAtAutoIds(rows, k, UserId, nextId);
      RemoveAtUnique(rows, k);
      ghost var before := rows;
      rows := Tables.RemoveAt(rows, k);
      r := Success(());
      assert before[k].id == id;
      forall i | 0 <= i < |rows| ensures rows[i].id != id {
        assert UserId(rows[i]) != UserId(before[k]);
      }
    }
  }

  /** A successful login issues a token that, read back with a `verify`
      that inverts `sign`, authenticates the same user. */
  lemma LoginTokenVerifies(store: UserStore, email: string, password: string,
                           compare: (string, string) -> bool, sign: Claim -> string, verify: string -> Option<Claim>)
    requires forall c :: verify(sign(c)) == Some(c)
    requires store.Login(email, password, compare, sign).Success?
    ensures var resp := store.Login(email, password, compare, sign).value;
            VerifyToken(resp.token, verify) == Success(resp.user)
  {
  }
}
