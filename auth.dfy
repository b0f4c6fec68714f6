/** The identity service: a user table with registration, a login route that issues
    token claims, and a verify route that maps the outcome of decoding a token to a
    status. Signing and decoding are PyJWT's; the model receives the decoder's verdict
    as a parameter. */
module Auth {
  import opened Wrappers

  /** A row of the user table. The integer primary key is never read by a route and is not modelled. */
  datatype User = User(username: string, password: string)

  /** The payload a successful login signs: the username and the expiry instant. */
  datatype Claims = Claims(user: string, exp: int)

  /** Seconds a token stays valid after it is issued. */
  const TokenLifetime: int := 3600

  const InvalidCredentials: string := "invalid credentials"
  const UserExists: string := "user exists"
  /** The `status` text of a successful registration. */
  const RegisteredOk: string := "ok"
  /** Flask's answer, outside debug mode, when a route raises (a missing JSON key, a NOT NULL violation). */
  const InternalError: string := "Internal Server Error"

  /** Outcome of the login route. */
  datatype LoginReply = Issued(claims: Claims) | Rejected(status: int, error: string)

  /** Status and message of the register and verify routes. */
  datatype Reply = Reply(status: int, message: string)

  /** The `unique=True` constraint on the username column. */
  ghost predicate UniqueNames(users: seq<User>)
  {
    forall i, j :: 0 <= i < j < |users| ==> users[i].username != users[j].username
  }

  /** `User.query.filter_by(username=name).first()`: the first row with that username. */
  function FindUser(users: seq<User>, name: string): (r: Option<User>)
    ensures r.Some? ==> r.value in users && r.value.username == name
    ensures r.None? <==> forall i :: 0 <= i < |users| ==> users[i].username != name
    decreases |users|
  {
    if users == [] then None
    else if users[0].username == name then Some(users[0])
    else FindUser(users[1..], name)
  }

  /** Under the uniqueness constraint the row found is the only row with that name. */
  lemma {:induction false} FindUserUnique(users: seq<User>, name: string, i: int)
    requires UniqueNames(users)
    requires 0 <= i < |users| && users[i].username == name
    ensures FindUser(users, name) == Some(users[i])
    decreases |users|
  {
    if i > 0 {
      assert users[0].username != name;
      assert forall a, b :: 0 <= a < b < |users[1..]| ==> users[1..][a] == users[a + 1] && users[1..][b] == users[b + 1];
      FindUserUnique(users[1..], name, i - 1);
    }
  }

  /** Appending a row with a new username leaves earlier lookups alone and makes the new row findable. */
  lemma {:induction false} FindUserAppend(users: seq<User>, u: User, name: string)
    ensures FindUser(users + [u], name) ==
      if FindUser(users, name).Some? then FindUser(users, name)
      else if u.username == name then Some(u) else None
    decreases |users|
  {
    if users == [] {
      assert users + [u] == [u];
    } else {
      assert (users + [u])[0] == users[0] && (users + [u])[1..] == users[1..] + [u];
      FindUserAppend(users[1..], u, name);
    }
  }

  /** The user table of the identity service, updated in place by registration. */
  class UserStore {
    var users: seq<User>

    ghost predicate Valid()
      reads this
    {
      UniqueNames(users)
    }

    constructor ()
      ensures Valid() && users == []
    {
      users := [];
    }

    /** `POST /api/register`. A taken username gives 400 "user exists" and changes
        nothing; otherwise the new row is added and committed, with status "ok". A missing
        key, a JSON null (the columns are NOT NULL) or a failed commit gives 500 and leaves
        the table as it was. */
    method Register(username: Field<string>, password: Field<string>, commitOk: bool) returns (reply: Reply)
      requires Valid()
      modifies this
      ensures Valid()
      ensures reply.status == 400 <==> username.Given? && FindUser(old(users), username.value).Some?
      ensures reply.status == 200 <==>
        username.Given? && FindUser(old(users), username.value).None? && password.Given? && commitOk
      ensures reply.status == 200 ==>
        reply.message == RegisteredOk && users == old(users) + [User(username.value, password.value)]
      ensures reply.status == 400 ==> reply.message == UserExists
      ensures reply.status == 500 ==> reply.message == InternalError
      ensures reply.status != 200 ==> users == old(users)
      ensures reply.status == 200 || reply.status == 400 || reply.status == 500
    {
      if username.Absent? {
        return Reply(500, InternalError);     // data["username"] raises KeyError
      }
      if username.Given? && FindUser(users, username.value).Some? {
        return Reply(400, UserExists);
      }
      if password.Absent? {
        return Reply(500, InternalError);     // data["password"] raises KeyError
      }
      if username.Null? || password.Null? || !commitOk {
        return Reply(500, InternalError);     // the commit raises; nothing is stored
      }
      var row := User(username.value, password.value);
      users := users + [row];
      return Reply(200, RegisteredOk);
    }
  }

  /** `POST /api/login` over the current table, at the integer instant `now`. A matching
      row issues claims for that username expiring `TokenLifetime` seconds later; an
      unknown user and a wrong password give the same 401. The password key is only read
      when the username was found, so a missing password is a 500 only for known users. */
  function Login(users: seq<User>, username: Field<string>, password: Field<string>, now: int): (r: LoginReply)
    ensures r.Issued? <==>
      username.Given? && password.Given? && FindUser(users, username.value) == Some(User(username.value, password.value))
    ensures r.Issued? ==> r.claims == Claims(username.value, now + TokenLifetime)
    ensures r.Rejected? ==> r == Rejected(401, InvalidCredentials) || r == Rejected(500, InternalError)
    ensures r == Rejected(500, InternalError) <==>
      username.Absent? || (password.Absent? && username.Given? && FindUser(users, username.value).Some?)
  {
    if username.Absent? then Rejected(500, InternalError)
    else
      var found := if username.Given? then FindUser(users, username.value) else None;
      if found.None? then Rejected(401, InvalidCredentials)
      else if password.Absent? then Rejected(500, InternalError)
      else if password.Given? && found.value.password == password.value then
        Issued(Claims(found.value.username, now + TokenLifetime))
      else Rejected(401, InvalidCredentials)
  }

  /** `POST /api/verify`: 200 "valid" when the token is present and decodes (signature
      and expiry accepted), 401 "invalid" on every failure, a missing token included. */
  function Verify(token: Field<string>, decodes: string -> bool): (r: Reply)
    ensures r.status == 200 <==> token.Given? && decodes(token.value)
    ensures r == Reply(200, "valid") || r == Reply(401, "invalid")
  {
    if token.Given? && decodes(token.value) then Reply(200, "valid") else Reply(401, "invalid")
  }

  /** With unique usernames, login succeeds exactly when the table holds that
      username with that password. */
  lemma LoginSucceedsIff(users: seq<User>, name: string, pw: string, now: int)
    requires UniqueNames(users)
    ensures Login(users, Given(name), Given(pw), now).Issued? <==> User(name, pw) in users
  {
    if User(name, pw) in users {
      var i :| 0 <= i < |users| && users[i] == User(name, pw);
      FindUserUnique(users, name, i);
    }
  }

  /** An unknown username and a known username with the wrong password are
      indistinguishable to the caller. */
  lemma LoginFailureIsUniform(users: seq<User>, unknown: string, known: User, wrong: string, now: int)
    requires FindUser(users, unknown).None?
    requires FindUser(users, known.username) == Some(known) && wrong != known.password
    ensures Login(users, Given(unknown), Given(wrong), now) == Login(users, Given(known.username), Given(wrong), now)
    ensures Login(users, Given(unknown), Given(wrong), now) == Rejected(401, InvalidCredentials)
  {
  }

  /** Register then log in: a freshly registered user can log in with the password it
      registered with, and the users already present log in exactly as before. */
  lemma {:induction false} RegisterThenLogin(users: seq<User>, name: string, pw: string, other: string, otherPw: Field<string>, now: int)
    requires FindUser(users, name).None?
    ensures Login(users + [User(name, pw)], Given(name), Given(pw), now) == Issued(Claims(name, now + TokenLifetime))
    ensures other != name ==>
      Login(users + [User(name, pw)], Given(other), otherPw, now) == Login(users, Given(other), otherPw, now)
  {
    FindUserAppend(users, User(name, pw), name);
    FindUserAppend(users, User(name, pw), other);
  }
}
