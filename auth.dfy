/**
 * The credential check and token callbacks of `authOptions` in
 * `api/auth/route.js`: `authorize` looks the e-mail up in the users
 * collection and compares the password with bcrypt; the `jwt` callback
 * copies the signed-in user's id into the token and the `session` callback
 * copies it from the token into the session. The callbacks change their
 * argument objects in place.
 */
module Auth {
  import opened Wrappers
  import opened ObjectIds
  import opened Registration

  /** The submitted sign-in form. */
  datatype Credentials = Credentials(email: string, password: string)

  /** What `authorize` hands to NextAuth: the user's id, name and e-mail, no password. */
  datatype AuthUser = AuthUser(id: string, name: Option<string>, email: Option<string>)

  /** `Refused` is an `Error` thrown by `authorize`, with its message. */
  datatype AuthResult = Authorized(user: AuthUser) | Refused(message: string)

  const UserNotFound: string := "User not found"
  const InvalidPassword: string := "Invalid password"

  /** The user as handed to NextAuth: the `_id` string (which reads back as the `_id`), name and e-mail. */
  function Profile(u: UserDoc): (r: AuthUser)
    ensures |r.id| == 24 && HexValue(r.id) == u.oid
    ensures r.name == u.name && r.email == u.email
  {
    AuthUser(ToString(u.oid), u.name, u.email)
  }

  /** `users[i]` is the user `findOne({ email })` returns. */
  predicate IsFirstWithEmail(users: seq<UserDoc>, email: string, i: int)
  {
    && 0 <= i < |users| && users[i].email == Some(email)
    && forall j :: 0 <= j < i ==> users[j].email != Some(email)
  }

  /** `findOne({ email })` returns exactly the first user with that e-mail. */
  lemma FindByEmailIsFirst(users: seq<UserDoc>, email: string)
    ensures forall i :: IsFirstWithEmail(users, email, i) <==> FindByEmail(users, Some(email)) == Some(i)
  {
    forall i | IsFirstWithEmail(users, email, i) ensures FindByEmail(users, Some(email)) == Some(i) {
      var r := FindByEmail(users, Some(email));
      assert r.Some? by { assert users[i] in users; }
    }
  }

  /** `authorize(credentials)`. */
  function Authorize(users: seq<UserDoc>, creds: Credentials, bcrypt: Bcrypt): (r: AuthResult)
    ensures r.Refused? ==> r.message == UserNotFound || r.message == InvalidPassword
    ensures r == Refused(UserNotFound) <==> forall u :: u in users ==> u.email != Some(creds.email)
    ensures forall i :: IsFirstWithEmail(users, creds.email, i) ==>
      && (r == Refused(InvalidPassword) <==> !bcrypt.compare(creds.password, users[i].password))
      && (r.Authorized? <==> bcrypt.compare(creds.password, users[i].password))
      && (r.Authorized? ==> r.user == Profile(users[i]))
  {
    FindByEmailIsFirst(users, creds.email);
    match FindByEmail(users, Some(creds.email))
    case None => Refused(UserNotFound)
    case Some(i) =>
      if bcrypt.compare(creds.password, users[i].password) then Authorized(Profile(users[i]))
      else Refused(InvalidPassword)
  }

  /** With unique e-mails, any user holding the submitted e-mail is the one checked. */
  lemma AuthorizeWithUniqueEmails(users: seq<UserDoc>, creds: Credentials, bcrypt: Bcrypt, i: nat)
    requires EmailsUnique(users) && i < |users| && users[i].email == Some(creds.email)
    ensures Authorize(users, creds, bcrypt) ==
      if bcrypt.compare(creds.password, users[i].password) then Authorized(Profile(users[i]))
      else Refused(InvalidPassword)
  {
  }

  /**
   * Registering an unused e-mail with a password and then signing in with the
   * same pair succeeds and yields the new user, provided bcrypt accepts a
   * password against its own hash.
   */
  lemma RegisterThenAuthorize(users: seq<UserDoc>, p: Payload, bcrypt: Bcrypt, oid: ObjectId, now: int, email: string, password: string)
    requires Sound(bcrypt)
    requires p.email == Some(email) && p.password == Some(password)
    requires FindByEmail(users, p.email).None?
    ensures Authorize(users + [NewUser(p, bcrypt, oid, now)], Credentials(email, password), bcrypt)
      == Authorized(AuthUser(ToString(oid), p.name, Some(email)))
  {
  }

  /** NextAuth's JWT payload; only the `id` claim is written by this code. */
  class Token {
    var id: Option<string>

    constructor (id: Option<string>)
      ensures this.id == id
    {
      this.id := id;
    }
  }

  /** `session.user` as the session callback sees it. */
  class SessionUser {
    var id: Option<string>
    var name: Option<string>
    var email: Option<string>

    constructor (name: Option<string>, email: Option<string>)
      ensures this.id == None && this.name == name && this.email == email
    {
      this.id := None;
      this.name := name;
      this.email := email;
    }
  }

  class ServerSession {
    var user: SessionUser

    constructor (user: SessionUser)
      ensures this.user == user
    {
      this.user := user;
    }
  }

  /** `callbacks.jwt`: `user` is present only on the request that signs in. */
  method Jwt(token: Token, user: Option<AuthUser>) returns (r: Token)
    modifies token`id
    ensures r == token
    ensures user.Some? ==> token.id == Some(user.value.id)
    ensures user.None? ==> token.id == old(token.id)
  {
    if user.Some? {
      token.id := Some(user.value.id);
    }
    return token;
  }

  /** `callbacks.session`: only `session.user.id` changes. */
  method SessionCallback(session: ServerSession, token: Token) returns (r: ServerSession)
    modifies session.user`id
    ensures r == session && session.user == old(session.user)
    ensures session.user.id == token.id
  {
    session.user.id := token.id;
    return session;
  }

  /**
   * A sign-in followed by a later request: `authorize`, the `jwt` callback
   * with the user, the `jwt` callback again without one, then the `session`
   * callback. The session ends up carrying the id of the user `findOne`
   * returned, as the string of its `_id`.
   */
  method SignIn(users: seq<UserDoc>, creds: Credentials, bcrypt: Bcrypt, token: Token, session: ServerSession)
    returns (outcome: AuthResult)
    modifies token`id, session.user`id
    ensures outcome == Authorize(users, creds, bcrypt)
    ensures outcome.Authorized? ==>
      exists i :: IsFirstWithEmail(users, creds.email, i) && session.user.id == Some(ToString(users[i].oid))
  {
    outcome := Authorize(users, creds, bcrypt);
    if outcome.Authorized? {
      var _ := Jwt(token, Some(outcome.user));
      var _ := Jwt(token, None);
      var _ := SessionCallback(session, token);
      var i := FindByEmail(users, Some(creds.email)).value;
      assert IsFirstWithEmail(users, creds.email, i);
    }
  }
}
