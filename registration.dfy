/**
 * The registration endpoint of `api/register/routes.js`: look the e-mail up
 * in the users collection, refuse a duplicate, otherwise hash the password
 * and insert the user. The users collection is held by a `UsersCollection`
 * object; bcrypt is supplied by the caller.
 */
module Registration {
  import opened Wrappers
  import Table
  import opened ObjectIds

  /** bcrypt's `hash` and `compare`, as two operations the model does not look into. */
  datatype Bcrypt = Bcrypt(hash: string -> string, compare: (string, string) -> bool)

  /** The one fact about bcrypt a login after registration relies on. */
  ghost predicate Sound(b: Bcrypt)
  {
    forall p :: b.compare(p, b.hash(p))
  }

  /** The destructured `{ name, email, password }` of the body; `None` is `undefined`. */
  datatype Payload = Payload(name: Option<string>, email: Option<string>, password: Option<string>)

  /** A stored user; `password` holds the bcrypt hash, `createdAt` a `Date` as milliseconds. */
  datatype UserDoc = UserDoc(oid: ObjectId, name: Option<string>, email: Option<string>, password: string, createdAt: int)

  /** `Unhandled` is the framework's answer to an exception the handler does not catch. */
  datatype Json = Message(message: string) | Error(error: string) | Unhandled

  datatype Response = Response(status: int, body: Json)

  const UserExists: string := "User already exists"
  const Registered: string := "User registered successfully"

  /** The filter `{ email }`; an `undefined` e-mail matches users stored without one. */
  function EmailIs(email: Option<string>): UserDoc -> bool
  {
    (u: UserDoc) => u.email == email
  }

  /** `findOne({ email })`. */
  function FindByEmail(users: seq<UserDoc>, email: Option<string>): (r: Option<nat>)
    ensures r.Some? ==> r.value < |users| && users[r.value].email == email
    ensures r.Some? ==> forall j :: 0 <= j < r.value ==> users[j].email != email
    ensures r.None? <==> forall u :: u in users ==> u.email != email
  {
    Table.FirstMatch(users, EmailIs(email))
  }

  /** The document a successful registration inserts. */
  function NewUser(p: Payload, b: Bcrypt, oid: ObjectId, now: int): (u: UserDoc)
    requires p.password.Some?
    ensures u.password == b.hash(p.password.value)
    ensures u.oid == oid && u.name == p.name && u.email == p.email && u.createdAt == now
  {
    UserDoc(oid, p.name, p.email, b.hash(p.password.value), now)
  }

  predicate EmailsUnique(users: seq<UserDoc>)
  {
    forall i, j :: 0 <= i < j < |users| ==> users[i].email != users[j].email
  }

  /** After a user is inserted, its e-mail is found, so registering it again is refused. */
  lemma RegisteredEmailIsTaken(users: seq<UserDoc>, u: UserDoc)
    ensures FindByEmail(users + [u], u.email).Some?
  {
    assert EmailIs(u.email)((users + [u])[|users|]);
  }

  /** Inserting only after the lookup failed keeps e-mails unique. */
  lemma InsertKeepsEmailsUnique(users: seq<UserDoc>, u: UserDoc)
    requires EmailsUnique(users) && FindByEmail(users, u.email).None?
    ensures EmailsUnique(users + [u])
  {
  }

  class UsersCollection {
    var users: seq<UserDoc>

    constructor (initial: seq<UserDoc>)
      ensures users == initial
    {
      users := initial;
    }

    /**
     * POST /register. `oid` stands for the `_id` the store assigns and `now`
     * for `new Date()`. A missing password makes `bcrypt.hash` throw.
     */
    method Register(body: Payload, bcrypt: Bcrypt, oid: ObjectId, now: int) returns (res: Response)
      requires forall u :: u in users ==> u.oid != oid
      modifies this
      ensures FindByEmail(old(users), body.email).Some? ==>
        users == old(users) && res == Response(400, Error(UserExists))
      ensures FindByEmail(old(users), body.email).None? && body.password.None? ==>
        users == old(users) && res == Response(500, Unhandled)
      ensures FindByEmail(old(users), body.email).None? && body.password.Some? ==>
        && users == old(users) + [NewUser(body, bcrypt, oid, now)]
        && users[|users| - 1].password == bcrypt.hash(body.password.value)
        && res == Response(200, Message(Registered))
      ensures old(EmailsUnique(users)) ==> EmailsUnique(users)
    {
      var existing := FindByEmail(users, body.email);
      if existing.Some? {
        return Response(400, Error(UserExists));
      }
      if body.password.None? {
        return Response(500, Unhandled);
      }
      var hashed := bcrypt.hash(body.password.value);
      var user := UserDoc(oid, body.name, body.email, hashed, now);
      assert EmailsUnique(users) ==> EmailsUnique(users + [user]) by {
        if EmailsUnique(users) {
          InsertKeepsEmailsUnique(users, user);
        }
      }
      users := users + [user];
      return Response(200, Message(Registered));
    }
  }

  /** Registering an e-mail twice: the second request is refused whatever its password. */
  method RegisterTwice(c: UsersCollection, first: Payload, second: Payload, b: Bcrypt, oid1: ObjectId, oid2: ObjectId, now: int)
    returns (r1: Response, r2: Response)
    requires forall u :: u in c.users ==> u.oid != oid1 && u.oid != oid2
    requires oid1 != oid2 && second.email == first.email
    modifies c
    ensures r1.status == 200 || r1.status == 400 || r1.status == 500
    ensures r1.status != 500 ==> r2 == Response(400, Error(UserExists))
  {
    ghost var before := c.users;
    r1 := c.Register(first, b, oid1, now);
    if FindByEmail(before, first.email).None? && first.password.Some? {
      RegisteredEmailIsTaken(before, NewUser(first, b, oid1, now));
    }
    r2 := c.Register(second, b, oid2, now);
  }
}
