# Note-maker request handlers, modelled in Dafny

This project models the server side of a small notes manager built on Next.js
route handlers and MongoDB. Four components are modelled, one module each:

- `PublicNotes` (`public_notes.dfy`): the public notes API of `api/route.js`.
  One catch-all handler joins the path segments into a route (`/` +
  `path.join('/')`). It then dispatches on (route, method): `GET /` answers
  that the API is running, `GET /notes` lists every note newest first,
  `POST /notes` creates a note, `PUT /notes/<id>` edits its title and
  content, `DELETE /notes/<id>` deletes it, and anything else is a 404.
  There is no session and no owner field. The notes collection is the
  `notes` field of a `NotesApi` object, and `Handle` changes it in place.
- `OwnerNotes` (`owner_notes.dfy`): the session-gated API of
  `api/notes/route.js`. `Get` lists the notes whose `userId` is the session
  user's id. `Post` inserts a note owned by that user. Both answer 401 when
  there is no session. The two APIs share the collection's name in the source
  but are different programs, so they are kept apart.
- `Registration` (`registration.dfy`): `api/register/routes.js`. It looks the
  e-mail up, refuses a duplicate with 400, and otherwise inserts the user
  with the bcrypt hash of the password.
- `Auth` (`auth.dfy`): `authOptions` in `api/auth/route.js`. `Authorize` is
  the credential check. `Jwt` and `SessionCallback` are the callbacks that
  copy the user id into the token and from the token into the session, in
  place.

Three support modules:

- `Wrappers` (`table.dfy`): the `Option` type, whose `None` stands for
  JavaScript `undefined` throughout the model.
- `Table` (`table.dfy`): the MongoDB primitives over a collection held as a
  sequence in natural order. `FirstMatch` is the document that `findOne`,
  `updateOne` and `deleteOne` act on. `RemoveAt` is `deleteOne`'s effect.
  `Filter` is `find(...).toArray()`.
- `ObjectIds` (`object_id.dfy`): `_id` as a 12-byte number and its
  `toString()` as 24 lowercase hex digits. `HexValue` reads the digits back.

The handlers take their outside inputs as parameters:

- `uuidv4()` is `newId`.
- `new Date()` is `now`: an ISO string in the public API, milliseconds elsewhere.
- The `_id` the store assigns is `oid`.
- The session `getServerSession` returns is an `Option<Session>`.
- bcrypt is a `Bcrypt` value holding two functions, `hash` and `compare`.

The handlers require `newId` and `oid` to be fresh, which uuid and MongoDB
provide. The only fact assumed of bcrypt is `Sound`:
`compare(p, hash(p))` for every `p`. It is a hypothesis of the one lemma
that needs it, `RegisterThenAuthorize`.

JavaScript `undefined` is `None`. The MongoDB driver sends an `undefined`
filter value as `null`, and `null` matches documents where the field is
missing. So a filter on an absent e-mail or user id matches the documents
stored without one, and an absent note id (`path[1]` of a one-segment path)
matches no note, since every note has an id. JavaScript truthiness of
`body.title` / `body.content` is `Truthy`: present and not `""`. A
whitespace-only string passes.

Details of the code the model keeps:

- The owner-scoped API has only GET and POST. Its POST does not validate the
  body, and its GET does not sort.
- Registration answers 400 with a message when the e-mail is taken.
- The 500 body of `api/route.js` carries the exception's message.

## Model

| member | source | states |
|---|---|---|
| `Table.FirstMatch` | full/app/app/api/route.js:96-97 | the result is the position of the first document the filter accepts, and it is `None` exactly when no document is accepted |
| `Table.RemoveAt` | full/app/app/api/route.js:123 | deleting position `i` keeps the documents before it and shifts the ones after it down by one; the multiset loses exactly the deleted document |
| `Table.Filter` | full/app/app/api/notes/route.js:24-27 | every document the filter accepts occurs in the result as often as in the collection, and no other document occurs |
| `Table.FirstMatchUnaffected` | full/app/app/api/route.js:96-113 | changing a document in a way the filter cannot see leaves the first match where it was, so the `findOne` after `updateOne` returns the document just updated |
| `ObjectIds.Hex` | full/app/app/api/auth/route.js:48 | the hex spelling has exactly the requested number of characters, all of them lowercase hex digits |
| `ObjectIds.HexRoundTrip` | full/app/app/api/auth/route.js:48 | reading back the hex digits of a number that fits in `k` digits gives the number |
| `ObjectIds.ToString` | full/app/app/api/auth/route.js:48 | `_id.toString()` has 24 characters that read back as the ObjectId |
| `ObjectIds.ToStringInjective` | full/app/app/api/auth/route.js:48 | two users with different `_id`s never get the same id string in their session |
| `PublicNotes.Join` | full/app/app/api/route.js:35 | `path.join('/')` begins with the first segment |
| `PublicNotes.RouteOf` | full/app/app/api/route.js:35 | definition, no contract: `"/" + path.join('/')`; `RootRoute`, `NotesRoute` and `NoteItemRoute` state which paths give which route |
| `PublicNotes.NoteIdOf` | full/app/app/api/route.js:86 | definition, no contract: `path[1]`, `undefined` for shorter paths; `NoteItemRoute` states that on a `/notes/` route it is the second segment |
| `PublicNotes.Truthy` | full/app/app/api/route.js:63 | definition, no contract: false exactly for `undefined` and `""`; whitespace passes |
| `PublicNotes.HasTitleAndContent` | full/app/app/api/route.js:89 | definition, no contract: the body passes the check `!body.title \|\| !body.content` exactly when both fields are truthy |
| `PublicNotes.StripAll` | full/app/app/api/route.js:54 | definition, no contract: each stored note with `_id` removed, in the same position |
| `PublicNotes.Edited` | full/app/app/api/route.js:99-102 | the `$set` keeps `_id`, `id` and `createdAt` and takes the title and content from the body |
| `PublicNotes.JoinSlashAfterFirst` | full/app/app/api/route.js:35 | joining two or more segments puts the first segment and then a slash at the start of the route |
| `PublicNotes.RootRoute` | full/app/app/api/route.js:35-42 | the route is `/` exactly for the empty path or one empty segment |
| `PublicNotes.NotesRoute` | full/app/app/api/route.js:35-60 | the route is `/notes` exactly for the path `["notes"]` |
| `PublicNotes.NoteItemRoute` | full/app/app/api/route.js:85-121 | with slash-free segments, the route starts with `/notes/` exactly when the first segment is `notes` and a second follows; the note id is the second segment and further segments are ignored |
| `PublicNotes.LexTotal` | full/app/app/api/route.js:50 | any two `createdAt` strings are comparable in the store's string order |
| `PublicNotes.LexTransitive` | full/app/app/api/route.js:50 | the store's string order is transitive |
| `PublicNotes.InsertNewestFirstCorrect` | full/app/app/api/route.js:48-51 | inserting a note into a newest-first list gives a newest-first list with exactly that note added |
| `PublicNotes.PrependNewest` | full/app/app/api/route.js:50 | a note nothing in a newest-first list is newer than can go in front of it |
| `PublicNotes.SortNewestFirst` | full/app/app/api/route.js:48-51 | the listing order is a permutation of the notes that puts every note before all older ones |
| `PublicNotes.DeletedIdIsGone` | full/app/app/api/route.js:120-130 | with unique ids, after deleting the note an id matched, looking that id up again matches nothing |
| `PublicNotes.NotesApi.Handle` | full/app/app/api/route.js:33-151 | `GET /` answers "Notes API is running"; `GET /notes` answers 200 with a newest-first permutation of all notes without `_id`; POST and PUT with an unreadable body answer 500 and change nothing; POST and PUT with a missing or empty title or content answer 400 and change nothing, PUT even for an unknown id; a valid POST appends exactly the new note and answers 201 with it; PUT and DELETE with no matching note answer 404 and change nothing; a valid PUT on a match changes only the title and content of the first match and answers 200 with that note; DELETE on a match removes exactly the first match and answers 200 with the message and the id; every other route and method answers 404 `Route <route> not found` and changes nothing; unique ids stay unique |
| `PublicNotes.DeleteTwice` | full/app/app/api/route.js:120-136 | deleting an existing note twice: the first request answers 200 and the second 404 "Note not found" |
| `OwnerNotes.OwnedBy` | full/app/app/api/notes/route.js:24-27 | the owner filter keeps every note whose `userId` is the given id, as often as stored, and no other note |
| `OwnerNotes.CreatedNoteVisibleOnlyToOwner` | full/app/app/api/notes/route.js:24-48 | a note created for user A is in A's listing and never in the listing of a different user B |
| `OwnerNotes.OwnerNotesApi.Get` | full/app/app/api/notes/route.js:17-30 | no session gives 401 "Unauthorized" whatever the table holds; with a session the answer is 200 with exactly the stored notes whose `userId` is the session's, each as often as stored, in no promised order |
| `OwnerNotes.OwnerNotesApi.Post` | full/app/app/api/notes/route.js:33-51 | no session gives 401 and no change; with a session exactly one note is appended with the fresh id, the body's title and content as given (possibly absent), the session's user id and the time, and the answer is "Note created"; unique ids stay unique |
| `OwnerNotes.CreateThenList` | full/app/app/api/notes/route.js:17-51 | after user A posts a note, A's GET contains it and B's GET does not |
| `Registration.FindByEmail` | full/app/app/api/register/routes.js:19 | the lookup finds the first user with the e-mail, and finds nothing exactly when no user has it |
| `Registration.NewUser` | full/app/app/api/register/routes.js:28-35 | the inserted user stores `hash(password)` as its password, with the body's name and e-mail, the assigned `_id` and the time |
| `Registration.RegisteredEmailIsTaken` | full/app/app/api/register/routes.js:19-25 | once a user is inserted, the lookup of its e-mail finds a user, so a later registration with that e-mail is refused |
| `Registration.InsertKeepsEmailsUnique` | full/app/app/api/register/routes.js:19-35 | inserting a user only after the lookup of its e-mail failed keeps e-mails unique |
| `Registration.UsersCollection.Register` | full/app/app/api/register/routes.js:14-38 | an e-mail already present gives 400 "User already exists" and no change; otherwise a missing password makes the hashing throw (500, no change), and a present one appends exactly one user whose stored password is `hash(password)` and answers success; unique e-mails stay unique |
| `Registration.RegisterTwice` | full/app/app/api/register/routes.js:14-38 | after a registration that did not fail with 500, a second one with the same e-mail answers 400 whatever its password |
| `Auth.Profile` | full/app/app/api/auth/route.js:47-51 | the returned user carries a 24-digit id string that reads back as the `_id`, and the stored name and e-mail |
| `Auth.FindByEmailIsFirst` | full/app/app/api/auth/route.js:30-32 | the lookup by the submitted e-mail returns exactly the first user holding it |
| `Auth.Authorize` | full/app/app/api/auth/route.js:27-52 | "User not found" exactly when no user has the e-mail; for the first user with the e-mail, "Invalid password" exactly when `compare` rejects the password, and success exactly when it accepts, returning that user's id string, name and e-mail, never the hash |
| `Auth.AuthorizeWithUniqueEmails` | full/app/app/api/auth/route.js:30-51 | when e-mails are unique, the password of any user holding the submitted e-mail decides the outcome |
| `Auth.RegisterThenAuthorize` | full/app/app/api/auth/route.js:30-51 | if bcrypt accepts a password against its own hash, registering an unused e-mail with a password and then signing in with the same pair returns the new user |
| `Auth.Jwt` | full/app/app/api/auth/route.js:57-62 | with a user, `token.id` becomes the user's id; without one the token is unchanged; the same token object is returned and no other field changes |
| `Auth.SessionCallback` | full/app/app/api/auth/route.js:64-67 | `session.user.id` becomes `token.id`, nothing else changes, and the same session object is returned |
| `Auth.SignIn` | full/app/app/api/auth/route.js:27-67 | after a successful sign-in and a later request, the session carries the id string of the user the lookup found |

## Left out

- Connection handling (`connectToMongo`, `getDB`, the lazily set `client`/`db`) is I/O plumbing. Each collection is a field of the object that holds it, and no store failure is modelled.
- CORS (`handleCORS`, `OPTIONS`) only sets response headers.
- Concurrent requests are not modelled. Requests to one object run one after another.
- `PublicNotes.NotesApi.Handle`: the 500 body's `details` (the exception's message) is not modelled. Besides an unreadable body, no other exception source is modelled.
- `PublicNotes.NotesApi.Handle`: body fields are optional strings. JSON numbers, booleans, objects or `null` in `title`/`content`, and a body that is not an object, are not modelled.
- `PublicNotes.NotesApi.Handle`: the listing is specified as some newest-first permutation. MongoDB's order among notes with equal `createdAt` is not modelled. The projection removing `_id` is applied before ordering, which gives the same set of valid answers because it keeps `createdAt`.
- `OwnerNotes.OwnerNotesApi.Post` and `Registration.UsersCollection.Register`: a body that fails to parse, or parses to something that is not an object (such as `null`, which makes the destructuring throw), is not modelled. These handlers catch nothing, so it is the framework's error response.
- `Registration.UsersCollection.Register`: only string or absent body fields are modelled. A non-string password, which makes `bcrypt.hash` reject (500), is not captured. Neither is an object e-mail such as `{"$ne": null}`, which `findOne` reads as a query operator matching any user with an e-mail (400).
- `OwnerNotes.OwnerNotesApi.Post`: only string or absent `title`/`content` are modelled. The source stores any other JSON value as given, and the model does not capture that.
- `Auth.Authorize`: the credentials are taken as two strings. A sign-in form missing a field is not modelled.
- Registration.UsersCollection.Register: that the stored hash differs from the plaintext password is not stated. `hash` is opaque, so the contract says only that the stored value is `hash(password)`.
- bcrypt's salt, cost factor and 72-byte truncation are not modelled: `hash` and `compare` are opaque functions.
- The NextAuth machinery around the callbacks (JWT signing, cookies, `getServerSession`) is outside the model. `OwnerNotes.Session` is what `getServerSession` yields.
- The notes API imports `authOptions` through a different path than `api/auth/route.js`. The model takes it to be that file's `authOptions`.
- The React pages (`page.js`, `layout.js`) are not part of this model.
