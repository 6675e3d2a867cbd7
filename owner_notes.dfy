/**
 * The session-gated notes API of `api/notes/route.js`: GET lists the notes
 * whose `userId` is the session user's id, POST inserts a note owned by the
 * session user. Both answer 401 when there is no session. The notes
 * collection is held by an `OwnerNotesApi` object.
 */
module OwnerNotes {
  import opened Wrappers
  import Table
  import opened ObjectIds

  /**
   * What `getServerSession` yields when the request carries a valid session:
   * the `session.user.id` the session callback copied from the token
   * (`None` when the token never received one).
   */
  datatype Session = Session(userId: Option<string>)

  /** The destructured `{ title, content }` of the body; `None` is `undefined`. */
  datatype Payload = Payload(title: Option<string>, content: Option<string>)

  /**
   * A stored note. `title` and `content` are whatever the body held, absent
   * ones included; `createdAt` is a `Date`, as milliseconds.
   */
  datatype OwnedNote = OwnedNote(
    oid: ObjectId, id: string, title: Option<string>, content: Option<string>,
    userId: Option<string>, createdAt: int)

  datatype Json =
    | Message(message: string)
    | Error(error: string)
    | Notes(notes: seq<OwnedNote>)

  datatype Response = Response(status: int, body: Json)

  const Unauthorized: string := "Unauthorized"
  const NoteCreated: string := "Note created"

  /** The filter `{ userId: uid }`; an `undefined` id matches notes stored without one. */
  function OwnerIs(uid: Option<string>): OwnedNote -> bool
  {
    (n: OwnedNote) => n.userId == uid
  }

  /** `find({ userId: uid }).toArray()`. */
  function OwnedBy(notes: seq<OwnedNote>, uid: Option<string>): (r: seq<OwnedNote>)
    ensures forall n :: multiset(r)[n] == if n.userId == uid then multiset(notes)[n] else 0
  {
    Table.Filter(notes, OwnerIs(uid))
  }

  /** No two notes share an `id`, and no two share an `_id`. */
  predicate KeysUnique(s: seq<OwnedNote>)
  {
    forall i, j :: 0 <= i < j < |s| ==> s[i].id != s[j].id && s[i].oid != s[j].oid
  }

  /** A note created for user `a` is listed for `a` and never for a different user `b`. */
  lemma CreatedNoteVisibleOnlyToOwner(notes: seq<OwnedNote>, n: OwnedNote, a: Option<string>, b: Option<string>)
    requires n.userId == a && a != b
    ensures n in OwnedBy(notes + [n], a)
    ensures n !in OwnedBy(notes + [n], b)
  {
  }

  class OwnerNotesApi {
    var notes: seq<OwnedNote>

    constructor (initial: seq<OwnedNote>)
      ensures notes == initial
    {
      notes := initial;
    }

    /** GET: the caller's notes, each as often as it is stored; no order is promised. */
    method Get(session: Option<Session>) returns (res: Response)
      ensures session.None? ==> res == Response(401, Error(Unauthorized))
      ensures session.Some? ==>
        && res.status == 200 && res.body.Notes?
        && forall n :: multiset(res.body.notes)[n] ==
             if n.userId == session.value.userId then multiset(notes)[n] else 0
    {
      if session.None? {
        return Response(401, Error(Unauthorized));
      }
      var found := OwnedBy(notes, session.value.userId);
      return Response(200, Notes(found));
    }

    /**
     * POST: insert a note for the session user; the body is not validated.
     * `newId` stands for `uuidv4()`, `now` for `new Date()` and `oid` for
     * the `_id` the store assigns.
     */
    method Post(session: Option<Session>, body: Payload, newId: string, now: int, oid: ObjectId)
      returns (res: Response)
      requires forall n :: n in notes ==> n.id != newId && n.oid != oid
      modifies this
      ensures session.None? ==> notes == old(notes) && res == Response(401, Error(Unauthorized))
      ensures session.Some? ==>
        && notes == old(notes) + [OwnedNote(oid, newId, body.title, body.content, session.value.userId, now)]
        && res == Response(200, Message(NoteCreated))
      ensures old(KeysUnique(notes)) ==> KeysUnique(notes)
    {
      if session.None? {
        return Response(401, Error(Unauthorized));
      }
      notes := notes + [OwnedNote(oid, newId, body.title, body.content, session.value.userId, now)];
      return Response(200, Message(NoteCreated));
    }
  }

  /** User `a` creates a note; it shows up in `a`'s listing and not in `b`'s. */
  method CreateThenList(api: OwnerNotesApi, a: Session, b: Session, body: Payload, newId: string, now: int, oid: ObjectId)
    returns (mine: Response, theirs: Response)
    requires forall n :: n in api.notes ==> n.id != newId && n.oid != oid
    requires a.userId != b.userId
    modifies api
    ensures mine.body.Notes? && theirs.body.Notes?
    ensures exists n :: n in mine.body.notes && n.id == newId && n !in theirs.body.notes
  {
    ghost var before := api.notes;
    var _ := api.Post(Some(a), body, newId, now, oid);
    ghost var n := OwnedNote(oid, newId, body.title, body.content, a.userId, now);
    mine := api.Get(Some(a));
    theirs := api.Get(Some(b));
    CreatedNoteVisibleOnlyToOwner(before, n, a.userId, b.userId);
    assert multiset(mine.body.notes)[n] > 0;
  }
}
