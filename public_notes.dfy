/**
 * The public notes API of `api/route.js`: one catch-all handler that builds a
 * route string from the path segments and dispatches on (route, method) to
 * the root message, GET/POST `/notes`, PUT/DELETE `/notes/<id>` or a 404.
 * There is no session and no owner field; the notes collection is held by a
 * `NotesApi` object and changed in place.
 */
module PublicNotes {
  import opened Wrappers
  import Table
  import opened ObjectIds

  /** The methods the module exports the handler under. */
  datatype HttpMethod = Get | Post | Put | Delete | Patch

  /** The two fields of the parsed JSON body the handler reads; `None` is `undefined`. */
  datatype Payload = Payload(title: Option<string>, content: Option<string>)

  /** `body` is `None` when `request.json()` fails. */
  datatype Request = Request(verb: HttpMethod, path: seq<string>, body: Option<Payload>)

  /** A stored document: the note plus the `_id` MongoDB adds on insert. */
  datatype NoteDoc = NoteDoc(oid: ObjectId, id: string, title: string, content: string, createdAt: string)

  /** A note as the API returns it, without `_id`. */
  datatype Note = Note(id: string, title: string, content: string, createdAt: string)

  datatype Json =
    | Message(message: string)
    | Error(error: string)
    | NoteJson(note: Note)
    | NoteList(notes: seq<Note>)
    | Deleted(message: string, id: string)

  datatype Response = Response(status: int, body: Json)

  const RunningMessage: string := "Notes API is running"
  const FieldsRequired: string := "Title and content are required"
  const NoteNotFound: string := "Note not found"
  const DeletedMessage: string := "Note deleted successfully"
  const InternalError: string := "Internal server error"

  function RouteNotFound(route: string): string
  {
    "Route " + route + " not found"
  }

  // ---------------------------------------------------------------- routing

  /** `path.join('/')`: it begins with the first segment. */
  function Join(path: seq<string>): (r: string)
    ensures |path| >= 1 ==> path[0] <= r
  {
    if |path| == 0 then ""
    else if |path| == 1 then path[0]
    else path[0] + "/" + Join(path[1..])
  }

  /** The route the handler dispatches on: `/` followed by the joined path. */
  function RouteOf(path: seq<string>): string
  {
    "/" + Join(path)
  }

  /** `path[1]`, which is `undefined` for shorter paths. */
  function NoteIdOf(path: seq<string>): Option<string>
  {
    if |path| > 1 then Some(path[1]) else None
  }

  /** A path segment as the framework delivers it: never containing a slash. */
  predicate IsSegment(s: string)
  {
    '/' !in s
  }

  predicate AreSegments(path: seq<string>)
  {
    forall i :: 0 <= i < |path| ==> IsSegment(path[i])
  }

  predicate IsRoot(req: Request)   { RouteOf(req.path) == "/" && req.verb == Get }
  predicate IsList(req: Request)   { RouteOf(req.path) == "/notes" && req.verb == Get }
  predicate IsCreate(req: Request) { RouteOf(req.path) == "/notes" && req.verb == Post }
  predicate IsUpdate(req: Request) { "/notes/" <= RouteOf(req.path) && req.verb == Put }
  predicate IsDelete(req: Request) { "/notes/" <= RouteOf(req.path) && req.verb == Delete }

  /** A request none of the five routes accept. */
  predicate IsUnrouted(req: Request)
  {
    !IsRoot(req) && !IsList(req) && !IsCreate(req) && !IsUpdate(req) && !IsDelete(req)
  }

  /** Joining two or more segments puts a slash right after the first one. */
  lemma JoinSlashAfterFirst(path: seq<string>)
    requires |path| >= 2
    ensures |Join(path)| > |path[0]| && Join(path)[..|path[0]|] == path[0] && Join(path)[|path[0]|] == '/'
  {
  }

  /** The root route is the empty path (or a single empty segment). */
  lemma RootRoute(path: seq<string>)
    ensures RouteOf(path) == "/" <==> path == [] || path == [""]
  {
  }

  /** The route is `/notes` exactly for the path `["notes"]`. */
  lemma {:induction false} NotesRoute(path: seq<string>)
    ensures RouteOf(path) == "/notes" <==> path == ["notes"]
  {
    assert RouteOf(path)[1..] == Join(path);
    if |path| >= 2 {
      JoinSlashAfterFirst(path);
      assert '/' in Join(path) && '/' !in "/notes"[1..];
    }
  }

  /**
   * With well-formed segments, the route starts with `/notes/` exactly when
   * the first segment is `notes` and a second one follows; the note id is
   * then that second segment, and any further segments are ignored.
   */
  lemma {:induction false} NoteItemRoute(path: seq<string>)
    requires AreSegments(path)
    ensures "/notes/" <= RouteOf(path) <==> |path| >= 2 && path[0] == "notes"
    ensures "/notes/" <= RouteOf(path) ==> NoteIdOf(path) == Some(path[1])
  {
    var j := Join(path);
    assert RouteOf(path)[1..] == j;
    if "/notes/" <= RouteOf(path) {
      assert j[..6] == RouteOf(path)[1..7] == "notes/";
      assert j[5] == '/';
      assert |path| >= 2;
      JoinSlashAfterFirst(path);
      var k := |path[0]|;
      assert k >= 5 by {
        assert j[k] == '/';
        assert forall i :: 0 <= i < 5 ==> j[i] != '/';
      }
      assert k <= 5 by {
        assert forall i :: 0 <= i < k ==> j[i] == path[0][i] && path[0][i] != '/';
      }
      assert path[0] == j[..5] == "notes";
    }
    if |path| >= 2 && path[0] == "notes" {
      assert RouteOf(path) == "/notes/" + Join(path[1..]);
    }
  }

  // --------------------------------------------------------- ordering

  /** `a <= b` in MongoDB string order (code-point order, which is the UTF-8 byte order). */
  predicate LexLe(a: string, b: string)
  {
    a == [] || (b != [] && (a[0] < b[0] || (a[0] == b[0] && LexLe(a[1..], b[1..]))))
  }

  lemma {:induction false} LexTotal(a: string, b: string)
    ensures LexLe(a, b) || LexLe(b, a)
  {
    if a != [] && b != [] && a[0] == b[0] {
      LexTotal(a[1..], b[1..]);
    }
  }

  lemma {:induction false} LexTransitive(a: string, b: string, c: string)
    requires LexLe(a, b) && LexLe(b, c)
    ensures LexLe(a, c)
  {
    if a != [] && a[0] == b[0] && b[0] == c[0] {
      LexTransitive(a[1..], b[1..], c[1..]);
    }
  }

  /** `sort({ createdAt: -1 })`: every note is at least as new as every later one. */
  predicate NewestFirst(s: seq<Note>)
  {
    forall i, j :: 0 <= i < j < |s| ==> LexLe(s[j].createdAt, s[i].createdAt)
  }

  function InsertNewestFirst(x: Note, s: seq<Note>): seq<Note>
  {
    if s == [] then [x]
    else if LexLe(s[0].createdAt, x.createdAt) then [x] + s
    else [s[0]] + InsertNewestFirst(x, s[1..])
  }

  /** Putting a note in front of a newest-first list that holds nothing newer keeps it newest first. */
  lemma PrependNewest(x: Note, s: seq<Note>)
    requires NewestFirst(s)
    requires forall j :: 0 <= j < |s| ==> LexLe(s[j].createdAt, x.createdAt)
    ensures NewestFirst([x] + s)
  {
    var t := [x] + s;
    forall i, j | 0 <= i < j < |t| ensures LexLe(t[j].createdAt, t[i].createdAt) {
      if i > 0 { assert t[i] == s[i - 1] && t[j] == s[j - 1]; }
    }
  }

  lemma {:induction false} InsertNewestFirstCorrect(x: Note, s: seq<Note>)
    requires NewestFirst(s)
    ensures multiset(InsertNewestFirst(x, s)) == multiset(s) + multiset{x}
    ensures NewestFirst(InsertNewestFirst(x, s))
  {
    if s == [] {
    } else if LexLe(s[0].createdAt, x.createdAt) {
      forall j | 0 <= j < |s| ensures LexLe(s[j].createdAt, x.createdAt) {
        if j > 0 { LexTransitive(s[j].createdAt, s[0].createdAt, x.createdAt); }
      }
      PrependNewest(x, s);
    } else {
      LexTotal(s[0].createdAt, x.createdAt);
      var rest := InsertNewestFirst(x, s[1..]);
      assert s == [s[0]] + s[1..];
      InsertNewestFirstCorrect(x, s[1..]);
      forall j | 0 <= j < |rest| ensures LexLe(rest[j].createdAt, s[0].createdAt) {
        assert rest[j] in multiset(rest);
        assert rest[j] == x || rest[j] in s[1..];
      }
      PrependNewest(s[0], rest);
    }
  }

  /** The listing order: a permutation of its input that puts the newest note first. */
  function SortNewestFirst(s: seq<Note>): (r: seq<Note>)
    ensures multiset(r) == multiset(s)
    ensures NewestFirst(r)
  {
    if s == [] then []
    else
      var rest := SortNewestFirst(s[1..]);
      InsertNewestFirstCorrect(s[0], rest);
      assert multiset(s) == multiset{s[0]} + multiset(s[1..]) by { assert s == [s[0]] + s[1..]; }
      InsertNewestFirst(s[0], rest)
  }

  // --------------------------------------------------------- the collection

  /** The response view of a stored document: everything but `_id`. */
  function Strip(d: NoteDoc): Note
  {
    Note(d.id, d.title, d.content, d.createdAt)
  }

  function StripAll(s: seq<NoteDoc>): seq<Note>
  {
    seq(|s|, i requires 0 <= i < |s| => Strip(s[i]))
  }

  /** The filter `{ id: noteId }`; an `undefined` id matches no note, since every note has one. */
  function IdIs(key: Option<string>): NoteDoc -> bool
  {
    (d: NoteDoc) => key == Some(d.id)
  }

  /** JavaScript truthiness of an optional string: only `undefined` and `""` are falsy. */
  predicate Truthy(v: Option<string>)
  {
    v.Some? && v.value != ""
  }

  /** The body gets past the 400 check `!body.title || !body.content`. */
  predicate HasTitleAndContent(p: Payload)
  {
    Truthy(p.title) && Truthy(p.content)
  }

  /** `$set` of title and content on one document. */
  function Edited(d: NoteDoc, p: Payload): (r: NoteDoc)
    requires HasTitleAndContent(p)
    ensures r.oid == d.oid && r.id == d.id && r.createdAt == d.createdAt
    ensures Some(r.title) == p.title && Some(r.content) == p.content
  {
    d.(title := p.title.value, content := p.content.value)
  }

  /** No two notes share an `id`, and no two share an `_id`. */
  predicate KeysUnique(s: seq<NoteDoc>)
  {
    forall i, j :: 0 <= i < j < |s| ==> s[i].id != s[j].id && s[i].oid != s[j].oid
  }

  /** Once the only note with an id is deleted, looking the id up again finds nothing. */
  lemma DeletedIdIsGone(s: seq<NoteDoc>, key: Option<string>, k: nat)
    requires KeysUnique(s) && Table.FirstMatch(s, IdIs(key)) == Some(k)
    ensures Table.FirstMatch(Table.RemoveAt(s, k), IdIs(key)) == None
  {
  }

  class NotesApi {
    var notes: seq<NoteDoc>

    constructor (initial: seq<NoteDoc>)
      ensures notes == initial
    {
      notes := initial;
    }

    /**
     * One request. `newId` stands for `uuidv4()`, `now` for
     * `new Date().toISOString()` and `oid` for the `_id` the store assigns;
     * all three are only used by a successful POST.
     */
    method Handle(req: Request, newId: string, now: string, oid: ObjectId) returns (res: Response)
      requires forall d :: d in notes ==> d.id != newId && d.oid != oid
      modifies this
      ensures IsRoot(req) ==> notes == old(notes) && res == Response(200, Message(RunningMessage))
      ensures IsList(req) ==>
        && notes == old(notes) && res.status == 200 && res.body.NoteList?
        && multiset(res.body.notes) == multiset(StripAll(old(notes)))
        && NewestFirst(res.body.notes)
      ensures (IsCreate(req) || IsUpdate(req)) && req.body.None? ==>
        notes == old(notes) && res == Response(500, Error(InternalError))
      ensures (IsCreate(req) || IsUpdate(req)) && req.body.Some? && !HasTitleAndContent(req.body.value) ==>
        notes == old(notes) && res == Response(400, Error(FieldsRequired))
      ensures IsCreate(req) && req.body.Some? && HasTitleAndContent(req.body.value) ==>
        var p := req.body.value;
        && notes == old(notes) + [NoteDoc(oid, newId, p.title.value, p.content.value, now)]
        && res == Response(201, NoteJson(Note(newId, p.title.value, p.content.value, now)))
      ensures IsUpdate(req) && req.body.Some? && HasTitleAndContent(req.body.value) ==>
        var p := req.body.value;
        var k := Table.FirstMatch(old(notes), IdIs(NoteIdOf(req.path)));
        if k.None? then
          notes == old(notes) && res == Response(404, Error(NoteNotFound))
        else
          var d := old(notes)[k.value];
          && notes == old(notes)[k.value := Edited(d, p)]
          && res == Response(200, NoteJson(Note(d.id, p.title.value, p.content.value, d.createdAt)))
      ensures IsDelete(req) ==>
        var k := Table.FirstMatch(old(notes), IdIs(NoteIdOf(req.path)));
        if k.None? then
          notes == old(notes) && res == Response(404, Error(NoteNotFound))
        else
          && notes == Table.RemoveAt(old(notes), k.value)
          && res == Response(200, Deleted(DeletedMessage, old(notes)[k.value].id))
      ensures IsUnrouted(req) ==>
        notes == old(notes) && res == Response(404, Error(RouteNotFound(RouteOf(req.path))))
      ensures old(KeysUnique(notes)) ==> KeysUnique(notes)
    {
      var route := RouteOf(req.path);
      var verb := req.verb;

      if route == "/" && verb == Get {
        return Response(200, Message(RunningMessage));
      }

      if route == "/notes" && verb == Get {
        var listed := SortNewestFirst(StripAll(notes));
        return Response(200, NoteList(listed));
      }

      if route == "/notes" && verb == Post {
        if req.body.None? {
          return Response(500, Error(InternalError));
        }
        var body := req.body.value;
        if !Truthy(body.title) || !Truthy(body.content) {
          return Response(400, Error(FieldsRequired));
        }
        var note := NoteDoc(oid, newId, body.title.value, body.content.value, now);
        notes := notes + [note];
        return Response(201, NoteJson(Strip(note)));
      }

      if "/notes/" <= route && verb == Put {
        var noteId := NoteIdOf(req.path);
        if req.body.None? {
          return Response(500, Error(InternalError));
        }
        var body := req.body.value;
        if !Truthy(body.title) || !Truthy(body.content) {
          return Response(400, Error(FieldsRequired));
        }
        var matched := Table.FirstMatch(notes, IdIs(noteId));
        if matched.None? {
          return Response(404, Error(NoteNotFound));
        }
        var k := matched.value;
        Table.FirstMatchUnaffected(notes, k, Edited(notes[k], body), IdIs(noteId));
        notes := notes[k := Edited(notes[k], body)];
        var found := Table.FirstMatch(notes, IdIs(noteId));
        var updated := notes[found.value];
        return Response(200, NoteJson(Strip(updated)));
      }

      if "/notes/" <= route && verb == Delete {
        var noteId := NoteIdOf(req.path);
        var matched := Table.FirstMatch(notes, IdIs(noteId));
        if matched.None? {
          return Response(404, Error(NoteNotFound));
        }
        notes := Table.RemoveAt(notes, matched.value);
        return Response(200, Deleted(DeletedMessage, noteId.value));
      }

      return Response(404, Error(RouteNotFound(route)));
    }
  }

  /** Deleting the same note twice: the first request succeeds, the second finds nothing. */
  method DeleteTwice(api: NotesApi, path: seq<string>, newId: string, now: string, oid: ObjectId)
    returns (first: Response, second: Response)
    requires KeysUnique(api.notes)
    requires forall d :: d in api.notes ==> d.id != newId && d.oid != oid
    requires IsDelete(Request(Delete, path, None))
    requires Table.FirstMatch(api.notes, IdIs(NoteIdOf(path))).Some?
    modifies api
    ensures first.status == 200 && second == Response(404, Error(NoteNotFound))
  {
    ghost var before := api.notes;
    ghost var k := Table.FirstMatch(before, IdIs(NoteIdOf(path))).value;
    first := api.Handle(Request(Delete, path, None), newId, now, oid);
    DeletedIdIsGone(before, NoteIdOf(path), k);
    second := api.Handle(Request(Delete, path, None), newId, now, oid);
  }
}
