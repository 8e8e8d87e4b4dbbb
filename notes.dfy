/**
 * The Note routes (routes/notes.js): the two reference validators, the list
 * filter and order, the owner-scoped read, and the checks and documents of
 * create, update and delete. The store applies these in EntityStore.
 */
module Notes {
  import opened Wrappers
  import opened ObjectIds
  import opened Collections
  import opened Models
  import opened Sorting
  import opened Text
  import opened Http
  import Labels

  /** The `tags` field of a request body. A non-array value records whether it is
      truthy, since PUT calls `tags.filter` on any truthy value. */
  datatype TagsField = Omitted | NotArray(truthy: bool) | Ids(ids: seq<string>)

  /** The body of POST / and PUT /:id. */
  datatype NoteInput = NoteInput(title: Option<string>, content: Option<string>,
                                 folderId: Option<string>, tags: TagsField)

  /** The query string of GET /. */
  datatype NoteQuery = NoteQuery(searchTerm: Option<string>, folderId: Option<string>,
                                 tagId: Option<string>)

  const InvalidId := "The `id` is invalid"
  const InvalidFolderId := "The `folderId` is invalid"
  const TagsNotArray := "The `tags` must be an array"
  const InvalidTagId := "The tags `id` is invalid"
  const UnknownTagId := "The tags array contains an invalid id"
  const MissingTitle := "Missing `title` in request body"

  /** validateFolderId: no folder is always fine; otherwise the id must be well formed
      and name a folder of the caller. Both failures carry the same message, so a
      foreign folder looks exactly like a missing one. */
  function ValidateFolderId(folderId: Option<string>, userId: Id, folders: seq<Label>): (r: Option<Raised>)
    ensures !Labels.Truthy(folderId) ==> r.None?
    ensures r.Some? ==> r.value == BadRequest(InvalidFolderId)
    ensures Labels.Truthy(folderId) ==>
              (r.None? <==> IsValidObjectId(folderId.value)
                            && Has(folders, LabelScope, (folderId.value, userId)))
  {
    if !Labels.Truthy(folderId) then None
    else if !IsValidObjectId(folderId.value) then Some(BadRequest(InvalidFolderId))
    else if Count(folders, LabelScope, (folderId.value, userId)) == 0 then Some(BadRequest(InvalidFolderId))
    else None
  }

  predicate AllValidIds(ids: seq<string>) {
    forall i :: 0 <= i < |ids| ==> IsValidObjectId(ids[i])
  }

  /** The number of documents `Tag.find({ _id: { $in: ids }, userId })` returns. */
  function CountNamed(tags: seq<Label>, ids: seq<Id>, userId: Id): nat {
    if tags == [] then 0
    else (if tags[0].id in ids && tags[0].userId == userId then 1 else 0) + CountNamed(tags[1..], ids, userId)
  }

  /** The ids of those documents. */
  function NamedIds(tags: seq<Label>, ids: seq<Id>, userId: Id): (r: set<Id>)
    ensures forall x :: x in r <==> x in ids && Has(tags, LabelScope, (x, userId))
  {
    if tags == [] then {}
    else
      HasConsAll(tags, userId);
      (if tags[0].id in ids && tags[0].userId == userId then {tags[0].id} else {})
      + NamedIds(tags[1..], ids, userId)
  }

  lemma HasConsAll(tags: seq<Label>, userId: Id)
    requires tags != []
    ensures forall x :: Has(tags, LabelScope, (x, userId))
                        <==> (tags[0].id == x && tags[0].userId == userId) || Has(tags[1..], LabelScope, (x, userId))
  {
    forall x ensures Has(tags, LabelScope, (x, userId))
                     <==> LabelScope(tags[0]) == (x, userId) || Has(tags[1..], LabelScope, (x, userId)) {
      HasCons(tags, LabelScope, (x, userId));
    }
  }

  /** With unique tag ids, the count is the number of distinct named ids. */
  lemma {:induction false} CountNamedIsCardinality(tags: seq<Label>, ids: seq<Id>, userId: Id)
    requires UniqueKeys(tags, LabelId)
    ensures CountNamed(tags, ids, userId) == |NamedIds(tags, ids, userId)|
  {
    if tags != [] {
      UniqueTail(tags, LabelId);
      CountNamedIsCardinality(tags[1..], ids, userId);
      var rest := NamedIds(tags[1..], ids, userId);
      assert tags[0].id !in rest by {
        forall j | 0 <= j < |tags[1..]| ensures LabelScope(tags[1..][j]) != (tags[0].id, userId) {
          assert tags[1..][j] in tags[1..];
        }
      }
    }
  }

  /** The count equals the number of requested ids exactly when the request has no
      repeated id and every id names a tag of the caller. */
  lemma TagCountExact(tags: seq<Label>, ids: seq<Id>, userId: Id)
    requires UniqueKeys(tags, LabelId)
    ensures CountNamed(tags, ids, userId) == |ids|
            <==> Distinct(ids) && forall i :: 0 <= i < |ids| ==> Has(tags, LabelScope, (ids[i], userId))
  {
    CountNamedIsCardinality(tags, ids, userId);
    ElementsCardinality(ids);
    var named := NamedIds(tags, ids, userId);
    var elems := set x | x in ids;
    assert named <= elems;
    SubsetCardinality(named, elems);
    var allNamed := forall i :: 0 <= i < |ids| ==> Has(tags, LabelScope, (ids[i], userId));
    assert allNamed <==> named == elems by {
      if allNamed {
        forall x | x in elems ensures x in named {
          var i :| 0 <= i < |ids| && ids[i] == x;
        }
      }
      if named == elems {
        forall i | 0 <= i < |ids| ensures Has(tags, LabelScope, (ids[i], userId)) {
          assert ids[i] in elems;
        }
      }
    }
  }

  /** validateTagIds: an omitted list is fine; a non-array is refused; any malformed id
      is refused; otherwise the list passes exactly when it repeats no id and every id
      names a tag of the caller, so foreign, missing and repeated ids all fail. */
  function ValidateTagIds(tags: TagsField, userId: Id, allTags: seq<Label>): (r: Option<Raised>)
    ensures tags.Omitted? ==> r.None?
    ensures tags.NotArray? ==> r == Some(BadRequest(TagsNotArray))
    ensures tags.Ids? && !AllValidIds(tags.ids) ==> r == Some(BadRequest(InvalidTagId))
    ensures tags.Ids? && AllValidIds(tags.ids) && r.Some? ==> r == Some(BadRequest(UnknownTagId))
    ensures tags.Ids? && AllValidIds(tags.ids) && UniqueKeys(allTags, LabelId) ==>
              (r.None? <==> Distinct(tags.ids)
                            && forall i :: 0 <= i < |tags.ids| ==> Has(allTags, LabelScope, (tags.ids[i], userId)))
  {
    match tags
    case Omitted => None
    case NotArray(_) => Some(BadRequest(TagsNotArray))
    case Ids(ids) =>
      if !AllValidIds(ids) then Some(BadRequest(InvalidTagId))
      else
        assert UniqueKeys(allTags, LabelId) ==>
                 (CountNamed(allTags, ids, userId) == |ids|
                  <==> Distinct(ids) && forall i :: 0 <= i < |ids| ==> Has(allTags, LabelScope, (ids[i], userId))) by {
          if UniqueKeys(allTags, LabelId) {
            TagCountExact(allTags, ids, userId);
          }
        }
        if CountNamed(allTags, ids, userId) != |ids| then Some(BadRequest(UnknownTagId))
        else None
  }

  /** The filter GET / builds: scoped to the caller (when the caller has an id), then
      narrowed by each query parameter that is present and non-empty. */
  predicate Matches(n: Note, userId: Id, q: NoteQuery) {
    (userId != "" ==> n.userId == userId)
    && (Labels.Truthy(q.searchTerm) ==>
          ContainsIgnoreCase(n.title, q.searchTerm.value)
          || (n.content.Some? && ContainsIgnoreCase(n.content.value, q.searchTerm.value)))
    && (Labels.Truthy(q.folderId) ==> n.folderId == Some(q.folderId.value))
    && (Labels.Truthy(q.tagId) ==> q.tagId.value in n.tags)
  }

  /** `Note.find(filter)`: the matching notes, in stored order. */
  function Filter(ns: seq<Note>, userId: Id, q: NoteQuery): (r: seq<Note>)
    ensures forall n :: multiset(r)[n] == if Matches(n, userId, q) then multiset(ns)[n] else 0
  {
    if ns == [] then []
    else
      assert ns == [ns[0]] + ns[1..];
      (if Matches(ns[0], userId, q) then [ns[0]] else []) + Filter(ns[1..], userId, q)
  }

  /** A `folderId` or `tagId` query value that is not an ObjectId makes the query's
      cast fail, an error without a status. */
  predicate QueryCasts(q: NoteQuery) {
    (Labels.Truthy(q.folderId) ==> IsValidObjectId(q.folderId.value))
    && (Labels.Truthy(q.tagId) ==> IsValidObjectId(q.tagId.value))
  }

  /** GET / : exactly the matching notes, each as often as stored, most recently
      updated first. */
  function List(ns: seq<Note>, userId: Id, q: NoteQuery): (r: Response<seq<Note>>)
    ensures !QueryCasts(q) ==> r == Error(500, "Internal Server Error")
    ensures QueryCasts(q) ==> r.Ok?
    ensures r.Ok? ==> SortedByRecency(r.body)
    ensures r.Ok? ==> forall n :: multiset(r.body)[n] == if Matches(n, userId, q) then multiset(ns)[n] else 0
  {
    if !QueryCasts(q) then Reply(Crash)
    else Ok(SortByRecency(Filter(ns, userId, q)))
  }

  /** Every listed note belongs to the caller and satisfies every filter given. */
  lemma ListedNotesMatch(ns: seq<Note>, userId: Id, q: NoteQuery, n: Note)
    requires userId != "" && List(ns, userId, q).Ok? && n in List(ns, userId, q).body
    ensures n in ns && n.userId == userId && Matches(n, userId, q)
  {
    var body := List(ns, userId, q).body;
    assert n in multiset(body);
  }

  /** GET /:id : a malformed id is a 400; a note of another owner is as absent as a
      missing one. */
  function Get(ns: seq<Note>, id: string, userId: Id): (r: Response<Note>)
    ensures !IsValidObjectId(id) ==> r == Error(400, InvalidId)
    ensures IsValidObjectId(id) && !Has(ns, NoteScope, (id, userId)) ==> r == Error(404, "Not Found")
    ensures IsValidObjectId(id) && Has(ns, NoteScope, (id, userId)) ==> r.Ok?
    ensures r.Ok? ==> r.body in ns && r.body.id == id && r.body.userId == userId
  {
    if !IsValidObjectId(id) then Reply(BadRequest(InvalidId))
    else
      match Find(ns, NoteScope, (id, userId))
      case None => Reply(Unanswered)
      case Some(i) => Ok(ns[i])
  }

  /** validateFolderId rejects without a database lookup: a malformed id. */
  predicate FolderRejectsEarly(folderId: Option<string>) {
    Labels.Truthy(folderId) && !IsValidObjectId(folderId.value)
  }

  /** validateTagIds rejects without a database lookup: a non-array or a malformed id. */
  predicate TagsRejectEarly(tags: TagsField) {
    tags.NotArray? || (tags.Ids? && !AllValidIds(tags.ids))
  }

  /** `Promise.all([validateFolderId(...), validateTagIds(...)])`: it rejects with the
      first rejection to settle. A validator that rejects without a lookup settles
      before any database reply, and of two such the folder's, listed first, settles
      first. When both reject only after their lookups, the folder's error is taken. */
  function FirstRejection(folderId: Option<string>, tags: TagsField, userId: Id,
                          folders: seq<Label>, allTags: seq<Label>): (r: Option<Raised>)
    ensures r.None? <==> ValidateFolderId(folderId, userId, folders).None?
                         && ValidateTagIds(tags, userId, allTags).None?
    ensures ValidateFolderId(folderId, userId, folders).None? ==> r == ValidateTagIds(tags, userId, allTags)
    ensures ValidateTagIds(tags, userId, allTags).None? ==> r == ValidateFolderId(folderId, userId, folders)
    ensures FolderRejectsEarly(folderId) ==> r == Some(BadRequest(InvalidFolderId))
    ensures !FolderRejectsEarly(folderId) && TagsRejectEarly(tags) ==> r == ValidateTagIds(tags, userId, allTags)
    ensures !FolderRejectsEarly(folderId) && !TagsRejectEarly(tags)
            && ValidateFolderId(folderId, userId, folders).Some?
            ==> r == ValidateFolderId(folderId, userId, folders)
  {
    if FolderRejectsEarly(folderId) then ValidateFolderId(folderId, userId, folders)
    else if TagsRejectEarly(tags) then ValidateTagIds(tags, userId, allTags)
    else
      var folderCheck := ValidateFolderId(folderId, userId, folders);
      if folderCheck.Some? then folderCheck
      else ValidateTagIds(tags, userId, allTags)
  }

  /** POST / destructures `tags = []`: an omitted list is an empty one. */
  function CreateTags(t: TagsField): TagsField {
    if t.Omitted? then Ids([]) else t
  }

  /** POST / : the title check, then both validators together; the first rejection
      to settle is the answer. */
  function CreateCheck(input: NoteInput, userId: Id, folders: seq<Label>, tags: seq<Label>): (r: Option<Raised>)
    ensures !Labels.Truthy(input.title) ==> r == Some(BadRequest(MissingTitle))
    ensures Labels.Truthy(input.title)
            ==> r == FirstRejection(input.folderId, CreateTags(input.tags), userId, folders, tags)
    ensures r.None? <==> Labels.Truthy(input.title)
                         && ValidateFolderId(input.folderId, userId, folders).None?
                         && ValidateTagIds(CreateTags(input.tags), userId, tags).None?
    ensures r.None? ==> input.tags.Omitted? || input.tags.Ids?
  {
    if !Labels.Truthy(input.title) then Some(BadRequest(MissingTitle))
    else FirstRejection(input.folderId, CreateTags(input.tags), userId, folders, tags)
  }

  /** A malformed tag id on create is answered 'The tags `id` is invalid' even when the
      folder is not the caller's: that rejection settles before the folder lookup
      returns. */
  lemma CreateBadTagBeatsForeignFolder(input: NoteInput, userId: Id, folders: seq<Label>, tags: seq<Label>)
    requires Labels.Truthy(input.title)
    requires input.tags.Ids? && !AllValidIds(input.tags.ids)
    requires Labels.Truthy(input.folderId) && IsValidObjectId(input.folderId.value)
    requires !Has(folders, LabelScope, (input.folderId.value, userId))
    ensures ValidateFolderId(input.folderId, userId, folders) == Some(BadRequest(InvalidFolderId))
    ensures CreateCheck(input, userId, folders, tags) == Some(BadRequest(InvalidTagId))
  {
  }

  /** A falsy `folderId` is stored as no folder. */
  function FolderRef(folderId: Option<string>): (r: Option<Id>)
    ensures r.None? <==> !Labels.Truthy(folderId)
    ensures r.Some? ==> r == folderId
  {
    if Labels.Truthy(folderId) then folderId else None
  }

  function TagList(t: TagsField): seq<Id> {
    if t.Ids? then t.ids else []
  }

  /** The document Note.create stores. */
  function NewNote(input: NoteInput, id: Id, userId: Id, now: nat): (n: Note)
    requires Labels.Truthy(input.title)
    ensures n.id == id && n.userId == userId && n.title == input.title.value
    ensures n.content == input.content && n.folderId == FolderRef(input.folderId)
    ensures n.tags == TagList(input.tags) && n.createdAt == now && n.updatedAt == now
  {
    Note(id, input.title.value, input.content, userId, FolderRef(input.folderId),
         TagList(input.tags), now, now)
  }

  /** A note created after the checks pass references only the caller's folder and
      tags, and lists no tag twice. */
  lemma CreatedNoteRefsOk(input: NoteInput, userId: Id, folders: seq<Label>, tags: seq<Label>,
                          id: Id, now: nat)
    requires UniqueKeys(tags, LabelId)
    requires CreateCheck(input, userId, folders, tags).None?
    ensures RefsOk(NewNote(input, id, userId, now), folders, tags)
  {
    var n := NewNote(input, id, userId, now);
    if input.tags.Ids? {
      assert AllValidIds(input.tags.ids);
    } else {
      assert n.tags == [];
    }
  }

  /** PUT /:id : the id, then the title, then the shape of the tag ids (calling
      `tags.filter` on a truthy non-array throws), then both validators together. */
  function UpdateCheck(id: string, input: NoteInput, userId: Id, folders: seq<Label>, tags: seq<Label>): (r: Option<Raised>)
    ensures !IsValidObjectId(id) ==> r == Some(BadRequest(InvalidId))
    ensures IsValidObjectId(id) && !Labels.Truthy(input.title) ==> r == Some(BadRequest(MissingTitle))
    ensures IsValidObjectId(id) && Labels.Truthy(input.title) && input.tags.NotArray? && input.tags.truthy
            ==> r == Some(Crash)
    ensures IsValidObjectId(id) && Labels.Truthy(input.title) && input.tags.Ids? && !AllValidIds(input.tags.ids)
            ==> r == Some(BadRequest(InvalidTagId))
    ensures IsValidObjectId(id) && Labels.Truthy(input.title)
            && !(input.tags.NotArray? && input.tags.truthy)
            && !(input.tags.Ids? && !AllValidIds(input.tags.ids))
            ==> r == FirstRejection(input.folderId, input.tags, userId, folders, tags)
    ensures r.None? <==> IsValidObjectId(id) && Labels.Truthy(input.title)
                         && ValidateFolderId(input.folderId, userId, folders).None?
                         && ValidateTagIds(input.tags, userId, tags).None?
    ensures r.None? ==> input.tags.Omitted? || input.tags.Ids?
  {
    if !IsValidObjectId(id) then Some(BadRequest(InvalidId))
    else if !Labels.Truthy(input.title) then Some(BadRequest(MissingTitle))
    else if input.tags.NotArray? && input.tags.truthy then Some(Crash)
    else if input.tags.Ids? && !AllValidIds(input.tags.ids) then Some(BadRequest(InvalidTagId))
    else FirstRejection(input.folderId, input.tags, userId, folders, tags)
  }

  /** A falsy non-array `tags` on update (such as `null`) is answered 'The `tags` must
      be an array' even when the folder is not the caller's: that rejection settles
      before the folder lookup returns. */
  lemma UpdateNullTagsBeatsForeignFolder(id: string, input: NoteInput, userId: Id,
                                          folders: seq<Label>, tags: seq<Label>)
    requires IsValidObjectId(id) && Labels.Truthy(input.title)
    requires input.tags == NotArray(false)
    requires Labels.Truthy(input.folderId) && IsValidObjectId(input.folderId.value)
    requires !Has(folders, LabelScope, (input.folderId.value, userId))
    ensures ValidateFolderId(input.folderId, userId, folders) == Some(BadRequest(InvalidFolderId))
    ensures UpdateCheck(id, input, userId, folders, tags) == Some(BadRequest(TagsNotArray))
  {
  }

  /** The document findByIdAndUpdate leaves: the stored id and creation time, every
      other field from the request (an omitted `content` or `tags` is cleared), the
      caller as owner, and a new modification time. */
  function Replacement(prev: Note, input: NoteInput, userId: Id, now: nat): (n: Note)
    requires Labels.Truthy(input.title)
    ensures n.id == prev.id && n.createdAt == prev.createdAt && n.updatedAt == now
    ensures n.userId == userId && n.title == input.title.value && n.content == input.content
    ensures n.folderId == FolderRef(input.folderId) && n.tags == TagList(input.tags)
  {
    Note(prev.id, input.title.value, input.content, userId, FolderRef(input.folderId),
         TagList(input.tags), prev.createdAt, now)
  }

  /** A note replaced after the checks pass references only the caller's folder and
      tags, whoever owned it before. */
  lemma ReplacedNoteRefsOk(prev: Note, id: string, input: NoteInput, userId: Id,
                           folders: seq<Label>, tags: seq<Label>, now: nat)
    requires UniqueKeys(tags, LabelId)
    requires UpdateCheck(id, input, userId, folders, tags).None?
    ensures RefsOk(Replacement(prev, input, userId, now), folders, tags)
  {
    var n := Replacement(prev, input, userId, now);
    if input.tags.Ids? {
      assert AllValidIds(input.tags.ids);
    } else {
      assert n.tags == [];
    }
  }

  /** findByIdAndUpdate looks the note up by id alone: a caller who is not the owner
      passes every check, finds the note, and becomes its owner, although GET /:id
      would have answered 404 to that caller. */
  lemma UpdateTakesOverForeignNote()
    ensures var owner, caller, id := "ownerownerow", "callercaller", "notenotenote";
            var stored := [Note(id, "mine", None, owner, None, [], 0, 0)];
            var input := NoteInput(Some("yours"), None, None, Omitted);
            Get(stored, id, caller) == Error(404, "Not Found")
            && UpdateCheck(id, input, caller, [], []).None?
            && Find(stored, NoteId, id) == Some(0)
            && Replacement(stored[0], input, caller, 1).userId == caller
  {
    var owner, caller, id := "ownerownerow", "callercaller", "notenotenote";
    var stored := [Note(id, "mine", None, owner, None, [], 0, 0)];
    assert !Has(stored, NoteScope, (id, caller)) by {
      assert NoteScope(stored[0]) != (id, caller);
    }
  }

  /** Adding a note with a fresh id, a title and intact references keeps the Note
      collection valid and intact. */
  lemma {:induction false} InsertKeepsInvariant(ns: seq<Note>, fs: seq<Label>, ts: seq<Label>, n: Note)
    requires NotesValid(ns) && RefsIntact(ns, fs, ts)
    requires !Has(ns, NoteId, n.id) && n.title != "" && RefsOk(n, fs, ts)
    ensures NotesValid(ns + [n]) && RefsIntact(ns + [n], fs, ts)
  {
    UniqueAppend(ns, n, NoteId);
    assert forall i :: 0 <= i < |ns| ==> (ns + [n])[i] == ns[i];
  }

  /** Replacing the note at `k` by a note with the same id, a title and intact
      references keeps the Note collection valid and intact. */
  lemma {:induction false} ReplaceKeepsInvariant(ns: seq<Note>, fs: seq<Label>, ts: seq<Label>, k: nat, n: Note)
    requires NotesValid(ns) && RefsIntact(ns, fs, ts) && k < |ns|
    requires n.id == ns[k].id && n.title != "" && RefsOk(n, fs, ts)
    ensures NotesValid(ns[k := n]) && RefsIntact(ns[k := n], fs, ts)
  {
    var r := ns[k := n];
    forall a, b | 0 <= a < |r| && 0 <= b < |r| && NoteId(r[a]) == NoteId(r[b]) ensures a == b {
      assert NoteId(ns[a]) == NoteId(ns[b]);
    }
  }

  /** findOneAndRemove on `(id, userId)`: the collection stays valid and intact, no
      note matches afterwards, at most one note went, and a repeat changes nothing. */
  lemma {:induction false} RemoveKeepsInvariant(ns: seq<Note>, fs: seq<Label>, ts: seq<Label>, id: Id, userId: Id)
    requires NotesValid(ns) && RefsIntact(ns, fs, ts)
    ensures NotesValid(RemoveFirst(ns, NoteScope, (id, userId)))
    ensures RefsIntact(RemoveFirst(ns, NoteScope, (id, userId)), fs, ts)
    ensures !Has(RemoveFirst(ns, NoteScope, (id, userId)), NoteScope, (id, userId))
    ensures |ns| - 1 <= |RemoveFirst(ns, NoteScope, (id, userId))| <= |ns|
    ensures RemoveFirst(RemoveFirst(ns, NoteScope, (id, userId)), NoteScope, (id, userId))
            == RemoveFirst(ns, NoteScope, (id, userId))
  {
    var r := RemoveFirst(ns, NoteScope, (id, userId));
    NoteScopeUnique(ns);
    UniqueAfterRemove(ns, NoteScope, (id, userId), NoteId);
    RemoveFirstSubset(ns, NoteScope, (id, userId));
    forall k | 0 <= k < |r| ensures r[k].title != "" && RefsOk(r[k], fs, ts) {
      assert r[k] in r;
      var j :| 0 <= j < |ns| && ns[j] == r[k];
    }
  }

  /** POST / : the checks, then Note.create, which casts the owner's id. */
  function Create(ns: seq<Note>, folders: seq<Label>, tags: seq<Label>, input: NoteInput,
                  userId: Id, id: Id, now: nat): (o: Outcome<Note, seq<Note>>)
    requires !Has(ns, NoteId, id)
    ensures CreateCheck(input, userId, folders, tags).Some?
            ==> o == Outcome(Reply(CreateCheck(input, userId, folders, tags).value), ns)
    ensures CreateCheck(input, userId, folders, tags).None? && !IsValidObjectId(userId)
            ==> o == Outcome(Error(500, "Internal Server Error"), ns)
    ensures o.response.Created? <==> CreateCheck(input, userId, folders, tags).None? && IsValidObjectId(userId)
    ensures o.response.Created? ==> o.response.body == NewNote(input, id, userId, now)
                                    && o.after == ns + [o.response.body]
    ensures !o.response.Created? ==> o.after == ns
    ensures NotesValid(ns) && RefsIntact(ns, folders, tags) && UniqueKeys(tags, LabelId)
            ==> NotesValid(o.after) && RefsIntact(o.after, folders, tags)
  {
    var check := CreateCheck(input, userId, folders, tags);
    if check.Some? then Outcome(Reply(check.value), ns)
    else if !IsValidObjectId(userId) then Outcome(Reply(Crash), ns)
    else
      var n := NewNote(input, id, userId, now);
      assert NotesValid(ns) && RefsIntact(ns, folders, tags) && UniqueKeys(tags, LabelId)
             ==> NotesValid(ns + [n]) && RefsIntact(ns + [n], folders, tags) by {
        if NotesValid(ns) && RefsIntact(ns, folders, tags) && UniqueKeys(tags, LabelId) {
          CreatedNoteRefsOk(input, userId, folders, tags, id, now);
          InsertKeepsInvariant(ns, folders, tags, n);
        }
      }
      Outcome(Created(n), ns + [n])
  }

  /** PUT /:id : the checks, then findByIdAndUpdate, which finds the note by id alone,
      casts the new owner's id, and answers 404 when no note has that id. */
  function Update(ns: seq<Note>, folders: seq<Label>, tags: seq<Label>, id: string,
                  input: NoteInput, userId: Id, now: nat): (o: Outcome<Note, seq<Note>>)
    ensures UpdateCheck(id, input, userId, folders, tags).Some?
            ==> o == Outcome(Reply(UpdateCheck(id, input, userId, folders, tags).value), ns)
    ensures UpdateCheck(id, input, userId, folders, tags).None? && !IsValidObjectId(userId)
            ==> o == Outcome(Error(500, "Internal Server Error"), ns)
    ensures UpdateCheck(id, input, userId, folders, tags).None? && IsValidObjectId(userId)
            && !Has(ns, NoteId, id)
            ==> o == Outcome(Error(404, "Not Found"), ns)
    ensures o.response.Ok? <==> UpdateCheck(id, input, userId, folders, tags).None?
                                && IsValidObjectId(userId) && Has(ns, NoteId, id)
    ensures o.response.Ok? ==>
              exists i :: 0 <= i < |ns| && ns[i].id == id
                && o.after == ns[i := Replacement(ns[i], input, userId, now)]
                && o.response.body == o.after[i]
    ensures !o.response.Ok? ==> o.after == ns
    ensures NotesValid(ns) && RefsIntact(ns, folders, tags) && UniqueKeys(tags, LabelId)
            ==> NotesValid(o.after) && RefsIntact(o.after, folders, tags)
  {
    var check := UpdateCheck(id, input, userId, folders, tags);
    if check.Some? then Outcome(Reply(check.value), ns)
    else if !IsValidObjectId(userId) then Outcome(Reply(Crash), ns)
    else
      match Find(ns, NoteId, id)
      case None => Outcome(Reply(Unanswered), ns)
      case Some(i) =>
        var n := Replacement(ns[i], input, userId, now);
        assert NotesValid(ns) && RefsIntact(ns, folders, tags) && UniqueKeys(tags, LabelId)
               ==> NotesValid(ns[i := n]) && RefsIntact(ns[i := n], folders, tags) by {
          if NotesValid(ns) && RefsIntact(ns, folders, tags) && UniqueKeys(tags, LabelId) {
            ReplacedNoteRefsOk(ns[i], id, input, userId, folders, tags, now);
            ReplaceKeepsInvariant(ns, folders, tags, i, n);
          }
        }
        Outcome(Ok(n), ns[i := n])
  }

  /** DELETE /:id : findOneAndRemove on `(id, userId)`; 204 whether or not a note went. */
  function Remove(ns: seq<Note>, id: string, userId: Id): (o: Outcome<Note, seq<Note>>)
    ensures !IsValidObjectId(id) ==> o == Outcome(Error(400, InvalidId), ns)
    ensures IsValidObjectId(id) ==> o.response == NoContent
    ensures IsValidObjectId(id) && NotesValid(ns) ==> !Has(o.after, NoteScope, (id, userId))
    ensures IsValidObjectId(id) && !Has(ns, NoteScope, (id, userId)) ==> o.after == ns
    ensures forall n :: n in o.after ==> n in ns
    ensures forall n :: n in ns && NoteScope(n) != (id, userId) ==> multiset(o.after)[n] == multiset(ns)[n]
    ensures |ns| - 1 <= |o.after| <= |ns|
    ensures forall fs, ts :: NotesValid(ns) && RefsIntact(ns, fs, ts)
              ==> NotesValid(o.after) && RefsIntact(o.after, fs, ts)
  {
    if !IsValidObjectId(id) then Outcome(Reply(BadRequest(InvalidId)), ns)
    else
      var after := RemoveFirst(ns, NoteScope, (id, userId));
      RemoveFirstSubset(ns, NoteScope, (id, userId));
      assert NotesValid(ns) ==> UniqueKeys(ns, NoteScope) by {
        if NotesValid(ns) {
          NoteScopeUnique(ns);
        }
      }
      forall fs, ts | NotesValid(ns) && RefsIntact(ns, fs, ts)
        ensures NotesValid(after) && RefsIntact(after, fs, ts)
      {
        RemoveKeepsInvariant(ns, fs, ts, id, userId);
      }
      Outcome(NoContent, after)
  }

  /** A second identical delete changes nothing. */
  lemma RemoveIdempotent(ns: seq<Note>, id: string, userId: Id)
    requires NotesValid(ns)
    ensures Remove(Remove(ns, id, userId).after, id, userId) == Remove(ns, id, userId)
  {
    if IsValidObjectId(id) {
      NoteScopeUnique(ns);
    }
  }

  lemma ListPair(a: Note, b: Note, userId: Id, q: NoteQuery)
    requires QueryCasts(q) && Matches(a, userId, q) && !Matches(b, userId, q)
    ensures List([a, b], userId, q) == Ok([a])
  {
    assert [a, b][1..] == [b];
    assert [b][1..] == [];
    assert Filter([a, b], userId, q) == [a];
    assert [a][1..] == [];
    assert SortByRecency([a]) == [a];
  }

  lemma WaysOccursInTitle()
    ensures ContainsIgnoreCase("A ways to cook", "ways")
  {
    var t := "A ways to cook";
    assert t[2..][0] == 'w' && t[2..][1] == 'a' && t[2..][2] == 'y' && t[2..][3] == 's';
    assert StartsWithIgnoreCase(t[2..], "ways");
    ContainsIgnoreCaseAt(t, "ways");
  }

  lemma WaysMissingFromTopic(t: string)
    requires t == "B topic"
    ensures !ContainsIgnoreCase(t, "ways")
  {
    forall k | 0 <= k <= |t| ensures !StartsWithIgnoreCase(t[k..], "ways") {
      if k < 4 {
        assert t[k..][0] == t[k];
        assert t[k] in {'B', ' ', 't', 'o'};
        assert LowerChar(t[k..][0]) != LowerChar("ways"[0]);
      }
    }
    ContainsIgnoreCaseAt(t, "ways");
  }

  /** The search example: of a note titled "A ways to cook" and one titled "B topic",
      both of the caller, a search for "ways" returns exactly the first. */
  lemma SearchExample(a: Note, b: Note, userId: Id)
    requires a.title == "A ways to cook" && a.content.None? && a.userId == userId
    requires b.title == "B topic" && b.content.None? && b.userId == userId
    ensures List([a, b], userId, NoteQuery(Some("ways"), None, None)) == Ok([a])
  {
    var q := NoteQuery(Some("ways"), None, None);
    assert Matches(a, userId, q) by { WaysOccursInTitle(); }
    WaysMissingFromTopic(b.title);
    ListPair(a, b, userId, q);
  }
}
