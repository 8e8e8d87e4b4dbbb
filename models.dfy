/**
 * The stored documents (models/user.js, models/folder.js, models/tag.js, and the
 * Note shape the note routes read and write), the unique indexes over their
 * collections, and the JSON view each schema's `toObject` option produces.
 */
module Models {
  import opened Wrappers
  import opened ObjectIds
  import opened Collections

  /** A registered account. `password` holds whatever digest registration stored. */
  datatype User = User(id: Id, username: string, password: string, fullname: Option<string>,
                       createdAt: nat, updatedAt: nat)

  /** A Folder or a Tag: the two schemas have the same fields and the same index. */
  datatype Label = Label(id: Id, name: string, userId: Id, createdAt: nat, updatedAt: nat)

  /** A note; `folderId` None is the unset field, `tags` lists tag ids in order. */
  datatype Note = Note(id: Id, title: string, content: Option<string>, userId: Id,
                       folderId: Option<Id>, tags: seq<Id>, createdAt: nat, updatedAt: nat)

  // Keys by which documents are looked up or indexed.
  function UserId(u: User): Id { u.id }
  function Username(u: User): string { u.username }
  function LabelId(l: Label): Id { l.id }
  /** The compound index `{ name: 1, userId: 1 }`. */
  function NameKey(l: Label): (string, Id) { (l.name, l.userId) }
  /** The filter `{ _id: id, userId }` of every owner-scoped lookup. */
  function LabelScope(l: Label): (Id, Id) { (l.id, l.userId) }
  function NoteId(n: Note): Id { n.id }
  function NoteScope(n: Note): (Id, Id) { (n.id, n.userId) }

  /** The User collection: ids are unique, `username` is required and unique
      (`unique: true`), `password` is required. */
  predicate UsersValid(users: seq<User>) {
    UniqueKeys(users, UserId) && UniqueKeys(users, Username)
    && (forall i :: 0 <= i < |users| ==> users[i].username != "" && users[i].password != "")
  }

  /** A Folder or Tag collection: ids are unique, `name` and `userId` are required and
      no two documents share a `(name, userId)` pair. */
  predicate LabelsValid(labels: seq<Label>) {
    UniqueKeys(labels, LabelId) && UniqueKeys(labels, NameKey)
    && (forall i :: 0 <= i < |labels| ==> labels[i].name != "" && labels[i].userId != "")
  }

  /** The Note collection: ids are unique and every title is non-empty. */
  predicate NotesValid(notes: seq<Note>) {
    UniqueKeys(notes, NoteId) && (forall i :: 0 <= i < |notes| ==> notes[i].title != "")
  }

  /** Referential integrity of one note: its folder, if any, and each of its tags are
      documents of the note's own owner, and no tag is listed twice. */
  predicate RefsOk(n: Note, folders: seq<Label>, tags: seq<Label>) {
    (n.folderId.Some? ==> Has(folders, LabelScope, (n.folderId.value, n.userId)))
    && Distinct(n.tags)
    && (forall j :: 0 <= j < |n.tags| ==> Has(tags, LabelScope, (n.tags[j], n.userId)))
  }

  /** Referential integrity of the whole Note collection. */
  predicate RefsIntact(notes: seq<Note>, folders: seq<Label>, tags: seq<Label>) {
    forall i :: 0 <= i < |notes| ==> RefsOk(notes[i], folders, tags)
  }

  /** References stay intact when every owner-scoped folder and tag that was present
      is still present. */
  lemma RefsMonotone(notes: seq<Note>, fs: seq<Label>, ts: seq<Label>, fs': seq<Label>, ts': seq<Label>)
    requires RefsIntact(notes, fs, ts)
    requires forall k :: Has(fs, LabelScope, k) ==> Has(fs', LabelScope, k)
    requires forall k :: Has(ts, LabelScope, k) ==> Has(ts', LabelScope, k)
    ensures RefsIntact(notes, fs', ts')
  {
    forall i | 0 <= i < |notes| ensures RefsOk(notes[i], fs', ts') {
      assert RefsOk(notes[i], fs, ts);
    }
  }

  /** Unique document ids make the owner-scoped filter match at most one document. */
  lemma ScopeUnique(labels: seq<Label>)
    requires UniqueKeys(labels, LabelId)
    ensures UniqueKeys(labels, LabelScope)
  {
    forall i, j | 0 <= i < |labels| && 0 <= j < |labels| && LabelScope(labels[i]) == LabelScope(labels[j])
      ensures i == j
    {
      assert LabelId(labels[i]) == LabelId(labels[j]);
    }
  }

  lemma NoteScopeUnique(notes: seq<Note>)
    requires UniqueKeys(notes, NoteId)
    ensures UniqueKeys(notes, NoteScope)
  {
    forall i, j | 0 <= i < |notes| && 0 <= j < |notes| && NoteScope(notes[i]) == NoteScope(notes[j])
      ensures i == j
    {
      assert NoteId(notes[i]) == NoteId(notes[j]);
    }
  }

  /** The index on `(name, userId)` admits the same name under two different owners. */
  lemma SameNameOtherOwner(a: Label, b: Label)
    requires a.id != b.id && a.name == b.name && a.userId != b.userId
    requires a.name != "" && a.userId != "" && b.userId != ""
    ensures LabelsValid([a, b])
  {
    var s := [a, b];
    forall i, j | 0 <= i < 2 && 0 <= j < 2 && NameKey(s[i]) == NameKey(s[j]) ensures i == j {
    }
  }

  /** userSchema.methods.validatePassword: the candidate equals the stored `password`. */
  function ValidatePassword(u: User, candidate: string): bool {
    candidate == u.password
  }

  /** A JSON value of a serialised document. Timestamps are the store's counter. */
  datatype Json = JStr(s: string) | JNum(n: int)

  /** The stored form of a user: `_id`, the version key `__v`, the schema fields and
      the timestamps; an absent fullname is an absent key. */
  function UserDocument(u: User): map<string, Json> {
    var base := map["_id" := JStr(u.id), "__v" := JNum(0), "username" := JStr(u.username),
                    "password" := JStr(u.password), "createdAt" := JNum(u.createdAt),
                    "updatedAt" := JNum(u.updatedAt)];
    if u.fullname.Some? then base["fullname" := JStr(u.fullname.value)] else base
  }

  function LabelDocument(l: Label): map<string, Json> {
    map["_id" := JStr(l.id), "__v" := JNum(0), "name" := JStr(l.name),
        "userId" := JStr(l.userId), "createdAt" := JNum(l.createdAt),
        "updatedAt" := JNum(l.updatedAt)]
  }

  /** The schemas' `toObject` option: `virtuals: true` adds `id` (the value of `_id`),
      `versionKey: false` drops `__v`, and the transform deletes the `hidden` keys. */
  function ToObject(doc: map<string, Json>, hidden: set<string>): map<string, Json>
    requires "_id" in doc
  {
    (doc["id" := doc["_id"]] - {"__v"}) - hidden
  }

  /** models/folder.js and models/tag.js: the transform deletes `_id`. */
  function LabelView(l: Label): (v: map<string, Json>)
    ensures v.Keys == {"id", "name", "userId", "createdAt", "updatedAt"}
    ensures v["id"] == JStr(l.id) && v["name"] == JStr(l.name) && v["userId"] == JStr(l.userId)
    ensures v["createdAt"] == JNum(l.createdAt) && v["updatedAt"] == JNum(l.updatedAt)
  {
    var v := ToObject(LabelDocument(l), {"_id"});
    assert v.Keys == {"id", "name", "userId", "createdAt", "updatedAt"} by {
      forall k | k in v.Keys ensures k in {"id", "name", "userId", "createdAt", "updatedAt"} {}
      assert "id" in v.Keys && "name" in v.Keys && "userId" in v.Keys;
      assert "createdAt" in v.Keys && "updatedAt" in v.Keys;
    }
    v
  }

  /** models/user.js: the transform deletes `_id` and `password`. */
  function UserView(u: User): (v: map<string, Json>)
    ensures "password" !in v && "_id" !in v && "__v" !in v
    ensures v.Keys == {"id", "username", "createdAt", "updatedAt"}
                      + (if u.fullname.Some? then {"fullname"} else {})
    ensures v["id"] == JStr(u.id) && v["username"] == JStr(u.username)
    ensures v["createdAt"] == JNum(u.createdAt) && v["updatedAt"] == JNum(u.updatedAt)
    ensures u.fullname.Some? ==> v["fullname"] == JStr(u.fullname.value)
  {
    var v := ToObject(UserDocument(u), {"_id", "password"});
    var expected := {"id", "username", "createdAt", "updatedAt"}
                    + (if u.fullname.Some? then {"fullname"} else {});
    assert v.Keys == expected by {
      forall k | k in v.Keys ensures k in expected {}
      assert "id" in v.Keys && "username" in v.Keys;
      assert "createdAt" in v.Keys && "updatedAt" in v.Keys;
      assert u.fullname.Some? ==> "fullname" in v.Keys;
    }
    v
  }
}
