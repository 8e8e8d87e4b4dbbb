/**
 * The four MongoDB collections the routes share (users, folders, tags, notes), as
 * one object whose methods are the write routes. Each method applies the route's
 * transition to the collections it touches and keeps the schema invariants, the
 * references between notes and their folders and tags, and the timestamps.
 */
module EntityStore {
  import opened Wrappers
  import opened ObjectIds
  import opened Collections
  import opened Models
  import opened Http
  import opened Cascade
  import Labels
  import Notes
  import Users

  /** Timestamps are ordered and no later than the store's clock. */
  predicate UserStamps(users: seq<User>, clock: nat) {
    forall i :: 0 <= i < |users| ==> users[i].createdAt <= users[i].updatedAt <= clock
  }

  predicate LabelStamps(ls: seq<Label>, clock: nat) {
    forall i :: 0 <= i < |ls| ==> ls[i].createdAt <= ls[i].updatedAt <= clock
  }

  predicate NoteStamps(ns: seq<Note>, clock: nat) {
    forall i :: 0 <= i < |ns| ==> ns[i].createdAt <= ns[i].updatedAt <= clock
  }

  /** A cascade that keeps every note's id and title and stamps what it touches with
      a later time keeps the Note collection valid and its timestamps ordered. */
  lemma CascadeKeepsNotes(before: seq<Note>, after: seq<Note>, clock: nat, now: nat)
    requires NotesValid(before) && NoteStamps(before, clock) && clock <= now
    requires |after| == |before|
    requires forall k :: 0 <= k < |before| ==>
               after[k] == before[k]
               || (after[k].id == before[k].id && after[k].title == before[k].title
                   && after[k].createdAt == before[k].createdAt && after[k].updatedAt == now)
    ensures NotesValid(after) && NoteStamps(after, now)
  {
    forall a, b | 0 <= a < |after| && 0 <= b < |after| && NoteId(after[a]) == NoteId(after[b])
      ensures a == b
    {
      assert NoteId(before[a]) == NoteId(before[b]);
    }
  }

  /** Registration stamps the new user with the current time and touches no other. */
  lemma RegisterKeepsStamps(users: seq<User>, b: Users.RegistrationBody, digest: string, id: Id,
                            clock: nat, now: nat)
    requires !Has(users, UserId, id) && UserStamps(users, clock) && clock <= now
    ensures UserStamps(Users.Register(users, b, digest, id, now).after, now)
  {
    var o := Users.Register(users, b, digest, id, now);
    forall i | 0 <= i < |o.after| ensures o.after[i].createdAt <= o.after[i].updatedAt <= now {
      if i < |users| {
        assert o.after[i] == users[i];
      }
    }
  }

  lemma UnsetFolderKeepsNotes(ns: seq<Note>, id: Id, clock: nat, now: nat)
    requires NotesValid(ns) && NoteStamps(ns, clock) && clock <= now
    ensures NotesValid(UnsetFolder(ns, id, now)) && NoteStamps(UnsetFolder(ns, id, now), now)
  {
    CascadeKeepsNotes(ns, UnsetFolder(ns, id, now), clock, now);
  }

  lemma PullTagKeepsNotes(ns: seq<Note>, id: Id, clock: nat, now: nat)
    requires NotesValid(ns) && NoteStamps(ns, clock) && clock <= now
    ensures NotesValid(PullTag(ns, id, now)) && NoteStamps(PullTag(ns, id, now), now)
  {
    CascadeKeepsNotes(ns, PullTag(ns, id, now), clock, now);
  }

  /** Removing a document keeps the others' timestamps. */
  lemma RemoveKeepsStamps(ls: seq<Label>, id: Id, userId: Id, clock: nat, now: nat)
    requires LabelStamps(ls, clock) && clock <= now
    ensures LabelStamps(RemoveFirst(ls, LabelScope, (id, userId)), now)
  {
    var r := RemoveFirst(ls, LabelScope, (id, userId));
    RemoveFirstSubset(ls, LabelScope, (id, userId));
    forall k | 0 <= k < |r| ensures r[k].createdAt <= r[k].updatedAt <= now {
      assert r[k] in r;
    }
  }

  /** `updateMany({ folderId: id }, { $unset: { folderId: '' } })`, one note at a time. */
  method UnsetFolderLoop(notes: seq<Note>, id: Id, now: nat) returns (ns: seq<Note>)
    ensures ns == UnsetFolder(notes, id, now)
  {
    ghost var target := UnsetFolder(notes, id, now);
    ns := notes;
    var i := 0;
    while i < |ns|
      invariant 0 <= i <= |ns| == |notes|
      invariant forall k :: 0 <= k < i ==> ns[k] == target[k]
      invariant forall k :: i <= k < |ns| ==> ns[k] == notes[k]
    {
      if ns[i].folderId == Some(id) {
        ns := ns[i := ns[i].(folderId := None, updatedAt := now)];
      }
      i := i + 1;
    }
  }

  /** `updateMany({ tags: id }, { $pull: { tags: id } })`, one note at a time. */
  method PullTagLoop(notes: seq<Note>, id: Id, now: nat) returns (ns: seq<Note>)
    ensures ns == PullTag(notes, id, now)
  {
    ghost var target := PullTag(notes, id, now);
    ns := notes;
    var i := 0;
    while i < |ns|
      invariant 0 <= i <= |ns| == |notes|
      invariant forall k :: 0 <= k < i ==> ns[k] == target[k]
      invariant forall k :: i <= k < |ns| ==> ns[k] == notes[k]
    {
      if id in ns[i].tags {
        ns := ns[i := ns[i].(tags := Without(ns[i].tags, id), updatedAt := now)];
      }
      i := i + 1;
    }
  }

  /** A rename keeps every owner-scoped document present and stamps the renamed one
      with the request's time. */
  lemma RenameKeepsScopesAndStamps(kind: Labels.Kind, ls: seq<Label>, id: string, name: Option<string>,
                                   userId: Id, clock: nat, now: nat)
    requires LabelsValid(ls) && LabelStamps(ls, clock) && clock <= now
    ensures forall k :: Has(ls, LabelScope, k) ==> Has(Labels.Rename(kind, ls, id, name, userId, now).after, LabelScope, k)
    ensures LabelStamps(Labels.Rename(kind, ls, id, name, userId, now).after, now)
  {
    var o := Labels.Rename(kind, ls, id, name, userId, now);
    forall k | Has(ls, LabelScope, k) ensures Has(o.after, LabelScope, k) {
      var j :| 0 <= j < |ls| && LabelScope(ls[j]) == k;
      assert LabelScope(o.after[j]) == k;
    }
    if o.response.Ok? {
      var i :| 0 <= i < |ls| && LabelScope(ls[i]) == (id, userId)
               && o.after == ls[i := ls[i].(name := name.value, updatedAt := now)];
      forall k | 0 <= k < |o.after| ensures o.after[k].createdAt <= o.after[k].updatedAt <= now {
        if k != i {
          assert o.after[k] == ls[k];
        }
      }
    }
  }

  /** A second identical folder delete, at any later time, changes neither the
      Folder nor the Note collection. */
  lemma DeleteFolderIdempotent(fs: seq<Label>, ns: seq<Note>, id: Id, userId: Id, now: nat, later: nat)
    requires LabelsValid(fs)
    ensures RemoveFirst(RemoveFirst(fs, LabelScope, (id, userId)), LabelScope, (id, userId))
            == RemoveFirst(fs, LabelScope, (id, userId))
    ensures UnsetFolder(UnsetFolder(ns, id, now), id, later) == UnsetFolder(ns, id, now)
  {
    Labels.RemoveKeepsValid(fs, id, userId);
    UnsetFolderIdempotent(ns, id, now, later);
  }

  /** A second identical tag delete, at any later time, changes neither the Tag nor
      the Note collection. */
  lemma DeleteTagIdempotent(ts: seq<Label>, ns: seq<Note>, id: Id, userId: Id, now: nat, later: nat)
    requires LabelsValid(ts)
    ensures RemoveFirst(RemoveFirst(ts, LabelScope, (id, userId)), LabelScope, (id, userId))
            == RemoveFirst(ts, LabelScope, (id, userId))
    ensures PullTag(PullTag(ns, id, now), id, later) == PullTag(ns, id, now)
  {
    Labels.RemoveKeepsValid(ts, id, userId);
    PullTagIdempotent(ns, id, now, later);
  }

  /** The cascades are not scoped to the caller: a user who does not own a folder
      cannot remove it, but the delete still takes it off its owner's notes. */
  lemma ForeignFolderDeleteClearsOwnersNotes(owner: Id, caller: Id, fid: Id, now: nat)
    requires owner != caller
    ensures var fs := [Label(fid, "Work", owner, 0, 0)];
            var ns := [Note("notenotenote", "plan", None, owner, Some(fid), [], 0, 0)];
            RemoveFirst(fs, LabelScope, (fid, caller)) == fs
            && UnsetFolder(ns, fid, now)[0].folderId.None?
  {
    var fs := [Label(fid, "Work", owner, 0, 0)];
    assert !Has(fs, LabelScope, (fid, caller)) by {
      assert LabelScope(fs[0]) != (fid, caller);
    }
  }

  /** Likewise a tag delete by a user who does not own the tag. */
  lemma ForeignTagDeleteStripsOwnersNotes(owner: Id, caller: Id, tid: Id, now: nat)
    requires owner != caller
    ensures var ts := [Label(tid, "urgent", owner, 0, 0)];
            var ns := [Note("notenotenote", "plan", None, owner, None, [tid], 0, 0)];
            RemoveFirst(ts, LabelScope, (tid, caller)) == ts
            && PullTag(ns, tid, now)[0].tags == []
  {
    var ts := [Label(tid, "urgent", owner, 0, 0)];
    assert !Has(ts, LabelScope, (tid, caller)) by {
      assert LabelScope(ts[0]) != (tid, caller);
    }
    var ns := [Note("notenotenote", "plan", None, owner, None, [tid], 0, 0)];
    assert tid in ns[0].tags;
    var t := PullTag(ns, tid, now)[0].tags;
    assert tid !in t;
    assert forall y :: y != tid ==> multiset(t)[y] == multiset([tid])[y] == 0;
    assert multiset(t) == multiset{};
  }

  class Store {
    var users: seq<User>
    var folders: seq<Label>
    var tags: seq<Label>
    var notes: seq<Note>
    /** Abstract time: every write request advances it and uses it as its timestamp. */
    var clock: nat

    ghost predicate Valid()
      reads this
    {
      UsersValid(users) && LabelsValid(folders) && LabelsValid(tags) && NotesValid(notes)
      && RefsIntact(notes, folders, tags)
      && UserStamps(users, clock) && LabelStamps(folders, clock) && LabelStamps(tags, clock)
      && NoteStamps(notes, clock)
    }

    /** An empty database. */
    constructor ()
      ensures Valid()
      ensures users == [] && folders == [] && tags == [] && notes == [] && clock == 0
    {
      users, folders, tags, notes, clock := [], [], [], [], 0;
    }

    /** POST /api/users. `digest` is what the password hasher returned; `id` is the
        ObjectId the database assigns. */
    method RegisterUser(body: Users.RegistrationBody, digest: string, id: Id)
      returns (r: Response<User>)
      requires Valid() && !Has(users, UserId, id)
      modifies this
      ensures Valid() && clock == old(clock) + 1
      ensures Outcome(r, users) == Users.Register(old(users), body, digest, id, clock)
      ensures folders == old(folders) && tags == old(tags) && notes == old(notes)
    {
      clock := clock + 1;
      var o := Users.Register(users, body, digest, id, clock);
      RegisterKeepsStamps(users, body, digest, id, old(clock), clock);
      users, r := o.after, o.response;
    }

    /** POST /api/folders and POST /api/tags. */
    method CreateLabel(kind: Labels.Kind, name: Option<string>, userId: Id, id: Id)
      returns (r: Response<Label>)
      requires Valid()
      requires kind.Folders? ==> !Has(folders, LabelId, id)
      requires kind.Tags? ==> !Has(tags, LabelId, id)
      modifies this
      ensures Valid() && clock == old(clock) + 1
      ensures kind.Folders? ==> Outcome(r, folders) == Labels.Create(kind, old(folders), name, userId, id, clock)
                                && tags == old(tags)
      ensures kind.Tags? ==> Outcome(r, tags) == Labels.Create(kind, old(tags), name, userId, id, clock)
                             && folders == old(folders)
      ensures users == old(users) && notes == old(notes)
    {
      clock := clock + 1;
      var ls := if kind.Folders? then folders else tags;
      var o := Labels.Create(kind, ls, name, userId, id, clock);
      forall k | Has(ls, LabelScope, k) ensures Has(o.after, LabelScope, k) {
        if o.response.Created? {
          HasAppend(ls, o.response.body, LabelScope, k);
        }
      }
      if kind.Folders? {
        RefsMonotone(notes, folders, tags, o.after, tags);
        folders := o.after;
      } else {
        RefsMonotone(notes, folders, tags, folders, o.after);
        tags := o.after;
      }
      r := o.response;
    }

    /** PUT /api/folders/:id and PUT /api/tags/:id. */
    method RenameLabel(kind: Labels.Kind, id: string, name: Option<string>, userId: Id)
      returns (r: Response<Label>)
      requires Valid()
      modifies this
      ensures Valid() && clock == old(clock) + 1
      ensures kind.Folders? ==> Outcome(r, folders) == Labels.Rename(kind, old(folders), id, name, userId, clock)
                                && tags == old(tags)
      ensures kind.Tags? ==> Outcome(r, tags) == Labels.Rename(kind, old(tags), id, name, userId, clock)
                             && folders == old(folders)
      ensures users == old(users) && notes == old(notes)
    {
      clock := clock + 1;
      var ls := if kind.Folders? then folders else tags;
      var o := Labels.Rename(kind, ls, id, name, userId, clock);
      RenameKeepsScopesAndStamps(kind, ls, id, name, userId, old(clock), clock);
      if kind.Folders? {
        RefsMonotone(notes, folders, tags, o.after, tags);
        folders := o.after;
      } else {
        RefsMonotone(notes, folders, tags, folders, o.after);
        tags := o.after;
      }
      r := o.response;
    }

    /** DELETE /api/folders/:id: the folder `(id, userId)` goes, if it exists, and
        `updateMany({ folderId: id }, { $unset: { folderId: '' } })` clears the folder
        of every note that has it, whoever owns the note. */
    method DeleteFolder(id: string, userId: Id) returns (r: Response<Label>)
      requires Valid()
      modifies this
      ensures Valid() && clock == old(clock) + 1
      ensures !IsValidObjectId(id) ==> r == Error(400, Labels.InvalidId)
                                       && folders == old(folders) && notes == old(notes)
      ensures IsValidObjectId(id) ==> r == NoContent
                                      && folders == RemoveFirst(old(folders), LabelScope, (id, userId))
                                      && notes == UnsetFolder(old(notes), id, clock)
      ensures users == old(users) && tags == old(tags)
    {
      clock := clock + 1;
      if !IsValidObjectId(id) {
        r := Reply(BadRequest(Labels.InvalidId));
        return;
      }
      var fs := RemoveFirst(folders, LabelScope, (id, userId));
      var ns := UnsetFolderLoop(notes, id, clock);
      Labels.RemoveKeepsValid(folders, id, userId);
      RemoveKeepsStamps(folders, id, userId, old(clock), clock);
      FolderDeleteKeepsRefs(notes, folders, tags, id, userId, clock);
      UnsetFolderKeepsNotes(notes, id, old(clock), clock);
      folders, notes := fs, ns;
      r := NoContent;
    }

    /** DELETE /api/tags/:id: the tag `(id, userId)` goes, if it exists, and
        `updateMany({ tags: id }, { $pull: { tags: id } })` removes `id` from the tags
        of every note that lists it, whoever owns the note. */
    method DeleteTag(id: string, userId: Id) returns (r: Response<Label>)
      requires Valid()
      modifies this
      ensures Valid() && clock == old(clock) + 1
      ensures !IsValidObjectId(id) ==> r == Error(400, Labels.InvalidId)
                                       && tags == old(tags) && notes == old(notes)
      ensures IsValidObjectId(id) ==> r == NoContent
                                      && tags == RemoveFirst(old(tags), LabelScope, (id, userId))
                                      && notes == PullTag(old(notes), id, clock)
      ensures users == old(users) && folders == old(folders)
    {
      clock := clock + 1;
      if !IsValidObjectId(id) {
        r := Reply(BadRequest(Labels.InvalidId));
        return;
      }
      var ts := RemoveFirst(tags, LabelScope, (id, userId));
      var ns := PullTagLoop(notes, id, clock);
      Labels.RemoveKeepsValid(tags, id, userId);
      RemoveKeepsStamps(tags, id, userId, old(clock), clock);
      TagDeleteKeepsRefs(notes, folders, tags, id, userId, clock);
      PullTagKeepsNotes(notes, id, old(clock), clock);
      tags, notes := ts, ns;
      r := NoContent;
    }

    /** POST /api/notes. */
    method CreateNote(input: Notes.NoteInput, userId: Id, id: Id) returns (r: Response<Note>)
      requires Valid() && !Has(notes, NoteId, id)
      modifies this
      ensures Valid() && clock == old(clock) + 1
      ensures Outcome(r, notes) == Notes.Create(old(notes), folders, tags, input, userId, id, clock)
      ensures users == old(users) && folders == old(folders) && tags == old(tags)
    {
      clock := clock + 1;
      var o := Notes.Create(notes, folders, tags, input, userId, id, clock);
      notes, r := o.after, o.response;
    }

    /** PUT /api/notes/:id. */
    method UpdateNote(id: string, input: Notes.NoteInput, userId: Id) returns (r: Response<Note>)
      requires Valid()
      modifies this
      ensures Valid() && clock == old(clock) + 1
      ensures Outcome(r, notes) == Notes.Update(old(notes), folders, tags, id, input, userId, clock)
      ensures users == old(users) && folders == old(folders) && tags == old(tags)
    {
      clock := clock + 1;
      var o := Notes.Update(notes, folders, tags, id, input, userId, clock);
      if o.response.Ok? {
        var i :| 0 <= i < |notes| && notes[i].id == id
                 && o.after == notes[i := Notes.Replacement(notes[i], input, userId, clock)];
        assert NoteStamps(o.after, clock);
      }
      notes, r := o.after, o.response;
    }

    /** DELETE /api/notes/:id. */
    method DeleteNote(id: string, userId: Id) returns (r: Response<Note>)
      requires Valid()
      modifies this
      ensures Valid() && clock == old(clock) + 1
      ensures Outcome(r, notes) == Notes.Remove(old(notes), id, userId)
      ensures users == old(users) && folders == old(folders) && tags == old(tags)
    {
      clock := clock + 1;
      var o := Notes.Remove(notes, id, userId);
      forall k | 0 <= k < |o.after| ensures o.after[k].createdAt <= o.after[k].updatedAt <= clock {
        assert o.after[k] in notes;
      }
      notes, r := o.after, o.response;
    }
  }
}
