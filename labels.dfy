/**
 * The Folder and Tag routes (routes/folders.js, routes/tags.js): owner-scoped
 * reads, the input checks of create and update in their fixed order, and the
 * collection updates those routes perform, with the invariants they keep.
 * The two routers are the same code with their own messages; `Kind` selects them.
 */
module Labels {
  import opened Wrappers
  import opened ObjectIds
  import opened Collections
  import opened Models
  import opened Sorting
  import opened Http

  datatype Kind = Folders | Tags

  const InvalidId := "The `id` is invalid"
  const MissingName := "Missing `name` in request body"
  const InvalidUserId := "The `userId` is missing or invalid"

  /** GET /:id words its 400 differently in the two routers. */
  function InvalidIdOnGet(kind: Kind): string {
    match kind
    case Folders => "The `id` is not valid"
    case Tags => "The `id` is invalid"
  }

  /** The folder router assigns this message to a misspelt property (`messge`), so the
      Error keeps its empty message. */
  function MissingUserId(kind: Kind): string {
    match kind
    case Folders => ""
    case Tags => "Missing `userId` in request body"
  }

  /** What a duplicate-key error (code 11000) is translated to. */
  function NameExists(kind: Kind): string {
    match kind
    case Folders => "Folder name already exists"
    case Tags => "Tag name already exists"
  }

  /** A body field is falsy when absent, null or the empty string. */
  predicate Truthy(s: Option<string>) {
    s.Some? && s.value != ""
  }

  /** The documents of one owner, in stored order: `find({ userId })`. */
  function OwnedBy(ls: seq<Label>, userId: Id): (r: seq<Label>)
    ensures forall l :: multiset(r)[l] == if l.userId == userId then multiset(ls)[l] else 0
  {
    if ls == [] then []
    else
      assert ls == [ls[0]] + ls[1..];
      (if ls[0].userId == userId then [ls[0]] else []) + OwnedBy(ls[1..], userId)
  }

  /** GET / : exactly the caller's documents, each as often as stored, by name. */
  function List(ls: seq<Label>, userId: Id): (r: seq<Label>)
    ensures SortedByName(r)
    ensures forall l :: multiset(r)[l] == if l.userId == userId then multiset(ls)[l] else 0
    ensures forall l :: l in r <==> l in ls && l.userId == userId
  {
    var r := SortByName(OwnedBy(ls, userId));
    assert forall l :: l in r <==> l in multiset(r);
    assert forall l :: l in ls <==> l in multiset(ls);
    r
  }

  /** GET /:id : a malformed id is a 400; a document of another owner is as absent as
      a missing one. */
  function Get(kind: Kind, ls: seq<Label>, id: string, userId: Id): (r: Response<Label>)
    ensures !IsValidObjectId(id) ==> r == Error(400, InvalidIdOnGet(kind))
    ensures IsValidObjectId(id) && !Has(ls, LabelScope, (id, userId)) ==> r == Error(404, "Not Found")
    ensures IsValidObjectId(id) && Has(ls, LabelScope, (id, userId)) ==> r.Ok?
    ensures r.Ok? ==> r.body in ls && r.body.id == id && r.body.userId == userId
  {
    if !IsValidObjectId(id) then Reply(BadRequest(InvalidIdOnGet(kind)))
    else
      match Find(ls, LabelScope, (id, userId))
      case None => Reply(Unanswered)
      case Some(i) => Ok(ls[i])
  }

  /** POST / : the checks before the insert, in order. */
  function CreateCheck(kind: Kind, name: Option<string>, userId: Id): (r: Option<Raised>)
    ensures !Truthy(name) ==> r == Some(BadRequest(MissingName))
    ensures Truthy(name) && userId == "" ==> r == Some(BadRequest(MissingUserId(kind)))
    ensures r.None? <==> Truthy(name) && userId != ""
  {
    if !Truthy(name) then Some(BadRequest(MissingName))
    else if userId == "" then Some(BadRequest(MissingUserId(kind)))
    else None
  }

  /** PUT /:id : the checks before the update, in order. */
  function UpdateCheck(id: string, name: Option<string>, userId: Id): (r: Option<Raised>)
    ensures !IsValidObjectId(id) ==> r == Some(BadRequest(InvalidId))
    ensures IsValidObjectId(id) && !IsValidObjectId(userId) ==> r == Some(BadRequest(InvalidUserId))
    ensures IsValidObjectId(id) && IsValidObjectId(userId) && !Truthy(name)
            ==> r == Some(BadRequest(MissingName))
    ensures r.None? <==> IsValidObjectId(id) && IsValidObjectId(userId) && Truthy(name)
  {
    if !IsValidObjectId(id) then Some(BadRequest(InvalidId))
    else if userId == "" || !IsValidObjectId(userId) then Some(BadRequest(InvalidUserId))
    else if !Truthy(name) then Some(BadRequest(MissingName))
    else None
  }

  /** Renaming the document at `i` to `name` would collide, on the unique index, with
      another document of the same owner. */
  predicate RenameCollides(ls: seq<Label>, i: nat, name: string)
    requires i < |ls|
  {
    exists j :: 0 <= j < |ls| && j != i && NameKey(ls[j]) == (name, ls[i].userId)
  }

  /** An insert that the unique index admits keeps the collection valid. */
  lemma {:induction false} InsertKeepsValid(ls: seq<Label>, l: Label)
    requires LabelsValid(ls)
    requires l.name != "" && l.userId != ""
    requires !Has(ls, LabelId, l.id) && !Has(ls, NameKey, NameKey(l))
    ensures LabelsValid(ls + [l])
  {
    UniqueAppend(ls, l, LabelId);
    UniqueAppend(ls, l, NameKey);
    assert forall i :: 0 <= i < |ls| ==> (ls + [l])[i] == ls[i];
  }

  /** A rename that the unique index admits keeps the collection valid, and the renamed
      document keeps its id and owner. */
  lemma {:induction false} RenameKeepsValid(ls: seq<Label>, i: nat, name: string, now: nat)
    requires LabelsValid(ls) && i < |ls|
    requires name != "" && !RenameCollides(ls, i, name)
    ensures LabelsValid(ls[i := ls[i].(name := name, updatedAt := now)])
    ensures forall k :: 0 <= k < |ls| ==> LabelScope(ls[i := ls[i].(name := name, updatedAt := now)][k]) == LabelScope(ls[k])
  {
    var r := ls[i := ls[i].(name := name, updatedAt := now)];
    forall a, b | 0 <= a < |r| && 0 <= b < |r| && LabelId(r[a]) == LabelId(r[b]) ensures a == b {
      assert LabelId(ls[a]) == LabelId(ls[b]);
    }
    forall a, b | 0 <= a < |r| && 0 <= b < |r| && NameKey(r[a]) == NameKey(r[b]) ensures a == b {
      if a != i && b != i {
        assert NameKey(ls[a]) == NameKey(ls[b]);
      }
    }
  }

  /** findOneAndRemove keeps the collection valid and leaves no document matching the
      filter; a second identical removal changes nothing. */
  lemma {:induction false} RemoveKeepsValid(ls: seq<Label>, id: Id, userId: Id)
    requires LabelsValid(ls)
    ensures LabelsValid(RemoveFirst(ls, LabelScope, (id, userId)))
    ensures !Has(RemoveFirst(ls, LabelScope, (id, userId)), LabelScope, (id, userId))
    ensures RemoveFirst(RemoveFirst(ls, LabelScope, (id, userId)), LabelScope, (id, userId))
            == RemoveFirst(ls, LabelScope, (id, userId))
  {
    var r := RemoveFirst(ls, LabelScope, (id, userId));
    ScopeUnique(ls);
    UniqueAfterRemove(ls, LabelScope, (id, userId), LabelId);
    UniqueAfterRemove(ls, LabelScope, (id, userId), NameKey);
    RemoveFirstSubset(ls, LabelScope, (id, userId));
    forall k | 0 <= k < |r| ensures r[k].name != "" && r[k].userId != "" {
      assert r[k] in r;
      var j :| 0 <= j < |ls| && ls[j] == r[k];
    }
  }

  /** The create route: its checks, then Folder.create / Tag.create, which casts
      `userId` to an ObjectId (a failed cast is an error without a status) and which
      the unique index refuses when the caller already has a document of that name. */
  function Create(kind: Kind, ls: seq<Label>, name: Option<string>, userId: Id, id: Id, now: nat)
    : (o: Outcome<Label, seq<Label>>)
    requires !Has(ls, LabelId, id)
    ensures CreateCheck(kind, name, userId).Some?
            ==> o == Outcome(Reply(CreateCheck(kind, name, userId).value), ls)
    ensures CreateCheck(kind, name, userId).None? && !IsValidObjectId(userId)
            ==> o == Outcome(Error(500, "Internal Server Error"), ls)
    ensures CreateCheck(kind, name, userId).None? && IsValidObjectId(userId)
            && Has(ls, NameKey, (name.value, userId))
            ==> o == Outcome(Error(400, NameExists(kind)), ls)
    ensures o.response.Created? <==> Truthy(name) && IsValidObjectId(userId)
                                     && !Has(ls, NameKey, (name.value, userId))
    ensures o.response.Created? ==> o.response.body == Label(id, name.value, userId, now, now)
                                    && o.after == ls + [o.response.body]
    ensures !o.response.Created? ==> o.after == ls
    ensures LabelsValid(ls) ==> LabelsValid(o.after)
  {
    var check := CreateCheck(kind, name, userId);
    if check.Some? then Outcome(Reply(check.value), ls)
    else if !IsValidObjectId(userId) then Outcome(Reply(Crash), ls)
    else if Count(ls, NameKey, (name.value, userId)) > 0 then
      Outcome(Reply(BadRequest(NameExists(kind))), ls)
    else
      var l := Label(id, name.value, userId, now, now);
      assert LabelsValid(ls) ==> LabelsValid(ls + [l]) by {
        if LabelsValid(ls) {
          InsertKeepsValid(ls, l);
        }
      }
      Outcome(Created(l), ls + [l])
  }

  /** Another document of the caller already carries `name`. */
  predicate NameTakenByOther(ls: seq<Label>, id: Id, name: string, userId: Id) {
    exists j :: 0 <= j < |ls| && NameKey(ls[j]) == (name, userId) && ls[j].id != id
  }

  /** The update route: its checks, then findOneAndUpdate on `(id, userId)`, which
      answers 404 when nothing matches and is refused by the unique index when the
      new name is taken by another document of the caller. */
  function Rename(kind: Kind, ls: seq<Label>, id: string, name: Option<string>, userId: Id, now: nat)
    : (o: Outcome<Label, seq<Label>>)
    requires LabelsValid(ls)
    ensures UpdateCheck(id, name, userId).Some?
            ==> o == Outcome(Reply(UpdateCheck(id, name, userId).value), ls)
    ensures UpdateCheck(id, name, userId).None? && !Has(ls, LabelScope, (id, userId))
            ==> o == Outcome(Error(404, "Not Found"), ls)
    ensures UpdateCheck(id, name, userId).None? && Has(ls, LabelScope, (id, userId))
            && NameTakenByOther(ls, id, name.value, userId)
            ==> o == Outcome(Error(400, NameExists(kind)), ls)
    ensures o.response.Ok? <==> UpdateCheck(id, name, userId).None? && Has(ls, LabelScope, (id, userId))
                                && !NameTakenByOther(ls, id, name.value, userId)
    ensures o.response.Ok? ==>
              exists i :: 0 <= i < |ls| && LabelScope(ls[i]) == (id, userId)
                && o.after == ls[i := ls[i].(name := name.value, updatedAt := now)]
                && o.response.body == o.after[i]
    ensures !o.response.Ok? ==> o.after == ls
    ensures LabelsValid(o.after) && |o.after| == |ls|
    ensures forall k :: 0 <= k < |ls| ==> LabelScope(o.after[k]) == LabelScope(ls[k])
  {
    var check := UpdateCheck(id, name, userId);
    if check.Some? then Outcome(Reply(check.value), ls)
    else
      match Find(ls, LabelScope, (id, userId))
      case None => Outcome(Reply(Unanswered), ls)
      case Some(i) =>
        assert RenameCollides(ls, i, name.value) <==> NameTakenByOther(ls, id, name.value, userId) by {
          if j :| 0 <= j < |ls| && NameKey(ls[j]) == (name.value, userId) && ls[j].id != id {
            assert j != i;
          }
          if j :| 0 <= j < |ls| && j != i && NameKey(ls[j]) == (name.value, ls[i].userId) {
            assert LabelId(ls[j]) != LabelId(ls[i]);
          }
        }
        if RenameCollides(ls, i, name.value) then Outcome(Reply(BadRequest(NameExists(kind))), ls)
        else
          RenameKeepsValid(ls, i, name.value, now);
          var after := ls[i := ls[i].(name := name.value, updatedAt := now)];
          Outcome(Ok(after[i]), after)
  }
}
