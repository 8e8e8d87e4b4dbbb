/**
 * What a Folder or Tag delete does to the Note collection (routes/folders.js and
 * routes/tags.js): `updateMany({ folderId: id }, { $unset: { folderId: '' } })` and
 * `updateMany({ tags: id }, { $pull: { tags: id } })`. Neither filter is scoped to
 * the caller, and both run whether or not a Folder or Tag was removed. Matched
 * notes get the update's timestamp, as Mongoose does for update queries on a
 * schema with timestamps.
 */
module Cascade {
  import opened Wrappers
  import opened ObjectIds
  import opened Collections
  import opened Models

  /** `$unset` on one note matched by `{ folderId: id }`. */
  function ClearFolder(n: Note, id: Id, now: nat): Note {
    if n.folderId == Some(id) then n.(folderId := None, updatedAt := now) else n
  }

  /** The folder cascade over the whole collection. */
  function UnsetFolder(ns: seq<Note>, id: Id, now: nat): (r: seq<Note>)
    ensures |r| == |ns|
    ensures forall i :: 0 <= i < |r| ==> r[i].folderId != Some(id)
    ensures forall i :: 0 <= i < |r| && ns[i].folderId != Some(id) ==> r[i] == ns[i]
    ensures forall i :: 0 <= i < |r| && ns[i].folderId == Some(id)
              ==> r[i] == ns[i].(folderId := None, updatedAt := now)
  {
    if ns == [] then []
    else
      var rest := UnsetFolder(ns[1..], id, now);
      assert forall i :: 1 <= i < |ns| ==> ns[i] == ns[1..][i - 1];
      [ClearFolder(ns[0], id, now)] + rest
  }

  /** `$pull`: every occurrence of `x` leaves the list, the rest keep their order. */
  function Without(ids: seq<Id>, x: Id): (r: seq<Id>)
    ensures x !in r
    ensures forall y :: y != x ==> multiset(r)[y] == multiset(ids)[y]
    ensures Distinct(ids) ==> Distinct(r)
  {
    if ids == [] then []
    else
      var rest := Without(ids[1..], x);
      assert ids == [ids[0]] + ids[1..];
      if ids[0] == x then
        assert Distinct(ids) ==> Distinct(rest) by {
          if Distinct(ids) {
            DistinctCons(ids);
          }
        }
        rest
      else
        var r := [ids[0]] + rest;
        assert Distinct(ids) ==> Distinct(r) by {
          if Distinct(ids) {
            DistinctCons(ids);
            assert ids[0] !in multiset(ids[1..]);
            assert ids[0] !in multiset(rest);
            DistinctCons(r);
          }
        }
        r
  }

  /** `$pull` of an id the list does not hold changes nothing, and exactly then. */
  lemma {:induction false} WithoutAbsent(ids: seq<Id>, x: Id)
    ensures Without(ids, x) == ids <==> x !in ids
  {
    if ids != [] {
      WithoutAbsent(ids[1..], x);
      assert ids == [ids[0]] + ids[1..];
    }
  }

  /** One step of `$pull`: the head goes when it is the pulled id. */
  lemma WithoutCons(h: Id, rest: seq<Id>, x: Id)
    ensures Without([h] + rest, x) == (if h == x then [] else [h]) + Without(rest, x)
  {
    assert ([h] + rest)[1..] == rest;
  }

  /** Sequence concatenation regrouped around a common head. */
  lemma RegroupHead(hd: seq<Id>, l: seq<Id>, r: seq<Id>, tail: seq<Id>, whole: seq<Id>, front: seq<Id>)
    requires whole == hd + tail && front == hd + l && tail == l + r
    ensures whole == front + r
  {
  }

  /** `$pull` keeps the relative order: pulling from a concatenation pulls from each part. */
  lemma {:induction false} WithoutConcat(a: seq<Id>, b: seq<Id>, x: Id)
    ensures Without(a + b, x) == Without(a, x) + Without(b, x)
  {
    if a != [] {
      var h, t := a[0], a[1..];
      WithoutConcat(t, b, x);
      assert a == [h] + t;
      assert a + b == [h] + (t + b);
      WithoutCons(h, t + b, x);
      WithoutCons(h, t, x);
      RegroupHead(if h == x then [] else [h], Without(t, x), Without(b, x),
                  Without(t + b, x), Without(a + b, x), Without(a, x));
    } else {
      assert a + b == b;
    }
  }

  /** The tag cascade on one note matched by `{ tags: id }`. */
  function PullFrom(n: Note, id: Id, now: nat): Note {
    if id in n.tags then n.(tags := Without(n.tags, id), updatedAt := now) else n
  }

  /** The tag cascade over the whole collection. */
  function PullTag(ns: seq<Note>, id: Id, now: nat): (r: seq<Note>)
    ensures |r| == |ns|
    ensures forall i :: 0 <= i < |r| ==> id !in r[i].tags
    ensures forall i :: 0 <= i < |r| && id !in ns[i].tags ==> r[i] == ns[i]
    ensures forall i :: 0 <= i < |r| && id in ns[i].tags
              ==> r[i] == ns[i].(tags := Without(ns[i].tags, id), updatedAt := now)
  {
    if ns == [] then []
    else
      var rest := PullTag(ns[1..], id, now);
      assert forall i :: 1 <= i < |ns| ==> ns[i] == ns[1..][i - 1];
      [PullFrom(ns[0], id, now)] + rest
  }

  /** Running the folder cascade again, at any time, changes nothing. */
  lemma UnsetFolderIdempotent(ns: seq<Note>, id: Id, now: nat, later: nat)
    ensures UnsetFolder(UnsetFolder(ns, id, now), id, later) == UnsetFolder(ns, id, now)
  {
  }

  /** Running the tag cascade again, at any time, changes nothing. */
  lemma PullTagIdempotent(ns: seq<Note>, id: Id, now: nat, later: nat)
    ensures PullTag(PullTag(ns, id, now), id, later) == PullTag(ns, id, now)
  {
  }

  /** Deleting the folder `(id, userId)` and unsetting `id` everywhere leaves every
      note's references intact: cleared notes reference nothing, and every other note
      references a folder that is not the removed one. */
  lemma {:induction false} FolderDeleteKeepsRefs(ns: seq<Note>, fs: seq<Label>, ts: seq<Label>,
                                                 id: Id, userId: Id, now: nat)
    requires RefsIntact(ns, fs, ts)
    ensures RefsIntact(UnsetFolder(ns, id, now), RemoveFirst(fs, LabelScope, (id, userId)), ts)
  {
    var r := UnsetFolder(ns, id, now);
    var fs' := RemoveFirst(fs, LabelScope, (id, userId));
    forall i | 0 <= i < |r| ensures RefsOk(r[i], fs', ts) {
      assert RefsOk(ns[i], fs, ts);
      if r[i].folderId.Some? {
        var f := r[i].folderId.value;
        assert f != id && ns[i].folderId == Some(f);
        HasAfterRemove(fs, LabelScope, (id, userId), LabelScope, (f, r[i].userId));
      }
    }
  }

  /** Deleting the tag `(id, userId)` and pulling `id` everywhere leaves every note's
      references intact. */
  lemma {:induction false} TagDeleteKeepsRefs(ns: seq<Note>, fs: seq<Label>, ts: seq<Label>,
                                              id: Id, userId: Id, now: nat)
    requires RefsIntact(ns, fs, ts)
    ensures RefsIntact(PullTag(ns, id, now), fs, RemoveFirst(ts, LabelScope, (id, userId)))
  {
    var r := PullTag(ns, id, now);
    var ts' := RemoveFirst(ts, LabelScope, (id, userId));
    forall i | 0 <= i < |r| ensures RefsOk(r[i], fs, ts') {
      assert RefsOk(ns[i], fs, ts);
      forall j | 0 <= j < |r[i].tags| ensures Has(ts', LabelScope, (r[i].tags[j], r[i].userId)) {
        var t := r[i].tags[j];
        assert t != id;
        assert t in multiset(r[i].tags);
        assert t in multiset(ns[i].tags);
        var k :| 0 <= k < |ns[i].tags| && ns[i].tags[k] == t;
        HasAfterRemove(ts, LabelScope, (id, userId), LabelScope, (t, r[i].userId));
      }
    }
  }
}
