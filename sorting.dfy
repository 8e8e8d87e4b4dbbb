/**
 * The two orders the list routes ask MongoDB for: `.sort('name')` on folders and
 * tags and `.sort({ updatedAt: 'desc' })` on notes, as insertion sorts whose
 * results are proved ordered and to be permutations of their inputs.
 */
module Sorting {
  import opened Text
  import opened Models

  /** Ascending by name. */
  predicate SortedByName(ls: seq<Label>) {
    forall i, j :: 0 <= i < j < |ls| ==> NameLe(ls[i].name, ls[j].name)
  }

  /** Most recently updated first. */
  predicate SortedByRecency(ns: seq<Note>) {
    forall i, j :: 0 <= i < j < |ns| ==> ns[i].updatedAt >= ns[j].updatedAt
  }

  function InsertByName(l: Label, ls: seq<Label>): (r: seq<Label>)
    requires SortedByName(ls)
    ensures SortedByName(r)
    ensures multiset(r) == multiset(ls) + multiset{l}
  {
    if ls == [] then [l]
    else if NameLe(l.name, ls[0].name) then
      PrependSmallest(l, ls);
      [l] + ls
    else
      var rest := InsertByName(l, ls[1..]);
      NameLeTotal(l.name, ls[0].name);
      assert ls == [ls[0]] + ls[1..];
      PrependBelow(ls[0], rest, l, ls[1..]);
      [ls[0]] + rest
  }

  /** A label no greater than the head of a sorted sequence can go in front of it. */
  lemma PrependSmallest(l: Label, ls: seq<Label>)
    requires ls != [] && SortedByName(ls) && NameLe(l.name, ls[0].name)
    ensures SortedByName([l] + ls)
  {
    var r := [l] + ls;
    forall i, j | 0 <= i < j < |r| ensures NameLe(r[i].name, r[j].name) {
      if i == 0 {
        if j > 1 {
          NameLeTransitive(l.name, ls[0].name, ls[j - 1].name);
        }
      } else {
        assert r[i] == ls[i - 1] && r[j] == ls[j - 1];
      }
    }
  }

  /** `h` can go in front of a sorted sequence made of `x` and elements of `pool`
      when `h` is no greater than any of them. */
  lemma PrependBelow(h: Label, rest: seq<Label>, x: Label, pool: seq<Label>)
    requires SortedByName(rest)
    requires multiset(rest) == multiset(pool) + multiset{x}
    requires NameLe(h.name, x.name)
    requires forall j :: 0 <= j < |pool| ==> NameLe(h.name, pool[j].name)
    ensures SortedByName([h] + rest)
  {
    var r := [h] + rest;
    forall k | 0 <= k < |rest| ensures NameLe(h.name, rest[k].name) {
      assert rest[k] in multiset(rest);
      if rest[k] != x {
        assert rest[k] in multiset(pool);
        var j :| 0 <= j < |pool| && pool[j] == rest[k];
      }
    }
    forall i, j | 0 <= i < j < |r| ensures NameLe(r[i].name, r[j].name) {
      if i == 0 {
        assert r[j] == rest[j - 1];
      } else {
        assert r[i] == rest[i - 1] && r[j] == rest[j - 1];
      }
    }
  }

  /** The folders or tags in ascending name order. */
  function SortByName(ls: seq<Label>): (r: seq<Label>)
    ensures SortedByName(r)
    ensures multiset(r) == multiset(ls)
  {
    if ls == [] then []
    else
      assert ls == [ls[0]] + ls[1..];
      InsertByName(ls[0], SortByName(ls[1..]))
  }

  function InsertByRecency(n: Note, ns: seq<Note>): (r: seq<Note>)
    requires SortedByRecency(ns)
    ensures SortedByRecency(r)
    ensures multiset(r) == multiset(ns) + multiset{n}
  {
    if ns == [] then [n]
    else if n.updatedAt >= ns[0].updatedAt then [n] + ns
    else
      var rest := InsertByRecency(n, ns[1..]);
      forall x | x in rest ensures ns[0].updatedAt >= x.updatedAt {
        assert x in multiset(rest);
        if x != n {
          assert x in multiset(ns[1..]);
          var j :| 0 <= j < |ns[1..]| && ns[1..][j] == x;
          assert ns[j + 1] == x;
        }
      }
      assert ns == [ns[0]] + ns[1..];
      [ns[0]] + rest
  }

  /** The notes, most recently updated first. */
  function SortByRecency(ns: seq<Note>): (r: seq<Note>)
    ensures SortedByRecency(r)
    ensures multiset(r) == multiset(ns)
  {
    if ns == [] then []
    else
      assert ns == [ns[0]] + ns[1..];
      InsertByRecency(ns[0], SortByRecency(ns[1..]))
  }
}
