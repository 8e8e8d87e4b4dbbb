/**
 * Sequence facts shared by the collections of the store: documents looked up by
 * a key, the single-document removal of findOneAndRemove, and duplicate-free
 * sequences.
 */
module Collections {
  import opened Wrappers

  /** Some element of `s` has key `k`. */
  predicate Has<T, K(==)>(s: seq<T>, key: T -> K, k: K) {
    exists i :: 0 <= i < |s| && key(s[i]) == k
  }

  /** No two positions of `s` share a key: what a unique index guarantees. */
  predicate UniqueKeys<T, K(==)>(s: seq<T>, key: T -> K) {
    forall i, j :: 0 <= i < |s| && 0 <= j < |s| && key(s[i]) == key(s[j]) ==> i == j
  }

  /** No element occurs twice. */
  predicate Distinct<T(==)>(s: seq<T>) {
    forall i, j :: 0 <= i < |s| && 0 <= j < |s| && s[i] == s[j] ==> i == j
  }

  /** The number of elements of `s` with key `k` (Model.count with a filter). */
  function Count<T, K(==)>(s: seq<T>, key: T -> K, k: K): (n: nat)
    ensures n <= |s|
    ensures n > 0 <==> Has(s, key, k)
    ensures UniqueKeys(s, key) ==> n <= 1
  {
    if s == [] then 0
    else
      var rest := Count(s[1..], key, k);
      HasCons(s, key, k);
      assert UniqueKeys(s, key) ==> UniqueKeys(s[1..], key) && (key(s[0]) == k ==> !Has(s[1..], key, k)) by {
        if UniqueKeys(s, key) {
          UniqueTail(s, key);
        }
      }
      (if key(s[0]) == k then 1 else 0) + rest
  }

  /** The position of the first element whose key is `k` (findOne). */
  function Find<T, K(==)>(s: seq<T>, key: T -> K, k: K): (r: Option<nat>)
    ensures r.None? <==> !Has(s, key, k)
    ensures r.Some? ==> r.value < |s| && key(s[r.value]) == k
    ensures r.Some? ==> forall j :: 0 <= j < r.value ==> key(s[j]) != k
  {
    if s == [] then None
    else
      HasCons(s, key, k);
      if key(s[0]) == k then Some(0)
      else
        match Find(s[1..], key, k)
        case None => None
        case Some(i) =>
          assert forall j :: 1 <= j < i + 1 ==> s[j] == s[1..][j - 1];
          Some(i + 1)
  }

  /** The first element whose key is `k` is dropped: findOneAndRemove. */
  function RemoveFirst<T, K(==)>(s: seq<T>, key: T -> K, k: K): (r: seq<T>)
    ensures !Has(s, key, k) ==> r == s
    ensures Has(s, key, k) ==> |r| == |s| - 1
    ensures multiset(r) <= multiset(s)
    ensures forall x :: x in s && key(x) != k ==> multiset(r)[x] == multiset(s)[x]
    ensures UniqueKeys(s, key) ==> !Has(r, key, k)
  {
    match Find(s, key, k)
    case None => s
    case Some(i) =>
      var r := s[..i] + s[i + 1..];
      assert s == s[..i] + [s[i]] + s[i + 1..];
      assert multiset(r) == multiset(s) - multiset{s[i]};
      if UniqueKeys(s, key) then
        forall j | 0 <= j < |r| ensures key(r[j]) != k {
          if j < i {
            assert r[j] == s[j];
          } else {
            assert r[j] == s[j + 1];
          }
        }
        r
      else
        r
  }

  /** Dropping one position keeps any key unique. */
  lemma UniqueAfterRemove<T, K, K2>(s: seq<T>, key: T -> K, k: K, key2: T -> K2)
    requires UniqueKeys(s, key2)
    ensures UniqueKeys(RemoveFirst(s, key, k), key2)
  {
    var f := Find(s, key, k);
    if f.Some? {
      var i := f.value;
      var r := s[..i] + s[i + 1..];
      assert RemoveFirst(s, key, k) == r;
      forall a, b | 0 <= a < |r| && 0 <= b < |r| && key2(r[a]) == key2(r[b]) ensures a == b {
        var a' := if a < i then a else a + 1;
        var b' := if b < i then b else b + 1;
        assert r[a] == s[a'] && r[b] == s[b'];
      }
    }
  }

  /** An element whose key differs from the removed one is still found afterwards. */
  lemma HasAfterRemove<T, K, K2>(s: seq<T>, key: T -> K, k: K, key2: T -> K2, k2: K2)
    requires Has(s, key2, k2)
    requires forall x :: key2(x) == k2 ==> key(x) != k
    ensures Has(RemoveFirst(s, key, k), key2, k2)
  {
    var i :| 0 <= i < |s| && key2(s[i]) == k2;
    var r := RemoveFirst(s, key, k);
    assert s[i] in s;
    assert multiset(r)[s[i]] == multiset(s)[s[i]] > 0;
    assert s[i] in r;
    var j :| 0 <= j < |r| && r[j] == s[i];
  }

  /** Every element of the result of a removal was an element of its input. */
  lemma RemoveFirstSubset<T, K>(s: seq<T>, key: T -> K, k: K)
    ensures forall x :: x in RemoveFirst(s, key, k) ==> x in s
  {
    var r := RemoveFirst(s, key, k);
    forall x | x in r ensures x in s {
      assert x in multiset(r);
    }
  }

  /** Appending an element whose key is new keeps the keys unique. */
  lemma UniqueAppend<T, K>(s: seq<T>, x: T, key: T -> K)
    requires UniqueKeys(s, key) && !Has(s, key, key(x))
    ensures UniqueKeys(s + [x], key)
  {
    var r := s + [x];
    forall i | 0 <= i < |s| ensures key(r[i]) != key(x) {
      assert r[i] == s[i];
    }
    forall i, j | 0 <= i < |r| && 0 <= j < |r| && key(r[i]) == key(r[j]) ensures i == j {
      if i < |s| && j < |s| {
        assert r[i] == s[i] && r[j] == s[j];
      }
    }
  }

  /** Whatever was found before an append is found after it. */
  lemma HasAppend<T, K>(s: seq<T>, x: T, key: T -> K, k: K)
    requires Has(s, key, k)
    ensures Has(s + [x], key, k)
  {
    var i :| 0 <= i < |s| && key(s[i]) == k;
    assert (s + [x])[i] == s[i];
  }

  /** Whether a non-empty sequence has key `k` is decided by its head and its tail. */
  lemma HasCons<T, K>(s: seq<T>, key: T -> K, k: K)
    requires s != []
    ensures Has(s, key, k) <==> key(s[0]) == k || Has(s[1..], key, k)
  {
    if Has(s[1..], key, k) {
      var i :| 0 <= i < |s[1..]| && key(s[1..][i]) == k;
      assert key(s[i + 1]) == k;
    }
    if Has(s, key, k) && key(s[0]) != k {
      var i :| 0 <= i < |s| && key(s[i]) == k;
      assert key(s[1..][i - 1]) == k;
    }
  }

  /** The tail of a unique sequence is unique, and no key in it is the head's. */
  lemma UniqueTail<T, K>(s: seq<T>, key: T -> K)
    requires s != [] && UniqueKeys(s, key)
    ensures UniqueKeys(s[1..], key)
    ensures forall x :: x in s[1..] ==> key(x) != key(s[0])
    ensures !Has(s[1..], key, key(s[0]))
  {
    forall i, j | 0 <= i < |s[1..]| && 0 <= j < |s[1..]| && key(s[1..][i]) == key(s[1..][j])
      ensures i == j
    {
      assert key(s[i + 1]) == key(s[j + 1]);
    }
    forall x | x in s[1..] ensures key(x) != key(s[0]) {
      var i :| 0 <= i < |s[1..]| && s[1..][i] == x;
      assert s[i + 1] == x;
    }
    forall i | 0 <= i < |s[1..]| ensures key(s[1..][i]) != key(s[0]) {
      assert s[1..][i] in s[1..];
    }
  }

  /** The set of elements of a non-empty sequence is its head's plus its tail's. */
  lemma ElementsCons<T>(s: seq<T>)
    requires s != []
    ensures (set x | x in s) == (set x | x in s[1..]) + {s[0]}
  {
    assert s == [s[0]] + s[1..];
  }

  /** A non-empty sequence is duplicate-free exactly when its tail is and its head does
      not occur in the tail. */
  lemma DistinctCons<T>(s: seq<T>)
    requires s != []
    ensures Distinct(s) <==> Distinct(s[1..]) && s[0] !in s[1..]
  {
    var tail := s[1..];
    if Distinct(s) {
      forall i, j | 0 <= i < |tail| && 0 <= j < |tail| && tail[i] == tail[j] ensures i == j {
        assert s[i + 1] == s[j + 1];
      }
      forall i | 0 <= i < |tail| ensures tail[i] != s[0] {
        assert s[i + 1] == tail[i];
      }
    }
    if Distinct(tail) && s[0] !in tail {
      forall i, j | 0 <= i < |s| && 0 <= j < |s| && s[i] == s[j] ensures i == j {
        if i > 0 && j > 0 {
          assert tail[i - 1] == tail[j - 1];
        }
      }
    }
  }

  /** A sequence has at most as many distinct elements as positions, and exactly as
      many when it has no duplicates. */
  lemma {:induction false} ElementsCardinality<T>(s: seq<T>)
    ensures |set x | x in s| <= |s|
    ensures |set x | x in s| == |s| <==> Distinct(s)
  {
    if s == [] {
      assert (set x | x in s) == {};
    } else {
      ElementsCardinality(s[1..]);
      ElementsCons(s);
      DistinctCons(s);
      var tailElems := set x | x in s[1..];
      if s[0] in s[1..] {
        assert s[0] in tailElems;
        assert tailElems + {s[0]} == tailElems;
      } else {
        assert s[0] !in tailElems;
        assert |tailElems + {s[0]}| == |tailElems| + 1;
      }
    }
  }

  /** A subset is no larger than its superset, and equally large only when equal. */
  lemma SubsetCardinality<T>(a: set<T>, b: set<T>)
    requires a <= b
    ensures |a| <= |b|
    ensures |a| == |b| ==> a == b
  {
    assert b == a + (b - a);
    assert a * (b - a) == {};
    if |a| == |b| {
      assert |b - a| == 0;
      assert b - a == {};
    }
  }
}
