/**
 * The bucket array of the hash set viewed as a value: a sequence of chains,
 * each chain a sequence of keys with its head at index 0. These are the facts
 * about that view that the set's operations rely on.
 */
module Chains {
  import opened Hashing

  /** A key: the C string an entry owns. */
  type Key = string

  /** HASH_TO_INDEX: the bucket a key belongs in. */
  function Bucket(key: Key, size: nat): (i: nat)
    requires size > 0
    ensures i < size
  {
    Sdbm(key) % size
  }

  /** All entries, bucket by bucket in ascending order, each chain head to tail. */
  function Flatten(b: seq<seq<Key>>): seq<Key>
  {
    if b == [] then [] else b[0] + Flatten(b[1..])
  }

  ghost function Keys(s: seq<Key>): set<Key>
  {
    set k | k in s
  }

  ghost predicate Distinct(s: seq<Key>)
  {
    forall i, j :: 0 <= i < j < |s| ==> s[i] != s[j]
  }

  /** Every key sits in bucket `hash(key) % size`, where size is the number of buckets. */
  ghost predicate WellPlaced(b: seq<seq<Key>>)
  {
    |b| > 0 &&
    forall i, j :: 0 <= i < |b| && 0 <= j < |b[i]| ==> Bucket(b[i][j], |b|) == i
  }

  lemma {:induction false} FlattenConcat(x: seq<seq<Key>>, y: seq<seq<Key>>)
    ensures Flatten(x + y) == Flatten(x) + Flatten(y)
  {
    if x == [] {
      assert x + y == y;
    } else {
      assert (x + y)[1..] == x[1..] + y;
      FlattenConcat(x[1..], y);
    }
  }

  /** The entries are exactly the keys found in some chain. */
  lemma {:induction false} InFlatten(b: seq<seq<Key>>, k: Key)
    ensures k in Flatten(b) <==> exists i :: 0 <= i < |b| && k in b[i]
  {
    if b != [] {
      InFlatten(b[1..], k);
      if k in Flatten(b[1..]) {
        var i :| 0 <= i < |b[1..]| && k in b[1..][i];
        assert k in b[i + 1];
      }
      if exists i :: 0 <= i < |b| && k in b[i] {
        var i :| 0 <= i < |b| && k in b[i];
        if i > 0 {
          assert k in b[1..][i - 1];
        }
      }
    }
  }

  /** In a well placed array, a key is stored iff it is in its own bucket. */
  lemma InOwnBucket(b: seq<seq<Key>>, k: Key)
    requires WellPlaced(b)
    ensures k in Flatten(b) <==> k in b[Bucket(k, |b|)]
  {
    InFlatten(b, k);
    if k in Flatten(b) {
      var i :| 0 <= i < |b| && k in b[i];
      var j :| 0 <= j < |b[i]| && b[i][j] == k;
      assert Bucket(b[i][j], |b|) == i;
    }
  }

  /** A sequence without repeats has as many distinct keys as elements. */
  lemma {:induction false} DistinctCardinality(s: seq<Key>)
    requires Distinct(s)
    ensures |Keys(s)| == |s|
  {
    if s != [] {
      assert Distinct(s[1..]) by {
        forall i, j | 0 <= i < j < |s[1..]|
          ensures s[1..][i] != s[1..][j]
        {
          assert s[1..][i] == s[i + 1] && s[1..][j] == s[j + 1];
        }
      }
      DistinctCardinality(s[1..]);
      assert Keys(s) == {s[0]} + Keys(s[1..]);
      assert s[0] !in Keys(s[1..]);
    }
  }

  /** A sequence never has more distinct keys than elements. */
  lemma {:induction false} KeysBound(s: seq<Key>)
    ensures |Keys(s)| <= |s|
  {
    if s != [] {
      KeysBound(s[1..]);
      assert Keys(s) == {s[0]} + Keys(s[1..]);
    }
  }

  /** A sequence repeats no key iff it has as many distinct keys as elements. */
  lemma DistinctIffAllKeysCount(s: seq<Key>)
    ensures Distinct(s) <==> |Keys(s)| == |s|
  {
    if Distinct(s) {
      DistinctCardinality(s);
    } else {
      var i, j :| 0 <= i < j < |s| && s[i] == s[j];
      var t := s[..j] + s[j + 1..];
      forall x | x in Keys(s)
        ensures x in Keys(t)
      {
        var m :| 0 <= m < |s| && s[m] == x;
        if m < j {
          assert t[m] == x;
        } else if m == j {
          assert t[i] == x;
        } else {
          assert t[m - 1] == x;
        }
      }
      forall x | x in Keys(t)
        ensures x in Keys(s)
      {
        var m :| 0 <= m < |t| && t[m] == x;
        if m < j {
          assert s[m] == x;
        } else {
          assert s[m + 1] == x;
        }
      }
      assert Keys(s) == Keys(t);
      KeysBound(t);
    }
  }

  /**
   * In a sequence with as many distinct keys as elements, the key at
   * position |a| does not occur before it.
   */
  lemma NotBefore(a: seq<Key>, k: Key, rest: seq<Key>)
    requires |Keys(a + [k] + rest)| == |a| + 1 + |rest|
    ensures k !in a
  {
    if k in a {
      assert Keys(a + [k] + rest) == Keys(a + rest);
      KeysBound(a + rest);
    }
  }

  /** Replacing one chain replaces its stretch of the flattened entries. */
  lemma FlattenUpdate(b: seq<seq<Key>>, i: nat, c: seq<Key>)
    requires i < |b|
    ensures Flatten(b) == Flatten(b[..i]) + b[i] + Flatten(b[i + 1..])
    ensures Flatten(b[i := c]) == Flatten(b[..i]) + c + Flatten(b[i + 1..])
  {
    assert b == b[..i] + [b[i]] + b[i + 1..];
    assert b[i := c] == b[..i] + [c] + b[i + 1..];
    FlattenConcat(b[..i] + [b[i]], b[i + 1..]);
    FlattenConcat(b[..i], [b[i]]);
    FlattenConcat(b[..i] + [c], b[i + 1..]);
    FlattenConcat(b[..i], [c]);
    assert Flatten([b[i]]) == b[i] + Flatten([]);
    assert Flatten([c]) == c + Flatten([]);
  }

  /** Prepending a key to its own bucket keeps every key in its own bucket. */
  lemma PrependWellPlaced(b: seq<seq<Key>>, k: Key)
    requires WellPlaced(b)
    ensures var i := Bucket(k, |b|); WellPlaced(b[i := [k] + b[i]])
  {
    var i := Bucket(k, |b|);
    var c := [k] + b[i];
    var b' := b[i := c];
    forall x, y | 0 <= x < |b'| && 0 <= y < |b'[x]|
      ensures Bucket(b'[x][y], |b'|) == x
    {
      if x == i && y > 0 {
        assert b'[x][y] == b[i][y - 1];
      }
    }
  }

  /**
   * Prepending a key to its own bucket keeps every key in its own bucket,
   * adds one entry and adds exactly that key.
   */
  lemma Prepend(b: seq<seq<Key>>, k: Key)
    requires WellPlaced(b)
    ensures var i := Bucket(k, |b|);
      var b' := b[i := [k] + b[i]];
      && WellPlaced(b')
      && |Flatten(b')| == |Flatten(b)| + 1
      && Keys(Flatten(b')) == Keys(Flatten(b)) + {k}
  {
    var i := Bucket(k, |b|);
    PrependWellPlaced(b, k);
    FlattenUpdate(b, i, [k] + b[i]);
    var pre, post := Flatten(b[..i]), Flatten(b[i + 1..]);
    assert Flatten(b[i := [k] + b[i]]) == pre + [k] + b[i] + post;
  }
}
