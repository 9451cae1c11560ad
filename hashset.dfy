/**
 * The string hash set of src/hashset.c: a bucket array of chains, an insert
 * path that rejects duplicates and grows the array when a chain gets deep, a
 * lookup, and an iterator that walks every entry once.
 */
module HashSets {
  import opened Wrappers
  import opened Hashing
  import opened Primes
  import opened Chains

  /**
   * The size hashset_add_elem asks for when it resizes: get_prime(size * 1.5),
   * where `size * 1.5` converted back to `size_t` is `size + size / 2`. It is
   * the first number from there on that passes get_prime's test.
   */
  ghost function Grow(size: nat): (r: nat)
    ensures size + size / 2 <= r && NoSmallDivisor(r)
    ensures forall k :: size + size / 2 <= k < r ==> !NoSmallDivisor(k)
  {
    NextPrime(size + size / 2)
  }

  /** The size after k successive resizes. */
  ghost function GrowN(size: nat, k: nat): nat
    decreases k
  {
    if k == 0 then size else GrowN(Grow(size), k - 1)
  }

  /** Resizing a times and then b more times is resizing a + b times. */
  lemma {:induction false} GrowNAdd(size: nat, a: nat, b: nat, total: nat)
    requires total == a + b
    ensures GrowN(GrowN(size, a), b) == GrowN(size, total)
    decreases a
  {
    if a > 0 {
      GrowNAdd(Grow(size), a - 1, b, total - 1);
    }
  }

  /** From 2 on, a resize always makes the bucket array strictly larger, and prime. */
  lemma GrowIncreases(size: nat)
    requires size >= 2
    ensures Grow(size) >= size + size / 2 > size && IsPrime(Grow(size))
  {
    NextPrimeIsPrime(size + size / 2);
  }

  /** Any number of resizes from a size of at least 2 never shrinks it and grows it if there was one. */
  lemma {:induction false} GrowNIncreases(size: nat, k: nat)
    requires size >= 2
    ensures GrowN(size, k) >= size
    ensures k > 0 ==> GrowN(size, k) > size && IsPrime(GrowN(size, k))
    decreases k
  {
    if k > 0 {
      GrowIncreases(size);
      GrowNIncreases(Grow(size), k - 1);
    }
  }

  function Pow2(n: nat): (r: nat)
    ensures r >= 1
  {
    if n == 0 then 1 else 2 * Pow2(n - 1)
  }

  lemma {:induction false} Pow2Monotone(a: nat, b: nat)
    requires a <= b
    ensures Pow2(a) <= Pow2(b)
    decreases b
  {
    if a < b {
      Pow2Monotone(a, b - 1);
    }
  }

  /** The whole part of log2(n): the k with 2^k <= n < 2^(k+1). */
  function Log2Floor(n: nat): (k: nat)
    requires n >= 1
    ensures Pow2(k) <= n < Pow2(k + 1)
  {
    if n == 1 then 0 else Log2Floor(n / 2) + 1
  }

  /** For a whole number d and n >= 1, `2^d > n` holds iff d exceeds the whole part of log2(n). */
  lemma Pow2Threshold(deep: nat, size: nat)
    ensures size >= 1 ==> (Pow2(deep) > size <==> deep > Log2Floor(size))
  {
    if size >= 1 {
      var l := Log2Floor(size);
      if deep > l {
        Pow2Monotone(l + 1, deep);
      } else {
        Pow2Monotone(deep, l);
      }
    }
  }

  /**
   * The resize trigger `deep > log2(size)`, evaluated exactly: a whole number
   * exceeds log2(size) iff it exceeds its whole part, iff `2^deep > size`.
   * The C evaluates log2 in floating point.
   */
  predicate TooDeep(deep: nat, size: nat): (b: bool)
    ensures size >= 1 ==> (b <==> deep > Log2Floor(size))
  {
    Pow2Threshold(deep, size);
    Pow2(deep) > size
  }

  /** hashset_t: `size` buckets in `elems`, holding `count` entries in all. */
  class HashSet {
    var size: nat
    var count: nat
    var elems: array<seq<Key>>
    /** The keys stored, as a set. */
    ghost var Contents: set<Key>

    ghost predicate Valid()
      reads this, elems
    {
      && elems.Length == size
      && size >= 1
      && NoSmallDivisor(size)
      && WellPlaced(elems[..])
      && count == |Flatten(elems[..])|
      && Contents == Keys(Flatten(elems[..]))
      && |Contents| == count
    }

    /** Every entry, in the order the iterator visits them. */
    ghost function Entries(): seq<Key>
      reads this, elems
    {
      Flatten(elems[..])
    }

    /** `count` is the number of distinct keys stored, and no key is stored twice. */
    lemma CountIsNumberOfKeys()
      requires Valid()
      ensures Distinct(Entries()) && count == |Contents|
    {
      DistinctIffAllKeysCount(Entries());
    }

    /** A key is stored iff it is in the bucket its hash selects. */
    lemma StoredIffInOwnBucket(key: Key)
      requires Valid()
      ensures key in Contents <==> key in elems[Bucket(key, size)]
    {
      InOwnBucket(elems[..], key);
    }

    /**
     * new_hashset: get_prime(request) buckets, all empty. A request of 0 would
     * give 0 buckets and a division by zero on the first insert or lookup.
     */
    constructor (request: nat)
      requires request >= 1
      ensures Valid() && fresh(elems)
      ensures size == NextPrime(request) && count == 0 && Contents == {}
      ensures forall i :: 0 <= i < size ==> elems[i] == []
    {
      var n := GetPrime(request);
      size := n;
      count := 0;
      elems := new seq<Key>[n](_ => []);
      Contents := {};
      new;
      assert forall i :: 0 <= i < |elems[..]| ==> elems[..][i] == [];
      EmptyChains(elems[..]);
    }

    static lemma {:induction false} EmptyChains(b: seq<seq<Key>>)
      requires forall i :: 0 <= i < |b| ==> b[i] == []
      ensures Flatten(b) == []
    {
      if b != [] {
        EmptyChains(b[1..]);
      }
    }

    /**
     * hashset_add_key / hashset_add_elem. A key already present changes
     * nothing, and the index of its bucket is returned. An absent key is
     * prepended to its bucket and `count` goes up by one; if the walked chain
     * was too deep, the array is first rebuilt at get_prime(size * 1.5), and
     * nested resizes during that rebuild can grow it further: `grown` counts
     * the resizes, so the new size is GrowN(old size, grown).
     */
    method AddKey(key: Key) returns (index: nat, ghost grown: nat)
      requires Valid()
      modifies this, elems
      ensures Valid()
      ensures index < size && index == Bucket(key, size) && key in Contents
      ensures size == GrowN(old(size), grown)
      ensures key in old(Contents) ==>
        && grown == 0 && size == old(size) && count == old(count)
        && Contents == old(Contents) && elems == old(elems) && elems[..] == old(elems[..])
      ensures key !in old(Contents) ==>
        && Contents == old(Contents) + {key} && count == old(count) + 1
        && (grown > 0 <==> TooDeep(|old(elems[Bucket(key, size)])|, old(size)))
        && |elems[index]| > 0 && elems[index][0] == key
      ensures key !in old(Contents) && grown == 0 ==>
        elems == old(elems) && elems[..] == old(elems[..])[index := [key] + old(elems[index])]
      ensures key !in old(Contents) && grown > 0 ==> fresh(elems)
      decreases count, 4
    {
      var hash := SdbmHash(key);
      index := hash % size;
      grown := 0;
      var p := elems[index];
      var deep := 0;
      while deep < |p|
        invariant deep <= |p|
        invariant key !in p[..deep]
      {
        if p[deep] == key {
          StoredIffInOwnBucket(key);
          return;
        }
        deep := deep + 1;
      }
      assert p[..deep] == p;
      StoredIffInOwnBucket(key);
      if TooDeep(deep, size) {
        ghost var before := size;
        var newSize := GetPrime(size + size / 2);
        NextPrimeIdempotent(size + size / 2);
        assert newSize == NextPrime(newSize) == Grow(before);
        var g := Expand(newSize);
        grown := g + 1;
        assert size == GrowN(before, grown);
        index := hash % size;
        StoredIffInOwnBucket(key);
      }
      Link(index, key);
    }

    /**
     * The last step of hashset_add_elem: the entry becomes the head of its
     * bucket's chain and `count` goes up by one.
     */
    method Link(index: nat, key: Key)
      requires Valid() && key !in Contents && index == Bucket(key, size)
      modifies this, elems
      ensures Valid() && size == old(size) && elems == old(elems)
      ensures elems[..] == old(elems[..])[index := [key] + old(elems[index])]
      ensures count == old(count) + 1 && Contents == old(Contents) + {key}
    {
      ghost var b := elems[..];
      Prepend(b, key);
      elems[index] := [key] + elems[index];
      assert elems[..] == b[index := [key] + b[index]];
      count := count + 1;
      Contents := Contents + {key};
    }

    /**
     * hashset_expand: builds a fresh set of the requested size, moves every
     * entry into it through the insert path (in iteration order) and adopts
     * its size, count and bucket array. The keys and the count are unchanged.
     */
    method Expand(request: nat) returns (ghost grown: nat)
      requires Valid() && request >= 1
      modifies this
      ensures Valid() && fresh(elems)
      ensures Contents == old(Contents) && count == old(count)
      ensures size == GrowN(NextPrime(request), grown)
      decreases count, 2
    {
      var nset: HashSet;
      nset, grown := Rebuilt(request);
      size, count, elems := nset.size, nset.count, nset.elems;
      Contents := nset.Contents;
    }

    /**
     * The loop of hashset_expand: a new set of get_prime(request) buckets
     * into which every entry has been added, in iteration order.
     */
    method Rebuilt(request: nat) returns (nset: HashSet, ghost grown: nat)
      requires Valid() && request >= 1
      ensures fresh(nset) && fresh(nset.elems) && nset.Valid()
      ensures nset.Contents == Contents && nset.count == count
      ensures nset.size == GrowN(NextPrime(request), grown)
      decreases count, 1
    {
      nset := new HashSet(request);
      var it := new Iterator(this);
      grown := 0;
      while true
        invariant it.Valid() && it.table == this
        invariant fresh(nset) && fresh(nset.elems) && nset.Valid()
        invariant nset.Contents == Keys(it.Visited) && nset.count == |it.Visited|
        invariant nset.size == GrowN(NextPrime(request), grown)
        decreases |it.Remaining()|
      {
        ghost var visited := it.Visited;
        var e := it.Next();
        if e.None? {
          break;
        }
        NotBefore(visited, e.value, it.Remaining());
        var g := Move(nset, e.value, visited);
        ghost var before := grown;
        grown := grown + g;
        GrowNAdd(NextPrime(request), before, g, grown);
      }
    }

    /**
     * One turn of hashset_expand's loop: an entry not moved yet is added to
     * the set being rebuilt, which may itself resize `g` times.
     */
    static method Move(nset: HashSet, key: Key, ghost moved: seq<Key>) returns (ghost g: nat)
      requires nset.Valid() && nset.Contents == Keys(moved) && nset.count == |moved| && key !in moved
      modifies nset, nset.elems
      ensures nset.Valid() && nset.Contents == Keys(moved + [key]) && nset.count == |moved| + 1
      ensures nset.size == GrowN(old(nset.size), g)
      ensures nset.elems == old(nset.elems) || fresh(nset.elems)
      decreases |moved|, 5
    {
      var _, grown := nset.AddKey(key);
      g := grown;
      assert Keys(moved + [key]) == Keys(moved) + {key};
    }

    /**
     * hashset_find: looks only in the key's own bucket; finds an entry with
     * that key iff the key is stored.
     */
    method Find(key: Key) returns (entry: Option<Key>)
      requires Valid()
      ensures entry.Some? <==> key in Contents
      ensures entry.Some? ==> entry.value == key
    {
      var hash := SdbmHash(key);
      var p := elems[hash % size];
      var i := 0;
      while i < |p|
        invariant i <= |p|
        invariant key !in p[..i]
      {
        if p[i] == key {
          StoredIffInOwnBucket(key);
          return Some(p[i]);
        }
        i := i + 1;
      }
      assert p[..i] == p;
      StoredIffInOwnBucket(key);
      return None;
    }

    /**
     * hashset_map: calls the callback once per entry in iteration order. The
     * callback's effect on its argument is modelled by threading a context
     * value through the calls.
     */
    method Map<C>(context: C, func: (C, Key) -> C) returns (result: C)
      requires Valid()
      ensures result == Fold(func, context, Entries())
    {
      var it := new Iterator(this);
      result := context;
      while true
        invariant it.Valid() && it.table == this
        invariant Fold(func, result, it.Remaining()) == Fold(func, context, Entries())
        decreases |it.Remaining()|
      {
        var e := it.Next();
        if e.None? {
          break;
        }
        result := func(result, e.value);
      }
    }

    /**
     * free_hashset, as an iteration client: the entries it releases, in order.
     * Every stored key is released exactly once.
     */
    method Free() returns (released: seq<Key>)
      requires Valid()
      ensures released == Entries()
      ensures Distinct(released) && |released| == count && Keys(released) == Contents
    {
      var it := new Iterator(this);
      released := [];
      while true
        invariant it.Valid() && it.table == this
        invariant it.Visited == released
        decreases |it.Remaining()|
      {
        var e := it.Next();
        if e.None? {
          break;
        }
        released := released + [e.value];
      }
      CountIsNumberOfKeys();
    }
  }

  /**
   * A client run: a set created for 10 keys gets 11 buckets; inserting
   * "a", "b", "a" stores two keys; "a" is then found and "c" is not.
   */
  method ScenarioTen() returns (size: nat, count: nat, foundA: bool, foundC: bool)
    ensures size == 11 && count == 2 && foundA && !foundC
  {
    var s := new HashSet(10);
    NextPrimeOfTen();
    size := s.size;
    var _, _ := s.AddKey("a");
    var _, _ := s.AddKey("b");
    var _, _ := s.AddKey("a");
    count := s.count;
    var a := s.Find("a");
    var c := s.Find("c");
    foundA, foundC := a.Some?, c.Some?;
  }

  /** The callbacks of hashset_map applied in order, each to the previous context. */
  function Fold<C>(func: (C, Key) -> C, context: C, s: seq<Key>): C
  {
    if s == [] then context else Fold(func, func(context, s[0]), s[1..])
  }

  /**
   * The entries an iterator has still to return when it stands at bucket
   * `index` with `next` (a position in that chain, or None for NULL)
   * pre-fetched.
   */
  function RemainingFrom(b: seq<seq<Key>>, index: nat, next: Option<nat>): seq<Key>
  {
    if index >= |b| then []
    else
      (match next
       case Some(j) => if j <= |b[index]| then b[index][j..] else []
       case None => [])
      + Flatten(b[index + 1..])
  }

  /** Returning the pre-fetched entry j of chain `index` leaves the rest of that chain and the later chains. */
  lemma RemainingStep(b: seq<seq<Key>>, index: nat, j: nat)
    requires index < |b| && j < |b[index]|
    ensures RemainingFrom(b, index, Some(j))
         == [b[index][j]] + RemainingFrom(b, index, if j + 1 < |b[index]| then Some(j + 1) else None)
  {
    assert b[index][j..] == [b[index][j]] + b[index][j + 1..];
  }

  /** With nothing pre-fetched, moving to the next bucket and fetching its head loses no entry. */
  lemma RemainingSkip(b: seq<seq<Key>>, index: nat)
    requires index < |b|
    ensures index + 1 < |b| ==>
      RemainingFrom(b, index, None)
      == RemainingFrom(b, index + 1, if |b[index + 1]| > 0 then Some(0) else None)
    ensures index + 1 >= |b| ==> RemainingFrom(b, index, None) == []
  {
    if index + 1 < |b| {
      assert b[index + 1..] == [b[index + 1]] + b[index + 2..];
      assert b[index + 1..][1..] == b[index + 2..];
    }
  }

  /**
   * hashset_iterator_t: the bucket `index`, the entry `curr` last returned
   * and the pre-fetched `next` entry, given as its position in chain `index`;
   * `table` is the C field `set`.
   * The set must not change while the iterator is in use.
   */
  class Iterator {
    const table: HashSet
    var index: nat
    var curr: Option<Key>
    var next: Option<nat>
    /** The entries returned so far. */
    ghost var Visited: seq<Key>

    ghost function Remaining(): seq<Key>
      reads this, table, table.elems
    {
      RemainingFrom(table.elems[..], index, next)
    }

    /** The iterator's own invariant; the set it walks is assumed unchanged, not re-checked. */
    ghost predicate Valid()
      reads this, table, table.elems
    {
      && table.elems.Length == table.size
      && (index < table.size && next.Some? ==> next.value < |table.elems[index]|)
      && (index >= table.size ==> next.None?)
      && Visited + Remaining() == table.Entries()
    }

    /** hashset_it: positioned before bucket 0 with the head of bucket 0 pre-fetched. */
    constructor (s: HashSet)
      requires s.Valid()
      ensures Valid() && table == s
      ensures index == 0 && curr == None && Visited == [] && Remaining() == s.Entries()
    {
      table := s;
      index := 0;
      curr := None;
      next := if |s.elems[0]| > 0 then Some(0) else None;
      Visited := [];
      new;
      assert s.elems[..][1..] == s.elems[1..];
    }

    /**
     * hashset_it_next: returns the pre-fetched entry if there is one and
     * pre-fetches its successor, otherwise moves on to the next non-empty
     * bucket. Once every entry has been returned it returns NULL, on this and
     * every later call.
     */
    method Next() returns (e: Option<Key>)
      requires Valid()
      modifies this
      ensures Valid() && curr == e
      ensures e.None? <==> old(Remaining()) == []
      ensures e.Some? ==> e.value == old(Remaining())[0] && Remaining() == old(Remaining())[1..]
      ensures e.None? ==> Remaining() == []
      ensures Visited == old(Visited) + (if e.Some? then [e.value] else [])
    {
      if next.None? {
        Seek();
      }
      if next.Some? {
        Take();
      } else {
        curr := None;
      }
      e := curr;
    }

    /**
     * The found case of hashset_it_next: the pre-fetched entry becomes `curr`
     * and its successor in the chain, if any, is pre-fetched.
     */
    method Take()
      requires Valid() && next.Some?
      modifies this
      ensures Valid() && curr.Some?
      ensures old(Remaining()) == [curr.value] + Remaining()
      ensures Visited == old(Visited) + [curr.value]
    {
      ghost var b := table.elems[..];
      var j := next.value;
      curr := Some(table.elems[index][j]);
      RemainingStep(b, index, j);
      next := if j + 1 < |table.elems[index]| then Some(j + 1) else None;
      Visited := Visited + [curr.value];
      assert table.elems[..] == b;
    }

    /**
     * The `++index` loop of hashset_it_next, entered with nothing pre-fetched:
     * moves to the next non-empty bucket and pre-fetches its head, or moves
     * past the last bucket. No entry is skipped.
     */
    method Seek()
      requires Valid() && next.None?
      modifies this
      ensures Valid() && Visited == old(Visited) && Remaining() == old(Remaining())
      ensures next.Some? <==> Remaining() != []
      ensures index > old(index)
    {
      ghost var b := table.elems[..];
      ghost var rest := Remaining();
      while true
        invariant Valid() && next.None? && Visited == old(Visited) && index >= old(index)
        invariant rest == RemainingFrom(b, index, None)
        decreases table.size - index
      {
        if index < table.size {
          RemainingSkip(b, index);
        }
        index := index + 1;
        if index >= table.size {
          return;
        }
        if |table.elems[index]| > 0 {
          next := Some(0);
          return;
        }
      }
    }
  }
}
