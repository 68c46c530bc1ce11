/** The string-keyed hash map of the compiler state: open addressing with linear probing, and
    a doubly linked list threaded through the buckets in insertion order. */
module OrderedMap {
  import opened Basics
  import opened OrderedMapSpec

  /** A bucket.  `prev` and `next` are bucket indices; ListHead stands for the address of the
      map's own list field. */
  datatype Item = Item(prev: int, next: int, used: bool, hash: int, entry: Entry)

  const LIST_HEAD: int := -1
  const HASHMAP_INIT: nat := 64
  const FRESH_ITEM := Item(0, 0, false, 0, Entry([], 0, false))

  /** The djb hash on 32-bit `int`s, wrapped to two's complement. */
  function Djb(key: Key, x: int): (h: int)
    requires -0x8000_0000 <= x < 0x8000_0000
    ensures -0x8000_0000 <= h < 0x8000_0000
    decreases |key|
  {
    if key == [] then x
    else
      var c: int := key[0];
      Djb(key[1..], Int32(x * 32 + x + if c < 128 then c else c - 256))
  }

  function Int32(x: int): (r: int)
    ensures -0x8000_0000 <= r < 0x8000_0000
  {
    (x + 0x8000_0000) % 0x1_0000_0000 - 0x8000_0000
  }

  function DjbHash(key: Key): int { Djb(key, 5381) }

  /** The hash starts from 5381, and a byte at the end adds itself, signed, to 33 times the hash so
      far, modulo 2^32. */
  lemma {:induction false} DjbAppend(key: Key, c: Byte, x: int)
    requires -0x8000_0000 <= x < 0x8000_0000
    ensures DjbHash([]) == 5381
    ensures var k: int := if c < 128 then c else c - 256;
            (Djb(key + [c], x) - (33 * Djb(key, x) + k)) % 0x1_0000_0000 == 0
    decreases |key|
  {
    if key == [] {
      assert (key + [c])[1..] == [];
      var n := x * 32 + x + if c < 128 then c as int else c as int - 256;
      WrapDiffers(n);
    } else {
      var d: int := key[0];
      assert (key + [c])[1..] == key[1..] + [c];
      DjbAppend(key[1..], c, Int32(x * 32 + x + if d < 128 then d else d - 256));
    }
  }

  lemma WrapDiffers(n: int)
    ensures (Int32(n) - n) % 0x1_0000_0000 == 0
  {
    var m := n + 0x8000_0000;
    assert m == m / 0x1_0000_0000 * 0x1_0000_0000 + m % 0x1_0000_0000;
    assert Int32(n) - n == -(m / 0x1_0000_0000) * 0x1_0000_0000;
  }

  /** `hash % size` where hash is converted to a 64-bit `size_t` first. */
  function Home(hash: int, size: nat): (p: nat)
    requires 0 < size
    ensures p < size
  {
    hash % 0x1_0000_0000_0000_0000 % size
  }

  function Succ(p: nat, size: nat): (q: nat)
    requires p < size
    ensures q < size
  {
    if p + 1 == size then 0 else p + 1
  }

  lemma SuccIsMod(p: nat, size: nat)
    requires p < size
    ensures (p + 1) % size == Succ(p, size)
  {
    if p + 1 < size {
      assert (p + 1) % size == p + 1;
    } else {
      assert size % size == 0;
    }
  }

  /** How many steps lead from h to p. */
  function Dist(h: nat, p: nat, size: nat): (d: int)
  {
    if h <= p then p - h else p + size - h
  }

  // ----------------------------------------------------------- the invariant

  /** All buckets a probe from h passes before it comes to p are in use. */
  ghost predicate Reaches(b: seq<Item>, h: nat, p: nat)
  {
    forall q :: 0 <= q < |b| && Dist(h, q, |b|) < Dist(h, p, |b|) ==> b[q].used
  }

  /** `order` lists the used buckets, each once. */
  ghost predicate Slots(b: seq<Item>, order: seq<nat>)
  {
    && (forall i :: 0 <= i < |order| ==> order[i] < |b| && b[order[i]].used)
    && (forall i, j :: 0 <= i < j < |order| ==> order[i] != order[j])
    && (forall p: nat :: p < |b| && b[p].used ==> p in order)
  }

  function After(order: seq<nat>, i: nat): int { if i + 1 < |order| then order[i + 1] else LIST_HEAD }

  function Before(order: seq<nat>, i: nat): int { if 0 < i <= |order| then order[i - 1] else LIST_HEAD }

  /** The list starts at `first`, ends at `last` and visits the buckets in that order. */
  ghost predicate Threaded(b: seq<Item>, order: seq<nat>, first: int, last: int)
  {
    && (forall i :: 0 <= i < |order| ==> order[i] < |b|)
    && first == (if order == [] then LIST_HEAD else order[0])
    && last == (if order == [] then LIST_HEAD else order[|order| - 1])
    && (forall i :: 0 <= i < |order| ==> b[order[i]].next == After(order, i) && b[order[i]].prev == Before(order, i))
  }

  /** Every entry can be found from its home bucket, and no key occurs twice. */
  ghost predicate Probed(b: seq<Item>)
  {
    && 0 < |b|
    && (forall p: nat :: p < |b| && b[p].used ==>
          b[p].hash == DjbHash(b[p].entry.key) && Reaches(b, Home(b[p].hash, |b|), p))
    && (forall p, q :: 0 <= p < q < |b| && b[p].used && b[q].used ==> b[p].entry.key != b[q].entry.key)
  }

  ghost predicate TableOk(b: seq<Item>, order: seq<nat>, first: int, last: int)
  {
    Slots(b, order) && Threaded(b, order, first, last) && Probed(b)
  }

  /** The entries in list order. */
  ghost function Entries(b: seq<Item>, order: seq<nat>): (c: seq<Entry>)
    requires Slots(b, order)
    ensures |c| == |order| && forall i :: 0 <= i < |c| ==> c[i] == b[order[i]].entry
  {
    seq(|order|, i requires 0 <= i < |order| => b[order[i]].entry)
  }

  ghost predicate Lacks(b: seq<Item>, key: Key)
  {
    forall p :: 0 <= p < |b| && b[p].used ==> b[p].entry.key != key
  }

  // ------------------------------------------------------------------ lemmas

  lemma {:induction false} DistinctFit(order: seq<nat>, size: nat)
    requires forall i :: 0 <= i < |order| ==> order[i] < size
    requires forall i, j :: 0 <= i < j < |order| ==> order[i] != order[j]
    requires forall p: nat :: p < size ==> p in order
    ensures size <= |order|
    decreases size
  {
    if size != 0 {
      assert size - 1 in order;
      var k :| 0 <= k < |order| && order[k] == size - 1;
      var rest := order[..k] + order[k + 1..];
      forall p: nat | p < size - 1 ensures p in rest {
        assert p in order;
        var i :| 0 <= i < |order| && order[i] == p;
        assert rest[if i < k then i else i - 1] == p;
      }
      DistinctFit(rest, size - 1);
    }
  }

  /** With a free bucket a probe never comes back to where it began. */
  lemma ProbeGoesOn(b: seq<Item>, order: seq<nat>, h: nat, p: nat)
    requires Slots(b, order) && |order| < |b| && h < |b| && p < |b|
    requires Reaches(b, h, p) && b[p].used
    ensures Succ(p, |b|) != h && Dist(h, Succ(p, |b|), |b|) == Dist(h, p, |b|) + 1
    ensures Reaches(b, h, Succ(p, |b|))
  {
    if Succ(p, |b|) == h {
      forall q: nat | q < |b| ensures q in order {
        assert Dist(h, q, |b|) <= Dist(h, p, |b|);
        assert Dist(h, q, |b|) == Dist(h, p, |b|) ==> q == p;
      }
      DistinctFit(order, |b|);
      assert false;
    }
    forall q | 0 <= q < |b| && Dist(h, q, |b|) < Dist(h, Succ(p, |b|), |b|) ensures b[q].used {
      assert Dist(h, q, |b|) == Dist(h, p, |b|) ==> q == p;
    }
  }

  /** What linking a new item into bucket p does to the buckets. */
  function Placed(b: seq<Item>, p: nat, last: int, hash: int, e: Entry): (b': seq<Item>)
    requires p < |b| && -1 <= last < |b|
    ensures |b'| == |b|
  {
    var b1 := b[p := Item(last, LIST_HEAD, true, hash, e)];
    if last == LIST_HEAD then b1 else b1[last := b1[last].(next := p)]
  }

  lemma PlacedFacts(b: seq<Item>, order: seq<nat>, first: int, last: int, p: nat, hash: int, e: Entry)
    requires TableOk(b, order, first, last) && p < |b| && !b[p].used
    ensures -1 <= last < |b| && last != p
    ensures var b' := Placed(b, p, last, hash, e);
            forall q :: 0 <= q < |b| && q != p ==>
              b'[q].used == b[q].used && b'[q].hash == b[q].hash && b'[q].entry == b[q].entry && b'[q].prev == b[q].prev
    ensures var b' := Placed(b, p, last, hash, e);
            (forall q :: 0 <= q < |b| && q != p && q != last ==> b'[q] == b[q])
              && b'[p] == Item(last, LIST_HEAD, true, hash, e)
  {
  }

  lemma PlaceSlots(b: seq<Item>, order: seq<nat>, first: int, last: int, p: nat, hash: int, e: Entry)
    requires TableOk(b, order, first, last) && Slots(b, order) && p < |b| && !b[p].used && -1 <= last < |b|
    ensures Slots(Placed(b, p, last, hash, e), order + [p])
  {
    hide Probed, Placed, Threaded, TableOk;
    PlacedFacts(b, order, first, last, p, hash, e);
    var b', o := Placed(b, p, last, hash, e), order + [p];
    assert p !in order;
    forall q: nat | q < |b'| && b'[q].used ensures q in o {
      if q != p { assert b[q].used && q in order; }
    }
  }

  lemma PlaceThreads(b: seq<Item>, order: seq<nat>, first: int, last: int, p: nat, hash: int, e: Entry)
    requires TableOk(b, order, first, last) && p < |b| && !b[p].used && -1 <= last < |b|
    ensures Threaded(Placed(b, p, last, hash, e), order + [p], if order == [] then p else first, p)
  {
    hide Probed, Placed;
    PlacedFacts(b, order, first, last, p, hash, e);
    var b', o := Placed(b, p, last, hash, e), order + [p];
    PlacedLast(b, p, last, hash, e);
    forall i | 0 <= i < |o| ensures b'[o[i]].next == After(o, i) && b'[o[i]].prev == Before(o, i) {
      if i < |order| {
        assert order[i] != p && b[order[i]].next == After(order, i) && b[order[i]].prev == Before(order, i);
        if i + 1 < |order| { assert order[i] != order[|order| - 1]; }
      }
    }
  }

  lemma PlacedLast(b: seq<Item>, p: nat, last: int, hash: int, e: Entry)
    requires p < |b| && -1 <= last < |b|
    ensures last != LIST_HEAD ==> Placed(b, p, last, hash, e)[last].next == p
  {
  }

  lemma PlaceProbes(b: seq<Item>, order: seq<nat>, first: int, last: int, p: nat, e: Entry)
    requires TableOk(b, order, first, last) && p < |b| && !b[p].used && -1 <= last < |b|
    requires Reaches(b, Home(DjbHash(e.key), |b|), p) && Lacks(b, e.key)
    ensures Probed(Placed(b, p, last, DjbHash(e.key), e))
  {
    hide Home, DjbHash, Placed, Slots, Threaded;
    PlacedFacts(b, order, first, last, p, DjbHash(e.key), e);
  }

  lemma PlaceEntries(b: seq<Item>, order: seq<nat>, first: int, last: int, p: nat, hash: int, e: Entry)
    requires TableOk(b, order, first, last) && p < |b| && !b[p].used && -1 <= last < |b|
    requires Slots(Placed(b, p, last, hash, e), order + [p])
    ensures Entries(Placed(b, p, last, hash, e), order + [p]) == Entries(b, order) + [e]
  {
    hide Placed, Probed;
    PlacedFacts(b, order, first, last, p, hash, e);
  }

  ghost predicate Misses(b: seq<Item>, h: nat, p: nat, key: Key)
  {
    forall q :: 0 <= q < |b| && Dist(h, q, |b|) < Dist(h, p, |b|) ==> b[q].entry.key != key
  }

  /** A probe that comes to a free bucket has seen every place where the key could be. */
  lemma ProbeMiss(b: seq<Item>, p: nat, key: Key)
    requires Probed(b) && p < |b| && !b[p].used
    requires Misses(b, Home(DjbHash(key), |b|), p, key)
    ensures Lacks(b, key)
  {
    hide Home, DjbHash;
    var h := Home(DjbHash(key), |b|);
    forall q: nat | q < |b| && b[q].used ensures b[q].entry.key != key {
      assert Reaches(b, Home(b[q].hash, |b|), q);
      assert Dist(h, p, |b|) == Dist(h, q, |b|) ==> p == q;
    }
  }

  lemma MissOn(b: seq<Item>, h: nat, p: nat, key: Key)
    requires p < |b| && h < |b| && Misses(b, h, p, key) && b[p].entry.key != key
    requires Dist(h, Succ(p, |b|), |b|) == Dist(h, p, |b|) + 1
    ensures Misses(b, h, Succ(p, |b|), key)
  {
    forall q | 0 <= q < |b| && Dist(h, q, |b|) < Dist(h, Succ(p, |b|), |b|) ensures b[q].entry.key != key {
      assert Dist(h, q, |b|) == Dist(h, p, |b|) ==> q == p;
    }
  }

  lemma LacksMeans(b: seq<Item>, order: seq<nat>, key: Key)
    requires Slots(b, order) && Lacks(b, key)
    ensures IndexOf(Entries(b, order), key) == |order|
  {
  }

  lemma EntriesDistinct(b: seq<Item>, order: seq<nat>, first: int, last: int)
    requires TableOk(b, order, first, last)
    ensures DistinctKeys(Entries(b, order))
  {
    hide Home, DjbHash;
    forall i, j | 0 <= i < j < |order| ensures b[order[i]].entry.key != b[order[j]].entry.key {
      assert order[i] != order[j];
    }
  }

  /** Replacing the entry in a used bucket by one with the same key. */
  lemma Overwritten(b: seq<Item>, order: seq<nat>, first: int, last: int, p: nat, e: Entry)
    requires TableOk(b, order, first, last) && p < |b| && b[p].used && e.key == b[p].entry.key
    ensures var b' := b[p := b[p].(entry := e)]; var i := IndexOf(Entries(b, order), e.key);
            && TableOk(b', order, first, last) && i < |order| && order[i] == p
            && Entries(b', order) == Entries(b, order)[i := e]
  {
    hide Probed, Threaded, Entries, IndexOf;
    var k := PlaceOf(b, order, p);
    EntriesDistinct(b, order, first, last);
    IndexOfUnique(Entries(b, order), k);
    OverwrittenOk(b, order, first, last, p, e);
    OverwrittenEntries(b, order, k, e);
  }

  lemma PlaceOf(b: seq<Item>, order: seq<nat>, p: nat) returns (k: nat)
    requires Slots(b, order) && p < |b| && b[p].used
    ensures k < |order| && order[k] == p
  {
    assert p in order;
    k :| 0 <= k < |order| && order[k] == p;
  }

  lemma OverwrittenEntries(b: seq<Item>, order: seq<nat>, k: nat, e: Entry)
    requires Slots(b, order) && k < |order| && Slots(b[order[k] := b[order[k]].(entry := e)], order)
    ensures Entries(b[order[k] := b[order[k]].(entry := e)], order) == Entries(b, order)[k := e]
  {
  }

  lemma OverwrittenOk(b: seq<Item>, order: seq<nat>, first: int, last: int, p: nat, e: Entry)
    requires TableOk(b, order, first, last) && p < |b| && b[p].used && e.key == b[p].entry.key
    ensures TableOk(b[p := b[p].(entry := e)], order, first, last)
  {
    hide Home, DjbHash, Before, After;
  }

  /** An entry that comes later in one table is not yet in another that holds what precedes it. */
  lemma LaterKeyIsNew(b: seq<Item>, order: seq<nat>, first: int, last: int, k: nat, nb: seq<Item>, norder: seq<nat>)
    requires TableOk(b, order, first, last) && k < |order| && Slots(nb, norder)
    requires Entries(nb, norder) == Entries(b, order)[..k]
    ensures Lacks(nb, b[order[k]].entry.key)
  {
    hide Probed, Threaded;
    EntriesDistinct(b, order, first, last);
    var c := Entries(b, order);
    forall p: nat | p < |nb| && nb[p].used ensures nb[p].entry.key != b[order[k]].entry.key {
      assert p in norder;
      var i :| 0 <= i < |norder| && norder[i] == p;
      assert Entries(nb, norder)[i] == c[i];
      assert c[i].key != c[k].key;
    }
  }

  lemma EmptyOk(b: seq<Item>)
    requires 0 < |b| && forall p :: 0 <= p < |b| ==> b[p] == FRESH_ITEM
    ensures TableOk(b, [], LIST_HEAD, LIST_HEAD) && Entries(b, []) == []
  {
  }

  lemma PlaceOk(b: seq<Item>, order: seq<nat>, first: int, last: int, p: nat, e: Entry)
    requires TableOk(b, order, first, last) && p < |b| && !b[p].used
    requires Reaches(b, Home(DjbHash(e.key), |b|), p) && Lacks(b, e.key)
    ensures -1 <= last < |b| && (last == LIST_HEAD || 0 <= last)
    ensures var b' := Placed(b, p, last, DjbHash(e.key), e);
            && TableOk(b', order + [p], if order == [] then p else first, p)
            && Entries(b', order + [p]) == Entries(b, order) + [e]
  {
    hide Probed, Slots, Threaded, Placed, Reaches, Lacks, Home, DjbHash;
    var hash := DjbHash(e.key);
    PlacedFacts(b, order, first, last, p, hash, e);
    PlaceSlots(b, order, first, last, p, hash, e);
    PlaceThreads(b, order, first, last, p, hash, e);
    PlaceProbes(b, order, first, last, p, e);
    PlaceEntries(b, order, first, last, p, hash, e);
  }

  /** Stores an entry in a free bucket and appends the bucket to the list. */
  method Link(bucket: array<Item>, first: int, last: int, p: nat, hash: int, e: Entry, ghost order: seq<nat>)
    returns (first': int, last': int)
    requires TableOk(bucket[..], order, first, last) && p < bucket.Length && !bucket[p].used
    requires hash == DjbHash(e.key)
    requires Reaches(bucket[..], Home(hash, bucket.Length), p) && Lacks(bucket[..], e.key)
    modifies bucket
    ensures TableOk(bucket[..], order + [p], first', last')
    ensures Entries(bucket[..], order + [p]) == Entries(old(bucket[..]), order) + [e]
  {
    hide *;
    PlaceOk(bucket[..], order, first, last, p, e);
    ghost var want := Placed(bucket[..], p, last, hash, e);
    PlacedIs(bucket[..], p, last, hash, e);
    EmptyListEnds(bucket[..], order, first, last);
    bucket[p] := Item(last, LIST_HEAD, true, hash, e);
    first' := first;
    if last == LIST_HEAD {
      first' := p;
    } else {
      bucket[last] := bucket[last].(next := p);
    }
    last' := p;
    assert bucket[..] == want;
  }

  lemma EmptyListEnds(b: seq<Item>, order: seq<nat>, first: int, last: int)
    requires TableOk(b, order, first, last)
    ensures order == [] <==> last == LIST_HEAD
  {
  }

  /** Probes for the first free bucket from a home position. */
  method FreeBucket(bucket: array<Item>, hash: int, ghost order: seq<nat>) returns (p: nat)
    requires Slots(bucket[..], order) && |order| < bucket.Length
    ensures p < bucket.Length && !bucket[p].used && Reaches(bucket[..], Home(hash, bucket.Length), p)
  {
    hide *;
    var size := bucket.Length;
    ghost var h := Home(hash, size);
    p := hash % 0x1_0000_0000_0000_0000 % size;
    HomeIs(hash, size);
    ReachesHome(bucket[..], h);
    DistBound(h, p, size);
    while bucket[p].used
      invariant p < size && Reaches(bucket[..], h, p) && 0 <= Dist(h, p, size) < size
      decreases size - Dist(h, p, size)
    {
      ProbeGoesOn(bucket[..], order, h, p);
      SuccIsMod(p, size);
      p := p + 1;
      p := p % size;
      DistBound(h, p, size);
    }
  }

  /** Copies the listed items into a fresh table of another size, in list order. */
  method Rehash(from: array<Item>, list: int, ghost listPrev: int, ghost order: seq<nat>, size: nat)
    returns (bucket: array<Item>, first: int, last: int, ghost norder: seq<nat>)
    requires TableOk(from[..], order, list, listPrev) && |order| < size
    ensures fresh(bucket) && bucket.Length == size && |norder| == |order|
    ensures TableOk(bucket[..], norder, first, last)
    ensures Entries(bucket[..], norder) == Entries(from[..], order)
  {
    hide Probed, Slots, Threaded, Placed, Reaches, Lacks, Home, DjbHash, Succ, Dist, Entries, After;
    bucket := new Item[size](_ => FRESH_ITEM);
    first, last, norder := LIST_HEAD, LIST_HEAD, [];
    EmptyOk(bucket[..]);
    var node := list;
    ghost var k := 0;
    assert bucket[..] == bucket[..] && Entries(from[..], order)[..0] == [];
    ListStep(from[..], order, list, listPrev);
    while node != LIST_HEAD
      invariant k <= |order| && node == NodeAt(order, k)
      invariant fresh(bucket) && bucket.Length == size && |norder| == k
      invariant TableOk(bucket[..], norder, first, last)
      invariant Entries(bucket[..], norder) == Entries(from[..], order)[..k]
      decreases |order| - k
    {
      ListNode(from[..], order, list, listPrev, k);
      var item := from[node];
      LaterKeyIsNew(from[..], order, list, listPrev, k, bucket[..], norder);
      var p := FreeBucket(bucket, item.hash, norder);
      first, last := Link(bucket, first, last, p, item.hash, item.entry, norder);
      norder := norder + [p];
      node := item.next;
      assert Entries(from[..], order)[..k + 1] == Entries(from[..], order)[..k] + [item.entry];
      k := k + 1;
    }
  }

  /** The node a walk along the list has reached after k steps. */
  ghost function NodeAt(order: seq<nat>, k: nat): int { if k < |order| then order[k] else LIST_HEAD }

  lemma ListStep(b: seq<Item>, order: seq<nat>, first: int, last: int)
    requires TableOk(b, order, first, last)
    ensures first == NodeAt(order, 0)
  {
  }

  /** What a walk along the list finds at its k-th node. */
  lemma ListNode(b: seq<Item>, order: seq<nat>, first: int, last: int, k: nat)
    requires TableOk(b, order, first, last) && k <= |order| && NodeAt(order, k) != LIST_HEAD
    ensures k < |order| && order[k] < |b| && b[order[k]].next == NodeAt(order, k + 1)
    ensures b[order[k]].used && b[order[k]].hash == DjbHash(b[order[k]].entry.key)
    ensures Entries(b, order)[k] == b[order[k]].entry
  {
    hide Reaches, Home, DjbHash;
    assert b[order[k]].next == After(order, k);
  }

  lemma HomeIs(hash: int, size: nat)
    requires 0 < size
    ensures Home(hash, size) == hash % 0x1_0000_0000_0000_0000 % size
  {
  }

  lemma ReachesHome(b: seq<Item>, h: nat)
    requires h < |b|
    ensures Reaches(b, h, h)
    ensures forall key :: Misses(b, h, h, key)
  {
  }

  lemma DistBound(h: nat, p: nat, size: nat)
    requires h < size && p < size
    ensures 0 <= Dist(h, p, size) < size
  {
  }

  lemma PlacedIs(b: seq<Item>, p: nat, last: int, hash: int, e: Entry)
    requires p < |b| && -1 <= last < |b|
    ensures var b1 := b[p := Item(last, LIST_HEAD, true, hash, e)];
            Placed(b, p, last, hash, e) == if last == LIST_HEAD then b1 else b1[last := b1[last].(next := p)]
  {
  }

  class HashMap {
    var bucket: array<Item>
    var count: nat
    var first: int           // list.next
    var last: int            // list.prev
    var live: bool           // bucket != NULL
    var destroyed: seq<int>  // the values whose destructor has run
    ghost var order: seq<nat>

    ghost predicate Valid()
      reads this, bucket
    {
      && TableOk(bucket[..], order, first, last)
      && (live ==> count == |order| && HASHMAP_INIT <= bucket.Length && 4 * count < 3 * bucket.Length)
      && (!live ==> order == [])
    }

    ghost function View(): State
      reads this, bucket
      requires Valid()
    {
      State(Entries(bucket[..], order), destroyed)
    }

    constructor ()
      ensures Valid() && View() == State([], []) && live && fresh(bucket) && bucket.Length == 64
    {
      var b := new Item[HASHMAP_INIT](_ => FRESH_ITEM);
      EmptyOk(b[..]);
      bucket, count, live, destroyed := b, 0, true, [];
      first, last, order := LIST_HEAD, LIST_HEAD, [];
    }

    /** Stores a value under a key.  A value that is replaced goes to the destructor it was
        stored with, which the caller of that earlier insertion must have supplied. */
    method Insert(key: Key, value: int, dtor: bool)
      requires Valid() && live
      requires var i := IndexOf(View().entries, key); i < |View().entries| ==> View().entries[i].dtor
      modifies this, bucket
      ensures Valid() && live && View() == Put(old(View()), Entry(key, value, dtor))
      ensures bucket == old(bucket) || fresh(bucket)
    {
      hide Reaches, Home, DjbHash, Succ, Dist, Misses, Slots, Threaded, Probed, Lacks, IndexOf;
      var hash := HashOf(key);
      var size := bucket.Length;
      ghost var h := Home(hash, size);
      var pos: nat := hash % 0x1_0000_0000_0000_0000 % size;
      HomeIs(hash, size);
      ReachesHome(bucket[..], h);
      DistBound(h, pos, size);
      while bucket[pos].used
        invariant pos < size && Reaches(bucket[..], h, pos) && 0 <= Dist(h, pos, size) < size
        invariant Misses(bucket[..], h, pos, key)
        invariant unchanged(this) && bucket[..] == old(bucket[..])
        decreases size - Dist(h, pos, size)
      {
        UsedHash(bucket[..], pos);
        if bucket[pos].hash == hash && bucket[pos].entry.key == key {
          Overwritten(bucket[..], order, first, last, pos, Entry(key, value, dtor));
          destroyed := destroyed + [bucket[pos].entry.value];
          ghost var b := bucket[..];
          bucket[pos] := bucket[pos].(entry := Entry(bucket[pos].entry.key, value, dtor));
          assert bucket[..] == b[pos := b[pos].(entry := Entry(key, value, dtor))];
          return;
        }
        ProbeGoesOn(bucket[..], order, h, pos);
        MissOn(bucket[..], h, pos, key);
        SuccIsMod(pos, size);
        pos := pos + 1;
        pos := pos % size;
        DistBound(h, pos, size);
      }
      ProbeMiss(bucket[..], pos, key);
      LacksMeans(bucket[..], order, key);
      first, last := Link(bucket, first, last, pos, hash, Entry(key, value, dtor), order);
      order := order + [pos];
      count := count + 1;
      if 4 * count >= 3 * size {
        bucket, first, last, order := Rehash(bucket, first, last, order, size * 2);
      }
    }

    /** The value stored under a key, if any. */
    method Lookup(key: Key) returns (r: Option<int>)
      requires Valid() && live
      ensures r == Get(View(), key)
    {
      hide Reaches, Home, DjbHash, Succ, Dist, Misses, Slots, Threaded, Probed, Lacks, IndexOf;
      var hash := HashOf(key);
      var size := bucket.Length;
      ghost var h := Home(hash, size);
      var pos: nat := hash % 0x1_0000_0000_0000_0000 % size;
      HomeIs(hash, size);
      ReachesHome(bucket[..], h);
      DistBound(h, pos, size);
      while bucket[pos].used
        invariant pos < size && Reaches(bucket[..], h, pos) && 0 <= Dist(h, pos, size) < size
        invariant Misses(bucket[..], h, pos, key)
        decreases size - Dist(h, pos, size)
      {
        UsedHash(bucket[..], pos);
        if bucket[pos].hash == hash && bucket[pos].entry.key == key {
          Overwritten(bucket[..], order, first, last, pos, bucket[pos].entry);
          return Some(bucket[pos].entry.value);
        }
        ProbeGoesOn(bucket[..], order, h, pos);
        MissOn(bucket[..], h, pos, key);
        SuccIsMod(pos, size);
        pos := pos + 1;
        pos := pos % size;
        DistBound(h, pos, size);
      }
      ProbeMiss(bucket[..], pos, key);
      LacksMeans(bucket[..], order, key);
      r := None;
    }

    /** Runs the destructors along the list. */
    method RunDestructors()
      requires Valid()
      modifies `destroyed
      ensures destroyed == old(destroyed) + Owned(View().entries)
    {
      hide Slots, Threaded, Probed, Entries, After;
      var node := first;
      ghost var k := 0;
      ghost var c := Entries(bucket[..], order);
      ListStep(bucket[..], order, first, last);
      while node != LIST_HEAD
        invariant k <= |order| && node == NodeAt(order, k)
        invariant destroyed == old(destroyed) + Owned(c[..k])
        decreases |order| - k
      {
        ListNode(bucket[..], order, first, last, k);
        var item := bucket[node];
        assert c[..k + 1][..k] == c[..k];
        if item.used && item.entry.dtor {
          destroyed := destroyed + [item.entry.value];
        }
        node := item.next;
        k := k + 1;
      }
      assert c[..k] == c;
    }

    /** Runs the destructors along the list and gives up the table. */
    method Free()
      requires Valid()
      modifies this
      ensures Valid() && !live
      ensures View() == State([], old(View()).destroyed + Owned(old(View()).entries))
    {
      hide Reaches, Home, DjbHash, Succ, Dist, Slots, Probed, Threaded;
      if !live {
        assert Entries(bucket[..], order) == [] && destroyed == destroyed + [];
        return;
      }
      RunDestructors();
      var b := new Item[1](_ => FRESH_ITEM);
      EmptyOk(b[..]);
      bucket, live, first, last, order := b, false, LIST_HEAD, LIST_HEAD, [];
    }
  }

  lemma UsedHash(b: seq<Item>, p: nat)
    requires Probed(b) && p < |b| && b[p].used
    ensures b[p].hash == DjbHash(b[p].entry.key)
  {
  }

  method HashOf(key: Key) returns (x: int)
    ensures x == DjbHash(key)
  {
    x := 5381;
    var i := 0;
    while i < |key|
      invariant i <= |key| && -0x8000_0000 <= x < 0x8000_0000
      invariant Djb(key[i..], x) == DjbHash(key)
    {
      assert key[i..][1..] == key[i + 1..];
      var c: int := key[i];
      x := Int32(x * 32 + x + if c < 128 then c else c - 256);
      i := i + 1;
    }
  }
}
