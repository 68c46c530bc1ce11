/** What the ordered map means: a list of entries with distinct keys in first-insertion order,
    and the log of the values handed to their destructors. */
module OrderedMapSpec {
  import opened Basics

  type Key = seq<Byte>

  /** A value is a pointer; `dtor` says whether a destructor came with it. */
  datatype Entry = Entry(key: Key, value: int, dtor: bool)

  datatype State = State(entries: seq<Entry>, destroyed: seq<int>)

  /** The position of a key, or the length of the list. */
  function IndexOf(c: seq<Entry>, key: Key): (i: nat)
    ensures i <= |c| && (i < |c| ==> c[i].key == key)
  {
    if c == [] then 0
    else if c[0].key == key then 0
    else 1 + IndexOf(c[1..], key)
  }

  /** Storing an entry: a known key keeps its place and its old value is destroyed; a new key
      goes to the end. */
  function Put(st: State, e: Entry): State
  {
    var i := IndexOf(st.entries, e.key);
    if i < |st.entries| then State(st.entries[i := e], st.destroyed + [st.entries[i].value])
    else State(st.entries + [e], st.destroyed)
  }

  function Get(st: State, key: Key): Option<int>
  {
    var i := IndexOf(st.entries, key);
    if i < |st.entries| then Some(st.entries[i].value) else None
  }

  /** The values whose destructor runs when the map is freed, in list order. */
  function Owned(c: seq<Entry>): seq<int>
  {
    if c == [] then []
    else
      var n := |c| - 1;
      if c[n].dtor then Owned(c[..n]) + [c[n].value] else Owned(c[..n])
  }

  /** Of each entry exactly if it came with a destructor, and in order. */
  lemma {:induction false} OwnedParts(a: seq<Entry>, b: seq<Entry>)
    ensures Owned([]) == [] && Owned(a + b) == Owned(a) + Owned(b)
    ensures |b| == 1 ==> Owned(b) == if b[0].dtor then [b[0].value] else []
    decreases |b|
  {
    if |b| == 1 { assert b[..0] == []; }
    if b == [] {
      assert a + b == a;
    } else {
      var n := |b| - 1;
      assert (a + b)[..|a + b| - 1] == a + b[..n];
      OwnedParts(a, b[..n]);
    }
  }

  ghost predicate DistinctKeys(c: seq<Entry>)
  {
    forall i, j :: 0 <= i < j < |c| ==> c[i].key != c[j].key
  }

  lemma {:induction false} IndexOfIsFirst(c: seq<Entry>, key: Key)
    ensures forall k :: 0 <= k < IndexOf(c, key) ==> c[k].key != key
  {
    if c != [] && c[0].key != key {
      IndexOfIsFirst(c[1..], key);
      forall k | 0 <= k < IndexOf(c, key) ensures c[k].key != key {
        if k > 0 { assert c[k] == c[1..][k - 1]; }
      }
    }
  }

  lemma IndexOfUnique(c: seq<Entry>, k: nat)
    requires DistinctKeys(c) && k < |c|
    ensures IndexOf(c, c[k].key) == k
  {
    IndexOfIsFirst(c, c[k].key);
  }

  // --------------------------------------------------------------- whole runs

  /** The state after a run of insertions into an empty map. */
  function Run(es: seq<Entry>): State
  {
    if es == [] then State([], [])
    else Put(Run(es[..|es| - 1]), es[|es| - 1])
  }

  /** The value of the last insertion under a key. */
  function LastFor(es: seq<Entry>, key: Key): Option<int>
  {
    if es == [] then None
    else if es[|es| - 1].key == key then Some(es[|es| - 1].value)
    else LastFor(es[..|es| - 1], key)
  }

  /** The keys of a run, each at its first occurrence. */
  function FirstKeys(es: seq<Entry>): seq<Key>
  {
    if es == [] then []
    else
      var ks := FirstKeys(es[..|es| - 1]);
      if es[|es| - 1].key in ks then ks else ks + [es[|es| - 1].key]
  }

  function KeysOf(c: seq<Entry>): (ks: seq<Key>)
    ensures |ks| == |c| && forall i :: 0 <= i < |c| ==> ks[i] == c[i].key
  {
    seq(|c|, i requires 0 <= i < |c| => c[i].key)
  }

  function ValuesOf(c: seq<Entry>): (vs: seq<int>)
    ensures |vs| == |c| && forall i :: 0 <= i < |c| ==> vs[i] == c[i].value
  {
    seq(|c|, i requires 0 <= i < |c| => c[i].value)
  }

  lemma IndexOfIn(c: seq<Entry>, key: Key)
    ensures key in KeysOf(c) <==> IndexOf(c, key) < |c|
  {
    IndexOfIsFirst(c, key);
  }

  /** One insertion: every key keeps its answer but the inserted one. */
  lemma PutGet(st: State, e: Entry, key: Key)
    requires DistinctKeys(st.entries)
    ensures Get(Put(st, e), key) == if key == e.key then Some(e.value) else Get(st, key)
    ensures DistinctKeys(Put(st, e).entries)
  {
    var c, c' := st.entries, Put(st, e).entries;
    IndexOfIsFirst(c, e.key);
    IndexOfIsFirst(c, key);
    IndexOfIsFirst(c', key);
    var i, j := IndexOf(c, e.key), IndexOf(c, key);
    if key == e.key {
      assert c'[i] == e;
      IndexOfUnique(c', i);
    } else if j < |c| {
      assert c'[j] == c[j];
      IndexOfUnique(c', j);
    }
  }

  /** Main result: after any run of insertions a key looks up the value inserted last under
      it, and the list shows each key once, in the order of first insertion. */
  lemma {:induction false} RunMeaning(es: seq<Entry>)
    ensures DistinctKeys(Run(es).entries)
    ensures KeysOf(Run(es).entries) == FirstKeys(es)
    ensures forall key :: Get(Run(es), key) == LastFor(es, key)
  {
    hide Put, Get;
    if es != [] {
      var n := |es| - 1;
      RunMeaning(es[..n]);
      forall key ensures Get(Run(es), key) == LastFor(es, key) {
        PutGet(Run(es[..n]), es[n], key);
      }
      PutGet(Run(es[..n]), es[n], es[n].key);
      PutKeys(Run(es[..n]), es[n]);
    } else {
      EmptyGet();
    }
  }

  lemma EmptyGet()
    ensures forall key :: Get(State([], []), key) == None
  {
  }

  lemma PutKeys(st: State, e: Entry)
    ensures var ks := KeysOf(st.entries);
            KeysOf(Put(st, e).entries) == if e.key in ks then ks else ks + [e.key]
  {
    IndexOfIn(st.entries, e.key);
  }

  /** Main result: when every insertion brings a destructor, the values destroyed during a run
      and the values still stored are together the inserted values, each as often as it was
      inserted; so once the map is freed each has been destroyed exactly once. */
  lemma {:induction false} EachDestroyedOnce(es: seq<Entry>)
    requires forall k :: 0 <= k < |es| ==> es[k].dtor
    ensures forall k :: 0 <= k < |Run(es).entries| ==> Run(es).entries[k].dtor
    ensures multiset(Run(es).destroyed) + multiset(ValuesOf(Run(es).entries)) == multiset(ValuesOf(es))
    ensures multiset(Run(es).destroyed + Owned(Run(es).entries)) == multiset(ValuesOf(es))
  {
    hide Put, Owned, ValuesOf;
    if es == [] {
      NoValues();
    } else {
      var n := |es| - 1;
      assert forall k :: 0 <= k < n ==> es[..n][k] == es[k];
      EachDestroyedOnce(es[..n]);
      PutDtor(Run(es[..n]), es[n]);
      PutConserves(Run(es[..n]), es[n]);
      assert ValuesOf(es) == ValuesOf(es[..n]) + [es[n].value];
    }
    OwnedAll(Run(es).entries);
  }

  lemma NoValues()
    ensures ValuesOf([]) == [] && Owned([]) == []
  {
  }

  lemma PutDtor(st: State, e: Entry)
    requires e.dtor && forall k :: 0 <= k < |st.entries| ==> st.entries[k].dtor
    ensures forall k :: 0 <= k < |Put(st, e).entries| ==> Put(st, e).entries[k].dtor
  {
  }

  lemma PutConserves(st: State, e: Entry)
    ensures multiset(Put(st, e).destroyed) + multiset(ValuesOf(Put(st, e).entries)) ==
            multiset(st.destroyed) + multiset(ValuesOf(st.entries)) + multiset{e.value}
  {
    var i := IndexOf(st.entries, e.key);
    if i < |st.entries| {
      assert ValuesOf(st.entries[i := e]) == ValuesOf(st.entries)[i := e.value];
    } else {
      assert ValuesOf(st.entries + [e]) == ValuesOf(st.entries) + [e.value];
    }
  }

  lemma {:induction false} OwnedAll(c: seq<Entry>)
    requires forall k :: 0 <= k < |c| ==> c[k].dtor
    ensures Owned(c) == ValuesOf(c)
  {
    if c != [] {
      OwnedAll(c[..|c| - 1]);
    }
  }
}
