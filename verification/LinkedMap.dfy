/**
 The insertion-ordered Map polyfill: a doubly linked list with a key index, whose
 iterators survive deletion. A removed entry keeps its link to the entry that was
 before it; an iterator resting on it walks back over removed entries to a live one.
 */
module LinkedMap {
  import opened EntryLists
  import opened Options
  import opened Sequences

  class Entry<K, V> {
    const k: K
    var v: V
    var p: Entry?<K, V>
    var n: Entry?<K, V>
    var r: bool
    ghost const id: nat  // how many entries were created before this one

    constructor (k: K, v: V, p: Entry?<K, V>, ghost id: nat)
      ensures this.k == k && this.v == v && this.p == p && n == null && !r && this.id == id
    {
      this.k, this.v, this.p, this.n, this.r := k, v, p, null, false;
      this.id := id;
    }
  }

  /**
   How keys are told apart. A frozen key is an object that was frozen before it was first
   used; the index cannot hold it, so it is looked for by walking the list with the loose
   comparison, which converts the object and can hold between different keys.
   */
  datatype Keys<!K> = Keys(frozen: K -> bool, loose: (K, K) -> bool)

  /** The lookup for k takes an entry of key a. */
  predicate Matches<K(==)>(keys: Keys<K>, a: K, k: K) {
    a == k || (keys.frozen(k) && keys.loose(a, k))
  }

  /** The entry that the lookup for k finds, or the length of the list. */
  function Located<K(==), V>(keys: Keys<K>, es: seq<(K, V)>, k: K): (i: nat)
    ensures i <= |es|
    ensures i < |es| ==> Matches(keys, es[i].0, k)
    ensures forall j :: 0 <= j < i ==> !Matches(keys, es[j].0, k)
  {
    if es == [] then 0 else if Matches(keys, es[0].0, k) then 0 else 1 + Located(keys, es[1..], k)
  }

  /** The contents after `set`: the entry found keeps its key. */
  function Stored<K(==), V>(keys: Keys<K>, es: seq<(K, V)>, k: K, v: V): seq<(K, V)> {
    var i := Located(keys, es, k);
    if i < |es| then es[i := (es[i].0, v)] else es + [(k, v)]
  }

  /** The contents after `delete`. */
  function Removed<K(==), V>(keys: Keys<K>, es: seq<(K, V)>, k: K): seq<(K, V)> {
    var i := Located(keys, es, k);
    if i < |es| then es[..i] + es[i + 1..] else es
  }

  // ----- the loose comparison

  /** No entry before the place of k, or anywhere if k is absent, has a key that is loosely equal to the frozen k. */
  ghost predicate Unmistaken<K, V>(keys: Keys<K>, es: seq<(K, V)>, k: K) {
    var ok := keys.frozen(k) ==> forall j :: 0 <= j < Find(es, k) ==> !keys.loose(es[j].0, k);
    ok
  }

  /** The lookup finds the right entry, or rightly none, if and only if no other key is mistaken for k. */
  lemma LocatedIff<K, V>(keys: Keys<K>, es: seq<(K, V)>, k: K)
    ensures Located(keys, es, k) == Find(es, k) <==> Unmistaken(keys, es, k)
  {
    var i, j := Located(keys, es, k), Find(es, k);
    if i < j {
      assert es[i].0 != k;
    }
  }

  /** `set` is that of an ordered dictionary if and only if the lookup is right,
      or both entries held the value before. */
  lemma StoredIff<K, V>(keys: Keys<K>, es: seq<(K, V)>, k: K, v: V)
    requires DistinctKeys(es)
    ensures Stored(keys, es, k, v) == EntryLists.Put(es, k, v) <==>
            || Unmistaken(keys, es, k)
            || (Has(es, k) && es[Find(es, k)].1 == v && es[Located(keys, es, k)].1 == v)
  {
    LocatedIff(keys, es, k);
    var i, j := Located(keys, es, k), Find(es, k);
    if j < |es| {
      OverwriteAt(es, j, v);
      if i < j {
        assert es[i := (es[i].0, v)][i] == (es[i].0, v) && es[j := (k, v)][i] == es[i];
        assert es[i := (es[i].0, v)][j] == es[j] && es[j := (k, v)][j] == (k, v);
      }
    }
  }

  /** `delete` is that of an ordered dictionary if and only if the lookup is right. */
  lemma RemovedIff<K, V>(keys: Keys<K>, es: seq<(K, V)>, k: K)
    requires DistinctKeys(es)
    ensures Removed(keys, es, k) == EntryLists.Without(es, k) <==> Unmistaken(keys, es, k)
  {
    LocatedIff(keys, es, k);
    var i, j := Located(keys, es, k), Find(es, k);
    if j < |es| {
      WithoutAt(es, j);
      if i < j {
        assert (es[..i] + es[i + 1..])[i] == es[i + 1] && (es[..j] + es[j + 1..])[i] == es[i];
      }
    } else {
      EntryLists.WithoutAbsent(es, k);
    }
  }

  datatype Sample = Text | FrozenText

  /** A frozen array around a text is taken for the text: it overwrites that entry, and deletes it. */
  lemma FrozenKeyMistaken(keys: Keys<Sample>)
    requires keys == Keys(k => k == FrozenText, (a, b) => true)
    ensures Stored(keys, [(Text, 1)], FrozenText, 2) == [(Text, 2)]
    ensures EntryLists.Put([(Text, 1)], FrozenText, 2) == [(Text, 1), (FrozenText, 2)]
    ensures Removed(keys, [(Text, 1)], FrozenText) == []
  {
  }

  class Collection<K(==), V> {
    const keys: Keys<K>
    var first: Entry?<K, V>
    var last: Entry?<K, V>
    var index: map<K, Entry<K, V>>
    var size: int
    ghost var history: seq<Entry<K, V>>  // every entry ever created, oldest first
    ghost var live: seq<Entry<K, V>>     // the entries now in the list, in order

    /** Every entry ever created knows its place in the history; the live ones are in order. */
    ghost predicate Recorded()
      reads this`history, this`live, history`r, live`r
    {
      var ok :=
        && (forall i :: 0 <= i < |history| ==> history[i].id == i)
        && (forall e :: e in live ==> e in history && !e.r)
        && (forall e :: e in history && !e.r ==> e in live)
        && (forall i, j :: 0 <= i < j < |live| ==> live[i].id < live[j].id && live[i].k != live[j].k);
      ok
    }

    /** The live entries form the doubly linked list. */
    ghost predicate Linked()
      reads this`first, this`last, this`live, live`p, live`n
    {
      var ok :=
        && first == (if live == [] then null else live[0])
        && last == (if live == [] then null else live[|live| - 1])
        && forall i {:trigger LinkedAt(i)} :: 0 <= i < |live| ==> LinkedAt(i);
      ok
    }

    ghost predicate LinkedAt(i: int)
      requires 0 <= i < |live|
      reads this`live, live`p, live`n
    {
      live[i].p == Before(i) && live[i].n == After(i)
    }

    /** The live neighbours of place i. */
    ghost function Before(i: int): Entry?<K, V>
      reads this`live
    {
      if 0 < i <= |live| then live[i - 1] else null
    }

    ghost function After(i: int): Entry?<K, V>
      reads this`live
    {
      if 0 <= i < |live| - 1 then live[i + 1] else null
    }

    /** A link back skips only removed entries, whatever else it points to. */
    ghost predicate BackLinks()
      reads this`history, this`live, history`p
    {
      forall e {:trigger BackLink(e)} :: e in history ==> BackLink(e)
    }

    ghost predicate BackLink(e: Entry<K, V>)
      reads this`history, this`live, e`p
    {
      if e.p == null then NoneBetween(0, e.id)
      else e.p in history && e.p.id < e.id && NoneBetween(e.p.id + 1, e.id)
    }

    ghost predicate NoneBetween(lo: int, hi: int)
      reads this`live
    {
      forall e :: e in live ==> !(lo <= e.id < hi)
    }

    ghost predicate Indexed()
      reads this`live, this`index
    {
      var ok :=
        && (forall k :: k in index ==> !keys.frozen(k) && index[k] in live && index[k].k == k)
        && (forall e :: e in live && !keys.frozen(e.k) ==> e.k in index);
      ok
    }

    ghost predicate Valid()
      reads this, history`r, history`p, live`r, live`p, live`n
    {
      var valid := Recorded() && Linked() && BackLinks() && Indexed() && size == |live|;
      valid
    }

    ghost function Contents(): seq<(K, V)>
      reads this, live
    {
      seq(|live|, i requires 0 <= i < |live| reads this, live => (live[i].k, live[i].v))
    }

    constructor (keys: Keys<K>)
      ensures Valid() && this.keys == keys && history == [] && Contents() == []
    {
      this.keys := keys;
      first, last, index, size := null, null, map[], 0;
      history, live := [], [];
    }

    /** The live entry at i is the first that the lookup for k takes. */
    lemma FindLive(k: K, i: nat)
      requires i < |live| && Matches(keys, live[i].k, k)
      requires forall j :: 0 <= j < i ==> !Matches(keys, live[j].k, k)
      ensures Located(keys, Contents(), k) == i
    {
      var j := Located(keys, Contents(), k);
      assert Contents()[i] == (live[i].k, live[i].v);
      if j < |live| { assert Contents()[j] == (live[j].k, live[j].v); }
    }

    lemma FindNone(k: K)
      requires forall e :: e in live ==> !Matches(keys, e.k, k)
      ensures Located(keys, Contents(), k) == |live|
    {
    }

    /** Walks the list for a key; i is the place of the entry found. */
    method Scan(k: K) returns (e: Entry?<K, V>, ghost i: nat)
      requires Valid() && keys.frozen(k)
      ensures if e != null then i < |live| && live[i] == e && Matches(keys, e.k, k) else i == |live|
      ensures forall j :: 0 <= j < i ==> !Matches(keys, live[j].k, k)
    {
      e, i := first, 0;
      while e != null && !(e.k == k || keys.loose(e.k, k))
        invariant 0 <= i <= |live|
        invariant if i == |live| then e == null else e == live[i]
        invariant forall j :: 0 <= j < i ==> !Matches(keys, live[j].k, k)
        decreases |live| - i
      {
        assert LinkedAt(i);
        e, i := e.n, i + 1;
      }
    }

    lemma ContentsDistinct()
      requires Recorded()
      ensures DistinctKeys(Contents())
    {
    }

    lemma StoredRight(es: seq<(K, V)>, k: K, v: V)
      requires Recorded() && es == Contents()
      ensures Unmistaken(keys, es, k) ==> Stored(keys, es, k, v) == EntryLists.Put(es, k, v)
    {
      ContentsDistinct();
      StoredIff(keys, es, k, v);
    }

    lemma RemovedRight(es: seq<(K, V)>, k: K)
      requires Recorded() && es == Contents()
      ensures Removed(keys, es, k) == EntryLists.Without(es, k) <==> Unmistaken(keys, es, k)
    {
      ContentsDistinct();
      RemovedIff(keys, es, k);
    }

    lemma ContentsHas(e: Entry<K, V>)
      requires e in live
      ensures (e.k, e.v) in Contents()
    {
      var i :| 0 <= i < |live| && live[i] == e;
      assert Contents()[i] == (e.k, e.v);
    }

    /** Looks a key up, in the index or by walking the list; i is its place among the live entries. */
    method GetEntry(k: K) returns (e: Entry?<K, V>, ghost i: nat)
      requires Valid()
      ensures i == Located(keys, Contents(), k)
      ensures e == if Located(keys, Contents(), k) < |live| then live[Located(keys, Contents(), k)] else null
      ensures e != null ==> e in history && i < |live| && live[i] == e
      ensures e == null ==> i == |live|
    {
      if keys.frozen(k) {
        e, i := Scan(k);
        if e != null { assert e in live; }
      } else {
        e := if k in index then index[k] else null;
        if e != null {
          i :| 0 <= i < |live| && live[i] == e;
        } else {
          i := |live|;
        }
      }
      if e != null {
        FindLive(k, i);
      } else {
        FindNone(k);
      }
    }

    method Get(k: K) returns (v: Option<V>)
      requires Valid()
      ensures v == var i := Located(keys, Contents(), k); if i < |live| then Some(Contents()[i].1) else None
      ensures Unmistaken(keys, Contents(), k) ==>
                v == var i := Find(Contents(), k); if i < |live| then Some(Contents()[i].1) else None
    {
      LocatedIff(keys, Contents(), k);
      var e, i := GetEntry(k);
      v := if e == null then None else Some(e.v);
    }

    /** Nothing is forgotten, and what was removed stays removed. */
    twostate predicate Evolved()
      reads this, history
    {
      var ok :=
        && old(history) <= history
        && forall e :: e in old(history) && old(e.r) ==> e.r;
      ok
    }

    method Overwrite(e: Entry<K, V>, v: V, ghost i: nat)
      requires Valid() && i < |live| && live[i] == e
      modifies e`v
      ensures Valid() && history == old(history)
      ensures Contents() == old(Contents())[i := (e.k, v)]
    {
      e.v := v;
    }

    /** `set`: a dictionary's, unless another key is mistaken for k. */
    method Def(k: K, v: V)
      requires Valid()
      modifies this, history
      ensures Valid() && Evolved()
      ensures Contents() == Stored(keys, old(Contents()), k, v)
      ensures Unmistaken(keys, old(Contents()), k) ==> Contents() == EntryLists.Put(old(Contents()), k, v)
      ensures forall i :: |old(history)| <= i < |history| ==> fresh(history[i])
    {
      StoredRight(Contents(), k, v);
      Store(k, v);
    }

    /** Overwrites the entry found, or appends a new one. */
    method Store(k: K, v: V)
      requires Valid()
      modifies this, history
      ensures Valid() && Evolved()
      ensures Contents() == Stored(keys, old(Contents()), k, v)
      ensures forall i :: |old(history)| <= i < |history| ==> fresh(history[i])
    {
      var e, i := GetEntry(k);
      if e != null {
        Overwrite(e, v, i);
      } else {
        NewKey(k);
        Append(k, v);
      }
    }

    lemma NewKey(k: K)
      requires Located(keys, Contents(), k) == |live|
      ensures forall e :: e in live ==> e.k != k
    {
      forall e | e in live ensures e.k != k {
        var i :| 0 <= i < |live| && live[i] == e;
        assert Contents()[i].0 == e.k;
      }
    }

    // ----- what a step changes, field by field

    /** The entries recorded before have the flags they had, except that `gone` is now removed. */
    twostate predicate Flags(gone: Entry?<K, V>)
      reads this, history
    {
      forall e :: e in old(history) && e in history ==> e.r == (old(e.r) || e == gone)
    }

    twostate predicate Values()
      reads this, history
    {
      forall e :: e in old(history) && e in history ==> e.v == old(e.v)
    }

    /** Only x has a new link back, to a, and only y a new link forward, to o. */
    twostate predicate Links(x: Entry?<K, V>, a: Entry?<K, V>, y: Entry?<K, V>, new o: Entry?<K, V>)
      reads this, history
    {
      forall e :: e in old(history) && e in history ==>
        e.p == (if e == x then a else old(e.p)) && e.n == (if e == y then o else old(e.n))
    }

    // ----- appending

    /** What appending does to the collection's own fields. */
    twostate predicate AppendStep(new a: Entry<K, V>)
      reads this, a
    {
      var ok :=
        && history == old(history) + [a] && live == old(live) + [a]
        && a.id == |old(history)| && !a.r && a.p == old(last) && a.n == null
        && last == a && first == (if old(first) == null then a else old(first))
        && index == (if keys.frozen(a.k) then old(index) else old(index)[a.k := a])
        && size == old(size) + 1;
      ok
    }

    lemma RecordedId(e: Entry<K, V>)
      requires Recorded() && e in history
      ensures e.id < |history| && history[e.id] == e
    {
      var i :| 0 <= i < |history| && history[i] == e;
    }

    twostate lemma AppendRecorded(new a: Entry<K, V>)
      requires old(Recorded()) && AppendStep(a) && Flags(null)
      requires forall e :: e in old(live) ==> e.k != a.k
      requires forall e :: e in old(history) ==> e.id < |old(history)|
      ensures Recorded()
    {
    }

    twostate lemma AppendLinked(new a: Entry<K, V>)
      requires old(Recorded()) && old(Linked()) && AppendStep(a) && Links(null, null, old(last), a)
      requires forall e :: e in old(history) ==> e.id < |old(history)|
      ensures Linked()
    {
      var es := old(live);
      forall i | 0 <= i < |live| ensures LinkedAt(i) {
        if i < |es| {
          assert es[i] in es && es[i] in old(history) && es[i] in history;
          assert old(LinkedAt(i));
          assert i < |es| - 1 ==> es[i].id < es[|es| - 1].id;
        }
      }
    }

    twostate lemma AppendBackLinks(new a: Entry<K, V>)
      requires old(Recorded()) && old(Linked()) && old(BackLinks()) && AppendStep(a) && Links(null, null, old(last), a)
      requires forall e :: e in old(history) ==> e.id < |old(history)|
      ensures BackLinks()
    {
      forall e | e in history ensures BackLink(e) {
        if e in old(history) {
          assert old(BackLink(e));
        } else if old(live) != [] {
          assert old(last) in old(live);
          forall l | l in old(live) ensures l.id <= old(last).id {
            var i :| 0 <= i < |old(live)| && old(live)[i] == l;
          }
        }
      }
    }

    twostate lemma AppendIndexed(new a: Entry<K, V>)
      requires old(Indexed()) && AppendStep(a) && forall e :: e in old(live) ==> e.k != a.k
      ensures Indexed()
    {
    }

    twostate lemma AppendContents(new a: Entry<K, V>)
      requires AppendStep(a) && forall e :: e in old(live) ==> e.v == old(e.v)
      ensures Contents() == old(Contents()) + [(a.k, a.v)]
    {
      forall i | 0 <= i < |old(live)| ensures live[i].v == old(live[i].v) {
        assert old(live)[i] in old(live);
      }
    }

    method LinkLast(a: Entry<K, V>)
      requires a !in history && (last != null ==> last in history)
      requires a.id == |history| && !a.r && a.p == last && a.n == null
      modifies this, history
      ensures AppendStep(a) && Flags(null) && Values() && Links(null, null, old(last), a) && a.v == old(a.v)
    {
      var r := last;
      last := a;
      if first == null {
        first := a;
      }
      if r != null {
        r.n := a;
      }
      size := size + 1;
      if !keys.frozen(a.k) {
        index := index[a.k := a];
      }
      history, live := history + [a], live + [a];
    }

    method Append(k: K, v: V)
      requires Valid() && forall e :: e in live ==> e.k != k
      modifies this, history
      ensures Valid() && Evolved()
      ensures Contents() == old(Contents()) + [(k, v)]
      ensures forall i :: |old(history)| <= i < |history| ==> fresh(history[i])
    {
      forall e | e in history ensures e.id < |history| { RecordedId(e); }
      assert last != null ==> last in live;
      var a := new Entry(k, v, last, |history|);
      LinkLast(a);
      AppendOk(a);
    }

    twostate lemma AppendOk(new a: Entry<K, V>)
      requires old(Valid()) && AppendStep(a) && Flags(null) && Values() && Links(null, null, old(last), a)
      requires forall e :: e in old(live) ==> e.k != a.k
      requires forall e :: e in old(history) ==> e.id < |old(history)|
      ensures Valid() && Evolved()
      ensures Contents() == old(Contents()) + [(a.k, a.v)]
    {
      AppendRecorded(a);
      AppendLinked(a);
      AppendBackLinks(a);
      AppendIndexed(a);
      AppendContents(a);
    }

    // ----- removing

    /** Where element j of a sequence without its element i was before. */
    static function Skip(j: nat, i: nat): nat { if j < i then j else j + 1 }

    /** t is s without the element at i. */
    static ghost predicate Without1<T>(s: seq<T>, t: seq<T>, i: nat) {
      && i < |s| == |t| + 1
      && forall j :: 0 <= j < |t| ==> t[j] == s[Skip(j, i)]
    }

    static lemma Without1Members<T>(s: seq<T>, t: seq<T>, i: nat)
      requires Without1(s, t, i)
      ensures forall x :: x in t ==> x in s
      ensures forall x :: x in s && x != s[i] ==> x in t
    {
      forall x | x in s && x != s[i] ensures x in t {
        var j :| 0 <= j < |s| && s[j] == x;
        assert t[if j < i then j else j - 1] == x;
      }
    }

    /** What unlinking the live entry at i does to the collection's own fields. */
    twostate predicate RemoveStep(i: nat)
      reads this
    {
      && Without1(old(live), live, i) && history == old(history)
      && var d := old(live)[i];
      && first == (if old(first) == d then old(After(i)) else old(first))
      && last == (if old(last) == d then old(Before(i)) else old(last))
      && index == old(index) - {d.k} && size == old(size) - 1
    }

    /** Only the entry that was at i is now removed. */
    twostate predicate FlagGone(i: nat)
      requires i < |old(live)|
      reads this, history
    {
      Flags(old(live)[i])
    }

    /** The neighbours of a live entry are its neighbours in the sequence. */
    lemma Neighbours(i: nat)
      requires Recorded() && Linked() && i < |live|
      ensures live[i] in live && live[i] in history && live[i].p == Before(i) && live[i].n == After(i)
      ensures Before(i) != null ==> Before(i) in live && Before(i) in history && Before(i).id < live[i].id
      ensures After(i) != null ==> After(i) in live && After(i) in history && After(i).id > live[i].id
    {
      assert live[i] in live && LinkedAt(i);
      if i > 0 { assert live[i - 1] in live; }
      if i < |live| - 1 { assert live[i + 1] in live; }
    }

    twostate lemma RemoveOrder(i: nat)
      requires old(Recorded()) && RemoveStep(i)
      ensures old(live)[i] !in live
      ensures forall j, m :: 0 <= j < m < |live| ==> live[j].id < live[m].id && live[j].k != live[m].k
    {
      var es := old(live);
      forall j, m | 0 <= j < m < |live| ensures live[j].id < live[m].id && live[j].k != live[m].k {
        var j', m' := Skip(j, i), Skip(m, i);
        assert es[j'] == live[j] && es[m'] == live[m];
      }
      forall j | 0 <= j < |live| ensures live[j] != es[i] {
        var j' := Skip(j, i);
        assert es[j'].id != es[i].id;
      }
    }

    twostate lemma RemoveRecorded(i: nat)
      requires old(Recorded()) && RemoveStep(i) && FlagGone(i)
      ensures Recorded()
    {
      RemoveOrder(i);
      Without1Members(old(live), live, i);
      forall e | e in live ensures e in history && !e.r {
        assert e in old(live) && e != old(live)[i];
      }
      forall e | e in history && !e.r ensures e in live {
        assert e in old(live) && e != old(live)[i];
      }
    }

    twostate lemma RemoveEnds(i: nat)
      requires old(Recorded()) && old(Linked()) && RemoveStep(i)
      ensures first == (if live == [] then null else live[0])
      ensures last == (if live == [] then null else live[|live| - 1])
    {
      var es := old(live);
      assert i > 0 ==> es[0].id != es[i].id;
      assert i < |es| - 1 ==> es[|es| - 1].id != es[i].id;
    }

    twostate lemma RemoveLinked(i: nat)
      requires old(Recorded()) && old(Linked()) && RemoveStep(i)
      requires Links(old(After(i)), old(Before(i)), old(Before(i)), old(After(i)))
      ensures Linked()
    {
      var es := old(live);
      RemoveEnds(i);
      forall j: nat | j < |live| ensures LinkedAt(j) {
        var m := Skip(j, i);
        assert live[j] == es[m] && es[m] in es && es[m] in history;
        assert old(LinkedAt(m));
        assert i + 1 < |es| && m != i + 1 ==> es[m].id != es[i + 1].id;
        assert i > 0 && m != i - 1 ==> es[m].id != es[i - 1].id;
      }
    }

    twostate lemma RemoveBackLinks(i: nat)
      requires old(Recorded()) && old(BackLinks()) && RemoveStep(i) && old(live)[i] in history
      requires Links(old(After(i)), old(Before(i)), old(Before(i)), old(After(i)))
      requires old(live[i].p) == old(Before(i)) && (old(After(i)) != null ==> old(After(i).p) == old(live)[i])
      ensures BackLinks()
    {
      Without1Members(old(live), live, i);
      RemoveOrder(i);
      assert old(BackLink(live[i]));
      forall e | e in history ensures BackLink(e) {
        assert old(BackLink(e));
      }
    }

    twostate lemma RemoveIndexed(i: nat)
      requires old(Recorded()) && old(Indexed()) && RemoveStep(i)
      ensures Indexed()
    {
      Without1Members(old(live), live, i);
      forall e | e in live && !keys.frozen(e.k) ensures e.k in index {
        var j :| 0 <= j < |live| && live[j] == e;
        var m := Skip(j, i);
        assert old(live)[m] == e && e.k != old(live)[i].k;
      }
    }

    twostate lemma RemoveContents(i: nat)
      requires i < |old(live)| && Without1(old(live), live, i)
      requires forall e :: e in old(live) && e in live ==> e.v == old(e.v)
      ensures Contents() == old(Contents())[..i] + old(Contents())[i + 1..]
    {
      forall j | 0 <= j < |live|
        ensures Contents()[j] == old(Contents())[Skip(j, i)]
      {
        var m := Skip(j, i);
        assert old(live)[m] in old(live) && live[j] in live;
      }
    }

    /** Marks d removed and links its neighbours to each other. */
    method Bypass(d: Entry<K, V>, a: Entry?<K, V>, o: Entry?<K, V>)
      requires d in history && (a != null ==> a in history) && (o != null ==> o in history)
      modifies history
      ensures Flags(d) && Values() && Links(o, a, a, o)
    {
      d.r := true;
      if a != null {
        a.n := o;
      }
      if o != null {
        o.p := a;
      }
    }

    method Unlink(d: Entry<K, V>, ghost i: nat)
      requires i < |live| && live[i] == d && d in history && d.p == Before(i) && d.n == After(i)
      requires d.p != null ==> d.p in history
      requires d.n != null ==> d.n in history
      modifies this, history
      ensures RemoveStep(i) && FlagGone(i) && Values()
      ensures Links(old(After(i)), old(Before(i)), old(Before(i)), old(After(i)))
    {
      var o, a := d.n, d.p;
      index := index - {d.k};
      Bypass(d, a, o);
      if first == d {
        first := o;
      }
      if last == d {
        last := a;
      }
      size := size - 1;
      live := live[..i] + live[i + 1..];
    }

    method Remove(d: Entry<K, V>, ghost i: nat)
      requires Valid() && i < |live| && live[i] == d
      modifies this, history
      ensures Valid() && Evolved() && history == old(history)
      ensures Contents() == old(Contents())[..i] + old(Contents())[i + 1..]
    {
      Neighbours(i);
      if After(i) != null { Neighbours(i + 1); }
      Unlink(d, i);
      RemoveRecorded(i);
      RemoveLinked(i);
      RemoveBackLinks(i);
      RemoveIndexed(i);
      RemoveContents(i);
    }

    /** `delete`: a dictionary's exactly if no other key is mistaken for k. */
    method Delete(k: K) returns (found: bool)
      requires Valid()
      modifies this, history
      ensures Valid() && Evolved() && history == old(history)
      ensures Contents() == Removed(keys, old(Contents()), k)
      ensures Contents() == EntryLists.Without(old(Contents()), k) <==> Unmistaken(keys, old(Contents()), k)
      ensures found == (Located(keys, old(Contents()), k) < |old(Contents())|)
    {
      RemovedRight(Contents(), k);
      found := Erase(k);
    }

    /** Takes the entry found out of the list. */
    method Erase(k: K) returns (found: bool)
      requires Valid()
      modifies this, history
      ensures Valid() && Evolved() && history == old(history)
      ensures Contents() == Removed(keys, old(Contents()), k)
      ensures found == (Located(keys, old(Contents()), k) < |old(Contents())|)
    {
      var e, i := GetEntry(k);
      found := e != null;
      if e != null {
        Remove(e, i);
      }
    }

    // ----- clearing

    /** The first i live entries are removed and cut off; the others are as they were. */
    ghost predicate Cut(i: nat)
      reads this`live, live`r, live`p, live`n
    {
      forall j {:trigger CutAt(j, i)} :: 0 <= j < |live| ==> CutAt(j, i)
    }

    ghost predicate CutAt(j: int, i: nat)
      requires 0 <= j < |live|
      reads this`live, live`r, live`p, live`n
    {
      if j < i then live[j].r && live[j].p == null else !live[j].r && LinkedAt(j)
    }

    ghost predicate InOrder()
      reads this`live
    {
      forall i, j :: 0 <= i < j < |live| ==> live[i].id < live[j].id
    }

    /** Only the entry at i is marked and cut off, and only the one before it loses its link forward. */
    twostate predicate CutStep(i: nat)
      reads this`live, live`r, live`p, live`n
    {
      var ok :=
        && i < |live| && live == old(live) && live[i].r && live[i].p == null
        && (forall j :: 0 <= j < |live| && j != i ==> live[j].r == old(live[j].r) && live[j].p == old(live[j].p))
        && (forall j :: 0 <= j < |live| && j != i - 1 ==> live[j].n == old(live[j].n));
      ok
    }

    twostate lemma CutMore(i: nat)
      requires old(Cut(i)) && CutStep(i)
      ensures Cut(i + 1)
    {
      var i' := i + 1;
      forall j | 0 <= j < |live|
        ensures CutAt(j, i')
      {
        assert old(CutAt(j, i));
      }
    }

    lemma Apart(i: nat)
      requires InOrder() && i < |live|
      ensures live[i] in live && forall j :: 0 <= j < |live| && j != i ==> live[j] != live[i]
    {
      assert forall j :: 0 <= j < |live| && j != i ==> live[j].id != live[i].id;
    }

    /** Marks the live entry at i removed and cuts its link back and the link to it. */
    method CutLinks(r: Entry<K, V>, ghost i: nat)
      requires Cut(i) && InOrder() && i < |live| && live[i] == r
      modifies live
      ensures CutStep(i) && r.n == After(i)
    {
      assert CutAt(i, i);
      hide InOrder, Cut;
      Apart(i);
      if i > 0 {
        Apart(i - 1);
      }
      r.r := true;
      if r.p != null {
        r.p.n := null;
        r.p := null;
      }
    }

    /** Takes the live entry at i out of the index and cuts it off. */
    method CutEntry(r: Entry<K, V>, ghost i: nat)
      requires Cut(i) && InOrder() && i < |live| && live[i] == r
      modifies this`index, live
      ensures Cut(i + 1) && r.n == After(i) && index == old(index) - {r.k}
    {
      hide Cut, CutAt, InOrder, After;
      CutLinks(r, i);
      CutMore(i);
      index := index - {r.k};
    }

    lemma StartCut()
      requires Valid()
      ensures Cut(0) && InOrder()
    {
      forall j | 0 <= j < |live| ensures CutAt(j, 0) {
        assert LinkedAt(j) && live[j] in live;
      }
    }

    lemma EndCut()
      requires Cut(|live|)
      ensures forall e :: e in live ==> e.r && e.p == null
    {
      forall e | e in live ensures e.r && e.p == null {
        var j :| 0 <= j < |live| && live[j] == e;
        assert CutAt(j, |live|);
      }
    }

    /** Of the index before, what is left does not lead to the entries gone. */
    static ghost predicate Unindexed(before: map<K, Entry<K, V>>, after: map<K, Entry<K, V>>, gone: seq<Entry<K, V>>) {
      && (forall k :: k in after ==> k in before)
      && forall e :: e in gone ==> e.k !in after
    }

    static lemma UnindexedMore(before: map<K, Entry<K, V>>, after: map<K, Entry<K, V>>, es: seq<Entry<K, V>>, i: nat)
      requires i < |es| && Unindexed(before, after, es[..i])
      ensures Unindexed(before, after - {es[i].k}, es[..i + 1])
    {
      assert es[..i + 1] == es[..i] + [es[i]];
    }

    static lemma AllUnindexed(before: map<K, Entry<K, V>>, after: map<K, Entry<K, V>>, es: seq<Entry<K, V>>)
      requires Unindexed(before, after, es[..|es|])
      requires forall k :: k in before ==> before[k] in es && before[k].k == k
      ensures after == map[]
    {
      assert es[..|es|] == es;
      assert forall k :: k !in after;
    }

    /** Walks the list, marking entries removed, cutting their links and emptying the index. */
    method CutAll()
      requires Valid()
      modifies this`index, live
      ensures index == map[] && forall e :: e in live ==> e.r && e.p == null
    {
      hide Cut, CutAt, InOrder, Before;
      StartCut();
      var r := first;
      ghost var i := 0;
      while r != null
        invariant 0 <= i <= |live| && Cut(i) && InOrder()
        invariant if i == |live| then r == null else r == live[i]
        invariant Unindexed(old(index), index, live[..i])
        decreases |live| - i
      {
        UnindexedMore(old(index), index, live, i);
        CutEntry(r, i);
        r, i := r.n, i + 1;
      }
      AllUnindexed(old(index), index, live);
      EndCut();
    }

    /** Every entry is removed, and those that were live are cut off. */
    twostate predicate Cleared()
      reads this, history
    {
      var ok :=
        && history == old(history) && live == [] && index == map[]
        && first == null && last == null && size == 0
        && forall e :: e in history ==> e.r && e.p == if e in old(live) then null else old(e.p);
      ok
    }

    twostate lemma ClearedValid()
      requires old(Recorded()) && old(BackLinks()) && Cleared()
      ensures Valid()
    {
      forall e | e in history ensures BackLink(e) {
        assert old(BackLink(e));
      }
    }

    lemma LiveIsRecorded()
      requires Recorded()
      ensures forall i :: 0 <= i < |live| ==> live[i] in history
    {
      assert forall i :: 0 <= i < |live| ==> live[i] in live;
    }

    /** `clear` */
    method Clear()
      requires Valid()
      modifies this, history
      ensures Valid() && Evolved() && history == old(history)
      ensures Contents() == []
    {
      LiveIsRecorded();
      CutAll();
      first, last, size := null, null, 0;
      live := [];
      ClearedValid();
    }
  }

  // ----- iterating

  class Iterator<K(==), V> {
    ghost const c: Collection<K, V>     // the collection it was made for
    var t: Collection?<K, V>            // that collection, until the end was reported
    var l: Entry?<K, V>                 // the entry yielded last
    ghost var pos: nat                  // entries created before this one are behind the iterator
    ghost var seen: seq<Entry<K, V>>    // the entries yielded so far

    ghost predicate Valid()
      reads this, c, c.history
    {
      var valid :=
      && (t != null ==> t == c)
      && (if l != null then l in c.history && pos == l.id + 1 else t != null ==> pos == 0)
      && pos <= |c.history|
      && (forall e :: e in seen ==> e in c.history && e.id < pos)
      && (forall i, j :: 0 <= i < j < |seen| ==> seen[i].id < seen[j].id)
      && (t != null ==> forall e :: e in c.live && e.id < pos ==> e in seen);
      valid
    }

    constructor (c: Collection<K, V>)
      ensures Valid() && this.c == c && t == c && seen == []
    {
      this.c, t, l := c, c, null;
      pos, seen := 0, [];
    }

    /** Whatever happens to the collection, an iterator on it stays good. */
    twostate lemma Survives()
      requires old(Valid()) && old(c.Recorded()) && c.Recorded() && c.Evolved()
      requires t == old(t) && l == old(l) && pos == old(pos) && seen == old(seen)
      ensures Valid() && forall e :: e in seen && e in c.live ==> e in old(c.live)
    {
      forall e | e in c.live && e.id < pos ensures e in old(c.live) {
        var i :| 0 <= i < |c.history| && c.history[i] == e;
        assert old(c.history)[i] == e;
        assert !e.r;
      }
    }

    /** The nearest live entry at or before the last one yielded. */
    method WalkBack() returns (e: Entry?<K, V>)
      requires Valid() && c.Valid() && t != null
      ensures e != null ==> e in c.live && e.id < pos && c.NoneBetween(e.id + 1, pos)
      ensures e == null ==> c.NoneBetween(0, pos)
    {
      e := l;
      while e != null && e.r
        invariant e != null ==> e in c.history && e.id < pos && c.NoneBetween(e.id + 1, pos)
        invariant e == null ==> c.NoneBetween(0, pos)
        decreases if e == null then 0 else e.id + 1
      {
        assert c.BackLink(e);
        assert e !in c.live;
        e := e.p;
      }
    }

    /** The first live entry that is not behind the iterator. */
    method Ahead() returns (n: Entry?<K, V>)
      requires Valid() && c.Valid() && t != null
      ensures n != null ==> n in c.live && n in c.history && pos <= n.id < |c.history| && c.NoneBetween(pos, n.id)
      ensures n == null ==> forall x :: x in c.live ==> x.id < pos
    {
      var e := WalkBack();
      n := if e != null then e.n else t.first;
      Following(e, pos, n);
    }

    /**
     The next entry. While the collection lasts it is the first live entry that is not
     behind the iterator; when there is none every live entry has been yielded.
     */
    method Next() returns (r: Option<(K, V)>)
      requires Valid() && c.Valid()
      modifies this
      ensures Valid()
      ensures r.Some? ==> old(t) != null && t == c && l != null && r.value == (l.k, l.v)
      ensures r.Some? ==> l in c.live && l !in old(seen) && seen == old(seen) + [l]
      ensures r.Some? ==> c.NoneBetween(old(pos), l.id)
      ensures r.None? ==> t == null && seen == old(seen)
      ensures r.None? && old(t) != null ==> forall e :: e in c.live ==> e in seen
    {
      if t == null {
        return None;
      }
      var n := Ahead();
      if n != null {
        r := Some((n.k, n.v));
        seen, pos, l := seen + [n], n.id + 1, n;
      } else {
        r := None;
        t, l := null, null;
      }
    }

    /** The entry after a live one, or the first entry, is the next live entry. */
    lemma Following(e: Entry?<K, V>, p: nat, n: Entry?<K, V>)
      requires c.Valid()
      requires e != null ==> e in c.live && e.id < p && c.NoneBetween(e.id + 1, p)
      requires e == null ==> c.NoneBetween(0, p)
      requires n == if e != null then e.n else c.first
      ensures n != null ==> n in c.live && n in c.history && n.id >= p && n.id < |c.history| && c.NoneBetween(p, n.id)
      ensures n == null ==> forall x :: x in c.live ==> x.id < p
    {
      hide Collection.BackLinks, Collection.BackLink, Collection.NoneBetween, Collection.Indexed;
      var i := -1;
      if e != null {
        i :| 0 <= i < |c.live| && c.live[i] == e;
        assert c.LinkedAt(i);
      }
      FollowingAt(i, p);
      if n != null {
        assert n == c.live[i + 1] && n in c.live;
        c.RecordedId(n);
      }
    }

    /** The live entries up to place i are before p, and those after it are not. */
    lemma FollowingAt(i: int, p: nat)
      requires c.Recorded() && -1 <= i < |c.live|
      requires i >= 0 ==> c.live[i].id < p && c.NoneBetween(c.live[i].id + 1, p)
      requires i < 0 ==> c.NoneBetween(0, p)
      ensures if i + 1 < |c.live| then c.live[i + 1].id >= p && c.NoneBetween(p, c.live[i + 1].id)
              else forall x :: x in c.live ==> x.id < p
    {
      forall x | x in c.live
        ensures x.id < p || (i + 1 < |c.live| && x.id >= c.live[i + 1].id)
      {
        var j :| 0 <= j < |c.live| && c.live[j] == x;
      }
      assert i + 1 < |c.live| ==> c.live[i + 1] in c.live;
    }
  }

  // ----- interleavings

  datatype Op<K, V> = Set(k: K, v: V) | Delete(k: K) | Clear | Next

  function Apply<K(==), V>(keys: Keys<K>, es: seq<(K, V)>, op: Op<K, V>): seq<(K, V)> {
    match op
    case Set(k, v) => Stored(keys, es, k, v)
    case Delete(k) => Removed(keys, es, k)
    case Clear => []
    case Next => es
  }

  function ApplyAll<K(==), V>(keys: Keys<K>, es: seq<(K, V)>, ops: seq<Op<K, V>>): seq<(K, V)> {
    if ops == [] then es else Apply(keys, ApplyAll(keys, es, ops[..|ops| - 1]), ops[|ops| - 1])
  }

  /** The operation on an ordered dictionary. */
  function Ordered<K(==), V>(es: seq<(K, V)>, op: Op<K, V>): seq<(K, V)> {
    match op
    case Set(k, v) => EntryLists.Put(es, k, v)
    case Delete(k) => EntryLists.Without(es, k)
    case Clear => []
    case Next => es
  }

  function OrderedAll<K(==), V>(es: seq<(K, V)>, ops: seq<Op<K, V>>): seq<(K, V)> {
    if ops == [] then es else Ordered(OrderedAll(es, ops[..|ops| - 1]), ops[|ops| - 1])
  }

  /** Every key of the run is told apart from the keys that are there when it is used. */
  ghost predicate RunUnmistaken<K, V>(keys: Keys<K>, es: seq<(K, V)>, ops: seq<Op<K, V>>) {
    forall i :: 0 <= i < |ops| && (ops[i].Set? || ops[i].Delete?) ==>
      Unmistaken(keys, OrderedAll(es, ops[..i]), ops[i].k)
  }

  lemma OrderedDistinct<K, V>(es: seq<(K, V)>, op: Op<K, V>)
    requires DistinctKeys(es)
    ensures DistinctKeys(Ordered(es, op))
  {
    match op
    case Set(k, v) =>
      if Has(es, k) {
        OverwriteAt(es, Find(es, k), v);
      }
    case Delete(k) => WithoutDistinct(es, k);
    case Clear =>
    case Next =>
  }

  /** A run without mistaken keys is the run of an ordered dictionary. */
  lemma {:induction false} RunIsOrdered<K, V>(keys: Keys<K>, es: seq<(K, V)>, ops: seq<Op<K, V>>)
    requires DistinctKeys(es) && RunUnmistaken(keys, es, ops)
    ensures ApplyAll(keys, es, ops) == OrderedAll(es, ops) && DistinctKeys(OrderedAll(es, ops))
  {
    if ops != [] {
      var n := |ops| - 1;
      var front, before := ops[..n], OrderedAll(es, ops[..n]);
      assert forall i :: 0 <= i < n ==> front[..i] == ops[..i];
      RunIsOrdered(keys, es, front);
      OrderedDistinct(before, ops[n]);
      match ops[n]
      case Set(k, v) => StoredIff(keys, before, k, v);
      case Delete(k) => RemovedIff(keys, before, k);
      case Clear =>
      case Next =>
    }
  }

  /** The keys of the live entries that have been yielded. */
  ghost function PassedKeys<K, V>(seen: seq<Entry<K, V>>, live: seq<Entry<K, V>>): set<K> {
    set e | e in live && e in seen :: e.k
  }

  ghost predicate HasKey<K, V>(es: seq<(K, V)>, k: K) {
    exists i :: 0 <= i < |es| && es[i].0 == k
  }

  /** From step m on the key never left the contents. */
  ghost predicate Stays<K, V>(keys: Keys<K>, es: seq<(K, V)>, ops: seq<Op<K, V>>, m: int, k: K) {
    var ok := 0 <= m <= |ops| && forall n :: m <= n <= |ops| ==> HasKey(ApplyAll(keys, es, ops[..n]), k);
    ok
  }

  /**
   The key was yielded, and its entry has been there ever since: from a step of this run on,
   or from the start if it was among those already passed.
   */
  ghost predicate Accounted<K, V>(keys: Keys<K>, es: seq<(K, V)>, ops: seq<Op<K, V>>, yielded: seq<(K, V)>,
                                  at: seq<int>, passed: set<K>, k: K) {
    var ok :=
      || (k in passed && Stays(keys, es, ops, 0, k))
      || exists i :: 0 <= i < |at| && i < |yielded| && yielded[i].0 == k && Stays(keys, es, ops, at[i], k);
    ok
  }

  /** Each yield was a step of the iterator and is among the contents at that step. */
  ghost predicate YieldsLive<K, V>(keys: Keys<K>, es: seq<(K, V)>, ops: seq<Op<K, V>>, yielded: seq<(K, V)>,
                                   at: seq<int>) {
    var ok :=
      && |at| == |yielded|
      && (forall i, j :: 0 <= i < j < |at| ==> at[i] < at[j])
      && forall i :: 0 <= i < |at| ==>
        0 <= at[i] < |ops| && ops[at[i]].Next? && yielded[i] in ApplyAll(keys, es, ops[..at[i]]);
    ok
  }

  /** At the step that reported the end every entry of the contents had been yielded, and not left since. */
  ghost predicate EndsComplete<K, V>(keys: Keys<K>, es: seq<(K, V)>, ops: seq<Op<K, V>>, yielded: seq<(K, V)>,
                                     at: seq<int>, end: nat, passed: set<K>) {
    var ok :=
      && end < |ops| && ops[end].Next?
      && forall e :: e in ApplyAll(keys, es, ops[..end]) ==>
        Accounted(keys, es, ops[..end], yielded, at, passed, e.0);
    ok
  }

  /**
   What is known of a run so far. The keys passed at the start are given, and those now; end
   is the step that reported the end.
   */
  ghost predicate Traced<K, V>(keys: Keys<K>, es: seq<(K, V)>, ops: seq<Op<K, V>>, yielded: seq<(K, V)>, at: seq<int>,
                               end: Option<nat>, passed: set<K>, now: set<K>) {
    var ok :=
      && YieldsLive(keys, es, ops, yielded, at)
      && (forall k :: k in now ==> Accounted(keys, es, ops, yielded, at, passed, k))
      && (end.Some? ==> EndsComplete(keys, es, ops, yielded, at, end.value, passed));
    ok
  }

  lemma TracedFirst<K, V>(keys: Keys<K>, es: seq<(K, V)>, passed: set<K>)
    requires forall k :: k in passed ==> HasKey(es, k)
    ensures Traced(keys, es, [], [], [], None, passed, passed)
  {
    var ops: seq<Op<K, V>> := [];
    assert ops[..0] == ops;
    forall k | k in passed
      ensures Accounted(keys, es, ops, [], [], passed, k)
    {
      assert Stays(keys, es, ops, 0, k);
    }
  }

  lemma YieldsMore<K, V>(keys: Keys<K>, es: seq<(K, V)>, ops: seq<Op<K, V>>, i: nat, yielded: seq<(K, V)>,
          at: seq<int>, r: Option<(K, V)>)
    requires i < |ops| && YieldsLive(keys, es, ops[..i], yielded, at)
    requires r.Some? ==> ops[i].Next? && r.value in ApplyAll(keys, es, ops[..i])
    ensures if r.Some? then YieldsLive(keys, es, ops[..i + 1], yielded + [r.value], at + [i])
            else YieldsLive(keys, es, ops[..i + 1], yielded, at)
  {
    forall j | 0 <= j <= i
      ensures ops[..i + 1][..j] == ops[..j] && (j < i ==> ops[..i][..j] == ops[..j])
    {}
  }

  lemma StaysMore<K, V>(keys: Keys<K>, es: seq<(K, V)>, ops: seq<Op<K, V>>, i: nat, m: int, k: K)
    requires i < |ops| && Stays(keys, es, ops[..i], m, k) && HasKey(ApplyAll(keys, es, ops[..i + 1]), k)
    ensures Stays(keys, es, ops[..i + 1], m, k)
  {
    var front := ops[..i + 1];
    forall n | m <= n <= |front|
      ensures HasKey(ApplyAll(keys, es, front[..n]), k)
    {
      assert front[..n] == if n <= i then ops[..i][..n] else front;
    }
  }

  lemma StaysFirst<K, V>(keys: Keys<K>, es: seq<(K, V)>, ops: seq<Op<K, V>>, i: nat, k: K)
    requires i < |ops| && HasKey(ApplyAll(keys, es, ops[..i]), k) && HasKey(ApplyAll(keys, es, ops[..i + 1]), k)
    ensures Stays(keys, es, ops[..i + 1], i, k)
  {
    assert ops[..i][..i] == ops[..i];
    StaysMore(keys, es, ops, i, i, k);
  }

  /** Later yields change nothing about the earlier ones. */
  lemma AccountedGrows<K, V>(keys: Keys<K>, es: seq<(K, V)>, ops: seq<Op<K, V>>, yielded: seq<(K, V)>, at: seq<int>,
          passed: set<K>, k: K, yielded': seq<(K, V)>, at': seq<int>)
    requires Accounted(keys, es, ops, yielded, at, passed, k) && yielded <= yielded' && at <= at'
    ensures Accounted(keys, es, ops, yielded', at', passed, k)
  {
    if !(k in passed && Stays(keys, es, ops, 0, k)) {
      var i :| 0 <= i < |at| && i < |yielded| && yielded[i].0 == k && Stays(keys, es, ops, at[i], k);
      assert yielded'[i] == yielded[i] && at'[i] == at[i];
    }
  }

  lemma AccountedMore<K, V>(keys: Keys<K>, es: seq<(K, V)>, ops: seq<Op<K, V>>, i: nat, yielded: seq<(K, V)>,
          at: seq<int>, passed: set<K>, k: K)
    requires i < |ops| && Accounted(keys, es, ops[..i], yielded, at, passed, k)
    requires HasKey(ApplyAll(keys, es, ops[..i + 1]), k)
    ensures Accounted(keys, es, ops[..i + 1], yielded, at, passed, k)
  {
    if k in passed && Stays(keys, es, ops[..i], 0, k) {
      StaysMore(keys, es, ops, i, 0, k);
    } else {
      var j :| 0 <= j < |at| && j < |yielded| && yielded[j].0 == k && Stays(keys, es, ops[..i], at[j], k);
      StaysMore(keys, es, ops, i, at[j], k);
    }
  }

  lemma AccountedLast<K, V>(keys: Keys<K>, es: seq<(K, V)>, ops: seq<Op<K, V>>, i: nat, yielded: seq<(K, V)>,
          at: seq<int>, passed: set<K>, y: (K, V))
    requires i < |ops| && |yielded| == |at| && y in ApplyAll(keys, es, ops[..i])
    requires HasKey(ApplyAll(keys, es, ops[..i + 1]), y.0)
    ensures Accounted(keys, es, ops[..i + 1], yielded + [y], at + [i], passed, y.0)
  {
    var es' := ApplyAll(keys, es, ops[..i]);
    var j :| 0 <= j < |es'| && es'[j] == y;
    assert HasKey(es', y.0);
    StaysFirst(keys, es, ops, i, y.0);
    assert (at + [i])[|at|] == i && (yielded + [y])[|at|] == y;
  }

  lemma EndsGrows<K, V>(keys: Keys<K>, es: seq<(K, V)>, ops: seq<Op<K, V>>, i: nat, yielded: seq<(K, V)>,
          at: seq<int>, end: nat, passed: set<K>, yielded': seq<(K, V)>, at': seq<int>)
    requires i < |ops| && EndsComplete(keys, es, ops[..i], yielded, at, end, passed)
    requires yielded <= yielded' && at <= at'
    ensures EndsComplete(keys, es, ops[..i + 1], yielded', at', end, passed)
  {
    assert ops[..i + 1][..end] == ops[..i][..end];
    forall e | e in ApplyAll(keys, es, ops[..i][..end])
      ensures Accounted(keys, es, ops[..i][..end], yielded', at', passed, e.0)
    {
      AccountedGrows(keys, es, ops[..i][..end], yielded, at, passed, e.0, yielded', at');
    }
  }

  lemma EndsNow<K, V>(keys: Keys<K>, es: seq<(K, V)>, ops: seq<Op<K, V>>, i: nat, yielded: seq<(K, V)>,
          at: seq<int>, passed: set<K>, now: set<K>)
    requires i < |ops| && ops[i].Next? && forall e :: e in ApplyAll(keys, es, ops[..i]) ==> e.0 in now
    requires forall k :: k in now ==> Accounted(keys, es, ops[..i], yielded, at, passed, k)
    ensures EndsComplete(keys, es, ops[..i + 1], yielded, at, i, passed)
  {
    assert ops[..i + 1][..i] == ops[..i];
  }

  /** After one more step: what it yields is recorded, and the keys passed are those before that are still there. */
  lemma TracedMore<K, V>(keys: Keys<K>, es: seq<(K, V)>, ops: seq<Op<K, V>>, i: nat, yielded: seq<(K, V)>,
          at: seq<int>, end: Option<nat>, passed: set<K>, now: set<K>, r: Option<(K, V)>, ends: bool, now': set<K>)
    requires i < |ops| && Traced(keys, es, ops[..i], yielded, at, end, passed, now)
    requires r.Some? ==> ops[i].Next? && r.value in ApplyAll(keys, es, ops[..i])
    requires forall k :: k in now' ==> k in now || (r.Some? && k == r.value.0)
    requires forall k :: k in now' ==> HasKey(ApplyAll(keys, es, ops[..i + 1]), k)
    requires ends ==> r.None? && ops[i].Next? && forall e :: e in ApplyAll(keys, es, ops[..i]) ==> e.0 in now
    ensures var (yielded', at') := if r.Some? then (yielded + [r.value], at + [i]) else (yielded, at);
            Traced(keys, es, ops[..i + 1], yielded', at', if ends then Some(i) else end, passed, now')
  {
    hide Accounted, EndsComplete, YieldsLive, HasKey;
    var (yielded', at') := if r.Some? then (yielded + [r.value], at + [i]) else (yielded, at);
    YieldsMore(keys, es, ops, i, yielded, at, r);
    forall k | k in now'
      ensures Accounted(keys, es, ops[..i + 1], yielded', at', passed, k)
    {
      if k in now {
        AccountedMore(keys, es, ops, i, yielded, at, passed, k);
        AccountedGrows(keys, es, ops[..i + 1], yielded, at, passed, k, yielded', at');
      } else {
        YieldsLength(keys, es, ops[..i], yielded, at);
        AccountedLast(keys, es, ops, i, yielded, at, passed, r.value);
      }
    }
    if ends {
      EndsNow(keys, es, ops, i, yielded, at, passed, now);
    } else if end.Some? {
      EndsGrows(keys, es, ops, i, yielded, at, end.value, passed, yielded', at');
    }
  }

  lemma YieldsLength<K, V>(keys: Keys<K>, es: seq<(K, V)>, ops: seq<Op<K, V>>, yielded: seq<(K, V)>, at: seq<int>)
    requires YieldsLive(keys, es, ops, yielded, at)
    ensures |yielded| == |at|
  {}

  /** The step at i of an interleaving that started from the contents es; what it yields or ends is recorded. */
  method Step<K(==), V>(c: Collection<K, V>, it: Iterator<K, V>, ops: seq<Op<K, V>>, i: nat, ghost es: seq<(K, V)>,
          ghost before: seq<Entry<K, V>>, ghost passed: set<K>, yielded: seq<(K, V)>, ghost at: seq<int>,
          ghost end: Option<nat>)
    returns (yielded': seq<(K, V)>, ghost at': seq<int>, ghost end': Option<nat>)
    requires c.Valid() && it.Valid() && it.c == c && i < |ops|
    requires c.Contents() == ApplyAll(c.keys, es, ops[..i]) && Told(before, it.seen, yielded)
    requires Traced(c.keys, es, ops[..i], yielded, at, end, passed, PassedKeys(it.seen, c.live))
    modifies c, c.history, it
    ensures c.Valid() && it.Valid()
    ensures old(c.history) <= c.history
    ensures forall j :: |old(c.history)| <= j < |c.history| ==> fresh(c.history[j])
    ensures c.Contents() == ApplyAll(c.keys, es, ops[..i + 1]) && Told(before, it.seen, yielded')
    ensures Traced(c.keys, es, ops[..i + 1], yielded', at', end', passed, PassedKeys(it.seen, c.live))
    ensures end' == if old(it.t) != null && it.t == null then Some(i) else end
    ensures old(it.t) == null ==> it.t == null
  {
    ApplyNext(c.keys, es, ops, i);
    ghost var seen, now := it.seen, PassedKeys(it.seen, c.live);
    var r := Perform(c, it, ops[i]);
    ghost var ends := old(it.t) != null && it.t == null;
    PassedThere(c, it.seen);
    if ends {
      AllKeysPassed(c, it.seen);
    }
    TracedMore(c.keys, es, ops, i, yielded, at, end, passed, now, r, ends, PassedKeys(it.seen, c.live));
    yielded', at' := yielded, at;
    end' := if ends then Some(i) else end;
    if r.Some? {
      ToldMore(before, seen, it.l, yielded, r.value);
      yielded', at' := yielded + [r.value], at + [i];
    }
  }

  /**
   Any interleaving of changes to the collection with steps of one iterator on it. The
   contents are those of the list after the same changes. The entry yielded at step at[i]
   is one of the contents at that step, with its value there, and no entry is yielded
   twice; those seen come in the order in which they were created. If the end is reported,
   at step end, every entry of the contents at that step has been yielded: its key never left
   the contents since a step that yielded it, or since the start if the iterator had already
   passed it.
   */
  method Interleave<K(==), V>(c: Collection<K, V>, it: Iterator<K, V>, ops: seq<Op<K, V>>)
    returns (yielded: seq<(K, V)>, ghost at: seq<int>, ghost end: Option<nat>)
    requires c.Valid() && it.Valid() && it.c == c
    modifies c, c.history, it
    ensures c.Valid() && it.Valid()
    ensures c.Contents() == ApplyAll(c.keys, old(c.Contents()), ops)
    ensures RunUnmistaken(c.keys, old(c.Contents()), ops) ==> c.Contents() == OrderedAll(old(c.Contents()), ops)
    ensures Told(old(it.seen), it.seen, yielded)
    ensures forall i, j :: 0 <= i < j < |it.seen| ==> it.seen[i].id < it.seen[j].id
    ensures YieldsLive(c.keys, old(c.Contents()), ops, yielded, at)
    ensures end.Some? <==> old(it.t) != null && it.t == null
    ensures end.Some? ==> EndsComplete(c.keys, old(c.Contents()), ops, yielded, at, end.value,
                                       old(PassedKeys(it.seen, c.live)))
  {
    yielded, at, end := [], [], None;
    c.ContentsDistinct();
    ghost var es, before, history, passed := c.Contents(), it.seen, c.history, PassedKeys(it.seen, c.live);
    PassedThere(c, it.seen);
    TracedFirst(c.keys, es, passed);
    assert ops[..0] == [];
    for i := 0 to |ops|
      invariant c.Valid() && it.Valid()
      invariant history <= c.history && forall j :: |history| <= j < |c.history| ==> fresh(c.history[j])
      invariant c.Contents() == ApplyAll(c.keys, es, ops[..i])
      invariant Told(before, it.seen, yielded)
      invariant Traced(c.keys, es, ops[..i], yielded, at, end, passed, PassedKeys(it.seen, c.live))
      invariant end.Some? <==> old(it.t) != null && it.t == null
      invariant old(it.t) == null ==> it.t == null
    {
      ghost var entries := c.history;
      yielded, at, end := Step(c, it, ops, i, es, before, passed, yielded, at, end);
      PrefixThrough(history, entries, c.history);
      forall j | |history| <= j < |c.history|
        ensures fresh(c.history[j])
      {
        assert j < |entries| ==> c.history[j] == entries[j];
      }
    }
    assert ops[..|ops|] == ops;
    if RunUnmistaken(c.keys, es, ops) {
      RunIsOrdered(c.keys, es, ops);
    }
  }

  /** The entries seen since before, in the order of what was yielded. */
  ghost predicate Told<K, V>(before: seq<Entry<K, V>>, seen: seq<Entry<K, V>>, yielded: seq<(K, V)>) {
    var ok :=
      && before <= seen && |seen| == |before| + |yielded|
      && forall i :: 0 <= i < |yielded| ==> yielded[i].0 == seen[|before| + i].k;
    ok
  }

  lemma ToldMore<K, V>(before: seq<Entry<K, V>>, seen: seq<Entry<K, V>>, e: Entry<K, V>, yielded: seq<(K, V)>,
                       y: (K, V))
    requires Told(before, seen, yielded) && y.0 == e.k
    ensures Told(before, seen + [e], yielded + [y])
  {}

  lemma ApplyNext<K, V>(keys: Keys<K>, es: seq<(K, V)>, ops: seq<Op<K, V>>, i: nat)
    requires i < |ops|
    ensures ApplyAll(keys, es, ops[..i + 1]) == Apply(keys, ApplyAll(keys, es, ops[..i]), ops[i])
  {
    assert ops[..i + 1][..i] == ops[..i];
  }

  lemma PassedThere<K, V>(c: Collection<K, V>, seen: seq<Entry<K, V>>)
    ensures forall k :: k in PassedKeys(seen, c.live) ==> HasKey(c.Contents(), k)
  {
    forall e | e in c.live
      ensures HasKey(c.Contents(), e.k)
    {
      var i :| 0 <= i < |c.live| && c.live[i] == e;
      assert c.Contents()[i].0 == e.k;
    }
  }

  lemma PassedFewer<K, V>(seen: seq<Entry<K, V>>, live: seq<Entry<K, V>>, live': seq<Entry<K, V>>)
    requires forall e :: e in seen && e in live' ==> e in live
    ensures PassedKeys(seen, live') <= PassedKeys(seen, live)
  {}

  /** Every live entry has been yielded. */
  ghost predicate AllPassed<K, V>(c: Collection<K, V>, seen: seq<Entry<K, V>>)
    reads c`live
  {
    forall e :: e in c.live ==> e in seen
  }

  lemma AllKeysPassed<K, V>(c: Collection<K, V>, seen: seq<Entry<K, V>>)
    requires AllPassed(c, seen)
    ensures forall e :: e in c.Contents() ==> e.0 in PassedKeys(seen, c.live)
  {
    forall e | e in c.Contents()
      ensures e.0 in PassedKeys(seen, c.live)
    {
      var i :| 0 <= i < |c.live| && c.Contents()[i] == e;
      assert c.live[i] in c.live && c.live[i].k == e.0;
    }
  }

  /** One step. A yielded entry is among the contents; at the end every entry has been yielded. */
  method Perform<K(==), V>(c: Collection<K, V>, it: Iterator<K, V>, op: Op<K, V>) returns (r: Option<(K, V)>)
    requires c.Valid() && it.Valid() && it.c == c
    modifies c, c.history, it
    ensures c.Valid() && it.Valid()
    ensures old(c.history) <= c.history
    ensures forall j :: |old(c.history)| <= j < |c.history| ==> fresh(c.history[j])
    ensures c.Contents() == Apply(c.keys, old(c.Contents()), op)
    ensures r.Some? ==> op.Next? && r.value in c.Contents() && it.l != null && r.value.0 == it.l.k
    ensures it.seen == old(it.seen) + (if r.Some? then [it.l] else [])
    ensures it.t == if op.Next? && r.None? then null else old(it.t)
    ensures op.Next? && r.None? && old(it.t) != null ==> AllPassed(c, it.seen)
    ensures forall k :: k in PassedKeys(it.seen, c.live) ==>
              k in old(PassedKeys(it.seen, c.live)) || (r.Some? && k == r.value.0)
  {
    if op.Next? {
      r := Advance(c, it);
    } else {
      r := None;
      Change(c, it, op);
    }
  }

  /** A step of the iterator, which leaves the collection as it is. */
  method Advance<K(==), V>(c: Collection<K, V>, it: Iterator<K, V>) returns (r: Option<(K, V)>)
    requires c.Valid() && it.Valid() && it.c == c
    modifies it
    ensures it.Valid()
    ensures r.Some? ==> r.value in c.Contents() && it.l != null && r.value.0 == it.l.k
    ensures it.seen == old(it.seen) + (if r.Some? then [it.l] else [])
    ensures it.t == if r.None? then null else old(it.t)
    ensures r.None? && old(it.t) != null ==> AllPassed(c, it.seen)
    ensures forall k :: k in PassedKeys(it.seen, c.live) ==>
              k in old(PassedKeys(it.seen, c.live)) || (r.Some? && k == r.value.0)
  {
    r := it.Next();
    if r.Some? {
      c.ContentsHas(it.l);
    }
  }

  /** A change to the collection, which leaves the iterator as it is and as good. */
  method Change<K(==), V>(c: Collection<K, V>, it: Iterator<K, V>, op: Op<K, V>)
    requires c.Valid() && it.Valid() && it.c == c && !op.Next?
    modifies c, c.history
    ensures c.Valid() && it.Valid()
    ensures old(c.history) <= c.history
    ensures forall j :: |old(c.history)| <= j < |c.history| ==> fresh(c.history[j])
    ensures c.Contents() == Apply(c.keys, old(c.Contents()), op)
    ensures PassedKeys(it.seen, c.live) <= old(PassedKeys(it.seen, c.live))
  {
    match op {
      case Set(k, v) => c.Def(k, v);
      case Delete(k) => var _ := c.Delete(k);
      case Clear => c.Clear();
    }
    it.Survives();
    PassedFewer(it.seen, old(c.live), c.live);
  }
}
