/**
 The persistent map: an empty map, a flat list of up to eight entries, or a hash
 trie, with its size. Over every run of `set` and `remove` it reads like a finite
 map under any hash function.
 */
module ImmutableMap {
  import opened EntryLists
  import opened Options
  import opened HashTrie
  import opened HashTrieUpdates

  datatype Root<K, V> =
    | Nothing
    | Flat(entries: seq<(K, V)>)
    | Trie(node: Node<K, V>)

  datatype Map<K, V> = Map(size: int, root: Root<K, V>)

  const MAX_FLAT_ENTRIES := 8

  function Empty<K, V>(): Map<K, V> { Map(0, Nothing) }

  ghost predicate Valid<K(!new), V>(hash: K -> Hash, root: Root<K, V>) {
    match root
    case Nothing => true
    case Flat(es) => 1 <= |es| <= MAX_FLAT_ENTRIES && DistinctKeys(es)
    case Trie(node) => WellFormed(hash, node, [])
  }

  function GetRoot<K(==), V>(hash: K -> Hash, root: Root<K, V>, k: K): Option<V> {
    match root
    case Nothing => None
    case Flat(es) => GetEntry(es, k)
    case Trie(node) => HashTrie.Get(node, 0, hash(k), k)
  }

  function Get<K(==), V>(hash: K -> Hash, m: Map<K, V>, k: K): Option<V> {
    GetRoot(hash, m.root, k)
  }

  /** Sets the entries one after another, as the flat list does when it outgrows itself. */
  function InsertAll<K(==), V(==)>(hash: K -> Hash, node: Node<K, V>, es: seq<(K, V)>): Node<K, V>
    decreases |es|
  {
    if es == [] then node
    else
      var r := Update(node, 0, hash(es[0].0), es[0].0, Some(es[0].1));
      InsertAll(hash, if r.node.Some? then r.node.value else node, es[1..])
  }

  /** What an update leaves of the root, and whether it altered or resized the map. */
  datatype RootOutcome<K, V> = RootOutcome(root: Root<K, V>, altered: bool, resized: bool)

  function UpdateFlat<K(==), V(==)>(hash: K -> Hash, es: seq<(K, V)>, k: K, v: Option<V>): RootOutcome<K, V> {
    var i := Find(es, k);
    var found := i < |es|;
    if (if found then v == Some(es[i].1) else v.None?) then RootOutcome(Flat(es), false, false)
    else if v.None? then RootOutcome(if |es| == 1 then Nothing else Flat(RemoveEntry(es, i)), true, true)
    else if found then RootOutcome(Flat(es[i := (k, v.value)]), true, false)
    else if |es| >= MAX_FLAT_ENTRIES then RootOutcome(Trie(InsertAll(hash, Value(hash(k), (k, v.value)), es)), true,
        true)
    else RootOutcome(Flat(es + [(k, v.value)]), true, true)
  }

  function UpdateRoot<K(==), V(==)>(hash: K -> Hash, root: Root<K, V>, k: K, v: Option<V>): RootOutcome<K, V> {
    match root
    case Nothing =>
      if v.None? then RootOutcome(Nothing, false, false) else RootOutcome(Flat([(k, v.value)]), true, true)
    case Flat(es) => UpdateFlat(hash, es, k, v)
    case Trie(node) =>
      var r := Update(node, 0, hash(k), k, v);
      RootOutcome(if r.node.Some? then Trie(r.node.value) else Nothing, r.altered, r.resized)
  }

  /** `set` with a value, `remove` with none. */
  function UpdateMap<K(==), V(==)>(hash: K -> Hash, m: Map<K, V>, k: K, v: Option<V>): Map<K, V> {
    var r := UpdateRoot(hash, m.root, k, v);
    if !r.altered then m
    else if r.root.Nothing? then Empty()
    else Map(m.size + (if !r.resized then 0 else if v.None? then -1 else 1), r.root)
  }

  // ----- one update

  lemma {:induction false} InsertAllOk<K(!new), V>(hash: K -> Hash, node: Node<K, V>, es: seq<(K, V)>, k: K)
    requires WellFormed(hash, node, []) && DistinctKeys(es)
    ensures WellFormed(hash, InsertAll(hash, node, es), [])
    ensures HashTrie.Get(InsertAll(hash, node, es), 0, hash(k), k)
         == if GetEntry(es, k).Some? then GetEntry(es, k) else HashTrie.Get(node, 0, hash(k), k)
    decreases |es|
  {
    if es != [] {
      var e := es[0];
      UpdateOk(hash, node, [], 0, e.0, Some(e.1), k);
      var r := Update(node, 0, hash(e.0), e.0, Some(e.1));
      assert r.node.Some?;
      InsertAllOk(hash, r.node.value, es[1..], k);
      if k == e.0 {
        NoEntry(es[1..], k);
      }
    }
  }

  lemma UpdateFlatOk<K(!new), V>(hash: K -> Hash, es: seq<(K, V)>, k: K, v: Option<V>, k': K)
    requires Valid(hash, Flat(es))
    ensures var r := UpdateFlat(hash, es, k, v);
      && Valid(hash, r.root)
      && GetRoot(hash, r.root, k) == v
      && (k' != k ==> GetRoot(hash, r.root, k') == GetEntry(es, k'))
      && r.altered == (GetEntry(es, k) != v)
      && r.resized == (GetEntry(es, k).None? != v.None?)
      && (!r.altered ==> r.root == Flat(es))
  {
    var i := Find(es, k);
    if i < |es| && v.None? {
      if |es| == 1 {
        assert i == 0 && (k' != k ==> Find(es, k') == 1);
      } else {
        RemoveEntryOk(es, i);
        EntriesRead(es, RemoveEntry(es, i), k, None, k');
      }
    } else if i < |es| {
      OverwriteEntry(es, i, k, v.value, k');
    } else if v.Some? {
      if |es| >= MAX_FLAT_ENTRIES {
        LeafShape(hash, k, v.value, []);
        NoEntry(es, k);
        InsertAllOk(hash, Value(hash(k), (k, v.value)), es, k);
        InsertAllOk(hash, Value(hash(k), (k, v.value)), es, k');
      } else {
        InsertEntry(es, k, v.value, k');
      }
    }
  }

  /** An update keeps the shape, changes what its key reads and nothing else, and knows whether it did. */
  lemma UpdateRootOk<K(!new), V>(hash: K -> Hash, root: Root<K, V>, k: K, v: Option<V>, k': K)
    requires Valid(hash, root)
    ensures var r := UpdateRoot(hash, root, k, v);
      && Valid(hash, r.root)
      && GetRoot(hash, r.root, k) == v
      && (k' != k ==> GetRoot(hash, r.root, k') == GetRoot(hash, root, k'))
      && r.altered == (GetRoot(hash, root, k) != v)
      && r.resized == (GetRoot(hash, root, k).None? != v.None?)
      && (!r.altered ==> r.root == root)
  {
    match root
    case Nothing =>
    case Flat(es) => UpdateFlatOk(hash, es, k, v, k');
    case Trie(node) => UpdateOk(hash, node, [], 0, k, v, k');
  }

  // ----- runs

  /** A map and the dictionary it stands for. */
  ghost predicate Represents<K(!new), V>(hash: K -> Hash, m: Map<K, V>, d: map<K, V>) {
    var represents :=
      && Valid(hash, m.root)
      && m.size == |d|
      && forall k :: Get(hash, m, k) == if k in d then Some(d[k]) else None;
    represents
  }

  function Apply<K, V>(d: map<K, V>, k: K, v: Option<V>): map<K, V> {
    match v
    case None => d - {k}
    case Some(x) => d[k := x]
  }

  lemma SizeOfSets<K>(s: set<K>, k: K)
    ensures |s + {k}| == |s| + if k in s then 0 else 1
    ensures |s - {k}| == |s| - if k in s then 1 else 0
  {
    if k in s {
      assert s + {k} == s && s == (s - {k}) + {k};
    } else {
      assert s - {k} == s;
    }
  }

  lemma SizeOfMap<K, V>(d: map<K, V>)
    ensures |d| == |d.Keys|
  {}

  lemma SizeStep<K, V>(d: map<K, V>, k: K, v: Option<V>)
    ensures |Apply(d, k, v)| == |d| + (if v.Some? && k !in d then 1 else if v.None? && k in d then -1 else 0)
  {
    assert Apply(d, k, v).Keys == if v.Some? then d.Keys + {k} else d.Keys - {k};
    SizeOfSets(d.Keys, k);
    SizeOfMap(d);
    SizeOfMap(Apply(d, k, v));
  }

  /** One update of a map that represents a dictionary reads like the updated dictionary. */
  lemma UpdateReads<K(!new), V>(hash: K -> Hash, m: Map<K, V>, d: map<K, V>, k: K, v: Option<V>, k': K)
    requires Represents(hash, m, d)
    ensures var d' := Apply(d, k, v);
      Get(hash, UpdateMap(hash, m, k, v), k') == if k' in d' then Some(d'[k']) else None
  {
    UpdateRootOk(hash, m.root, k, v, k');
    assert Get(hash, m, k') == if k' in d then Some(d[k']) else None;
  }

  lemma UpdateSize<K(!new), V>(hash: K -> Hash, m: Map<K, V>, d: map<K, V>, k: K, v: Option<V>)
    requires Represents(hash, m, d)
    ensures UpdateMap(hash, m, k, v).size == |Apply(d, k, v)|
  {
    UpdateRootOk(hash, m.root, k, v, k);
    assert Get(hash, m, k) == if k in d then Some(d[k]) else None;
    SizeStep(d, k, v);
    var d' := Apply(d, k, v);
    if UpdateRoot(hash, m.root, k, v).root.Nothing? && UpdateRoot(hash, m.root, k, v).altered {
      forall k' ensures k' !in d' {
        UpdateReads(hash, m, d, k, v, k');
      }
      assert d' == map[];
    }
  }

  lemma UpdateRepresents<K(!new), V>(hash: K -> Hash, m: Map<K, V>, d: map<K, V>, k: K, v: Option<V>)
    requires Represents(hash, m, d)
    ensures Represents(hash, UpdateMap(hash, m, k, v), Apply(d, k, v))
  {
    var d' := Apply(d, k, v);
    forall k' ensures Get(hash, UpdateMap(hash, m, k, v), k') == if k' in d' then Some(d'[k']) else None {
      UpdateReads(hash, m, d, k, v, k');
    }
    UpdateSize(hash, m, d, k, v);
    UpdateRootOk(hash, m.root, k, v, k);
  }

  /** A run of updates, the first one first: a value sets its key, None removes it. */
  function Run<K(==), V(==)>(hash: K -> Hash, ops: seq<(K, Option<V>)>): Map<K, V> {
    if ops == [] then Empty()
    else
      var (k, v) := ops[|ops| - 1];
      UpdateMap(hash, Run(hash, ops[..|ops| - 1]), k, v)
  }

  function RunDictionary<K, V>(ops: seq<(K, Option<V>)>): map<K, V> {
    if ops == [] then map[]
    else
      var (k, v) := ops[|ops| - 1];
      Apply(RunDictionary(ops[..|ops| - 1]), k, v)
  }

  /**
   After every run of updates, under every hash function, the map reads like a plain
   dictionary after the same run, its size is the number of keys, and its trie is
   well formed.
   */
  lemma {:induction false} RunRefinesDictionary<K(!new), V>(hash: K -> Hash, ops: seq<(K, Option<V>)>)
    ensures Represents(hash, Run(hash, ops), RunDictionary(ops))
  {
    if ops != [] {
      var (k, v) := ops[|ops| - 1];
      RunRefinesDictionary(hash, ops[..|ops| - 1]);
      UpdateRepresents(hash, Run(hash, ops[..|ops| - 1]), RunDictionary(ops[..|ops| - 1]), k, v);
    }
  }

  // ----- the order within a list

  /** A new entry comes last, a new value stays in place, and the last entry takes the place of a removed one. */
  ghost predicate ListUpdated<K, V>(es: seq<(K, V)>, fs: seq<(K, V)>, k: K, v: Option<V>) {
    var n, i := |es|, Find(es, k);
    && |fs| == (if v.Some? then if i == n then n + 1 else n else if i == n then n else n - 1)
    && forall j :: 0 <= j < |fs| ==> fs[j] == if j != i then es[j] else if v.Some? then (k, v.value) else es[n - 1]
  }

  lemma FlatOrder<K(!new), V>(hash: K -> Hash, es: seq<(K, V)>, k: K, v: Option<V>)
    requires es != []
    ensures var r := UpdateFlat(hash, es, k, v).root;
            && (r.Flat? ==> ListUpdated(es, r.entries, k, v))
            && (r.Nothing? ==> |es| == 1 && es[0].0 == k && v.None?)
            && (r.Trie? ==> v.Some? && Find(es, k) == |es|)
  {
    hide InsertAll, Find, DistinctKeys;
  }

  lemma BucketOrder<K, V>(node: Node<K, V>, shift: nat, k: K, v: Option<V>)
    requires node.Collision? && |node.entries| >= 2
    ensures var r := UpdateCollision(node, shift, node.keyHash, k, v).node;
            && r.Some? && r.value.IsLeaf() && r.value.keyHash == node.keyHash
            && (r.value.Collision? ==> ListUpdated(node.entries, r.value.entries, k, v))
            && (r.value.Value? ==> ListUpdated(node.entries, [r.value.entry], k, v))
  {}

  /** A second entry of the same hash stands after the first. */
  lemma SecondOrder<K, V>(node: Node<K, V>, shift: nat, k: K, x: V)
    requires node.Value? && node.entry.0 != k
    ensures var r := UpdateValue(node, shift, node.keyHash, k, Some(x)).node;
            r == Some(Collision(node.keyHash, [node.entry, (k, x)]))
  {}

  /** When a full list of colliding keys becomes a trie, the new entry comes first and then the list. */
  lemma {:induction false} NinthFirst<K(!new), V>(hash: K -> Hash, es: seq<(K, V)>, k: K, x: V)
    requires es != [] && DistinctKeys([(k, x)] + es) && forall e :: e in es ==> hash(e.0) == hash(k)
    ensures InsertAll(hash, Value(hash(k), (k, x)), es) == Collision(hash(k), [(k, x)] + es)
  {
    var all := [(k, x)] + es;
    assert all[0].0 != all[1].0 && es[0] in es;
    assert all == [(k, x), es[0]] + es[1..];
    SecondOrder(Value(hash(k), (k, x)), 0, es[0].0, es[0].1);
    BucketGrows(hash, hash(k), [(k, x), es[0]], es[1..]);
  }

  lemma {:induction false} BucketGrows<K(!new), V>(hash: K -> Hash, h: Hash, fs: seq<(K, V)>, es: seq<(K, V)>)
    requires |fs| >= 2 && DistinctKeys(fs + es) && forall e :: e in es ==> hash(e.0) == h
    ensures InsertAll(hash, Collision(h, fs), es) == Collision(h, fs + es)
    decreases |es|
  {
    if es == [] {
      assert fs + es == fs;
    } else {
      var e := es[0];
      assert forall j :: 0 <= j < |fs| ==> (fs + es)[j] == fs[j];
      assert (fs + es)[|fs|] == e && e in es;
      assert Find(fs, e.0) == |fs|;
      assert fs + es == (fs + [e]) + es[1..];
      BucketGrows(hash, h, fs + [e], es[1..]);
    }
  }

  // ----- the sizes at which the representation changes

  /** Every node of a trie: up to 16 children behind a bitmap, 8 to 32 in an array, two entries or more in a bucket. */
  lemma SizesInNumbers<K(!new), V>(hash: K -> Hash, node: Node<K, V>, path: seq<int>)
    requires WellFormed(hash, node, path)
    ensures match node
            case BitmapIndexed(_, nodes) => |path| < 7 && 1 <= |nodes| <= 16
            case HashArray(count, slots) => |path| < 7 && |slots| == 32 && 8 <= count == HashTrie.Filled(slots, 32)
            case Collision(_, es) => |es| >= 2
            case Value(_, _) => true
  {}

  /** A list holds up to eight entries, and becomes a trie exactly with the ninth. */
  lemma OutgrowsIff<K(!new), V>(hash: K -> Hash, es: seq<(K, V)>, k: K, v: Option<V>)
    requires Valid(hash, Flat(es))
    ensures |es| <= 8
    ensures UpdateFlat(hash, es, k, v).root.Trie? <==> v.Some? && GetEntry(es, k).None? && |es| == 8
  {}

  /** A bitmap node becomes an array of slots exactly with its seventeenth child. */
  lemma ExpandsIff<K(!new), V>(b: nat, nodes: seq<Node<K, V>>, s: nat, d: Outcome<K, V>)
    requires s < 32 && |nodes| <= 16 && Index(b, s) <= |nodes| && !Used(b, s) && d.node.Some?
    ensures var r := UpdateBitmap(b, nodes, s, d).node;
            r.Some? && (r.value.HashArray? <==> |nodes| == 16)
            && if r.value.HashArray? then r.value.count == 17
               else r.value.BitmapIndexed? && |r.value.nodes| == |nodes| + 1
  {}

  /** An array of slots becomes a bitmap node exactly when seven children are left. */
  lemma PacksIff<K(!new), V>(count: int, slots: seq<Option<Node<K, V>>>, s: nat, d: Outcome<K, V>)
    requires s < |slots| == 32 && 8 <= count == HashTrie.Filled(slots, 32) && slots[s].Some? && d.node.None?
    ensures var r := UpdateArray(count, slots, s, d).node;
            r.Some? && (r.value.BitmapIndexed? <==> count == 8)
            && if r.value.BitmapIndexed? then |r.value.nodes| == 7 else r.value.HashArray? && r.value.count == count - 1
  {
    PackedCount(slots, s, 32);
  }

  lemma {:induction false} PackedCount<T>(slots: seq<Option<T>>, s: nat, n: nat)
    requires n <= |slots| && s < |slots| && slots[s].Some?
    ensures |PackedNodes(slots, s, n)| == HashTrie.Filled(slots, n) - if s < n then 1 else 0
  {
    if n > 0 {
      PackedCount(slots, s, n - 1);
    }
  }
}
