/**
 The update of a node, proved against a dictionary: the result is well formed, every
 key reads as it should, and the flags say truly whether anything changed.
 */
module HashTrieUpdates {
  import opened EntryLists
  import opened Options
  import opened Words
  import opened HashTrie
  import opened HashTrieProofs
  import opened HashTrieBranches

  ghost function Lookup<K, V>(node: Option<Node<K, V>>, shift: nat, h: Hash, k: K): Option<V> {
    match node
    case None => None
    case Some(n) => Get(n, shift, h, k)
  }

  /** The shape and the flags of an update's outcome. */
  ghost predicate Sound<K(!new), V>(hash: K -> Hash, node: Node<K, V>, path: seq<int>, k: K, v: Option<V>,
          r: Outcome<K, V>) {
    var before := Get(node, 5 * |path|, hash(k), k);
    var sound :=
      && (r.node.Some? ==> WellFormed(hash, r.node.value, path))
      && (r.node.None? ==> node.Value?)
      && r.altered == (before != v)
      && r.resized == (before.None? != v.None?)
      && (!r.altered ==> r.node == Some(node));
    sound
  }

  /** k reads v afterwards, and another key k' reads as before. */
  ghost predicate Reads<K(!new), V>(hash: K -> Hash, node: Node<K, V>, path: seq<int>, k: K, v: Option<V>,
          r: Outcome<K, V>, k': K) {
    var shift := 5 * |path|;
    var agrees :=
      && Lookup(r.node, shift, hash(k), k) == v
      && (k' != k ==> Lookup(r.node, shift, hash(k'), k') == Get(node, shift, hash(k'), k'));
    agrees
  }

  // ----- leaves

  lemma UpdateValueOk<K(!new), V>(hash: K -> Hash, node: Node<K, V>, path: seq<int>, k: K, v: Option<V>, k': K)
    requires WellFormed(hash, node, path) && node.Value? && OnPath(hash(k), path)
    ensures Sound(hash, node, path, k, v, UpdateValue(node, 5 * |path|, hash(k), k, v))
    ensures Reads(hash, node, path, k, v, UpdateValue(node, 5 * |path|, hash(k), k, v), k')
  {
    if node.entry.0 != k && v.Some? {
      MergeWellFormed(hash, node, path, 5 * |path|, hash(k), (k, v.value));
      MergeGet(hash, node, path, 5 * |path|, hash(k), (k, v.value), k);
      MergeGet(hash, node, path, 5 * |path|, hash(k), (k, v.value), k');
    }
  }

  lemma CollisionMiss<K(!new), V>(hash: K -> Hash, node: Node<K, V>, path: seq<int>, k: K, v: Option<V>, k': K)
    requires WellFormed(hash, node, path) && node.Collision? && OnPath(hash(k), path) && hash(k) != node.keyHash
    ensures Sound(hash, node, path, k, v, UpdateCollision(node, 5 * |path|, hash(k), k, v))
    ensures Reads(hash, node, path, k, v, UpdateCollision(node, 5 * |path|, hash(k), k, v), k')
  {
    LeafMisses(hash, node, path, 5 * |path|, k);
    if v.Some? {
      MergeWellFormed(hash, node, path, 5 * |path|, hash(k), (k, v.value));
      MergeGet(hash, node, path, 5 * |path|, hash(k), (k, v.value), k);
      MergeGet(hash, node, path, 5 * |path|, hash(k), (k, v.value), k');
    }
  }

  /** Reading a list with distinct keys: an entry found anywhere is the entry found. */
  lemma EntryIs<K, V>(es: seq<(K, V)>, i: nat, k: K)
    requires DistinctKeys(es) && i < |es| && es[i].0 == k
    ensures Find(es, k) == i && GetEntry(es, k) == Some(es[i].1)
  {
  }

  lemma NoEntry<K, V>(es: seq<(K, V)>, k: K)
    requires forall i :: 0 <= i < |es| ==> es[i].0 != k
    ensures Find(es, k) == |es| && GetEntry(es, k) == None
  {
  }

  /** es' has the entries of es, except that k now reads v. */
  lemma EntriesRead<K, V>(es: seq<(K, V)>, es': seq<(K, V)>, k: K, v: Option<V>, k': K)
    requires DistinctKeys(es) && DistinctKeys(es')
    requires forall i :: 0 <= i < |es'| ==> (es'[i] in es && es'[i].0 != k) || (v.Some? && es'[i] == (k, v.value))
    requires forall i :: 0 <= i < |es| ==> es[i] in es' || es[i].0 == k
    requires v.Some? ==> (k, v.value) in es'
    ensures GetEntry(es', k) == v
    ensures k' != k ==> GetEntry(es', k') == GetEntry(es, k')
  {
    if v.Some? {
      var i :| 0 <= i < |es'| && es'[i] == (k, v.value);
      EntryIs(es', i, k);
    } else {
      NoEntry(es', k);
    }
    if k' != k {
      var i := Find(es, k');
      if i < |es| {
        var j :| 0 <= j < |es'| && es'[j] == es[i];
        EntryIs(es', j, k');
      } else {
        NoEntry(es', k');
      }
    }
  }

  lemma RemoveEntryOk<K, V>(es: seq<(K, V)>, i: nat)
    requires DistinctKeys(es) && i < |es|
    ensures var es' := RemoveEntry(es, i);
      && |es'| == |es| - 1 && DistinctKeys(es')
      && (forall j :: 0 <= j < |es'| ==> es'[j] in es && es'[j].0 != es[i].0)
      && (forall j :: 0 <= j < |es| && j != i ==> es[j] in es')
  {
    var es', n := RemoveEntry(es, i), |es| - 1;
    forall j | 0 <= j < |es| && j != i ensures es[j] in es' {
      assert es[j] == es'[if j == n then i else j];
    }
    forall j | 0 <= j < |es'| ensures es'[j] in es && es'[j].0 != es[i].0 {
      assert es'[j] == es[if j == i then n else j];
    }
  }

  lemma CollisionHit<K(!new), V>(hash: K -> Hash, node: Node<K, V>, path: seq<int>, k: K, v: Option<V>, k': K)
    requires WellFormed(hash, node, path) && node.Collision? && hash(k) == node.keyHash
    ensures Sound(hash, node, path, k, v, UpdateCollision(node, 5 * |path|, hash(k), k, v))
    ensures Reads(hash, node, path, k, v, UpdateCollision(node, 5 * |path|, hash(k), k, v), k')
  {
    var i := Find(node.entries, k);
    if v.None? {
      if i < |node.entries| {
        RemoveHit(hash, node, path, k, i, k');
      }
    } else if i == |node.entries| {
      InsertEntry(node.entries, k, v.value, k');
    } else if node.entries[i].1 != v.value {
      OverwriteEntry(node.entries, i, k, v.value, k');
    }
  }

  lemma InsertEntry<K, V>(es: seq<(K, V)>, k: K, x: V, k': K)
    requires DistinctKeys(es) && Find(es, k) == |es|
    ensures DistinctKeys(es + [(k, x)])
    ensures GetEntry(es + [(k, x)], k) == Some(x)
    ensures k' != k ==> GetEntry(es + [(k, x)], k') == GetEntry(es, k')
  {
    var es' := es + [(k, x)];
    assert es'[|es|] == (k, x);
    assert forall j :: 0 <= j < |es| ==> es'[j] == es[j];
    EntriesRead(es, es', k, Some(x), k');
  }

  lemma OverwriteEntry<K, V>(es: seq<(K, V)>, i: nat, k: K, x: V, k': K)
    requires DistinctKeys(es) && i < |es| && es[i].0 == k
    ensures DistinctKeys(es[i := (k, x)])
    ensures GetEntry(es[i := (k, x)], k) == Some(x)
    ensures k' != k ==> GetEntry(es[i := (k, x)], k') == GetEntry(es, k')
  {
    var es' := es[i := (k, x)];
    assert es'[i] == (k, x);
    assert forall j :: 0 <= j < |es| && j != i ==> es'[j] == es[j];
    EntriesRead(es, es', k, Some(x), k');
  }

  lemma RemoveHit<K(!new), V>(hash: K -> Hash, node: Node<K, V>, path: seq<int>, k: K, i: nat, k': K)
    requires WellFormed(hash, node, path) && node.Collision? && hash(k) == node.keyHash
    requires i == Find(node.entries, k) < |node.entries|
    ensures Sound(hash, node, path, k, None, UpdateCollision(node, 5 * |path|, hash(k), k, None))
    ensures Reads(hash, node, path, k, None, UpdateCollision(node, 5 * |path|, hash(k), k, None), k')
  {
    var es := node.entries;
    if |es| == 2 {
      if k' == es[1 - i].0 { EntryIs(es, 1 - i, k'); }
    } else {
      RemoveOne(hash, node, path, k, i);
      RemoveEntryOk(es, i);
      EntriesRead(es, RemoveEntry(es, i), k, None, k');
    }
  }

  lemma RemoveOne<K(!new), V>(hash: K -> Hash, node: Node<K, V>, path: seq<int>, k: K, i: nat)
    requires WellFormed(hash, node, path) && node.Collision?
    requires i < |node.entries| && |node.entries| > 2
    ensures WellFormed(hash, Collision(node.keyHash, RemoveEntry(node.entries, i)), path)
  {
    var es, es' := node.entries, RemoveEntry(node.entries, i);
    RemoveEntryOk(es, i);
    forall j | 0 <= j < |es'| ensures hash(es'[j].0) == node.keyHash {
      var j' :| 0 <= j' < |es| && es[j'] == es'[j];
    }
  }

  // ----- branches

  /** The update of the child of slot s, as the branch above sees it. */
  ghost predicate ChildUpdated<K(!new), V>(hash: K -> Hash, node: Node<K, V>, path: seq<int>, k: K, v: Option<V>,
          d: Outcome<K, V>, k': K)
    requires !node.IsLeaf()
  {
    var s := Slice(hash(k), 5 * |path|);
    match ChildAt(node, s)
    case Some(c) => Sound(hash, c, path + [s], k, v, d) && Reads(hash, c, path + [s], k, v, d, k')
    case None => v.Some? && d == NewLeaf(hash(k), k, v)
  }

  /** What the outcome of the child says holds of the branch as well. */
  lemma ChildFlags<K(!new), V>(hash: K -> Hash, node: Node<K, V>, path: seq<int>, k: K, v: Option<V>,
          d: Outcome<K, V>, k': K)
    requires !node.IsLeaf() && OnPath(hash(k), path)
    requires ChildUpdated(hash, node, path, k, v, d, k')
    ensures var before := Get(node, 5 * |path|, hash(k), k);
      d.altered == (before != v) && d.resized == (before.None? != v.None?)
    ensures d.node.Some? ==> WellFormed(hash, d.node.value, path + [Slice(hash(k), 5 * |path|)])
    ensures Lookup(d.node, 5 * |path| + 5, hash(k), k) == v
  {
    var s := Slice(hash(k), 5 * |path|);
    GetChild(node, 5 * |path|, hash(k), k);
    match ChildAt(node, s)
    case None =>
      OneSliceOn(hash(k), path);
      LeafShape(hash, k, v.value, path + [s]);
    case Some(c) => SoundAt(hash, c, path, s, k, v, d, k');
  }

  lemma SoundAt<K(!new), V>(hash: K -> Hash, c: Node<K, V>, path: seq<int>, s: int, k: K, v: Option<V>,
          d: Outcome<K, V>, k': K)
    requires Sound(hash, c, path + [s], k, v, d) && Reads(hash, c, path + [s], k, v, d, k')
    ensures var before := Get(c, 5 * |path| + 5, hash(k), k);
      d.altered == (before != v) && d.resized == (before.None? != v.None?)
    ensures d.node.Some? ==> WellFormed(hash, d.node.value, path + [s])
    ensures Lookup(d.node, 5 * |path| + 5, hash(k), k) == v
  {
    assert |path + [s]| == |path| + 1;
  }

  lemma ReadsAt<K(!new), V>(hash: K -> Hash, c: Node<K, V>, path: seq<int>, s: int, k: K, v: Option<V>,
                            d: Outcome<K, V>, k': K)
    requires Reads(hash, c, path + [s], k, v, d, k') && k' != k
    ensures Lookup(d.node, 5 * |path| + 5, hash(k'), k') == Get(c, 5 * |path| + 5, hash(k'), k')
  {
    assert 5 * |path + [s]| == 5 * |path| + 5;
  }

  lemma LeafShape<K(!new), V>(hash: K -> Hash, k: K, x: V, path: seq<int>)
    requires OnPath(hash(k), path)
    ensures WellFormed(hash, Value(hash(k), (k, x)), path)
  {
  }

  /** Another key below the same slot reads in the updated child what it read before. */
  lemma ChildReads<K(!new), V>(hash: K -> Hash, node: Node<K, V>, path: seq<int>, k: K, v: Option<V>,
          d: Outcome<K, V>, k': K)
    requires !node.IsLeaf() && k' != k
    requires ChildUpdated(hash, node, path, k, v, d, k')
    ensures var s, shift := Slice(hash(k), 5 * |path|), 5 * |path| + 5;
      Lookup(d.node, shift, hash(k'), k') == Lookup(ChildAt(node, s), shift, hash(k'), k')
  {
    var s := Slice(hash(k), 5 * |path|);
    match ChildAt(node, s)
    case None =>
    case Some(c) => ReadsAt(hash, c, path, s, k, v, d, k');
  }

  lemma RebuiltReads<K(!new), V>(hash: K -> Hash, node: Node<K, V>, path: seq<int>, k: K, v: Option<V>,
          d: Outcome<K, V>, r: Node<K, V>, k': K)
    requires !node.IsLeaf() && !r.IsLeaf()
    requires Lookup(d.node, 5 * |path| + 5, hash(k), k) == v
    requires var s, shift := Slice(hash(k), 5 * |path|), 5 * |path| + 5;
      k' != k ==> Lookup(d.node, shift, hash(k'), k') == Lookup(ChildAt(node, s), shift, hash(k'), k')
    requires ChildReplaced(node, r, Slice(hash(k), 5 * |path|), d.node)
    ensures Reads(hash, node, path, k, v, d.(node := Some(r)), k')
  {
    var shift := 5 * |path|;
    GetChild(r, shift, hash(k), k);
    GetChild(node, shift, hash(k'), k');
    GetChild(r, shift, hash(k'), k');
  }

  /** Replacing the child by its update is right, whichever way the branch is rebuilt. */
  lemma RebuiltOk<K(!new), V>(hash: K -> Hash, node: Node<K, V>, path: seq<int>, k: K, v: Option<V>,
          d: Outcome<K, V>, r: Node<K, V>, k': K)
    requires WellFormed(hash, node, path) && !node.IsLeaf() && OnPath(hash(k), path)
    requires ChildUpdated(hash, node, path, k, v, d, k') && d.altered
    requires Branch(r) && ChildReplaced(node, r, Slice(hash(k), 5 * |path|), d.node)
    ensures Sound(hash, node, path, k, v, d.(node := Some(r)))
    ensures Reads(hash, node, path, k, v, d.(node := Some(r)), k')
  {
    ChildFlags(hash, node, path, k, v, d, k');
    ReplacedShape(hash, node, r, path, Slice(hash(k), 5 * |path|), d.node);
    if k' != k { ChildReads(hash, node, path, k, v, d, k'); }
    RebuiltReads(hash, node, path, k, v, d, r, k');
  }

  /** Taking over a leaf that is alone once the child of slot s is updated. */
  lemma CollapsedOk<K(!new), V>(hash: K -> Hash, node: Node<K, V>, path: seq<int>, k: K, v: Option<V>,
          d: Outcome<K, V>, j: nat, leaf: Node<K, V>, k': K)
    requires WellFormed(hash, node, path) && !node.IsLeaf() && OnPath(hash(k), path)
    requires ChildUpdated(hash, node, path, k, v, d, k')
    requires j < SLOTS && leaf.IsLeaf() && WellFormed(hash, leaf, path + [j])
    requires forall i: nat {:trigger ChildAt(node, i)} :: i < SLOTS ==>
      (if i == Slice(hash(k), 5 * |path|) then d.node else ChildAt(node, i)) == if i == j then Some(leaf) else None
    ensures WellFormed(hash, leaf, path)
    ensures Reads(hash, node, path, k, v, d.(node := Some(leaf)), k')
  {
    var shift := 5 * |path|;
    LeafMovesUp(hash, leaf, path, j);
    ChildFlags(hash, node, path, k, v, d, k');
    CollapsedReads(hash, node, path, k, v, d, j, leaf, k);
    if k' != k {
      ChildReads(hash, node, path, k, v, d, k');
      GetChild(node, shift, hash(k'), k');
      CollapsedReads(hash, node, path, k, v, d, j, leaf, k');
    }
  }

  /** The leaf reads what the branch with d in slot s would read. */
  lemma CollapsedReads<K(!new), V>(hash: K -> Hash, node: Node<K, V>, path: seq<int>, k: K, v: Option<V>,
          d: Outcome<K, V>, j: nat, leaf: Node<K, V>, k': K)
    requires j < SLOTS && leaf.IsLeaf() && WellFormed(hash, leaf, path) && Slice(leaf.keyHash, 5 * |path|) == j
    requires forall i: nat {:trigger ChildAt(node, i)} :: i < SLOTS ==>
      (if i == Slice(hash(k), 5 * |path|) then d.node else ChildAt(node, i)) == if i == j then Some(leaf) else None
    ensures var t := Slice(hash(k'), 5 * |path|);
      Get(leaf, 5 * |path|, hash(k'), k')
      == Lookup(if t == Slice(hash(k), 5 * |path|) then d.node else ChildAt(node, t), 5 * |path| + 5, hash(k'), k')
  {
    var t := Slice(hash(k'), 5 * |path|);
    assert ChildAt(node, t) == ChildAt(node, t);
    LeafGet(leaf, 5 * |path|, 5 * |path| + 5, hash(k'), k');
    if t != j { LeafMisses(hash, leaf, path, 5 * |path|, k'); }
  }

  /** An update that leaves the child as it was leaves the branch as it was. */
  lemma UnchangedOk<K(!new), V>(hash: K -> Hash, node: Node<K, V>, path: seq<int>, k: K, v: Option<V>,
          d: Outcome<K, V>, k': K)
    requires WellFormed(hash, node, path) && !node.IsLeaf() && OnPath(hash(k), path)
    requires ChildUpdated(hash, node, path, k, v, d, k')
    requires d.node == ChildAt(node, Slice(hash(k), 5 * |path|))
    ensures Sound(hash, node, path, k, v, d.(node := Some(node)))
    ensures Reads(hash, node, path, k, v, d.(node := Some(node)), k')
  {
    ChildFlags(hash, node, path, k, v, d, k');
    GetChild(node, 5 * |path|, hash(k), k);
  }

  lemma ChangedChild<K(!new), V>(hash: K -> Hash, node: Node<K, V>, path: seq<int>, k: K, v: Option<V>,
          d: Outcome<K, V>, k': K)
    requires !node.IsLeaf() && ChildUpdated(hash, node, path, k, v, d, k')
    requires d.node != ChildAt(node, Slice(hash(k), 5 * |path|))
    ensures d.altered
    ensures var c := ChildAt(node, Slice(hash(k), 5 * |path|)); d.node.None? ==> c.Some? && c.value.Value?
  {
  }

  lemma TwoSlots<K, V>(b: nat, nodes: seq<Node<K, V>>, s: nat, j: nat)
    requires Branch(BitmapIndexed(b, nodes)) && |nodes| == 2 && s < SLOTS && j < SLOTS
    requires Used(b, s) && Used(b, j) && Index(b, j) == 1 - Index(b, s)
    ensures forall i: nat {:trigger ChildAt(BitmapIndexed(b, nodes), i)} :: i < SLOTS && i != s ==>
      ChildAt(BitmapIndexed(b, nodes), i) == if i == j then Some(nodes[Index(b, j)]) else None
  {
    forall i: nat | i < SLOTS && Used(b, i) ensures i == s || i == j {
      IndexOfUsed(b, i);
      if i != s { IndexInjective(b, i, s); }
      if i != j { IndexInjective(b, i, j); }
    }
  }

  lemma OneSlot<K, V>(b: nat, nodes: seq<Node<K, V>>, s: nat)
    requires Branch(BitmapIndexed(b, nodes)) && |nodes| == 1 && s < SLOTS && Used(b, s)
    ensures forall i: nat {:trigger ChildAt(BitmapIndexed(b, nodes), i)} :: i < SLOTS && i != s ==>
      ChildAt(BitmapIndexed(b, nodes), i) == None
  {
    forall i: nat | i < SLOTS && Used(b, i) ensures i == s {
      IndexOfUsed(b, i);
      IndexOfUsed(b, s);
      if i != s { IndexInjective(b, i, s); }
    }
  }

  /** When a bitmap node gives way to the one leaf it would be left with. */
  ghost predicate Collapses<K, V>(b: nat, nodes: seq<Node<K, V>>, s: nat, d: Outcome<K, V>) {
    && Used(b, s) && Index(b, s) < |nodes|
    && match d.node
       case None => |nodes| == 2 && nodes[1 - Index(b, s)].IsLeaf()
       case Some(x) => |nodes| == 1 && x.IsLeaf()
  }

  /** A collapse takes over the only child left, from its slot j. */
  lemma BitmapCollapsed<K, V>(b: nat, nodes: seq<Node<K, V>>, s: nat, d: Outcome<K, V>) returns (j: nat,
          leaf: Node<K, V>)
    requires Branch(BitmapIndexed(b, nodes)) && s < SLOTS && Collapses(b, nodes, s, d)
    requires d.node != ChildAt(BitmapIndexed(b, nodes), s)
    ensures j < SLOTS && leaf.IsLeaf() && UpdateBitmap(b, nodes, s, d) == d.(node := Some(leaf))
    ensures if d.node.Some? then j == s && d.node == Some(leaf) else ChildAt(BitmapIndexed(b, nodes), j) == Some(leaf)
    ensures forall i: nat {:trigger ChildAt(BitmapIndexed(b, nodes), i)} :: i < SLOTS ==>
      (if i == s then d.node else ChildAt(BitmapIndexed(b, nodes), i)) == if i == j then Some(leaf) else None
  {
    if d.node.Some? {
      OneSlot(b, nodes, s);
      j, leaf := s, d.node.value;
    } else {
      j := SlotOfIndex(b, 1 - Index(b, s), SLOTS);
      TwoSlots(b, nodes, s, j);
      leaf := nodes[Index(b, j)];
    }
  }

  lemma BitmapUnchanged<K, V>(b: nat, nodes: seq<Node<K, V>>, s: nat, d: Outcome<K, V>)
    requires s < SLOTS && d.node.Some? && d.node == ChildAt(BitmapIndexed(b, nodes), s)
    ensures UpdateBitmap(b, nodes, s, d) == d.(node := Some(BitmapIndexed(b, nodes)))
  {
  }

  lemma BitmapRebuilt<K, V>(b: nat, nodes: seq<Node<K, V>>, s: nat, d: Outcome<K, V>)
    requires Branch(BitmapIndexed(b, nodes)) && s < SLOTS && !Collapses(b, nodes, s, d)
    requires d.node != ChildAt(BitmapIndexed(b, nodes), s)
    requires var c := ChildAt(BitmapIndexed(b, nodes), s); d.node.None? ==> c.Some? && c.value.Value?
    ensures var r := UpdateBitmap(b, nodes, s, d);
      && r.node.Some? && r == d.(node := r.node)
      && Branch(r.node.value) && ChildReplaced(BitmapIndexed(b, nodes), r.node.value, s, d.node)
  {
    if Used(b, s) {
      IndexOfUsed(b, s);
      if d.node.Some? { ReplaceBitmapChild(b, nodes, s, d.node.value); } else { SpliceOutChild(b, nodes, s); }
    } else {
      IndexBound(b, s);
      if |nodes| == MAX_BITMAP_CHILDREN { ExpandChild(b, nodes, s, d.node.value); }
      else { SpliceInChild(b, nodes, s, d.node.value); }
    }
  }

  lemma CollapseOk<K(!new), V>(hash: K -> Hash, b: nat, nodes: seq<Node<K, V>>, path: seq<int>, k: K, v: Option<V>,
          d: Outcome<K, V>, k': K)
    requires WellFormed(hash, BitmapIndexed(b, nodes), path) && OnPath(hash(k), path)
    requires ChildUpdated(hash, BitmapIndexed(b, nodes), path, k, v, d, k')
    requires d.node != ChildAt(BitmapIndexed(b, nodes), Slice(hash(k), 5 * |path|))
    requires Collapses(b, nodes, Slice(hash(k), 5 * |path|), d)
    ensures Sound(hash, BitmapIndexed(b, nodes), path, k, v, UpdateBitmap(b, nodes, Slice(hash(k), 5 * |path|), d))
    ensures Reads(hash, BitmapIndexed(b, nodes), path, k, v, UpdateBitmap(b, nodes, Slice(hash(k), 5 * |path|), d), k')
  {
    var node, s := BitmapIndexed(b, nodes), Slice(hash(k), 5 * |path|);
    ChildShape(hash, node, path, s);
    var j, leaf := BitmapCollapsed(b, nodes, s, d);
    ChildShape(hash, node, path, j);
    ChangedChild(hash, node, path, k, v, d, k');
    ChildFlags(hash, node, path, k, v, d, k');
    CollapsedOk(hash, node, path, k, v, d, j, leaf, k');
  }

  lemma BitmapOk<K(!new), V>(hash: K -> Hash, b: nat, nodes: seq<Node<K, V>>, path: seq<int>, k: K, v: Option<V>,
          d: Outcome<K, V>, k': K)
    requires WellFormed(hash, BitmapIndexed(b, nodes), path) && OnPath(hash(k), path)
    requires ChildUpdated(hash, BitmapIndexed(b, nodes), path, k, v, d, k')
    ensures Sound(hash, BitmapIndexed(b, nodes), path, k, v, UpdateBitmap(b, nodes, Slice(hash(k), 5 * |path|), d))
    ensures Reads(hash, BitmapIndexed(b, nodes), path, k, v, UpdateBitmap(b, nodes, Slice(hash(k), 5 * |path|), d), k')
  {
    var node, s := BitmapIndexed(b, nodes), Slice(hash(k), 5 * |path|);
    ChildShape(hash, node, path, s);
    if d.node == ChildAt(node, s) {
      BitmapUnchanged(b, nodes, s, d);
      UnchangedOk(hash, node, path, k, v, d, k');
    } else if Collapses(b, nodes, s, d) {
      CollapseOk(hash, b, nodes, path, k, v, d, k');
    } else {
      ChangedChild(hash, node, path, k, v, d, k');
      BitmapRebuilt(b, nodes, s, d);
      var r := UpdateBitmap(b, nodes, s, d);
      RebuiltOk(hash, node, path, k, v, d, r.node.value, k');
    }
  }

  lemma ArrayRebuilt<K, V>(count: int, slots: seq<Option<Node<K, V>>>, s: nat, d: Outcome<K, V>)
    requires Branch(HashArray(count, slots)) && s < SLOTS && d.node != slots[s]
    ensures var r := UpdateArray(count, slots, s, d);
      && r.node.Some? && r == d.(node := r.node)
      && Branch(r.node.value) && ChildReplaced(HashArray(count, slots), r.node.value, s, d.node)
  {
    if slots[s].Some? && d.node.None? && count - 1 < MIN_ARRAY_CHILDREN {
      PackChild(count, slots, s);
    } else {
      SetSlot(count, slots, s, d.node);
    }
  }

  lemma ArrayOk<K(!new), V>(hash: K -> Hash, count: int, slots: seq<Option<Node<K, V>>>, path: seq<int>, k: K,
          v: Option<V>, d: Outcome<K, V>, k': K)
    requires WellFormed(hash, HashArray(count, slots), path) && OnPath(hash(k), path)
    requires Slice(hash(k), 5 * |path|) < |slots|
    requires ChildUpdated(hash, HashArray(count, slots), path, k, v, d, k')
    ensures Sound(hash, HashArray(count, slots), path, k, v, UpdateArray(count, slots, Slice(hash(k), 5 * |path|), d))
    ensures Reads(hash, HashArray(count, slots), path, k, v, UpdateArray(count, slots, Slice(hash(k), 5 * |path|),
        d), k')
  {
    var node, s := HashArray(count, slots), Slice(hash(k), 5 * |path|);
    ChildShape(hash, node, path, s);
    if d.node == slots[s] {
      UnchangedOk(hash, node, path, k, v, d, k');
    } else {
      ChangedChild(hash, node, path, k, v, d, k');
      ArrayRebuilt(count, slots, s, d);
      RebuiltOk(hash, node, path, k, v, d, UpdateArray(count, slots, s, d).node.value, k');
    }
  }

  // ----- any node

  /** A removal of a key that no child can hold. */
  lemma AbsentOk<K(!new), V>(hash: K -> Hash, node: Node<K, V>, path: seq<int>, k: K, k': K)
    requires WellFormed(hash, node, path) && !node.IsLeaf()
    requires ChildAt(node, Slice(hash(k), 5 * |path|)) == None
    ensures Sound(hash, node, path, k, None, Outcome(Some(node), false, false))
    ensures Reads(hash, node, path, k, None, Outcome(Some(node), false, false), k')
  {
    GetChild(node, 5 * |path|, hash(k), k);
  }

  /** An update whose key has no child here: a removal of nothing, or a new leaf. */
  lemma NewChildOk<K(!new), V>(hash: K -> Hash, node: Node<K, V>, path: seq<int>, k: K, v: Option<V>, k': K)
    requires WellFormed(hash, node, path) && !node.IsLeaf() && OnPath(hash(k), path)
    requires ChildAt(node, Slice(hash(k), 5 * |path|)) == None
    ensures Sound(hash, node, path, k, v, Update(node, 5 * |path|, hash(k), k, v))
    ensures Reads(hash, node, path, k, v, Update(node, 5 * |path|, hash(k), k, v), k')
  {
    var s := Slice(hash(k), 5 * |path|);
    ChildShape(hash, node, path, s);
    if v.None? {
      AbsentOk(hash, node, path, k, k');
    } else if node.BitmapIndexed? {
      BitmapOk(hash, node.bitmap, node.nodes, path, k, v, NewLeaf(hash(k), k, v), k');
    } else {
      ArrayOk(hash, node.count, node.slots, path, k, v, NewLeaf(hash(k), k, v), k');
    }
  }

  lemma LeafOk<K(!new), V>(hash: K -> Hash, node: Node<K, V>, path: seq<int>, k: K, v: Option<V>, k': K)
    requires WellFormed(hash, node, path) && node.IsLeaf() && OnPath(hash(k), path)
    ensures Sound(hash, node, path, k, v, Update(node, 5 * |path|, hash(k), k, v))
    ensures Reads(hash, node, path, k, v, Update(node, 5 * |path|, hash(k), k, v), k')
  {
    if node.Value? {
      UpdateValueOk(hash, node, path, k, v, k');
    } else if hash(k) == node.keyHash {
      CollisionHit(hash, node, path, k, v, k');
    } else {
      CollisionMiss(hash, node, path, k, v, k');
    }
  }

  lemma UpdateOfChild<K, V>(node: Node<K, V>, shift: nat, h: Hash, k: K, v: Option<V>, c: Node<K, V>)
    requires !node.IsLeaf() && ChildAt(node, Slice(h, shift)) == Some(c)
    ensures var s, d := Slice(h, shift), Update(c, shift + 5, h, k, v);
            match node
            case BitmapIndexed(b, nodes) => Update(node, shift, h, k, v) == UpdateBitmap(b, nodes, s, d)
            case HashArray(count, slots) =>
              s < |slots| && Update(node, shift, h, k, v) == UpdateArray(count, slots, s, d)
            case _ => false
  {}

  /** An update that goes on in a child. */
  lemma ChildOk<K(!new), V>(hash: K -> Hash, node: Node<K, V>, path: seq<int>, k: K, v: Option<V>, c: Node<K, V>,
          d: Outcome<K, V>, k': K)
    requires WellFormed(hash, node, path) && !node.IsLeaf() && OnPath(hash(k), path)
    requires ChildAt(node, Slice(hash(k), 5 * |path|)) == Some(c)
    requires d == Update(c, 5 * |path| + 5, hash(k), k, v)
    requires ChildUpdated(hash, node, path, k, v, d, k')
    ensures Sound(hash, node, path, k, v, Update(node, 5 * |path|, hash(k), k, v))
    ensures Reads(hash, node, path, k, v, Update(node, 5 * |path|, hash(k), k, v), k')
  {
    hide *;
    var r := Update(node, 5 * |path|, hash(k), k, v);
    ChildShape(hash, node, path, Slice(hash(k), 5 * |path|));
    UpdateOfChild(node, 5 * |path|, hash(k), k, v, c);
    if node.BitmapIndexed? {
      BitmapChildOk(hash, node, path, k, v, d, k', r);
    } else {
      ArrayChildOk(hash, node, path, k, v, d, k', r);
    }
  }

  lemma BitmapChildOk<K(!new), V>(hash: K -> Hash, node: Node<K, V>, path: seq<int>, k: K, v: Option<V>,
          d: Outcome<K, V>, k': K, r: Outcome<K, V>)
    requires node.BitmapIndexed? && WellFormed(hash, node, path) && OnPath(hash(k), path)
    requires ChildUpdated(hash, node, path, k, v, d, k')
    requires r == UpdateBitmap(node.bitmap, node.nodes, Slice(hash(k), 5 * |path|), d)
    ensures Sound(hash, node, path, k, v, r) && Reads(hash, node, path, k, v, r, k')
  {
    BitmapOk(hash, node.bitmap, node.nodes, path, k, v, d, k');
  }

  lemma ArrayChildOk<K(!new), V>(hash: K -> Hash, node: Node<K, V>, path: seq<int>, k: K, v: Option<V>,
          d: Outcome<K, V>, k': K, r: Outcome<K, V>)
    requires node.HashArray? && WellFormed(hash, node, path) && OnPath(hash(k), path)
    requires ChildUpdated(hash, node, path, k, v, d, k')
    requires Slice(hash(k), 5 * |path|) < |node.slots|
    requires r == UpdateArray(node.count, node.slots, Slice(hash(k), 5 * |path|), d)
    ensures Sound(hash, node, path, k, v, r) && Reads(hash, node, path, k, v, r, k')
  {
    ArrayOk(hash, node.count, node.slots, path, k, v, d, k');
  }

  /** Every update of every well-formed node is the dictionary update. */
  lemma {:induction false} UpdateOk<K(!new), V>(hash: K -> Hash, node: Node<K, V>, path: seq<int>, shift: nat, k: K,
          v: Option<V>, k': K)
    requires WellFormed(hash, node, path) && OnPath(hash(k), path) && shift == 5 * |path|
    ensures Sound(hash, node, path, k, v, Update(node, shift, hash(k), k, v))
    ensures Reads(hash, node, path, k, v, Update(node, shift, hash(k), k, v), k')
    decreases node
  {
    hide Update, Sound, Reads, Get, Slice, WellFormed, OnPath;
    var s := Slice(hash(k), shift);
    if node.IsLeaf() {
      LeafOk(hash, node, path, k, v, k');
    } else if ChildAt(node, s).None? {
      NewChildOk(hash, node, path, k, v, k');
    } else {
      var c := ChildAt(node, s).value;
      ChildShape(hash, node, path, s);
      OneSliceOn(hash(k), path);
      UpdateOk(hash, c, path + [s], shift + 5, k, v, k');
      ChildOk(hash, node, path, k, v, c, Update(c, shift + 5, hash(k), k, v), k');
    }
  }
}
