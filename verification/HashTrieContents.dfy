/**
 What a trie holds as a whole: how deep it can be, and what iterating over it yields.
 */
module HashTrieContents {
  import opened EntryLists
  import opened Options
  import opened Words
  import opened HashTrie
  import opened HashTrieBranches
  import opened HashTrieUpdates
  import ImmutableMap

  // ----- depth

  ghost predicate BranchLevels<K, V>(node: Node<K, V>, n: nat)
    decreases node
  {
    match node
    case BitmapIndexed(_, nodes) => n > 0 && forall i :: 0 <= i < |nodes| ==> BranchLevels(nodes[i], n - 1)
    case HashArray(_, slots) =>
      n > 0 && forall i :: 0 <= i < |slots| ==> slots[i].Some? ==> BranchLevels(slots[i].value, n - 1)
    case _ => true
  }

  /** No path has more than seven branches, so no slice beyond the last five bits is ever taken. */
  lemma {:induction false} DepthBound<K(!new), V>(hash: K -> Hash, node: Node<K, V>, path: seq<int>)
    requires WellFormed(hash, node, path) && |path| <= 7
    ensures BranchLevels(node, 7 - |path|)
    decreases node
  {
    match node
    case BitmapIndexed(b, nodes) =>
      ChildShape(hash, node, path, 0);
      forall p | 0 <= p < |nodes| ensures BranchLevels(nodes[p], 6 - |path|) {
        var i := SlotOfIndex(b, p, SLOTS);
        ChildShape(hash, node, path, i);
        DepthBound(hash, nodes[p], path + [i]);
      }
    case HashArray(_, slots) =>
      ChildShape(hash, node, path, 0);
      forall i | 0 <= i < |slots| && slots[i].Some? ensures BranchLevels(slots[i].value, 6 - |path|) {
        ChildShape(hash, node, path, i);
        DepthBound(hash, slots[i].value, path + [i]);
      }
    case _ =>
  }

  // ----- iteration

  /** The children as iteration visits them. */
  function Width<K, V>(node: Node<K, V>): nat {
    match node
    case BitmapIndexed(_, nodes) => |nodes|
    case HashArray(_, slots) => |slots|
    case _ => 0
  }

  function Entries<K, V>(node: Node<K, V>): seq<(K, V)>
    decreases node, 1, 0
  {
    match node
    case Value(_, e) => [e]
    case Collision(_, es) => es
    case _ => EntriesUpTo(node, Width(node))
  }

  /** What iteration has yielded after the first n children. */
  function EntriesUpTo<K, V>(node: Node<K, V>, n: nat): seq<(K, V)>
    requires n <= Width(node)
    decreases node, 0, n
  {
    if n == 0 then []
    else
      var es := EntriesUpTo(node, n - 1);
      match node
      case BitmapIndexed(_, nodes) => es + Entries(nodes[n - 1])
      case HashArray(_, slots) => if slots[n - 1].Some? then es + Entries(slots[n - 1].value) else es
      case _ => es
  }

  /** Where the child of slot i comes in the iteration. */
  ghost function Position<K, V>(node: Node<K, V>, i: nat): nat {
    if node.BitmapIndexed? then Index(node.bitmap, i) else i
  }

  /** The slot whose child comes at position p, if that child exists. */
  lemma SlotAt<K, V>(node: Node<K, V>, p: nat) returns (i: nat)
    requires Branch(node) && p < Width(node)
    ensures i < SLOTS && Position(node, i) == p
    ensures node.BitmapIndexed? ==> ChildAt(node, i) == Some(node.nodes[p])
    ensures node.HashArray? ==> i == p && ChildAt(node, i) == node.slots[p]
  {
    if node.BitmapIndexed? {
      i := SlotOfIndex(node.bitmap, p, SLOTS);
    } else {
      i := p;
    }
  }

  /** Each entry read back gives its value; no key comes twice. */
  ghost predicate Listing<K(!new), V>(hash: K -> Hash, node: Node<K, V>, path: seq<int>, es: seq<(K, V)>) {
    var listing :=
      && DistinctKeys(es)
      && forall i :: 0 <= i < |es| ==>
           OnPath(hash(es[i].0), path) && Get(node, 5 * |path|, hash(es[i].0), es[i].0) == Some(es[i].1);
    listing
  }

  lemma LeafListing<K(!new), V>(hash: K -> Hash, leaf: Node<K, V>, path: seq<int>)
    requires WellFormed(hash, leaf, path) && leaf.IsLeaf()
    ensures Listing(hash, leaf, path, Entries(leaf))
  {
    var es := Entries(leaf);
    forall i | 0 <= i < |es| ensures Get(leaf, 5 * |path|, hash(es[i].0), es[i].0) == Some(es[i].1) {
      if leaf.Collision? { EntryIs(es, i, es[i].0); }
    }
  }

  /** The entries all lie at one position of the iteration, or before it. */
  ghost predicate AllAt<K(!new), V>(hash: K -> Hash, node: Node<K, V>, path: seq<int>, es: seq<(K, V)>, n: nat) {
    forall j :: 0 <= j < |es| ==> Position(node, Slice(hash(es[j].0), 5 * |path|)) == n
  }

  ghost predicate AllBefore<K(!new), V>(hash: K -> Hash, node: Node<K, V>, path: seq<int>, es: seq<(K, V)>, n: nat) {
    forall j :: 0 <= j < |es| ==> Position(node, Slice(hash(es[j].0), 5 * |path|)) < n
  }

  /** The listing of the child in slot i, as part of the listing of the branch. */
  lemma ChildListing<K(!new), V>(hash: K -> Hash, node: Node<K, V>, path: seq<int>, i: nat, c: Node<K, V>,
          es: seq<(K, V)>)
    requires !node.IsLeaf() && i < SLOTS && ChildAt(node, i) == Some(c)
    requires Listing(hash, c, path + [i], es)
    ensures Listing(hash, node, path, es)
    ensures AllAt(hash, node, path, es, Position(node, i))
  {
    forall j | 0 <= j < |es|
      ensures Slice(hash(es[j].0), 5 * |path|) == i && OnPath(hash(es[j].0), path)
      ensures Get(node, 5 * |path|, hash(es[j].0), es[j].0) == Some(es[j].1)
    {
      ListedEntry(hash, c, path + [i], es, j);
      EntryOfChild(hash, node, path, i, c, es[j]);
    }
  }

  lemma ListedEntry<K(!new), V>(hash: K -> Hash, node: Node<K, V>, path: seq<int>, es: seq<(K, V)>, j: nat)
    requires Listing(hash, node, path, es) && j < |es|
    ensures OnPath(hash(es[j].0), path) && Get(node, 5 * |path|, hash(es[j].0), es[j].0) == Some(es[j].1)
  {
  }

  lemma EntryOfChild<K(!new), V>(hash: K -> Hash, node: Node<K, V>, path: seq<int>, i: nat, c: Node<K, V>, e: (K, V))
    requires !node.IsLeaf() && i < SLOTS && ChildAt(node, i) == Some(c)
    requires OnPath(hash(e.0), path + [i]) && Get(c, 5 * |path + [i]|, hash(e.0), e.0) == Some(e.1)
    ensures Slice(hash(e.0), 5 * |path|) == i && OnPath(hash(e.0), path)
    ensures Get(node, 5 * |path|, hash(e.0), e.0) == Some(e.1)
  {
    assert |path + [i]| == |path| + 1;
    ParentPath(hash(e.0), path, i);
    GetChild(node, 5 * |path|, hash(e.0), e.0);
  }

  lemma ParentPath(h: Hash, path: seq<int>, i: int)
    requires OnPath(h, path + [i])
    ensures OnPath(h, path) && Slice(h, 5 * |path|) == i
  {
    var p := path + [i];
    assert p[|path|] == i;
    forall q | 0 <= q < |path| ensures path[q] == Slice(h, 5 * q) { assert p[q] == path[q]; }
  }

  lemma AppendListing<K(!new), V>(hash: K -> Hash, node: Node<K, V>, path: seq<int>, es: seq<(K, V)>, fs: seq<(K,
          V)>, n: nat)
    requires Listing(hash, node, path, es) && Listing(hash, node, path, fs)
    requires AllBefore(hash, node, path, es, n) && AllAt(hash, node, path, fs, n)
    ensures Listing(hash, node, path, es + fs) && AllBefore(hash, node, path, es + fs, n + 1)
  {
    var gs := es + fs;
    assert forall j :: 0 <= j < |gs| ==> gs[j] == if j < |es| then es[j] else fs[j - |es|];
    forall i, j | 0 <= i < j < |gs| ensures gs[i].0 != gs[j].0 {
      if i < |es| <= j {
        assert Position(node, Slice(hash(es[i].0), 5 * |path|)) < n;
        assert Position(node, Slice(hash(fs[j - |es|].0), 5 * |path|)) == n;
      }
    }
  }

  /** The entries before position n and then those of the child there. */
  lemma MoreListing<K(!new), V>(hash: K -> Hash, node: Node<K, V>, path: seq<int>, n: nat, i: nat, c: Node<K, V>,
          es: seq<(K, V)>, fs: seq<(K, V)>, all: seq<(K, V)>)
    requires !node.IsLeaf() && 0 < n && i < SLOTS && ChildAt(node, i) == Some(c) && Position(node, i) == n - 1
    requires Listing(hash, node, path, es) && AllBefore(hash, node, path, es, n - 1)
    requires Listing(hash, c, path + [i], fs) && all == es + fs
    ensures Listing(hash, node, path, all) && AllBefore(hash, node, path, all, n)
  {
    ChildListing(hash, node, path, i, c, fs);
    AppendListing(hash, node, path, es, fs, n - 1);
  }

  /** The slot visited last, and what its child adds. */
  lemma UpToStep<K, V>(node: Node<K, V>, n: nat) returns (i: nat)
    requires Branch(node) && !node.IsLeaf() && 0 < n <= Width(node)
    ensures i < SLOTS && Position(node, i) == n - 1
    ensures EntriesUpTo(node, n) ==
              if ChildAt(node, i).Some? then EntriesUpTo(node, n - 1) + Entries(ChildAt(node, i).value)
              else EntriesUpTo(node, n - 1)
  {
    i := SlotAt(node, n - 1);
  }

  lemma UpToNone<K(!new), V>(hash: K -> Hash, node: Node<K, V>, path: seq<int>)
    requires !node.IsLeaf()
    ensures EntriesUpTo(node, 0) == [] && Listing(hash, node, path, []) && AllBefore(hash, node, path, [], 0)
  {}

  lemma BeforeNext<K(!new), V>(hash: K -> Hash, node: Node<K, V>, path: seq<int>, es: seq<(K, V)>, n: nat)
    requires AllBefore(hash, node, path, es, n)
    ensures AllBefore(hash, node, path, es, n + 1)
  {}

  lemma {:induction false} EntriesListing<K(!new), V>(hash: K -> Hash, node: Node<K, V>, path: seq<int>)
    requires WellFormed(hash, node, path)
    ensures Listing(hash, node, path, Entries(node))
    decreases node, 1, 0
  {
    if node.IsLeaf() {
      LeafListing(hash, node, path);
    } else {
      UpToListing(hash, node, path, Width(node));
    }
  }

  lemma {:induction false} UpToListing<K(!new), V>(hash: K -> Hash, node: Node<K, V>, path: seq<int>, n: nat)
    requires WellFormed(hash, node, path) && !node.IsLeaf() && n <= Width(node)
    ensures Listing(hash, node, path, EntriesUpTo(node, n))
    ensures AllBefore(hash, node, path, EntriesUpTo(node, n), n)
    decreases node, 0, n
  {
    hide WellFormed, Listing, AllBefore, Slice, EntriesUpTo, Entries;
    if n > 0 {
      UpToListing(hash, node, path, n - 1);
      ChildShape(hash, node, path, 0);
      var i := UpToStep(node, n);
      if ChildAt(node, i).Some? {
        var c := ChildAt(node, i).value;
        ChildShape(hash, node, path, i);
        EntriesListing(hash, c, path + [i]);
        MoreListing(hash, node, path, n, i, c, EntriesUpTo(node, n - 1), Entries(c), EntriesUpTo(node, n));
      } else {
        BeforeNext(hash, node, path, EntriesUpTo(node, n), n - 1);
      }
    } else {
      UpToNone(hash, node, path);
    }
  }

  /** Every entry that can be read is listed. */
  lemma {:induction false} ReadableIsListed<K(!new), V>(hash: K -> Hash, node: Node<K, V>, path: seq<int>, k: K)
    requires WellFormed(hash, node, path) && Get(node, 5 * |path|, hash(k), k).Some?
    ensures (k, Get(node, 5 * |path|, hash(k), k).value) in Entries(node)
    decreases node
  {
    if !node.IsLeaf() {
      var s := Slice(hash(k), 5 * |path|);
      GetChild(node, 5 * |path|, hash(k), k);
      ChildShape(hash, node, path, s);
      var c := ChildAt(node, s).value;
      assert |path + [s]| == |path| + 1;
      ReadableIsListed(hash, c, path + [s], k);
      ListedChild(node, Position(node, s), c, (k, Get(c, 5 * |path| + 5, hash(k), k).value), Width(node));
    } else if node.Collision? {
      var i := Find(node.entries, k);
      assert node.entries[i] in node.entries;
    }
  }

  lemma ListedChild<K, V>(node: Node<K, V>, p: nat, c: Node<K, V>, e: (K, V), n: nat)
    requires !node.IsLeaf() && p < n <= Width(node) && e in Entries(c)
    requires if node.BitmapIndexed? then node.nodes[p] == c else node.slots[p] == Some(c)
    ensures e in EntriesUpTo(node, n)
    decreases n
  {
    if p < n - 1 { ListedChild(node, p, c, e, n - 1); }
  }

  // ----- the order of iteration

  /** Comparing two hashes from slice d on, lowest slice first. */
  ghost predicate SliceOrder(h: Hash, g: Hash, d: nat)
    decreases 7 - d
  {
    || d >= 7
    || Slice(h, 5 * d) < Slice(g, 5 * d)
    || (Slice(h, 5 * d) == Slice(g, 5 * d) && SliceOrder(h, g, d + 1))
  }

  ghost predicate InSliceOrder<K(!new), V>(hash: K -> Hash, es: seq<(K, V)>, d: nat) {
    var ok := forall i, j :: 0 <= i < j < |es| ==> SliceOrder(hash(es[i].0), hash(es[j].0), d);
    ok
  }

  lemma {:induction false} SliceOrderSame(h: Hash, d: nat)
    ensures SliceOrder(h, h, d)
    decreases 7 - d
  {
    if d < 7 {
      SliceOrderSame(h, d + 1);
    }
  }

  /** Positions follow the slots. */
  lemma LowerPosition<K, V>(node: Node<K, V>, i: nat, j: nat)
    requires Position(node, i) < Position(node, j)
    ensures i < j
  {
    if node.BitmapIndexed? && j <= i {
      RankMonotone(node.bitmap, j, i);
    }
  }

  lemma OrderOfChild<K(!new), V>(hash: K -> Hash, fs: seq<(K, V)>, path: seq<int>, i: nat)
    requires InSliceOrder(hash, fs, |path| + 1)
    requires forall j :: 0 <= j < |fs| ==> OnPath(hash(fs[j].0), path + [i])
    ensures InSliceOrder(hash, fs, |path|)
  {
    forall j | 0 <= j < |fs|
      ensures Slice(hash(fs[j].0), 5 * |path|) == i
    {
      ParentPath(hash(fs[j].0), path, i);
    }
  }

  lemma OrderOfMore<K(!new), V>(hash: K -> Hash, node: Node<K, V>, path: seq<int>, n: nat, es: seq<(K, V)>,
          fs: seq<(K, V)>, all: seq<(K, V)>)
    requires InSliceOrder(hash, es, |path|) && InSliceOrder(hash, fs, |path|) && all == es + fs
    requires AllBefore(hash, node, path, es, n) && AllAt(hash, node, path, fs, n)
    ensures InSliceOrder(hash, all, |path|)
  {
    forall i, j | 0 <= i < j < |all|
      ensures SliceOrder(hash(all[i].0), hash(all[j].0), |path|)
    {
      if i < |es| <= j {
        assert all[i] == es[i] && all[j] == fs[j - |es|];
        LowerPosition(node, Slice(hash(es[i].0), 5 * |path|), Slice(hash(fs[j - |es|].0), 5 * |path|));
      } else if j < |es| {
        assert all[i] == es[i] && all[j] == es[j];
      } else {
        assert all[i] == fs[i - |es|] && all[j] == fs[j - |es|];
      }
    }
  }

  /** Iteration visits the entries in the order of the slices of their hashes, lowest slice first. */
  lemma {:induction false} IterationOrder<K(!new), V>(hash: K -> Hash, node: Node<K, V>, path: seq<int>)
    requires WellFormed(hash, node, path)
    ensures InSliceOrder(hash, Entries(node), |path|)
    decreases node, 1, 0
  {
    if node.IsLeaf() {
      LeafOrder(hash, node, path);
    } else {
      UpToOrder(hash, node, path, Width(node));
    }
  }

  lemma LeafOrder<K(!new), V>(hash: K -> Hash, leaf: Node<K, V>, path: seq<int>)
    requires WellFormed(hash, leaf, path) && leaf.IsLeaf()
    ensures InSliceOrder(hash, Entries(leaf), |path|)
  {
    SliceOrderSame(leaf.keyHash, |path|);
  }

  lemma OrderOfNone<K(!new), V>(hash: K -> Hash, node: Node<K, V>, path: seq<int>)
    requires !node.IsLeaf()
    ensures InSliceOrder(hash, EntriesUpTo(node, 0), |path|)
  {}

  lemma {:induction false} UpToOrder<K(!new), V>(hash: K -> Hash, node: Node<K, V>, path: seq<int>, n: nat)
    requires WellFormed(hash, node, path) && !node.IsLeaf() && n <= Width(node)
    ensures InSliceOrder(hash, EntriesUpTo(node, n), |path|)
    decreases node, 0, n
  {
    hide WellFormed, Listing, AllBefore, Slice, EntriesUpTo, Entries, InSliceOrder;
    if n > 0 {
      UpToOrder(hash, node, path, n - 1);
      ChildShape(hash, node, path, 0);
      var i := UpToStep(node, n);
      if ChildAt(node, i).Some? {
        ChildShape(hash, node, path, i);
        IterationOrder(hash, ChildAt(node, i).value, path + [i]);
        UpToListing(hash, node, path, n - 1);
        ChildOrder(hash, node, path, n - 1, i, ChildAt(node, i).value, EntriesUpTo(node, n - 1), EntriesUpTo(node, n));
      }
    } else {
      OrderOfNone(hash, node, path);
    }
  }

  lemma ChildOrder<K(!new), V>(hash: K -> Hash, node: Node<K, V>, path: seq<int>, n: nat, i: nat, c: Node<K, V>,
          es: seq<(K, V)>, all: seq<(K, V)>)
    requires !node.IsLeaf() && i < SLOTS && ChildAt(node, i) == Some(c) && Position(node, i) == n
    requires WellFormed(hash, c, path + [i]) && InSliceOrder(hash, Entries(c), |path + [i]|)
    requires InSliceOrder(hash, es, |path|) && AllBefore(hash, node, path, es, n) && all == es + Entries(c)
    ensures InSliceOrder(hash, all, |path|)
  {
    var fs := Entries(c);
    EntriesListing(hash, c, path + [i]);
    ChildListing(hash, node, path, i, c, fs);
    forall j | 0 <= j < |fs|
      ensures OnPath(hash(fs[j].0), path + [i])
    {
      ListedEntry(hash, c, path + [i], fs, j);
    }
    OrderOfChild(hash, fs, path, i);
    OrderOfMore(hash, node, path, n, es, fs, all);
  }

  // ----- the map as a whole

  function MapEntries<K, V>(m: ImmutableMap.Map<K, V>): seq<(K, V)> {
    match m.root
    case Nothing => []
    case Flat(es) => es
    case Trie(node) => Entries(node)
  }

  lemma DistinctCount<K, V>(es: seq<(K, V)>, d: map<K, V>)
    requires DistinctKeys(es)
    requires forall i :: 0 <= i < |es| ==> es[i].0 in d
    requires forall k :: k in d ==> exists i :: 0 <= i < |es| && es[i].0 == k
    ensures |es| == |d|
    decreases |es|
  {
    if es == [] {
      assert d == map[];
    } else {
      var last := |es| - 1;
      var fs, d' := es[..last], d - {es[last].0};
      assert d.Keys == d'.Keys + {es[last].0};
      forall k | k in d' ensures exists i :: 0 <= i < |fs| && fs[i].0 == k {
        var i :| 0 <= i < |es| && es[i].0 == k;
        assert i != last && fs[i].0 == k;
      }
      DistinctCount(fs, d');
    }
  }

  /** Iterating over a map that stands for a dictionary yields every entry of the dictionary once. */
  lemma IterationListsDictionary<K(!new), V>(hash: K -> Hash, m: ImmutableMap.Map<K, V>, d: map<K, V>)
    requires ImmutableMap.Represents(hash, m, d)
    ensures var es := MapEntries(m);
      && DistinctKeys(es) && |es| == |d| == m.size
      && (forall k :: k in d ==> (k, d[k]) in es)
      && (forall i :: 0 <= i < |es| ==> es[i].0 in d && d[es[i].0] == es[i].1)
  {
    var es := MapEntries(m);
    if m.root.Trie? { EntriesListing(hash, m.root.node, []); }
    forall i | 0 <= i < |es| ensures es[i].0 in d && d[es[i].0] == es[i].1 {
      if m.root.Flat? { EntryIs(es, i, es[i].0); }
      assert ImmutableMap.Get(hash, m, es[i].0) == Some(es[i].1);
    }
    forall k | k in d ensures (k, d[k]) in es {
      assert ImmutableMap.Get(hash, m, k) == Some(d[k]);
      match m.root
      case Trie(node) => ReadableIsListed(hash, node, [], k);
      case Flat(fs) => assert fs[Find(fs, k)] in fs;
      case Nothing =>
    }
    forall k | k in d ensures exists i :: 0 <= i < |es| && es[i].0 == k {
      var i :| 0 <= i < |es| && es[i] == (k, d[k]);
    }
    DistinctCount(es, d);
  }
}
