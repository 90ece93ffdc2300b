/**
 Updates keep every node well formed, and lookup after an update is lookup in a
 dictionary after the same update.
 */
module HashTrieProofs {
  import opened Options
  import opened Words
  import opened HashTrie

  // ----- bitmaps with a bit more or less

  lemma OrBound(x: nat, y: nat, n: nat)
    requires x < One(n) && y < One(n)
    ensures Or(x, y) < One(n)
  {
    if n > 0 && x > 0 && y > 0 {
      OrBound(x / 2, y / 2, n - 1);
    }
  }

  lemma XorBound(x: nat, y: nat, n: nat)
    requires x < One(n) && y < One(n)
    ensures Xor(x, y) < One(n)
  {
    if n > 0 && x > 0 && y > 0 {
      XorBound(x / 2, y / 2, n - 1);
    }
  }

  lemma OneBound(i: nat, n: nat)
    requires i < n
    ensures One(i) < One(n)
  {
    if i > 0 {
      OneBound(i - 1, n - 1);
    } else if n > 1 {
      OneBound(0, n - 1);
    }
  }

  /** c has the slots of b and slot s: children above s move up by one. */
  ghost predicate SlotAdded(b: nat, c: nat, s: nat) {
    var added := c < One(SLOTS) && !Used(b, s) && SlotsAbove(b, c, s);
    added
  }

  ghost predicate SlotsAbove(b: nat, c: nat, s: nat) {
    && (forall i: nat {:trigger Used(c, i)} {:trigger Used(b, i)} :: Used(c, i) == (i == s || Used(b, i)))
    && (forall i: nat {:trigger Index(c, i)} {:trigger Index(b, i)} ::
      Index(c, i) == Index(b, i) + (if i > s then 1 else 0))
  }

  lemma BitAdded(b: nat, c: nat, s: nat)
    requires c < One(SLOTS) && !Bit(b, s)
    requires forall i: nat :: Bit(c, i) == (i == s || Bit(b, i))
    ensures SlotAdded(b, c, s)
  {
    forall i: nat ensures Index(c, i) == Index(b, i) + (if i > s then 1 else 0) {
      RankOfChange(b, c, s, i);
    }
  }

  lemma OrAddsSlot(b: nat, s: nat)
    requires b < One(SLOTS) && s < SLOTS && !Used(b, s)
    ensures SlotAdded(b, Or(b, One(s)), s)
  {
    OneBound(s, SLOTS);
    OrBound(b, One(s), SLOTS);
    forall i: nat ensures Bit(Or(b, One(s)), i) == (i == s || Bit(b, i)) {
      BitOr(b, One(s), i);
      BitOne(s, i);
    }
    BitAdded(b, Or(b, One(s)), s);
  }

  lemma XorRemovesSlot(b: nat, s: nat)
    requires b < One(SLOTS) && s < SLOTS && Used(b, s)
    ensures Xor(b, One(s)) < One(SLOTS) && SlotAdded(Xor(b, One(s)), b, s)
  {
    OneBound(s, SLOTS);
    XorBound(b, One(s), SLOTS);
    forall i: nat ensures Bit(b, i) == (i == s || Bit(Xor(b, One(s)), i)) && !Bit(Xor(b, One(s)), s) {
      BitXor(b, One(s), i);
      BitXor(b, One(s), s);
      BitOne(s, i);
      BitOne(s, s);
    }
    BitAdded(Xor(b, One(s)), b, s);
  }

  lemma NoSlots(i: nat)
    ensures !Used(0, i) && Index(0, i) == 0
  {
    BitZero(i);
    RankZero(i);
  }

  /** The bitmap of a branch made by merging two leaves. */
  lemma MergedSlots(u: nat, s: nat)
    requires u < SLOTS && s < SLOTS
    ensures u != s ==> SlotAdded(0, One(u), u) && SlotAdded(One(u), Or(One(u), One(s)), s)
    ensures u == s ==> SlotAdded(0, Or(One(u), One(s)), u)
  {
    NoSlots(u);
    OrAddsSlot(0, u);
    if u != s {
      NoSlots(s);
      OrAddsSlot(One(u), s);
    } else {
      OrSelf(One(u));
    }
  }

  lemma OrSelf(x: nat)
    ensures Or(x, x) == x
  {
  }

  // ----- paths

  /** Two different hashes on one path part at a shift of at most 30: no path has more than seven slices. */
  lemma HashesPart(g: Hash, h: Hash, path: seq<int>)
    requires OnPath(g, path) && OnPath(h, path) && g != h
    ensures |path| < 7
  {
    if |path| >= 7 {
      forall j: nat | j < 7 ensures Slice(g, 5 * j) == Slice(h, 5 * j) {
        assert path[j] == Slice(g, 5 * j);
      }
      SlicesDetermine(g, h);
    }
  }

  // ----- leaves

  lemma LeafMovesUp<K(!new), V>(hash: K -> Hash, leaf: Node<K, V>, path: seq<int>, s: int)
    requires leaf.IsLeaf() && WellFormed(hash, leaf, path + [s])
    ensures WellFormed(hash, leaf, path)
    ensures Slice(leaf.keyHash, 5 * |path|) == s
  {
    var p := path + [s];
    assert p[|path|] == s;
    forall j | 0 <= j < |path| ensures path[j] == Slice(leaf.keyHash, 5 * j) {
      assert p[j] == path[j];
    }
  }

  lemma LeafMovesDown<K(!new), V>(hash: K -> Hash, leaf: Node<K, V>, path: seq<int>)
    requires leaf.IsLeaf() && WellFormed(hash, leaf, path)
    ensures WellFormed(hash, leaf, path + [Slice(leaf.keyHash, 5 * |path|)])
  {
    OneSliceOn(leaf.keyHash, path);
  }

  /** A leaf holds keys of its own hash only. */
  lemma LeafMisses<K(!new), V>(hash: K -> Hash, leaf: Node<K, V>, path: seq<int>, shift: nat, k: K)
    requires leaf.IsLeaf() && WellFormed(hash, leaf, path) && hash(k) != leaf.keyHash
    ensures Get(leaf, shift, hash(k), k) == None
  {
  }

  // ----- merging

  /** Merging two hashes that part here makes a branch of two leaves. */
  lemma MergeApart<K(!new), V>(hash: K -> Hash, node: Node<K, V>, path: seq<int>, h: Hash, e: (K, V))
    requires WellFormed(hash, node, path) && node.IsLeaf() && |path| < 7
    requires OnPath(h, path) && h == hash(e.0) && Slice(node.keyHash, 5 * |path|) != Slice(h, 5 * |path|)
    ensures WellFormed(hash, Merge(node, 5 * |path|, h, e), path)
  {
    var u, s := Slice(node.keyHash, 5 * |path|), Slice(h, 5 * |path|);
    MergedSlots(u, s);
    OneSliceOn(h, path);
    LeafMovesDown(hash, node, path);
    assert WellFormed(hash, Value(h, e), path + [s]);
    Branch2(hash, Or(One(u), One(s)), u, s, node, Value(h, e), path);
  }

  /** Merging two hashes with the same slice makes a branch with one child, a branch itself. */
  lemma MergeSame<K(!new), V>(hash: K -> Hash, node: Node<K, V>, path: seq<int>, h: Hash, e: (K, V))
    requires node.IsLeaf() && node.keyHash != h && |path| < 7
    requires Slice(node.keyHash, 5 * |path|) == Slice(h, 5 * |path|)
    requires var child := Merge(node, 5 * |path| + 5, h, e);
      WellFormed(hash, child, path + [Slice(h, 5 * |path|)]) && !child.IsLeaf()
    ensures WellFormed(hash, Merge(node, 5 * |path|, h, e), path)
  {
    var s := Slice(h, 5 * |path|);
    MergedSlots(s, s);
    Branch1(hash, Or(One(s), One(s)), s, Merge(node, 5 * |path| + 5, h, e), path);
  }

  lemma {:induction false} MergeWellFormed<K(!new), V>(hash: K -> Hash, node: Node<K, V>, path: seq<int>, shift: nat,
          h: Hash, e: (K, V))
    requires WellFormed(hash, node, path) && node.IsLeaf() && shift == 5 * |path|
    requires OnPath(h, path) && h == hash(e.0)
    requires node.keyHash == h ==> node.Value? && node.entry.0 != e.0
    ensures WellFormed(hash, Merge(node, shift, h, e), path)
    ensures Merge(node, shift, h, e).IsLeaf() == (node.keyHash == h)
    decreases 7 - |path|
  {
    if node.keyHash != h {
      HashesPart(node.keyHash, h, path);
      var s := Slice(h, shift);
      if Slice(node.keyHash, shift) == s {
        OneSliceOn(h, path);
        LeafMovesDown(hash, node, path);
        MergeWellFormed(hash, node, path + [s], shift + 5, h, e);
        MergeSame(hash, node, path, h, e);
      } else {
        MergeApart(hash, node, path, h, e);
      }
    }
  }

  lemma Branch1<K(!new), V>(hash: K -> Hash, b: nat, s: nat, child: Node<K, V>, path: seq<int>)
    requires |path| < 7 && s < SLOTS && SlotAdded(0, b, s)
    requires WellFormed(hash, child, path + [s]) && !child.IsLeaf()
    ensures WellFormed(hash, BitmapIndexed(b, [child]), path)
  {
    NoSlots(SLOTS);
    forall i: nat | i < SLOTS && Used(b, i) ensures i == s && Index(b, i) == 0 {
      NoSlots(i);
    }
  }

  lemma Branch2<K(!new), V>(hash: K -> Hash, b: nat, u: nat, s: nat, x: Node<K, V>, y: Node<K, V>, path: seq<int>)
    requires |path| < 7 && u < SLOTS && s < SLOTS && u != s
    requires SlotAdded(0, One(u), u) && SlotAdded(One(u), b, s)
    requires WellFormed(hash, x, path + [u]) && WellFormed(hash, y, path + [s])
    ensures WellFormed(hash, BitmapIndexed(b, if u < s then [x, y] else [y, x]), path)
  {
    hide Bit, One, Index;
    NoSlots(SLOTS);
    forall i: nat | i < SLOTS && Used(b, i)
      ensures (i == u && Index(b, i) == if u < s then 0 else 1) || (i == s && Index(b, i) == if u < s then 1 else 0)
    {
      NoSlots(i);
    }
  }

  lemma GetBranch1<K, V>(b: nat, s: nat, child: Node<K, V>, shift: nat, h: Hash, k: K)
    requires s < SLOTS && SlotAdded(0, b, s)
    ensures Get(BitmapIndexed(b, [child]), shift, h, k) ==
            if Slice(h, shift) == s then Get(child, shift + 5, h, k) else None
  {
    NoSlots(Slice(h, shift));
  }

  lemma GetBranch2<K, V>(b: nat, u: nat, s: nat, x: Node<K, V>, y: Node<K, V>, shift: nat, h: Hash, k: K)
    requires u < SLOTS && s < SLOTS && u != s
    requires SlotAdded(0, One(u), u) && SlotAdded(One(u), b, s)
    ensures Get(BitmapIndexed(b, if u < s then [x, y] else [y, x]), shift, h, k)
         == if Slice(h, shift) == u then Get(x, shift + 5, h, k)
            else if Slice(h, shift) == s then Get(y, shift + 5, h, k) else None
  {
    NoSlots(Slice(h, shift));
  }

  lemma LeafGet<K, V>(leaf: Node<K, V>, shift: nat, shift': nat, h: Hash, k: K)
    requires leaf.IsLeaf()
    ensures Get(leaf, shift, h, k) == Get(leaf, shift', h, k)
  {
  }

  lemma MergeGetApart<K(!new), V>(hash: K -> Hash, node: Node<K, V>, path: seq<int>, h: Hash, e: (K, V), k: K)
    requires WellFormed(hash, node, path) && node.IsLeaf() && |path| < 7
    requires OnPath(h, path) && h == hash(e.0) && Slice(node.keyHash, 5 * |path|) != Slice(h, 5 * |path|)
    ensures Get(Merge(node, 5 * |path|, h, e), 5 * |path|, hash(k), k)
         == if k == e.0 then Some(e.1) else Get(node, 5 * |path|, hash(k), k)
  {
    var shift := 5 * |path|;
    var u, s := Slice(node.keyHash, shift), Slice(h, shift);
    MergedSlots(u, s);
    if hash(k) != node.keyHash { LeafMisses(hash, node, path, shift, k); }
    LeafGet(node, shift, shift + 5, hash(k), k);
    var b := Or(One(u), One(s));
    assert Merge(node, shift, h, e) == BitmapIndexed(b, if u < s then [node, Value(h, e)] else [Value(h, e), node]);
    GetBranch2(b, u, s, node, Value(h, e), shift, hash(k), k);
  }

  lemma MergeGetSame<K(!new), V>(node: Node<K, V>, shift: nat, h: Hash, e: (K, V), g: Hash, k: K)
    requires node.IsLeaf() && node.keyHash != h && shift <= 30
    requires Slice(node.keyHash, shift) == Slice(h, shift)
    ensures Get(Merge(node, shift, h, e), shift, g, k)
         == if Slice(g, shift) == Slice(h, shift) then Get(Merge(node, shift + 5, h, e), shift + 5, g, k) else None
  {
    var s := Slice(h, shift);
    MergedSlots(s, s);
    GetBranch1(Or(One(s), One(s)), s, Merge(node, shift + 5, h, e), shift, g, k);
  }

  lemma {:induction false} MergeGet<K(!new), V>(hash: K -> Hash, node: Node<K, V>, path: seq<int>, shift: nat,
          h: Hash, e: (K, V), k: K)
    requires WellFormed(hash, node, path) && node.IsLeaf() && shift == 5 * |path|
    requires OnPath(h, path) && h == hash(e.0)
    requires node.keyHash == h ==> node.Value? && node.entry.0 != e.0
    ensures Get(Merge(node, shift, h, e), shift, hash(k), k)
         == if k == e.0 then Some(e.1) else Get(node, shift, hash(k), k)
    decreases 7 - |path|
  {
    hide Slice;
    if node.keyHash == h {
      var es := [node.entry, e];
      assert es[0] == node.entry && es[1] == e;
    } else {
      HashesPart(node.keyHash, h, path);
      if Slice(node.keyHash, shift) == Slice(h, shift) {
        OneSliceOn(h, path);
        LeafMovesDown(hash, node, path);
        MergeGet(hash, node, path + [Slice(h, shift)], shift + 5, h, e, k);
        if hash(k) != node.keyHash { LeafMisses(hash, node, path, shift, k); }
        LeafGet(node, shift, shift + 5, hash(k), k);
        MergeGetSame(node, shift, h, e, hash(k), k);
      } else {
        MergeGetApart(hash, node, path, h, e, k);
      }
    }
  }
}
