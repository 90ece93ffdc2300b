/**
 The two branch nodes as one thing: an assignment of children to 32 slots. Every
 way in which an update rebuilds a branch (replacing, splicing in or out, expanding,
 packing) changes the child of one slot and no other.
 */
module HashTrieBranches {
  import opened Options
  import opened Words
  import opened HashTrie
  import opened HashTrieProofs

  ghost function ChildAt<K, V>(node: Node<K, V>, i: nat): Option<Node<K, V>> {
    match node
    case BitmapIndexed(b, nodes) => if Used(b, i) && Index(b, i) < |nodes| then Some(nodes[Index(b, i)]) else None
    case HashArray(_, slots) => if i < |slots| then slots[i] else None
    case _ => None
  }

  /** What a branch promises about itself, its children aside. */
  ghost predicate Branch<K, V>(node: Node<K, V>) {
    var branch := match node
      case BitmapIndexed(b, nodes) =>
        && b < One(SLOTS) && 1 <= |nodes| <= MAX_BITMAP_CHILDREN && |nodes| == Index(b, SLOTS)
        && (|nodes| == 1 ==> !nodes[0].IsLeaf())
      case HashArray(count, slots) => |slots| == SLOTS && count == Filled(slots, SLOTS) >= MIN_ARRAY_CHILDREN
      case _ => false;
    branch
  }

  /** r is node with the child of slot s replaced by d. */
  ghost predicate ChildReplaced<K, V>(node: Node<K, V>, r: Node<K, V>, s: nat, d: Option<Node<K, V>>) {
    forall i: nat {:trigger ChildAt(r, i)} {:trigger ChildAt(node, i)} ::
      i < SLOTS ==> ChildAt(r, i) == if i == s then d else ChildAt(node, i)
  }

  lemma IndexOfUsed(b: nat, i: nat)
    requires i < SLOTS && Used(b, i)
    ensures Index(b, i) < Index(b, SLOTS)
  {
    RankMonotone(b, i, SLOTS);
  }

  lemma IndexInjective(b: nat, i: nat, j: nat)
    requires Used(b, i) && Used(b, j) && i != j
    ensures Index(b, i) != Index(b, j)
  {
    if i < j { RankMonotone(b, i, j); } else { RankMonotone(b, j, i); }
  }

  /** Every packed position belongs to a slot. */
  lemma SlotOfIndex(b: nat, p: nat, n: nat) returns (j: nat)
    requires p < Index(b, n)
    ensures j < n && Used(b, j) && Index(b, j) == p
  {
    if Used(b, n - 1) && Index(b, n - 1) == p {
      j := n - 1;
    } else {
      j := SlotOfIndex(b, p, n - 1);
    }
  }

  // ----- well-formedness and lookup through the slots

  lemma ChildShape<K(!new), V>(hash: K -> Hash, node: Node<K, V>, path: seq<int>, i: nat)
    requires WellFormed(hash, node, path) && !node.IsLeaf()
    ensures Branch(node) && |path| < 7
    ensures i < SLOTS && ChildAt(node, i).Some? ==> WellFormed(hash, ChildAt(node, i).value, path + [i])
    ensures i < SLOTS && node.BitmapIndexed? ==> (ChildAt(node, i).Some? <==> Used(node.bitmap, i))
  {
  }

  lemma BranchShape<K(!new), V>(hash: K -> Hash, node: Node<K, V>, path: seq<int>)
    requires Branch(node) && |path| < 7
    requires forall i: nat {:trigger ChildAt(node, i)} :: i < SLOTS && ChildAt(node, i).Some? ==>
               WellFormed(hash, ChildAt(node, i).value, path + [i])
    ensures WellFormed(hash, node, path)
  {
    match node
    case BitmapIndexed(b, nodes) =>
      forall i: nat | i < SLOTS && Used(b, i)
        ensures Index(b, i) < |nodes| && Shape(hash, nodes[Index(b, i)], path + [i])
      {
        IndexOfUsed(b, i);
        assert ChildAt(node, i).Some?;
      }
    case HashArray(_, slots) =>
      forall i: nat | i < SLOTS && slots[i].Some? ensures Shape(hash, slots[i].value, path + [i]) {
        assert ChildAt(node, i).Some?;
      }
  }

  lemma GetChild<K(!new), V>(node: Node<K, V>, shift: nat, h: Hash, k: K)
    requires !node.IsLeaf()
    ensures Get(node, shift, h, k) == match ChildAt(node, Slice(h, shift))
                                        case None => None
                                        case Some(c) => Get(c, shift + 5, h, k)
  {
  }

  lemma ReplacedShape<K(!new), V>(hash: K -> Hash, node: Node<K, V>, r: Node<K, V>, path: seq<int>, s: nat,
          d: Option<Node<K, V>>)
    requires WellFormed(hash, node, path) && !node.IsLeaf() && s < SLOTS
    requires Branch(r) && ChildReplaced(node, r, s, d)
    requires d.Some? ==> WellFormed(hash, d.value, path + [s])
    ensures WellFormed(hash, r, path)
  {
    forall i: nat | i < SLOTS && ChildAt(r, i).Some? ensures WellFormed(hash, ChildAt(r, i).value, path + [i]) {
      ChildShape(hash, node, path, i);
    }
    ChildShape(hash, node, path, s);
    BranchShape(hash, r, path);
  }

  // ----- bitmap nodes

  lemma ReplaceBitmapChild<K, V>(b: nat, nodes: seq<Node<K, V>>, s: nat, x: Node<K, V>)
    requires Branch(BitmapIndexed(b, nodes)) && s < SLOTS && Used(b, s)
    requires |nodes| == 1 ==> !x.IsLeaf()
    ensures Index(b, s) < |nodes|
    ensures var r := BitmapIndexed(b, nodes[Index(b, s) := x]);
      Branch(r) && ChildReplaced(BitmapIndexed(b, nodes), r, s, Some(x))
  {
    IndexOfUsed(b, s);
    var node, r := BitmapIndexed(b, nodes), BitmapIndexed(b, nodes[Index(b, s) := x]);
    forall i: nat | i < SLOTS ensures ChildAt(r, i) == if i == s then Some(x) else ChildAt(node, i) {
      if Used(b, i) && i != s { IndexInjective(b, i, s); }
    }
  }

  lemma SpliceInChild<K, V>(b: nat, nodes: seq<Node<K, V>>, s: nat, x: Node<K, V>)
    requires Branch(BitmapIndexed(b, nodes)) && s < SLOTS && !Used(b, s) && |nodes| < MAX_BITMAP_CHILDREN
    ensures Index(b, s) <= |nodes|
    ensures var r := BitmapIndexed(Or(b, One(s)), SpliceIn(nodes, Index(b, s), x));
      Branch(r) && ChildReplaced(BitmapIndexed(b, nodes), r, s, Some(x))
  {
    IndexBound(b, s);
    OrAddsSlot(b, s);
    SpliceInAt(b, Or(b, One(s)), nodes, s, x);
  }

  lemma SpliceInAt<K, V>(b: nat, c: nat, nodes: seq<Node<K, V>>, s: nat, x: Node<K, V>)
    requires Branch(BitmapIndexed(b, nodes)) && s < SLOTS && SlotAdded(b, c, s) && |nodes| < MAX_BITMAP_CHILDREN
    requires Index(b, s) <= |nodes|
    ensures var r := BitmapIndexed(c, SpliceIn(nodes, Index(b, s), x));
      Branch(r) && ChildReplaced(BitmapIndexed(b, nodes), r, s, Some(x))
  {
    var node, r := BitmapIndexed(b, nodes), BitmapIndexed(c, SpliceIn(nodes, Index(b, s), x));
    forall i: nat | i < SLOTS ensures ChildAt(r, i) == if i == s then Some(x) else ChildAt(node, i) {
      SlotOrder(b, i, s);
    }
  }

  /** Slots before s sit before its position, slots after it at or after. */
  lemma SlotOrder(b: nat, i: nat, s: nat)
    requires i < SLOTS && s < SLOTS
    ensures Used(b, i) ==> Index(b, i) < Index(b, SLOTS)
    ensures Used(b, i) && i < s ==> Index(b, i) < Index(b, s)
    ensures i > s ==> Index(b, s) + (if Used(b, s) then 1 else 0) <= Index(b, i)
  {
    RankMonotone(b, i, SLOTS);
    if i < s { RankMonotone(b, i, s); }
    if i > s { RankMonotone(b, s, i); }
  }

  lemma SpliceOutChild<K, V>(b: nat, nodes: seq<Node<K, V>>, s: nat)
    requires Branch(BitmapIndexed(b, nodes)) && s < SLOTS && Used(b, s)
    requires |nodes| >= 2 && Index(b, s) < |nodes| && (|nodes| == 2 ==> !nodes[1 - Index(b, s)].IsLeaf())
    ensures var r := BitmapIndexed(Xor(b, One(s)), SpliceOut(nodes, Index(b, s)));
      Branch(r) && ChildReplaced(BitmapIndexed(b, nodes), r, s, None)
  {
    XorRemovesSlot(b, s);
    SpliceOutAt(Xor(b, One(s)), b, nodes, s);
  }

  lemma SpliceOutAt<K, V>(b: nat, c: nat, nodes: seq<Node<K, V>>, s: nat)
    requires Branch(BitmapIndexed(c, nodes)) && s < SLOTS && SlotAdded(b, c, s) && b < One(SLOTS)
    requires |nodes| >= 2 && Index(c, s) < |nodes| && (|nodes| == 2 ==> !nodes[1 - Index(c, s)].IsLeaf())
    ensures var r := BitmapIndexed(b, SpliceOut(nodes, Index(c, s)));
      Branch(r) && ChildReplaced(BitmapIndexed(c, nodes), r, s, None)
  {
    hide Used;
    var node, r := BitmapIndexed(c, nodes), BitmapIndexed(b, SpliceOut(nodes, Index(c, s)));
    forall i: nat | i < SLOTS ensures ChildAt(r, i) == if i == s then None else ChildAt(node, i) {
      SlotOrder(c, i, s);
    }
  }

  // ----- array nodes

  lemma ExpandChild<K, V>(b: nat, nodes: seq<Node<K, V>>, s: nat, x: Node<K, V>)
    requires Branch(BitmapIndexed(b, nodes)) && s < SLOTS && !Used(b, s) && |nodes| == MAX_BITMAP_CHILDREN
    ensures var r := Expand(b, nodes, s, x);
      Branch(r) && ChildReplaced(BitmapIndexed(b, nodes), r, s, Some(x))
  {
    var r := Expand(b, nodes, s, x);
    forall i: nat | i < SLOTS ensures r.slots[i].Some? == (i == s || Used(b, i)) {
      if Used(b, i) { IndexOfUsed(b, i); }
    }
    FilledOne(b, r.slots, s, SLOTS);
  }

  lemma FilledOne<T>(b: nat, slots: seq<Option<T>>, s: nat, n: nat)
    requires n <= |slots| && !Used(b, s)
    requires forall i: nat :: i < n ==> slots[i].Some? == (i == s || Used(b, i))
    ensures Filled(slots, n) == Index(b, n) + (if n > s then 1 else 0)
  {
    if n > 0 { FilledOne(b, slots, s, n - 1); }
  }

  lemma FilledUpdate<T>(slots: seq<Option<T>>, s: nat, d: Option<T>, n: nat)
    requires s < |slots| && n <= |slots|
    ensures Filled(slots[s := d], n) + (if n > s && slots[s].Some? then 1 else 0)
         == Filled(slots, n) + (if n > s && d.Some? then 1 else 0)
  {
    if n > 0 { FilledUpdate(slots, s, d, n - 1); }
  }

  lemma SetSlot<K, V>(count: int, slots: seq<Option<Node<K, V>>>, s: nat, d: Option<Node<K, V>>)
    requires Branch(HashArray(count, slots)) && s < SLOTS
    ensures var count' := count - (if slots[s].Some? then 1 else 0) + (if d.Some? then 1 else 0);
      var r := HashArray(count', slots[s := d]);
      (count' >= MIN_ARRAY_CHILDREN ==> Branch(r)) && ChildReplaced(HashArray(count, slots), r, s, d)
  {
    FilledUpdate(slots, s, d, SLOTS);
  }

  /** b and ns hold the filled slots below n, in order, except one. */
  ghost predicate Packed<T>(slots: seq<Option<T>>, without: nat, n: nat, b: nat, ns: seq<T>)
    requires n <= |slots|
  {
    var packed :=
      && b < One(SLOTS)
      && (forall i: nat {:trigger Used(b, i)} :: Used(b, i) == (i < n && slots[i].Some? && i != without))
      && (forall i: nat {:trigger Index(b, i)} :: i >= n ==> Index(b, i) == |ns|)
      && (forall i: nat {:trigger slots[i]} :: i < n && slots[i].Some? && i != without ==>
            Index(b, i) < |ns| && ns[Index(b, i)] == slots[i].value);
    packed
  }

  lemma PackUpTo<T>(slots: seq<Option<T>>, without: nat, n: nat)
    requires n <= |slots| <= SLOTS
    ensures Packed(slots, without, n, PackedBits(slots, without, n), PackedNodes(slots, without, n))
  {
    if n == 0 {
      forall i: nat ensures !Used(0, i) && Index(0, i) == 0 { NoSlots(i); }
      OneBound(0, SLOTS);
    } else {
      PackUpTo(slots, without, n - 1);
      var a, ns := PackedBits(slots, without, n - 1), PackedNodes(slots, without, n - 1);
      if slots[n - 1].Some? && n - 1 != without {
        PackOne(slots, without, n - 1, a, Or(a, One(n - 1)), ns);
      } else {
        PackNone(slots, without, n - 1, a, ns);
      }
    }
  }

  lemma PackOne<T>(slots: seq<Option<T>>, without: nat, m: nat, a: nat, b: nat, ns: seq<T>)
    requires m < |slots| <= SLOTS && slots[m].Some? && m != without
    requires Packed(slots, without, m, a, ns) && b == Or(a, One(m))
    ensures Packed(slots, without, m + 1, b, ns + [slots[m].value])
  {
    OrAddsSlot(a, m);
  }

  lemma PackNone<T>(slots: seq<Option<T>>, without: nat, m: nat, a: nat, ns: seq<T>)
    requires m < |slots| <= SLOTS && (slots[m].None? || m == without)
    requires Packed(slots, without, m, a, ns)
    ensures Packed(slots, without, m + 1, a, ns)
  {
  }

  lemma PackedCount<T>(slots: seq<Option<T>>, without: nat, n: nat)
    requires n <= |slots|
    ensures |PackedNodes(slots, without, n)| + (if without < n
        && slots[without].Some? then 1 else 0) == Filled(slots, n)
  {
  }

  lemma PackChild<K, V>(count: int, slots: seq<Option<Node<K, V>>>, s: nat)
    requires Branch(HashArray(count, slots)) && s < SLOTS && slots[s].Some? && count == MIN_ARRAY_CHILDREN
    ensures Branch(Pack(slots, s)) && ChildReplaced(HashArray(count, slots), Pack(slots, s), s, None)
  {
    PackUpTo(slots, s, SLOTS);
    PackedCount(slots, s, SLOTS);
    var b, ns := PackedBits(slots, s, SLOTS), PackedNodes(slots, s, SLOTS);
    assert Index(b, SLOTS) == |ns|;
  }
}
