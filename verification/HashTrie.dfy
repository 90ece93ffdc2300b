/**
 The nodes of the persistent hash map: branches with a bitmap and packed children,
 branches with 32 slots, collision buckets and single-entry leaves; lookup and
 update on them.

 A node sits at a path: the five-bit hash slices that lead to it, lowest bits first.
 The code carries only the path's length, as `shift`; the path itself is ghost.
 */
module HashTrie {
  import opened EntryLists
  import opened Options
  import opened Words

  type Hash = h: nat | h < One(32) witness 0

  datatype Node<K, V> =
    | BitmapIndexed(bitmap: nat, nodes: seq<Node<K, V>>)
    | HashArray(count: int, slots: seq<Option<Node<K, V>>>)
    | Collision(keyHash: Hash, entries: seq<(K, V)>)
    | Value(keyHash: Hash, entry: (K, V))
  {
    predicate IsLeaf() { Value? || Collision? }
  }

  const SLOTS := 32
  const MAX_BITMAP_CHILDREN := 16
  const MIN_ARRAY_CHILDREN := 8

  // ----- slots of a bitmap

  /** Slot i has a child. */
  predicate Used(b: nat, i: nat) { Bit(b, i) }

  /** The packed position of slot i: the children of lower slots come before it. */
  function Index(b: nat, i: nat): nat { Rank(b, i) }

  /** How the code locates a slot: by masking, and by counting the bits below it. */
  method Locate(b: nat, s: nat) returns (has: bool, i: nat)
    requires b < One(32) && s < SLOTS
    ensures has == Used(b, s) && i == Index(b, s)
  {
    var bit := One(s);
    AndOne(b, s);
    has := And(b, bit) != 0;
    AndAtMost(b, bit - 1);
    i := Popcount(And(b, bit - 1));
    BelowCount(b, s);
  }

  lemma IndexBound(b: nat, s: nat)
    requires s <= SLOTS
    ensures Index(b, s) <= Index(b, SLOTS)
  {
    RankMonotone(b, s, SLOTS);
  }

  // ----- the shape of a node

  /** The hash leads along the path. */
  ghost predicate OnPath(h: Hash, path: seq<int>) {
    forall j :: 0 <= j < |path| ==> path[j] == Slice(h, 5 * j)
  }

  lemma OneSliceOn(h: Hash, path: seq<int>)
    requires OnPath(h, path)
    ensures OnPath(h, path + [Slice(h, 5 * |path|)])
  {
  }

  /** How many of the first n slots are filled. */
  function Filled<T>(slots: seq<Option<T>>, n: nat): nat
    requires n <= |slots|
  {
    if n == 0 then 0 else Filled(slots, n - 1) + (if slots[n - 1].Some? then 1 else 0)
  }

  /** The shape of every reachable node. */
  ghost predicate Shape<K(!new), V>(hash: K -> Hash, node: Node<K, V>, path: seq<int>)
    decreases node
  {
    match node
    case Value(h, e) => h == hash(e.0) && OnPath(h, path)
    case Collision(h, es) =>
      && |es| >= 2 && DistinctKeys(es) && OnPath(h, path)
      && forall i :: 0 <= i < |es| ==> hash(es[i].0) == h
    case BitmapIndexed(b, nodes) =>
      && |path| < 7 && b < One(32)
      && 1 <= |nodes| <= MAX_BITMAP_CHILDREN && |nodes| == Index(b, SLOTS)
      && (|nodes| == 1 ==> !nodes[0].IsLeaf())
      && forall i: nat {:trigger Used(b, i)} :: i < SLOTS && Used(b, i) ==>
           Index(b, i) < |nodes| && Shape(hash, nodes[Index(b, i)], path + [i])
    case HashArray(count, slots) =>
      && |path| < 7 && |slots| == SLOTS
      && count == Filled(slots, SLOTS) >= MIN_ARRAY_CHILDREN
      && forall i: nat :: i < SLOTS && slots[i].Some? ==> Shape(hash, slots[i].value, path + [i])
  }

  /** Shape, which the verifier then carries as one fact instead of case by case. */
  ghost predicate WellFormed<K(!new), V>(hash: K -> Hash, node: Node<K, V>, path: seq<int>) {
    var shape := Shape(hash, node, path);
    shape
  }

  // ----- lookup

  function GetEntry<K(==), V>(es: seq<(K, V)>, k: K): Option<V> {
    var i := Find(es, k);
    if i < |es| then Some(es[i].1) else None
  }

  /**
   Lookup. Indexing out of a child array, which a trie never does (IndexOfUsed in
   HashTrieBranches), finds nothing.
   */
  function Get<K(==), V>(node: Node<K, V>, shift: nat, h: Hash, k: K): Option<V>
    decreases node
  {
    match node
    case Value(_, e) => if e.0 == k then Some(e.1) else None
    case Collision(_, es) => GetEntry(es, k)
    case BitmapIndexed(b, nodes) =>
      var s := Slice(h, shift);
      if Used(b, s) && Index(b, s) < |nodes| then Get(nodes[Index(b, s)], shift + 5, h, k) else None
    case HashArray(_, slots) =>
      var s := Slice(h, shift);
      if s < |slots| && slots[s].Some? then Get(slots[s].value, shift + 5, h, k) else None
  }

  // ----- update

  /** The node an update leaves (None when nothing is left), and what it tells the map. */
  datatype Outcome<K, V> = Outcome(node: Option<Node<K, V>>, altered: bool, resized: bool)

  /** The update of an absent child: a removal finds nothing, a new value becomes a leaf. */
  function NewLeaf<K, V>(h: Hash, k: K, v: Option<V>): Outcome<K, V> {
    match v
    case None => Outcome(None, false, false)
    case Some(x) => Outcome(Some(Value(h, (k, x))), true, true)
  }

  /**
   Pushes a leaf and a new entry down until their hashes part. They always part at a
   shift of at most 30 (HashesPart in HashTrieProofs), so the last slice is never passed.
   */
  function Merge<K, V>(node: Node<K, V>, shift: nat, h: Hash, e: (K, V)): Node<K, V>
    requires node.IsLeaf() && (node.keyHash == h ==> node.Value?)
    decreases 35 - shift
  {
    if node.keyHash == h then Collision(h, [node.entry, e])
    else
      var u, s := Slice(node.keyHash, shift), Slice(h, shift);
      BitmapIndexed(Or(One(u), One(s)),
        if u == s then (if shift <= 30 then [Merge(node, shift + 5, h, e)] else [])
        else if u < s then [node, Value(h, e)]
        else [Value(h, e), node])
  }

  function SpliceIn<T>(s: seq<T>, i: nat, x: T): seq<T>
    requires i <= |s|
  {
    s[..i] + [x] + s[i..]
  }

  function SpliceOut<T>(s: seq<T>, i: nat): seq<T>
    requires i < |s|
  {
    s[..i] + s[i + 1..]
  }

  /** A bitmap node with one more child, as an array of 32 slots. */
  function Expand<K, V>(b: nat, nodes: seq<Node<K, V>>, s: nat, child: Node<K, V>): Node<K, V>
    requires s < SLOTS
  {
    HashArray(|nodes| + 1, seq(SLOTS, i requires 0 <= i < SLOTS =>
      if i == s then Some(child)
      else if Used(b, i) && Index(b, i) < |nodes| then Some(nodes[Index(b, i)])
      else None))
  }

  function PackedBits<T>(slots: seq<Option<T>>, without: nat, n: nat): nat
    requires n <= |slots|
  {
    if n == 0 then 0
    else
      var rest := PackedBits(slots, without, n - 1);
      if slots[n - 1].Some? && n - 1 != without then Or(rest, One(n - 1)) else rest
  }

  function PackedNodes<T>(slots: seq<Option<T>>, without: nat, n: nat): seq<T>
    requires n <= |slots|
  {
    if n == 0 then []
    else
      var rest := PackedNodes(slots, without, n - 1);
      if slots[n - 1].Some? && n - 1 != without then rest + [slots[n - 1].value] else rest
  }

  /** An array of slots without one of them, as a bitmap node. */
  function Pack<K, V>(slots: seq<Option<Node<K, V>>>, without: nat): Node<K, V> {
    BitmapIndexed(PackedBits(slots, without, |slots|), PackedNodes(slots, without, |slots|))
  }

  /** The entries with the one at i removed: the last entry takes its place. */
  function RemoveEntry<T>(es: seq<T>, i: nat): seq<T>
    requires i < |es|
  {
    if i == |es| - 1 then es[..i] else es[i := es[|es| - 1]][..|es| - 1]
  }

  function UpdateValue<K(==), V(==)>(node: Node<K, V>, shift: nat, h: Hash, k: K, v: Option<V>): Outcome<K, V>
    requires node.Value?
  {
    var same := node.entry.0 == k;
    if (if same then v == Some(node.entry.1) else v.None?) then Outcome(Some(node), false, false)
    else if v.None? then Outcome(None, true, true)
    else if same then Outcome(Some(Value(node.keyHash, (k, v.value))), true, false)
    else Outcome(Some(Merge(node, shift, h, (k, v.value))), true, true)
  }

  function UpdateCollision<K(==), V(==)>(node: Node<K, V>, shift: nat, h: Hash, k: K, v: Option<V>): Outcome<K, V>
    requires node.Collision?
  {
    if h != node.keyHash then
      if v.None? then Outcome(Some(node), false, false)
      else Outcome(Some(Merge(node, shift, h, (k, v.value))), true, true)
    else
      var es := node.entries;
      var i := Find(es, k);
      var found := i < |es|;
      if (if found then v == Some(es[i].1) else v.None?) then Outcome(Some(node), false, false)
      else if v.None? && |es| == 2 then Outcome(Some(Value(h, es[1 - i])), true, true)
      else
        var es' :=
          if !found then es + [(k, v.value)]
          else if v.None? then RemoveEntry(es, i)
          else es[i := (k, v.value)];
        Outcome(Some(Collision(h, es')), true, v.None? || !found)
  }

  function Update<K(==), V(==)>(node: Node<K, V>, shift: nat, h: Hash, k: K, v: Option<V>): Outcome<K, V>
    decreases node
  {
    match node
    case Value(_, _) => UpdateValue(node, shift, h, k, v)
    case Collision(_, _) => UpdateCollision(node, shift, h, k, v)
    case BitmapIndexed(b, nodes) =>
      var s := Slice(h, shift);
      if !Used(b, s) && v.None? then Outcome(Some(node), false, false)
      else
        var d := if Used(b, s) && Index(b, s) < |nodes| then Update(nodes[Index(b, s)], shift + 5, h, k, v)
                 else NewLeaf(h, k, v);
        UpdateBitmap(b, nodes, s, d)
    case HashArray(count, slots) =>
      var s := Slice(h, shift);
      if s >= |slots| || (slots[s].None? && v.None?) then Outcome(Some(node), false, false)
      else
        var d := match slots[s] case None => NewLeaf(h, k, v)
                                case Some(child) => Update(child, shift + 5, h, k, v);
        UpdateArray(count, slots, s, d)
  }

  /** What a bitmap node makes of its updated child. */
  function UpdateBitmap<K(==), V(==)>(b: nat, nodes: seq<Node<K, V>>, s: nat, d: Outcome<K, V>): Outcome<K, V>
    requires s < SLOTS
  {
    var i := Index(b, s);
    if Used(b, s) && i < |nodes| then
      if d.node == Some(nodes[i]) then d.(node := Some(BitmapIndexed(b, nodes)))
      else if d.node.None? && |nodes| == 2 && nodes[1 - i].IsLeaf() then d.(node := Some(nodes[1 - i]))
      else if d.node.Some? && |nodes| == 1 && d.node.value.IsLeaf() then d
      else if d.node.Some? then d.(node := Some(BitmapIndexed(b, nodes[i := d.node.value])))
      else d.(node := Some(BitmapIndexed(Xor(b, One(s)), SpliceOut(nodes, i))))
    else if d.node.Some? && i <= |nodes| then
      if |nodes| >= MAX_BITMAP_CHILDREN then d.(node := Some(Expand(b, nodes, s, d.node.value)))
      else d.(node := Some(BitmapIndexed(Or(b, One(s)), SpliceIn(nodes, i, d.node.value))))
    else Outcome(Some(BitmapIndexed(b, nodes)), false, false)
  }

  /** What an array node makes of its updated child. */
  function UpdateArray<K(==), V(==)>(count: int, slots: seq<Option<Node<K, V>>>, s: nat,
          d: Outcome<K, V>): Outcome<K, V>
    requires s < |slots|
  {
    if d.node == slots[s] then d.(node := Some(HashArray(count, slots)))
    else if slots[s].None? then d.(node := Some(HashArray(count + 1, slots[s := d.node])))
    else if d.node.Some? then d.(node := Some(HashArray(count, slots[s := d.node])))
    else if count - 1 < MIN_ARRAY_CHILDREN then d.(node := Some(Pack(slots, s)))
    else d.(node := Some(HashArray(count - 1, slots[s := None])))
  }
}
