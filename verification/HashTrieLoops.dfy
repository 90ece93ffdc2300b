/**
 The array loops of the trie, each proved to compute the function that the rest of
 the model uses in its place.
 */
module HashTrieLoops {
  import opened EntryLists
  import opened Options
  import opened Words
  import opened HashTrie

  /** The linear search of a list of entries. */
  method FindEntry<K(==), V>(es: seq<(K, V)>, k: K) returns (c: nat)
    ensures c == Find(es, k)
  {
    c := 0;
    while c < |es| && es[c].0 != k
      invariant c <= |es|
      invariant Find(es, k) == c + Find(es[c..], k)
    {
      c := c + 1;
    }
  }

  method SpliceInLoop<T>(s: seq<T>, e: nat, x: T) returns (r: seq<T>)
    requires e <= |s|
    ensures r == SpliceIn(s, e, x)
  {
    r := [];
    var after := 0;
    for i := 0 to |s| + 1
      invariant after == if i > e then 1 else 0
      invariant r == SpliceIn(s, e, x)[..i]
    {
      if i == e {
        r, after := r + [x], 1;
      } else {
        r := r + [s[i - after]];
      }
    }
  }

  method SpliceOutLoop<T>(s: seq<T>, e: nat) returns (r: seq<T>)
    requires e < |s|
    ensures r == SpliceOut(s, e)
  {
    r := [];
    var after := 0;
    for i := 0 to |s| - 1
      invariant after == if i > e then 1 else 0
      invariant r == SpliceOut(s, e)[..i]
    {
      if i == e {
        after := 1;
      }
      r := r + [s[i + after]];
    }
  }

  lemma ShrZero(x: nat, n: nat, i: nat)
    requires Shr(x, n) == 0 && i >= n
    ensures !Bit(x, i)
  {
    BitShr(x, n, i - n);
    BitZero(i - n);
  }

  lemma ShrStep(x: nat, n: nat)
    ensures Shr(x, n + 1) == Shr(x, n) / 2
    ensures (Shr(x, n) % 2 == 1) == Bit(x, n)
  {
    if n > 0 { ShrStep(x / 2, n - 1); }
  }

  lemma BitShr(x: nat, n: nat, i: nat)
    ensures Bit(Shr(x, n), i) == Bit(x, n + i)
  {
    if n > 0 { BitShr(x / 2, n - 1, i); }
  }

  lemma ShrAll(x: nat, n: nat)
    requires x < One(n)
    ensures Shr(x, n) == 0
  {
    if n > 0 { ShrAll(x / 2, n - 1); }
  }

  /** Spreading packed children over 32 slots: the bitmap is shifted out bit by bit. */
  method ExpandNodes<K, V>(b: nat, nodes: seq<Node<K, V>>, s: nat, child: Node<K, V>) returns (r: Node<K, V>)
    requires b < One(SLOTS) && |nodes| == Index(b, SLOTS) && s < SLOTS && !Used(b, s)
    ensures r == Expand(b, nodes, s, child)
  {
    var count := 0;
    var slots := new Option<Node<K, V>>[SLOTS](_ => None);
    var bits, i := b, 0;
    while bits != 0
      invariant i <= SLOTS && bits == Shr(b, i)
      invariant count == Index(b, i) <= |nodes|
      invariant Spread(slots[..], b, nodes, i)
      decreases bits
    {
      ShrStep(b, i);
      if i == SLOTS {
        ShrAll(b, SLOTS);
        assert false;
      }
      IndexBound(b, i + 1);
      ghost var before := slots[..];
      if bits % 2 == 1 {
        slots[i] := Some(nodes[count]);
        count := count + 1;
      } else {
        slots[i] := None;
      }
      SpreadStep(before, slots[..], b, nodes, i);
      i, bits := i + 1, bits / 2;
    }
    forall j: nat | i <= j < SLOTS ensures !Used(b, j) { ShrZero(b, i, j); }
    IndexTail(b, i, SLOTS);
    SpreadAll(slots[..], b, nodes, i, s, child);
    slots[s] := Some(child);
    r := HashArray(count + 1, slots[..]);
  }

  lemma SpreadAll<K, V>(slots: seq<Option<Node<K, V>>>, b: nat, nodes: seq<Node<K, V>>, i: nat, s: nat,
          child: Node<K, V>)
    requires Spread(slots, b, nodes, i) && s < SLOTS && forall j: nat :: i <= j < SLOTS ==> !Used(b, j)
    ensures slots[s := Some(child)] == Expand(b, nodes, s, child).slots
  {}

  /** The children of the first i slots stand in their slots, and nothing else does. */
  ghost predicate Spread<K, V>(slots: seq<Option<Node<K, V>>>, b: nat, nodes: seq<Node<K, V>>, i: nat) {
    && |slots| == SLOTS
    && forall j: nat {:trigger slots[j]} :: j < SLOTS ==>
      slots[j] == if j < i && Used(b, j) && Index(b, j) < |nodes| then Some(nodes[Index(b, j)]) else None
  }

  lemma SpreadStep<K, V>(slots: seq<Option<Node<K, V>>>, after: seq<Option<Node<K, V>>>, b: nat,
          nodes: seq<Node<K, V>>, i: nat)
    requires Spread(slots, b, nodes, i) && i < SLOTS
    requires after == slots[i := if Used(b, i) && Index(b, i) < |nodes| then Some(nodes[Index(b, i)]) else None]
    ensures Spread(after, b, nodes, i + 1)
  {}

  lemma IndexTail(b: nat, i: nat, n: nat)
    requires i <= n && forall j: nat :: i <= j < n ==> !Used(b, j)
    ensures Index(b, n) == Index(b, i)
  {
    if i < n { IndexTail(b, i, n - 1); assert !Used(b, n - 1); }
  }

  /** Packing the filled slots but one: a running bit follows the scan. */
  method PackNodes<K, V>(slots: seq<Option<Node<K, V>>>, without: nat) returns (r: Node<K, V>)
    ensures r == Pack(slots, without)
  {
    var bitmap, packed, bit := 0, [], 1;
    for i := 0 to |slots|
      invariant bit == One(i)
      invariant bitmap == PackedBits(slots, without, i) && packed == PackedNodes(slots, without, i)
    {
      if slots[i].Some? && i != without {
        bitmap, packed := Or(bitmap, bit), packed + [slots[i].value];
      }
      bit := 2 * bit;
    }
    r := BitmapIndexed(bitmap, packed);
  }
}
