/**
 The insertion-ordered map: a hash map from keys to indices, and a list of entries
 in which removed entries leave holes until there are enough of them to compact.
 The list is a sequence here.
 */
module OrderedMap {
  import opened EntryLists
  import opened Options
  import opened HashTrie
  import ImmutableMap

  type Slot<K, V> = Option<(K, V)>

  datatype OrderedMap<K, V> = OrderedMap(index: ImmutableMap.Map<K, int>, list: seq<Slot<K, V>>)

  const COMPACT_FROM := 32

  function Empty<K, V>(): OrderedMap<K, V> { OrderedMap(ImmutableMap.Empty(), []) }

  function Get<K(==), V>(hash: K -> Hash, m: OrderedMap<K, V>, k: K): Option<V> {
    match ImmutableMap.Get(hash, m.index, k)
    case None => None
    case Some(i) => if 0 <= i < |m.list| && m.list[i].Some? then Some(m.list[i].value.1) else None
  }

  /** The entries of the first n slots, without the holes and without slot s. */
  function Compact<K, V>(list: seq<Slot<K, V>>, s: int, n: nat): seq<Slot<K, V>>
    requires n <= |list|
  {
    if n == 0 then []
    else
      var rest := Compact(list, s, n - 1);
      if list[n - 1].Some? && n - 1 != s then rest + [list[n - 1]] else rest
  }

  /** The map from the keys of a list without holes to their positions. */
  function IndexList<K(==), V>(hash: K -> Hash, list: seq<Slot<K, V>>, n: nat): ImmutableMap.Map<K, int>
    requires n <= |list|
  {
    if n == 0 then ImmutableMap.Empty()
    else
      var rest := IndexList(hash, list, n - 1);
      if list[n - 1].Some? then ImmutableMap.UpdateMap(hash, rest, list[n - 1].value.0, Some(n - 1)) else rest
  }

  /** `set` with a value, `remove` with none. */
  function Update<K(==), V(==)>(hash: K -> Hash, m: OrderedMap<K, V>, k: K, v: Option<V>): OrderedMap<K, V> {
    var n := |m.list|;
    match ImmutableMap.Get(hash, m.index, k)
    case None =>
      if v.None? then m
      else OrderedMap(ImmutableMap.UpdateMap(hash, m.index, k, Some(n)), m.list + [Some((k, v.value))])
    case Some(s) =>
      if !(0 <= s < n && m.list[s].Some?) then m
      else if v.Some? then
        if v.value == m.list[s].value.1 then m else m.(list := m.list[s := Some((k, v.value))])
      else if n >= COMPACT_FROM && n >= 2 * m.index.size then
        var list := Compact(m.list, s, n);
        OrderedMap(IndexList(hash, list, |list|), list)
      else
        OrderedMap(ImmutableMap.UpdateMap(hash, m.index, k, None),
                   if s == n - 1 then m.list[..s] else m.list[s := None])
  }

  // ----- what the list stands for

  /** The entries in order, holes skipped: what iteration yields. */
  function Live<K, V>(list: seq<Slot<K, V>>): seq<(K, V)> {
    if list == [] then []
    else
      var es := Live(list[..|list| - 1]);
      var last := list[|list| - 1];
      if last.Some? then es + [last.value] else es
  }

  /** Where each key is. */
  ghost function Positions<K, V>(list: seq<Slot<K, V>>): map<K, int> {
    if list == [] then map[]
    else
      var d := Positions(list[..|list| - 1]);
      var last := list[|list| - 1];
      if last.Some? then d[last.value.0 := |list| - 1] else d
  }

  ghost predicate DistinctSlots<K, V>(list: seq<Slot<K, V>>) {
    forall i, j :: 0 <= i < j < |list| && list[i].Some? && list[j].Some? ==> list[i].value.0 != list[j].value.0
  }

  /** The index knows exactly the live entries, and holes stay few. */
  ghost predicate Valid<K(!new), V>(hash: K -> Hash, m: OrderedMap<K, V>) {
    var valid :=
      && DistinctSlots(m.list)
      && ImmutableMap.Represents(hash, m.index, Positions(m.list))
      && |m.list| - m.index.size <= if m.index.size + 1 > 31 then m.index.size + 1 else 31;
    valid
  }

  // ----- the ordered dictionary it refines

  function Apply<K(==), V>(es: seq<(K, V)>, k: K, v: Option<V>): seq<(K, V)> {
    match v
    case None => Without(es, k)
    case Some(x) => Put(es, k, x)
  }

  // ----- lists

  lemma {:induction false} PositionsAt<K, V>(list: seq<Slot<K, V>>, k: K)
    requires DistinctSlots(list)
    ensures k in Positions(list) ==>
      var i := Positions(list)[k]; 0 <= i < |list| && list[i].Some? && list[i].value.0 == k
    ensures k !in Positions(list) ==> forall i :: 0 <= i < |list| && list[i].Some? ==> list[i].value.0 != k
  {
    if list != [] {
      var init := list[..|list| - 1];
      PositionsAt(init, k);
      assert forall i :: 0 <= i < |init| ==> init[i] == list[i];
    }
  }

  lemma PositionOf<K, V>(list: seq<Slot<K, V>>, i: nat)
    requires DistinctSlots(list) && i < |list| && list[i].Some?
    ensures list[i].value.0 in Positions(list) && Positions(list)[list[i].value.0] == i
  {
    PositionsAt(list, list[i].value.0);
  }

  lemma {:induction false} PositionsSize<K, V>(list: seq<Slot<K, V>>)
    requires DistinctSlots(list)
    ensures |Positions(list)| == |Live(list)| <= |list|
  {
    if list != [] {
      var init, last := list[..|list| - 1], list[|list| - 1];
      PositionsSize(init);
      if last.Some? {
        PositionsAt(init, last.value.0);
        assert forall i :: 0 <= i < |init| ==> init[i] == list[i];
        assert Positions(list).Keys == Positions(init).Keys + {last.value.0};
      }
    }
  }

  /** Equal keys and positions make equal maps. */
  lemma SamePositions<K, V>(list: seq<Slot<K, V>>, d: map<K, int>)
    requires DistinctSlots(list)
    requires forall i :: 0 <= i < |list| && list[i].Some? ==> list[i].value.0 in d && d[list[i].value.0] == i
    requires forall k :: k in d ==> 0 <= d[k] < |list| && list[d[k]].Some? && list[d[k]].value.0 == k
    ensures Positions(list) == d
  {
    forall k | k in Positions(list) ensures k in d && d[k] == Positions(list)[k] {
      PositionsAt(list, k);
    }
    forall k | k in d ensures k in Positions(list) {
      PositionOf(list, d[k]);
    }
    assert Positions(list).Keys == d.Keys;
  }

  /** Every live entry stands in a slot. */
  lemma {:induction false} LiveFromSlot<K, V>(list: seq<Slot<K, V>>, j: nat) returns (i: nat)
    requires j < |Live(list)|
    ensures i < |list| && list[i] == Some(Live(list)[j])
  {
    var n := |list| - 1;
    if j < |Live(list[..n])| {
      i := LiveFromSlot(list[..n], j);
    } else {
      i := n;
    }
  }

  /** Every entry in a slot is live. */
  lemma {:induction false} SlotIsLive<K, V>(list: seq<Slot<K, V>>, i: nat)
    requires i < |list| && list[i].Some?
    ensures list[i].value in Live(list)
  {
    var n := |list| - 1;
    if i < n {
      SlotIsLive(list[..n], i);
    }
  }

  lemma {:induction false} LiveDistinct<K, V>(list: seq<Slot<K, V>>)
    requires DistinctSlots(list)
    ensures DistinctKeys(Live(list))
  {
    if list != [] {
      var n := |list| - 1;
      var init := list[..n];
      LiveDistinct(init);
      if list[n].Some? {
        forall j | 0 <= j < |Live(init)|
          ensures Live(init)[j].0 != list[n].value.0
        {
          var i := LiveFromSlot(init, j);
          assert list[i] == init[i];
        }
      }
    }
  }

  lemma LiveKeys<K, V>(list: seq<Slot<K, V>>)
    requires DistinctSlots(list)
    ensures DistinctKeys(Live(list))
    ensures forall j :: 0 <= j < |Live(list)| ==>
      exists i :: 0 <= i < |list| && list[i] == Some(Live(list)[j])
    ensures forall i :: 0 <= i < |list| && list[i].Some? ==> list[i].value in Live(list)
  {
    LiveDistinct(list);
    forall j | 0 <= j < |Live(list)|
      ensures exists i :: 0 <= i < |list| && list[i] == Some(Live(list)[j])
    {
      var i := LiveFromSlot(list, j);
    }
    forall i | 0 <= i < |list| && list[i].Some?
      ensures list[i].value in Live(list)
    {
      SlotIsLive(list, i);
    }
  }

  lemma NoLiveKey<K, V>(list: seq<Slot<K, V>>, k: K)
    requires DistinctSlots(list) && forall i :: 0 <= i < |list| && list[i].Some? ==> list[i].value.0 != k
    ensures forall j :: 0 <= j < |Live(list)| ==> Live(list)[j].0 != k
  {
    LiveKeys(list);
    forall j | 0 <= j < |Live(list)| ensures Live(list)[j].0 != k {
      var i :| 0 <= i < |list| && list[i] == Some(Live(list)[j]);
    }
  }

  lemma LiveLast<K, V>(list: seq<Slot<K, V>>)
    requires list != []
    ensures var n := |list| - 1;
            Live(list) == if list[n].Some? then Live(list[..n]) + [list[n].value] else Live(list[..n])
  {}

  /** The entries after the value of k is changed to v, or k is removed. */
  function Changed<K(==), V>(es: seq<(K, V)>, k: K, v: Option<V>): seq<(K, V)> {
    if v.Some? then Overwrite(es, k, v.value) else Without(es, k)
  }

  lemma ChangedAppend<K, V>(es: seq<(K, V)>, e: (K, V), k: K, v: Option<V>)
    ensures Changed(es + [e], k, v)
         == Changed(es, k, v) + if e.0 != k then [e] else if v.Some? then [(k, v.value)] else []
  {
    if v.Some? {
      OverwriteAppend(es, e, k, v.value);
    } else {
      WithoutAppend(es, e, k);
    }
  }

  lemma ChangedAbsent<K, V>(es: seq<(K, V)>, k: K, v: Option<V>)
    requires forall i :: 0 <= i < |es| ==> es[i].0 != k
    ensures Changed(es, k, v) == es
  {
    if v.Some? {
      OverwriteAbsent(es, k, v.value);
    } else {
      WithoutAbsent(es, k);
    }
  }

  lemma LastChanged<K, V>(es: seq<(K, V)>, e: (K, V), k: K, v: Option<V>)
    requires e.0 == k && forall i :: 0 <= i < |es| ==> es[i].0 != k
    ensures Changed(es + [e], k, v) == es + if v.Some? then [(k, v.value)] else []
  {
    ChangedAppend(es, e, k, v);
    ChangedAbsent(es, k, v);
  }

  /** A hole removes its entry; a new value stays in place. */
  lemma {:induction false} LiveOfChange<K, V>(list: seq<Slot<K, V>>, s: nat, v: Option<V>)
    requires DistinctSlots(list) && s < |list| && list[s].Some?
    ensures var k := list[s].value.0;
      Live(list[s := if v.Some? then Some((k, v.value)) else None]) == Changed(Live(list), k, v)
  {
    var n, k := |list| - 1, list[s].value.0;
    var x := if v.Some? then Some((k, v.value)) else None;
    var init := list[..n];
    LiveLast(list);
    LiveLast(list[s := x]);
    if s == n {
      assert list[s := x][..n] == init;
      NoLiveKey(init, k);
      LastChanged(Live(init), list[n].value, k, v);
    } else {
      assert list[s := x][..n] == init[s := x];
      LiveOfChange(init, s, v);
      if list[n].Some? {
        assert list[n].value.0 != k;
        ChangedAppend(Live(init), list[n].value, k, v);
      }
    }
  }

  // ----- compaction

  lemma {:induction false} CompactLive<K, V>(list: seq<Slot<K, V>>, s: nat, n: nat)
    requires s < |list| && n <= |list|
    ensures var c := Compact(list, s, n);
      && Live(c) == Live(list[s := None][..n])
      && |c| == |Live(c)|
      && forall j :: 0 <= j < |c| ==> c[j] == Some(Live(c)[j])
  {
    if n > 0 {
      CompactLive(list, s, n - 1);
      var rest, c := Compact(list, s, n - 1), Compact(list, s, n);
      var holed := list[s := None];
      assert holed[..n][..n - 1] == holed[..n - 1];
      if |c| > |rest| { assert c[..|c| - 1] == rest; }
    }
  }

  lemma PositionsNext<K, V>(list: seq<Slot<K, V>>, n: nat)
    requires 0 < n <= |list|
    ensures var d, last := Positions(list[..n - 1]), list[n - 1];
            Positions(list[..n]) == if last.Some? then d[last.value.0 := n - 1] else d
  {
    assert list[..n][..n - 1] == list[..n - 1];
  }

  lemma {:induction false} IndexListRepresents<K(!new), V>(hash: K -> Hash, list: seq<Slot<K, V>>, n: nat)
    requires n <= |list|
    ensures ImmutableMap.Represents(hash, IndexList(hash, list, n), Positions(list[..n]))
  {
    if n > 0 {
      IndexListRepresents(hash, list, n - 1);
      PositionsNext(list, n);
      if list[n - 1].Some? {
        var rest, d := IndexList(hash, list, n - 1), Positions(list[..n - 1]);
        ImmutableMap.UpdateRepresents(hash, rest, d, list[n - 1].value.0, Some(n - 1));
      }
    }
  }

  /** A list without holes whose entries have distinct keys. */
  lemma AllSlotsLive<K, V>(c: seq<Slot<K, V>>)
    requires |c| == |Live(c)| && DistinctKeys(Live(c))
    requires forall j :: 0 <= j < |c| ==> c[j] == Some(Live(c)[j])
    ensures DistinctSlots(c) && |c| == |Positions(c)|
  {
    forall i, j | 0 <= i < j < |c|
      ensures c[i].value.0 != c[j].value.0
    {
      assert c[i] == Some(Live(c)[i]) && c[j] == Some(Live(c)[j]);
    }
    PositionsSize(c);
  }

  lemma CompactSlots<K, V>(list: seq<Slot<K, V>>, s: nat)
    requires DistinctSlots(list) && s < |list| && list[s].Some?
    ensures var c := Compact(list, s, |list|);
      && DistinctSlots(c) && |c| == |Positions(c)|
      && Live(c) == Without(Live(list), list[s].value.0)
  {
    var c := Compact(list, s, |list|);
    CompactLive(list, s, |list|);
    assert list[s := None][..|list|] == list[s := None];
    LiveOfChange(list, s, None);
    LiveDistinct(list);
    WithoutDistinct(Live(list), list[s].value.0);
    AllSlotsLive(c);
  }

  lemma CompactOk<K(!new), V>(hash: K -> Hash, list: seq<Slot<K, V>>, s: nat)
    requires DistinctSlots(list) && s < |list| && list[s].Some?
    ensures var c := Compact(list, s, |list|);
      Valid(hash, OrderedMap(IndexList(hash, c, |c|), c)) && Live(c) == Without(Live(list), list[s].value.0)
  {
    var c := Compact(list, s, |list|);
    CompactSlots(list, s);
    IndexListRepresents(hash, c, |c|);
    assert c[..|c|] == c;
  }

  // ----- one update

  lemma SlotOf<K(!new), V>(hash: K -> Hash, m: OrderedMap<K, V>, k: K)
    requires Valid(hash, m)
    ensures ImmutableMap.Get(hash, m.index, k) == if k in Positions(m.list) then Some(Positions(m.list)[k]) else None
    ensures match ImmutableMap.Get(hash, m.index, k)
            case None => forall i :: 0 <= i < |m.list| && m.list[i].Some? ==> m.list[i].value.0 != k
            case Some(s) => 0 <= s < |m.list| && m.list[s].Some? && m.list[s].value.0 == k
  {
    PositionsAt(m.list, k);
  }

  lemma {:induction false} AppendSlot<K, V>(list: seq<Slot<K, V>>, k: K, x: V)
    requires DistinctSlots(list) && forall i :: 0 <= i < |list| && list[i].Some? ==> list[i].value.0 != k
    ensures var list' := list + [Some((k, x))];
      && DistinctSlots(list')
      && Positions(list') == Positions(list)[k := |list|]
      && Live(list') == Live(list) + [(k, x)]
  {
    var list' := list + [Some((k, x))];
    assert list'[..|list|] == list;
    assert list'[|list|] == Some((k, x));
    forall i, j | 0 <= i < j < |list'| && list'[i].Some?
        && list'[j].Some? ensures list'[i].value.0 != list'[j].value.0 {
      if j == |list| { assert list'[i] == list[i]; }
    }
  }

  lemma AppendOk<K(!new), V>(hash: K -> Hash, m: OrderedMap<K, V>, k: K, x: V)
    requires Valid(hash, m) && ImmutableMap.Get(hash, m.index, k).None?
    ensures Valid(hash, Update(hash, m, k, Some(x)))
    ensures Live(Update(hash, m, k, Some(x)).list) == Live(m.list) + [(k, x)]
  {
    SlotOf(hash, m, k);
    AppendSlot(m.list, k, x);
    ImmutableMap.UpdateRepresents(hash, m.index, Positions(m.list), k, Some(|m.list|));
    SizeOfAppend(Positions(m.list), k, |m.list|);
  }

  lemma SizeOfAppend<K, V>(d: map<K, V>, k: K, x: V)
    requires k !in d
    ensures |d[k := x]| == |d| + 1
  {
    assert d[k := x].Keys == d.Keys + {k};
  }

  lemma OverwriteOk<K(!new), V>(hash: K -> Hash, m: OrderedMap<K, V>, k: K, x: V)
    requires Valid(hash, m) && ImmutableMap.Get(hash, m.index, k).Some?
    ensures Valid(hash, Update(hash, m, k, Some(x)))
    ensures Live(Update(hash, m, k, Some(x)).list) == Overwrite(Live(m.list), k, x)
  {
    SlotOf(hash, m, k);
    var s := ImmutableMap.Get(hash, m.index, k).value;
    var list := m.list[s := Some((k, x))];
    LiveOfChange(m.list, s, Some(x));
    if m.list[s].value.1 == x {
      assert list == m.list;
    } else {
      forall j | j in Positions(m.list)
        ensures var i := Positions(m.list)[j]; 0 <= i < |list| && list[i].Some? && list[i].value.0 == j
      {
        PositionsAt(m.list, j);
      }
      forall i | 0 <= i < |list| && list[i].Some?
        ensures list[i].value.0 in Positions(m.list) && Positions(m.list)[list[i].value.0] == i
      {
        PositionOf(m.list, i);
      }
      SamePositions(list, Positions(m.list));
    }
  }

  lemma HolePositions<K, V>(list: seq<Slot<K, V>>, s: nat)
    requires DistinctSlots(list) && s < |list| && list[s].Some?
    ensures Positions(list[s := None]) == Positions(list) - {list[s].value.0}
  {
    var k, d := list[s].value.0, Positions(list) - {list[s].value.0};
    forall j | j in d ensures 0 <= d[j] < |list| && d[j] != s && list[d[j]].Some? && list[d[j]].value.0 == j {
      PositionsAt(list, j);
    }
    forall i | 0 <= i < |list| && list[s := None][i].Some?
      ensures list[i].value.0 in d && d[list[i].value.0] == i
    {
      PositionOf(list, i);
    }
    SamePositions(list[s := None], d);
  }

  lemma RemoveOk<K(!new), V>(hash: K -> Hash, m: OrderedMap<K, V>, k: K)
    requires Valid(hash, m) && ImmutableMap.Get(hash, m.index, k).Some?
    ensures Valid(hash, Update(hash, m, k, None))
    ensures Live(Update(hash, m, k, None).list) == Without(Live(m.list), k)
  {
    SlotOf(hash, m, k);
    var n, s := |m.list|, ImmutableMap.Get(hash, m.index, k).value;
    if n >= COMPACT_FROM && n >= 2 * m.index.size {
      CompactOk(hash, m.list, s);
    } else {
      LeaveHoleOk(hash, m, k, s);
    }
  }

  lemma LeaveHole<K, V>(list: seq<Slot<K, V>>, s: nat)
    requires DistinctSlots(list) && s < |list| && list[s].Some?
    ensures var k, list' := list[s].value.0, if s == |list| - 1 then list[..s] else list[s := None];
      && DistinctSlots(list') && |list'| <= |list|
      && k in Positions(list) && Positions(list') == Positions(list) - {k}
      && Live(list') == Without(Live(list), k)
      && (s == |list| - 1 ==> |list'| == |list| - 1)
  {
    var holed := list[s := None];
    LiveOfChange(list, s, None);
    HolePositions(list, s);
    PositionOf(list, s);
    if s == |list| - 1 { assert holed[..s] == list[..s]; }
  }

  lemma LeaveHoleOk<K(!new), V>(hash: K -> Hash, m: OrderedMap<K, V>, k: K, s: nat)
    requires Valid(hash, m) && s < |m.list| && m.list[s].Some? && m.list[s].value.0 == k
    requires |m.list| < COMPACT_FROM || |m.list| < 2 * m.index.size
    ensures var list := if s == |m.list| - 1 then m.list[..s] else m.list[s := None];
      Valid(hash, OrderedMap(ImmutableMap.UpdateMap(hash, m.index, k, None), list))
      && Live(list) == Without(Live(m.list), k)
  {
    LeaveHole(m.list, s);
    ImmutableMap.UpdateRepresents(hash, m.index, Positions(m.list), k, None);
    KeyRemoved(Positions(m.list), k);
  }

  lemma KeyRemoved<K, V>(d: map<K, V>, k: K)
    requires k in d
    ensures |d - {k}| == |d| - 1
  {
    assert d.Keys == (d - {k}).Keys + {k};
  }

  /** Every update keeps the index and the list in agreement and is the update of the ordered dictionary. */
  lemma UpdateOk<K(!new), V>(hash: K -> Hash, m: OrderedMap<K, V>, k: K, v: Option<V>)
    requires Valid(hash, m)
    ensures Valid(hash, Update(hash, m, k, v))
    ensures Live(Update(hash, m, k, v).list) == Apply(Live(m.list), k, v)
  {
    SlotOf(hash, m, k);
    LiveKeys(m.list);
    match ImmutableMap.Get(hash, m.index, k)
    case None =>
      NoLiveKey(m.list, k);
      if v.None? { WithoutAbsent(Live(m.list), k); } else { AppendOk(hash, m, k, v.value); }
    case Some(s) =>
      assert m.list[s].value in Live(m.list);
      if v.None? { RemoveOk(hash, m, k); } else { OverwriteOk(hash, m, k, v.value); }
  }

  // ----- reading and runs

  /** Lookup reads the entry that iteration yields. */
  lemma GetReadsLive<K(!new), V>(hash: K -> Hash, m: OrderedMap<K, V>, k: K)
    requires Valid(hash, m)
    ensures Get(hash, m, k) == GetEntry(Live(m.list), k)
    ensures DistinctKeys(Live(m.list)) && m.index.size == |Live(m.list)|
  {
    SlotOf(hash, m, k);
    LiveKeys(m.list);
    PositionsSize(m.list);
    match ImmutableMap.Get(hash, m.index, k)
    case None => NoLiveKey(m.list, k);
    case Some(s) =>
      var j :| 0 <= j < |Live(m.list)| && Live(m.list)[j] == m.list[s].value;
      FoundAt(Live(m.list), j);
  }

  lemma FoundAt<K, V>(es: seq<(K, V)>, j: nat)
    requires DistinctKeys(es) && j < |es|
    ensures GetEntry(es, es[j].0) == Some(es[j].1)
  {
  }

  function Run<K(==), V(==)>(hash: K -> Hash, ops: seq<(K, Option<V>)>): OrderedMap<K, V> {
    if ops == [] then Empty()
    else
      var (k, v) := ops[|ops| - 1];
      Update(hash, Run(hash, ops[..|ops| - 1]), k, v)
  }

  function RunEntries<K(==), V>(ops: seq<(K, Option<V>)>): seq<(K, V)> {
    if ops == [] then []
    else
      var (k, v) := ops[|ops| - 1];
      Apply(RunEntries(ops[..|ops| - 1]), k, v)
  }

  /**
   After every run of updates iteration yields the entries in insertion order, an
   overwritten entry in its old place, and the index agrees with the list.
   */
  lemma {:induction false} RunKeepsOrder<K(!new), V>(hash: K -> Hash, ops: seq<(K, Option<V>)>)
    ensures Valid(hash, Run(hash, ops))
    ensures Live(Run(hash, ops).list) == RunEntries(ops)
  {
    if ops != [] {
      var (k, v) := ops[|ops| - 1];
      RunKeepsOrder(hash, ops[..|ops| - 1]);
      UpdateOk(hash, Run(hash, ops[..|ops| - 1]), k, v);
    }
  }

  // ----- when the list is compacted

  lemma {:induction false} CompactLength<K, V>(list: seq<Slot<K, V>>, s: nat, n: nat)
    requires n <= |list| && s < |list| && list[s].Some?
    ensures |Compact(list, s, n)| == |Live(list[..n])| - if s < n then 1 else 0
  {
    if n > 0 {
      CompactLength(list, s, n - 1);
      assert list[..n][..n - 1] == list[..n - 1];
    }
  }

  lemma SlotFound<K(!new), V>(hash: K -> Hash, m: OrderedMap<K, V>, k: K) returns (s: nat)
    requires Valid(hash, m) && Get(hash, m, k).Some?
    ensures ImmutableMap.Get(hash, m.index, k) == Some(s)
    ensures s < |m.list| && m.list[s].Some? && m.list[s].value.0 == k
  {
    SlotOf(hash, m, k);
    s := ImmutableMap.Get(hash, m.index, k).value;
  }

  lemma SizeOfList<K(!new), V>(hash: K -> Hash, m: OrderedMap<K, V>)
    requires Valid(hash, m)
    ensures m.index.size == |Live(m.list)|
  {
    PositionsSize(m.list);
  }

  lemma AllOfList<T>(list: seq<T>)
    ensures list[..|list|] == list
  {}

  lemma RemovedList<K, V>(hash: K -> Hash, m: OrderedMap<K, V>, k: K, s: nat)
    requires ImmutableMap.Get(hash, m.index, k) == Some(s) && s < |m.list| && m.list[s].Some?
    ensures var n := |m.list|;
            Update(hash, m, k, None).list ==
              if n >= 32 && n >= 2 * m.index.size then Compact(m.list, s, n)
              else if s == n - 1 then m.list[..s] else m.list[s := None]
  {}

  /**
   Removing an entry compacts the list exactly if it has at least 32 slots, no more than half
   of them filled; otherwise the slot is emptied, or dropped if it is the last.
   */
  lemma CompactsIff<K(!new), V>(hash: K -> Hash, m: OrderedMap<K, V>, k: K)
    requires Valid(hash, m) && Get(hash, m, k).Some?
    ensures var list, n := Update(hash, m, k, None).list, |m.list|;
            if n >= 32 && n >= 2 * |Live(m.list)| then |list| == |Live(m.list)| - 1
            else |list| == n || (|list| == n - 1 && m.list[n - 1].Some? && m.list[n - 1].value.0 == k)
  {
    hide *;
    var s := SlotFound(hash, m, k);
    SizeOfList(hash, m);
    AllOfList(m.list);
    CompactLength(m.list, s, |m.list|);
    RemovedList(hash, m, k, s);
  }
}
