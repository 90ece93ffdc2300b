/**
 The least-recently-used queue: two index maps, a counter of hits and the index of the
 oldest entry.
 */
module LruQueue {
  import opened Options

  // ----- the recency list, oldest first

  function Without<T(==)>(list: seq<T>, x: T): (r: seq<T>)
    ensures x !in r
    ensures forall y :: y in r ==> y in list
  {
    if list == [] then []
    else if list[0] == x then Without(list[1..], x)
    else [list[0]] + Without(list[1..], x)
  }

  /** The id moves to the recent end. */
  function Touched<T(==)>(list: seq<T>, x: T): seq<T> {
    Without(list, x) + [x]
  }

  /** A hit on a queue that holds at most limit ids, and the id that has to go. */
  function HitList<T(==)>(list: seq<T>, x: T, limit: nat): (seq<T>, Option<T>) {
    var l := Touched(list, x);
    if |l| > limit then (l[1..], Some(l[0])) else (l, None)
  }

  /** The ids in the order of their indices, up to index c. */
  ghost function Listed<T>(ids: map<nat, T>, c: nat): seq<T> {
    if c == 0 then []
    else Listed(ids, c - 1) + if c in ids then [ids[c]] else []
  }

  ghost predicate Injective<T>(ids: map<nat, T>) {
    forall j, k :: j in ids && k in ids && ids[j] == ids[k] ==> j == k
  }

  lemma {:induction false} WithoutAppend<T>(a: seq<T>, b: seq<T>, x: T)
    ensures Without(a + b, x) == Without(a, x) + Without(b, x)
  {
    if a == [] {
      assert a + b == b;
    } else {
      assert (a + b)[1..] == a[1..] + b;
      WithoutAppend(a[1..], b, x);
    }
  }

  lemma {:induction false} WithoutAbsent<T>(a: seq<T>, x: T)
    requires x !in a
    ensures Without(a, x) == a
  {
    if a != [] {
      WithoutAbsent(a[1..], x);
      assert a == [a[0]] + a[1..];
    }
  }

  lemma {:induction false} ListedHas<T>(ids: map<nat, T>, c: nat, x: T)
    ensures x in Listed(ids, c) <==> exists k :: 0 < k <= c && k in ids && ids[k] == x
  {
    if c > 0 {
      ListedHas(ids, c - 1, x);
    }
  }

  /** Indices that do not occur change nothing. */
  lemma {:induction false} ListedSame<T>(ids: map<nat, T>, ids': map<nat, T>, c: nat)
    requires forall k :: 0 < k <= c ==> (k in ids <==> k in ids') && (k in ids ==> ids[k] == ids'[k])
    ensures Listed(ids, c) == Listed(ids', c)
  {
    if c > 0 {
      ListedSame(ids, ids', c - 1);
    }
  }

  lemma {:induction false} ListedRemove<T>(ids: map<nat, T>, c: nat, i: nat)
    requires Injective(ids) && i in ids
    ensures Listed(ids - {i}, c) == Without(Listed(ids, c), ids[i])
    ensures |Listed(ids - {i}, c)| == |Listed(ids, c)| - if 0 < i <= c then 1 else 0
  {
    if c > 0 {
      var x, front := ids[i], Listed(ids, c - 1);
      ListedRemove(ids, c - 1, i);
      if c in ids {
        WithoutAppend(front, [ids[c]], x);
        if c != i {
          assert ids[c] != x;
          WithoutAbsent([ids[c]], x);
        } else {
          assert Without([x], x) == [];
        }
      } else {
        assert Listed(ids, c) == front;
      }
    }
  }

  /** The list is empty exactly if no index is live. */
  lemma ListedEmpty<T>(ids: map<nat, T>, c: nat)
    requires forall k :: k in ids ==> 0 < k <= c
    ensures Listed(ids, c) == [] <==> ids == map[]
  {
    if ids == map[] {
      ListedNone(ids, c);
    } else {
      var k :| k in ids;
      ListedHas(ids, c, ids[k]);
      assert ids[k] in Listed(ids, c);
    }
  }

  lemma {:induction false} ListedFirst<T>(ids: map<nat, T>, c: nat, base: nat)
    requires 0 < base <= c && base in ids && forall k :: k in ids ==> base <= k
    ensures Listed(ids, c) != [] && Listed(ids, c)[0] == ids[base]
  {
    if c == base {
      ListedHas(ids, c - 1, ids[base]);
      ListedNone(ids, c - 1);
    } else {
      ListedFirst(ids, c - 1, base);
    }
  }

  lemma {:induction false} ListedNone<T>(ids: map<nat, T>, c: nat)
    requires forall k :: k in ids ==> c < k
    ensures Listed(ids, c) == []
  {
    if c > 0 {
      ListedNone(ids, c - 1);
    }
  }

  predicate Distinct<T(==)>(list: seq<T>) {
    forall j, k :: 0 <= j < k < |list| ==> list[j] != list[k]
  }

  lemma {:induction false} ListedDistinct<T>(ids: map<nat, T>, c: nat)
    requires Injective(ids)
    ensures Distinct(Listed(ids, c))
  {
    if c > 0 {
      ListedDistinct(ids, c - 1);
      if c in ids {
        ListedHas(ids, c - 1, ids[c]);
      }
    }
  }

  lemma WithoutFirst<T>(list: seq<T>)
    requires list != [] && Distinct(list)
    ensures Without(list, list[0]) == list[1..]
  {
    WithoutAbsent(list[1..], list[0]);
  }

  /** Moving an id from index i to the fresh top index. */
  lemma ListedTouch<T>(ids: map<nat, T>, c: nat, x: T, i: nat)
    requires Injective(ids) && i in ids && ids[i] == x && forall k :: k in ids ==> 0 < k <= c
    ensures Listed(ids[c + 1 := x] - {i}, c + 1) == Touched(Listed(ids, c), x)
    ensures |Touched(Listed(ids, c), x)| == |Listed(ids, c)|
  {
    ListedRemove(ids, c, i);
    var ids' := ids[c + 1 := x] - {i};
    ListedSame(ids', ids - {i}, c);
  }

  lemma ListedAdd<T>(ids: map<nat, T>, c: nat, x: T)
    requires forall k :: k in ids ==> k <= c
    requires forall k :: k in ids ==> ids[k] != x
    ensures Listed(ids[c + 1 := x], c + 1) == Listed(ids, c) + [x] == Touched(Listed(ids, c), x)
  {
    ListedSame(ids[c + 1 := x], ids, c);
    ListedHas(ids, c, x);
    WithoutAbsent(Listed(ids, c), x);
  }

  class Queue<T(==)> {
    const limit: nat
    var size: nat
    var base: nat
    var count: nat
    var ids: map<nat, T>
    var indices: map<T, nat>

    /** The recency list that the two maps stand for. */
    ghost function View(): seq<T>
      reads this
    {
      Listed(ids, count)
    }

    /** The maps are inverse, and base is the smallest live index. */
    ghost predicate Indexed()
      reads this
    {
      && (forall k :: k in ids ==> base <= k <= count && ids[k] in indices && indices[ids[k]] == k)
      && (forall x :: x in indices ==> indices[x] in ids && ids[indices[x]] == x)
      && 0 < base
      && (if size == 0 then base == 1 && count == 0 else base in ids)
    }

    ghost predicate Valid()
      reads this
    {
      Indexed() && size == |View()| <= limit
    }

    constructor (limit: nat)
      ensures Valid() && View() == [] && this.limit == limit
    {
      this.limit := limit;
      size, base, count := 0, 1, 0;
      ids, indices := map[], map[];
    }

    /** Moves base to the next live index. */
    method Advance()
      requires exists k :: k in ids && base < k <= count
      requires forall k :: k in ids ==> base <= k
      modifies `base
      ensures base in ids && base > old(base)
      ensures forall k :: k in ids && k > old(base) ==> base <= k
    {
      ghost var last :| last in ids && base < last <= count;
      base := base + 1;
      while base !in ids
        invariant old(base) < base <= last
        invariant forall k :: k in ids && k > old(base) ==> base <= k
        decreases last - base
      {
        base := base + 1;
      }
    }

    /** The maps are inverse; base need not be right. */
    ghost predicate Paired()
      reads this
    {
      && (forall k :: k in ids ==> 0 < k <= count && ids[k] in indices && indices[ids[k]] == k)
      && (forall x :: x in indices ==> indices[x] in ids && ids[indices[x]] == x)
    }

    lemma Inverse()
      requires Paired()
      ensures Injective(ids)
    {}

    /** Takes the id at index i out of both maps. */
    method Remove(i: nat)
      requires Paired() && i in ids && size == |View()|
      modifies `ids, `indices, `size
      ensures Paired() && size == |View()| && View() == Without(old(View()), old(ids[i]))
      ensures ids == old(ids) - {i} && indices == old(indices) - {old(ids[i])}
      ensures size == 0 <==> ids == map[]
    {
      Inverse();
      ListedRemove(ids, count, i);
      var x := ids[i];
      ids := ids - {i};
      indices := indices - {x};
      ListedEmpty(ids, count);
      size := size - 1;
    }

    method Delete(x: T)
      requires Indexed() && size == |View()|
      modifies this
      ensures Indexed() && size == |View()| && View() == Without(old(View()), x)
    {
      if x !in indices {
        ListedHas(ids, count, x);
        WithoutAbsent(View(), x);
        return;
      }
      var i := indices[x];
      Remove(i);
      if base == i {
        if size == 0 {
          count, base := 0, 1;
          return;
        }
        assert exists k :: k in ids;
        Advance();
      } else {
        assert base in ids;
      }
    }

    /** Drops the oldest id. */
    method Evict() returns (x: T)
      requires Indexed() && size == |View()| > 0
      modifies this
      ensures Indexed() && size == |View()| && x == old(View())[0] && View() == old(View())[1..]
    {
      Inverse();
      ListedFirst(ids, count, base);
      ListedDistinct(ids, count);
      WithoutFirst(View());
      x := ids[base];
      Delete(x);
    }

    /** Gives the id the next index. */
    method Stamp(x: T)
      modifies `count, `ids, `indices
      ensures count == old(count) + 1
      ensures ids == old(ids)[count := x] && indices == old(indices)[x := count]
    {
      count := count + 1;
      ids := ids[count := x];
      indices := indices[x := count];
    }

    /** A new id enters at the recent end. */
    method Enter(x: T)
      requires Indexed() && size == |View()| && x !in indices
      modifies `count, `ids, `indices, `size
      ensures Indexed() && size == |View()| && View() == Touched(old(View()), x) && size == old(size) + 1
    {
      ListedAdd(ids, count, x);
      Stamp(x);
      size := size + 1;
    }

    /** The id at index i gets the next index instead. */
    method Move(x: T, i: nat)
      requires Paired() && i in ids && ids[i] == x
      modifies `count, `ids, `indices
      ensures Paired() && View() == Touched(old(View()), x) && |View()| == old(|View()|)
      ensures count == old(count) + 1 && ids == old(ids)[count := x] - {i}
    {
      Inverse();
      ListedTouch(ids, count, x, i);
      Stamp(x);
      ids := ids - {i};
    }

    /** A known id moves to the recent end. */
    method Refresh(x: T)
      requires Indexed() && size == |View()| && x in indices
      modifies `count, `ids, `indices, `base
      ensures Indexed() && size == |View()| && View() == Touched(old(View()), x)
    {
      var i := indices[x];
      Move(x, i);
      assert count in ids;
      if base == i {
        Advance();
      }
    }

    /** Notes the id as just used; if it is new and too many are held, the oldest goes. */
    method Hit(x: T) returns (evicted: Option<T>)
      requires Valid()
      modifies this
      ensures Valid() && (View(), evicted) == HitList(old(View()), x, limit)
    {
      if x !in indices {
        Enter(x);
        if size <= limit {
          return None;
        }
        var oldest := Evict();
        return Some(oldest);
      }
      Refresh(x);
      evicted := None;
    }

    method Clear()
      modifies this
      ensures Valid() && View() == []
    {
      size, base, count := 0, 1, 0;
      ids, indices := map[], map[];
    }
  }
}
