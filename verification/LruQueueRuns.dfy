/**
 Whole runs of the least-recently-used queue: which ids it holds after any sequence of
 operations, in which order, and which id a hit evicts.
 */
module LruQueueRuns {
  import opened Options
  import opened LruQueue

  datatype Op<T> = Hit(x: T) | Delete(x: T) | Clear

  function Applied<T(==)>(list: seq<T>, op: Op<T>, limit: nat): seq<T> {
    match op
    case Hit(x) => HitList(list, x, limit).0
    case Delete(x) => Without(list, x)
    case Clear => []
  }

  /** The recency list after the operations, from the empty queue. */
  function Run<T(==)>(ops: seq<Op<T>>, limit: nat): seq<T> {
    if ops == [] then [] else Applied(Run(ops[..|ops| - 1], limit), ops[|ops| - 1], limit)
  }

  /** One more than the position of the last hit of the id; 0 if it was never hit. */
  function LastHit<T(==)>(ops: seq<Op<T>>, x: T): (k: nat)
    ensures k <= |ops| && (k > 0 ==> ops[k - 1] == Hit(x))
    ensures forall j :: k <= j < |ops| ==> ops[j] != Hit(x)
  {
    if ops == [] then 0
    else if ops[|ops| - 1] == Hit(x) then |ops|
    else LastHit(ops[..|ops| - 1], x)
  }

  /** Every id of the list was hit, and each one later than those before it. */
  ghost predicate ByLastHit<T>(list: seq<T>, ops: seq<Op<T>>) {
    var ok :=
      && (forall i :: 0 <= i < |list| ==> LastHit(ops, list[i]) > 0)
      && forall i, j :: 0 <= i < j < |list| ==> LastHit(ops, list[i]) < LastHit(ops, list[j]);
    ok
  }

  lemma LaterInList<T>(first: T, list: seq<T>, ops: seq<Op<T>>, l: seq<T>, i: nat, j: nat)
    requires ByLastHit(list, ops) && l == [first] + list && i < j < |l|
    requires forall y :: y in list ==> LastHit(ops, first) < LastHit(ops, y)
    ensures LastHit(ops, l[i]) < LastHit(ops, l[j])
  {
    assert l[j] == list[j - 1] && list[j - 1] in list;
    if i > 0 {
      assert l[i] == list[i - 1];
    }
  }

  lemma ByLastHitCons<T>(first: T, list: seq<T>, ops: seq<Op<T>>)
    requires ByLastHit(list, ops) && LastHit(ops, first) > 0
    requires forall y :: y in list ==> LastHit(ops, first) < LastHit(ops, y)
    ensures ByLastHit([first] + list, ops)
  {
    var l := [first] + list;
    forall i | 0 <= i < |l|
      ensures LastHit(ops, l[i]) > 0
    {
      assert i > 0 ==> l[i] == list[i - 1];
    }
    forall i, j | 0 <= i < j < |l|
      ensures LastHit(ops, l[i]) < LastHit(ops, l[j])
    {
      LaterInList(first, list, ops, l, i, j);
    }
  }

  lemma ByLastHitTail<T>(list: seq<T>, ops: seq<Op<T>>)
    requires ByLastHit(list, ops) && list != []
    ensures ByLastHit(list[1..], ops) && LastHit(ops, list[0]) > 0
    ensures forall y :: y in list[1..] ==> LastHit(ops, list[0]) < LastHit(ops, y)
  {
    var tail := list[1..];
    forall i | 0 <= i < |tail|
      ensures LastHit(ops, list[0]) < LastHit(ops, tail[i])
    {
      assert tail[i] == list[i + 1];
    }
  }

  lemma {:induction false} WithoutOrder<T>(list: seq<T>, ops: seq<Op<T>>, x: T)
    requires ByLastHit(list, ops)
    ensures ByLastHit(Without(list, x), ops) && |Without(list, x)| <= |list|
  {
    if list != [] {
      ByLastHitTail(list, ops);
      WithoutOrder(list[1..], ops, x);
      if list[0] != x {
        ByLastHitCons(list[0], Without(list[1..], x), ops);
      }
    }
  }

  lemma LaterOps<T>(list: seq<T>, ops: seq<Op<T>>, op: Op<T>)
    requires ByLastHit(list, ops) && forall y :: y in list ==> op != Hit(y)
    ensures ByLastHit(list, ops + [op])
  {
    assert (ops + [op])[..|ops|] == ops;
    forall y | y in list
      ensures LastHit(ops + [op], y) == LastHit(ops, y)
    {}
  }

  lemma TouchedOrder<T>(list: seq<T>, ops: seq<Op<T>>, x: T)
    requires ByLastHit(list, ops)
    ensures ByLastHit(Touched(list, x), ops + [Hit(x)]) && |Touched(list, x)| <= |list| + 1
  {
    WithoutOrder(list, ops, x);
    LaterOps(Without(list, x), ops, Hit(x));
    assert LastHit(ops + [Hit(x)], x) == |ops| + 1;
  }

  /** After any run the queue is within its limit and ordered by the last hits. */
  lemma {:induction false} RunOrdered<T>(ops: seq<Op<T>>, limit: nat)
    ensures |Run(ops, limit)| <= limit && ByLastHit(Run(ops, limit), ops) && Distinct(Run(ops, limit))
  {
    if ops != [] {
      var n := |ops| - 1;
      var list, op := Run(ops[..n], limit), ops[n];
      RunOrdered(ops[..n], limit);
      assert ops == ops[..n] + [op];
      match op
      case Clear =>
      case Delete(x) =>
        WithoutOrder(list, ops[..n], x);
        LaterOps(Without(list, x), ops[..n], op);
      case Hit(x) =>
        TouchedOrder(list, ops[..n], x);
        if |Touched(list, x)| > limit {
          ByLastHitTail(Touched(list, x), ops);
        }
    }
  }

  /** A hit evicts the id whose last hit is the oldest of all that were held, and only a new id evicts. */
  lemma EvictsLeastRecent<T>(ops: seq<Op<T>>, x: T, limit: nat)
    ensures var list := Run(ops, limit);
            var (after, evicted) := HitList(list, x, limit);
            && (evicted == None <==> x in list || |list| < limit)
            && (evicted.Some? ==>
                  && (evicted.value in list || evicted.value == x)
                  && forall y :: y in after ==> LastHit(ops + [Hit(x)], evicted.value) < LastHit(ops + [Hit(x)], y))
  {
    var list := Run(ops, limit);
    RunOrdered(ops, limit);
    TouchedOrder(list, ops, x);
    if x in list {
      WithoutShorter(list, x);
    } else {
      WithoutAbsent(list, x);
    }
  }

  lemma {:induction false} WithoutShorter<T>(list: seq<T>, x: T)
    requires Distinct(list)
    ensures |Without(list, x)| == |list| - if x in list then 1 else 0
  {
    if list != [] {
      WithoutShorter(list[1..], x);
    }
  }

  // ----- which ids are held after a run of hits

  function Hits<T>(xs: seq<T>): seq<Op<T>> {
    if xs == [] then [] else Hits(xs[..|xs| - 1]) + [Hit(xs[|xs| - 1])]
  }

  /** All ids of the trace, ordered by their last hits. */
  function Recent<T(==)>(xs: seq<T>): seq<T> {
    if xs == [] then [] else Touched(Recent(xs[..|xs| - 1]), xs[|xs| - 1])
  }

  /** The ids that were hit after the last hit of x. */
  function Since<T(==)>(xs: seq<T>, x: T): set<T> {
    if xs == [] || xs[|xs| - 1] == x then {}
    else Since(xs[..|xs| - 1], x) + {xs[|xs| - 1]}
  }

  function Latest<T>(list: seq<T>, limit: nat): seq<T> {
    if |list| <= limit then list else list[|list| - limit..]
  }

  /** The ids that stand after x. */
  function After<T(==)>(list: seq<T>, x: T): set<T> {
    if list == [] then {}
    else if list[0] == x then Elements(list[1..])
    else After(list[1..], x)
  }

  lemma TouchedDistinct<T>(list: seq<T>, x: T)
    requires Distinct(list)
    ensures Distinct(Touched(list, x)) && |Touched(list, x)| == |list| + if x in list then 0 else 1
    ensures forall y :: y in Touched(list, x) <==> y in list || y == x
  {
    WithoutDistinct(list, x);
    WithoutShorter(list, x);
  }

  lemma {:induction false} WithoutDistinct<T>(list: seq<T>, x: T)
    requires Distinct(list)
    ensures Distinct(Without(list, x))
    ensures forall y :: y in Without(list, x) <==> y in list && y != x
  {
    if list != [] {
      var tail := list[1..];
      WithoutDistinct(tail, x);
      assert forall k :: 0 <= k < |tail| ==> tail[k] == list[k + 1];
      assert list == [list[0]] + tail;
      assert list[0] !in tail;
    }
  }

  lemma {:induction false} RecentDistinct<T>(xs: seq<T>)
    ensures Distinct(Recent(xs)) && forall x :: x in Recent(xs) <==> x in xs
  {
    if xs != [] {
      var n := |xs| - 1;
      RecentDistinct(xs[..n]);
      TouchedDistinct(Recent(xs[..n]), xs[n]);
      assert xs == xs[..n] + [xs[n]];
    }
  }

  lemma LatestOf<T>(a: seq<T>, b: seq<T>, limit: nat)
    requires |b| == limit || (a == [] && |b| <= limit)
    ensures Latest(a + b, limit) == b
  {
    if a == [] {
      assert a + b == b;
    }
  }

  lemma DistinctParts<T>(a: seq<T>, b: seq<T>, x: T)
    requires Distinct(a + b) && x in b
    ensures Distinct(b) && x !in a
  {
    forall k | 0 <= k < |b|
      ensures b[k] == (a + b)[|a| + k]
    {}
    var k :| 0 <= k < |b| && b[k] == x;
    forall i | 0 <= i < |a|
      ensures a[i] != x
    {
      assert (a + b)[i] == a[i] && (a + b)[|a| + k] == x;
    }
  }

  /** A hit on an id among the latest. */
  lemma HitHeld<T>(front: seq<T>, back: seq<T>, x: T, limit: nat)
    requires Distinct(front + back) && x in back
    requires |back| == limit || (front == [] && |back| <= limit)
    ensures HitList(back, x, limit).0 == Latest(Touched(front + back, x), limit)
  {
    DistinctParts(front, back, x);
    WithoutAppend(front, back, x);
    WithoutAbsent(front, x);
    WithoutShorter(back, x);
    var l := Touched(back, x);
    assert Touched(front + back, x) == front + l;
    LatestOf(front, l, limit);
  }

  /** A hit on any other id. */
  lemma HitNew<T>(front: seq<T>, back: seq<T>, x: T, limit: nat)
    requires x !in back && (|back| == limit || (front == [] && |back| <= limit))
    ensures HitList(back, x, limit).0 == Latest(Touched(front + back, x), limit)
  {
    WithoutAppend(front, back, x);
    WithoutAbsent(back, x);
    var l, rest := back + [x], Without(front, x);
    assert Touched(front + back, x) == rest + l;
    if |l| > limit {
      assert rest + l == (rest + l[..1]) + l[1..];
      LatestOf(rest + l[..1], l[1..], limit);
    } else {
      LatestOf(rest, l, limit);
    }
  }

  /** Cutting to the limit after each hit is the same as cutting once at the end. */
  lemma LatestHit<T>(list: seq<T>, x: T, limit: nat)
    requires Distinct(list)
    ensures HitList(Latest(list, limit), x, limit).0 == Latest(Touched(list, x), limit)
  {
    var cut := if |list| <= limit then 0 else |list| - limit;
    var front, back := list[..cut], list[cut..];
    assert list == front + back && Latest(list, limit) == back;
    if x in back {
      HitHeld(front, back, x, limit);
    } else {
      HitNew(front, back, x, limit);
    }
  }

  lemma {:induction false} RunOfHits<T>(xs: seq<T>, limit: nat)
    ensures Run(Hits(xs), limit) == Latest(Recent(xs), limit)
  {
    if xs != [] {
      var n := |xs| - 1;
      RunOfHits(xs[..n], limit);
      RecentDistinct(xs[..n]);
      LatestHit(Recent(xs[..n]), xs[n], limit);
      var ops := Hits(xs);
      assert ops[..|ops| - 1] == Hits(xs[..n]);
    }
  }

  lemma {:induction false} AfterWithout<T>(list: seq<T>, x: T, y: T)
    requires Distinct(list) && x in list && y != x
    ensures x in Without(list, y) && After(Without(list, y) + [y], x) == After(list, x) + {y}
  {
    var tail := list[1..];
    assert forall k :: 0 <= k < |tail| ==> tail[k] == list[k + 1];
    var rest := Without(tail, y) + [y];
    if list[0] == x {
      WithoutDistinct(tail, y);
      assert Without(list, y) + [y] == [x] + rest;
      assert ([x] + rest)[1..] == rest;
    } else {
      AfterWithout(tail, x, y);
      if list[0] != y {
        assert Without(list, y) + [y] == [list[0]] + rest;
        assert ([list[0]] + rest)[1..] == rest;
      }
    }
  }

  lemma {:induction false} AfterLast<T>(list: seq<T>, x: T)
    requires x !in list
    ensures After(list + [x], x) == {}
  {
    if list != [] {
      assert (list + [x])[1..] == list[1..] + [x];
      AfterLast(list[1..], x);
    }
  }

  lemma {:induction false} AfterIsSince<T>(xs: seq<T>, x: T)
    requires x in xs
    ensures After(Recent(xs), x) == Since(xs, x)
  {
    var n := |xs| - 1;
    var list := Recent(xs[..n]);
    RecentDistinct(xs[..n]);
    assert xs == xs[..n] + [xs[n]];
    if xs[n] == x {
      AfterLast(Without(list, x), x);
    } else {
      AfterIsSince(xs[..n], x);
      AfterWithout(list, x, xs[n]);
    }
  }

  function Elements<T(==)>(list: seq<T>): set<T> {
    set y | y in list
  }

  lemma ElementsCons<T>(x: T, tail: seq<T>)
    ensures Elements([x] + tail) == Elements(tail) + {x}
  {}

  lemma {:induction false} SizeOfDistinct<T>(list: seq<T>)
    requires Distinct(list)
    ensures |Elements(list)| == |list|
  {
    if list != [] {
      var tail := list[1..];
      assert forall k :: 0 <= k < |tail| ==> tail[k] == list[k + 1];
      SizeOfDistinct(tail);
      ElementsCons(list[0], tail);
      assert list == [list[0]] + tail;
      assert list[0] !in Elements(tail);
    }
  }

  lemma {:induction false} LatestIff<T>(list: seq<T>, x: T, limit: nat)
    requires Distinct(list) && x in list
    ensures x in Latest(list, limit) <==> |After(list, x)| < limit
    ensures |After(list, x)| < |list|
  {
    var tail := list[1..];
    assert list == [list[0]] + tail;
    assert forall k :: 0 <= k < |tail| ==> tail[k] == list[k + 1];
    if list[0] == x {
      SizeOfDistinct(tail);
      assert x !in tail;
      if limit < |list| {
        assert list[|list| - limit..] == tail[|tail| - limit..];
      }
    } else {
      LatestIff(tail, x, limit);
      if limit < |list| {
        assert list[|list| - limit..] == tail[|tail| - limit..];
      }
    }
  }

  /**
   After any run of hits an id is held exactly if it was hit and fewer than limit other ids
   have been hit since.
   */
  lemma HeldIff<T>(xs: seq<T>, x: T, limit: nat)
    ensures x in Run(Hits(xs), limit) <==> x in xs && |Since(xs, x)| < limit
  {
    RunOfHits(xs, limit);
    RecentDistinct(xs);
    if x in xs {
      AfterIsSince(xs, x);
      LatestIff(Recent(xs), x, limit);
    }
  }

  // ----- which ids are held after any run

  /** The id was hit, and since its last hit neither was it deleted nor the queue cleared. */
  ghost predicate Standing<T>(ops: seq<Op<T>>, x: T) {
    LastHit(ops, x) > 0 && forall j :: LastHit(ops, x) <= j < |ops| ==> ops[j] != Delete(x) && ops[j] != Clear
  }

  ghost function HitIds<T>(ops: seq<Op<T>>): set<T> {
    set i | 0 <= i < |ops| && ops[i].Hit? :: ops[i].x
  }

  /** The standing ids whose last hit came after that of x. */
  ghost function Newer<T>(ops: seq<Op<T>>, x: T): set<T> {
    set y | y in HitIds(ops) && Standing(ops, y) && LastHit(ops, x) < LastHit(ops, y)
  }

  /** At no time since its last hit had the newer ids filled the queue. */
  ghost predicate NeverCrowdedOut<T>(ops: seq<Op<T>>, x: T, limit: nat) {
    forall m :: LastHit(ops, x) <= m <= |ops| ==> |Newer(ops[..m], x)| < limit
  }

  lemma LastHitNext<T>(front: seq<Op<T>>, op: Op<T>, x: T)
    ensures LastHit(front + [op], x) == if op == Hit(x) then |front| + 1 else LastHit(front, x)
  {
    assert (front + [op])[..|front|] == front;
  }

  lemma LastHitStep<T>(front: seq<Op<T>>, op: Op<T>, x: T)
    ensures LastHit(front + [op], x) == if op == Hit(x) then |front| + 1 else LastHit(front, x)
    ensures Standing(front + [op], x) <==>
            op == Hit(x) || (op != Delete(x) && op != Clear && Standing(front, x))
  {
    LastHitNext(front, op, x);
    if op != Hit(x) {
      Undisturbed(front, op, x, LastHit(front, x));
    }
  }

  lemma Undisturbed<T>(front: seq<Op<T>>, op: Op<T>, x: T, k: nat)
    requires k <= |front|
    ensures var ops := front + [op];
            (forall j :: k <= j < |ops| ==> ops[j] != Delete(x) && ops[j] != Clear) <==>
            && op != Delete(x) && op != Clear
            && forall j :: k <= j < |front| ==> front[j] != Delete(x) && front[j] != Clear
  {
    var ops := front + [op];
    assert ops[|front|] == op && forall j :: 0 <= j < |front| ==> ops[j] == front[j];
  }

  lemma StandingIsHit<T>(ops: seq<Op<T>>, x: T)
    requires Standing(ops, x)
    ensures x in HitIds(ops)
  {
    assert ops[LastHit(ops, x) - 1] == Hit(x);
  }

  lemma NewerHas<T>(ops: seq<Op<T>>, x: T, y: T)
    ensures y in Newer(ops, x) <==> Standing(ops, y) && LastHit(ops, x) < LastHit(ops, y)
  {
    if Standing(ops, y) {
      StandingIsHit(ops, y);
    }
  }

  lemma NewerAfterHit<T>(front: seq<Op<T>>, x: T, y: T)
    ensures Newer(front + [Hit(y)], x) == if x == y then {} else Newer(front, x) + {y}
  {
    forall z
      ensures z in Newer(front + [Hit(y)], x) <==> x != y && (z in Newer(front, x) || z == y)
    {
      NewerHas(front + [Hit(y)], x, z);
      NewerHas(front, x, z);
      LastHitStep(front, Hit(y), x);
      LastHitStep(front, Hit(y), z);
    }
  }

  lemma NewerAfterDelete<T>(front: seq<Op<T>>, x: T, y: T)
    ensures Newer(front + [Delete(y)], x) == Newer(front, x) - {y}
  {
    forall z
      ensures z in Newer(front + [Delete(y)], x) <==> z in Newer(front, x) && z != y
    {
      NewerHas(front + [Delete(y)], x, z);
      NewerHas(front, x, z);
      LastHitStep(front, Delete(y), x);
      LastHitStep(front, Delete(y), z);
    }
  }

  lemma NeverCrowdedStep<T>(front: seq<Op<T>>, op: Op<T>, x: T, limit: nat)
    requires op != Hit(x)
    ensures NeverCrowdedOut(front + [op], x, limit) <==>
            NeverCrowdedOut(front, x, limit) && |Newer(front + [op], x)| < limit
  {
    hide Newer, LastHit, Standing, HitIds;
    var ops, k := front + [op], LastHit(front, x);
    LastHitStep(front, op, x);
    assert ops[..|ops|] == ops;
    forall m | k <= m <= |front|
      ensures |Newer(ops[..m], x)| < limit <==> |Newer(front[..m], x)| < limit
    {
      assert ops[..m] == front[..m];
    }
  }

  lemma {:induction false} AfterSmall<T>(list: seq<T>, x: T)
    requires Distinct(list) && x in list
    ensures |After(list, x)| < |list|
  {
    LatestIff(list, x, 0);
  }

  lemma {:induction false} AfterDeleted<T>(list: seq<T>, x: T, y: T)
    requires Distinct(list) && x in list && y != x
    ensures x in Without(list, y) && After(Without(list, y), x) == After(list, x) - {y}
  {
    var tail := list[1..];
    assert forall k :: 0 <= k < |tail| ==> tail[k] == list[k + 1];
    if list[0] == x {
      WithoutDistinct(tail, y);
      assert ([x] + Without(tail, y))[1..] == Without(tail, y);
    } else {
      AfterDeleted(tail, x, y);
      assert ([list[0]] + Without(tail, y))[1..] == Without(tail, y);
    }
  }

  /** The id is held, and the newer ids stand after it. */
  ghost predicate HeldWith<T>(list: seq<T>, ops: seq<Op<T>>, x: T) {
    x in list && After(list, x) == Newer(ops, x)
  }

  /** A hit on another id: x goes exactly if the newer ids then fill the queue. */
  lemma HeldAfterHit<T>(list: seq<T>, front: seq<Op<T>>, x: T, y: T, limit: nat)
    requires Distinct(list) && |list| <= limit && x != y && HeldWith(list, front, x)
    ensures var list', ops := HitList(list, y, limit).0, front + [Hit(y)];
            if |Newer(ops, x)| < limit then HeldWith(list', ops, x) else x !in list'
  {
    var l, ops := Touched(list, y), front + [Hit(y)];
    AfterWithout(list, x, y);
    NewerAfterHit(front, x, y);
    TouchedDistinct(list, y);
    assert HeldWith(l, ops, x);
    if |l| <= limit {
      AfterSmall(l, x);
    } else if l[0] == x {
      SizeOfDistinct(l[1..]);
      assert forall k :: 0 <= k < |l| - 1 ==> l[1..][k] == l[k + 1];
    } else {
      HeldPastFirst(l, ops, x);
    }
  }

  lemma HeldPastFirst<T>(l: seq<T>, ops: seq<Op<T>>, x: T)
    requires Distinct(l) && HeldWith(l, ops, x) && l[0] != x
    ensures HeldWith(l[1..], ops, x) && |Newer(ops, x)| < |l| - 1
  {
    assert forall k :: 0 <= k < |l| - 1 ==> l[1..][k] == l[k + 1];
    assert l == [l[0]] + l[1..];
    AfterSmall(l[1..], x);
  }

  lemma {:induction false} HeldInvariant<T>(ops: seq<Op<T>>, x: T, limit: nat)
    ensures if Standing(ops, x) && NeverCrowdedOut(ops, x, limit) then HeldWith(Run(ops, limit), ops, x)
            else x !in Run(ops, limit)
  {
    if ops != [] {
      var n := |ops| - 1;
      var front, op, list := ops[..n], ops[n], Run(ops[..n], limit);
      assert ops == front + [op];
      HeldInvariant(front, x, limit);
      RunOrdered(front, limit);
      LastHitStep(front, op, x);
      match op
      case Clear =>
      case Delete(y) => HeldStepDelete(list, front, x, y, limit);
      case Hit(y) =>
        if y == x {
          HeldStepSelf(list, front, x, limit);
        } else {
          HeldStepHit(list, front, x, y, limit);
        }
    }
  }

  lemma HeldStepDelete<T>(list: seq<T>, front: seq<Op<T>>, x: T, y: T, limit: nat)
    requires Distinct(list) && |list| <= limit
    requires if Standing(front, x) && NeverCrowdedOut(front, x, limit) then HeldWith(list, front, x) else x !in list
    ensures var ops := front + [Delete(y)];
            if Standing(ops, x) && NeverCrowdedOut(ops, x, limit) then HeldWith(Without(list, y), ops, x)
            else x !in Without(list, y)
  {
    LastHitStep(front, Delete(y), x);
    NeverCrowdedStep(front, Delete(y), x, limit);
    if x in list && y != x {
      AfterDeleted(list, x, y);
      NewerAfterDelete(front, x, y);
      AfterSmall(list, x);
      SubsetSize(Newer(front, x) - {y}, Newer(front, x));
    }
  }

  lemma SubsetSize<T>(a: set<T>, b: set<T>)
    requires a <= b
    ensures |a| <= |b|
  {
    assert b == a + (b - a);
  }

  lemma HeldStepHit<T>(list: seq<T>, front: seq<Op<T>>, x: T, y: T, limit: nat)
    requires Distinct(list) && |list| <= limit && x != y
    requires if Standing(front, x) && NeverCrowdedOut(front, x, limit) then HeldWith(list, front, x) else x !in list
    ensures var list', ops := HitList(list, y, limit).0, front + [Hit(y)];
            if Standing(ops, x) && NeverCrowdedOut(ops, x, limit) then HeldWith(list', ops, x) else x !in list'
  {
    LastHitStep(front, Hit(y), x);
    NeverCrowdedStep(front, Hit(y), x, limit);
    if x in list {
      HeldAfterHit(list, front, x, y, limit);
    } else {
      TouchedDistinct(list, y);
    }
  }

  lemma HeldStepSelf<T>(list: seq<T>, front: seq<Op<T>>, x: T, limit: nat)
    requires Distinct(list) && |list| <= limit
    ensures var list', ops := HitList(list, x, limit).0, front + [Hit(x)];
            if NeverCrowdedOut(ops, x, limit) then HeldWith(list', ops, x) else x !in list'
  {
    var ops, l := front + [Hit(x)], Touched(list, x);
    LastHitStep(front, Hit(x), x);
    NewerAfterHit(front, x, x);
    assert ops[..|ops|] == ops;
    TouchedDistinct(list, x);
    AfterLast(Without(list, x), x);
    if |l| > limit && |l| > 1 {
      assert l[1..] == Without(list, x)[1..] + [x];
      assert l[0] != x;
    }
  }

  /**
   After any run of hits, deletions and clears an id is held if and only if it was hit, since
   its last hit neither it was deleted nor the queue cleared, and at no time since were there
   as many as limit ids that were hit later and still stood: an id that goes to make room does
   not come back when a deletion makes room again.
   */
  lemma HeldAfterAnyRunIff<T>(ops: seq<Op<T>>, x: T, limit: nat)
    ensures x in Run(ops, limit) <==> Standing(ops, x) && NeverCrowdedOut(ops, x, limit)
  {
    HeldInvariant(ops, x, limit);
  }
}
