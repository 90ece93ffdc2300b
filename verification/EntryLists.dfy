/** Lists of entries: searching by key, and a dictionary that keeps the order of insertion. */
module EntryLists {
  import opened Sequences

  /** The first entry of the key, or the length of the list. */
  function Find<K(==), V>(es: seq<(K, V)>, k: K): (i: nat)
    ensures i <= |es|
    ensures i < |es| ==> es[i].0 == k
    ensures forall j :: 0 <= j < i ==> es[j].0 != k
  {
    if es == [] then 0 else if es[0].0 == k then 0 else 1 + Find(es[1..], k)
  }

  ghost predicate DistinctKeys<K, V>(es: seq<(K, V)>) {
    forall i, j :: 0 <= i < j < |es| ==> es[i].0 != es[j].0
  }

  function Has<K(==), V>(es: seq<(K, V)>, k: K): bool { Find(es, k) < |es| }

  /** The entries without the one for k, in the same order. */
  function Without<K(==), V>(es: seq<(K, V)>, k: K): seq<(K, V)> {
    if es == [] then []
    else
      var rest := Without(es[..|es| - 1], k);
      if es[|es| - 1].0 == k then rest else rest + [es[|es| - 1]]
  }

  /** The entries with the value of k replaced where it is. */
  function Overwrite<K(==), V>(es: seq<(K, V)>, k: K, x: V): seq<(K, V)> {
    if es == [] then []
    else
      var rest, last := Overwrite(es[..|es| - 1], k, x), es[|es| - 1];
      rest + [if last.0 == k then (k, x) else last]
  }

  /** The value goes where the key is, or to the end. */
  function Put<K(==), V>(es: seq<(K, V)>, k: K, x: V): seq<(K, V)> {
    if Has(es, k) then Overwrite(es, k, x) else es + [(k, x)]
  }

  lemma WithoutAppend<K, V>(es: seq<(K, V)>, e: (K, V), k: K)
    ensures Without(es + [e], k) == if e.0 == k then Without(es, k) else Without(es, k) + [e]
  {
    assert (es + [e])[..|es|] == es;
  }

  lemma OverwriteAppend<K, V>(es: seq<(K, V)>, e: (K, V), k: K, x: V)
    ensures Overwrite(es + [e], k, x) == Overwrite(es, k, x) + [if e.0 == k then (k, x) else e]
  {
    assert (es + [e])[..|es|] == es;
  }

  lemma {:induction false} WithoutAbsent<K, V>(es: seq<(K, V)>, k: K)
    requires forall i :: 0 <= i < |es| ==> es[i].0 != k
    ensures Without(es, k) == es
  {
    if es != [] {
      WithoutAbsent(es[..|es| - 1], k);
      LastApart(es);
    }
  }

  lemma {:induction false} OverwriteAbsent<K, V>(es: seq<(K, V)>, k: K, x: V)
    requires forall i :: 0 <= i < |es| ==> es[i].0 != k
    ensures Overwrite(es, k, x) == es
  {
    if es != [] {
      OverwriteAbsent(es[..|es| - 1], k, x);
      LastApart(es);
    }
  }

  lemma {:induction false} WithoutDistinct<K, V>(es: seq<(K, V)>, k: K)
    requires DistinctKeys(es)
    ensures DistinctKeys(Without(es, k))
    ensures forall j :: 0 <= j < |Without(es, k)| ==> Without(es, k)[j] in es
  {
    if es != [] {
      var init := es[..|es| - 1];
      WithoutDistinct(init, k);
      assert forall e :: e in init ==> e in es && e.0 != es[|es| - 1].0;
      assert forall j :: 0 <= j < |Without(es, k)| ==>
        Without(es, k)[j] == if j < |Without(init, k)| then Without(init, k)[j] else es[|es| - 1];
    }
  }

  lemma FindAt<K, V>(es: seq<(K, V)>, i: nat)
    requires DistinctKeys(es) && i < |es|
    ensures Find(es, es[i].0) == i
  {}

  /** Where the keys are distinct, removing is cutting out one place. */
  lemma {:induction false} WithoutAt<K, V>(es: seq<(K, V)>, i: nat)
    requires DistinctKeys(es) && i < |es|
    ensures Find(es, es[i].0) == i && Without(es, es[i].0) == es[..i] + es[i + 1..]
  {
    var n := |es| - 1;
    if i < n {
      WithoutAt(es[..n], i);
      CutApart(es, i);
      assert es[i].0 != es[n].0;
    } else {
      WithoutAbsent(es[..n], es[n].0);
      assert es[..n] + es[n + 1..] == es[..n];
    }
    FindAt(es, i);
  }

  /** Where the keys are distinct, overwriting changes one place. */
  lemma {:induction false} OverwriteAt<K, V>(es: seq<(K, V)>, i: nat, x: V)
    requires DistinctKeys(es) && i < |es|
    ensures Overwrite(es, es[i].0, x) == es[i := (es[i].0, x)]
  {
    var n := |es| - 1;
    if i < n {
      OverwriteAt(es[..n], i, x);
      SetApart(es, i, (es[i].0, x));
      assert es[i].0 != es[n].0;
    } else {
      OverwriteAbsent(es[..n], es[n].0, x);
      assert es[n := (es[n].0, x)] == es[..n] + [(es[n].0, x)];
    }
  }
}
