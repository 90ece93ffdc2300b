/** Facts about concatenation and slices that the verifier is better told than left to find. */
module Sequences {
  lemma Associative<T>(a: seq<T>, b: seq<T>, c: seq<T>)
    ensures a + b + c == a + (b + c)
  {}

  lemma Regroup<T>(first: seq<T>, rest: seq<T>, last: seq<T>, front: seq<T>, tail: seq<T>, whole: seq<T>)
    requires front == first + rest && tail == rest + last && whole == first + tail
    ensures whole == front + last
  {}

  lemma FourInFront<T>(a: T, b: T, c: T, d: T, s: seq<T>)
    ensures [a, b, c, d] + s == [a] + ([b] + ([c] + ([d] + s)))
  {}

  lemma FirstApart<T>(s: seq<T>)
    requires s != []
    ensures s == [s[0]] + s[1..]
  {}

  lemma LastApart<T>(s: seq<T>)
    requires s != []
    ensures s == s[..|s| - 1] + [s[|s| - 1]]
  {}

  lemma PrefixThrough<T>(a: seq<T>, b: seq<T>, c: seq<T>)
    requires a <= b <= c
    ensures a <= c
  {}

  /** Cutting one element out of all but the last. */
  lemma CutApart<T>(s: seq<T>, i: nat)
    requires i < |s| - 1
    ensures var n := |s| - 1;
            s[..n][..i] + s[..n][i + 1..] + [s[n]] == s[..i] + s[i + 1..]
  {
    var n := |s| - 1;
    assert s[i + 1..] == s[..n][i + 1..] + [s[n]];
  }

  /** Changing one element of all but the last. */
  lemma SetApart<T>(s: seq<T>, i: nat, x: T)
    requires i < |s| - 1
    ensures s[..|s| - 1][i := x] + [s[|s| - 1]] == s[i := x]
  {}

  /** What comes after a longer and longer front stays as it was. */
  lemma FrontGrows<T>(front: seq<T>, was: seq<T>, now: seq<T>, a: nat, part: seq<T>, after: seq<T>)
    requires |front| == a && a + |part| <= |was| && now == front + was[a..]
    requires after == now[..a] + part + now[a + |part|..]
    ensures after == front + part + was[a + |part|..]
  {
    assert now[a + |part|..] == was[a + |part|..];
  }
}
