/**
 The streaming UTF-8 decoder: text arrives in chunks that may cut a character, and the
 decoder holds back the bytes of a character that is not complete yet.
 */
module StringDecoder {
  import opened ByteSeqs
  import opened Options
  import opened Utf8

  /** What the decoder remembers between chunks: of a character of total bytes, need are missing. */
  datatype State = State(need: nat, total: nat, last: seq<Byte>) {
    ghost predicate Valid() {
      |last| == 4 && (need > 0 ==> need < total <= 4)
    }
  }

  /** 0 for an ASCII byte, the announced length for a first byte, -1 for a continuation byte, -2 for others. */
  function Kind(b: Byte): (k: int)
    ensures k in {-2, -1, 0, 2, 3, 4}
  {
    if b <= 127 then 0
    else if b / 32 == 6 then 2
    else if b / 16 == 14 then 3
    else if b / 8 == 30 then 4
    else if b / 64 == 2 then -1
    else -2
  }

  /**
   Looks at no more than the last three bytes, from position i on, for a character that is
   cut: its announced length and the number of its missing bytes.
   */
  function Cut(t: seq<Byte>, i: nat): (r: (nat, nat))
    requires i <= |t|
    ensures r.1 > 0 ==> r.1 < r.0 <= 4 && r.0 - r.1 <= |t| - i
  {
    var r := |t| - 1;
    if r < i then (0, 0)
    else
      var k := Kind(t[r]);
      if k >= 0 then (k, if k > 0 then k - 1 else 0)
      else if r - 1 < i || k == -2 then (0, 0)
      else
        var k1 := Kind(t[r - 1]);
        if k1 >= 0 then (k1, if k1 > 0 then k1 - 2 else 0)
        else if r - 2 < i || k1 == -2 then (0, 0)
        else
          var k2 := Kind(t[r - 2]);
          if k2 > 2 then (k2, k2 - 3) else (0, 0)
  }

  /** If a byte of the chunk does not continue the held-back character: how many bytes of the chunk did. */
  function Broken(need: nat, t: seq<Byte>): (n: Option<nat>)
    requires t != []
    ensures n.Some? ==> n.value < |t|
  {
    if !Continuation(t[0]) then Some(0)
    else if need > 1 && |t| > 1 && !Continuation(t[1]) then Some(1)
    else if need > 2 && |t| > 2 && !Continuation(t[2]) then Some(2)
    else None
  }

  function Overwritten(a: seq<Byte>, at: nat, t: seq<Byte>): (r: seq<Byte>)
    requires at + |t| <= |a|
    ensures |r| == |a| && r[at..at + |t|] == t && r[..at] == a[..at]
  {
    a[..at] + t + a[at + |t|..]
  }

  // ----- one chunk, as a function

  /** The text of the chunk from i on, but for a character cut at its end. */
  ghost function TextOf(s: State, t: seq<Byte>, i: nat): (r: (State, seq<Unit>))
    requires s.Valid() && s.need == 0 && i <= |t|
    ensures r.0.Valid()
  {
    var (total, need) := Cut(t, i);
    if need == 0 then (s, Decode(t[i..]))
    else
      var end := |t| - (total - need);
      (State(need, total, Overwritten(s.last, 0, t[end..])), Decode(t[i..end]))
  }

  lemma TextOfAll(s: State, t: seq<Byte>, i: nat)
    requires s.Valid() && s.need == 0 && i <= |t| && Cut(t, i).1 == 0
    ensures TextOf(s, t, i) == (s, Decode(t[i..|t|]))
  {
    assert t[i..|t|] == t[i..];
  }

  lemma TextOfFront(s: State, t: seq<Byte>, i: nat, total: nat, need: nat, end: int)
    requires s.Valid() && s.need == 0 && i <= |t| && Cut(t, i) == (total, need) && need > 0
    requires end == |t| - (total - need)
    ensures i <= end && |t| - end <= 4
    ensures TextOf(s, t, i) == (State(need, total, Overwritten(s.last, 0, t[end..])), Decode(t[i..end]))
  {}

  /** First the character that was held back, then the chunk from i on. */
  ghost function Resumed(s: State, first: seq<Unit>, t: seq<Byte>, i: nat): (r: (State, seq<Unit>))
    requires s.Valid() && s.need == 0
    ensures r.0.Valid()
  {
    if i < |t| then (TextOf(s, t, i).0, first + TextOf(s, t, i).1) else (s, first)
  }

  /** The held-back character once more bytes have come; None if they are still too few. */
  ghost function Filled(s: State, t: seq<Byte>): (r: (State, Option<seq<Unit>>))
    requires s.Valid() && s.need > 0 && t != []
    ensures r.0.Valid() && (r.1.Some? ==> r.0.need <= |t|)
  {
    match Broken(s.need, t)
    case Some(n) => (s.(need := n), Some([REPLACEMENT]))
    case None =>
      var at := s.total - s.need;
      if s.need <= |t| then
        var last := Overwritten(s.last, at, t[..s.need]);
        (s.(last := last), Some(Decode(last[..s.total])))
      else
        (s.(need := s.need - |t|, last := Overwritten(s.last, at, t)), None)
  }

  ghost function Fed(s: State, t: seq<Byte>): (r: (State, seq<Unit>))
    requires s.Valid()
    ensures r.0.Valid()
  {
    if t == [] then (s, [])
    else if s.need == 0 then TextOf(s, t, 0)
    else
      var (f, first) := Filled(s, t);
      if first == None then (f, []) else Resumed(f.(need := 0), first.value, t, f.need)
  }

  ghost function Ended(s: State): (r: seq<Unit>)
    ensures |r| <= 1
  {
    if s.need > 0 then [REPLACEMENT] else []
  }

  // ----- the decoder object

  class Decoder {
    var lastNeed: nat
    var lastTotal: nat
    const lastChar: array<Byte>

    ghost function View(): State
      reads this, lastChar
    {
      State(lastNeed, lastTotal, lastChar[..])
    }

    ghost predicate Valid()
      reads this, lastChar
    {
      View().Valid()
    }

    constructor ()
      ensures Valid() && fresh(lastChar) && lastNeed == 0
    {
      lastNeed := 0;
      lastTotal := 0;
      lastChar := new Byte[4];
    }

    /** Copies the bytes into the held-back ones. */
    method Keep(t: seq<Byte>, at: nat)
      requires at + |t| <= lastChar.Length
      modifies lastChar
      ensures lastChar[..] == Overwritten(old(lastChar[..]), at, t)
    {
      var k := 0;
      while k < |t|
        invariant 0 <= k <= |t|
        invariant forall j :: 0 <= j < lastChar.Length ==>
          lastChar[j] == if at <= j < at + k then t[j - at] else old(lastChar[j])
      {
        lastChar[at + k] := t[k];
        k := k + 1;
      }
    }

    /** Notes in lastNeed how many bytes of a cut character are missing; returns its length. */
    method CheckIncomplete(t: seq<Byte>, i: nat) returns (total: nat)
      requires i <= |t| && lastNeed == 0
      modifies `lastNeed
      ensures (total, lastNeed) == Cut(t, i)
    {
      var r := |t| - 1;
      if r < i {
        return 0;
      }
      var k := Kind(t[r]);
      if k >= 0 {
        if k > 0 {
          lastNeed := k - 1;
        }
        return k;
      }
      r := r - 1;
      if r < i || k == -2 {
        return 0;
      }
      k := Kind(t[r]);
      if k >= 0 {
        if k > 0 {
          lastNeed := k - 2;
        }
        return k;
      }
      r := r - 1;
      if r < i || k == -2 {
        return 0;
      }
      k := Kind(t[r]);
      if k > 2 {
        lastNeed := k - 3;
        return k;
      }
      return 0;
    }

    method Text(t: seq<Byte>, i: nat) returns (out: seq<Unit>)
      requires Valid() && lastNeed == 0 && i <= |t|
      modifies this, lastChar
      ensures (View(), out) == TextOf(old(View()), t, i)
    {
      ghost var s := View();
      var total := CheckIncomplete(t, i);
      if lastNeed == 0 {
        out := DecodeSlice(t, i, |t|);
        TextOfAll(s, t, i);
        return;
      }
      lastTotal := total;
      var end := |t| - (total - lastNeed);
      TextOfFront(s, t, i, total, lastNeed, end);
      Keep(t[end..], 0);
      out := DecodeSlice(t, i, end);
    }

    /** Completes the held-back character; None if the chunk is too short for it. */
    method FillLast(t: seq<Byte>) returns (out: Option<seq<Unit>>)
      requires Valid() && lastNeed > 0 && t != []
      modifies `lastNeed, lastChar
      ensures (View(), out) == Filled(old(View()), t)
    {
      var at := lastTotal - lastNeed;
      match Broken(lastNeed, t)
      case Some(n) =>
        lastNeed := n;
        out := Some([REPLACEMENT]);
      case None =>
        if lastNeed <= |t| {
          Keep(t[..lastNeed], at);
          var units := DecodeSlice(lastChar[..], 0, lastTotal);
          assert lastChar[..][0..lastTotal] == lastChar[..][..lastTotal];
          out := Some(units);
        } else {
          Keep(t, at);
          lastNeed := lastNeed - |t|;
          out := None;
        }
    }

    method Write(t: seq<Byte>) returns (out: seq<Unit>)
      requires Valid()
      modifies this, lastChar
      ensures Valid() && (View(), out) == Fed(old(View()), t)
    {
      hide Filled;
      if t == [] {
        return [];
      }
      var first: seq<Unit>, n: nat := [], 0;
      if lastNeed > 0 {
        var filled := FillLast(t);
        ghost var f := View();
        if filled == None {
          return [];
        }
        first := filled.value;
        n := lastNeed;
        lastNeed := 0;
      }
      if n < |t| {
        var rest := Text(t, n);
        out := first + rest;
        assert first == [] ==> out == rest;
      } else {
        out := first;
      }
    }

    /** Writes a last chunk; a character still cut then becomes U+FFFD. */
    method End(t: seq<Byte>) returns (out: seq<Unit>)
      requires Valid()
      modifies this, lastChar
      ensures Valid()
      ensures var r := Fed(old(View()), t);
              View() == r.0 && out == r.1 + Ended(r.0)
    {
      out := Write(t);
      if lastNeed > 0 {
        out := out + [REPLACEMENT];
      }
    }
  }
}
