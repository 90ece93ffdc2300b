/**
 The streaming decoder against decoding everything at once, for all byte sequences: which
 cuttings into chunks give the same text, and for which bytes all of them do.
 */
module StringDecoderProofs {
  import opened ByteSeqs
  import opened Options
  import opened Sequences
  import opened Utf8
  import opened StringDecoder

  /** The kinds of bytes, by range. */
  lemma KindTable(b: Byte)
    ensures Kind(b) == if b <= 0x7F then 0 else if b <= 0xBF then -1 else if b <= 0xDF then 2
                       else if b <= 0xEF then 3 else if b <= 0xF7 then 4 else -2
    ensures Continuation(b) <==> 0x80 <= b <= 0xBF
  {}

  /** A first byte at p announces more bytes than there are, and those that are there continue it. */
  predicate OpenAt(b: seq<Byte>, p: nat) {
    p < |b| && Kind(b[p]) > |b| - p && forall m :: p < m < |b| ==> Continuation(b[m])
  }

  /** The first bytes of a character, as far as they tell, and not all of them. */
  predicate Open(q: seq<Byte>) {
    var ok := OpenAt(q, 0);
    ok
  }

  /** No character is cut at the end. */
  predicate Closed(b: seq<Byte>) {
    var ok := forall p :: 0 <= p < |b| ==> !OpenAt(b, p);
    ok
  }

  /** What can be decoded, and the bytes of the character that is cut at the end, if one is. */
  predicate Parts(b: seq<Byte>, v: seq<Byte>, q: seq<Byte>) {
    var ok := b == v + q && if q == [] then Closed(v) else Open(q);
    ok
  }

  /**
   The first byte at i of a character of three or four bytes is followed by at least one
   continuation byte, but not by enough of them: at j there is another byte, or the end.
   */
  predicate StrandedAt(b: seq<Byte>, i: nat, j: nat) {
    && i + 2 <= j <= |b| && j < i + Kind(b[i])
    && Continuation(b[i + 1]) && (j < |b| ==> !Continuation(b[j]))
  }

  predicate Stranded(b: seq<Byte>) {
    exists i, j :: 0 <= i < j <= |b| && StrandedAt(b, i, j)
  }

  /** The same, not at the end. */
  predicate StrandedInside(b: seq<Byte>) {
    exists i, j :: 0 <= i < j < |b| && StrandedAt(b, i, j)
  }

  /** The decoder holds back exactly these bytes. */
  ghost predicate Holds(s: State, q: seq<Byte>) {
    var ok :=
      && s.Valid()
      && if s.need == 0 then q == []
         else Open(q) && s.total == Kind(q[0]) && |q| == s.total - s.need && q == s.last[..|q|];
    ok
  }

  // ----- the character at the end

  lemma KindOfContinuation(b: Byte)
    ensures Kind(b) == -1 <==> Continuation(b)
    ensures Kind(b) > 0 ==> Announced(b) == Kind(b)
    ensures Kind(b) <= 0 && Announced(b) > 1 ==> b >= 248
  {}

  lemma OneOpen(b: seq<Byte>, p: nat, p': nat)
    requires OpenAt(b, p) && OpenAt(b, p')
    ensures p == p'
  {
    KindOfContinuation(b[p]);
    KindOfContinuation(b[p']);
  }

  lemma OpenOfSuffix(b: seq<Byte>, v: seq<Byte>, q: seq<Byte>, p: nat)
    requires b == v + q && p < |q|
    ensures OpenAt(b, |v| + p) <==> OpenAt(q, p)
  {
    assert forall m :: 0 <= m < |q| ==> b[|v| + m] == q[m];
    if OpenAt(b, |v| + p) {
      forall m | p < m < |q|
        ensures Continuation(q[m])
      {
        assert Continuation(b[|v| + m]);
      }
    }
    if OpenAt(q, p) {
      forall m | |v| + p < m < |b|
        ensures Continuation(b[m])
      {
        assert b[m] == q[m - |v|];
      }
    }
  }

  lemma CutOfOpen(t: seq<Byte>, i: nat, p: nat)
    requires i <= p < |t| && OpenAt(t, p)
    ensures Cut(t, i) == (Kind(t[p]), Kind(t[p]) - (|t| - p))
  {
    var n := |t|;
    KindOfContinuation(t[n - 1]);
    if p < n - 1 {
      KindOfContinuation(t[n - 2]);
      assert Continuation(t[n - 1]);
      assert p < n - 2 ==> Continuation(t[n - 2]);
    }
  }

  /** The backward scan finds the character that is cut at the end, and nothing else. */
  lemma CutFindsLast(t: seq<Byte>, i: nat)
    requires i <= |t|
    ensures var (total, need) := Cut(t, i);
            if need > 0 then
              var p := |t| - (total - need);
              i <= p < |t| && OpenAt(t, p) && total == Kind(t[p])
            else forall p :: i <= p < |t| ==> !OpenAt(t, p)
  {
    forall p: nat | p < |t|
      ensures Kind(t[p]) == -1 <==> Continuation(t[p])
    {
      KindOfContinuation(t[p]);
    }
    if Cut(t, i).1 == 0 {
      forall p | i <= p < |t|
        ensures !OpenAt(t, p)
      {
        if OpenAt(t, p) {
          CutOfOpen(t, i, p);
        }
      }
    }
  }

  /** Every sequence has its parts. */
  lemma PartsOf(b: seq<Byte>) returns (v: seq<Byte>, q: seq<Byte>)
    ensures Parts(b, v, q)
  {
    CutFindsLast(b, 0);
    var (total, need) := Cut(b, 0);
    if need > 0 {
      var p := |b| - (total - need);
      v, q := b[..p], b[p..];
      assert b == v + q;
      OpenOfSuffix(b, v, q, 0);
    } else {
      v, q := b, [];
      assert b == v + q;
    }
  }

  lemma PartsAreOne(b: seq<Byte>, v: seq<Byte>, q: seq<Byte>, v': seq<Byte>, q': seq<Byte>)
    requires Parts(b, v, q) && Parts(b, v', q')
    ensures v == v' && q == q'
  {
    OpenPart(b, v, q);
    OpenPart(b, v', q');
    if q != [] && q' != [] {
      OneOpen(b, |v|, |v'|);
    }
    assert v == b[..|v|] && q == b[|v|..] && v' == b[..|v'|] && q' == b[|v'|..];
  }

  lemma OpenPart(b: seq<Byte>, v: seq<Byte>, q: seq<Byte>)
    requires Parts(b, v, q)
    ensures if q == [] then b == v && Closed(b) else OpenAt(b, |v|)
  {
    if q == [] {
      assert v + [] == v;
    } else {
      OpenOfSuffix(b, v, q, 0);
    }
  }

  // ----- decoding in parts

  lemma FirstNeeds(b: seq<Byte>)
    requires b != [] && FirstScalar(b).Some?
    ensures b[0] < 248 && forall m :: 0 < m < Announced(b[0]) ==> Continuation(b[m])
  {}

  /** Bytes end where the next ones do not continue them. */
  predicate Apart(v: seq<Byte>, t: seq<Byte>) {
    var ok := Closed(v) || (t != [] && !Continuation(t[0]));
    ok
  }

  lemma ApartClosed(v: seq<Byte>, t: seq<Byte>)
    requires Closed(v)
    ensures Apart(v, t)
  {}

  lemma OpenIfFirst(v: seq<Byte>, t: seq<Byte>)
    requires v != [] && Announced(v[0]) > |v| && FirstScalar(v + t).Some?
    ensures OpenAt(v, 0) && t != [] && Continuation(t[0])
  {
    var b := v + t;
    FirstNeeds(b);
    KindOfContinuation(v[0]);
    assert forall m :: 0 <= m < |v| ==> b[m] == v[m];
    assert t != [] && b[|v|] == t[0];
  }

  lemma FirstOfBoth(v: seq<Byte>, t: seq<Byte>)
    requires v != [] && Apart(v, t)
    ensures FirstScalar(v + t) == FirstScalar(v)
  {
    var b, l := v + t, Announced(v[0]);
    assert forall m :: 0 <= m < |v| ==> b[m] == v[m];
    if l > |v| && FirstScalar(b).Some? {
      OpenIfFirst(v, t);
    }
  }

  lemma ApartLater(v: seq<Byte>, t: seq<Byte>, n: nat)
    requires n <= |v| && Apart(v, t)
    ensures Apart(v[n..], t)
  {
    if Closed(v) {
      forall p | 0 <= p < |v[n..]|
        ensures !OpenAt(v[n..], p)
      {
        assert v == v[..n] + v[n..];
        OpenOfSuffix(v, v[..n], v[n..], p);
      }
    }
  }

  lemma DecodeFirst(b: seq<Byte>, f: Option<int>, n: nat)
    requires b != [] && f == FirstScalar(b) && n == if f.Some? then Announced(b[0]) else 1
    ensures 0 < n <= |b|
    ensures DecodeScalars(b) == [if f.Some? then f.value else REPLACEMENT] + DecodeScalars(b[n..])
  {
    hide FirstScalar, Announced;
  }

  lemma DecodeScalarsNone(t: seq<Byte>)
    ensures DecodeScalars([]) + DecodeScalars(t) == DecodeScalars(t)
  {}

  lemma {:induction false} DecodeScalarsApart(v: seq<Byte>, t: seq<Byte>)
    requires Apart(v, t)
    ensures DecodeScalars(v + t) == DecodeScalars(v) + DecodeScalars(t)
    decreases |v|
  {
    hide *;
    if v == [] {
      DecodeScalarsNone(t);
      assert v + t == t;
    } else {
      var f := FirstScalar(v);
      var n := if f.Some? then Announced(v[0]) else 1;
      FirstOfBoth(v, t);
      DecodeFirst(v, f, n);
      DecodeFirst(v + t, f, n);
      ApartLater(v, t, n);
      DecodeScalarsApart(v[n..], t);
      assert (v + t)[n..] == v[n..] + t;
      Associative([if f.Some? then f.value else REPLACEMENT], DecodeScalars(v[n..]), DecodeScalars(t));
    }
  }

  lemma {:induction false} Utf16Append(cs: seq<int>, ds: seq<int>)
    requires Scalars(cs) && Scalars(ds)
    ensures Utf16(cs + ds) == Utf16(cs) + Utf16(ds)
  {
    if cs == [] {
      assert cs + ds == ds;
    } else {
      Utf16Append(cs[1..], ds);
      assert (cs + ds)[1..] == cs[1..] + ds;
      Associative(Units(cs[0]), Utf16(cs[1..]), Utf16(ds));
    }
  }

  lemma DecodeApart(v: seq<Byte>, t: seq<Byte>)
    requires Apart(v, t)
    ensures Decode(v + t) == Decode(v) + Decode(t)
  {
    DecodeScalarsApart(v, t);
    Utf16Append(DecodeScalars(v), DecodeScalars(t));
  }

  lemma OpenFirst(q: seq<Byte>)
    requires Open(q)
    ensures 0 < |q| < Kind(q[0]) <= 4 && !Continuation(q[0]) && FirstScalar(q) == None
  {
    KindOfContinuation(q[0]);
  }

  /** A cut character gives one U+FFFD for its first byte and at least one more unit for the others. */
  lemma DecodeOpen(q: seq<Byte>)
    requires Open(q)
    ensures if |q| == 1 then Decode(q) == [REPLACEMENT] else |Decode(q)| > 1
  {
    OpenFirst(q);
    assert DecodeScalars(q) == [REPLACEMENT] + DecodeScalars(q[1..]);
    UnitsThen(REPLACEMENT, DecodeScalars(q[1..]));
    if |q| > 1 {
      DecodeSome(q[1..]);
    } else {
      assert q[1..] == [];
    }
  }

  lemma DecodeSome(b: seq<Byte>)
    requires b != []
    ensures Decode(b) != []
  {
    assert DecodeScalars(b) != [];
  }

  /** Parts of the rest, behind bytes that are apart from it. */
  lemma PartsAfter(v: seq<Byte>, x: seq<Byte>, v': seq<Byte>, q: seq<Byte>)
    requires Parts(x, v', q) && Apart(v, x)
    ensures Parts(v + x, v + v', q) && Decode(v + v') == Decode(v) + Decode(v')
  {
    Associative(v, v', q);
    if q == [] {
      assert x == v';
      ClosedAfter(v, v');
      DecodeApart(v, v');
    } else if v' == [] {
      assert v + v' == v && Decode([]) == [];
    } else {
      assert x[0] == v'[0];
      DecodeApart(v, v');
    }
  }

  lemma OpenAcross(v: seq<Byte>, x: seq<Byte>, p: nat)
    requires p < |v| && OpenAt(v + x, p)
    ensures OpenAt(v, p) && (x != [] ==> Continuation(x[0]))
  {
    var b := v + x;
    assert forall m :: p <= m < |v| ==> v[m] == b[m];
    assert x != [] ==> b[|v|] == x[0];
  }

  lemma ClosedAfter(v: seq<Byte>, x: seq<Byte>)
    requires Closed(x) && Apart(v, x)
    ensures Closed(v + x)
  {
    var b := v + x;
    forall p | 0 <= p < |b|
      ensures !OpenAt(b, p)
    {
      if p >= |v| {
        OpenOfSuffix(b, v, x, p - |v|);
      } else if OpenAt(b, p) {
        OpenAcross(v, x, p);
      }
    }
  }

  // ----- stranded bytes

  lemma StrandedFurther(b: seq<Byte>, v: seq<Byte>, x: seq<Byte>, i: nat, j: nat)
    requires b == v + x && i < j <= |x|
    ensures StrandedAt(x, i, j) <==> StrandedAt(b, |v| + i, |v| + j)
  {
    assert forall m :: 0 <= m < |x| ==> b[|v| + m] == x[m];
  }

  lemma InsideOfSuffix(b: seq<Byte>, v: seq<Byte>, x: seq<Byte>)
    requires b == v + x && StrandedInside(x)
    ensures StrandedInside(b)
  {
    var i, j :| 0 <= i < j < |x| && StrandedAt(x, i, j);
    StrandedFurther(b, v, x, i, j);
    assert StrandedAt(b, |v| + i, |v| + j);
  }

  lemma InsideOfPrefix(b: seq<Byte>, x: seq<Byte>, rest: seq<Byte>)
    requires b == x + rest && StrandedInside(x)
    ensures StrandedInside(b)
  {
    var i, j :| 0 <= i < j < |x| && StrandedAt(x, i, j);
    assert StrandedAt(b, i, j);
  }

  // ----- one chunk

  /** From a state that holds nothing back, the part that can be decoded comes out. */
  lemma TextOfParts(s: State, t: seq<Byte>, i: nat, v: seq<Byte>, q: seq<Byte>)
    requires s.Valid() && s.need == 0 && i < |t| && Parts(t[i..], v, q)
    ensures TextOf(s, t, i).1 == Decode(v) && Holds(TextOf(s, t, i).0, q)
  {
    hide Kind, Cut, Continuation;
    CutFindsLast(t, i);
    OpenPart(t[i..], v, q);
    TakeDrop(t, i);
    if q != [] {
      OpenOfSuffix(t, t[..i], t[i..], |v|);
      CutOfOpen(t, i, i + |v|);
      TextOfOpen(s, t, i, Cut(t, i).0, Cut(t, i).1, v, q);
    } else {
      TextOfClosed(s, t, i);
    }
  }

  lemma TakeDrop<T>(t: seq<T>, i: nat)
    requires i <= |t|
    ensures t == t[..i] + t[i..]
  {}

  lemma TextOfClosed(s: State, t: seq<Byte>, i: nat)
    requires s.Valid() && s.need == 0 && i < |t| && Closed(t[i..])
    ensures TextOf(s, t, i) == (s, Decode(t[i..]))
  {
    hide Kind, Cut, Continuation, Decode;
    CutFindsLast(t, i);
    TakeDrop(t, i);
    var (total, need) := Cut(t, i);
    if need > 0 {
      OpenOfSuffix(t, t[..i], t[i..], |t| - (total - need) - i);
    }
  }

  lemma TextOfOpen(s: State, t: seq<Byte>, i: nat, total: nat, need: nat, v: seq<Byte>, q: seq<Byte>)
    requires s.Valid() && s.need == 0 && i < |t| && t[i..] == v + q && Open(q)
    requires Cut(t, i) == (total, need) && total == Kind(q[0]) && need == total - |q|
    ensures TextOf(s, t, i).1 == Decode(v) && Holds(TextOf(s, t, i).0, q)
  {
    OpenFirst(q);
    assert t[i..][..|v|] == t[i..i + |v|] && t[i..][|v|..] == t[i + |v|..];
    TextAt(s, t, i, total, need, v, q);
    HoldsCut(s.last, q, total, need);
  }

  lemma TextAt(s: State, t: seq<Byte>, i: nat, total: nat, need: nat, v: seq<Byte>, q: seq<Byte>)
    requires s.Valid() && s.need == 0 && i < |t| && Cut(t, i) == (total, need) && need > 0
    requires |q| == total - need && |q| <= 3 && i <= |t| - |q| && total <= 4
    requires t[|t| - |q|..] == q && t[i..|t| - |q|] == v
    ensures TextOf(s, t, i) == (State(need, total, Overwritten(s.last, 0, q)), Decode(v))
  {}

  lemma HoldsCut(last: seq<Byte>, q: seq<Byte>, total: nat, need: nat)
    requires |last| == 4 && Open(q) && total == Kind(q[0]) && |q| == total - need && need > 0
    ensures Holds(State(need, total, Overwritten(last, 0, q)), q)
  {
    assert Overwritten(last, 0, q)[..|q|] == Overwritten(last, 0, q)[0..0 + |q|];
  }

  /** The text from i on, after what was held back has come out as first. */
  lemma ResumedParts(f: State, first: seq<Unit>, t: seq<Byte>, i: nat, v: seq<Byte>, q: seq<Byte>)
    requires f.Valid() && f.need == 0 && i <= |t| && Parts(t[i..], v, q)
    ensures Resumed(f, first, t, i).1 == first + Decode(v) && Holds(Resumed(f, first, t, i).0, q)
  {
    if i < |t| {
      TextOfParts(f, t, i, v, q);
    } else {
      assert t[i..] == [] && v == [] && q == [] && Decode([]) == [];
    }
  }

  lemma FedIs(s: State, t: seq<Byte>)
    requires s.Valid() && s.need > 0 && t != [] && Filled(s, t).1.Some?
    ensures var (f, first) := Filled(s, t);
            Fed(s, t) == Resumed(f.(need := 0), first.value, t, f.need)
  {}

  /** A byte that does not continue the held-back character, where no byte after the first had come. */
  lemma GivenUp(s: State, p: seq<Byte>, t: seq<Byte>, n: nat)
    requires Holds(s, p) && p != [] && t != [] && Broken(s.need, t) == Some(n) && !StrandedInside(p + t)
    ensures |p| == 1 && n == 0 && !Continuation(t[0])
  {
    var b, j := p + t, |p| + n;
    assert forall m :: 0 <= m < n ==> Continuation(t[m]);
    assert b[j] == t[n] && !Continuation(t[n]) && n < s.need;
    if j >= 2 {
      assert b[0] == p[0] && b[1] == if |p| > 1 then p[1] else t[0];
      assert StrandedAt(b, 0, j);
    }
  }

  lemma BrokenAt(need: nat, t: seq<Byte>, n: nat)
    requires n < need <= 3 && n < |t| && !Continuation(t[n])
    requires forall m :: 0 <= m < n ==> Continuation(t[m])
    ensures Broken(need, t) == Some(n)
  {}

  /**
   A byte that does not continue the held-back character, after n bytes of the chunk that do:
   one U+FFFD comes out for all of these, and the text goes on with that byte.
   */
  lemma BrokenOff(s: State, p: seq<Byte>, t: seq<Byte>, n: nat, v: seq<Byte>, q: seq<Byte>)
    requires Holds(s, p) && p != [] && n < |t| && |p| + n < Kind(p[0]) && !Continuation(t[n])
    requires (forall m :: 0 <= m < n ==> Continuation(t[m])) && Parts(t[n..], v, q)
    ensures Fed(s, t).1 == [0xFFFD] + Decode(v) && Holds(Fed(s, t).0, q)
  {
    OpenFirst(p);
    BrokenAt(s.need, t, n);
    ResumedParts(s.(need := 0), [0xFFFD], t, n, v, q);
    FedIs(s, t);
  }

  /** What was held back comes out as U+FFFD, and the chunk is taken from its start. */
  lemma AfterGivenUp(s: State, p: seq<Byte>, t: seq<Byte>, v: seq<Byte>, q: seq<Byte>)
    requires Holds(s, p) && p != [] && t != [] && Broken(s.need, t) == Some(0)
    requires |p| == 1 && !Continuation(t[0]) && Parts(t, v, q)
    ensures Fed(s, t).1 == Decode(p + v) && Holds(Fed(s, t).0, q) && Parts(p + t, p + v, q)
  {
    assert t[0..] == t;
    ResumedParts(s.(need := 0), [REPLACEMENT], t, 0, v, q);
    FedIs(s, t);
    DecodeOpen(p);
    PartsAfter(p, t, v, q);
  }

  lemma NotBroken(need: nat, t: seq<Byte>)
    requires t != [] && need <= 3 && Broken(need, t) == None
    ensures forall m :: 0 <= m < |t| && m < need ==> Continuation(t[m])
  {}

  lemma FullKinds(p: seq<Byte>, t: seq<Byte>, n: nat)
    requires Open(p) && n <= |t| && forall m :: 0 <= m < n ==> Continuation(t[m])
    ensures (p + t[..n])[0] == p[0] && forall m :: 0 < m < |p + t[..n]| ==> Continuation((p + t[..n])[m])
  {
    hide Kind, Continuation;
    assert forall m :: 0 <= m < |p + t[..n]| ==> (p + t[..n])[m] == if m < |p| then p[m] else t[m - |p|];
  }

  lemma FilledIs(s: State, p: seq<Byte>, t: seq<Byte>)
    requires Holds(s, p) && p != [] && t != [] && Broken(s.need, t) == None && s.need <= |t|
    ensures var x, last := p + t[..s.need], Overwritten(s.last, |p|, t[..s.need]);
            && Filled(s, t) == (s.(last := last), Some(Decode(x)))
            && |x| == s.total > 0 && s.total == Kind(x[0]) && forall m :: 0 < m < |x| ==> Continuation(x[m])
  {
    var x, last := p + t[..s.need], Overwritten(s.last, |p|, t[..s.need]);
    OpenFirst(p);
    NotBroken(s.need, t);
    FullKinds(p, t, s.need);
    assert last[..s.total] == last[..|p|] + last[|p|..|p| + s.need] == x;
  }

  /** All the bytes of the held-back character, right or wrong, are there. */
  lemma AfterFilled(s: State, p: seq<Byte>, t: seq<Byte>, v: seq<Byte>, q: seq<Byte>)
    requires Holds(s, p) && p != [] && t != [] && Broken(s.need, t) == None && s.need <= |t|
    requires Parts(t[s.need..], v, q)
    ensures var x := p + t[..s.need];
            Fed(s, t).1 == Decode(x + v) && Holds(Fed(s, t).0, q) && Parts(p + t, x + v, q)
  {
    hide Filled, Fed, Resumed, Parts, Open, Decode;
    var x, rest := p + t[..s.need], t[s.need..];
    FilledIs(s, p, t);
    var last := Filled(s, t).0.last;
    ResumedParts(s.(need := 0, last := last), Decode(x), t, s.need, v, q);
    FedIs(s, t);
    FullIsClosed(x, s.total);
    PartsAfter(x, rest, v, q);
    assert p + t == x + rest;
  }

  lemma KindsClosed(e: seq<Byte>)
    requires e != [] && Kind(e[0]) <= |e| && forall m :: 0 < m < |e| ==> Kind(e[m]) == -1
    ensures Closed(e)
  {}

  lemma FullIsClosed(x: seq<Byte>, total: nat)
    requires |x| == total > 0 && total == Kind(x[0]) && forall m :: 0 < m < |x| ==> Continuation(x[m])
    ensures Closed(x)
  {
    forall m | 0 < m < |x|
      ensures Kind(x[m]) == -1
    {
      KindOfContinuation(x[m]);
    }
    KindsClosed(x);
  }

  lemma OpenMore(p: seq<Byte>, t: seq<Byte>, total: nat)
    requires Open(p) && total == Kind(p[0]) > |p + t| && forall m :: 0 <= m < |t| ==> Continuation(t[m])
    ensures Open(p + t) && (p + t)[0] == p[0]
  {
    hide Kind, Continuation;
    assert forall m :: 0 <= m < |p + t| ==> (p + t)[m] == if m < |p| then p[m] else t[m - |p|];
    assert OpenAt(p + t, 0);
  }

  lemma HoldsMore(s: State, p: seq<Byte>, t: seq<Byte>)
    requires Holds(s, p) && p != [] && |t| < s.need && Open(p + t)
    ensures var last := Overwritten(s.last, |p|, t);
            Holds(s.(need := s.need - |t|, last := last), p + t)
  {
    hide Kind, Open;
    var last := Overwritten(s.last, |p|, t);
    assert last[..|p| + |t|] == last[..|p|] + last[|p|..|p| + |t|];
    assert (p + t)[0] == p[0];
  }

  lemma FedNone(s: State, t: seq<Byte>)
    requires s.Valid() && s.need > 0 && t != [] && Broken(s.need, t) == None && s.need > |t|
    ensures Fed(s, t) == (s.(need := s.need - |t|, last := Overwritten(s.last, s.total - s.need, t)), [])
  {
    hide Broken, Decode, Resumed;
  }

  lemma NoneBefore<T>(s: seq<T>)
    ensures [] + s == s
  {}

  /** The chunk continues the held-back character and does not complete it. */
  lemma AfterNone(s: State, p: seq<Byte>, t: seq<Byte>)
    requires Holds(s, p) && p != [] && t != [] && Broken(s.need, t) == None && s.need > |t|
    ensures Fed(s, t).1 == [] && Holds(Fed(s, t).0, p + t) && Parts(p + t, [], p + t)
  {
    hide Kind, Continuation, Open, Broken, Decode, Resumed, Fed, Filled;
    OpenFirst(p);
    NotBroken(s.need, t);
    OpenMore(p, t, s.total);
    HoldsMore(s, p, t);
    FedNone(s, t);
    NoneBefore(p + t);
  }

  /**
   One chunk, when p was held back: unless bytes were stranded, the part that can now be
   decoded comes out as when it is decoded at once, and the rest is held back.
   */
  lemma ChunkOk(s: State, p: seq<Byte>, t: seq<Byte>, v: seq<Byte>, q: seq<Byte>)
    requires Holds(s, p) && Parts(p + t, v, q) && !StrandedInside(p + t)
    ensures Fed(s, t).1 == Decode(v) && Holds(Fed(s, t).0, q)
  {
    if t == [] {
      assert p + t == p && Decode([]) == [];
      HoldsParts(s, p);
      PartsAreOne(p, [], p, v, q);
    } else if p == [] {
      assert p + t == t && t[0..] == t;
      TextOfParts(s, t, 0, v, q);
    } else if Broken(s.need, t).Some? {
      GivenUp(s, p, t, Broken(s.need, t).value);
      var v', q' := PartsOf(t);
      AfterGivenUp(s, p, t, v', q');
      PartsAreOne(p + t, p + v', q', v, q);
    } else if s.need <= |t| {
      var v', q' := PartsOf(t[s.need..]);
      AfterFilled(s, p, t, v', q');
      PartsAreOne(p + t, p + t[..s.need] + v', q', v, q);
    } else {
      AfterNone(s, p, t);
      PartsAreOne(p + t, [], p + t, v, q);
    }
  }

  lemma HoldsParts(s: State, p: seq<Byte>)
    requires Holds(s, p)
    ensures Parts(p, [], p) && Ended(s) == if p == [] then [] else [REPLACEMENT]
  {
    assert [] + p == p;
  }

  // ----- any cutting into chunks

  function Concat(chunks: seq<seq<Byte>>): seq<Byte> {
    if chunks == [] then [] else chunks[0] + Concat(chunks[1..])
  }

  /** The text of all chunks, without the end. */
  ghost function Run(s: State, chunks: seq<seq<Byte>>): (r: (State, seq<Unit>))
    requires s.Valid()
    ensures r.0.Valid()
    decreases |chunks|
  {
    if chunks == [] then (s, [])
    else
      var (s', out) := Fed(s, chunks[0]);
      var (s'', rest) := Run(s', chunks[1..]);
      (s'', out + rest)
  }

  /** The text of all chunks and of the end. */
  ghost function Streamed(s: State, chunks: seq<seq<Byte>>): seq<Unit>
    requires s.Valid()
  {
    Run(s, chunks).1 + Ended(Run(s, chunks).0)
  }

  /** The parts of the first bytes and then those of what follows make the parts of all. */
  lemma PartsThen(b: seq<Byte>, rest: seq<Byte>, v: seq<Byte>, q: seq<Byte>, v': seq<Byte>, q': seq<Byte>)
    requires Parts(b, v, q) && Parts(q + rest, v', q')
    ensures Parts(b + rest, v + v', q') && Decode(v + v') == Decode(v) + Decode(v')
  {
    if q != [] {
      OpenFirst(q);
    }
    assert Apart(v, q + rest);
    PartsAfter(v, q + rest, v', q');
    Associative(v, q, rest);
  }

  /** Unless bytes are stranded inside, the chunks give what decoding the parts gives, however they are cut. */
  lemma {:induction false} RunOk(s: State, p: seq<Byte>, chunks: seq<seq<Byte>>, v: seq<Byte>, q: seq<Byte>)
    requires Holds(s, p) && Parts(p + Concat(chunks), v, q) && !StrandedInside(p + Concat(chunks))
    ensures Run(s, chunks).1 == Decode(v) && Holds(Run(s, chunks).0, q)
    decreases |chunks|
  {
    if chunks == [] {
      ChunkOk(s, p, [], v, q);
    } else {
      var b, rest := p + chunks[0], Concat(chunks[1..]);
      Associative(p, chunks[0], rest);
      var v0, q0 := PartsOf(b);
      var v1, q1 := PartsOf(q0 + rest);
      PartsThen(b, rest, v0, q0, v1, q1);
      PartsAreOne(b + rest, v0 + v1, q1, v, q);
      NotInside(b, rest, v0, q0);
      ChunkOk(s, p, chunks[0], v0, q0);
      RunOk(Fed(s, chunks[0]).0, q0, chunks[1..], v1, q1);
    }
  }

  lemma NotInside(b: seq<Byte>, rest: seq<Byte>, v: seq<Byte>, q: seq<Byte>)
    requires b == v + q && !StrandedInside(b + rest)
    ensures !StrandedInside(b) && !StrandedInside(q + rest)
  {
    if StrandedInside(b) {
      InsideOfPrefix(b + rest, b, rest);
    }
    if StrandedInside(q + rest) {
      Associative(v, q, rest);
      InsideOfSuffix(b + rest, v, q + rest);
    }
  }

  /** Unless bytes are stranded inside, every cutting gives the text of the parts and one U+FFFD for a cut character. */
  lemma StreamedParts(start: State, chunks: seq<seq<Byte>>, v: seq<Byte>, q: seq<Byte>)
    requires start.Valid() && start.need == 0
    requires Parts(Concat(chunks), v, q) && !StrandedInside(Concat(chunks))
    ensures Streamed(start, chunks) == Decode(v) + if q == [] then [] else [REPLACEMENT]
  {
    assert [] + Concat(chunks) == Concat(chunks);
    RunOk(start, [], chunks, v, q);
    HoldsParts(Run(start, chunks).0, q);
  }

  // ----- where a cutting makes a difference

  lemma ConcatOne(b: seq<Byte>)
    ensures Concat([b]) == b
  {
    assert [b][1..] == [] && b + [] == b;
  }

  lemma ConcatTwo(b: seq<Byte>, t: seq<Byte>)
    ensures Concat([b, t]) == b + t
  {
    assert [b, t][1..] == [t];
    ConcatOne(t);
  }

  lemma RunOne(s: State, b: seq<Byte>)
    requires s.Valid()
    ensures Run(s, [b]) == Fed(s, b)
  {
    assert [b][1..] == [] && Fed(s, b).1 + [] == Fed(s, b).1;
  }

  lemma RunTwo(s: State, b: seq<Byte>, t: seq<Byte>)
    requires s.Valid()
    ensures var (s', out) := Fed(s, b);
            Run(s, [b, t]) == (Fed(s', t).0, out + Fed(s', t).1)
  {
    assert [b, t][1..] == [t];
    RunOne(Fed(s, b).0, t);
  }

  /** One chunk from the start, whatever its bytes. */
  lemma FedFirst(start: State, b: seq<Byte>, v: seq<Byte>, q: seq<Byte>)
    requires start.Valid() && start.need == 0 && Parts(b, v, q)
    ensures Fed(start, b).1 == Decode(v) && Holds(Fed(start, b).0, q)
  {
    if b == [] {
      assert v == [] && q == [] && Decode([]) == [];
    } else {
      assert b[0..] == b;
      TextOfParts(start, b, 0, v, q);
    }
  }

  lemma StreamedOne(start: State, b: seq<Byte>, v: seq<Byte>, q: seq<Byte>)
    requires start.Valid() && start.need == 0 && Parts(b, v, q)
    ensures Streamed(start, [b]) == Decode(v) + if q == [] then [] else [REPLACEMENT]
  {
    RunOne(start, b);
    FedFirst(start, b, v, q);
    HoldsParts(Fed(start, b).0, q);
  }

  /** The second chunk does not continue what the first one left open: one U+FFFD for all of that. */
  lemma StreamedTwo(start: State, u: seq<Byte>, p: seq<Byte>, t: seq<Byte>, v: seq<Byte>, q: seq<Byte>)
    requires start.Valid() && start.need == 0 && Open(p) && t != [] && !Continuation(t[0]) && Parts(t, v, q)
    ensures Streamed(start, [u + p, t])
         == Decode(u) + ([REPLACEMENT] + Decode(v)) + if q == [] then [] else [REPLACEMENT]
  {
    RunTwo(start, u + p, t);
    FedFirst(start, u + p, u, p);
    var s := Fed(start, u + p).0;
    assert t[0..] == t;
    ResumedParts(s.(need := 0), [REPLACEMENT], t, 0, v, q);
    FedIs(s, t);
    HoldsParts(Fed(s, t).0, q);
  }

  /** Cut behind stranded bytes, the text is shorter than in one chunk. */
  lemma CutIsShorter(start: State, u: seq<Byte>, p: seq<Byte>, t: seq<Byte>)
    requires start.Valid() && start.need == 0 && Open(p) && |p| > 1 && t != [] && !Continuation(t[0])
    ensures |Streamed(start, [u + p, t])| < |Streamed(start, [u + p + t])|
  {
    var v, q := PartsOf(t);
    StreamedTwo(start, u, p, t, v, q);
    PartsAfter(u + p, t, v, q);
    StreamedOne(start, u + p + t, u + p + v, q);
    OpenFirst(p);
    DecodeApart(u, p);
    DecodeOpen(p);
  }

  /** All of them together are no longer than when they are decoded at once. */
  lemma StreamedNotLonger(start: State, b: seq<Byte>, v: seq<Byte>, q: seq<Byte>)
    requires start.Valid() && start.need == 0 && Parts(b, v, q)
    ensures |Streamed(start, [b])| <= |Decode(b)|
    ensures Streamed(start, [b]) == Decode(b) <==> |q| <= 1
  {
    StreamedOne(start, b, v, q);
    if q == [] {
      assert v == b;
    } else {
      OpenFirst(q);
      DecodeApart(v, q);
      DecodeOpen(q);
    }
  }

  /** The stranded bytes up to the first one that does not continue them. */
  lemma StrandedPart(b: seq<Byte>, i: nat, j: nat) returns (e: nat)
    requires i < j <= |b| && StrandedAt(b, i, j)
    ensures i + 2 <= e <= j && Open(b[i..e]) && (e < |b| ==> !Continuation(b[e]))
  {
    e := if j == i + 3 && !Continuation(b[i + 2]) then i + 2 else j;
    var p := b[i..e];
    assert forall m :: 0 <= m < |p| ==> p[m] == b[i + m];
    assert OpenAt(p, 0);
  }

  lemma InsideDiffers(start: State, b: seq<Byte>, i: nat, e: nat)
    requires start.Valid() && start.need == 0
    requires i + 2 <= e < |b| && Open(b[i..e]) && !Continuation(b[e])
    ensures Concat([b[..e], b[e..]]) == b && |Streamed(start, [b[..e], b[e..]])| < |Streamed(start, [b])|
  {
    var u, p, t := b[..i], b[i..e], b[e..];
    assert b == b[..e] + t;
    assert b[..e] == u + p;
    CutIsShorter(start, u, p, t);
    ConcatTwo(b[..e], t);
  }

  /**
   All cuttings of the bytes give the same text if and only if no bytes are stranded inside:
   no first byte of three or four is followed by a continuation byte, too few of them, and
   another byte.
   */
  lemma CuttingsAgreeIff(start: State, b: seq<Byte>)
    requires start.Valid() && start.need == 0
    ensures (forall chunks | Concat(chunks) == b :: Streamed(start, chunks) == Streamed(start, [b]))
       <==> !StrandedInside(b)
  {
    hide Streamed, Parts, Open, StrandedAt;
    if StrandedInside(b) {
      var i, j :| 0 <= i < j < |b| && StrandedAt(b, i, j);
      var e := StrandedPart(b, i, j);
      InsideDiffers(start, b, i, e);
    } else {
      var v, q := PartsOf(b);
      StreamedOne(start, b, v, q);
      forall chunks | Concat(chunks) == b
        ensures Streamed(start, chunks) == Streamed(start, [b])
      {
        StreamedParts(start, chunks, v, q);
      }
    }
  }

  lemma StrandedIsInside(b: seq<Byte>, v: seq<Byte>, q: seq<Byte>)
    requires Parts(b, v, q)
    ensures Stranded(b) <==> StrandedInside(b) || |q| > 1
  {
    if Stranded(b) {
      var i, j :| 0 <= i < j <= |b| && StrandedAt(b, i, j);
      var e := StrandedPart(b, i, j);
      if e < |b| {
        assert StrandedAt(b, i, e);
      } else {
        assert b == b[..i] + b[i..e];
        PartsAreOne(b, b[..i], b[i..e], v, q);
      }
    }
    if |q| > 1 {
      OpenPart(b, v, q);
      assert StrandedAt(b, |v|, |b|);
    }
  }

  /**
   Chunk invariance, for all bytes: the texts of all chunks and of the end together are what
   decoding everything at once gives, however the bytes are cut, if and only if no bytes are
   stranded.
   */
  lemma ChunkInvarianceIff(start: State, b: seq<Byte>)
    requires start.Valid() && start.need == 0
    ensures (forall chunks | Concat(chunks) == b :: Streamed(start, chunks) == Decode(b)) <==> !Stranded(b)
  {
    var v, q := PartsOf(b);
    CuttingsAgreeIff(start, b);
    StrandedIsInside(b, v, q);
    StreamedNotLonger(start, b, v, q);
    ConcatOne(b);
  }

  // ----- valid UTF-8

  /** The first bytes of a character's encoding, not all of them. */
  predicate Partial(q: seq<Byte>, c: int) {
    Scalar(c) && q != [] && q < EncodeOne(c)
  }

  lemma FirstKind(c: int)
    requires Scalar(c)
    ensures var b := EncodeOne(c)[0];
            Announced(b) == Width(c) && Kind(b) == if Width(c) == 1 then 0 else Width(c)
  {}

  lemma LaterKind(c: int, k: nat)
    requires Scalar(c) && 0 < k < Width(c)
    ensures Continuation(EncodeOne(c)[k])
  {}

  lemma PartialIsOpen(q: seq<Byte>, c: int)
    requires Partial(q, c)
    ensures Parts(q, [], q) && !StrandedInside(q)
  {
    var e := EncodeOne(c);
    FirstKind(c);
    assert q[0] == e[0];
    forall m | 0 < m < |q|
      ensures Continuation(q[m]) && Kind(q[m]) == -1
    {
      LaterKind(c, m);
      KindOfContinuation(q[m]);
      assert q[m] == e[m];
    }
    assert OpenAt(q, 0);
    assert [] + q == q;
  }

  lemma WholeKinds(c: int)
    requires Scalar(c)
    ensures var e := EncodeOne(c);
            e != [] && Kind(e[0]) <= |e| && forall m :: 0 < m < |e| ==> Continuation(e[m]) && Kind(e[m]) == -1
  {
    var e := EncodeOne(c);
    FirstKind(c);
    forall m | 0 < m < |e|
      ensures Continuation(e[m]) && Kind(e[m]) == -1
    {
      LaterKind(c, m);
      KindOfContinuation(e[m]);
    }
  }

  lemma StrandedLater(e: seq<Byte>, x: seq<Byte>, i: nat, j: nat)
    requires e != [] && Kind(e[0]) <= |e| && forall m :: 0 < m < |e| ==> Continuation(e[m]) && Kind(e[m]) == -1
    requires i < j < |e + x| && StrandedAt(e + x, i, j)
    ensures i >= |e|
  {
    var b := e + x;
    assert forall m :: 0 <= m < |e| ==> b[m] == e[m];
  }

  lemma NotInsideAfter(e: seq<Byte>, x: seq<Byte>)
    requires e != [] && Kind(e[0]) <= |e| && forall m :: 0 < m < |e| ==> Continuation(e[m]) && Kind(e[m]) == -1
    requires !StrandedInside(x)
    ensures !StrandedInside(e + x)
  {
    if StrandedInside(e + x) {
      var i, j :| 0 <= i < j < |e + x| && StrandedAt(e + x, i, j);
      StrandedLater(e, x, i, j);
      StrandedFurther(e + x, e, x, i - |e|, j - |e|);
    }
  }

  /** A whole character before bytes leaves them as they are. */
  lemma WholeFirst(c: int, x: seq<Byte>, v: seq<Byte>, q: seq<Byte>)
    requires Scalar(c) && Parts(x, v, q) && !StrandedInside(x)
    ensures Parts(EncodeOne(c) + x, EncodeOne(c) + v, q) && !StrandedInside(EncodeOne(c) + x)
  {
    hide EncodeOne, Width, Kind, Closed, StrandedInside, Parts, Apart;
    WholeKinds(c);
    KindsClosed(EncodeOne(c));
    ApartClosed(EncodeOne(c), x);
    PartsAfter(EncodeOne(c), x, v, q);
    NotInsideAfter(EncodeOne(c), x);
  }

  lemma {:induction false} WholeThen(cs: seq<int>, q: seq<Byte>)
    requires Scalars(cs) && Parts(q, [], q) && !StrandedInside(q)
    ensures Parts(Bytes(cs) + q, Bytes(cs), q) && !StrandedInside(Bytes(cs) + q)
  {
    if cs == [] {
      assert Bytes(cs) + q == q;
    } else {
      WholeThen(cs[1..], q);
      WholeFirst(cs[0], Bytes(cs[1..]) + q, Bytes(cs[1..]), q);
      Associative(EncodeOne(cs[0]), Bytes(cs[1..]), q);
    }
  }

  /** Valid UTF-8 strands no bytes. */
  lemma ValidIsNotStranded(cs: seq<int>)
    requires Scalars(cs)
    ensures !Stranded(Bytes(cs))
  {
    assert Bytes(cs) + [] == Bytes(cs);
    WholeThen(cs, []);
    StrandedIsInside(Bytes(cs), Bytes(cs), []);
  }

  /**
   Chunk invariance: for valid UTF-8 the texts of all chunks and of the end together are
   what decoding everything at once gives, however the bytes are cut.
   */
  lemma ChunkInvariance(start: State, chunks: seq<seq<Byte>>, cs: seq<int>)
    requires start.Valid() && start.need == 0
    requires Scalars(cs) && Concat(chunks) == Bytes(cs)
    ensures var (s, out) := Run(start, chunks);
            out + Ended(s) == Decode(Concat(chunks)) == Utf16(cs)
  {
    ValidIsNotStranded(cs);
    ChunkInvarianceIff(start, Bytes(cs));
    assert Streamed(start, chunks) == Decode(Bytes(cs));
    DecodeBytes(cs);
  }

  /** A text that ends inside a character gives its whole characters and one U+FFFD, however it is cut. */
  lemma TruncatedInvariance(start: State, chunks: seq<seq<Byte>>, cs: seq<int>, q: seq<Byte>, c: int)
    requires start.Valid() && start.need == 0
    requires Scalars(cs) && Partial(q, c) && Concat(chunks) == Bytes(cs) + q
    ensures var (s, out) := Run(start, chunks);
            out + Ended(s) == Utf16(cs) + [REPLACEMENT]
  {
    PartialIsOpen(q, c);
    WholeThen(cs, q);
    StreamedParts(start, chunks, Bytes(cs), q);
    DecodeBytes(cs);
  }

  /**
   Cutting can make a difference: after the first two
   bytes of a three-byte character the decoder writes one U+FFFD where all at once gives two.
   */
  lemma InvalidBytesDiffer(start: State)
    requires start.Valid() && start.need == 0
    ensures Run(start, [[226, 130, 65]]).1 == [REPLACEMENT, REPLACEMENT, 65]
    ensures Run(start, [[226, 130], [65]]).1 == [REPLACEMENT, 65]
  {
    AtOnce(start);
    InTwo(start);
  }

  lemma FirstByteHeld(p: seq<Byte>)
    requires p == [226]
    ensures Parts(p, [], p) && Kind(p[0]) == 3
  {
    assert OpenAt(p, 0);
    NoneBefore(p);
  }

  lemma LetterAfter(t: seq<Byte>)
    requires t == [130, 65]
    ensures Parts(t[1..], [65], []) && Continuation(t[0]) && !Continuation(t[1])
  {
    var v: seq<Byte> := [65];
    assert t[1..] == v && v + [] == v && Closed(v);
  }

  /** The second chunk goes on with the character and then breaks it off: one U+FFFD for its two bytes. */
  lemma BrokenInsideChunk(start: State)
    requires start.Valid() && start.need == 0
    ensures Run(start, [[226], [130, 65]]).1 == [0xFFFD, 65]
  {
    hide Run, Fed, Decode, Parts, Holds;
    var p: seq<Byte>, t: seq<Byte> := [226], [130, 65];
    FirstByteHeld(p);
    LetterAfter(t);
    FedFirst(start, p, [], p);
    BrokenOff(Fed(start, p).0, p, t, 1, [65], []);
    RunTwo(start, p, t);
    DecodeLetter();
    assert [0xFFFD] + [65] == [0xFFFD, 65] && [] + [0xFFFD, 65] == [0xFFFD, 65];
  }

  lemma DecodeLetter()
    ensures Decode([65]) == [65] && Decode([]) == []
  {
    UnitsOfThree();
    assert [65][1..] == [] && DecodeScalars([65]) == [65] + DecodeScalars([]);
  }

  lemma AtOnce(start: State)
    requires start.Valid() && start.need == 0
    ensures Run(start, [[226, 130, 65]]).1 == [REPLACEMENT, REPLACEMENT, 65]
  {
    var t: seq<Byte> := [226, 130, 65];
    var chunks := [t];
    assert chunks[1..] == [];
    assert t[0..] == t && t[1..] == [130, 65] && t[1..][1..] == [65] && t[2..][1..] == [];
    assert Cut(t, 0) == (0, 0);
    assert DecodeScalars([65]) == [65] + DecodeScalars([65][1..]);
    assert DecodeScalars([130, 65]) == [REPLACEMENT] + DecodeScalars([130, 65][1..]);
    assert DecodeScalars(t) == [REPLACEMENT, REPLACEMENT, 65];
    UnitsOfThree();
  }

  lemma UnitsOfThree()
    ensures Utf16([REPLACEMENT, REPLACEMENT, 65]) == [REPLACEMENT, REPLACEMENT, 65]
    ensures Utf16([65]) == [65]
  {
    var cs := [REPLACEMENT, REPLACEMENT, 65];
    assert cs[1..] == [REPLACEMENT, 65] && cs[1..][1..] == [65] && [65][1..] == [];
    assert Utf16([65]) == Units(65) + Utf16([]);
    assert Utf16([REPLACEMENT, 65]) == Units(REPLACEMENT) + Utf16([65]);
  }

  lemma InTwo(start: State)
    requires start.Valid() && start.need == 0
    ensures Run(start, [[226, 130], [65]]).1 == [REPLACEMENT, 65]
  {
    var p: seq<Byte>, t: seq<Byte> := [226, 130], [65];
    var chunks := [p, t];
    assert chunks[1..] == [t] && [t][1..] == [];
    assert Cut(p, 0) == (3, 1);
    assert p[0..0] == [] && Decode([]) == [];
    var s := Fed(start, p).0;
    assert Broken(1, t) == Some(0);
    assert t[0..] == t && Cut(t, 0) == (0, 0);
    assert DecodeScalars(t) == [65] + DecodeScalars(t[1..]);
    UnitsOfThree();
  }
}
