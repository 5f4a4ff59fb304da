/** The matcher of crates/simd-bmh: the `Pattern` descriptor and
    `find_all_matches_sse`, a two-phase scan.

    Phase A walks the text in 16-byte lanes. Every lane position whose byte,
    masked with the anchor mask, equals the anchor value names a candidate
    start `position - bestSkipOffset`, and the whole pattern is verified there.
    Phase B is a scalar Horspool scan of the tail that Phase A left.

    The functions below give the scan's meaning position by position; the
    method `FindAllMatchesSse` follows the source's loops and is proved to
    compute the same outcome. The source panics in two places (an unsigned
    subtraction that underflows, an index past the end of the text); both are
    an explicit `Panic` outcome here.
 */
module SimdBmh {
  import opened BmhTypes

  /** The descriptor (`Pattern<N>`). `bytes` and `masks` are the two arrays of
      length N; the other four fields describe the anchor token. */
  datatype Pattern = Pattern(
    bytes: seq<bv8>,
    masks: seq<bv8>,
    bestSkipValue: bv8,
    bestSkipMask: bv8,
    maxSkip: nat,
    bestSkipOffset: nat)
  {
    /** The const generic N is the length of both arrays. With N = 0 the tail
        loop adds 0 to its index after every (empty) hit and never ends, so
        every call the source can complete has N >= 1. */
    predicate Shaped() {
      |bytes| == |masks| && |bytes| >= 1
    }

    /** Every token is an exact byte. */
    predicate FullMask()
      requires Shaped()
    {
      forall k :: 0 <= k < |masks| ==> masks[k] == 0xFF
    }

    /** The anchor is a token of the pattern: the anchor mask is that token's
        mask and the anchor value its masked byte. */
    predicate RealAnchor()
      requires Shaped()
    {
      && bestSkipOffset < |bytes|
      && bestSkipMask == masks[bestSkipOffset]
      && bestSkipValue == bytes[bestSkipOffset] & masks[bestSkipOffset]
    }
  }

  /** Why a call ends in a panic. */
  datatype Fault =
    | SubtractionUnderflow(lanePos: nat)   // an anchor hit before the anchor offset
    | IndexOutOfBounds(index: nat)         // verification read past the text

  /** What a call returns: the offsets found, or the panic that aborts it. */
  datatype Outcome = Found(offsets: seq<nat>) | Panic(fault: Fault)

  /** The pattern occurs at `s`: the window fits and every token agrees with
      the text under its own mask. */
  predicate IsMatch(p: Pattern, text: seq<bv8>, s: int)
    requires p.Shaped()
  {
    && 0 <= s
    && s + |p.bytes| <= |text|
    && forall k :: 0 <= k < |p.bytes| ==> TokenAgrees(p, text, s, k)
  }

  /** Token `k` of the pattern agrees with the text byte at `s + k`. */
  predicate TokenAgrees(p: Pattern, text: seq<bv8>, s: int, k: int)
    requires p.Shaped()
  {
    0 <= k < |p.bytes| && 0 <= s + k < |text| && MaskedEq(text[s + k], p.bytes[k], p.masks[k])
  }

  /** The first index at which Phase A stops: the first multiple of 16 from
      which a whole lane no longer fits. */
  function LaneEnd(len: nat): (e: nat)
    ensures e % 16 == 0 && e <= len < e + 16
    ensures e == 0 <==> len < 16
  {
    len / 16 * 16
  }

  /** The lane comparison: position `q` is a candidate when its byte, masked
      with the anchor mask, equals the anchor value. */
  predicate AnchorHit(p: Pattern, text: seq<bv8>, q: nat)
    requires q < |text|
  {
    text[q] & p.bestSkipMask == p.bestSkipValue
  }

  /** How one verification pass ends. */
  datatype Check = Hit | Miss | OutOfRange(index: nat)

  /** The Phase A verification loop at start `s`, from token `k` on: the text
      byte is read before it is compared, so a read past the end comes first. */
  function Verify(p: Pattern, text: seq<bv8>, s: nat, k: nat): (c: Check)
    requires p.Shaped() && k <= |p.bytes|
    ensures c.OutOfRange? ==> |text| <= c.index < s + |p.bytes|
    decreases |p.bytes| - k
  {
    if k == |p.bytes| then Hit
    else if s + k >= |text| then OutOfRange(s + k)
    else if !MaskedEq(text[s + k], p.bytes[k], p.masks[k]) then Miss
    else Verify(p, text, s, k + 1)
  }

  /** Put `a` in front of the offsets of an outcome; a panic stays a panic. */
  function Prepend(a: seq<nat>, o: Outcome): Outcome {
    match o
    case Found(b) => Found(a + b)
    case Panic(f) => Panic(f)
  }

  /** Prepending twice is prepending the concatenation. */
  lemma PrependTwice(a: seq<nat>, b: seq<nat>, o: Outcome)
    ensures Prepend(a, Prepend(b, o)) == Prepend(a + b, o)
  {
    if o.Found? {
      assert a + (b + o.offsets) == (a + b) + o.offsets;
    }
  }

  /** Phase A from lane position `q` to the end of the last whole lane. */
  function ScanLanes(p: Pattern, text: seq<bv8>, q: nat): (r: Outcome)
    requires p.Shaped() && q <= LaneEnd(|text|)
    ensures r.Found? ==> |r.offsets| <= LaneEnd(|text|) - q
    ensures r.Panic? ==> q < LaneEnd(|text|)
    decreases LaneEnd(|text|) - q
  {
    if q == LaneEnd(|text|) then Found([])
    else if !AnchorHit(p, text, q) then ScanLanes(p, text, q + 1)
    else if q < p.bestSkipOffset then Panic(SubtractionUnderflow(q))
    else
      match Verify(p, text, q - p.bestSkipOffset, 0)
      case OutOfRange(ix) => Panic(IndexOutOfBounds(ix))
      case Miss => ScanLanes(p, text, q + 1)
      case Hit => Prepend([q - p.bestSkipOffset], ScanLanes(p, text, q + 1))
  }

  /** The Phase B shift after a mismatch whose last window byte is `c`: the
      distance from the right-most of tokens 0..N-2 whose RAW byte equals `c`
      to the last token, or N when there is none. Masks play no part. */
  function TailShift(p: Pattern, c: bv8): (shift: nat)
    requires p.Shaped()
    ensures 1 <= shift <= |p.bytes|
  {
    match LastIndexOf(p.bytes, c, |p.bytes| - 1)
    case None => |p.bytes|
    case Some(j) => |p.bytes| - 1 - j
  }

  /** Phase B from window start `i`: after a hit the scan moves past the whole
      window, after a miss by the tail shift of the window's last byte. */
  function Horspool(p: Pattern, text: seq<bv8>, i: nat): (r: seq<nat>)
    requires p.Shaped()
    ensures |r| > 0 ==> i <= r[0] && r[0] + |p.bytes| <= |text|
    decreases |text| - i
  {
    if i + |p.bytes| > |text| then []
    else if IsMatch(p, text, i) then [i] + Horspool(p, text, i + |p.bytes|)
    else Horspool(p, text, i + TailShift(p, text[i + |p.bytes| - 1]))
  }

  /** The whole call: the early exit, then Phase A, then Phase B from the
      index at which Phase A stopped. */
  function FindAll(p: Pattern, text: seq<bv8>): (r: Outcome)
    requires p.Shaped()
    ensures r.Panic? ==> |p.bytes| <= |text| && 16 <= |text|
  {
    if |p.bytes| > |text| then Found([])
    else
      match ScanLanes(p, text, 0)
      case Panic(f) => Panic(f)
      case Found(a) => Found(a + Horspool(p, text, LaneEnd(|text|)))
  }

  /** A Phase A candidate that aborts the call. */
  predicate Faults(p: Pattern, text: seq<bv8>, q: nat)
    requires p.Shaped()
  {
    && q < |text|
    && AnchorHit(p, text, q)
    && (q < p.bestSkipOffset || Verify(p, text, q - p.bestSkipOffset, 0).OutOfRange?)
  }

  /** All matches with start in [lo, hi), ascending. */
  function AllMatches(p: Pattern, text: seq<bv8>, lo: nat, hi: int): (r: seq<nat>)
    requires p.Shaped()
    ensures StrictlyIncreasing(r)
    ensures forall j :: 0 <= j < |r| ==> lo <= r[j] < hi
    ensures forall s: nat :: s in r <==> lo <= s < hi && IsMatch(p, text, s)
    decreases hi - lo
  {
    if hi <= lo then []
    else if IsMatch(p, text, lo) then [lo] + AllMatches(p, text, lo + 1, hi)
    else AllMatches(p, text, lo + 1, hi)
  }

  /** Left-most non-overlapping matches from `i` on: the reference a plain
      Horspool scan of exact bytes is meant to reproduce. */
  function GreedyMatches(p: Pattern, text: seq<bv8>, i: nat): seq<nat>
    requires p.Shaped()
    decreases |text| - i
  {
    if i + |p.bytes| > |text| then []
    else if IsMatch(p, text, i) then [i] + GreedyMatches(p, text, i + |p.bytes|)
    else GreedyMatches(p, text, i + 1)
  }

  /** Phase B after a hit at `i` records `i` and continues past the window
      (stated after the offsets `acc` already found). */
  lemma HorspoolHitStep(p: Pattern, text: seq<bv8>, i: nat, acc: seq<nat>)
    requires p.Shaped() && i + |p.bytes| <= |text| && IsMatch(p, text, i)
    ensures acc + Horspool(p, text, i) == (acc + [i]) + Horspool(p, text, i + |p.bytes|)
  {
    assert Horspool(p, text, i) == [i] + Horspool(p, text, i + |p.bytes|);
  }

  /** Phase B after a miss at `i` continues at `i + shift`. */
  lemma HorspoolMissStep(p: Pattern, text: seq<bv8>, i: nat, shift: nat)
    requires p.Shaped() && i + |p.bytes| <= |text| && !IsMatch(p, text, i)
    requires shift == TailShift(p, text[i + |p.bytes| - 1])
    ensures Horspool(p, text, i) == Horspool(p, text, i + shift)
  {
  }

  // ---------------------------------------------------------------------
  // The loops of find_all_matches_sse
  // ---------------------------------------------------------------------

  /** `(0..N-1).rev().find(|j| bytes[j] == c)` turned into a shift. */
  method MismatchShift(p: Pattern, c: bv8) returns (shift: nat)
    requires p.Shaped()
    ensures shift == TailShift(p, c)
    ensures 1 <= shift <= |p.bytes|
  {
    var n := |p.bytes|;
    var j := n - 1;
    var found := false;
    shift := n;
    while j > 0 && !found
      invariant 0 <= j <= n - 1
      invariant !found ==> shift == n && forall j' :: j <= j' < n - 1 ==> p.bytes[j'] != c
      invariant found ==> j < n - 1 && shift == n - 1 - j && p.bytes[j] == c
      invariant found ==> forall j' :: j < j' < n - 1 ==> p.bytes[j'] != c
      decreases j, !found
    {
      j := j - 1;
      if p.bytes[j] == c {
        shift := n - 1 - j;
        found := true;
      }
    }
    var last := LastIndexOf(p.bytes, c, n - 1);
    LastIndexOfSpec(p.bytes, c, n - 1);
    if found {
      assert last.Some? && last.value == j;
    } else {
      assert last.None?;
    }
  }

  /** The Phase A verification loop (a read past the end is reported, and
      turned into the panic by the caller). */
  method VerifyCandidate(p: Pattern, text: seq<bv8>, start: nat) returns (c: Check)
    requires p.Shaped()
    ensures c == Verify(p, text, start, 0)
  {
    var n := |p.bytes|;
    var k := 0;
    while k < n
      invariant 0 <= k <= n
      invariant Verify(p, text, start, 0) == Verify(p, text, start, k)
    {
      if start + k >= |text| {
        return OutOfRange(start + k);
      }
      if !MaskedEq(text[start + k], p.bytes[k], p.masks[k]) {
        return Miss;
      }
      k := k + 1;
    }
    return Hit;
  }

  /** The Phase B verification loop: the window lies inside the text, so every
      read is in bounds. */
  method WindowMatches(p: Pattern, text: seq<bv8>, start: nat) returns (b: bool)
    requires p.Shaped() && start + |p.bytes| <= |text|
    ensures b <==> IsMatch(p, text, start)
  {
    var n := |p.bytes|;
    var k := 0;
    while k < n
      invariant 0 <= k <= n
      invariant forall k' :: 0 <= k' < k ==> TokenAgrees(p, text, start, k')
    {
      if !MaskedEq(text[start + k], p.bytes[k], p.masks[k]) {
        assert !TokenAgrees(p, text, start, k);
        return false;
      }
      k := k + 1;
    }
    return true;
  }

  /** One lane position `q` of Phase A: either the panic that ends the call,
      or the offsets `add` it contributes (the start of its candidate when
      that matched, nothing otherwise). */
  method LanePosition(text: seq<bv8>, p: Pattern, q: nat)
    returns (stop: Option<Fault>, add: seq<nat>)
    requires p.Shaped() && q < LaneEnd(|text|)
    ensures stop.Some? ==> ScanLanes(p, text, q) == Panic(stop.value)
    ensures stop.None? ==> ScanLanes(p, text, q) == Prepend(add, ScanLanes(p, text, q + 1))
  {
    stop, add := None, [];
    if AnchorHit(p, text, q) {
      if q < p.bestSkipOffset {
        return Some(SubtractionUnderflow(q)), [];
      }
      var start := q - p.bestSkipOffset;
      var check := VerifyCandidate(p, text, start);
      if check.OutOfRange? {
        return Some(IndexOutOfBounds(check.index)), [];
      } else if check.Hit? {
        add := [start];
        return;
      }
    }
    PrependTwice([], [], ScanLanes(p, text, q + 1));
  }

  /** The 16 positions of the lane at `i`, after the offsets `acc` found so
      far, stopping at the first panic. */
  method ScanLane(text: seq<bv8>, p: Pattern, i: nat, acc: seq<nat>)
    returns (stop: Option<Fault>, acc': seq<nat>)
    requires p.Shaped() && i + 16 <= LaneEnd(|text|)
    ensures stop.Some? ==> Prepend(acc, ScanLanes(p, text, i)) == Panic(stop.value)
    ensures stop.None? ==>
      Prepend(acc, ScanLanes(p, text, i)) == Prepend(acc', ScanLanes(p, text, i + 16))
  {
    acc' := acc;
    var pos := 0;
    while pos < 16
      invariant 0 <= pos <= 16
      invariant Prepend(acc, ScanLanes(p, text, i)) == Prepend(acc', ScanLanes(p, text, i + pos))
    {
      var add;
      stop, add := LanePosition(text, p, i + pos);
      if stop.Some? {
        return;
      }
      PrependTwice(acc', add, ScanLanes(p, text, i + pos + 1));
      acc' := acc' + add;
      pos := pos + 1;
    }
    stop := None;
  }

  /** Phase A of `find_all_matches_sse`: every whole 16-byte lane, position by
      position, stopping at the first panic. */
  method ScanAllLanes(text: seq<bv8>, p: Pattern) returns (r: Outcome)
    requires p.Shaped()
    ensures r == ScanLanes(p, text, 0)
  {
    var matches: seq<nat> := [];
    var i := 0;
    assert Prepend([], ScanLanes(p, text, 0)) == ScanLanes(p, text, 0) by {
      PrependTwice([], [], ScanLanes(p, text, 0));
    }
    while i + 16 <= |text|
      invariant i % 16 == 0 && i <= LaneEnd(|text|)
      invariant ScanLanes(p, text, 0) == Prepend(matches, ScanLanes(p, text, i))
      decreases |text| - i
    {
      var stop;
      stop, matches := ScanLane(text, p, i, matches);
      if stop.Some? {
        return Panic(stop.value);
      }
      i := i + 16;
    }
    assert matches + [] == matches;
    return Found(matches);
  }

  /** `find_all_matches_sse`: the early exit, Phase A, then Phase B from the
      index at which Phase A stopped. */
  method FindAllMatchesSse(text: seq<bv8>, p: Pattern) returns (r: Outcome)
    requires p.Shaped()
    ensures r == FindAll(p, text)
  {
    var n := |p.bytes|;
    if n > |text| {
      return Found([]);
    }
    var phaseA := ScanAllLanes(text, p);
    if phaseA.Panic? {
      return phaseA;
    }
    var tail := ScanTail(text, p, LaneEnd(|text|));
    return Found(phaseA.offsets + tail);
  }

  /** One round of the Phase B loop at window start `i`: whether the window
      matches, and where the next window starts. */
  method TailRound(text: seq<bv8>, p: Pattern, i: nat) returns (hit: bool, next: nat)
    requires p.Shaped() && i + |p.bytes| <= |text|
    ensures hit <==> IsMatch(p, text, i)
    ensures next > i
    ensures hit ==> next == i + |p.bytes|
    ensures !hit ==> Horspool(p, text, i) == Horspool(p, text, next)
  {
    var n := |p.bytes|;
    hit := WindowMatches(p, text, i);
    if hit {
      next := i + n;
    } else {
      var mismatchByte := text[i + n - 1];
      var shift := MismatchShift(p, mismatchByte);
      HorspoolMissStep(p, text, i, shift);
      next := i + shift;
    }
  }

  /** Phase B of `find_all_matches_sse`: the scalar Horspool loop from `i0`. */
  method ScanTail(text: seq<bv8>, p: Pattern, i0: nat) returns (found: seq<nat>)
    requires p.Shaped()
    ensures found == Horspool(p, text, i0)
  {
    var n := |p.bytes|;
    var i: nat := i0;
    found := [];
    while i + n <= |text|
      invariant Horspool(p, text, i0) == found + Horspool(p, text, i)
      decreases |text| - i
    {
      var hit, next := TailRound(text, p, i);
      if hit {
        HorspoolHitStep(p, text, i, found);
        found := found + [i];
      }
      i := next;
    }
    assert found + [] == found;
  }

  /** `Pattern::find_all_matches` hands the text straight to the SSE scan. */
  method FindAllMatches(p: Pattern, text: seq<bv8>) returns (r: Outcome)
    requires p.Shaped()
    ensures r == FindAll(p, text)
  {
    r := FindAllMatchesSse(text, p);
  }

  // ---------------------------------------------------------------------
  // What the scan computes
  // ---------------------------------------------------------------------

  /** The verification pass from token `k`: it succeeds exactly when every
      remaining token lies inside the text and agrees with it, and it reads past
      the text exactly when some remaining token overhangs the text and every
      one before the overhang agrees. It stops at the first index past the
      text. */
  lemma {:induction false} VerifyMeaning(p: Pattern, text: seq<bv8>, s: nat, k: nat)
    requires p.Shaped() && k <= |p.bytes|
    ensures Verify(p, text, s, k) == Hit <==>
      forall k' :: k <= k' < |p.bytes| ==> TokenAgrees(p, text, s, k')
    ensures Verify(p, text, s, k).OutOfRange? <==>
      && k < |p.bytes| && s + |p.bytes| > |text|
      && forall k' :: k <= k' < |p.bytes| && s + k' < |text| ==> TokenAgrees(p, text, s, k')
    ensures Verify(p, text, s, k).OutOfRange? ==>
      Verify(p, text, s, k).index == (if s + k >= |text| then s + k else |text|)
    decreases |p.bytes| - k
  {
    if k < |p.bytes| {
      if s + k >= |text| {
        assert !TokenAgrees(p, text, s, k);
      } else if !MaskedEq(text[s + k], p.bytes[k], p.masks[k]) {
        assert !TokenAgrees(p, text, s, k);
      } else {
        VerifyMeaning(p, text, s, k + 1);
        assert TokenAgrees(p, text, s, k);
      }
    }
  }

  /** Phase A's verification accepts a candidate exactly when it is a match. */
  lemma VerifyHitIsMatch(p: Pattern, text: seq<bv8>, s: nat)
    requires p.Shaped()
    ensures Verify(p, text, s, 0) == Hit <==> IsMatch(p, text, s)
  {
    VerifyMeaning(p, text, s, 0);
    if Verify(p, text, s, 0) == Hit {
      assert TokenAgrees(p, text, s, |p.bytes| - 1);
    }
  }

  /** A Phase A position that does not panic contributes the start of its
      candidate exactly when the candidate passed verification. */
  lemma ScanLanesFoundStep(p: Pattern, text: seq<bv8>, q: nat)
    requires p.Shaped() && q < LaneEnd(|text|) && ScanLanes(p, text, q).Found?
    ensures ScanLanes(p, text, q + 1).Found?
    ensures AnchorHit(p, text, q) && q >= p.bestSkipOffset
              && Verify(p, text, q - p.bestSkipOffset, 0) == Hit ==>
      ScanLanes(p, text, q).offsets == [q - p.bestSkipOffset] + ScanLanes(p, text, q + 1).offsets
    ensures !(AnchorHit(p, text, q) && q >= p.bestSkipOffset
              && Verify(p, text, q - p.bestSkipOffset, 0) == Hit) ==>
      ScanLanes(p, text, q).offsets == ScanLanes(p, text, q + 1).offsets
  {
  }

  /** Every offset Phase A reports from lane position `q` on is a match whose
      anchor position lies in [q, LaneEnd) and passed the lane comparison. */
  lemma {:induction false} ScanLanesMatches(p: Pattern, text: seq<bv8>, q: nat)
    requires p.Shaped() && q <= LaneEnd(|text|)
    ensures ScanLanes(p, text, q).Found? ==>
      var a := ScanLanes(p, text, q).offsets;
      forall j :: 0 <= j < |a| ==>
        && IsMatch(p, text, a[j])
        && q <= a[j] + p.bestSkipOffset < LaneEnd(|text|)
        && AnchorHit(p, text, a[j] + p.bestSkipOffset)
    decreases LaneEnd(|text|) - q
  {
    if q < LaneEnd(|text|) && ScanLanes(p, text, q).Found? {
      ScanLanesFoundStep(p, text, q);
      ScanLanesMatches(p, text, q + 1);
      if AnchorHit(p, text, q) && q >= p.bestSkipOffset {
        VerifyHitIsMatch(p, text, q - p.bestSkipOffset);
      }
    }
  }

  /** Putting `x` in front of ascending offsets that all exceed it keeps them
      ascending. */
  lemma IncreasingCons(x: nat, r: seq<nat>)
    requires StrictlyIncreasing(r) && forall j :: 0 <= j < |r| ==> x < r[j]
    ensures StrictlyIncreasing([x] + r)
  {
    var r' := [x] + r;
    forall i, j | 0 <= i < j < |r'|
      ensures r'[i] < r'[j]
    {
      assert r'[j] == r[j - 1];
      if i > 0 {
        assert r'[i] == r[i - 1];
      }
    }
  }

  /** Phase A reports its offsets in strictly ascending order. */
  lemma {:induction false} ScanLanesIncreasing(p: Pattern, text: seq<bv8>, q: nat)
    requires p.Shaped() && q <= LaneEnd(|text|)
    ensures ScanLanes(p, text, q).Found? ==> StrictlyIncreasing(ScanLanes(p, text, q).offsets)
    decreases LaneEnd(|text|) - q
  {
    if q < LaneEnd(|text|) && ScanLanes(p, text, q).Found? {
      ScanLanesFoundStep(p, text, q);
      ScanLanesIncreasing(p, text, q + 1);
      if AnchorHit(p, text, q) && q >= p.bestSkipOffset && Verify(p, text, q - p.bestSkipOffset, 0) == Hit {
        ScanLanesMatches(p, text, q + 1);
        IncreasingCons(q - p.bestSkipOffset, ScanLanes(p, text, q + 1).offsets);
      }
    }
  }

  /** Every offset Phase A reports from lane position `q` on is a match whose
      anchor position lies in [q, LaneEnd) and passed the lane comparison; the
      offsets ascend strictly. */
  lemma ScanLanesSound(p: Pattern, text: seq<bv8>, q: nat)
    requires p.Shaped() && q <= LaneEnd(|text|)
    ensures ScanLanes(p, text, q).Found? ==>
      var a := ScanLanes(p, text, q).offsets;
      && StrictlyIncreasing(a)
      && forall j :: 0 <= j < |a| ==>
           && IsMatch(p, text, a[j])
           && q <= a[j] + p.bestSkipOffset < LaneEnd(|text|)
           && AnchorHit(p, text, a[j] + p.bestSkipOffset)
  {
    ScanLanesMatches(p, text, q);
    ScanLanesIncreasing(p, text, q);
  }

  /** The fault Phase A raises at a faulting lane position. */
  function FaultAt(p: Pattern, text: seq<bv8>, q: nat): Fault {
    if q < p.bestSkipOffset then SubtractionUnderflow(q) else IndexOutOfBounds(|text|)
  }

  /** One Phase A position and panics: a faulting position raises its own
      fault, any other one passes on the panic (or its absence) of the rest. */
  lemma ScanLanesPanicStep(p: Pattern, text: seq<bv8>, q: nat)
    requires p.Shaped() && q < LaneEnd(|text|)
    ensures Faults(p, text, q) ==> ScanLanes(p, text, q) == Panic(FaultAt(p, text, q))
    ensures !Faults(p, text, q) ==>
      && (ScanLanes(p, text, q).Panic? <==> ScanLanes(p, text, q + 1).Panic?)
      && (ScanLanes(p, text, q).Panic? ==> ScanLanes(p, text, q).fault == ScanLanes(p, text, q + 1).fault)
  {
    if AnchorHit(p, text, q) && q >= p.bestSkipOffset {
      VerifyMeaning(p, text, q - p.bestSkipOffset, 0);
    }
  }

  /** A faulting lane position at or after `q` makes Phase A panic. */
  lemma {:induction false} ScanLanesFaultPanics(p: Pattern, text: seq<bv8>, q: nat, q': nat)
    requires p.Shaped() && q <= q' < LaneEnd(|text|) && Faults(p, text, q')
    ensures ScanLanes(p, text, q).Panic?
    decreases q' - q
  {
    ScanLanesPanicStep(p, text, q);
    if q < q' && !Faults(p, text, q) {
      ScanLanesFaultPanics(p, text, q + 1, q');
    }
  }

  /** A Phase A panic is the fault of the first faulting lane position. */
  lemma {:induction false} ScanLanesFirstFault(p: Pattern, text: seq<bv8>, q: nat)
    requires p.Shaped() && q <= LaneEnd(|text|)
    ensures ScanLanes(p, text, q).Panic? ==>
      exists q' :: && q <= q' < LaneEnd(|text|) && Faults(p, text, q')
                   && (forall q'' :: q <= q'' < q' ==> !Faults(p, text, q''))
                   && ScanLanes(p, text, q).fault == FaultAt(p, text, q')
    decreases LaneEnd(|text|) - q
  {
    if q < LaneEnd(|text|) && ScanLanes(p, text, q).Panic? {
      ScanLanesPanicStep(p, text, q);
      if !Faults(p, text, q) {
        ScanLanesFirstFault(p, text, q + 1);
        var q' :| && q + 1 <= q' < LaneEnd(|text|) && Faults(p, text, q')
                  && (forall q'' :: q + 1 <= q'' < q' ==> !Faults(p, text, q''))
                  && ScanLanes(p, text, q + 1).fault == FaultAt(p, text, q');
        assert forall q'' :: q <= q'' < q' ==> !Faults(p, text, q'');
      }
    }
  }

  /** Phase A panics exactly when some lane position faults, and the panic is
      the fault of the first such position. */
  lemma ScanLanesPanics(p: Pattern, text: seq<bv8>, q: nat)
    requires p.Shaped() && q <= LaneEnd(|text|)
    ensures ScanLanes(p, text, q).Panic? <==>
      exists q' :: q <= q' < LaneEnd(|text|) && Faults(p, text, q')
    ensures ScanLanes(p, text, q).Panic? ==>
      exists q' :: && q <= q' < LaneEnd(|text|) && Faults(p, text, q')
                   && (forall q'' :: q <= q'' < q' ==> !Faults(p, text, q''))
                   && ScanLanes(p, text, q).fault == FaultAt(p, text, q')
  {
    ScanLanesFirstFault(p, text, q);
    if exists q' :: q <= q' < LaneEnd(|text|) && Faults(p, text, q') {
      var q' :| q <= q' < LaneEnd(|text|) && Faults(p, text, q');
      ScanLanesFaultPanics(p, text, q, q');
    }
  }

  /** Every offset Phase B reports from `i` on is a match at or after `i`. */
  lemma {:induction false} HorspoolMatches(p: Pattern, text: seq<bv8>, i: nat)
    requires p.Shaped()
    ensures forall j :: 0 <= j < |Horspool(p, text, i)| ==>
      IsMatch(p, text, Horspool(p, text, i)[j]) && i <= Horspool(p, text, i)[j]
    decreases |text| - i
  {
    var n := |p.bytes|;
    if i + n <= |text| {
      if IsMatch(p, text, i) {
        HorspoolMatches(p, text, i + n);
        HorspoolHitStep(p, text, i, []);
      } else {
        var shift := TailShift(p, text[i + n - 1]);
        HorspoolMatches(p, text, i + shift);
        HorspoolMissStep(p, text, i, shift);
      }
    }
  }

  /** Consecutive offsets lie at least `n` apart. */
  predicate Spaced(r: seq<nat>, n: nat) {
    forall j :: 0 <= j < |r| - 1 ==> r[j] + n <= r[j + 1]
  }

  /** Putting `x` in front of spaced offsets that start at least `n` past it
      keeps them spaced. */
  lemma SpacedCons(x: nat, r: seq<nat>, n: nat)
    requires Spaced(r, n) && (|r| > 0 ==> x + n <= r[0])
    ensures Spaced([x] + r, n)
  {
    var r' := [x] + r;
    forall j | 0 <= j < |r'| - 1
      ensures r'[j] + n <= r'[j + 1]
    {
      if j > 0 {
        assert r'[j] == r[j - 1] && r'[j + 1] == r[j];
      }
    }
  }

  /** Consecutive Phase B offsets lie at least N apart: the windows it reports
      never overlap. */
  lemma {:induction false} HorspoolDisjoint(p: Pattern, text: seq<bv8>, i: nat)
    requires p.Shaped()
    ensures Spaced(Horspool(p, text, i), |p.bytes|)
    decreases |text| - i
  {
    var n := |p.bytes|;
    if i + n <= |text| {
      if IsMatch(p, text, i) {
        var rest := Horspool(p, text, i + n);
        HorspoolDisjoint(p, text, i + n);
        SpacedCons(i, rest, n);
        HorspoolHitStep(p, text, i, []);
      } else {
        var shift := TailShift(p, text[i + n - 1]);
        HorspoolDisjoint(p, text, i + shift);
        HorspoolMissStep(p, text, i, shift);
      }
    }
  }

  /** Offsets at least `n >= 1` apart ascend strictly. */
  lemma {:induction false} SpacedIsIncreasing(r: seq<nat>, n: nat)
    requires n >= 1 && Spaced(r, n)
    ensures StrictlyIncreasing(r)
    decreases |r|
  {
    if |r| > 1 {
      assert Spaced(r[1..], n) by {
        forall j | 0 <= j < |r[1..]| - 1
          ensures r[1..][j] + n <= r[1..][j + 1]
        {
          assert r[1..][j] == r[j + 1] && r[1..][j + 1] == r[j + 2];
        }
      }
      SpacedIsIncreasing(r[1..], n);
      forall j | 1 <= j < |r|
        ensures r[0] < r[j]
      {
        assert r[1..][j - 1] == r[j];
        if j > 1 {
          assert r[1..][0] < r[1..][j - 1];
        }
      }
    }
  }

  /** Phase B reports matches at or after `i`, each starting at least N past
      the previous one, so they ascend strictly and never overlap. */
  lemma HorspoolSound(p: Pattern, text: seq<bv8>, i: nat)
    requires p.Shaped()
    ensures var r := Horspool(p, text, i);
      && (forall j :: 0 <= j < |r| ==> IsMatch(p, text, r[j]) && i <= r[j])
      && Spaced(r, |p.bytes|)
      && StrictlyIncreasing(r)
  {
    HorspoolMatches(p, text, i);
    HorspoolDisjoint(p, text, i);
    SpacedIsIncreasing(Horspool(p, text, i), |p.bytes|);
  }

  /** Soundness of the whole call: a short text gives no offsets, and every
      reported offset is a match, in strictly ascending order. */
  lemma FindAllSound(p: Pattern, text: seq<bv8>)
    requires p.Shaped()
    ensures |p.bytes| > |text| ==> FindAll(p, text) == Found([])
    ensures FindAll(p, text).Found? ==>
      && StrictlyIncreasing(FindAll(p, text).offsets)
      && forall j :: 0 <= j < |FindAll(p, text).offsets| ==> IsMatch(p, text, FindAll(p, text).offsets[j])
  {
    if |p.bytes| <= |text| && ScanLanes(p, text, 0).Found? {
      ScanLanesSound(p, text, 0);
      HorspoolSound(p, text, LaneEnd(|text|));
      var a := ScanLanes(p, text, 0).offsets;
      var b := Horspool(p, text, LaneEnd(|text|));
      IncreasingConcat(a, b, LaneEnd(|text|));
      forall j | 0 <= j < |a + b|
        ensures IsMatch(p, text, (a + b)[j])
      {
        if j >= |a| {
          assert (a + b)[j] == b[j - |a|];
        }
      }
    }
  }

  /** Two ascending runs separated by `m` ascend together. */
  lemma IncreasingConcat(a: seq<nat>, b: seq<nat>, m: nat)
    requires StrictlyIncreasing(a) && StrictlyIncreasing(b)
    requires forall j :: 0 <= j < |a| ==> a[j] < m
    requires forall j :: 0 <= j < |b| ==> m <= b[j]
    ensures StrictlyIncreasing(a + b)
  {
    var r := a + b;
    forall i, j | 0 <= i < j < |r|
      ensures r[i] < r[j]
    {
      if j < |a| {
      } else if i < |a| {
        assert r[i] == a[i] && r[j] == b[j - |a|];
      } else {
        assert r[i] == b[i - |a|] && r[j] == b[j - |a|];
      }
    }
  }

  /** The whole call panics exactly when the text is at least N long and some
      lane position faults. */
  lemma FindAllPanics(p: Pattern, text: seq<bv8>)
    requires p.Shaped()
    ensures FindAll(p, text).Panic? <==>
      |p.bytes| <= |text| && exists q :: 0 <= q < LaneEnd(|text|) && Faults(p, text, q)
  {
    ScanLanesPanics(p, text, 0);
  }

  /** With a real anchor, a candidate that Phase A skips is no match: the
      anchor token of a match always passes the lane comparison. */
  lemma MatchPassesAnchor(p: Pattern, text: seq<bv8>, s: nat)
    requires p.Shaped() && p.RealAnchor() && IsMatch(p, text, s)
    ensures AnchorHit(p, text, s + p.bestSkipOffset)
  {
    assert TokenAgrees(p, text, s, p.bestSkipOffset);
  }

  /** With a real anchor and no panic, Phase A from a lane position at or past
      the anchor offset reports exactly the matches whose anchor lies in the
      rest of the lanes. */
  lemma {:induction false} ScanLanesComplete(p: Pattern, text: seq<bv8>, q: nat)
    requires p.Shaped() && p.RealAnchor()
    requires p.bestSkipOffset <= q <= LaneEnd(|text|)
    ensures ScanLanes(p, text, q).Found? ==>
      ScanLanes(p, text, q).offsets ==
        AllMatches(p, text, q - p.bestSkipOffset, LaneEnd(|text|) - p.bestSkipOffset)
    decreases LaneEnd(|text|) - q
  {
    var off := p.bestSkipOffset;
    var hi := LaneEnd(|text|) - off;
    if q < LaneEnd(|text|) {
      ScanLanesComplete(p, text, q + 1);
      var s := q - off;
      VerifyHitIsMatch(p, text, s);
      if IsMatch(p, text, s) {
        MatchPassesAnchor(p, text, s);
      }
    }
  }

  /** With a real anchor, no lane position before the anchor offset may pass
      the lane comparison without a panic, so Phase A reports nothing there. */
  lemma {:induction false} ScanLanesBeforeAnchor(p: Pattern, text: seq<bv8>, q: nat)
    requires p.Shaped() && q <= p.bestSkipOffset && q <= LaneEnd(|text|)
    ensures var stop := if p.bestSkipOffset <= LaneEnd(|text|) then p.bestSkipOffset else LaneEnd(|text|);
      ScanLanes(p, text, q).Found? ==> ScanLanes(p, text, q) == ScanLanes(p, text, stop)
    decreases LaneEnd(|text|) - q
  {
    if q < p.bestSkipOffset && q < LaneEnd(|text|) {
      ScanLanesBeforeAnchor(p, text, q + 1);
    }
  }

  /** Phase A completeness: with a real anchor and no panic, Phase A reports
      exactly the matches `s` with `s + bestSkipOffset` inside the lanes. */
  lemma PhaseAComplete(p: Pattern, text: seq<bv8>)
    requires p.Shaped() && p.RealAnchor()
    ensures ScanLanes(p, text, 0).Found? ==>
      ScanLanes(p, text, 0).offsets == AllMatches(p, text, 0, LaneEnd(|text|) - p.bestSkipOffset)
  {
    ScanLanesBeforeAnchor(p, text, 0);
    if p.bestSkipOffset <= LaneEnd(|text|) {
      ScanLanesComplete(p, text, p.bestSkipOffset);
    } else {
      assert AllMatches(p, text, 0, LaneEnd(|text|) - p.bestSkipOffset) == [];
    }
  }

  /** The whole call with a real anchor: the matches whose anchor falls in a
      whole lane, then Phase B from the end of the lanes. */
  lemma FindAllRealAnchor(p: Pattern, text: seq<bv8>)
    requires p.Shaped() && p.RealAnchor() && |p.bytes| <= |text|
    ensures FindAll(p, text).Found? ==>
      FindAll(p, text).offsets ==
        AllMatches(p, text, 0, LaneEnd(|text|) - p.bestSkipOffset) + Horspool(p, text, LaneEnd(|text|))
    ensures FindAll(p, text).Found? ==>
      forall s: nat :: IsMatch(p, text, s) && s + p.bestSkipOffset < LaneEnd(|text|) ==>
        s in FindAll(p, text).offsets
  {
    PhaseAComplete(p, text);
    if FindAll(p, text).Found? {
      var a := AllMatches(p, text, 0, LaneEnd(|text|) - p.bestSkipOffset);
      forall s: nat | IsMatch(p, text, s) && s + p.bestSkipOffset < LaneEnd(|text|)
        ensures s in FindAll(p, text).offsets
      {
        assert s in a;
      }
    }
  }

  /** When the anchor is the last token, no candidate window can overhang the
      text, so Phase A never reads past it. */
  lemma LastTokenAnchorInBounds(p: Pattern, text: seq<bv8>, q: nat)
    requires p.Shaped() && p.bestSkipOffset == |p.bytes| - 1
    requires p.bestSkipOffset <= q < |text|
    ensures !Verify(p, text, q - p.bestSkipOffset, 0).OutOfRange?
  {
    VerifyMeaning(p, text, q - p.bestSkipOffset, 0);
  }

  // ---------------------------------------------------------------------
  // Phase B against left-most non-overlapping matching
  // ---------------------------------------------------------------------

  /** Horspool skip safety for exact-byte patterns: after a miss at `i` no
      window strictly between `i` and `i + shift` is a match. */
  lemma TailShiftSafe(p: Pattern, text: seq<bv8>, i: nat)
    requires p.Shaped() && p.FullMask() && i + |p.bytes| <= |text|
    ensures forall t :: i < t < i + TailShift(p, text[i + |p.bytes| - 1]) ==> !IsMatch(p, text, t)
  {
    var n := |p.bytes|;
    var c := text[i + n - 1];
    forall t | i < t < i + TailShift(p, c)
      ensures !IsMatch(p, text, t)
    {
      var k := n - 1 - (t - i);
      assert p.bytes[k] != c by {
        LastIndexOfSpec(p.bytes, c, n - 1);
        match LastIndexOf(p.bytes, c, n - 1)
        case None =>
        case Some(j) =>
      }
      assert p.masks[k] == 0xFF;
      assert !TokenAgrees(p, text, t, k);
    }
  }

  /** Skipping windows that hold no match does not change the left-most
      non-overlapping matches. */
  lemma {:induction false} GreedySkip(p: Pattern, text: seq<bv8>, i: nat, d: nat)
    requires p.Shaped()
    requires forall t :: i <= t < i + d ==> !IsMatch(p, text, t)
    ensures GreedyMatches(p, text, i) == GreedyMatches(p, text, i + d)
    decreases d
  {
    if d > 0 && i + |p.bytes| <= |text| {
      assert !IsMatch(p, text, i);
      GreedySkip(p, text, i + 1, d - 1);
    } else if d > 0 {
      assert i + d + |p.bytes| > |text|;
    }
  }

  /** For exact-byte patterns Phase B is left-most non-overlapping matching. */
  lemma {:induction false} HorspoolIsGreedy(p: Pattern, text: seq<bv8>, i: nat)
    requires p.Shaped() && p.FullMask()
    ensures Horspool(p, text, i) == GreedyMatches(p, text, i)
    decreases |text| - i, 1
  {
    if i + |p.bytes| <= |text| {
      if IsMatch(p, text, i) {
        GreedyAfterHit(p, text, i);
      } else {
        GreedyAfterMiss(p, text, i);
      }
    }
  }

  /** Both scans record a match at `i` and continue past its window. */
  lemma {:induction false} GreedyAfterHit(p: Pattern, text: seq<bv8>, i: nat)
    requires p.Shaped() && p.FullMask() && i + |p.bytes| <= |text| && IsMatch(p, text, i)
    ensures Horspool(p, text, i) == GreedyMatches(p, text, i)
    decreases |text| - i, 0
  {
    var n := |p.bytes|;
    assert Horspool(p, text, i) == [i] + Horspool(p, text, i + n);
    assert GreedyMatches(p, text, i) == [i] + GreedyMatches(p, text, i + n);
    HorspoolIsGreedy(p, text, i + n);
  }

  /** After a miss at `i` the tail shift jumps only over windows that
      left-most matching rejects one by one. */
  lemma {:induction false} GreedyAfterMiss(p: Pattern, text: seq<bv8>, i: nat)
    requires p.Shaped() && p.FullMask() && i + |p.bytes| <= |text| && !IsMatch(p, text, i)
    ensures Horspool(p, text, i) == GreedyMatches(p, text, i)
    decreases |text| - i, 0
  {
    var shift := TailShift(p, text[i + |p.bytes| - 1]);
    TailShiftSafe(p, text, i);
    GreedySkip(p, text, i, shift);
    HorspoolMissStep(p, text, i, shift);
    HorspoolIsGreedy(p, text, i + shift);
  }

  /** Left-most non-overlapping matching misses only matches that overlap a
      reported one: every match at or after `i` is reported or starts inside
      the window of an earlier reported match. */
  lemma {:induction false} GreedyCovers(p: Pattern, text: seq<bv8>, i: nat, s: nat)
    requires p.Shaped() && i <= s && IsMatch(p, text, s)
    ensures var r := GreedyMatches(p, text, i);
      s in r || exists j :: 0 <= j < |r| && r[j] < s < r[j] + |p.bytes|
    decreases |text| - i
  {
    var n := |p.bytes|;
    if i < s {
      if IsMatch(p, text, i) {
        if s < i + n {
          assert GreedyMatches(p, text, i)[0] == i;
        } else {
          GreedyCovers(p, text, i + n, s);
          var r' := GreedyMatches(p, text, i + n);
          if s !in r' {
            var j :| 0 <= j < |r'| && r'[j] < s < r'[j] + n;
            assert GreedyMatches(p, text, i)[j + 1] == r'[j];
          }
        }
      } else {
        GreedyCovers(p, text, i + 1, s);
      }
    }
  }

  /** The whole call for an exact-byte pattern with a real anchor: every match
      anchored inside the lanes, then the left-most non-overlapping matches of
      the tail. */
  lemma FindAllFullMask(p: Pattern, text: seq<bv8>)
    requires p.Shaped() && p.RealAnchor() && p.FullMask() && |p.bytes| <= |text|
    ensures FindAll(p, text).Found? ==>
      FindAll(p, text).offsets ==
        AllMatches(p, text, 0, LaneEnd(|text|) - p.bestSkipOffset) + GreedyMatches(p, text, LaneEnd(|text|))
  {
    FindAllRealAnchor(p, text);
    HorspoolIsGreedy(p, text, LaneEnd(|text|));
  }
}
