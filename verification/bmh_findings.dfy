/** Four places where the code misses a match or aborts on an input it
    accepts. For each: a concrete input on which the faithful model (the rest
    of this project) misbehaves, and a corrected definition with the intended
    property proved for all inputs.

    1. The Phase B mismatch shift compares the raw pattern byte with the text
       byte and ignores the masks, so it can jump over a match of a pattern
       with wildcards or nibbles. Corrected: `MaskedHorspool`.
    2. Phase A panics on an anchor hit before the anchor offset (unsigned
       underflow) and on a candidate window that overhangs the text.
       Corrected: `FixedScanLanes`, which skips such candidates.
    3. A literal with no exact-byte token after position 0 ("AA", but also
       nibble-only literals such as "A?C?") keeps the default anchor (byte
       0x00 under the full mask; `DefaultAnchorIffNoLaterExact`), so Phase
       A only looks at 0x00 bytes.
       Corrected: `FixedParsePattern`, which anchors on token 0 then.
    4. Phase B starts where the lanes end, so a match that starts in the last
       lane but whose anchor lies past it is never looked at.
       Corrected: `FixedFindAll`, whose Phase B starts `bestSkipOffset` earlier.
 */
module BmhFindings {
  import opened BmhTypes
  import opened SimdBmh
  import opened SimdBmhMacro
  import opened BmhExamples

  // ---------------------------------------------------------------------
  // The literals and texts of the counterexamples
  // ---------------------------------------------------------------------

  /** `n` copies of byte `b`. */
  function Fill(n: nat, b: bv8): (r: seq<bv8>)
    ensures |r| == n && forall i :: 0 <= i < n ==> r[i] == b
  {
    seq(n, i => b)
  }

  /** "AABB": two exact bytes, anchored on BB at offset 1. */
  const ExactPair: Pattern := Pattern([0xAA, 0xBB], [0xFF, 0xFF], 0xBB, 0xFF, 2, 1)

  /** "AABB??": the same with a trailing wildcard. */
  const ExactPairWild: Pattern := Pattern([0xAA, 0xBB, 0x00], [0xFF, 0xFF, 0x00], 0xBB, 0xFF, 2, 1)

  /** "??AA": a wildcard, then an exact byte that is the anchor. */
  const WildExact: Pattern := Pattern([0x00, 0xAA], [0x00, 0xFF], 0xAA, 0xFF, 2, 1)


  lemma TokenPairs()
    ensures ReadToken('A', Some('A')) == Success(Token(0xAA, 0xFF))
    ensures ReadToken('B', Some('B')) == Success(Token(0xBB, 0xFF))
    ensures ReadToken('?', Some('?')) == Success(Token(0x00, 0x00))
  {
    ExampleDigits();
  }

  lemma ParseExactPair()
    ensures ParsePattern("AABB").Success? && ParsePattern("AABB").value.pattern == ExactPair
  {
    var s := "AABB";
    var ts := [Token(0xAA, 0xFF), Token(0xBB, 0xFF)];
    StripSpacesKeepsSpaceFree(s);
    TokenPairs();
    assert s[2..][2..] == "" && [ts[1]] + [] == ts[1..];
    assert Tokenize(s[2..]) == Success(ts[1..]);
    assert [ts[0]] + ts[1..] == ts;
    assert Tokenize(s) == Success(ts);
    assert AnchorUpTo(ts, 1) == DefaultAnchor;
    assert TokenBytes(ts) == ExactPair.bytes && TokenMasks(ts) == ExactPair.masks;
  }

  lemma ParseExactPairWild()
    ensures ParsePattern("AABB??").Success? && ParsePattern("AABB??").value.pattern == ExactPairWild
  {
    var s := "AABB??";
    var ts := [Token(0xAA, 0xFF), Token(0xBB, 0xFF), Token(0x00, 0x00)];
    StripSpacesKeepsSpaceFree(s);
    TokenizeExactPairWild();
    ExactPairWildParts();
  }

  lemma ExactPairWildParts()
    ensures var ts := [Token(0xAA, 0xFF), Token(0xBB, 0xFF), Token(0x00, 0x00)];
      && SelectAnchor(ts) == Anchor(0xBB, 0xFF, 2, 1)
      && TokenBytes(ts) == ExactPairWild.bytes && TokenMasks(ts) == ExactPairWild.masks
  {
    var ts := [Token(0xAA, 0xFF), Token(0xBB, 0xFF), Token(0x00, 0x00)];
    assert AnchorUpTo(ts, 1) == DefaultAnchor;
    assert AnchorUpTo(ts, 2) == Anchor(0xBB, 0xFF, 2, 1);
  }

  lemma TokenizeExactPairWild()
    ensures Tokenize("AABB??") == Success([Token(0xAA, 0xFF), Token(0xBB, 0xFF), Token(0x00, 0x00)])
  {
    var s := "AABB??";
    var ts := [Token(0xAA, 0xFF), Token(0xBB, 0xFF), Token(0x00, 0x00)];
    TokenPairs();
    assert s[4..][2..] == "" && [ts[2]] + [] == ts[2..];
    assert Tokenize(s[4..]) == Success(ts[2..]);
    assert s[2..][2..] == s[4..] && [ts[1]] + ts[2..] == ts[1..];
    assert Tokenize(s[2..]) == Success(ts[1..]);
    assert [ts[0]] + ts[1..] == ts;
  }

  lemma ParseWildExact()
    ensures ParsePattern("??AA").Success? && ParsePattern("??AA").value.pattern == WildExact
  {
    var s := "??AA";
    var ts := [Token(0x00, 0x00), Token(0xAA, 0xFF)];
    StripSpacesKeepsSpaceFree(s);
    TokenPairs();
    assert s[2..][2..] == "" && [ts[1]] + [] == ts[1..];
    assert Tokenize(s[2..]) == Success(ts[1..]);
    assert [ts[0]] + ts[1..] == ts;
    assert Tokenize(s) == Success(ts);
    assert AnchorUpTo(ts, 1) == DefaultAnchor;
    assert TokenBytes(ts) == WildExact.bytes && TokenMasks(ts) == WildExact.masks;
  }

  /** Where Phase A stops on the texts of the counterexamples. */
  lemma LaneEnds()
    ensures LaneEnd(3) == 0 && LaneEnd(16) == 16 && LaneEnd(17) == 16
  {
  }

  /** Lane positions that fail the lane comparison contribute nothing. */
  lemma {:induction false} ScanLanesSkip(p: Pattern, text: seq<bv8>, a: nat, b: nat)
    requires p.Shaped() && a <= b <= LaneEnd(|text|)
    requires forall q :: a <= q < b ==> !AnchorHit(p, text, q)
    ensures ScanLanes(p, text, a) == ScanLanes(p, text, b)
    decreases b - a
  {
    if a < b {
      ScanLanesSkip(p, text, a + 1, b);
    }
  }

  // ---------------------------------------------------------------------
  // 1. The raw-byte mismatch shift
  // ---------------------------------------------------------------------

  /** "??AA" on BB CC AA: the window at 1 matches (the wildcard takes CC),
      but the window at 0 misses, its last byte CC equals no raw pattern
      byte, so Phase B shifts by 2 and never looks at 1. */
  lemma RawShiftSkipsMatch()
    ensures ParsePattern("??AA").Success? && ParsePattern("??AA").value.pattern == WildExact
    ensures IsMatch(WildExact, [0xBB, 0xCC, 0xAA], 1)
    ensures FindAll(WildExact, [0xBB, 0xCC, 0xAA]) == Found([])
  {
    ParseWildExact();
    var p, text := WildExact, [0xBB, 0xCC, 0xAA];
    LaneEnds();
    assert TokenAgrees(p, text, 1, 0) && TokenAgrees(p, text, 1, 1);
    assert !TokenAgrees(p, text, 0, 1);
    assert TailShift(p, 0xCC) == 2;
    assert Horspool(p, text, 0) == [];
  }

  /** The right-most of tokens 0 .. hi-1 that accepts byte `c` under its own
      mask (characterised by `LastAcceptingSpec`). */
  function LastAccepting(p: Pattern, c: bv8, hi: nat): (r: Option<nat>)
    requires p.Shaped() && hi <= |p.bytes|
    ensures r.Some? ==> r.value < hi
    decreases hi
  {
    if hi == 0 then None
    else if MaskedEq(c, p.bytes[hi - 1], p.masks[hi - 1]) then Some(hi - 1)
    else LastAccepting(p, c, hi - 1)
  }

  lemma {:induction false} LastAcceptingSpec(p: Pattern, c: bv8, hi: nat)
    requires p.Shaped() && hi <= |p.bytes|
    ensures var r := LastAccepting(p, c, hi);
      && (r.Some? ==> MaskedEq(c, p.bytes[r.value], p.masks[r.value]))
      && (forall j :: (if r.Some? then r.value else -1) < j < hi ==> !MaskedEq(c, p.bytes[j], p.masks[j]))
    decreases hi
  {
    if hi > 0 && !MaskedEq(c, p.bytes[hi - 1], p.masks[hi - 1]) {
      LastAcceptingSpec(p, c, hi - 1);
    }
  }

  /** For exact-byte patterns accepting a byte is being it, so the masked
      search finds what the source's raw-byte search finds. */
  lemma {:induction false} LastAcceptingExact(p: Pattern, c: bv8, hi: nat)
    requires p.Shaped() && p.FullMask() && hi <= |p.bytes|
    ensures LastAccepting(p, c, hi) == LastIndexOf(p.bytes, c, hi)
    decreases hi
  {
    if hi > 0 {
      assert p.masks[hi - 1] == 0xFF;
      assert MaskedEq(c, p.bytes[hi - 1], 0xFF) <==> c == p.bytes[hi - 1];
      LastAcceptingExact(p, c, hi - 1);
    }
  }

  /** The corrected mismatch shift: distance from the right-most of tokens
      0 .. N-2 that accepts the byte to the last token, or N. */
  function MaskedTailShift(p: Pattern, c: bv8): (shift: nat)
    requires p.Shaped()
    ensures 1 <= shift <= |p.bytes|
  {
    match LastAccepting(p, c, |p.bytes| - 1)
    case None => |p.bytes|
    case Some(j) => |p.bytes| - 1 - j
  }

  /** The corrected shift is the source's shift on exact-byte patterns. */
  lemma MaskedTailShiftExact(p: Pattern, c: bv8)
    requires p.Shaped() && p.FullMask()
    ensures MaskedTailShift(p, c) == TailShift(p, c)
  {
    LastAcceptingExact(p, c, |p.bytes| - 1);
  }

  /** Phase B with the corrected shift. */
  function MaskedHorspool(p: Pattern, text: seq<bv8>, i: nat): seq<nat>
    requires p.Shaped()
    decreases |text| - i
  {
    if i + |p.bytes| > |text| then []
    else if IsMatch(p, text, i) then [i] + MaskedHorspool(p, text, i + |p.bytes|)
    else MaskedHorspool(p, text, i + MaskedTailShift(p, text[i + |p.bytes| - 1]))
  }

  /** Skip safety for every pattern: no window strictly between `i` and
      `i + shift` is a match, because the token that would sit over the
      window's last byte rejects it. */
  lemma MaskedShiftSafe(p: Pattern, text: seq<bv8>, i: nat)
    requires p.Shaped() && i + |p.bytes| <= |text|
    ensures forall t :: i < t < i + MaskedTailShift(p, text[i + |p.bytes| - 1]) ==> !IsMatch(p, text, t)
  {
    var n := |p.bytes|;
    var c := text[i + n - 1];
    LastAcceptingSpec(p, c, n - 1);
    forall t | i < t < i + MaskedTailShift(p, c)
      ensures !IsMatch(p, text, t)
    {
      var k := n - 1 - (t - i);
      assert !MaskedEq(c, p.bytes[k], p.masks[k]);
      assert !TokenAgrees(p, text, t, k);
    }
  }

  /** The corrected Phase B is left-most non-overlapping matching, for every
      pattern, wildcards and nibbles included. */
  lemma {:induction false} MaskedHorspoolIsGreedy(p: Pattern, text: seq<bv8>, i: nat)
    requires p.Shaped()
    ensures MaskedHorspool(p, text, i) == GreedyMatches(p, text, i)
    decreases |text| - i, 1
  {
    if i + |p.bytes| <= |text| {
      if IsMatch(p, text, i) {
        MaskedAfterHit(p, text, i);
      } else {
        MaskedAfterMiss(p, text, i);
      }
    }
  }

  lemma {:induction false} MaskedAfterHit(p: Pattern, text: seq<bv8>, i: nat)
    requires p.Shaped() && i + |p.bytes| <= |text| && IsMatch(p, text, i)
    ensures MaskedHorspool(p, text, i) == GreedyMatches(p, text, i)
    decreases |text| - i, 0
  {
    var n := |p.bytes|;
    assert MaskedHorspool(p, text, i) == [i] + MaskedHorspool(p, text, i + n);
    assert GreedyMatches(p, text, i) == [i] + GreedyMatches(p, text, i + n);
    MaskedHorspoolIsGreedy(p, text, i + n);
  }

  lemma {:induction false} MaskedAfterMiss(p: Pattern, text: seq<bv8>, i: nat)
    requires p.Shaped() && i + |p.bytes| <= |text| && !IsMatch(p, text, i)
    ensures MaskedHorspool(p, text, i) == GreedyMatches(p, text, i)
    decreases |text| - i, 0
  {
    var shift := MaskedTailShift(p, text[i + |p.bytes| - 1]);
    MaskedShiftSafe(p, text, i);
    GreedySkip(p, text, i, shift);
    assert MaskedHorspool(p, text, i) == MaskedHorspool(p, text, i + shift);
    MaskedHorspoolIsGreedy(p, text, i + shift);
  }

  // ---------------------------------------------------------------------
  // 2. Phase A panics
  // ---------------------------------------------------------------------

  /** "AABB" on sixteen BB bytes: the anchor BB is hit at lane position 0,
      before its offset 1, and the subtraction underflows. "AABB??" on
      fourteen zero bytes then AA BB: the anchor is hit at 15, the candidate
      at 14 agrees on AA and BB, and its wildcard would be read at 16, past
      the end. */
  lemma PhaseAPanicExamples()
    ensures ParsePattern("AABB").Success? && ParsePattern("AABB").value.pattern == ExactPair
    ensures FindAll(ExactPair, Fill(16, 0xBB)) == Panic(SubtractionUnderflow(0))
    ensures ParsePattern("AABB??").Success? && ParsePattern("AABB??").value.pattern == ExactPairWild
    ensures FindAll(ExactPairWild, Fill(14, 0x00) + [0xAA, 0xBB]) == Panic(IndexOutOfBounds(16))
  {
    ParseExactPair();
    ParseExactPairWild();
    UnderflowExample();
    OverrunExample();
  }

  lemma UnderflowExample()
    ensures FindAll(ExactPair, Fill(16, 0xBB)) == Panic(SubtractionUnderflow(0))
  {
    LaneEnds();
    assert AnchorHit(ExactPair, Fill(16, 0xBB), 0);
  }

  lemma OverrunExample()
    ensures FindAll(ExactPairWild, Fill(14, 0x00) + [0xAA, 0xBB]) == Panic(IndexOutOfBounds(16))
  {
    var p, text := ExactPairWild, Fill(14, 0x00) + [0xAA, 0xBB];
    LaneEnds();
    assert |text| == 16;
    ScanLanesSkip(p, text, 0, 15);
    assert AnchorHit(p, text, 15);
    assert Verify(p, text, 14, 2) == OutOfRange(16);
    assert Verify(p, text, 14, 0) == OutOfRange(16);
  }

  /** Phase A that skips the candidates the source panics on: a lane
      position before the anchor offset, and a window that does not fit. */
  function FixedScanLanes(p: Pattern, text: seq<bv8>, q: nat): seq<nat>
    requires p.Shaped() && q <= LaneEnd(|text|)
    decreases LaneEnd(|text|) - q
  {
    if q == LaneEnd(|text|) then []
    else if AnchorHit(p, text, q) && q >= p.bestSkipOffset && IsMatch(p, text, q - p.bestSkipOffset)
    then [q - p.bestSkipOffset] + FixedScanLanes(p, text, q + 1)
    else FixedScanLanes(p, text, q + 1)
  }

  /** `a - b`, or 0 when `b` is larger. */
  function Monus(a: nat, b: nat): nat {
    if a >= b then a - b else 0
  }

  /** With a real anchor the corrected Phase A never panics and reports
      exactly the matches whose anchor lies in the rest of the lanes. */
  lemma {:induction false} FixedScanLanesAll(p: Pattern, text: seq<bv8>, q: nat)
    requires p.Shaped() && p.RealAnchor() && q <= LaneEnd(|text|)
    ensures FixedScanLanes(p, text, q) ==
      AllMatches(p, text, Monus(q, p.bestSkipOffset), Monus(LaneEnd(|text|), p.bestSkipOffset))
    decreases LaneEnd(|text|) - q
  {
    if q < LaneEnd(|text|) {
      FixedScanLanesAll(p, text, q + 1);
      if q >= p.bestSkipOffset {
        var s := q - p.bestSkipOffset;
        if IsMatch(p, text, s) {
          MatchPassesAnchor(p, text, s);
        }
      }
    }
  }

  // ---------------------------------------------------------------------
  // 3. The default anchor
  // ---------------------------------------------------------------------

  /** "AA" on sixteen AA bytes: every offset is a match, but the pattern
      keeps the default anchor 0x00, no lane byte is 0x00, and nothing is
      left for Phase B. */
  lemma DefaultAnchorMissesMatch()
    ensures ParsePattern("AA").Success? && ParsePattern("AA").value.pattern == SingleExact
    ensures IsMatch(SingleExact, Fill(16, 0xAA), 0)
    ensures FindAll(SingleExact, Fill(16, 0xAA)) == Found([])
  {
    ParseDefaultAnchorExample();
    var p, text := SingleExact, Fill(16, 0xAA);
    assert TokenAgrees(p, text, 0, 0);
    LaneEnds();
    ScanLanesSkip(p, text, 0, 16);
  }

  /** The default anchor survives exactly when no token after the first is
      an exact byte: nibble tokens never replace it, since its value 0x00 is
      not 0xFF. So "AA" and "A?C?" both keep it. */
  lemma DefaultAnchorIffNoLaterExact(ts: seq<Token>)
    requires forall i :: 0 <= i < |ts| ==> ValidToken(ts[i])
    ensures SelectAnchor(ts) == DefaultAnchor <==> forall i :: 1 <= i < |ts| ==> ts[i].mask != 0xFF
  {
    AnchorUpToIsChoice(ts, |ts|);
  }

  /** The compiler with the anchor falling back to token 0 (under its own
      mask) when no later token was chosen. */
  function FixedParsePattern(literal: string): Result<Compiled, CompileError> {
    match ParsePattern(literal)
    case Failure(e) => Failure(e)
    case Success(c) =>
      var p := c.pattern;
      if p.maxSkip > 1 then Success(c)
      else Success(c.(pattern := p.(bestSkipValue := p.bytes[0] & p.masks[0], bestSkipMask := p.masks[0])))
  }

  /** The corrected compiler accepts what the source accepts and gives the
      same tokens and shift table, and its anchor is always a real one. */
  lemma FixedParseRealAnchor(literal: string)
    ensures FixedParsePattern(literal).Success? <==> ParsePattern(literal).Success?
    ensures FixedParsePattern(literal).Success? ==>
      var c, c' := ParsePattern(literal).value, FixedParsePattern(literal).value;
      && c'.pattern.Shaped() && c'.pattern.RealAnchor()
      && c'.pattern.bytes == c.pattern.bytes && c'.pattern.masks == c.pattern.masks
      && c'.shiftTable == c.shiftTable
  {
    ParsePatternShape(literal);
    ParsePatternAnchor(literal);
  }

  // ---------------------------------------------------------------------
  // 4. The gap between the lanes and Phase B
  // ---------------------------------------------------------------------

  /** "AABB" on fifteen zero bytes then AA BB: the match at 15 starts in the
      only lane, its anchor BB is at 16, past the lane, and Phase B starts
      at 16, where the pattern no longer fits. */
  lemma LaneBoundaryMissesMatch()
    ensures ParsePattern("AABB").Success? && ParsePattern("AABB").value.pattern == ExactPair
    ensures IsMatch(ExactPair, Fill(15, 0x00) + [0xAA, 0xBB], 15)
    ensures FindAll(ExactPair, Fill(15, 0x00) + [0xAA, 0xBB]) == Found([])
  {
    ParseExactPair();
    LaneBoundaryMatch();
    LaneBoundaryResult();
  }

  lemma LaneBoundaryMatch()
    ensures IsMatch(ExactPair, Fill(15, 0x00) + [0xAA, 0xBB], 15)
  {
    var p, text := ExactPair, Fill(15, 0x00) + [0xAA, 0xBB];
    assert TokenAgrees(p, text, 15, 0) && TokenAgrees(p, text, 15, 1);
  }

  lemma LaneBoundaryResult()
    ensures FindAll(ExactPair, Fill(15, 0x00) + [0xAA, 0xBB]) == Found([])
  {
    var p, text := ExactPair, Fill(15, 0x00) + [0xAA, 0xBB];
    LaneEnds();
    assert |text| == 17;
    ScanLanesSkip(p, text, 0, 16);
  }

  /** Where the corrected Phase B starts: `bestSkipOffset` before the end of
      the lanes, right after the last start Phase A can report. */
  function TailStart(p: Pattern, len: nat): nat {
    Monus(LaneEnd(len), p.bestSkipOffset)
  }

  /** The corrected matcher: the corrected Phase A, then the corrected
      Phase B from `TailStart`. It has no panic outcome. */
  function FixedFindAll(p: Pattern, text: seq<bv8>): seq<nat>
    requires p.Shaped()
  {
    if |p.bytes| > |text| then []
    else FixedScanLanes(p, text, 0) + MaskedHorspool(p, text, TailStart(p, |text|))
  }

  /** With a real anchor the corrected matcher reports every match before
      `TailStart` and then the left-most non-overlapping matches from there. */
  lemma FixedFindAllComplete(p: Pattern, text: seq<bv8>)
    requires p.Shaped() && p.RealAnchor()
    ensures FixedFindAll(p, text) ==
      AllMatches(p, text, 0, TailStart(p, |text|)) + GreedyMatches(p, text, TailStart(p, |text|))
  {
    var start := TailStart(p, |text|);
    MaskedHorspoolIsGreedy(p, text, start);
    if |p.bytes| > |text| {
      NoMatchesInShortText(p, text, 0, start);
      assert GreedyMatches(p, text, start) == [];
    } else {
      FixedScanLanesAll(p, text, 0);
    }
  }

  /** A text shorter than the pattern holds no match. */
  lemma {:induction false} NoMatchesInShortText(p: Pattern, text: seq<bv8>, lo: nat, hi: int)
    requires p.Shaped() && |p.bytes| > |text|
    ensures AllMatches(p, text, lo, hi) == []
    decreases hi - lo
  {
    if lo < hi {
      NoMatchesInShortText(p, text, lo + 1, hi);
    }
  }

  /** Nothing is lost: every match is reported or starts inside the window
      of a reported match. */
  lemma FixedFindAllCovers(p: Pattern, text: seq<bv8>, s: nat)
    requires p.Shaped() && p.RealAnchor() && IsMatch(p, text, s)
    ensures var r := FixedFindAll(p, text);
      s in r || exists j :: 0 <= j < |r| && r[j] < s < r[j] + |p.bytes|
  {
    var start := TailStart(p, |text|);
    FixedFindAllComplete(p, text);
    var a := AllMatches(p, text, 0, start);
    var g := GreedyMatches(p, text, start);
    if s >= start {
      GreedyCovers(p, text, start, s);
      if s !in g {
        var j :| 0 <= j < |g| && g[j] < s < g[j] + |p.bytes|;
        assert (a + g)[|a| + j] == g[j];
      }
    }
  }

  /** The corrected compiler and matcher together: for every literal that
      compiles and every text, every match is reported or overlaps a
      reported one, and no call panics. */
  lemma FixedPipeline(literal: string, text: seq<bv8>, s: nat)
    requires FixedParsePattern(literal).Success?
    requires var p := FixedParsePattern(literal).value.pattern; p.Shaped() && IsMatch(p, text, s)
    ensures var p := FixedParsePattern(literal).value.pattern;
      var r := FixedFindAll(p, text);
      s in r || exists j :: 0 <= j < |r| && r[j] < s < r[j] + |p.bytes|
  {
    FixedParseRealAnchor(literal);
    FixedFindAllCovers(FixedParsePattern(literal).value.pattern, text, s);
  }
}
