/** The pattern compiler of `parse_pattern`: a pattern literal such as
    "F? ?3 CC ??" becomes the `Pattern` record the matcher consumes, plus the
    256-entry Horspool shift table the macro also computes.

    Compilation failures (the macro's panics) are `Failure` results. The
    anchor is chosen while tokens are read; since the choice only looks at
    tokens already read and any later token error aborts the whole
    compilation, the model folds the anchor over the finished token list.
 */
module SimdBmhMacro {
  import opened BmhTypes
  import opened SimdBmh

  /** One two-character pattern token: the byte to compare and which of its
      bits take part. */
  datatype Token = Token(byte: bv8, mask: bv8)

  /** Why a literal does not compile. */
  datatype CompileError =
    | EmptyPattern           // nothing left after removing spaces
    | InvalidToken(ch: char) // the first character of a pair no arm accepts

  /** A token the syntax can produce: one of the four masks, and no bit set
      outside the mask. */
  predicate ValidToken(t: Token) {
    IsTokenMask(t.mask) && t.byte & t.mask == t.byte
  }

  // ---------------------------------------------------------------------
  // Characters
  // ---------------------------------------------------------------------

  /** Rust's `is_ascii_hexdigit`. */
  predicate IsHexDigit(c: char) {
    ('0' <= c <= '9') || ('a' <= c <= 'f') || ('A' <= c <= 'F')
  }

  /** A character that may appear in a token: a hex digit or the wildcard. */
  predicate IsPatternChar(c: char) {
    c == '?' || IsHexDigit(c)
  }

  /** `u8::from_str_radix` on one hex digit. */
  function HexValue(c: char): (v: bv8)
    requires IsHexDigit(c)
    ensures v < 16
  {
    if '0' <= c <= '9' then (c as int - '0' as int) as bv8
    else if 'a' <= c <= 'f' then (c as int - 'a' as int + 10) as bv8
    else (c as int - 'A' as int + 10) as bv8
  }

  /** The upper-case hex digit of a nibble. */
  function HexDigit(v: bv8): (c: char)
    requires v < 16
    ensures IsHexDigit(c)
  {
    "0123456789ABCDEF"[v as int]
  }

  /** Reading back a written digit gives the nibble it was written from. */
  lemma HexDigitRoundTrip(v: bv8)
    requires v < 16
    ensures HexValue(HexDigit(v)) == v
  {
    assert v == 0 || v == 1 || v == 2 || v == 3 || v == 4 || v == 5 || v == 6 || v == 7
        || v == 8 || v == 9 || v == 10 || v == 11 || v == 12 || v == 13 || v == 14 || v == 15;
  }

  /** Reading a digit of either case gives the nibble whose upper-case digit
      it is, so a lower-case letter names the same nibble as its capital. */
  lemma HexValueNamesDigit(c: char)
    requires IsHexDigit(c)
    ensures HexDigit(HexValue(c)) == if 'a' <= c <= 'f' then (c as int - 32) as char else c
  {
  }

  /** `value().replace(" ", "")`: every space is removed, nothing else. */
  function StripSpaces(s: string): (r: string)
    ensures |r| <= |s|
    decreases |s|
  {
    if |s| == 0 then ""
    else if s[0] == ' ' then StripSpaces(s[1..]) else [s[0]] + StripSpaces(s[1..])
  }

  /** Removing spaces works piece by piece and keeps the order of what
      stays; a string without spaces is left as it is. */
  lemma {:induction false} StripSpacesAppend(a: string, b: string)
    ensures StripSpaces(a + b) == StripSpaces(a) + StripSpaces(b)
    decreases |a|
  {
    if |a| > 0 {
      assert (a + b)[1..] == a[1..] + b;
      StripSpacesAppend(a[1..], b);
    } else {
      assert a + b == b;
    }
  }

  lemma {:induction false} StripSpacesKeepsSpaceFree(s: string)
    requires ' ' !in s
    ensures StripSpaces(s) == s
    decreases |s|
  {
    if |s| > 0 {
      StripSpacesKeepsSpaceFree(s[1..]);
    }
  }

  // ---------------------------------------------------------------------
  // Tokens
  // ---------------------------------------------------------------------

  /** The four arms of the token `match`, tried in order, on a character and
      the one after it; anything else is the token error, reported with the
      first character. */
  function ReadToken(ch: char, next: Option<char>): (r: Result<Token, CompileError>)
    ensures r.Success? <==> next.Some? && IsPatternChar(ch) && IsPatternChar(next.value)
    ensures r.Success? ==> ValidToken(r.value)
    ensures r.Failure? ==> r.error == InvalidToken(ch)
  {
    match next
    case None => Failure(InvalidToken(ch))
    case Some(c2) =>
      if ch == '?' && c2 == '?' then Success(Token(0x00, 0x00))
      else if ch == '?' && IsHexDigit(c2) then Success(Token(HexValue(c2), 0x0F))
      else if IsHexDigit(ch) && c2 == '?' then Success(Token(HexValue(ch) << 4, 0xF0))
      else if IsHexDigit(ch) && IsHexDigit(c2) then Success(Token(HexValue(ch) * 16 + HexValue(c2), 0xFF))
      else Failure(InvalidToken(ch))
  }

  /** What a token accepts: a text byte agrees with the token read from
      `c1 c2` exactly when each hex digit names the corresponding nibble of
      the byte; a `?` accepts any nibble. */
  lemma ReadTokenMeaning(c1: char, c2: char, b: bv8)
    requires IsPatternChar(c1) && IsPatternChar(c2)
    ensures var t := ReadToken(c1, Some(c2)).value;
      MaskedEq(b, t.byte, t.mask) <==>
        && (c1 == '?' || HexValue(c1) == b >> 4)
        && (c2 == '?' || HexValue(c2) == b & 0x0F)
  {
  }

  /** Read the whole stripped literal two characters at a time. */
  function Tokenize(s: string): (r: Result<seq<Token>, CompileError>)
    ensures r.Success? ==> |s| == 2 * |r.value|
    ensures r.Failure? ==> r.error.InvalidToken?
    decreases |s|
  {
    if |s| == 0 then Success([])
    else
      match ReadToken(s[0], if |s| >= 2 then Some(s[1]) else None)
      case Failure(e) => Failure(e)
      case Success(t) =>
        match Tokenize(s[2..])
        case Failure(e) => Failure(e)
        case Success(ts) => Success([t] + ts)
  }

  /** The tokenizer accepts exactly the strings of even length made of hex
      digits and `?`, and token `i` is read from characters `2i` and `2i+1`. */
  lemma {:induction false} TokenizeAccepts(s: string)
    ensures Tokenize(s).Success? <==>
      |s| % 2 == 0 && forall i :: 0 <= i < |s| ==> IsPatternChar(s[i])
    ensures Tokenize(s).Success? ==>
      forall i :: 0 <= i < |Tokenize(s).value| ==>
        Success(Tokenize(s).value[i]) == ReadToken(s[2 * i], Some(s[2 * i + 1]))
    decreases |s|
  {
    if |s| >= 2 {
      TokenizeAccepts(s[2..]);
      assert forall i :: 2 <= i < |s| ==> s[2..][i - 2] == s[i];
      var r := ReadToken(s[0], Some(s[1]));
      if r.Success? && Tokenize(s[2..]).Success? {
        var ts := Tokenize(s[2..]).value;
        assert Tokenize(s).value == [r.value] + ts;
        forall i | 1 <= i < |ts| + 1
          ensures Success(Tokenize(s).value[i]) == ReadToken(s[2 * i], Some(s[2 * i + 1]))
        {
          assert s[2 * i] == s[2..][2 * (i - 1)] && s[2 * i + 1] == s[2..][2 * (i - 1) + 1];
        }
      }
    } else if |s| == 1 {
      assert |s| % 2 == 1;
    }
  }

  /** Every token of a compiled literal is well formed. */
  lemma {:induction false} TokenizeValid(s: string)
    ensures Tokenize(s).Success? ==> forall i :: 0 <= i < |Tokenize(s).value| ==> ValidToken(Tokenize(s).value[i])
    decreases |s|
  {
    if |s| >= 2 {
      TokenizeValid(s[2..]);
    }
  }

  /** Position `i` starts the first pair that no arm accepts: every
      character before it may appear in a token, and the pair at `i` is
      unpaired or holds a character that may not. */
  predicate FirstBadPair(s: string, i: nat) {
    && i < |s| && i % 2 == 0
    && (i + 1 == |s| || !IsPatternChar(s[i]) || !IsPatternChar(s[i + 1]))
    && forall j :: 0 <= j < i ==> IsPatternChar(s[j])
  }

  /** A failing literal reports the first character of the first pair that
      no arm accepts. */
  lemma {:induction false} TokenizeError(s: string)
    ensures Tokenize(s).Failure? ==>
      exists i: nat :: FirstBadPair(s, i) && Tokenize(s).error == InvalidToken(s[i])
    decreases |s|
  {
    if |s| >= 2 && ReadToken(s[0], Some(s[1])).Success? {
      TokenizeError(s[2..]);
      if Tokenize(s).Failure? {
        var i: nat :| FirstBadPair(s[2..], i) && Tokenize(s[2..]).error == InvalidToken(s[2..][i]);
        assert forall j :: 2 <= j < |s| ==> s[j] == s[2..][j - 2];
        assert FirstBadPair(s, i + 2);
      }
    } else if |s| >= 1 {
      assert FirstBadPair(s, 0);
    }
  }

  // ---------------------------------------------------------------------
  // Writing a token list back as a literal
  // ---------------------------------------------------------------------

  /** The canonical two characters of a well-formed token. */
  function RenderToken(t: Token): (s: string)
    requires ValidToken(t)
    ensures |s| == 2 && IsPatternChar(s[0]) && IsPatternChar(s[1])
  {
    if t.mask == 0x00 then "??"
    else if t.mask == 0x0F then ['?', HexDigit(t.byte)]
    else if t.mask == 0xF0 then [HexDigit(t.byte >> 4), '?']
    else [HexDigit(t.byte >> 4), HexDigit(t.byte & 0x0F)]
  }

  /** A token list written as a literal, without spaces. */
  function Render(ts: seq<Token>): (s: string)
    requires forall i :: 0 <= i < |ts| ==> ValidToken(ts[i])
    ensures |s| == 2 * |ts|
  {
    if |ts| == 0 then "" else RenderToken(ts[0]) + Render(ts[1..])
  }

  /** Reading a rendered token gives the token back. */
  lemma ReadRenderedToken(t: Token)
    requires ValidToken(t)
    ensures ReadToken(RenderToken(t)[0], Some(RenderToken(t)[1])) == Success(t)
  {
    if t.mask == 0x0F {
      ReadRenderedLowNibble(t);
    } else if t.mask == 0xF0 {
      ReadRenderedHighNibble(t);
    } else if t.mask == 0xFF {
      ReadRenderedExact(t);
    }
  }

  lemma ReadRenderedLowNibble(t: Token)
    requires ValidToken(t) && t.mask == 0x0F
    ensures ReadToken('?', Some(HexDigit(t.byte))) == Success(t)
  {
    HexDigitRoundTrip(t.byte);
  }

  lemma ReadRenderedHighNibble(t: Token)
    requires ValidToken(t) && t.mask == 0xF0
    ensures t.byte >> 4 < 16
    ensures ReadToken(HexDigit(t.byte >> 4), Some('?')) == Success(t)
  {
    var hi := t.byte >> 4;
    HexDigitRoundTrip(hi);
    assert hi << 4 == t.byte;
  }

  lemma ReadRenderedExact(t: Token)
    requires ValidToken(t) && t.mask == 0xFF
    ensures t.byte >> 4 < 16 && t.byte & 0x0F < 16
    ensures ReadToken(HexDigit(t.byte >> 4), Some(HexDigit(t.byte & 0x0F))) == Success(t)
  {
    var hi, lo := t.byte >> 4, t.byte & 0x0F;
    HexDigitRoundTrip(hi);
    HexDigitRoundTrip(lo);
    NibbleSplit(t.byte);
  }

  /** A byte is its high nibble times sixteen plus its low nibble. */
  lemma NibbleSplit(b: bv8)
    ensures b >> 4 < 16 && b & 0x0F < 16
    ensures (b >> 4) * 16 + (b & 0x0F) == b
  {
  }

  /** Every well-formed token list is the compilation of its rendering. */
  lemma {:induction false} TokenizeRender(ts: seq<Token>)
    requires forall i :: 0 <= i < |ts| ==> ValidToken(ts[i])
    ensures Tokenize(Render(ts)) == Success(ts)
    decreases |ts|
  {
    if |ts| > 0 {
      var s := Render(ts);
      TokenizeRender(ts[1..]);
      ReadRenderedToken(ts[0]);
      assert s[0] == RenderToken(ts[0])[0] && s[1] == RenderToken(ts[0])[1];
      assert s[2..] == Render(ts[1..]);
      assert ts == [ts[0]] + ts[1..];
    }
  }

  // ---------------------------------------------------------------------
  // The anchor
  // ---------------------------------------------------------------------

  /** The four anchor variables `best_skip_value`, `best_skip_mask`,
      `max_skip` and `best_skip_offset`. */
  datatype Anchor = Anchor(value: bv8, mask: bv8, maxSkip: nat, offset: nat)

  /** Their initial values: byte 0x00 under the full mask at offset 0. */
  const DefaultAnchor := Anchor(0x00, 0xFF, 1, 0)

  /** The anchor update after reading token `t` at position `pos`: wildcard
      tokens are ignored, an exact token replaces the anchor when `pos + 1`
      beats `max_skip`, and a nibble token does so only when in addition the
      current value is 0xFF (the source's `!best_skip_value == 0`). */
  function AnchorStep(a: Anchor, pos: nat, t: Token): (r: Anchor)
    ensures || r == a
            || (&& t.mask != 0x00 && a.maxSkip < pos + 1
                && r == Anchor(t.byte, t.mask, pos + 1, pos))
  {
    if t.mask == 0x00 then a
    else
      var skip := pos + 1;
      if t.mask == 0xFF then
        if skip > a.maxSkip then Anchor(t.byte, t.mask, skip, pos) else a
      else if t.mask == 0xF0 || t.mask == 0x0F then
        if !a.value == 0 && skip > a.maxSkip then Anchor(t.byte, t.mask, skip, pos) else a
      else a
  }

  /** The anchor after the first `n` tokens. */
  function AnchorUpTo(ts: seq<Token>, n: nat): (r: Anchor)
    requires n <= |ts|
    ensures r.maxSkip == r.offset + 1
    ensures r.offset == 0 || r.offset < n
  {
    if n == 0 then DefaultAnchor else AnchorStep(AnchorUpTo(ts, n - 1), n - 1, ts[n - 1])
  }

  /** The anchor of a whole token list. */
  function SelectAnchor(ts: seq<Token>): (r: Anchor)
    ensures r.maxSkip == r.offset + 1
    ensures |ts| >= 1 ==> r.offset < |ts|
  {
    AnchorUpTo(ts, |ts|)
  }

  /** The last exact-byte token among positions 1 .. n-1. */
  function LastExact(ts: seq<Token>, n: nat): (r: Option<nat>)
    requires n <= |ts|
    ensures r.Some? ==> 1 <= r.value < n && ts[r.value].mask == 0xFF
    ensures r.Some? ==> forall j :: r.value < j < n ==> ts[j].mask != 0xFF
    ensures r.None? ==> forall j :: 1 <= j < n ==> ts[j].mask != 0xFF
  {
    if n <= 1 then None
    else if ts[n - 1].mask == 0xFF then Some(n - 1)
    else LastExact(ts, n - 1)
  }

  /** The first nibble token among positions lo .. n-1. */
  function FirstNibble(ts: seq<Token>, lo: nat, n: nat): (r: Option<nat>)
    requires n <= |ts|
    ensures r.Some? ==> lo <= r.value < n && IsNibbleMask(ts[r.value].mask)
    ensures r.Some? ==> forall j :: lo <= j < r.value ==> !IsNibbleMask(ts[j].mask)
    ensures r.None? ==> forall j :: lo <= j < n ==> !IsNibbleMask(ts[j].mask)
    decreases n - lo
  {
    if n <= lo then None
    else if IsNibbleMask(ts[lo].mask) then Some(lo)
    else FirstNibble(ts, lo + 1, n)
  }

  /** Which token the anchor ends on, stated without the fold: the last
      exact-byte token after position 0; but if that token is the byte 0xFF,
      the first nibble token after it takes over. No such exact token means
      the default anchor. */
  function AnchorChoice(ts: seq<Token>, n: nat): (r: Option<nat>)
    requires n <= |ts|
    ensures r.Some? ==> 1 <= r.value < n
  {
    match LastExact(ts, n)
    case None => None
    case Some(j) =>
      if ts[j].byte != 0xFF then Some(j)
      else match FirstNibble(ts, j + 1, n)
        case None => Some(j)
        case Some(k) => Some(k)
  }

  /** The anchor built from a chosen token. */
  function AnchorAt(ts: seq<Token>, o: Option<nat>): Anchor
    requires o.Some? ==> o.value < |ts|
  {
    match o
    case None => DefaultAnchor
    case Some(k) => Anchor(ts[k].byte, ts[k].mask, k + 1, k)
  }

  /** The fold of anchor updates agrees with the direct description of the
      chosen token. */
  lemma {:induction false} AnchorUpToIsChoice(ts: seq<Token>, n: nat)
    requires n <= |ts| && forall i :: 0 <= i < |ts| ==> ValidToken(ts[i])
    ensures AnchorUpTo(ts, n) == AnchorAt(ts, AnchorChoice(ts, n))
  {
    if n > 0 {
      AnchorUpToIsChoice(ts, n - 1);
      var t := ts[n - 1];
      if t.mask == 0xFF {
        ChoiceAfterExact(ts, n);
      } else if IsNibbleMask(t.mask) {
        ChoiceAfterNibble(ts, n);
      } else {
        ChoiceAfterOther(ts, n);
      }
    }
  }

  /** An exact-byte token becomes the choice unless it is token 0. */
  lemma ChoiceAfterExact(ts: seq<Token>, n: nat)
    requires 1 <= n <= |ts| && ts[n - 1].mask == 0xFF
    ensures AnchorChoice(ts, n) == if n >= 2 then Some(n - 1) else None
    ensures n == 1 ==> AnchorChoice(ts, n - 1) == None
  {
    if n >= 2 {
      assert LastExact(ts, n) == Some(n - 1);
      assert FirstNibble(ts, n, n) == None;
    }
  }

  /** A token that is neither exact nor a nibble leaves the choice alone. */
  lemma ChoiceAfterOther(ts: seq<Token>, n: nat)
    requires 1 <= n <= |ts| && ts[n - 1].mask != 0xFF && !IsNibbleMask(ts[n - 1].mask)
    ensures AnchorChoice(ts, n) == AnchorChoice(ts, n - 1)
  {
    assert LastExact(ts, n) == LastExact(ts, n - 1);
    var last := LastExact(ts, n - 1);
    if last.Some? && ts[last.value].byte == 0xFF {
      FirstNibbleExtend(ts, last.value + 1, n - 1);
    }
  }

  /** A nibble token becomes the choice exactly when the current choice is a
      token holding the byte 0xFF. */
  lemma ChoiceAfterNibble(ts: seq<Token>, n: nat)
    requires 1 <= n <= |ts| && IsNibbleMask(ts[n - 1].mask)
    requires forall i :: 0 <= i < |ts| ==> ValidToken(ts[i])
    ensures var prev := AnchorChoice(ts, n - 1);
      AnchorChoice(ts, n) ==
        if prev.Some? && ts[prev.value].byte == 0xFF then Some(n - 1) else prev
  {
    assert LastExact(ts, n) == LastExact(ts, n - 1);
    var last := LastExact(ts, n - 1);
    if last.Some? && ts[last.value].byte == 0xFF {
      var j := last.value;
      FirstNibbleExtend(ts, j + 1, n - 1);
      var prev := AnchorChoice(ts, n - 1);
      if prev.value != j {
        assert ValidToken(ts[prev.value]) && IsNibbleMask(ts[prev.value].mask);
      }
    }
  }

  /** Extending the search range by one position finds that position only if
      nothing earlier was found. */
  lemma FirstNibbleExtend(ts: seq<Token>, lo: nat, n: nat)
    requires lo <= n < |ts|
    ensures FirstNibble(ts, lo, n + 1) ==
      if FirstNibble(ts, lo, n).Some? then FirstNibble(ts, lo, n)
      else if IsNibbleMask(ts[n].mask) then Some(n) else None
    decreases n - lo
  {
    if lo < n && !IsNibbleMask(ts[lo].mask) {
      FirstNibbleExtend(ts, lo + 1, n);
    }
  }

  /** The anchor invariant: either the default, or a non-wildcard token at a
      position from 1 on whose value and mask it carries, with `max_skip`
      one past its offset. */
  lemma AnchorInvariant(ts: seq<Token>)
    requires forall i :: 0 <= i < |ts| ==> ValidToken(ts[i])
    ensures var a := SelectAnchor(ts);
      || (a == DefaultAnchor)
      || (&& 1 <= a.offset < |ts| && a.maxSkip == a.offset + 1
          && a.value == ts[a.offset].byte && a.mask == ts[a.offset].mask && a.mask != 0x00)
    ensures SelectAnchor(ts).maxSkip > 1 <==> SelectAnchor(ts) != DefaultAnchor
  {
    AnchorUpToIsChoice(ts, |ts|);
  }

  /** The update rule, from any anchor reachable after `pos >= 1` tokens: an
      exact-byte token always takes over, a nibble token takes over exactly
      when the current value is 0xFF, a wildcard never does. At position 0
      nothing changes. */
  lemma AnchorStepRule(ts: seq<Token>, pos: nat)
    requires pos < |ts| && forall i :: 0 <= i < |ts| ==> ValidToken(ts[i])
    ensures var a := AnchorUpTo(ts, pos);
      var t := ts[pos];
      && (pos == 0 ==> AnchorStep(a, pos, t) == a)
      && (pos >= 1 && t.mask == 0xFF ==> AnchorStep(a, pos, t) == Anchor(t.byte, 0xFF, pos + 1, pos))
      && (pos >= 1 && IsNibbleMask(t.mask) ==>
            (AnchorStep(a, pos, t) == Anchor(t.byte, t.mask, pos + 1, pos) <==> a.value == 0xFF))
      && (t.mask == 0x00 ==> AnchorStep(a, pos, t) == a)
  {
    AnchorUpToIsChoice(ts, pos);
  }

  // ---------------------------------------------------------------------
  // The shift table
  // ---------------------------------------------------------------------

  /** The table slot of a byte value (the byte read as an unsigned index). */
  function Slot(b: bv8): (k: nat)
    ensures k < 256
  {
    b as int
  }

  /** Distinct bytes have distinct slots. */
  lemma SlotInjective(a: bv8, b: bv8)
    ensures Slot(a) == Slot(b) ==> a == b
  {
  }

  /** The table after the first `m` rounds of the loop over `0..N-1`, where
      `mb` holds each pattern byte under its own mask and every entry starts
      at `fill` (the stripped literal's length). */
  function ShiftTableUpTo(mb: seq<bv8>, fill: nat, m: nat): (table: seq<nat>)
    requires m < |mb|
    ensures |table| == 256
  {
    if m == 0 then seq(256, v => fill)
    else ShiftTableUpTo(mb, fill, m - 1)[Slot(mb[m - 1]) := |mb| - 1 - (m - 1)]
  }

  /** The finished table of the arrays `bytes` and `masks`: tokens 0 .. N-2
      take part, the last one does not. */
  function ShiftTable(bytes: seq<bv8>, masks: seq<bv8>, fill: nat): (table: seq<nat>)
    requires |bytes| == |masks| >= 1
    ensures |table| == 256
  {
    ShiftTableUpTo(MaskedBytes(bytes, masks), fill, |bytes| - 1)
  }

  /** The Horspool distance for byte `v`: from the right-most of masked
      bytes 0 .. N-2 equal to `v` to the last token, if there is one. */
  function ShiftDistance(mb: seq<bv8>, v: bv8): Option<nat>
    requires |mb| >= 1
  {
    match LastIndexOf(mb, v, |mb| - 1)
    case None => None
    case Some(i) => Some(|mb| - 1 - i)
  }

  /** Entry `v` after `m` rounds comes from the right-most of masked bytes
      0 .. m-1 equal to `v`. */
  lemma {:induction false} ShiftTableUpToEntry(mb: seq<bv8>, fill: nat, m: nat, v: bv8)
    requires m < |mb|
    ensures ShiftTableUpTo(mb, fill, m)[Slot(v)] ==
      match LastIndexOf(mb, v, m)
      case None => fill
      case Some(i) => |mb| - 1 - i
  {
    if m > 0 {
      ShiftTableUpToEntry(mb, fill, m - 1, v);
      if mb[m - 1] == v {
        assert LastIndexOf(mb, v, m) == Some(m - 1);
      } else {
        SlotInjective(mb[m - 1], v);
        assert LastIndexOf(mb, v, m) == LastIndexOf(mb, v, m - 1);
      }
    }
  }

  /** The shift table: entry `v` is `N-1-i` for the largest `i <= N-2` whose
      masked byte is `v`, and `fill` when there is none. */
  lemma ShiftTableEntries(bytes: seq<bv8>, masks: seq<bv8>, fill: nat)
    requires |bytes| == |masks| >= 1
    ensures forall v: bv8 ::
      ShiftTable(bytes, masks, fill)[Slot(v)] ==
        match ShiftDistance(MaskedBytes(bytes, masks), v)
        case None => fill
        case Some(d) => d
  {
    forall v: bv8
      ensures ShiftTable(bytes, masks, fill)[Slot(v)] ==
        match ShiftDistance(MaskedBytes(bytes, masks), v)
        case None => fill
        case Some(d) => d
    {
      ShiftTableUpToEntry(MaskedBytes(bytes, masks), fill, |bytes| - 1, v);
    }
  }

  /** Every entry is `fill` or a shift in [1, N-1]. */
  lemma {:induction false} ShiftTableUpToBounds(mb: seq<bv8>, fill: nat, m: nat)
    requires m < |mb|
    ensures forall v :: 0 <= v < 256 ==>
      ShiftTableUpTo(mb, fill, m)[v] == fill || 1 <= ShiftTableUpTo(mb, fill, m)[v] <= |mb| - 1
  {
    if m > 0 {
      ShiftTableUpToBounds(mb, fill, m - 1);
    }
  }

  // ---------------------------------------------------------------------
  // The whole compilation
  // ---------------------------------------------------------------------

  /** What the macro produces: the pattern record and the shift table it
      computes beside it. */
  datatype Compiled = Compiled(pattern: Pattern, shiftTable: seq<nat>)

  /** The `bytes` array: each token's byte. */
  function TokenBytes(ts: seq<Token>): (r: seq<bv8>)
    ensures |r| == |ts| && forall i :: 0 <= i < |ts| ==> r[i] == ts[i].byte
  {
    seq(|ts|, i requires 0 <= i < |ts| => ts[i].byte)
  }

  /** The `masks` array: each token's mask. */
  function TokenMasks(ts: seq<Token>): (r: seq<bv8>)
    ensures |r| == |ts| && forall i :: 0 <= i < |ts| ==> r[i] == ts[i].mask
  {
    seq(|ts|, i requires 0 <= i < |ts| => ts[i].mask)
  }

  /** `parse_pattern` on the literal's string value. */
  function ParsePattern(literal: string): (r: Result<Compiled, CompileError>)
    ensures r.Success? ==>
      && r.value.pattern.Shaped()
      && |r.value.shiftTable| == 256
      && r.value.pattern.bestSkipOffset < |r.value.pattern.bytes|
      && r.value.pattern.maxSkip == r.value.pattern.bestSkipOffset + 1
    ensures r.Failure? ==> r.error == EmptyPattern || r.error.InvalidToken?
  {
    var s := StripSpaces(literal);
    if |s| == 0 then Failure(EmptyPattern)
    else
      match Tokenize(s)
      case Failure(e) => Failure(e)
      case Success(ts) =>
        var a := SelectAnchor(ts);
        var p := Pattern(TokenBytes(ts), TokenMasks(ts), a.value, a.mask, a.maxSkip, a.offset);
        Success(Compiled(p, ShiftTable(p.bytes, p.masks, |s|)))
  }

  /** A literal is reported empty exactly when it holds nothing but
      spaces. */
  lemma ParsePatternEmpty(literal: string)
    ensures ParsePattern(literal) == Failure(EmptyPattern) <==>
      forall i :: 0 <= i < |literal| ==> literal[i] == ' '
  {
    var s := StripSpaces(literal);
    StripSpacesContents(literal);
    if |s| > 0 {
      assert s[0] in literal;
    } else {
      forall i | 0 <= i < |literal|
        ensures literal[i] == ' '
      {
        assert literal[i] !in s;
      }
    }
  }

  /** A literal compiles exactly when it holds something besides spaces, an
      even number of non-space characters, and only hex digits, `?` and
      spaces. */
  lemma ParsePatternAccepts(literal: string)
    ensures ParsePattern(literal).Success? <==>
      && (exists i :: 0 <= i < |literal| && literal[i] != ' ')
      && |StripSpaces(literal)| % 2 == 0
      && forall i :: 0 <= i < |literal| ==> literal[i] == ' ' || IsPatternChar(literal[i])
  {
    var s := StripSpaces(literal);
    TokenizeAccepts(s);
    StripSpacesContents(literal);
    ParsePatternEmpty(literal);
    assert (forall i :: 0 <= i < |s| ==> IsPatternChar(s[i])) <==>
           (forall i :: 0 <= i < |literal| ==> literal[i] == ' ' || IsPatternChar(literal[i])) by {
      if forall i :: 0 <= i < |s| ==> IsPatternChar(s[i]) {
        forall i | 0 <= i < |literal| && literal[i] != ' '
          ensures IsPatternChar(literal[i])
        {
          assert literal[i] in s;
        }
      }
      if forall i :: 0 <= i < |literal| ==> literal[i] == ' ' || IsPatternChar(literal[i]) {
        forall i | 0 <= i < |s|
          ensures IsPatternChar(s[i])
        {
          assert s[i] in literal;
        }
      }
    }
  }

  /** The characters left after stripping are exactly the non-space ones. */
  lemma {:induction false} StripSpacesContents(literal: string)
    ensures forall c :: c in StripSpaces(literal) <==> c in literal && c != ' '
    decreases |literal|
  {
    if |literal| > 0 {
      StripSpacesContents(literal[1..]);
      assert literal == [literal[0]] + literal[1..];
    }
  }

  /** Only spaces are stripped: a tab, newline or carriage return anywhere in
      the literal makes it fail. */
  lemma OtherWhitespaceFails(literal: string, i: nat)
    requires i < |literal| && literal[i] in {'\t', '\n', '\r'}
    ensures ParsePattern(literal).Failure?
    ensures ParsePattern(literal) != Failure(EmptyPattern)
  {
    ParsePatternAccepts(literal);
    ParsePatternEmpty(literal);
  }

  /** A compiled pattern has the shape the matcher needs: N tokens from 2N
      stripped characters, masks from the four token masks and bytes inside
      their masks; token `i` is read from stripped characters `2i`, `2i+1`. */
  lemma ParsePatternShape(literal: string)
    ensures ParsePattern(literal).Success? ==>
      var p := ParsePattern(literal).value.pattern;
      var s := StripSpaces(literal);
      && p.Shaped()
      && |s| == 2 * |p.bytes|
      && (forall i :: 0 <= i < |p.bytes| ==>
            && IsTokenMask(p.masks[i]) && p.bytes[i] & p.masks[i] == p.bytes[i]
            && ReadToken(s[2 * i], Some(s[2 * i + 1])) == Success(Token(p.bytes[i], p.masks[i])))
  {
    var s := StripSpaces(literal);
    TokenizeAccepts(s);
    TokenizeValid(s);
  }

  /** A compiled pattern's anchor is the default (byte 0x00, full mask,
      offset 0, `max_skip` 1) or a non-wildcard token after the first, and
      then a real anchor of the pattern. */
  lemma ParsePatternAnchor(literal: string)
    ensures ParsePattern(literal).Success? ==>
      var p := ParsePattern(literal).value.pattern;
      && p.bestSkipOffset < |p.bytes|
      && p.maxSkip >= 1
      && (p.maxSkip > 1 <==> p.bestSkipOffset >= 1)
      && (p.maxSkip == 1 ==>
            p.bestSkipValue == 0x00 && p.bestSkipMask == 0xFF && p.bestSkipOffset == 0)
      && (p.maxSkip > 1 ==>
            && p.maxSkip == p.bestSkipOffset + 1 && p.bestSkipMask != 0x00
            && p.Shaped() && p.RealAnchor())
  {
    var s := StripSpaces(literal);
    TokenizeValid(s);
    if Tokenize(s).Success? {
      AnchorInvariant(Tokenize(s).value);
    }
  }

  /** The compiled shift table has 256 entries, each the Horspool distance of
      the right-most of tokens 0 .. N-2 with that masked byte, or 2N (the
      stripped length); every entry lies in [1, 2N]. */
  lemma ParsePatternShiftTable(literal: string)
    ensures ParsePattern(literal).Success? ==>
      var c := ParsePattern(literal).value;
      var n := |c.pattern.bytes|;
      && n >= 1
      && |c.shiftTable| == 256
      && (forall v: bv8 ::
            c.shiftTable[Slot(v)] ==
              match ShiftDistance(MaskedBytes(c.pattern.bytes, c.pattern.masks), v)
              case None => 2 * n
              case Some(d) => d)
      && (forall v :: 0 <= v < 256 ==> 1 <= c.shiftTable[v] <= 2 * n)
  {
    var s := StripSpaces(literal);
    if ParsePattern(literal).Success? {
      var ts := Tokenize(s).value;
      var c := ParsePattern(literal).value;
      var n := |c.pattern.bytes|;
      ShiftTableEntries(c.pattern.bytes, c.pattern.masks, |s|);
      ShiftTableUpToBounds(MaskedBytes(c.pattern.bytes, c.pattern.masks), |s|, |ts| - 1);
    }
  }

  /** For an exact-byte literal the table holds the shift the matcher
      recomputes inline after a mismatch, except where no token names the
      byte: there the table says 2N and the matcher shifts by N. */
  lemma ShiftTableVersusTailShift(literal: string)
    ensures ParsePattern(literal).Success? ==>
      var c := ParsePattern(literal).value;
      var n := |c.pattern.bytes|;
      c.pattern.Shaped() && c.pattern.FullMask() ==>
        forall v: bv8 :: c.shiftTable[Slot(v)] == if TailShift(c.pattern, v) == n then 2 * n else TailShift(c.pattern, v)
  {
    if ParsePattern(literal).Success? {
      var c := ParsePattern(literal).value;
      var p := c.pattern;
      if p.Shaped() && p.FullMask() {
        ParsePatternShiftTable(literal);
        MaskedBytesOfExact(p);
        forall v: bv8
          ensures c.shiftTable[Slot(v)] ==
            if TailShift(p, v) == |p.bytes| then 2 * |p.bytes| else TailShift(p, v)
        {
          LastIndexOfSpec(p.bytes, v, |p.bytes| - 1);
        }
      }
    }
  }

  /** Under full masks the masked bytes are the bytes. */
  lemma MaskedBytesOfExact(p: Pattern)
    requires p.Shaped() && p.FullMask()
    ensures MaskedBytes(p.bytes, p.masks) == p.bytes
  {
    forall i | 0 <= i < |p.bytes|
      ensures MaskedBytes(p.bytes, p.masks)[i] == p.bytes[i]
    {
      assert p.masks[i] == 0xFF;
    }
  }
}
