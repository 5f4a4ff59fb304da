# simd-bmh in Dafny

simd-bmh searches a byte buffer for every occurrence of a fixed-length
pattern with wildcards. The pattern is written as a literal such as
`"F? ?3 CC ??"`, with two characters per byte:

- `??` matches any byte;
- `?h` matches on the low nibble;
- `h?` matches on the high nibble;
- `hh` matches one exact byte.

The project has two parts, and this model covers both.

**The compiler (`parse_pattern`).** At build time it turns the literal into
a `Pattern` record. The record holds a byte array and a mask array of
length N. It also names one "anchor" token: a value, a mask and an offset
that the fast scan looks for. The compiler also fills a 256-entry
Boyer–Moore–Horspool shift table.

**The matcher (`find_all_matches_sse`).** It runs in two phases:

- **Phase A** walks the text in whole 16-byte lanes. Any byte that equals
  the anchor value under the anchor mask makes the position `offset` bytes
  earlier a candidate, and the whole pattern is checked there.
- **Phase B** runs a scalar Horspool scan over whatever Phase A left. After
  a miss it shifts by the distance from the right-most earlier pattern byte
  equal to the window's last byte. After a hit it shifts by N.

The model is written in the code's own terms:

- Bytes are `bv8`.
- The datatype `SimdBmh.Pattern` is the `Pattern` struct
  (crates/simd-bmh/src/lib.rs:17-24), field for field; its predicate
  `Shaped` says the two arrays have the same length N ≥ 1.
- A compilation is `Result<Compiled, CompileError>`; the macro's panics are
  the `Failure` cases.
- A search is an `Outcome`: `Found(offsets)`, or `Panic(fault)` for the two
  places where the matcher aborts.
- Functions state what each step means. Methods follow the source's loops
  and are proved equal to those functions.
- Lemmas relate the results to reference definitions:
  - `IsMatch`, the pattern occurring at an offset;
  - `AllMatches`, every match in a range;
  - `GreedyMatches`, left-most non-overlapping matching;
  - `AnchorChoice`, the anchor described without the fold;
  - `ShiftDistance`, the Horspool distance.

Modules:

- `BmhTypes` (bmh_types.dfy): `Option`, `Result`, the masked comparison, and
  the right-most-occurrence search.
- `SimdBmh` (simd_bmh.dfy): the matcher.
- `SimdBmhMacro` (simd_bmh_macro.dfy): the compiler.
- `BmhExamples` (bmh_examples.dfy): the repository's test literals and its
  test search, evaluated in the model.
- `BmhFindings` (bmh_findings.dfy): four defects. Each has a concrete
  counterexample and a corrected definition with its intended property
  proved.

The faithful model keeps the source behaviour everywhere, including its
defects. The corrected definitions live only in `BmhFindings`.

Three details of the code are easy to misread, and the model follows the
code in each:

- The shift table's default entry is the stripped literal length, 2N
  (crates/simd-bmh-macro/src/lib.rs:15), not N.
- Only the space character is stripped (line 7). A tab or a newline is
  rejected as an invalid token.
- Phase B never consults the compiler's shift table. It recomputes the
  shift from the unmasked pattern bytes (crates/simd-bmh/src/lib.rs:111-115).

## Model

| member | source | states |
|---|---|---|
| BmhTypes.LastIndexOfSpec | crates/simd-bmh/src/lib.rs:112-114 | the reverse search finds a position exactly when the byte occurs below the bound, and the position it finds is the right-most occurrence |
| SimdBmh.LaneEnd | crates/simd-bmh/src/lib.rs:50 | Phase A stops at a multiple of 16 that is at most the text length and less than 16 below it, so no whole lane is left unscanned |
| SimdBmh.Verify | crates/simd-bmh/src/lib.rs:64-76 | a verification that stops on a read past the end reports an index at or beyond the text length yet still inside the candidate window |
| SimdBmh.ScanLanes | crates/simd-bmh/src/lib.rs:50-86 | Phase A adds at most one offset per remaining lane position, and it can panic only while lane positions remain |
| SimdBmh.Horspool | crates/simd-bmh/src/lib.rs:89-117 | the first offset Phase B reports is at or after its starting index and its window lies inside the text |
| SimdBmh.FindAll | crates/simd-bmh/src/lib.rs:34-120 | the routine can abort only when the text holds at least N bytes and at least one whole 16-byte lane |
| SimdBmh.TailShift | crates/simd-bmh/src/lib.rs:111-115 | a mismatch always advances Phase B by at least 1 and at most N bytes |
| SimdBmh.MismatchShift | crates/simd-bmh/src/lib.rs:111-115 | the reverse search over bytes 0..N-2 followed by `map_or` yields the tail shift, which lies in [1, N] |
| SimdBmh.VerifyCandidate | crates/simd-bmh/src/lib.rs:64-76 | the token-by-token verification loop gives the same verdict as the Phase A check, including the index at which a read would pass the end |
| SimdBmh.VerifyMeaning | crates/simd-bmh/src/lib.rs:64-76 | verification succeeds iff every token agrees with the text. It reports a read past the end iff the window overhangs and every in-bounds token before the overhang agrees, and the index it reports is the first one at or past the end that the loop reaches |
| SimdBmh.VerifyHitIsMatch | crates/simd-bmh/src/lib.rs:64-80 | Phase A records a candidate start iff the pattern occurs there |
| SimdBmh.WindowMatches | crates/simd-bmh/src/lib.rs:89-105 | for a window inside the text, the Phase B verification loop says yes iff the pattern occurs at the window |
| SimdBmh.LanePosition | crates/simd-bmh/src/lib.rs:59-82 | the per-position body either yields the panic that ends Phase A or the offsets it adds before the scan continues |
| SimdBmh.ScanLane | crates/simd-bmh/src/lib.rs:51-83 | the 16 positions of one lane, in order, extend the offsets found so far or stop at the first panic |
| SimdBmh.ScanAllLanes | crates/simd-bmh/src/lib.rs:50-86 | the lane loop computes the Phase A outcome over every whole lane |
| SimdBmh.TailRound | crates/simd-bmh/src/lib.rs:89-116 | one Phase B round: a hit iff the window matches, then the index moves past the window; a miss moves forward without changing what the rest of Phase B reports |
| SimdBmh.ScanTail | crates/simd-bmh/src/lib.rs:89-117 | the Phase B loop reports the Horspool offsets from its starting index |
| SimdBmh.FindAllMatchesSse | crates/simd-bmh/src/lib.rs:34-120 | the whole routine computes the two-phase outcome: empty below N bytes, else the Phase A offsets followed by those of Phase B, or the Phase A panic |
| SimdBmh.FindAllMatches | crates/simd-bmh/src/lib.rs:28-30 | the public entry point has the same outcome as the SSE routine |
| SimdBmh.ScanLanesMatches | crates/simd-bmh/src/lib.rs:59-80 | every offset Phase A reports is a match whose anchor byte lies in a scanned lane and passes the anchor comparison |
| SimdBmh.ScanLanesIncreasing | crates/simd-bmh/src/lib.rs:59-85 | Phase A reports offsets in strictly ascending order |
| SimdBmh.ScanLanesSound | crates/simd-bmh/src/lib.rs:50-86 | Phase A offsets ascend strictly and each is a match with its anchor in a scanned lane |
| SimdBmh.ScanLanesPanicStep | crates/simd-bmh/src/lib.rs:61-71 | a faulting lane position raises its own panic; any other position neither causes nor masks a later panic |
| SimdBmh.ScanLanesPanics | crates/simd-bmh/src/lib.rs:62-71 | Phase A panics iff some lane position faults, and the panic is the fault of the first such position |
| SimdBmh.HorspoolMatches | crates/simd-bmh/src/lib.rs:89-109 | every offset Phase B reports is a match at or after the starting index |
| SimdBmh.HorspoolDisjoint | crates/simd-bmh/src/lib.rs:107-115 | consecutive Phase B offsets lie at least N apart, so the windows it reports never overlap |
| SimdBmh.HorspoolSound | crates/simd-bmh/src/lib.rs:89-117 | Phase B offsets are matches at or after the start, at least N apart, and strictly ascending |
| SimdBmh.FindAllSound | crates/simd-bmh/src/lib.rs:34-120 | a text shorter than the pattern gives no offsets; otherwise, whenever the call returns, its offsets ascend strictly and every one is a match |
| SimdBmh.FindAllPanics | crates/simd-bmh/src/lib.rs:35-71 | the call aborts iff the text holds at least N bytes and some lane position faults |
| SimdBmh.MatchPassesAnchor | crates/simd-bmh/src/lib.rs:51-60 | when the anchor is a real token, every match's anchor byte passes the lane comparison |
| SimdBmh.ScanLanesComplete | crates/simd-bmh/src/lib.rs:50-85 | with a real anchor and no panic, Phase A from a lane position at or past the anchor offset reports exactly the matches whose anchor falls in that range |
| SimdBmh.ScanLanesBeforeAnchor | crates/simd-bmh/src/lib.rs:59-62 | lane positions before the anchor offset contribute nothing to a Phase A run that does not panic |
| SimdBmh.PhaseAComplete | crates/simd-bmh/src/lib.rs:50-86 | with a real anchor and no panic, Phase A reports exactly the matches whose anchor byte lies in a scanned lane |
| SimdBmh.FindAllRealAnchor | crates/simd-bmh/src/lib.rs:34-120 | with a real anchor, a returning call reports every match whose anchor is in a lane, followed by the Phase B offsets |
| SimdBmh.LastTokenAnchorInBounds | crates/simd-bmh/src/lib.rs:65-71 | when the anchor is the last token, no candidate window can read past the end of the text |
| SimdBmh.TailShiftSafe | crates/simd-bmh/src/lib.rs:110-115 | for exact-byte patterns, the mismatch shift jumps over no match |
| SimdBmh.HorspoolIsGreedy | crates/simd-bmh/src/lib.rs:89-117 | for exact-byte patterns, Phase B is left-most non-overlapping matching |
| SimdBmh.GreedyCovers | crates/simd-bmh/src/lib.rs:107-109 | left-most non-overlapping matching misses a match only when it lies inside a reported window |
| SimdBmh.FindAllFullMask | crates/simd-bmh/src/lib.rs:34-120 | for exact-byte patterns with a real anchor, a returning call reports all matches anchored in a lane, then the left-most non-overlapping matches of the tail |
| SimdBmhMacro.HexDigitRoundTrip | crates/simd-bmh-macro/src/lib.rs:37 | parsing the upper-case digit of a nibble gives that nibble back |
| SimdBmhMacro.HexValueNamesDigit | crates/simd-bmh-macro/src/lib.rs:36-52 | a digit of either case reads as the nibble whose upper-case digit it is, so `a`-`f` name the same nibbles as `A`-`F`; with the round trip, reading is the inverse of writing |
| SimdBmhMacro.HexValue | crates/simd-bmh-macro/src/lib.rs:37-52 | a hex digit of either case names a value below 16 |
| SimdBmhMacro.StripSpaces | crates/simd-bmh-macro/src/lib.rs:7 | removing spaces never lengthens the literal |
| SimdBmhMacro.AnchorStep | crates/simd-bmh-macro/src/lib.rs:62-83 | one token either leaves the anchor alone or installs that non-wildcard token at its own offset with a skip strictly larger than the old one |
| SimdBmhMacro.AnchorUpTo | crates/simd-bmh-macro/src/lib.rs:62-85 | after any prefix of tokens the skip is the anchor offset plus one, and the offset is 0 or inside the prefix |
| SimdBmhMacro.SelectAnchor | crates/simd-bmh-macro/src/lib.rs:17-85 | the chosen anchor has skip = offset + 1 and, for a non-empty pattern, an offset inside it |
| SimdBmhMacro.ShiftTableUpTo | crates/simd-bmh-macro/src/lib.rs:90-94 | the table under construction always has one entry per byte value |
| SimdBmhMacro.ShiftTable | crates/simd-bmh-macro/src/lib.rs:15-94 | the compiled table has one entry per byte value |
| SimdBmhMacro.ParsePattern | crates/simd-bmh-macro/src/lib.rs:6-94 | a compiled literal has N ≥ 1 tokens with one mask each, a 256-entry table, an anchor offset inside the pattern and skip = offset + 1; a rejected one fails as empty or with an invalid token |
| SimdBmhMacro.StripSpacesAppend | crates/simd-bmh-macro/src/lib.rs:7 | space removal works piece by piece and keeps the order of the other characters |
| SimdBmhMacro.StripSpacesContents | crates/simd-bmh-macro/src/lib.rs:7 | the stripped literal holds exactly the literal's non-space characters |
| SimdBmhMacro.ReadToken | crates/simd-bmh-macro/src/lib.rs:28-59 | a pair is accepted iff a second character exists and both are hex digits or `?`. An accepted pair yields a well-formed token; a rejected one reports its first character |
| SimdBmhMacro.ReadTokenMeaning | crates/simd-bmh-macro/src/lib.rs:30-56 | a byte agrees with the token read from a pair iff each hex digit names the corresponding nibble of the byte and each `?` is free |
| SimdBmhMacro.Tokenize | crates/simd-bmh-macro/src/lib.rs:24-60 | a successful read consumes two characters per token; a failure is always an invalid-token error |
| SimdBmhMacro.TokenizeAccepts | crates/simd-bmh-macro/src/lib.rs:24-60 | tokenizing succeeds iff the stripped literal has even length and only hex digits and `?`; token i is the pair at 2i and 2i+1 |
| SimdBmhMacro.TokenizeValid | crates/simd-bmh-macro/src/lib.rs:30-56 | every token carries one of the four masks and no byte bit outside its mask |
| SimdBmhMacro.TokenizeError | crates/simd-bmh-macro/src/lib.rs:57-59 | a rejected literal reports the first character of the first pair that no arm accepts |
| SimdBmhMacro.TokenizeRender | crates/simd-bmh-macro/src/lib.rs:28-56 | every list of well-formed tokens is read back from its canonical spelling, so the four arms lose no token |
| SimdBmhMacro.AnchorUpToIsChoice | crates/simd-bmh-macro/src/lib.rs:62-85 | the running anchor update equals the direct description: the last exact token after token 0, or a nibble token taken while the anchor value is 0xFF |
| SimdBmhMacro.ChoiceAfterNibble | crates/simd-bmh-macro/src/lib.rs:75-83 | a nibble token becomes the anchor exactly when the current anchor value is 0xFF, as the bitwise `!` condition makes it |
| SimdBmhMacro.AnchorInvariant | crates/simd-bmh-macro/src/lib.rs:17-85 | the anchor is either the initial one (0x00, full mask, offset 0) or a non-wildcard token at offset 1 or later; its skip is that offset plus one, and it is the default iff the skip is 1 |
| SimdBmhMacro.AnchorStepRule | crates/simd-bmh-macro/src/lib.rs:63-83 | token 0 and wildcards never move the anchor; an exact token at position 1 or later always does; a nibble does iff the current value is 0xFF |
| SimdBmhMacro.ShiftTableEntries | crates/simd-bmh-macro/src/lib.rs:90-94 | entry v is N-1-i for the right-most i among tokens 0..N-2 whose byte under its own mask is v, and otherwise the initial fill |
| SimdBmhMacro.ShiftTableUpToBounds | crates/simd-bmh-macro/src/lib.rs:90-94 | every entry is either the fill value or a shift in [1, N-1] |
| SimdBmhMacro.ParsePatternEmpty | crates/simd-bmh-macro/src/lib.rs:7-11 | the empty-pattern error is raised iff the literal consists of spaces only (or nothing) |
| SimdBmhMacro.ParsePatternAccepts | crates/simd-bmh-macro/src/lib.rs:7-60 | a literal compiles iff it has a non-space character, an even number of non-space characters, and every non-space character is a hex digit or `?` |
| SimdBmhMacro.OtherWhitespaceFails | crates/simd-bmh-macro/src/lib.rs:57-59 | a tab, newline or carriage return anywhere in the literal makes it fail with an invalid token, not as empty |
| SimdBmhMacro.ParsePatternShape | crates/simd-bmh-macro/src/lib.rs:24-60 | a compiled pattern has N ≥ 1 tokens from 2N stripped characters; token i is the pair at 2i, with a syntax mask and no byte bit outside it |
| SimdBmhMacro.ParsePatternAnchor | crates/simd-bmh-macro/src/lib.rs:17-85 | a compiled pattern's anchor offset is inside the pattern and its skip is at least 1; it is the default (0x00, 0xFF, 0) iff the skip is 1; otherwise it is a real non-wildcard token with skip = offset + 1 |
| SimdBmhMacro.ParsePatternShiftTable | crates/simd-bmh-macro/src/lib.rs:15-94 | the compiled table has 256 entries; each is the Horspool distance of the right-most of tokens 0..N-2 with that masked byte, or 2N; all lie in [1, 2N] |
| SimdBmhMacro.ShiftTableVersusTailShift | crates/simd-bmh/src/lib.rs:111-115 | for exact-byte literals the matcher's inline shift agrees with the compiled table, except that unnamed bytes get N from the matcher and 2N from the table |
| BmhExamples.ParseNibbleExample | crates/simd-bmh/src/lib.rs:129-133 | "A?C?FF" compiles to bytes A0 C0 FF under masks F0 F0 FF, anchored on FF at offset 2 |
| BmhExamples.FindNibbleExample | crates/simd-bmh/src/lib.rs:136-142 | that pattern finds exactly the offsets 0 and 4 in A0 C0 FF 00 A0 C0 FF |
| BmhExamples.ParseMixedExample | crates/simd-bmh-macro/src/lib.rs:7-94 | "F? ?3 CC ??" compiles to bytes F0 03 CC 00 under masks F0 0F FF 00, anchored on CC; its table gives F0, 03 and CC shifts 3, 2 and 1 and leaves 00 at 8 |
| BmhExamples.ParseDefaultAnchorExample | crates/simd-bmh-macro/src/lib.rs:17-21 | "AA" keeps the initial anchor 0x00 / 0xFF / skip 1 / offset 0 |
| BmhFindings.RawShiftSkipsMatch | crates/simd-bmh/src/lib.rs:111-115 | "??AA" occurs at offset 1 of BB CC AA, yet the call reports nothing |
| BmhFindings.MaskedTailShiftExact | crates/simd-bmh/src/lib.rs:111-115 | the masked shift equals the source's shift on exact-byte patterns |
| BmhFindings.MaskedShiftSafe | crates/simd-bmh/src/lib.rs:111-115 | the masked shift jumps over no match, for every pattern |
| BmhFindings.MaskedHorspoolIsGreedy | crates/simd-bmh/src/lib.rs:89-117 | Phase B with the masked shift is left-most non-overlapping matching, for every pattern |
| BmhFindings.DefaultAnchorIffNoLaterExact | crates/simd-bmh-macro/src/lib.rs:17-85 | for any list of well-formed tokens, the initial 0x00 anchor survives iff no token after the first is an exact byte, so nibble tokens alone (as in "A?C?") never replace it |
| BmhFindings.PhaseAPanicExamples | crates/simd-bmh/src/lib.rs:62-71 | "AABB" on 16 BB bytes underflows at lane position 0; "AABB??" on 14 zero bytes then AA BB reads index 16 of a 16-byte text |
| BmhFindings.FixedScanLanesAll | crates/simd-bmh/src/lib.rs:59-82 | Phase A that skips unsafe candidates reports exactly the matches whose anchor lies in the scanned range |
| BmhFindings.DefaultAnchorMissesMatch | crates/simd-bmh-macro/src/lib.rs:17-21 | "AA" matches at offset 0 of 16 AA bytes, yet the call reports nothing |
| BmhFindings.FixedParseRealAnchor | crates/simd-bmh-macro/src/lib.rs:63-85 | the compiler that falls back to token 0 accepts the same literals with the same bytes, masks and table, and always yields a real anchor |
| BmhFindings.LaneBoundaryMissesMatch | crates/simd-bmh/src/lib.rs:89 | "AABB" occurs at offset 15 of 15 zero bytes then AA BB, yet the call reports nothing |
| BmhFindings.FixedFindAllComplete | crates/simd-bmh/src/lib.rs:50-117 | with a real anchor, the corrected matcher reports every match that starts before its tail start, then the left-most non-overlapping matches from there |
| BmhFindings.FixedFindAllCovers | crates/simd-bmh/src/lib.rs:34-120 | with a real anchor, every match is either reported or starts inside a reported window |
| BmhFindings.FixedPipeline | crates/simd-bmh-macro/src/lib.rs:6-94 | for any literal the corrected compiler accepts, every match of its pattern is reported by the corrected matcher or covered by a reported window |

## Left out

- Proc-macro plumbing (crates/simd-bmh-macro/src/lib.rs:1-6, 96-110):
  - reading the `LitStr` and emitting the `quote!` token stream are not
    modelled;
  - `ParsePattern` takes the literal's string value and returns the record
    and the table as data;
  - the macro's `panic!`s are `Failure` values.
- The shift table's destination: the expansion `Pattern { …, shift_table: … }`
  (crates/simd-bmh-macro/src/lib.rs:97-107) does not type-check against the
  `Pattern` struct (crates/simd-bmh/src/lib.rs:17-24), which has no
  `shift_table` field. The model returns the table beside the pattern in
  `Compiled`, and the matcher never reads it. The two tests modelled in
  `BmhExamples` therefore model the macro's intended expansion, not code
  that builds as written.
- The SSE intrinsics (crates/simd-bmh/src/lib.rs:47-57): the load, AND,
  compare and movemask of one lane are modelled byte-wise as `AnchorHit` at
  each of the 16 positions. The `as i32` / `as i8` casts of the anchor value
  and mask (lines 42-43, 47-48) only repeat that byte in every lane, so the
  model uses the byte itself.
- Debug versus release arithmetic: the model treats the underflow at
  crates/simd-bmh/src/lib.rs:62 as a panic, which is what a debug build
  does. A release build would wrap the subtraction and then fail on the
  index at line 71 instead, which is also a panic but at another point;
  the model does not distinguish these builds.
- Machine-word widths: `usize` offsets and lengths are unbounded `nat`.
  Sums such as `i + 16` and `i + PATTERN_LEN` cannot overflow for a buffer
  that fits in memory. The anchor offset goes through `as i32` (line 44) and
  back to `usize` (line 62), which would change offsets of 2^31 or more;
  the model keeps the offset unchanged, since such a pattern would need a
  literal of over four billion characters.
- `pattern.len()` (crates/simd-bmh-macro/src/lib.rs:15) counts UTF-8 bytes,
  while the model counts characters. They differ only for literals with
  non-ASCII characters, and those never compile.
- The `expect` calls at crates/simd-bmh-macro/src/lib.rs:37, 44 and 52 are
  guarded by `is_ascii_hexdigit` and cannot fail, so `HexValue` requires a
  hex digit.
- SimdBmh.FindAll: requires N ≥ 1 (`Pattern.Shaped`). With N = 0 the Phase B
  loop adds 0 to its index after every hit and never terminates. The
  compiler never produces N = 0.
- Allocation of the result `Vec`, `#[repr(align(32))]`, `#![no_std]`, the
  `#[inline(always)]` hints and the crate features are not modelled.
- The benchmark (crates/simd-bmh/benches/bench.rs) and the random-buffer
  test (crates/simd-bmh/src/lib.rs:144-153) are left out because they need
  a random source and a timer. The two deterministic tests are modelled in
  `BmhExamples`.

## Findings

| source | as written | input that shows it | evidently intended | confidence | as-written member | corrected member |
|---|---|---|---|---|---|---|
| crates/simd-bmh/src/lib.rs:111-115 | after a Phase B miss, the shift compares raw pattern bytes with the window's last byte and ignores the masks | pattern "??AA", text BB CC AA: the window at 0 misses on CC, no raw pattern byte equals CC, and the shift of 2 jumps over the match at 1 | look for the right-most of tokens 0..N-2 that accepts the window's last byte under that token's own mask (`MaskedEq`), so no match is skipped; the macro's table would not serve, since it is indexed by the raw text byte | high (not executed) | BmhFindings.RawShiftSkipsMatch | BmhFindings.MaskedHorspoolIsGreedy |
| crates/simd-bmh/src/lib.rs:62-71 | a lane hit before the anchor offset subtracts past zero, and a candidate window that runs past the text is read anyway | "AABB" on 16 bytes BB underflows at position 0; "AABB??" on 14 zero bytes then AA BB reads index 16 | skip candidates whose window does not fit in the text | high (not executed) | BmhFindings.PhaseAPanicExamples | BmhFindings.FixedScanLanesAll |
| crates/simd-bmh-macro/src/lib.rs:17-21 | the anchor starts as byte 0x00 under the full mask; only tokens after the first can replace it, and nibble tokens only when the value is 0xFF. So every literal with no exact token after position 0, such as "AA" or "A?C?", searches Phase A for 0x00 bytes | "AA" on 16 bytes AA: every offset matches, the anchor 0x00 never occurs, and the call reports nothing | the anchor is always a token of the pattern, falling back to token 0 | high (not executed) | BmhFindings.DefaultAnchorMissesMatch | BmhFindings.FixedParseRealAnchor |
| crates/simd-bmh/src/lib.rs:89 | Phase B starts where the last whole lane ends, but Phase A only found matches whose anchor byte lies in a lane | "AABB" (anchor at offset 1) on 15 zero bytes then AA BB: the match at 15 has its anchor at 16, outside the lane, and Phase B starts at 16 | Phase B starts `bestSkipOffset` bytes before the lane end | high (not executed) | BmhFindings.LaneBoundaryMissesMatch | BmhFindings.FixedFindAllComplete |
