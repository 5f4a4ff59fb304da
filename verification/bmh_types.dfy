/** Shared vocabulary of the pattern compiler and the matcher: optional and
    fallible values, the masked byte comparison every token uses, and the
    "right-most occurrence" search that both Horspool shift computations rely on.
 */
module BmhTypes {

  datatype Option<+T> = None | Some(value: T)

  datatype Result<+T, +E> = Success(value: T) | Failure(error: E)

  /** A text byte `b` agrees with pattern byte `pb` on every bit `mask` selects. */
  predicate MaskedEq(b: bv8, pb: bv8, mask: bv8) {
    b & mask == pb & mask
  }

  /** Each byte under the mask at the same position. */
  function MaskedBytes(bytes: seq<bv8>, masks: seq<bv8>): (r: seq<bv8>)
    requires |bytes| == |masks|
    ensures |r| == |bytes| && forall i :: 0 <= i < |r| ==> r[i] == bytes[i] & masks[i]
  {
    seq(|bytes|, i requires 0 <= i < |bytes| => bytes[i] & masks[i])
  }

  /** The four masks the pattern syntax can produce: wildcard, low nibble,
      high nibble, exact byte. */
  predicate IsTokenMask(m: bv8) {
    m == 0x00 || m == 0x0F || m == 0xF0 || m == 0xFF
  }

  /** A nibble mask constrains exactly one half of the byte. */
  predicate IsNibbleMask(m: bv8) {
    m == 0x0F || m == 0xF0
  }

  /** The largest index below `hi` at which `s` holds `c`, if there is one
      (characterised by `LastIndexOfSpec`). */
  function LastIndexOf(s: seq<bv8>, c: bv8, hi: nat): (r: Option<nat>)
    requires hi <= |s|
    ensures r.Some? ==> r.value < hi
    decreases hi
  {
    if hi == 0 then None
    else if s[hi - 1] == c then Some(hi - 1)
    else LastIndexOf(s, c, hi - 1)
  }

  /** `LastIndexOf` finds an occurrence of `c` exactly when there is one
      below `hi`, and the one it finds is the right-most. */
  lemma {:induction false} LastIndexOfSpec(s: seq<bv8>, c: bv8, hi: nat)
    requires hi <= |s|
    ensures var r := LastIndexOf(s, c, hi);
      && (r.Some? ==> s[r.value] == c && forall j :: r.value < j < hi ==> s[j] != c)
      && (r.None? ==> forall j :: 0 <= j < hi ==> s[j] != c)
    decreases hi
  {
    if hi > 0 && s[hi - 1] != c {
      LastIndexOfSpec(s, c, hi - 1);
    }
  }

  /** Offsets listed in strictly ascending order (hence without duplicates). */
  predicate StrictlyIncreasing(s: seq<nat>) {
    forall i, j :: 0 <= i < j < |s| ==> s[i] < s[j]
  }
}
