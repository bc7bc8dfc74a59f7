/**
 * The collaborators of the font cache that live outside it: font references,
 * stable keys, the fingerprint operations and the supply of fresh keys.
 * Their internals are not modelled; the cache sees them only through the
 * narrow interface below.
 */
module Ident {
  import opened Wrappers

  /** A caller-assigned stable key: either absent (invalid) or a numeric value. */
  datatype Key = Absent | Stable(value: nat) {
    predicate IsValid() { Stable? }
  }

  /** A content fingerprint; its representation is not part of this model. */
  type Fingerprint

  /** A view of a font: the bytes of its collection, where it starts, and its key. */
  datatype FontRef = FontRef(data: seq<bv8>, offset: nat, key: Key)

  /** One more than the largest `u32`. */
  const U32_LIMIT: nat := 0x1_0000_0000

  /**
   * The length handed to the fingerprint test: the bytes from `offset` to the
   * end of `data`, zero when the offset lies past the end, truncated to 32 bits.
   */
  function RemainingLen(font: FontRef): (len: nat)
    ensures len < U32_LIMIT
    ensures len <= |font.data|
    ensures |font.data| < font.offset ==> len == 0
    ensures font.offset <= |font.data| < font.offset + U32_LIMIT ==> font.offset + len == |font.data|
  {
    if |font.data| < font.offset then 0 else (|font.data| - font.offset) % U32_LIMIT
  }

  /**
   * The fingerprint operations the cache consumes, as uninterpreted functions:
   * the empty fingerprint, fingerprinting a font (which may fail), and the
   * tri-state test of a fingerprint against a font at a given length.
   */
  datatype FingerprintEngine = FingerprintEngine(
    default: Fingerprint,
    fromFont: FontRef -> Option<Fingerprint>,
    testLen: (Fingerprint, FontRef, nat) -> Option<bool>)

  /** The empty fingerprint never definitely matches any font. */
  ghost predicate DefaultNeverMatches(engine: FingerprintEngine)
  {
    forall font: FontRef, len: nat :: engine.testLen(engine.default, font, len) != Some(true)
  }

  /** The fingerprint the cache would store for `font` definitely matches `font` again. */
  predicate Recognizes(engine: FingerprintEngine, font: FontRef)
  {
    engine.testLen(engine.fromFont(font).GetOr(engine.default), font, RemainingLen(font)) == Some(true)
  }

  /**
   * The source of fresh keys. Every key it hands out is `next` at the time,
   * and `next` only grows, so no two minted keys are equal.
   */
  class KeySource {
    var next: nat

    constructor (start: nat)
      ensures next == start
    {
      next := start;
    }

    method Mint() returns (id: nat)
      modifies this
      ensures id == old(next) && next == old(next) + 1
    {
      id := next;
      next := next + 1;
    }
  }
}
