/** The identity side of a Spore (src/spore.rs). Signing and verification
    are foreign cryptography and are not part of this model: a Spore is only
    a source of its sporeprint. */
module Spores {

  /** `[u8; 32]`: a fixed-size 32-byte identifier. */
  type Sporeprint = s: seq<bv8> | |s| == 32 witness seq(32, i => 0 as bv8)

  /** A Spore as seen by the core: it can tell its sporeprint. */
  datatype Spore = Spore(sporeprint: Sporeprint)
}
