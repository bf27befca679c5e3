/**
 * The chain record received from the `/v2/chains` endpoint, restricted to
 * the fields the two dashboard screens read.
 */
module Chains {
  import opened Wrappers

  /**
   * One chain. Every numeric field may be missing in the received JSON;
   * `None` stands for `undefined`. The identifier may be missing or empty
   * as well.
   */
  datatype Chain = Chain(
    geckoId: Option<string>,
    name: string,
    tvl: Option<real>,
    tvlPrevDay: Option<real>,
    protocols: Option<int>)

  /** `chain.tvl || 0`: a missing value locked reads as zero. */
  function TvlOrZero(c: Chain): real {
    c.tvl.GetOr(0.0)
  }

  /** `chain.protocols || 0`: a missing protocol count reads as zero. */
  function ProtocolsOrZero(c: Chain): int {
    c.protocols.GetOr(0)
  }
}
