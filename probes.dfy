/**
 * The part of the `redbpf_probes` crate this library builds on: the network error type and
 * the packet buffer interface (`NetworkBuffer`). Their bodies are not part of this model;
 * `check_bounds` is kept abstract as a function carried by the buffer.
 */
module Probes {
  import opened Ints
  import opened Wrappers

  /** `redbpf_probes::net::NetworkError`, reduced to the variants this library produces or passes on. */
  datatype NetworkError = Other | OutOfBounds

  /**
   * One invocation's packet buffer: the half-open address range `[data_start, data_end)`
   * and the host's `check_bounds(lo, hi)`.
   */
  datatype NetworkBuffer = NetworkBuffer(
    data_start: usize,
    data_end: usize,
    check_bounds: (usize, usize) -> Result<(), NetworkError>)

  /** The range `[lo, hi)` is an ordered sub-range of the buffer. */
  predicate Contains(buf: NetworkBuffer, lo: usize, hi: usize) {
    buf.data_start <= lo <= hi <= buf.data_end
  }

  /** `check_bounds` accepts exactly the ranges the buffer contains. */
  ghost predicate ChecksContainment(buf: NetworkBuffer) {
    forall lo: usize, hi: usize :: buf.check_bounds(lo, hi).Ok? <==> Contains(buf, lo, hi)
  }
}
