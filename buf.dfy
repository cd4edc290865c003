/**
 * The bounds-checked overlay: typed header views at an address of the packet, granted only
 * when the host's `check_bounds` accepts the record's whole range, and chained one record
 * after another.
 *
 * `Header::next` is here rather than beside `Header`: in the Rust code the header type and
 * the buffer trait refer to each other, which Dafny modules cannot.
 */
module Buf {
  import opened Ints
  import opened Wrappers
  import opened Probes
  import Bindings
  import Net

  /** One past the last byte of a `size`-byte record at `addr`, as `addr + size` on `usize`. */
  function End(addr: usize, size: usize): usize {
    WrappingAdd(addr, size)
  }

  /** `Buffer::header_at`: a view of a `size`-byte record at `addr`, if `check_bounds` lets it. */
  function HeaderAt(buf: NetworkBuffer, addr: usize, size: usize): (r: Result<Net.Header, NetworkError>)
    ensures r.Ok? <==> buf.check_bounds(addr, End(addr, size)).Ok?
    ensures r.Ok? ==> r.value == Net.Header(addr, size)
    ensures r.Err? ==> r.error == buf.check_bounds(addr, End(addr, size)).error
  {
    match buf.check_bounds(addr, End(addr, size))
    case Err(e) => Err(e)
    case Ok(_) => Ok(Net.Header(addr, size))
  }

  /** `Buffer::header_after`: a view of a `size`-byte record just past the record `hdr` views. */
  function HeaderAfter(buf: NetworkBuffer, hdr: Net.Header, size: usize): (r: Result<Net.Header, NetworkError>)
    ensures r == HeaderAt(buf, End(hdr.ptr, hdr.size), size)
  {
    HeaderAt(buf, End(hdr.ptr, hdr.size), size)
  }

  /** `Buffer::eth_hdr`: the Ethernet header at the start of the packet. */
  function EthHdr(buf: NetworkBuffer): (r: Result<Net.Header, NetworkError>)
    ensures r == HeaderAt(buf, buf.data_start, Bindings.ETHHDR_SIZE)
  {
    HeaderAt(buf, buf.data_start, Bindings.ETHHDR_SIZE)
  }

  /** `Header::next`: the context's `header_after` on this header. */
  function Next(hdr: Net.Header, ctx: NetworkBuffer, size: usize): (r: Result<Net.Header, NetworkError>)
    ensures r == HeaderAfter(ctx, hdr, size)
  {
    HeaderAfter(ctx, hdr, size)
  }

  /**
   * With a containment `check_bounds`, a view is granted exactly when the whole record lies
   * in `[data_start, data_end)`; a range whose end wraps past the top of the address space
   * is refused.
   */
  lemma HeaderAtInBounds(buf: NetworkBuffer, addr: usize, size: usize)
    requires ChecksContainment(buf)
    ensures HeaderAt(buf, addr, size).Ok? <==> buf.data_start <= addr && addr + size <= buf.data_end
  {
    assert buf.check_bounds(addr, End(addr, size)).Ok? <==> Contains(buf, addr, End(addr, size));
  }

  /** A record that ends exactly at `data_end` is granted; one a byte longer is not. */
  lemma HeaderAtEdge(buf: NetworkBuffer, addr: usize, size: usize)
    requires ChecksContainment(buf)
    requires buf.data_start <= addr && addr + size == buf.data_end
    ensures HeaderAt(buf, addr, size).Ok?
    ensures addr + size + 1 < TWO_64 ==> HeaderAt(buf, addr, size + 1).Err?
  {
    HeaderAtInBounds(buf, addr, size);
    if addr + size + 1 < TWO_64 {
      HeaderAtInBounds(buf, addr, size + 1);
    }
  }

  /** A view the host granted is never a null pointer when the packet does not start at 0. */
  lemma HeaderAtNonNull(buf: NetworkBuffer, addr: usize, size: usize)
    requires ChecksContainment(buf) && buf.data_start != 0
    requires HeaderAt(buf, addr, size).Ok?
    ensures HeaderAt(buf, addr, size).value.ptr != 0
    ensures Net.New(addr, size) == Some(HeaderAt(buf, addr, size).value)
  {
    HeaderAtInBounds(buf, addr, size);
  }

  /**
   * Chaining two records after the Ethernet header: each step is granted exactly when its
   * record fits after the previous one, and the records lie back to back from `data_start`.
   */
  lemma ChainFromEthernet(buf: NetworkBuffer, size2: usize, size3: usize)
    requires ChecksContainment(buf)
    requires buf.data_start + Bindings.ETHHDR_SIZE + size2 + size3 <= buf.data_end
    ensures EthHdr(buf).Ok?
    ensures Next(EthHdr(buf).value, buf, size2).Ok?
    ensures Next(EthHdr(buf).value, buf, size2).value.ptr == buf.data_start + Bindings.ETHHDR_SIZE
    ensures Next(Next(EthHdr(buf).value, buf, size2).value, buf, size3).Ok?
    ensures Next(Next(EthHdr(buf).value, buf, size2).value, buf, size3).value.ptr
         == buf.data_start + Bindings.ETHHDR_SIZE + size2
  {
    var a1 := buf.data_start;
    var a2 := a1 + Bindings.ETHHDR_SIZE;
    var a3 := a2 + size2;
    HeaderAtInBounds(buf, a1, Bindings.ETHHDR_SIZE);
    HeaderAtInBounds(buf, a2, size2);
    HeaderAtInBounds(buf, a3, size3);
  }

  /** Chaining succeeds or fails exactly as a direct view at the end of the previous record. */
  lemma ChainIsHeaderAtEnd(buf: NetworkBuffer, hdr: Net.Header, size: usize)
    requires ChecksContainment(buf)
    requires hdr.ptr + hdr.size < TWO_64
    ensures HeaderAfter(buf, hdr, size).Ok?
        <==> buf.data_start <= hdr.ptr + hdr.size && hdr.ptr + hdr.size + size <= buf.data_end
    ensures HeaderAfter(buf, hdr, size).Ok? ==> HeaderAfter(buf, hdr, size).value.ptr == hdr.ptr + hdr.size
  {
    HeaderAtInBounds(buf, hdr.ptr + hdr.size, size);
  }

  /**
   * The usual chain Ethernet, then IPv4 or IPv6, then an ICMP, ICMPv6, TCP or UDP header:
   * when the three records fit, every step is granted and the transport header lies right
   * after the network header.
   */
  lemma ChainToTransport(buf: NetworkBuffer, ipv6: bool, l4: usize)
    requires ChecksContainment(buf)
    requires l4 == Bindings.ICMPHDR_SIZE || l4 == Bindings.ICMP6HDR_SIZE
          || l4 == Bindings.TCPHDR_SIZE || l4 == Bindings.UDPHDR_SIZE
    requires buf.data_start + Bindings.ETHHDR_SIZE
           + (if ipv6 then Bindings.IPV6HDR_SIZE else Bindings.IPHDR_SIZE) + l4 <= buf.data_end
    ensures var l3 := if ipv6 then Bindings.IPV6HDR_SIZE else Bindings.IPHDR_SIZE;
      var ip := Next(EthHdr(buf).value, buf, l3);
      EthHdr(buf).Ok? && ip.Ok? && Next(ip.value, buf, l4).Ok?
      && Next(ip.value, buf, l4).value.ptr == buf.data_start + Bindings.ETHHDR_SIZE + l3
  {
    ChainFromEthernet(buf, if ipv6 then Bindings.IPV6HDR_SIZE else Bindings.IPHDR_SIZE, l4);
  }
}
