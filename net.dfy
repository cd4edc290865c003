/**
 * The typed header views of the overlay and the header records they point to.
 *
 * A `Header` is the address a `Header<T>` holds, together with `size_of::<T>()`. The record
 * behind it is an object of class `EthHdr`, `IPHdr` or `IPv6Hdr`, whose field `hdr` is the
 * record value in packet memory; the readers look at that value and `SwapAddr` rewrites it.
 */
module Net {
  import opened Ints
  import opened Wrappers
  import opened Probes
  import opened Bindings

  /** `BE_ETH_P_IP` and `BE_ETH_P_IPV6`: the EtherTypes in network byte order, as `u16`s. */
  const BE_ETH_P_IP: u16 := ToBe16(ETH_P_IP)
  const BE_ETH_P_IPV6: u16 := ToBe16(ETH_P_IPV6)

  /** `Header<T>`: the address of a `T` in the packet and the size of `T`. */
  datatype Header = Header(ptr: usize, size: usize)

  /** `Header::new`: a header at any non-null pointer. */
  function New(ptr: usize, size: usize): (r: Option<Header>)
    ensures r.None? <==> ptr == 0
    ensures r.Some? ==> r.value.ptr == ptr && r.value.size == size
  {
    if ptr == 0 then None else Some(Header(ptr, size))
  }

  /**
   * `TryFrom<*const T>` and `TryFrom<*mut T>` for `Header<T>`; a pointer's mutability is not
   * part of this model, so one function stands for both.
   */
  function TryFrom(ptr: usize, size: usize): (r: Result<Header, NetworkError>)
    ensures r.Err? <==> ptr == 0
    ensures r.Err? ==> r.error == Other
    ensures r.Ok? ==> Some(r.value) == New(ptr, size)
  {
    OkOr(New(ptr, size), Other)
  }

  /** The record behind an `EthHdr`. */
  class EthHdr {
    var hdr: Ethhdr

    constructor (h: Ethhdr)
      ensures hdr == h
    {
      hdr := h;
    }

    /** `EthHdr::proto`: the raw `h_proto`, with no byte-order conversion. */
    function Proto(): (p: u16)
      reads this
      ensures p == hdr.h_proto
    {
      hdr.h_proto
    }

    /** `EthHdr::swap_addr`: exchanges source and destination in place. */
    method SwapAddr()
      modifies this
      ensures hdr == EthSwapped(old(hdr))
    {
      hdr := hdr.(h_source := hdr.h_dest, h_dest := hdr.h_source);
    }
  }

  /** An `ethhdr` with its two addresses exchanged. */
  function EthSwapped(h: Ethhdr): (r: Ethhdr)
    ensures r.h_dest == h.h_source && r.h_source == h.h_dest && r.h_proto == h.h_proto
  {
    Ethhdr(h.h_source, h.h_dest, h.h_proto)
  }

  /** The record behind an `IPHdr`. */
  class IPHdr {
    var hdr: Iphdr

    constructor (h: Iphdr)
      ensures hdr == h
    {
      hdr := h;
    }

    /** `IPHdr::fragmented`: `frag_off & 0x3FFF != 0` on the raw field. */
    function Fragmented(): (b: bool)
      reads this
      ensures b <==> hdr.frag_off % 0x4000 != 0
    {
      hdr.frag_off % 0x4000 != 0
    }

    /**
     * `fragmented` as evidently intended: `frag_off` converted from network byte order
     * before the `0x3FFF` mask (`IP_MF | IP_OFFSET`) is applied.
     */
    function FragmentedHostOrder(): (b: bool)
      reads this
      ensures b <==> ToBe16(hdr.frag_off) % 0x4000 != 0
    {
      ToBe16(hdr.frag_off) % 0x4000 != 0
    }

    /** `IPHdr::swap_addr`: exchanges source and destination in place. */
    method SwapAddr()
      modifies this
      ensures hdr == IpSwapped(old(hdr))
    {
      hdr := hdr.(saddr := hdr.daddr, daddr := hdr.saddr);
    }
  }

  /** An `iphdr` with its two addresses exchanged and every other field kept. */
  function IpSwapped(h: Iphdr): (r: Iphdr)
    ensures r.saddr == h.daddr && r.daddr == h.saddr
    ensures r.(saddr := h.saddr, daddr := h.daddr) == h
  {
    h.(saddr := h.daddr, daddr := h.saddr)
  }

  /** The record behind an `IPv6Hdr`. */
  class IPv6Hdr {
    var hdr: Ipv6hdr

    constructor (h: Ipv6hdr)
      ensures hdr == h
    {
      hdr := h;
    }

    /**
     * `IPv6Hdr::traffic_class`: `((priority() << 4) & 0xF0) | ((flow_lbl[0] >> 4) & 0x0F)`.
     * `priority()` is below 16, so the byte-wide shift loses no bit and `& 0xF0` keeps them
     * all; the two nibbles share no bit, so `|` adds them.
     */
    function TrafficClass(): (tc: u8)
      reads this
      ensures tc / 0x10 == hdr.priority
      ensures tc % 0x10 == hdr.flow_lbl[0] / 0x10
    {
      (hdr.priority * 0x10) % 0x100 + (hdr.flow_lbl[0] / 0x10) % 0x10
    }

    /** `IPv6Hdr::swap_addr`: exchanges source and destination in place. */
    method SwapAddr()
      modifies this
      ensures hdr == Ipv6Swapped(old(hdr))
    {
      hdr := hdr.(saddr := hdr.daddr, daddr := hdr.saddr);
    }
  }

  /** An `ipv6hdr` with its two addresses exchanged and every other field kept. */
  function Ipv6Swapped(h: Ipv6hdr): (r: Ipv6hdr)
    ensures r.saddr == h.daddr && r.daddr == h.saddr
    ensures r.(saddr := h.saddr, daddr := h.daddr) == h
  {
    h.(saddr := h.daddr, daddr := h.saddr)
  }

  /** Swapping the addresses twice gives back the original header, for all three records. */
  lemma SwapInvolutions(e: Ethhdr, i: Iphdr, i6: Ipv6hdr)
    ensures EthSwapped(EthSwapped(e)) == e
    ensures IpSwapped(IpSwapped(i)) == i
    ensures Ipv6Swapped(Ipv6Swapped(i6)) == i6
  {
  }

  /**
   * On the little-endian target the raw EtherType equals the pre-swapped constant exactly
   * when the two wire bytes spell the host-order EtherType of RFC 894 framing.
   */
  lemma ProtoMatchesWire(h: EthHdr, b: seq<u8>)
    requires |b| >= ETHHDR_SIZE && h.hdr == EthhdrFromBytes(b)
    ensures h.Proto() == BE_ETH_P_IP <==> WireBe16(b[12], b[13]) == ETH_P_IP
    ensures h.Proto() == BE_ETH_P_IPV6 <==> WireBe16(b[12], b[13]) == ETH_P_IPV6
  {
    Load16IsSwappedWire(b[12], b[13]);
    ToBe16Involution(WireBe16(b[12], b[13]));
    ToBe16Involution(ETH_P_IP);
    ToBe16Involution(ETH_P_IPV6);
  }

  /**
   * Section 3.1 of RFC 791: a datagram is a fragment when More Fragments (bit 2 of the
   * flags) is set or the Fragment Offset (the low 13 bits) is non-zero. Bytes 6 and 7 of the
   * header hold flags and offset in network byte order.
   */
  predicate WireIsFragment(b: seq<u8>)
    requires |b| >= IPHDR_SIZE
  {
    var f := WireBe16(b[6], b[7]);
    f / 0x2000 % 2 == 1 || f % 0x2000 != 0
  }

  /**
   * As written, `fragmented` tests the raw little-endian value, which holds the wire byte 6
   * in its low half: it fires on any bit of byte 6 (Don't Fragment and the reserved bit
   * included) and on the low six bits of byte 7.
   */
  lemma FragmentedOnWire(h: IPHdr, b: seq<u8>)
    requires |b| >= IPHDR_SIZE && h.hdr == IphdrFromBytes(b)
    ensures h.Fragmented() <==> b[6] != 0 || b[7] % 0x40 != 0
  {
  }

  /**
   * An unfragmented datagram with only Don't Fragment set (wire bytes 6 and 7 are 0x40 0x00)
   * is reported as fragmented.
   */
  lemma FragmentedDontFragmentOnly(h: IPHdr, b: seq<u8>)
    requires |b| >= IPHDR_SIZE && h.hdr == IphdrFromBytes(b)
    requires b[6] == 0x40 && b[7] == 0x00
    ensures h.Fragmented() && !WireIsFragment(b)
  {
  }

  /** With the byte-order conversion the test is exactly the RFC 791 fragment test. */
  lemma FragmentedHostOrderMatchesWire(h: IPHdr, b: seq<u8>)
    requires |b| >= IPHDR_SIZE && h.hdr == IphdrFromBytes(b)
    ensures h.FragmentedHostOrder() <==> WireIsFragment(b)
  {
    Load16IsSwappedWire(b[6], b[7]);
    ToBe16Involution(WireBe16(b[6], b[7]));
    var f := WireBe16(b[6], b[7]);
    assert ToBe16(h.hdr.frag_off) == f;
    MaskSplit(f);
  }

  /** The low 14 bits of `f` are its bit 13 and its low 13 bits. */
  lemma MaskSplit(f: u16)
    ensures f % 0x4000 == 0x2000 * (f / 0x2000 % 2) + f % 0x2000
  {
    var q := f / 0x4000;
    var m := f / 0x2000 % 2;
    var o := f % 0x2000;
    assert f / 0x2000 == 2 * q + m;
    assert f == 0x4000 * q + 0x2000 * m + o;
  }

  /** The Traffic Class of section 3 of RFC 8200: bits 4 to 11 of the header's first word. */
  function WireTrafficClass(b: seq<u8>): (tc: u8)
    requires |b| >= 2
  {
    (b[0] % 0x10) * 0x10 + b[1] / 0x10
  }

  /** Read over packet bytes, `traffic_class` yields the wire Traffic Class. */
  lemma TrafficClassMatchesWire(h: IPv6Hdr, b: seq<u8>)
    requires |b| >= IPV6HDR_SIZE && h.hdr == Ipv6hdrFromBytes(b)
    ensures h.TrafficClass() == WireTrafficClass(b)
  {
  }

  /** Priority `0xA` with `flow_lbl[0] = 0x5?` gives Traffic Class `0xA5`. */
  lemma TrafficClassExample(h: IPv6Hdr)
    requires h.hdr.priority == 0xA && h.hdr.flow_lbl[0] / 0x10 == 0x5
    ensures h.TrafficClass() == 0xA5
  {
  }
}
