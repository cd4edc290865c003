/**
 * The header records `ethhdr`, `iphdr` and `ipv6hdr` that the bindings generate from the
 * Linux UAPI headers, their sizes, the EtherType constants, and how each record lies in
 * memory. The target is little-endian (`bpfel`), so a `__be16` field read as a `u16` holds
 * the two wire bytes in swapped order.
 */
module Bindings {
  import opened Ints

  type MacAddr = s: seq<u8> | |s| == 6 witness [0, 0, 0, 0, 0, 0]

  type FlowLabel = s: seq<u8> | |s| == 3 witness [0, 0, 0]

  type In6Addr = s: seq<u8> | |s| == 16 witness [0, 0, 0, 0, 0, 0, 0, 0, 0, 0, 0, 0, 0, 0, 0, 0]

  /** EtherType of IPv4 and of IPv6, in host order. */
  const ETH_P_IP: u16 := 0x0800
  const ETH_P_IPV6: u16 := 0x86DD

  /** `mem::size_of` of each record the overlay hands out. */
  const ETHHDR_SIZE: usize := 14
  const IPHDR_SIZE: usize := 20
  const IPV6HDR_SIZE: usize := 40
  const ICMPHDR_SIZE: usize := 8
  const ICMP6HDR_SIZE: usize := 8
  const TCPHDR_SIZE: usize := 20
  const UDPHDR_SIZE: usize := 8

  /** `ethhdr`: destination and source MAC, and the EtherType as the raw `__be16` in memory. */
  datatype Ethhdr = Ethhdr(h_dest: MacAddr, h_source: MacAddr, h_proto: u16)

  /**
   * `iphdr`, the fixed 20-byte IPv4 header of section 3.1 of RFC 791. `ihl` and `version`
   * are the two bit-fields of the first byte; the multi-byte fields are the raw memory values.
   */
  datatype Iphdr = Iphdr(
    ihl: u4, version: u4, tos: u8, tot_len: u16, id: u16, frag_off: u16,
    ttl: u8, protocol: u8, check: u16, saddr: u32, daddr: u32)

  /**
   * `ipv6hdr`, the fixed 40-byte IPv6 header of section 3 of RFC 8200. `priority` and
   * `version` are the bit-fields of the first byte: `priority` holds the upper four bits of
   * the Traffic Class, whose lower four bits open `flow_lbl[0]`.
   */
  datatype Ipv6hdr = Ipv6hdr(
    priority: u4, version: u4, flow_lbl: FlowLabel, payload_len: u16,
    nexthdr: u8, hop_limit: u8, saddr: In6Addr, daddr: In6Addr)

  /** A `u16` load from two consecutive bytes of memory (little-endian). */
  function Load16(b0: u8, b1: u8): u16 {
    b0 + 0x100 * b1
  }

  /** A `u16` store: the two bytes it writes. */
  function Store16(x: u16): (b: seq<u8>)
    ensures |b| == 2 && Load16(b[0], b[1]) == x
  {
    [x % 0x100, x / 0x100]
  }

  /** A `u32` load from four consecutive bytes of memory (little-endian). */
  function Load32(b: seq<u8>): u32
    requires |b| == 4
  {
    b[0] + 0x100 * (b[1] + 0x100 * (b[2] + 0x100 * (b[3] as int)))
  }

  /** A `u32` store: the four bytes it writes. */
  function Store32(x: u32): (b: seq<u8>)
    ensures |b| == 4 && Load32(b) == x
  {
    var q1 := x / 0x100;
    var q2 := q1 / 0x100;
    var q3 := q2 / 0x100;
    assert x == x % 0x100 + 0x100 * q1;
    assert q1 == q1 % 0x100 + 0x100 * q2;
    assert q2 == q2 % 0x100 + 0x100 * q3;
    [x % 0x100, q1 % 0x100, q2 % 0x100, q3]
  }

  lemma Store16OfLoad16(b0: u8, b1: u8)
    ensures Store16(Load16(b0, b1)) == [b0, b1]
  {
  }

  lemma Store32OfLoad32(b: seq<u8>)
    requires |b| == 4
    ensures Store32(Load32(b)) == b
  {
    var x := Load32(b);
    assert x / 0x100 == b[1] + 0x100 * (b[2] + 0x100 * (b[3] as int));
    assert x / 0x1_0000 == b[2] + 0x100 * (b[3] as int);
  }

  /** The 16-bit number two wire bytes stand for in network byte order. */
  function WireBe16(b0: u8, b1: u8): u16 {
    0x100 * b0 + b1
  }

  /** `u16::to_be`, and equally `u16::from_be`, on a little-endian target: the bytes swap. */
  function ToBe16(x: u16): (r: u16)
    ensures r % 0x100 == x / 0x100 && r / 0x100 == x % 0x100
  {
    0x100 * (x % 0x100) + x / 0x100
  }

  lemma ToBe16Involution(x: u16)
    ensures ToBe16(ToBe16(x)) == x
  {
  }

  /** Loading a wire field natively yields its network-order value with the bytes swapped. */
  lemma Load16IsSwappedWire(b0: u8, b1: u8)
    ensures Load16(b0, b1) == ToBe16(WireBe16(b0, b1))
    ensures ToBe16(Load16(b0, b1)) == WireBe16(b0, b1)
  {
    var w, l := WireBe16(b0, b1), Load16(b0, b1);
    assert w / 0x100 == b0 && w % 0x100 == b1;
    assert l / 0x100 == b1 && l % 0x100 == b0;
  }

  /** The `ethhdr` that lies over the first 14 bytes of `b`. */
  function EthhdrFromBytes(b: seq<u8>): (h: Ethhdr)
    requires |b| >= ETHHDR_SIZE
    ensures h.h_dest == b[0..6] && h.h_source == b[6..12]
  {
    Ethhdr(b[0..6], b[6..12], Load16(b[12], b[13]))
  }

  /** The 20 bytes an `iphdr` occupies in memory; the record read back from them is `h`. */
  function IphdrImage(h: Iphdr): (b: seq<u8>)
    ensures |b| == IPHDR_SIZE
    ensures IphdrFromBytes(b) == h
  {
    var head := IphdrHead(h);
    var b := head + Store16(h.check) + Store32(h.saddr) + Store32(h.daddr);
    assert b[..10] == head;
    assert b[0] == h.ihl + 0x10 * h.version && b[1] == h.tos && b[8] == h.ttl && b[9] == h.protocol;
    assert head[2..4] == Store16(h.tot_len) && head[4..6] == Store16(h.id) && head[6..8] == Store16(h.frag_off);
    assert b[10..12] == Store16(h.check);
    assert b[12..16] == Store32(h.saddr);
    assert b[16..20] == Store32(h.daddr);
    b
  }

  /** The first ten bytes of an `iphdr`, everything before `check`. */
  function IphdrHead(h: Iphdr): (b: seq<u8>)
    ensures |b| == 10
  {
    [h.ihl + 0x10 * h.version, h.tos]
      + Store16(h.tot_len) + Store16(h.id) + Store16(h.frag_off)
      + [h.ttl, h.protocol]
  }

  /** The `iphdr` that lies over the first 20 bytes of `b`. */
  function IphdrFromBytes(b: seq<u8>): Iphdr
    requires |b| >= IPHDR_SIZE
  {
    Iphdr(
      b[0] % 0x10, b[0] / 0x10, b[1],
      Load16(b[2], b[3]), Load16(b[4], b[5]), Load16(b[6], b[7]),
      b[8], b[9], Load16(b[10], b[11]),
      Load32(b[12..16]), Load32(b[16..20]))
  }

  /** Every 20 bytes are the image of the header read from them. */
  lemma IphdrImageOfBytes(b: seq<u8>)
    requires |b| == IPHDR_SIZE
    ensures IphdrImage(IphdrFromBytes(b)) == b
  {
    var h := IphdrFromBytes(b);
    Store16OfLoad16(b[2], b[3]);
    Store16OfLoad16(b[4], b[5]);
    Store16OfLoad16(b[6], b[7]);
    Store16OfLoad16(b[10], b[11]);
    Store32OfLoad32(b[12..16]);
    Store32OfLoad32(b[16..20]);
    assert IphdrHead(h) == b[..10];
    assert b == b[..10] + b[10..12] + b[12..16] + b[16..20];
  }

  /** The `ipv6hdr` that lies over the first 40 bytes of `b`. */
  function Ipv6hdrFromBytes(b: seq<u8>): (h: Ipv6hdr)
    requires |b| >= IPV6HDR_SIZE
    ensures h.flow_lbl == b[1..4] && h.saddr == b[8..24] && h.daddr == b[24..40]
  {
    Ipv6hdr(
      b[0] % 0x10, b[0] / 0x10, b[1..4], Load16(b[4], b[5]),
      b[6], b[7], b[8..24], b[24..40])
  }
}
