# redbpf-xdp header overlay, modelled in Dafny

`redbpf-xdp` lets an XDP program, which runs in the kernel once per received frame, treat
consecutive byte ranges of the packet as typed network headers. The program asks for the
Ethernet header at `data_start`. After that it asks for each next header directly behind the
previous one. Every view is granted only if the host's `check_bounds` accepts the record's
whole byte range.

The views expose a few derived readers and in-place edits:
- the EtherType;
- whether an IPv4 datagram is a fragment;
- the IPv6 Traffic Class;
- address swaps;
- recomputing the IPv4 header checksum.

The crate also wraps the kernel's array maps behind get / index / set, and C status codes
behind a `Result`.

The Dafny project has one module per part:

| module | file | what it holds |
|---|---|---|
| `Wrappers` | `wrappers.dfy` | `Option`, `Result`, `Option::ok_or` |
| `Ints` | `ints.dfy` | the fixed-width integer types as integer ranges; wrap-around `usize` addition |
| `Probes` | `probes.dfy` | the `redbpf_probes` interface the overlay relies on: `NetworkError`, and a packet buffer whose `check_bounds` is a parameter |
| `Bindings` | `bindings.dfy` | `ethhdr`, `iphdr` and `ipv6hdr` as records; their records' little-endian memory image (RFC 791 section 3.1 and RFC 8200 section 3 layouts); the EtherType constants and record sizes |
| `Error` | `error.dfy` | `IntoResult::ok`, `Errno` and its conversions |
| `Net` | `net.dfy` | `Header<T>` and its null-checked construction; the record classes `EthHdr`, `IPHdr` and `IPv6Hdr`, with their readers and `swap_addr` |
| `Buf` | `buf.dfy` | `header_at`, `header_after`, `eth_hdr`, and `Header::next` |
| `Csum` | `csum.dfy` | `csum_fold_helper`, `ipv4_csum_inline` and `compute_checksum`, and their relation to the ones'-complement sum of RFC 1071 and the checksum of RFC 791 |
| `Maps` | `maps.dfy` | the `bpf_map_def` descriptor, the `Array`/`ProgArray`/`PerCpuArray` presets, and `GenericArray<T>` over the host's slots |

Modelling choices:

- **The view.** A view (`Header<T>`) is the pair of an address and `size_of::<T>()`.
- **The records.** The record a view points to is an object whose field `hdr` holds the record
  value. `swap_addr` and `compute_checksum` are methods that rewrite that field.
- **Integer fields.** `__be16` and `__be32` fields hold the value the little-endian target
  loads from memory. `ToBe16` is `u16::to_be` on that target.
- **Bit operations.** They are written arithmetically:
  - `& (2^k - 1)` is `% 2^k`;
  - `>> k` is `/ 2^k`;
  - `<< k` is `* 2^k`;
  - `|` of disjoint bit ranges is `+`.
- **Host calls.** The host's `check_bounds` is a function-valued field of the buffer. The
  host's verdict on a map update is a parameter. The host's map storage is a `map` field of the
  array object.

The source crate has a module cycle: `net.rs` calls into `buf.rs` and back. Dafny modules
cannot have one, so `Header::next` is declared in `Buf`, next to `header_after`, which it
calls.

## Model

| member | source | states |
|---|---|---|
| `Wrappers.OkOr` | redbpf-xdp/src/net.rs:104 | a present value becomes `Ok` of it, an absent one `Err` of the given error |
| `Ints.WrappingAdd` | redbpf-xdp/src/buf.rs:14 | `addr + size` on `usize`: the exact sum when it fits below 2^64, otherwise the sum less 2^64, which is then below `addr` |
| `Net.New` | redbpf-xdp/src/net.rs:117-119 | `None` exactly for the null pointer, otherwise a header at that pointer with the record's size |
| `Net.TryFrom` | redbpf-xdp/src/net.rs:100-114 | fails exactly for the null pointer, and then with `Error::Other`; otherwise the header `new` builds |
| `Net.EthHdr.Proto` | redbpf-xdp/src/net.rs:143-145 | the raw `h_proto` field, with no byte-order conversion |
| `Net.ProtoMatchesWire` | redbpf-xdp/src/net.rs:18-19 | on the little-endian target, the raw EtherType equals `BE_ETH_P_IP` / `BE_ETH_P_IPV6` exactly when the two wire bytes spell `ETH_P_IP` / `ETH_P_IPV6` |
| `Bindings.ToBe16Involution` | redbpf-xdp/src/net.rs:18-19 | `to_be` on a little-endian `u16` exchanges its bytes, and doing it twice gives the value back |
| `Bindings.Load16IsSwappedWire` | redbpf-xdp/src/net.rs:18-19 | the `u16` loaded from two packet bytes is the network-order value read from them, byte-swapped |
| `Bindings.ToBe16` | redbpf-xdp/src/net.rs:18-19 | `to_be` on the little-endian target: the low byte of the result is the high byte of the argument and the reverse |
| `Bindings.IphdrImage` | redbpf-xdp/src/net.rs:135 | the 20 bytes an `iphdr` occupies in memory, from which the record reads back unchanged |
| `Bindings.IphdrImageOfBytes` | redbpf-xdp/src/net.rs:135 | every 20 bytes are the memory of the `iphdr` read from them, so the record and its memory determine each other |
| `Net.EthHdr.SwapAddr` | redbpf-xdp/src/net.rs:147-150 | the new header is the old one with `h_source` and `h_dest` exchanged |
| `Net.EthSwapped` | redbpf-xdp/src/net.rs:147-150 | the two addresses are exchanged and `h_proto` is kept |
| `Net.IPHdr.Fragmented` | redbpf-xdp/src/net.rs:154-156 | true exactly when the raw `frag_off` has a bit set among its low 14 |
| `Net.FragmentedOnWire` | redbpf-xdp/src/net.rs:154-156 | over packet bytes, `fragmented` fires exactly when wire byte 6 is non-zero or wire byte 7 has one of its low six bits set |
| `Net.FragmentedDontFragmentOnly` | redbpf-xdp/src/net.rs:154-156 | a header whose flags and offset bytes are `0x40 0x00` (Don't Fragment only) is reported fragmented although RFC 791 says it is not a fragment |
| `Net.IPHdr.FragmentedHostOrder` | redbpf-xdp/src/net.rs:154-156 | the test with `frag_off` converted from network order first: a bit set among the low 14 of the host-order value |
| `Net.FragmentedHostOrderMatchesWire` | redbpf-xdp/src/net.rs:154-156 | the converted test holds exactly when More Fragments is set or the Fragment Offset is non-zero (RFC 791 section 3.1) |
| `Net.IPHdr.SwapAddr` | redbpf-xdp/src/net.rs:158-161 | the new header is the old one with `saddr` and `daddr` exchanged |
| `Net.IpSwapped` | redbpf-xdp/src/net.rs:158-161 | the addresses are exchanged and every other field is kept |
| `Net.IPv6Hdr.TrafficClass` | redbpf-xdp/src/net.rs:165-167 | the high nibble is `priority`, the low nibble is the top nibble of `flow_lbl[0]` |
| `Net.TrafficClassMatchesWire` | redbpf-xdp/src/net.rs:165-167 | over packet bytes, the result is bits 4 to 11 of the header's first word, the Traffic Class of RFC 8200 section 3 |
| `Net.TrafficClassExample` | redbpf-xdp/src/net.rs:165-167 | priority `0xA` with `flow_lbl[0] = 0x5?` gives `0xA5` |
| `Net.IPv6Hdr.SwapAddr` | redbpf-xdp/src/net.rs:169-172 | the new header is the old one with `saddr` and `daddr` exchanged |
| `Net.Ipv6Swapped` | redbpf-xdp/src/net.rs:169-172 | the addresses are exchanged and every other field is kept |
| `Net.SwapInvolutions` | redbpf-xdp/src/net.rs:147-172 | swapping the addresses twice restores the Ethernet, IPv4 and IPv6 header |
| `Buf.HeaderAt` | redbpf-xdp/src/buf.rs:13-17 | succeeds exactly when `check_bounds(addr, addr + size)` does; on success the view is at `addr`; on failure `check_bounds`'s error is passed on unchanged |
| `Buf.HeaderAfter` | redbpf-xdp/src/buf.rs:20-22 | is `header_at` at one past the previous record, a function of the previous view's address and size alone |
| `Buf.EthHdr` | redbpf-xdp/src/buf.rs:26-28 | is `header_at` of an `ethhdr` at `data_start` |
| `Buf.Next` | redbpf-xdp/src/net.rs:129-131 | is the context's `header_after` applied to the header |
| `Buf.HeaderAtInBounds` | redbpf-xdp/src/buf.rs:13-17 | with a containment `check_bounds`, a view is granted exactly when the whole record lies in `[data_start, data_end)`, a wrapped end included |
| `Buf.HeaderAtEdge` | redbpf-xdp/src/buf.rs:13-17 | a record that ends exactly at `data_end` is granted; the same record one byte longer is refused |
| `Buf.HeaderAtNonNull` | redbpf-xdp/src/buf.rs:16 | a granted view in a packet that does not start at 0 is non-null, so `new_unchecked` agrees with `new` |
| `Buf.ChainFromEthernet` | redbpf-xdp/src/buf.rs:13-28 | when the records fit, Ethernet and two chained steps are granted and land at `data_start + 14` and `data_start + 14 + size2` |
| `Buf.ChainIsHeaderAtEnd` | redbpf-xdp/src/buf.rs:20-22 | `header_after` is granted exactly when the next record fits after the previous one, and lands right after it |
| `Buf.ChainToTransport` | redbpf-xdp/src/net.rs:134-140 | Ethernet, then IPv4 or IPv6, then an ICMP, ICMPv6, TCP or UDP header (sizes 8, 8, 20, 8): when all three fit, every step is granted and the transport header lies right after the network header |
| `Csum.FoldStep` | redbpf-xdp/src/csum.rs:20-23 | one loop pass never increases the accumulator |
| `Csum.FoldIter` | redbpf-xdp/src/csum.rs:19-24 | the accumulator after `n` loop passes, never above the input |
| `Csum.CsumFold` | redbpf-xdp/src/csum.rs:18-26 | the value `csum_fold_helper` returns: its sum with the input is a multiple of 0xFFFF, and it is 0xFFFF exactly for input 0 |
| `Csum.FoldStepCongruent` | redbpf-xdp/src/csum.rs:20-23 | one pass keeps the accumulator's value modulo 0xFFFF |
| `Csum.FoldStepZero` | redbpf-xdp/src/csum.rs:20-23 | one pass yields 0 exactly from 0 |
| `Csum.FoldStepStable` | redbpf-xdp/src/csum.rs:20-23 | a pass leaves an accumulator below 2^16 unchanged |
| `Csum.FoldStepBound` | redbpf-xdp/src/csum.rs:20-23 | for `hi >= 1` and `0xFFFE <= lo <= 0xFFFF`, an accumulator of at most `2^16 * hi + lo` is at most `hi + lo` after one pass |
| `Csum.FoldIterCongruent` | redbpf-xdp/src/csum.rs:19-24 | any number of passes keeps the value modulo 0xFFFF |
| `Csum.FoldIterZero` | redbpf-xdp/src/csum.rs:19-24 | after any number of passes the accumulator is 0 exactly when it started at 0 |
| `Csum.FoldIterStable` | redbpf-xdp/src/csum.rs:19-24 | once the accumulator is below 2^16, later passes leave it unchanged |
| `Csum.FoldIterBelow` | redbpf-xdp/src/csum.rs:19-25 | after the four passes any `u64` is below 2^16, so the `as u16` cast drops nothing |
| `Csum.CsumFoldMeaning` | redbpf-xdp/src/csum.rs:19-25 | the result is `0xFFFF` minus the folded value, which is below 2^16, congruent to the input modulo 0xFFFF and 0 only for 0 |
| `Csum.FoldIsOnesComplementSum` | redbpf-xdp/src/csum.rs:19-25 | the four passes compute exactly the ones'-complement sum of RFC 1071, written independently in closed form |
| `Csum.CsumFoldHelper` | redbpf-xdp/src/csum.rs:17-26 | the loop returns the complemented fold; the result plus the input is a multiple of 0xFFFF; the result is 0xFFFF exactly for input 0 |
| `Csum.WordsAreMemory` | redbpf-xdp/src/csum.rs:44-49 | word `i` of the ten the header is read as is the native `u16` at bytes `2i` and `2i+1` of the record's memory |
| `Csum.Words` | redbpf-xdp/src/csum.rs:44-49 | ten words (`size_of::<iphdr>() / 2`), the sixth being `check` |
| `Csum.Sum` | redbpf-xdp/src/csum.rs:50 | the sum of `n` words lies between 0 and `0xFFFF * n` |
| `Csum.WordSum` | redbpf-xdp/src/csum.rs:50 | the `fold` of `+` over the words on a `u64`: the seed plus the words, modulo 2^64 |
| `Csum.WordSumNoWrap` | redbpf-xdp/src/csum.rs:50 | when the seed leaves room, the `u64` fold adds the words exactly, with no wrap |
| `Csum.Ipv4CsumInline` | redbpf-xdp/src/csum.rs:42-52 | the result is the fold of the seed plus exactly the ten header words; with room in the seed, result + seed + words is a multiple of 0xFFFF |
| `Csum.WithChecksum` | redbpf-xdp/src/csum.rs:11-14 | the header after `compute_checksum` differs from the old one in `check` alone |
| `Csum.ComputeChecksum` | redbpf-xdp/src/csum.rs:11-14 | the record is rewritten to `WithChecksum` of its old value: `check` zeroed, then the checksum of that header written to it |
| `Csum.ComputeChecksumIdempotent` | redbpf-xdp/src/csum.rs:11-14 | computing the checksum again changes nothing |
| `Csum.SumWithCheck` | redbpf-xdp/src/csum.rs:12-13 | writing `c` into the zeroed `check` adds `c` to the sum of the words |
| `Csum.ComplementCancels` | redbpf-xdp/src/csum.rs:17-26 | adding a sum's complemented fold to it gives a sum whose complemented fold is 0 |
| `Csum.ComputeChecksumVerifies` | redbpf-xdp/src/csum.rs:11-14 | after `compute_checksum`, folding the ten words of the fixed record, the new `check` included, gives 0: the receiver's test of RFC 1071, which is RFC 791's test over the whole header when IHL is 5 |
| `Csum.ChecksumExample` | redbpf-xdp/src/csum.rs:11-14 | a header that is zero except for version 4 and IHL 5 gets native `check` 0xFFBA, the wire bytes `0xBA 0xFF` |
| `Csum.WireWordsAt` | redbpf-xdp/src/csum.rs:44-49 | the network-order words of a byte string are the pairs of bytes read big-endian |
| `Csum.SumSwapWords` | redbpf-xdp/src/csum.rs:50 | byte-swapping every word multiplies the sum by 0x100, less a multiple of 0xFFFF |
| `Csum.SumZeroIff` | redbpf-xdp/src/csum.rs:50 | a sum of words is zero exactly when every word is |
| `Csum.OnesComplementSumSwap` | redbpf-xdp/src/csum.rs:50-51 | the ones'-complement sum of byte-swapped words is the byte-swapped ones'-complement sum (RFC 1071 section 2(B)) |
| `Csum.ImageWithZeroCheck` | redbpf-xdp/src/csum.rs:12 | zeroing `check` zeroes bytes 10 and 11 of the header's memory and nothing else |
| `Csum.WireWordsOfImage` | redbpf-xdp/src/csum.rs:44-49 | the network-order words of the header's memory are its native words byte-swapped |
| `Csum.CheckBytes` | redbpf-xdp/src/csum.rs:13 | bytes 10 and 11 of the header's memory hold `check` in native order |
| `Csum.FixedHeaderChecksumOfImage` | redbpf-xdp/src/csum.rs:11-14 | the checksum of a record's 20 fixed bytes, expressed through its native words |
| `Csum.ComputeChecksumOnFixedBytes` | redbpf-xdp/src/csum.rs:11-14 | for any IHL, on the little-endian target, `compute_checksum` leaves in bytes 10 and 11, in network order, the checksum of the record's 20 fixed bytes, options not included |
| `Csum.ImageIhl` | redbpf-xdp/src/csum.rs:44-47 | the low nibble of the record's first byte is `ihl`, the header length RFC 791 sums over |
| `Csum.ComputeChecksumOnWire` | redbpf-xdp/src/csum.rs:11-14 | for a header without options (IHL 5), on the little-endian target, `compute_checksum` leaves in bytes 10 and 11 exactly the RFC 791 section 3.1 checksum of the whole header, in network order |
| `Error.IntoResult` | redbpf-xdp/src/error.rs:11-19 | `Ok(())` exactly for 0; otherwise an `Errno` carrying the same code |
| `Error.IntoResultErr` | redbpf-xdp/src/error.rs:16 | `ok()` is `Err(e)` exactly when the code is non-zero and `e` is `Errno` of it |
| `Error.ErrnoFromI32` | redbpf-xdp/src/error.rs:25-29 | converting back gives the code |
| `Error.I32FromErrno` | redbpf-xdp/src/error.rs:31-35 | the result is the code the `Errno` wraps |
| `Error.ConversionsRoundTrip` | redbpf-xdp/src/error.rs:25-35 | the two `From` conversions are inverse to each other in both directions |
| `Error.EqI32` | redbpf-xdp/src/error.rs:37-41 | `Errno(x) == y` exactly when `x == y` |
| `Error.EqI32IsErrnoEquality` | redbpf-xdp/src/error.rs:21-41 | comparing with an `i32` agrees with the derived equality of `Errno`s |
| `Maps.ArrayDef` | redbpf-xdp/src/maps.rs:65-76 | the descriptor has the given type and `max_entries`, `key_size` 4, `value_size` the size of `T`, `map_flags` 0 |
| `Maps.PresetDef` | redbpf-xdp/src/maps.rs:31-41 | each declared map type builds the generic descriptor with its own fixed type tag |
| `Maps.MapType` | redbpf-xdp/src/maps.rs:39-41 | each declared map type has its own tag: ARRAY exactly for `Array`, PROG_ARRAY exactly for `ProgArray`, PERCPU_ARRAY exactly for `PerCpuArray` |
| `Maps.PresetsDifferOnlyInType` | redbpf-xdp/src/maps.rs:12-41 | `Array`, `ProgArray` and `PerCpuArray` descriptors agree in every field but the type tag, and their tags differ |
| `Maps.GenericArray.WithMaxEntries` | redbpf-xdp/src/maps.rs:65-76 | the array's descriptor is `ArrayDef` of the arguments |
| `Maps.GenericArray.Preset` | redbpf-xdp/src/maps.rs:31-35 | the array's descriptor is the preset's |
| `Maps.GenericArray.Lookup` | redbpf-xdp/src/maps.rs:102-108 | `None` exactly when the host has no slot at the index, otherwise that slot's value |
| `Maps.GenericArray.Get` | redbpf-xdp/src/maps.rs:78-81 | `None` exactly when the host has no slot, otherwise that slot's value |
| `Maps.GenericArray.GetMut` | redbpf-xdp/src/maps.rs:83-86 | `None` exactly when the host has no slot, otherwise that slot's value |
| `Maps.GenericArray.Index` | redbpf-xdp/src/maps.rs:49-55 | callable only on a present slot, because `unwrap` panics otherwise; returns that slot's value |
| `Maps.GenericArray.IndexMut` | redbpf-xdp/src/maps.rs:57-61 | callable only on a present slot; writing through it updates that slot alone |
| `Maps.GenericArray.UpdateElem` | redbpf-xdp/src/maps.rs:92-97 | the update with `BPF_ANY` returns the host's code; on 0 the slot holds the value, otherwise the store is unchanged |
| `Maps.GenericArray.Set` | redbpf-xdp/src/maps.rs:88-100 | the result is `ok()` of the host's code; on `Ok` the slot holds the value, on `Err` nothing changed |
| `Maps.SetThenGet` | redbpf-xdp/src/maps.rs:78-100 | after a successful `set`, `get` sees the new value; after a failed one, the old slot; another index is unaffected |

## Left out

- `ipv4_csum` and `bpf_csum_diff` (redbpf-xdp/src/csum.rs:28-40) are left out. The helper is a foreign kernel call and nothing calls `ipv4_csum`. Its length argument casts the function item `mem::size_of::<T>` instead of calling it, so it has no faithful value.
- `Errno::last_os_error`, `errno`, `reason` and `Display` (redbpf-xdp/src/error.rs:43-95) are left out: they call C (`__errno_location`, `strerror_r`) and format std `String`s.
- The `addr` module (redbpf-xdp/src/net.rs:21-80) is left out: it reinterprets `in6_addr` as slices of `u8`, `u16` or `u32` through unsafe union access.
- `Deref`/`DerefMut` and `new_unchecked` aliasing is not captured: the model does not tie a view's address to the object holding its record.
- `Header::as_ptr` is not modelled on its own; it is the `ptr` field of the view.
- `check_bounds`, `data_start`, `data_end` and `Context` belong to `redbpf_probes`, whose source is not part of this model. `check_bounds` is a parameter, characterised where needed by containment in `[data_start, data_end)`.
- Host map behaviour is an abstract store: per-CPU isolation, the kernel's rule that every array slot exists, and why an update fails are not modelled.
- The re-exported `HashMap`, `PerfMap` and `PerfMapFlags` (redbpf-xdp/src/maps.rs:10) are not part of this model.
- `Maps.GenericArray.GetMut`: the returned `&mut T` is not modelled as a live alias into the slot. Writes through it are modelled by `IndexMut`.
- `Maps.GenericArray.UpdateElem`: only the `BPF_ANY` flag that `set` passes is modelled.
- Map keys are `u32` values as integers `0 <= k < 2^32`, not Dafny bit-vectors; the index is a plain number throughout.
- `Maps.ArrayDef`: `size_of::<T>() as u32` is taken modulo 2^32; the size of `T` is a parameter.
- `Ints.WrappingAdd`: `addr + size_of::<T>()` is modelled as wrapping modulo 2^64, as in an optimised build; a debug build's overflow panic is not modelled.
- The target is little-endian only, as the eBPF target `bpfel`. `BE_ETH_P_*`, `proto` and the checksum results are stated for that byte order.
- `build.rs`, `lib.rs` and the generated `bindings.rs` are not part of this model. The records follow the Linux UAPI `ethhdr`, `iphdr` and `ipv6hdr`, laid out as RFC 894, RFC 791 section 3.1 and RFC 8200 section 3 describe. The derived readers on records (`priority()`, the `ihl`/`version` nibbles) are fields.
- The ICMP, ICMPv6, TCP and UDP view aliases (redbpf-xdp/src/net.rs:137-140) have no readers in the overlay. Their records are modelled only by their sizes, which `Buf.ChainToTransport` chains.
- Csum.ComputeChecksum: IPv4 options (IHL > 5) are not summed, because `ipv4_csum_inline` reads `size_of::<iphdr>() / 2 = 10` words whatever IHL says (redbpf-xdp/src/csum.rs:46-47). So the stored value is the RFC 791 checksum only for headers without options. `Csum.ComputeChecksumOnWire` states it for IHL 5; `Csum.ComputeChecksumOnFixedBytes` states what is stored for any IHL. The record has no option bytes, so no options-inclusive checksum is modelled.
- Neither `proto` nor the checksum summation converts byte order, though one might read them as big-endian readers. `proto` returns the raw loaded value and `ipv4_csum_inline` sums native loads. The model follows the code. `Net.ProtoMatchesWire` and `Csum.ComputeChecksumOnWire` show that both are still right on the wire.

## Findings

| source | as written | input that shows it | evidently intended | confidence | as-written member | corrected member |
|---|---|---|---|---|---|---|
| redbpf-xdp/src/net.rs:154-156 | `fragmented` masks the raw `__be16` `frag_off` with `0x3FFF`, with no byte-order conversion; on the little-endian target the mask hits the wrong bits | a header whose bytes 6 and 7 are `0x40 0x00`: Don't Fragment only, offset 0, not a fragment, reported as fragmented | mask the host-order value: `u16::from_be(frag_off) & 0x3FFF != 0`, i.e. More Fragments set or offset non-zero | not executed | `Net.FragmentedDontFragmentOnly` | `Net.IPHdr.FragmentedHostOrder`, proved in `Net.FragmentedHostOrderMatchesWire` |
