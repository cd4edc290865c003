/**
 * The IPv4 header checksum: the ones'-complement sum of RFC 1071 over the header's ten
 * 16-bit words, folded to 16 bits and complemented, stored in `check` (section 3.1 of
 * RFC 791).
 */
module Csum {
  import opened Ints
  import opened Bindings
  import Net

  /** One pass of the loop of `csum_fold_helper`: fold the bits above 16 into the low 16. */
  function FoldStep(c: u64): (r: u64)
    ensures r <= c
  {
    var n := c / TWO_16;
    if n != 0 then c % TWO_16 + n else c
  }

  /** The accumulator after `n` passes; passes never increase it. */
  function FoldIter(c: u64, n: nat): (r: u64)
    ensures r <= c
  {
    if n == 0 then c else FoldStep(FoldIter(c, n - 1))
  }

  /**
   * What `csum_fold_helper` returns: `!csum as u16` after four passes, the ones'-complement
   * negation of `c`, which is 0xFFFF only for a zero `c`.
   */
  function CsumFold(c: u64): (r: u16)
    ensures (r + c) % 0xFFFF == 0
    ensures r == 0xFFFF <==> c == 0
  {
    FoldIterBelow(c);
    FoldIterCongruent(c, 4);
    FoldIterZero(c, 4);
    0xFFFF - FoldIter(c, 4) % TWO_16
  }

  /** A fold keeps the value modulo 0xFFFF, since 0x10000 is 1 modulo 0xFFFF. */
  lemma FoldStepCongruent(c: u64)
    ensures FoldStep(c) % 0xFFFF == c % 0xFFFF
  {
    var q := c / TWO_16;
    var r := c % TWO_16;
    assert c == r + q + 0xFFFF * q;
  }

  /** A fold yields 0 only from 0. */
  lemma FoldStepZero(c: u64)
    ensures FoldStep(c) == 0 <==> c == 0
  {
  }

  /** A value already below 2^16 is left alone. */
  lemma FoldStepStable(c: u64)
    requires c < TWO_16
    ensures FoldStep(c) == c
  {
  }

  /**
   * A fold of a value at most `0x10000 * hi + lo` is at most `hi + lo` when `lo` is 0xFFFE
   * or 0xFFFF, because the high part can only reach `hi` when the low part stays at most `lo`.
   */
  lemma FoldStepBound(c: u64, hi: nat, lo: nat)
    requires 1 <= hi && 0xFFFE <= lo <= 0xFFFF
    requires c <= TWO_16 * hi + lo
    ensures FoldStep(c) <= hi + lo
  {
    var q := c / TWO_16;
    var r := c % TWO_16;
    assert c == TWO_16 * q + r;
    assert q <= hi;
    if q == hi {
      assert r <= lo;
    }
  }

  /** Every pass keeps the value modulo 0xFFFF. */
  lemma {:induction false} FoldIterCongruent(c: u64, n: nat)
    ensures FoldIter(c, n) % 0xFFFF == c % 0xFFFF
  {
    if n > 0 {
      FoldIterCongruent(c, n - 1);
      FoldStepCongruent(FoldIter(c, n - 1));
    }
  }

  /** The passes yield 0 exactly from 0. */
  lemma {:induction false} FoldIterZero(c: u64, n: nat)
    ensures FoldIter(c, n) == 0 <==> c == 0
  {
    if n > 0 {
      FoldIterZero(c, n - 1);
      FoldStepZero(FoldIter(c, n - 1));
    }
  }

  /** Once the accumulator is below 2^16, further passes leave it unchanged. */
  lemma {:induction false} FoldIterStable(c: u64, n: nat, m: nat)
    requires n <= m && FoldIter(c, n) < TWO_16
    ensures FoldIter(c, m) == FoldIter(c, n)
  {
    if n < m {
      FoldIterStable(c, n, m - 1);
      FoldStepStable(FoldIter(c, m - 1));
    }
  }

  /** Four passes bring any `u64` below 2^16, so the final `as u16` drops nothing. */
  lemma FoldIterBelow(c: u64)
    ensures FoldIter(c, 4) < TWO_16
  {
    FoldStepBound(c, 0x1_0000_0000_0000 - 1, 0xFFFF);
    FoldStepBound(FoldIter(c, 1), 0x1_0000_0000, 0xFFFE);
    FoldStepBound(FoldIter(c, 2), 0x1_0000, 0xFFFE);
    FoldStepBound(FoldIter(c, 3), 1, 0xFFFE);
  }

  /**
   * The folded value `f` is the ones'-complement sum of `c`: below 2^16, congruent to `c`
   * modulo 0xFFFF, and 0 only for 0; `CsumFold` is its complement `0xFFFF - f`.
   */
  lemma CsumFoldMeaning(c: u64)
    ensures FoldIter(c, 4) < TWO_16
    ensures CsumFold(c) == 0xFFFF - FoldIter(c, 4)
    ensures FoldIter(c, 4) % 0xFFFF == c % 0xFFFF
    ensures FoldIter(c, 4) == 0 <==> c == 0
  {
    FoldIterBelow(c);
    FoldIterCongruent(c, 4);
    FoldIterZero(c, 4);
  }

  /**
   * The ones'-complement sum of RFC 1071 as a closed form: end-around carries make a total
   * `s` worth `s` modulo 0xFFFF, written in 1..0xFFFF, and 0 only for an empty sum.
   */
  function OnesComplementSum(s: nat): (f: u16) {
    if s == 0 then 0 else (s - 1) % 0xFFFF + 1
  }

  /** The four passes of `csum_fold_helper` compute exactly the ones'-complement sum. */
  lemma FoldIsOnesComplementSum(c: u64)
    ensures FoldIter(c, 4) == OnesComplementSum(c)
    ensures CsumFold(c) == 0xFFFF - OnesComplementSum(c)
  {
    CsumFoldMeaning(c);
    var f := FoldIter(c, 4);
    if c != 0 {
      var k := (c - f) / 0xFFFF;
      assert c - f == 0xFFFF * k;
      assert c - 1 == 0xFFFF * k + (f - 1);
    }
  }

  /**
   * `csum_fold_helper`. The result is the ones'-complement negation of `csum0`: adding it
   * gives a multiple of 0xFFFF, and it is 0xFFFF only for a zero sum.
   */
  method CsumFoldHelper(csum0: u64) returns (r: u16)
    ensures r == CsumFold(csum0)
    ensures (r + csum0) % 0xFFFF == 0
    ensures r == 0xFFFF <==> csum0 == 0
  {
    var csum := csum0;
    for i := 0 to 4
      invariant csum == FoldIter(csum0, i)
    {
      var n := csum / TWO_16;
      if n != 0 {
        csum := csum % TWO_16 + n;
      }
    }
    r := 0xFFFF - csum % TWO_16;
    CsumFoldMeaning(csum0);
  }

  /**
   * The ten `u16` words `ipv4_csum_inline` reads from an `iphdr` (`size_of::<iphdr>() /
   * size_of::<__be16>()` of them), field by field; `WordsAreMemory` shows they are the native
   * loads of the record's memory image.
   */
  function Words(h: Iphdr): (w: seq<u16>)
    ensures |w| == IPHDR_SIZE / 2
    ensures w[5] == h.check
  {
    [Load16(h.ihl + 0x10 * h.version, h.tos), h.tot_len, h.id, h.frag_off,
     Load16(h.ttl, h.protocol), h.check,
     h.saddr % TWO_16, h.saddr / TWO_16, h.daddr % TWO_16, h.daddr / TWO_16]
  }

  /** Word `i` is the `u16` loaded from bytes `2i` and `2i + 1` of the header's memory. */
  lemma WordsAreMemory(h: Iphdr, i: nat)
    requires i < IPHDR_SIZE / 2
    ensures Words(h)[i] == Load16(IphdrImage(h)[2 * i], IphdrImage(h)[2 * i + 1])
  {
    var b := IphdrImage(h);
    assert b[12..16] == Store32(h.saddr) && b[16..20] == Store32(h.daddr);
    if i >= 6 {
      var x := if i < 8 then h.saddr else h.daddr;
      var q1 := x / 0x100;
      var q2 := q1 / 0x100;
      assert x / TWO_16 == q2;
      assert x % TWO_16 == x % 0x100 + 0x100 * (q1 % 0x100);
    }
  }

  /**
   * `Iterator::fold` adding each word to the `u64` accumulator, one `+` at a time, each
   * wrapping at 2^64: the seed plus the words, modulo 2^64.
   */
  function WordSum(acc: u64, ws: seq<u16>): (r: u64)
    ensures r == (acc + Sum(ws)) % TWO_64
    decreases |ws|
  {
    if ws == [] then acc
    else
      var next := (acc + ws[0]) % TWO_64;
      ModAddRight(acc + ws[0], Sum(ws[1..]));
      WordSum(next, ws[1..])
  }

  /** Reducing the left summand modulo 2^64 first does not change the sum modulo 2^64. */
  lemma ModAddRight(a: nat, b: nat)
    ensures (a % TWO_64 + b) % TWO_64 == (a + b) % TWO_64
  {
    var q := a / TWO_64;
    assert a == TWO_64 * q + a % TWO_64;
    assert a + b == TWO_64 * q + (a % TWO_64 + b);
  }

  /** The plain sum of a sequence of words. */
  function Sum(ws: seq<u16>): (s: int)
    ensures 0 <= s <= 0xFFFF * |ws|
  {
    if ws == [] then 0 else ws[0] + Sum(ws[1..])
  }

  /** Words that are all zero sum to zero. */
  lemma {:induction false} SumOfZeros(ws: seq<u16>)
    requires forall i :: 0 <= i < |ws| ==> ws[i] == 0
    ensures Sum(ws) == 0
  {
    if ws != [] {
      SumOfZeros(ws[1..]);
    }
  }

  /** With room in the accumulator, the fold adds the words exactly. */
  lemma {:induction false} WordSumNoWrap(acc: u64, ws: seq<u16>)
    requires acc + 0xFFFF * |ws| < TWO_64
    ensures WordSum(acc, ws) == acc + Sum(ws)
    decreases |ws|
  {
    if ws != [] {
      var next := acc + ws[0];
      assert next < TWO_64;
      assert next % TWO_64 == next;
      assert WordSum(acc, ws) == WordSum(next, ws[1..]);
      WordSumNoWrap(next, ws[1..]);
    }
  }

  /** Replacing one word changes the sum by the difference. */
  lemma {:induction false} SumUpdate(ws: seq<u16>, k: nat, x: u16)
    requires k < |ws|
    ensures Sum(ws[k := x]) == Sum(ws) - ws[k] + x
  {
    if k > 0 {
      SumUpdate(ws[1..], k - 1, x);
      assert ws[k := x][1..] == ws[1..][k - 1 := x];
    }
  }

  /** Only word 5 depends on `check`. */
  lemma WordsWithCheck(h: Iphdr, x: u16)
    ensures Words(h.(check := x)) == Words(h)[5 := x]
  {
  }

  /**
   * `ipv4_csum_inline`: folds the seed and the ten words of the header into its checksum.
   * When the seed leaves room for the words, the result is the ones'-complement negation of
   * the seed plus the header's words.
   */
  method Ipv4CsumInline(iph: Iphdr, csum: u64) returns (r: u16)
    ensures r == CsumFold(WordSum(csum, Words(iph)))
    ensures csum + 0xFFFF * (IPHDR_SIZE / 2) < TWO_64 ==> (r + csum + Sum(Words(iph))) % 0xFFFF == 0
  {
    var data := Words(iph);
    var acc := WordSum(csum, data);
    r := CsumFoldHelper(acc);
    if csum + 0xFFFF * (IPHDR_SIZE / 2) < TWO_64 {
      WordSumNoWrap(csum, data);
    }
  }

  /** The header `compute_checksum` leaves: `check` replaced by the checksum taken with `check = 0`. */
  function WithChecksum(h: Iphdr): (r: Iphdr)
    ensures r.(check := h.check) == h
  {
    var z := h.(check := 0);
    z.(check := CsumFold(WordSum(0, Words(z))))
  }

  /** `IPv4::compute_checksum`: zero `check`, then store the checksum of the header. */
  method ComputeChecksum(iph: Net.IPHdr)
    modifies iph
    ensures iph.hdr == WithChecksum(old(iph.hdr))
  {
    iph.hdr := iph.hdr.(check := 0);
    var c := Ipv4CsumInline(iph.hdr, 0);
    iph.hdr := iph.hdr.(check := c);
  }

  /** Recomputing the checksum of a header whose checksum was just computed changes nothing. */
  lemma ComputeChecksumIdempotent(h: Iphdr)
    ensures WithChecksum(WithChecksum(h)) == WithChecksum(h)
  {
    assert WithChecksum(h).(check := 0) == h.(check := 0);
  }

  /** Storing `c` in the zeroed `check` adds `c` to the plain sum of the words. */
  lemma SumWithCheck(z: Iphdr, c: u16)
    requires z.check == 0
    ensures Sum(Words(z.(check := c))) == Sum(Words(z)) + c
  {
    var ws := Words(z);
    var ws' := Words(z.(check := c));
    WordsWithCheck(z, c);
    SumUpdate(ws, 5, c);
    assert ws' == ws[5 := c];
    assert Sum(ws') == Sum(ws[5 := c]);
    assert Sum(ws[5 := c]) == Sum(ws) - ws[5] + c;
    assert ws[5] == 0;
    assert Sum(ws') == Sum(ws) + c;
  }

  /**
   * Adding the complement of a sum's fold to the sum gives a sum whose checksum is 0: the
   * new sum is a non-zero multiple of 0xFFFF, which folds to 0xFFFF.
   */
  lemma ComplementCancels(s: u64)
    requires s + 0xFFFF < TWO_64
    ensures CsumFold(s + CsumFold(s)) == 0
  {
    CsumFoldMeaning(s);
    var f := FoldIter(s, 4);
    var s' := s + CsumFold(s);
    assert s' == s + 0xFFFF - f;
    assert s' % 0xFFFF == (s - f) % 0xFFFF + 0;
    CsumFoldMeaning(s');
  }

  /**
   * The receiver's test of RFC 1071, over the ten words `ipv4_csum_inline` reads: after
   * `compute_checksum`, the checksum of all ten, `check` included, is 0. For a header without
   * options these are the whole header, as section 3.1 of RFC 791 asks.
   */
  lemma ComputeChecksumVerifies(h: Iphdr)
    ensures CsumFold(WordSum(0, Words(WithChecksum(h)))) == 0
  {
    var z := h.(check := 0);
    var s := Sum(Words(z));
    WordSumNoWrap(0, Words(z));
    var c := CsumFold(s);
    assert WithChecksum(h) == z.(check := c);
    SumWithCheck(z, c);
    WordSumNoWrap(0, Words(z.(check := c)));
    ComplementCancels(s);
  }

  /**
   * A header that is all zero except version 4 and IHL 5 (first byte 0x45) gets the checksum
   * 0xFFBA as a native `u16`: the wire bytes 0xBA 0xFF, i.e. 0xBAFF in network order.
   */
  lemma ChecksumExample()
    ensures WithChecksum(Iphdr(5, 4, 0, 0, 0, 0, 0, 0, 0x1234, 0, 0)).check == 0xFFBA
    ensures IphdrImage(WithChecksum(Iphdr(5, 4, 0, 0, 0, 0, 0, 0, 0x1234, 0, 0)))[10..12] == [0xBA, 0xFF]
  {
    var z := Iphdr(5, 4, 0, 0, 0, 0, 0, 0, 0, 0, 0);
    var ws := Words(z);
    assert ws == [0x45, 0, 0, 0, 0, 0, 0, 0, 0, 0];
    WordSumNoWrap(0, ws);
    SumOfZeros(ws[1..]);
    assert Sum(ws) == 0x45;
    FoldIterStable(0x45, 0, 4);
    CheckBytesOf(WithChecksum(Iphdr(5, 4, 0, 0, 0, 0, 0, 0, 0x1234, 0, 0)), 0xFFBA);
  }

  /** A record whose `check` is `c` holds `c` little-endian in bytes 10 and 11. */
  lemma CheckBytesOf(h: Iphdr, c: u16)
    requires h.check == c
    ensures IphdrImage(h)[10..12] == [c % 0x100, c / 0x100]
  {
    CheckSlice(h);
  }

  /** Bytes 10 and 11 of the record's memory are `check` stored little-endian. */
  lemma CheckSlice(h: Iphdr)
    ensures IphdrImage(h)[10..12] == Store16(h.check)
  {
    var head, rest := IphdrHead(h), Store32(h.saddr) + Store32(h.daddr);
    assert IphdrImage(h) == head + Store16(h.check) + rest;
  }

  /** The words of header bytes as section 3.1 of RFC 791 reads them: in network byte order. */
  function WireWords(b: seq<u8>): (w: seq<u16>)
    requires |b| % 2 == 0
    ensures |w| == |b| / 2
    decreases |b|
  {
    if b == [] then [] else [WireBe16(b[0], b[1])] + WireWords(b[2..])
  }

  lemma {:induction false} WireWordsAt(b: seq<u8>, i: nat)
    requires |b| % 2 == 0 && i < |b| / 2
    ensures WireWords(b)[i] == WireBe16(b[2 * i], b[2 * i + 1])
    decreases |b|
  {
    if i > 0 {
      WireWordsAt(b[2..], i - 1);
    }
  }

  /**
   * The checksum of section 3.1 of RFC 791 over header bytes `b`: the complement of the
   * ones'-complement sum of their words, with the checksum bytes 10 and 11 taken as zero.
   * RFC 791 sums the whole header, IHL (the low nibble of byte 0) times four bytes, options
   * included.
   */
  function Rfc791Checksum(b: seq<u8>): u16
    requires |b| >= IPHDR_SIZE && |b| == 4 * (b[0] % 0x10)
  {
    0xFFFF - OnesComplementSum(Sum(WireWords(b[..10] + [0, 0] + b[12..])))
  }

  /**
   * The same computation over the 20 fixed bytes of the record alone, which is all that
   * `ipv4_csum_inline` reads, whatever IHL says.
   */
  function FixedHeaderChecksum(b: seq<u8>): u16
    requires |b| == IPHDR_SIZE
  {
    0xFFFF - OnesComplementSum(Sum(WireWords(b[..10] + [0, 0] + b[12..])))
  }

  /** Each word with its two bytes exchanged. */
  function SwapWords(ws: seq<u16>): (r: seq<u16>)
    ensures |r| == |ws|
    ensures forall i :: 0 <= i < |ws| ==> r[i] == ToBe16(ws[i])
  {
    if ws == [] then [] else [ToBe16(ws[0])] + SwapWords(ws[1..])
  }

  /** The sum of the high bytes of the words. */
  function HighSum(ws: seq<u16>): nat {
    if ws == [] then 0 else ws[0] / 0x100 + HighSum(ws[1..])
  }

  /** Exchanging the bytes of a word multiplies it by 0x100 modulo 0xFFFF; so for a sum. */
  lemma {:induction false} SumSwapWords(ws: seq<u16>)
    ensures Sum(SwapWords(ws)) == 0x100 * Sum(ws) - 0xFFFF * HighSum(ws)
  {
    if ws != [] {
      SumSwapWords(ws[1..]);
      assert SwapWords(ws)[1..] == SwapWords(ws[1..]);
      var w := ws[0];
      assert w == 0x100 * (w / 0x100) + w % 0x100;
    }
  }

  /** A sum of words is zero only when every word is. */
  lemma {:induction false} SumZeroIff(ws: seq<u16>)
    ensures Sum(ws) == 0 <==> forall i :: 0 <= i < |ws| ==> ws[i] == 0
  {
    if ws != [] {
      SumZeroIff(ws[1..]);
      assert forall i :: 1 <= i < |ws| ==> ws[i] == ws[1..][i - 1];
    }
  }

  /** A positive total and a value in 1..0xFFFF congruent to it modulo 0xFFFF: that is its sum. */
  lemma OnesComplementSumOfCongruent(t: nat, x: int, k: int)
    requires t != 0 && 1 <= x <= 0xFFFF && t - x == 0xFFFF * k
    ensures OnesComplementSum(t) == x
  {
    assert t - 1 == 0xFFFF * k + (x - 1);
  }

  /** Exchanging the bytes of a word multiplies it by 0x100 modulo 0xFFFF. */
  lemma ToBe16Congruence(f: u16)
    ensures ToBe16(f) == 0x100 * f - 0xFFFF * (f / 0x100)
  {
  }

  /**
   * Byte-order independence (section 2(B) of RFC 1071): the ones'-complement sum of the
   * byte-swapped words is the byte-swapped ones'-complement sum.
   */
  lemma OnesComplementSumSwap(ws: seq<u16>)
    ensures OnesComplementSum(Sum(SwapWords(ws))) == ToBe16(OnesComplementSum(Sum(ws)))
  {
    var s, t := Sum(ws), Sum(SwapWords(ws));
    var f := OnesComplementSum(s);
    SumZeroIff(ws);
    SumZeroIff(SwapWords(ws));
    if s == 0 {
      assert t == 0;
    } else {
      assert t != 0 by {
        var i :| 0 <= i < |ws| && ws[i] != 0;
        assert SwapWords(ws)[i] != 0;
      }
      SumSwapWords(ws);
      var k := (s - 1) / 0xFFFF;
      assert s - f == 0xFFFF * k;
      ToBe16Congruence(f);
      var sw := ToBe16(f);
      assert t - sw == 0xFFFF * (0x100 * k - HighSum(ws) + f / 0x100);
      OnesComplementSumOfCongruent(t, sw, 0x100 * k - HighSum(ws) + f / 0x100);
    }
  }

  /** Zeroing `check` zeroes bytes 10 and 11 of the image and nothing else. */
  lemma ImageWithZeroCheck(h: Iphdr)
    ensures IphdrImage(h.(check := 0)) == IphdrImage(h)[..10] + [0, 0] + IphdrImage(h)[12..]
  {
    var head, rest := IphdrHead(h), Store32(h.saddr) + Store32(h.daddr);
    var b := IphdrImage(h);
    assert b == head + (Store16(h.check) + rest);
    assert b[..10] == head;
    assert b[12..] == rest;
    assert IphdrHead(h.(check := 0)) == head;
    assert Store16(0) == [0, 0];
  }

  /** The wire words of a header's image are its native words, byte-swapped. */
  lemma WireWordsOfImage(h: Iphdr)
    ensures WireWords(IphdrImage(h)) == SwapWords(Words(h))
  {
    var b := IphdrImage(h);
    forall i | 0 <= i < IPHDR_SIZE / 2 ensures WireWords(b)[i] == SwapWords(Words(h))[i] {
      WireWordsAt(b, i);
      WordsAreMemory(h, i);
      Load16IsSwappedWire(b[2 * i], b[2 * i + 1]);
    }
  }

  /** The complement of a byte-swapped word is the byte-swapped complement. */
  lemma ToBe16Complement(f: u16)
    ensures ToBe16(0xFFFF - f) == 0xFFFF - ToBe16(f)
  {
  }

  /** Bytes 10 and 11 of the image hold `check` in native order. */
  lemma CheckBytes(h: Iphdr)
    ensures var b := IphdrImage(h); WireBe16(b[10], b[11]) == ToBe16(h.check)
  {
    var b := IphdrImage(h);
    assert b[10..12] == Store16(h.check);
    Load16IsSwappedWire(b[10], b[11]);
  }

  /** The checksum of a record's 20 fixed bytes, in terms of its native words. */
  lemma FixedHeaderChecksumOfImage(h: Iphdr)
    ensures FixedHeaderChecksum(IphdrImage(h))
      == 0xFFFF - ToBe16(OnesComplementSum(Sum(Words(h.(check := 0)))))
  {
    ImageWithZeroCheck(h);
    WireWordsOfImage(h.(check := 0));
    OnesComplementSumSwap(Words(h.(check := 0)));
  }

  /**
   * On the little-endian target, `compute_checksum` leaves in bytes 10 and 11 of the record's
   * memory, in network byte order, the checksum of its 20 fixed bytes, for any IHL.
   */
  lemma ComputeChecksumOnFixedBytes(h: Iphdr)
    ensures var b := IphdrImage(WithChecksum(h));
      WireBe16(b[10], b[11]) == FixedHeaderChecksum(IphdrImage(h))
  {
    var ws := Words(h.(check := 0));
    var f := OnesComplementSum(Sum(ws));
    WordSumNoWrap(0, ws);
    FoldIsOnesComplementSum(Sum(ws));
    var w := WithChecksum(h);
    assert w.check == 0xFFFF - f;
    CheckBytes(w);
    ToBe16Complement(f);
    assert ToBe16(w.check) == 0xFFFF - ToBe16(f);
    FixedHeaderChecksumOfImage(h);
  }

  /** The low nibble of byte 0 of the record's memory is `ihl`. */
  lemma ImageIhl(h: Iphdr)
    ensures IphdrImage(h)[0] % 0x10 == h.ihl
  {
    assert IphdrImage(h)[0] == IphdrHead(h)[0];
  }

  /**
   * For a header without options (IHL 5), the 20 fixed bytes are the whole header, so
   * `compute_checksum` leaves exactly the RFC 791 checksum in bytes 10 and 11, in network
   * byte order. With options the bytes past the record are not summed.
   */
  lemma ComputeChecksumOnWire(h: Iphdr)
    requires h.ihl == 5
    ensures var b := IphdrImage(WithChecksum(h));
      WireBe16(b[10], b[11]) == Rfc791Checksum(IphdrImage(h))
  {
    ImageIhl(h);
    ComputeChecksumOnFixedBytes(h);
  }
}
