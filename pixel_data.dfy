/**
  The pixel data of one frame (`merlin_read_data`, `merlin_hdr.cpp` lines
  190-284): a block of `n_data_bytes` bytes read at a given file position and
  decoded into `columns * rows` unsigned samples of 8, 16 or 32 bits. With
  byte swapping a sample is read most significant byte first; without it,
  in the host order, which is least significant byte first.
*/
module MerlinData {
  import opened Wrappers
  import opened CLib
  import opened MerlinHdr
  import opened MerlinFrame

  /** Bytes per sample of a supported bit depth. */
  function Width(bpi: int): nat {
    if bpi == 8 then 1 else if bpi == 16 then 2 else 4
  }

  predicate Supported(bpi: int) { bpi == 8 || bpi == 16 || bpi == 32 }

  /** The number of samples, `n_columns * n_rows` taken as a `size_t`. */
  function SampleCount(fh: FrameHeader): nat {
    AsSize(fh.columns * fh.rows)
  }

  /** Bytes taken by `n` samples of depth `bpi`. */
  function SampleBytes(bpi: int, n: nat): nat {
    if bpi == 8 then n else if bpi == 16 then 2 * n else 4 * n
  }

  /** Sample `i` of the block: 8-bit as is, 16- and 32-bit big-endian when swapping and little-endian otherwise. */
  function Sample(block: seq<byte>, bpi: int, swap: bool, i: nat): (v: nat)
    requires Supported(bpi) && SampleBytes(bpi, i + 1) <= |block|
    ensures bpi == 8 ==> v < 0x100
    ensures bpi == 16 ==> v < 0x1_0000
    ensures v < 0x1_0000_0000
  {
    if bpi == 8 then
      block[i] as nat
    else if bpi == 16 then
      var b0, b1 := block[2 * i] as nat, block[2 * i + 1] as nat;
      if swap then b0 * 0x100 + b1 else b0 + b1 * 0x100
    else
      var b0, b1, b2, b3 := block[4 * i] as nat, block[4 * i + 1] as nat, block[4 * i + 2] as nat, block[4 * i + 3] as nat;
      if swap then b0 * 0x100_0000 + b1 * 0x1_0000 + b2 * 0x100 + b3
      else b0 + b1 * 0x100 + b2 * 0x1_0000 + b3 * 0x100_0000
  }

  /** The first `n` samples of the block, as the `double` values written to the output buffer. */
  function Decoded(block: seq<byte>, bpi: int, swap: bool, n: nat): (r: seq<real>)
    requires Supported(bpi) && SampleBytes(bpi, n) <= |block|
    ensures |r| == n
  {
    seq(n, i requires 0 <= i < n => Sample(block, bpi, swap, i) as real)
  }

  /**
    The return code of `merlin_read_data`: 1, 3, 4 and 5 for a missing output
    buffer, stream, acquisition header or frame header; 13 for a closed stream;
    23 when the seek fails, which a file stream does only for a negative
    position (seeking past the end succeeds); 110 when the read of
    `n_data_bytes` bytes at the position comes short; 200 for a bit depth other
    than 8, 16 and 32; 0 otherwise.
  */
  function DataCode(hasBuf: bool, pos: int, st: Option<Stream>, hdr: Option<AcqHeader>, fh: Option<FrameHeader>): int {
    if !hasBuf then 1
    else if st.None? then 3
    else if hdr.None? then 4
    else if fh.None? then 5
    else if !st.value.open then 13
    else if pos < 0 then 23
    else if ShortRead(st.value, pos, hdr.value.dataBytes) then 110
    else if !Supported(fh.value.bpi) then 200
    else 0
  }

  /** A read of `nbytes` bytes at `pos` fails: some are asked for and fewer follow the position, which may lie past the end. */
  predicate ShortRead(st: Stream, pos: nat, nbytes: nat) {
    nbytes > 0 && pos + nbytes > |st.data|
  }

  /** The block of `n_data_bytes` bytes at `pos`; a read of no bytes yields none, wherever the position lies. */
  function Block(st: Stream, pos: nat, nbytes: nat): (b: seq<byte>)
    requires !ShortRead(st, pos, nbytes)
    ensures |b| == nbytes
  {
    if nbytes == 0 then [] else st.data[pos..pos + nbytes]
  }

  /** What a caller of `merlin_read_data` provides: room for every sample, and a data block that holds them all. */
  predicate Fits(bufLength: nat, hdr: AcqHeader, fh: FrameHeader) {
    SampleCount(fh) <= bufLength && SampleBytes(fh.bpi, SampleCount(fh)) <= hdr.dataBytes
  }

  /**
    `merlin_read_data`: on success the first `columns * rows` entries of `buf`
    hold the decoded samples and the rest is untouched; on any error the buffer
    is untouched.
  */
  method ReadData(buf: array?<real>, pos: int, st: Option<Stream>, hdr: Option<AcqHeader>, fh: Option<FrameHeader>, swap: bool)
    returns (code: int)
    requires buf != null && hdr.Some? && fh.Some? && Supported(fh.value.bpi) ==> Fits(buf.Length, hdr.value, fh.value)
    modifies buf
    ensures code == DataCode(buf != null, pos, st, hdr, fh)
    ensures code == 0 ==>
      var n := SampleCount(fh.value);
      buf[..n] == Decoded(Block(st.value, pos, hdr.value.dataBytes), fh.value.bpi, swap, n) &&
      buf[n..] == old(buf[n..])
    ensures code != 0 && buf != null ==> buf[..] == old(buf[..])
  {
    if buf == null { return 1; }
    if st.None? { return 3; }
    if hdr.None? { return 4; }
    if fh.None? { return 5; }
    var s, h, f := st.value, hdr.value, fh.value;
    if !s.open { return 13; }
    if pos < 0 { return 23; }
    if h.dataBytes > 0 && pos + h.dataBytes > |s.data| { return 110; }
    var block := if h.dataBytes == 0 then [] else s.data[pos..pos + h.dataBytes];
    var n := SampleCount(f);
    if !Supported(f.bpi) { return 200; }
    var i := 0;
    while i < n
      invariant 0 <= i <= n
      invariant forall k :: 0 <= k < i ==> buf[k] == Sample(block, f.bpi, swap, k) as real
      invariant forall k :: n <= k < buf.Length ==> buf[k] == old(buf[k])
    {
      buf[i] := Sample(block, f.bpi, swap, i) as real;
      i := i + 1;
    }
    code := 0;
  }

  /** `merlin_read_data` returns 0 exactly when every argument is present and the stream yields a supported block, and a code above 0 otherwise. */
  lemma DataCodePositive(hasBuf: bool, pos: int, st: Option<Stream>, hdr: Option<AcqHeader>, fh: Option<FrameHeader>)
    ensures DataCode(hasBuf, pos, st, hdr, fh) >= 0
    ensures DataCode(hasBuf, pos, st, hdr, fh) == 0 <==>
      hasBuf && st.Some? && hdr.Some? && fh.Some? && st.value.open && 0 <= pos &&
      (hdr.value.dataBytes == 0 || pos + hdr.value.dataBytes <= |st.value.data|) && Supported(fh.value.bpi)
  {
  }

  /**
    Seeking a file stream past its end succeeds, so `merlin_read_data` fails
    there only in the read: with 110 when bytes are asked for, and not at all
    when none are.
  */
  lemma PastEndFailsInRead(hasBuf: bool, pos: int, st: Stream, hdr: AcqHeader, fh: FrameHeader)
    requires hasBuf && st.open && pos > |st.data|
    ensures hdr.dataBytes > 0 ==> DataCode(hasBuf, pos, Some(st), Some(hdr), Some(fh)) == 110
    ensures hdr.dataBytes == 0 ==>
      DataCode(hasBuf, pos, Some(st), Some(hdr), Some(fh)) == if Supported(fh.bpi) then 0 else 200
  {
  }

  /* -------------------------------------------------------------- encoding */

  /** Byte `k` (0 the least significant) of `v`. */
  function ByteOf(v: nat, k: nat): byte {
    (if k == 0 then v % 0x100
     else if k == 1 then (v / 0x100) % 0x100
     else if k == 2 then (v / 0x1_0000) % 0x100
     else (v / 0x100_0000) % 0x100) as byte
  }

  /** The bytes of one sample as written: most significant first when swapping, least significant first otherwise. */
  function EncodeSample(v: nat, bpi: int, swap: bool): (b: seq<byte>)
    ensures |b| == Width(bpi)
  {
    var w := Width(bpi);
    seq(w, k requires 0 <= k < w => if swap then ByteOf(v, w - 1 - k) else ByteOf(v, k))
  }

  /** A data block holding the samples `vs` one after the other. */
  function Encode(vs: seq<nat>, bpi: int, swap: bool): (b: seq<byte>)
    ensures |b| == Width(bpi) * |vs|
  {
    if vs == [] then [] else EncodeSample(vs[0], bpi, swap) + Encode(vs[1..], bpi, swap)
  }

  /** Every value fits in the bit depth. */
  predicate InRange(vs: seq<nat>, bpi: int) {
    forall i :: 0 <= i < |vs| ==> (if bpi == 8 then vs[i] < 0x100 else if bpi == 16 then vs[i] < 0x1_0000 else vs[i] < 0x1_0000_0000)
  }

  lemma SampleBytesIsWidth(bpi: int, n: nat)
    requires Supported(bpi)
    ensures SampleBytes(bpi, n) == Width(bpi) * n
  {
  }

  /** The bytes of sample `i` of an encoded block are that sample's own bytes. */
  lemma {:induction false} EncodeAt(vs: seq<nat>, bpi: int, swap: bool, i: nat, k: nat)
    requires Supported(bpi) && i < |vs| && k < Width(bpi)
    ensures Width(bpi) * i + k < |Encode(vs, bpi, swap)|
    ensures Encode(vs, bpi, swap)[Width(bpi) * i + k] == EncodeSample(vs[i], bpi, swap)[k]
    decreases i
  {
    var w := Width(bpi);
    assert w * i + k < w * |vs| by {
      assert w * (|vs| - i - 1) >= 0 by { MulNonneg(w, |vs| - i - 1); }
      assert w * |vs| == w * i + w + w * (|vs| - i - 1);
    }
    if i > 0 {
      EncodeAt(vs[1..], bpi, swap, i - 1, k);
      assert w * (i - 1) + k == w * i + k - w;
    }
  }

  /** A 16-bit value is its low byte plus 256 times its high byte. */
  lemma Split16(v: nat)
    requires v < 0x1_0000
    ensures v == ByteOf(v, 0) as nat + ByteOf(v, 1) as nat * 0x100
  {
  }

  /** A 32-bit value is the sum of its four bytes, each at its place. */
  lemma Split32(v: nat)
    requires v < 0x1_0000_0000
    ensures v == ByteOf(v, 0) as nat + ByteOf(v, 1) as nat * 0x100 + ByteOf(v, 2) as nat * 0x1_0000 + ByteOf(v, 3) as nat * 0x100_0000
  {
    var q := v / 0x100;
    assert v == v % 0x100 + q * 0x100;
    var r := q / 0x100;
    assert q == q % 0x100 + r * 0x100;
    assert r == v / 0x1_0000;
    var t := r / 0x100;
    assert r == r % 0x100 + t * 0x100;
    assert t == v / 0x100_0000;
    assert t < 0x100;
  }

  /** Decoding one encoded sample gives the sample back. */
  lemma SampleOfEncoded(v: nat, bpi: int, swap: bool, block: seq<byte>, i: nat)
    requires Supported(bpi) && SampleBytes(bpi, i + 1) <= |block|
    requires bpi == 8 ==> v < 0x100
    requires bpi == 16 ==> v < 0x1_0000
    requires v < 0x1_0000_0000
    requires forall k :: 0 <= k < Width(bpi) ==> block[Width(bpi) * i + k] == EncodeSample(v, bpi, swap)[k]
    ensures Sample(block, bpi, swap, i) == v
  {
    var e := EncodeSample(v, bpi, swap);
    if bpi == 8 {
      assert block[i] == e[0] == ByteOf(v, 0);
    } else if bpi == 16 {
      assert block[2 * i] == e[0] && block[2 * i + 1] == e[1];
      Split16(v);
    } else {
      assert block[4 * i] == e[0] && block[4 * i + 1] == e[1];
      assert block[4 * i + 2] == e[2] && block[4 * i + 3] == e[3];
      Split32(v);
    }
  }

  /** Round trip: decoding a block that encodes the samples `vs` gives `vs` back, with or without byte swapping. */
  lemma DecodeEncode(vs: seq<nat>, bpi: int, swap: bool)
    requires Supported(bpi) && InRange(vs, bpi)
    ensures SampleBytes(bpi, |vs|) <= |Encode(vs, bpi, swap)|
    ensures Decoded(Encode(vs, bpi, swap), bpi, swap, |vs|) == seq(|vs|, i requires 0 <= i < |vs| => vs[i] as real)
  {
    var block := Encode(vs, bpi, swap);
    SampleBytesIsWidth(bpi, |vs|);
    forall i | 0 <= i < |vs|
      ensures Sample(block, bpi, swap, i) == vs[i]
    {
      SampleBytesIsWidth(bpi, i + 1);
      assert SampleBytes(bpi, i + 1) <= |block| by { MulMono(Width(bpi), i + 1, |vs|); }
      forall k | 0 <= k < Width(bpi)
        ensures block[Width(bpi) * i + k] == EncodeSample(vs[i], bpi, swap)[k]
      {
        EncodeAt(vs, bpi, swap, i, k);
      }
      SampleOfEncoded(vs[i], bpi, swap, block, i);
    }
  }

  lemma MulMono(w: nat, a: nat, b: nat)
    requires a <= b
    ensures w * a <= w * b
  {
    MulNonneg(w, b - a);
  }

  /** At depth 8 the swap flag makes no difference. */
  lemma EightBitIgnoresSwap(block: seq<byte>, n: nat)
    requires n <= |block|
    ensures Decoded(block, 8, true, n) == Decoded(block, 8, false, n)
  {
  }
}
