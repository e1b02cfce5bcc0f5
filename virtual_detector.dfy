/**
  The virtual annular detector of `merlinio.cpp` (lines 147-297): a mask over
  the frame pixels that is 1 inside the annular range of calibrated radii and
  0 outside, optionally with a hash listing the pixels inside, and the masked
  sums and centre of mass of a frame computed through the hash or over the
  whole frame.

  The routines use the global parameter object for the frame header, the
  calibration and the annular range; here those are parameters. Pointers the
  routines only test for null are booleans; buffers are arrays, `null` where
  the caller passes none. A result written through a pointer is an
  out-parameter, with the value it had before as an in-parameter for the
  paths that leave it alone.
*/
module VirtualDetector {
  import opened CLib
  import opened MerlinHdr
  import opened Indexing

  /**
    `qm >= min && qm < max` for `qm = sqrt(q.x^2 + q.y^2)`, stated without the
    square root: a non-negative root is at least `min` exactly when `min` is
    not positive or the square is at least `min^2`, and below `max` exactly
    when `max` is positive and the square is below `max^2`.
  */
  predicate InAnnulus(q: Pos, range: Range) {
    var r2 := q.x * q.x + q.y * q.y;
    (range.min <= 0.0 || r2 >= range.min * range.min) && range.max > 0.0 && r2 < range.max * range.max
  }

  /** Whether frame pixel `i` (cast to `int`, as the loops do) is inside the annulus. */
  predicate Inside(fh: FrameHeader, calib: FrameCalib, range: Range, i: nat)
    requires fh.columns > 0 && fh.rows != 0
  {
    InAnnulus(CalibPos(calib, FramePixel(fh, AsInt(i)).value), range)
  }

  /** The mask value of pixel `i`. */
  function MaskAt(fh: FrameHeader, calib: FrameCalib, range: Range, i: nat): real
    requires fh.columns > 0 && fh.rows != 0
  {
    if Inside(fh, calib, range, i) then 1.0 else 0.0
  }

  /** Which of the first `n` pixels are inside the annulus. */
  function Flags(fh: FrameHeader, calib: FrameCalib, range: Range, n: nat): (r: seq<bool>)
    requires fh.columns > 0 && fh.rows != 0
    ensures |r| == n
  {
    if n == 0 then [] else Flags(fh, calib, range, n - 1) + [Inside(fh, calib, range, n - 1)]
  }

  /** The flag of each pixel is its annulus test. */
  lemma {:induction false} FlagsInside(fh: FrameHeader, calib: FrameCalib, range: Range, n: nat)
    requires fh.columns > 0 && fh.rows != 0
    ensures forall i :: 0 <= i < n ==> Flags(fh, calib, range, n)[i] == Inside(fh, calib, range, i)
  {
    if n > 0 {
      FlagsInside(fh, calib, range, n - 1);
    }
  }

  /** The hash of the pixels whose flag is set: their indices, cast to `int`, in increasing order. */
  function HashOf(flags: seq<bool>): seq<int> {
    if flags == [] then []
    else
      var n := |flags| - 1;
      HashOf(flags[..n]) + (if flags[n] then [AsInt(n)] else [])
  }

  /** The hash `prepare_annular_detector` builds over the first `n` pixels. */
  function Hash(fh: FrameHeader, calib: FrameCalib, range: Range, n: nat): seq<int>
    requires fh.columns > 0 && fh.rows != 0
  {
    HashOf(Flags(fh, calib, range, n))
  }

  /** The hash entries read back as `size_t` positions. */
  function HashIdx(h: seq<int>): seq<nat> {
    seq(|h|, k requires 0 <= k < |h| => AsSize(h[k]))
  }

  /** The mask values of the flags: 1 where a flag is set, 0 elsewhere. */
  function MaskOf(flags: seq<bool>): (r: seq<real>)
    ensures |r| == |flags|
  {
    seq(|flags|, j requires 0 <= j < |flags| => if flags[j] then 1.0 else 0.0)
  }

  predicate Increasing(s: seq<nat>) {
    forall k :: 0 < k < |s| ==> s[k - 1] < s[k]
  }

  /**
    For up to 2^31 flags the hash, read back as positions, lists exactly the
    positions whose flag is set, each once, in increasing order.
  */
  lemma {:induction false} HashOfListsSet(flags: seq<bool>)
    requires |flags| <= 0x8000_0000
    ensures var h := HashIdx(HashOf(flags));
      Increasing(h) &&
      (forall k :: 0 <= k < |h| ==> h[k] < |flags|) &&
      (forall i :: 0 <= i < |flags| ==> (i in h <==> flags[i]))
  {
    if flags != [] {
      var n := |flags| - 1;
      HashOfListsSet(flags[..n]);
      var h0 := HashOf(flags[..n]);
      if flags[n] {
        assert HashIdx(HashOf(flags)) == HashIdx(h0) + [n];
      } else {
        assert HashOf(flags) == h0;
      }
    }
  }

  /** The hash of a prefix of the flags is a prefix of the hash. */
  lemma {:induction false} HashOfPrefix(flags: seq<bool>, i: nat)
    requires i <= |flags|
    ensures HashOf(flags[..i]) <= HashOf(flags)
    decreases |flags|
  {
    if i < |flags| {
      var n := |flags| - 1;
      assert flags[..n][..i] == flags[..i];
      HashOfPrefix(flags[..n], i);
    } else {
      assert flags[..i] == flags;
    }
  }

  /** One more flag adds its index to the hash when it is set. */
  lemma HashOfStep(flags: seq<bool>, i: nat)
    requires i < |flags|
    ensures flags[i] ==> HashOf(flags[..i + 1]) == HashOf(flags[..i]) + [AsInt(i)]
    ensures !flags[i] ==> HashOf(flags[..i + 1]) == HashOf(flags[..i])
    ensures |HashOf(flags[..i + 1])| <= |HashOf(flags)|
  {
    assert flags[..i + 1][..i] == flags[..i];
    HashOfPrefix(flags, i + 1);
  }

  /** Over up to 2^31 pixels the hash lists exactly the pixels inside the annulus, each once, in increasing order. */
  lemma HashListsInside(fh: FrameHeader, calib: FrameCalib, range: Range, n: nat)
    requires fh.columns > 0 && fh.rows != 0 && n <= 0x8000_0000
    ensures var h := HashIdx(Hash(fh, calib, range, n));
      Increasing(h) &&
      (forall k :: 0 <= k < |h| ==> h[k] < n) &&
      (forall i :: 0 <= i < n ==> (i in h <==> Inside(fh, calib, range, i)))
  {
    HashOfListsSet(Flags(fh, calib, range, n));
    FlagsInside(fh, calib, range, n);
  }

  /* ------------------------------------------------------------- summing */

  /** The pointwise product of two buffers, over the length of the shorter. */
  function Prod(a: seq<real>, b: seq<real>): (r: seq<real>)
    ensures |r| == if |a| < |b| then |a| else |b|
  {
    seq(if |a| < |b| then |a| else |b|, i requires 0 <= i < |a| && i < |b| => a[i] * b[i])
  }

  /** The sum of `v` over the positions listed, added in list order. */
  function SumIdx(v: seq<real>, idxs: seq<nat>): real
    requires forall k :: 0 <= k < |idxs| ==> idxs[k] < |v|
  {
    if idxs == [] then 0.0 else SumIdx(v, idxs[..|idxs| - 1]) + v[idxs[|idxs| - 1]]
  }

  /** The sum of the first `n` values of `v`, in order. */
  function SumPrefix(v: seq<real>, n: nat): real
    requires n <= |v|
  {
    if n == 0 then 0.0 else SumPrefix(v, n - 1) + v[n - 1]
  }

  /**
    Summing over an increasing list of positions below `n` is summing over all
    of the first `n` when the positions left out all hold zero.
  */
  lemma {:induction false} SumIdxIsSumPrefix(v: seq<real>, idxs: seq<nat>, n: nat)
    requires n <= |v| && Increasing(idxs)
    requires forall k :: 0 <= k < |idxs| ==> idxs[k] < n
    requires forall i :: 0 <= i < n && i !in idxs ==> v[i] == 0.0
    ensures SumIdx(v, idxs) == SumPrefix(v, n)
  {
    if n > 0 {
      var m := |idxs|;
      if m > 0 && idxs[m - 1] == n - 1 {
        var rest := idxs[..m - 1];
        BelowLast(idxs);
        forall i | 0 <= i < n - 1 && i !in rest
          ensures v[i] == 0.0
        {
          assert i !in idxs;
        }
        SumIdxIsSumPrefix(v, rest, n - 1);
      } else {
        BelowBound(idxs, n);
        SumIdxIsSumPrefix(v, idxs, n - 1);
      }
    }
  }

  /** Dropping the last entry of an increasing list leaves an increasing list below that entry. */
  lemma BelowLast(idxs: seq<nat>)
    requires Increasing(idxs) && |idxs| > 0
    ensures var rest := idxs[..|idxs| - 1];
      Increasing(rest) && forall k :: 0 <= k < |rest| ==> rest[k] < idxs[|idxs| - 1]
  {
    forall k | 0 <= k < |idxs| - 1
      ensures idxs[k] < idxs[|idxs| - 1]
    {
      IncreasingBelowLast(idxs, k);
    }
  }

  /** An increasing list below `n` whose last entry is not `n - 1` is below `n - 1`. */
  lemma BelowBound(idxs: seq<nat>, n: nat)
    requires Increasing(idxs) && n > 0
    requires forall k :: 0 <= k < |idxs| ==> idxs[k] < n
    requires |idxs| == 0 || idxs[|idxs| - 1] != n - 1
    ensures forall k :: 0 <= k < |idxs| ==> idxs[k] < n - 1
    ensures n - 1 !in idxs
  {
    forall k | 0 <= k < |idxs|
      ensures idxs[k] < n - 1
    {
      IncreasingBelowLast(idxs, k);
    }
  }

  /** Every entry of an increasing list before the last is below the last. */
  lemma {:induction false} IncreasingBelowLast(s: seq<nat>, k: nat)
    requires Increasing(s) && k < |s|
    ensures k < |s| - 1 ==> s[k] < s[|s| - 1]
    decreases |s| - k
  {
    if k < |s| - 1 {
      IncreasingBelowLast(s, k + 1);
    }
  }

  /**
    Summing a masked buffer through the hash of the mask's flags is summing it
    over all positions the flags cover.
  */
  lemma MaskedSumThroughHash(flags: seq<bool>, w: seq<real>, mask: seq<real>)
    requires |flags| <= 0x8000_0000 && |flags| <= |w| && |flags| <= |mask|
    requires forall i :: 0 <= i < |flags| ==> mask[i] == if flags[i] then 1.0 else 0.0
    ensures var v, h := Prod(w, mask), HashIdx(HashOf(flags));
      (forall k :: 0 <= k < |h| ==> h[k] < |v|) &&
      SumIdx(v, h) == SumPrefix(v, |flags|)
  {
    HashOfListsSet(flags);
    var v := Prod(w, mask);
    var h := HashIdx(HashOf(flags));
    forall i | 0 <= i < |flags| && i !in h
      ensures v[i] == 0.0
    {
      assert mask[i] == 0.0;
    }
    SumIdxIsSumPrefix(v, h, |flags|);
  }

  /**
    Through the hash that `prepare_annular_detector` builds, any weighted sum
    of the masked frame equals the sum over the whole frame: the hash path
    and the full path of `sum_annular_range` and `com_annular_range` agree.
  */
  lemma HashSumIsFullSum(fh: FrameHeader, calib: FrameCalib, range: Range, n: nat, w: seq<real>, mask: seq<real>)
    requires fh.columns > 0 && fh.rows != 0 && n <= 0x8000_0000
    requires n <= |w| && n <= |mask|
    requires forall i :: 0 <= i < n ==> mask[i] == MaskAt(fh, calib, range, i)
    ensures var v, h := Prod(w, mask), HashIdx(Hash(fh, calib, range, n));
      (forall k :: 0 <= k < |h| ==> h[k] < |v|) &&
      SumIdx(v, h) == SumPrefix(v, n)
  {
    FlagsInside(fh, calib, range, n);
    MaskedSumThroughHash(Flags(fh, calib, range, n), w, mask);
  }

  /* ------------------------------------------------------------ routines */

  /**
    `prepare_annular_detector`: errors 1, 2 and 5 for no pixels, no mask
    buffer and no frame header; error 10 when the frame has no columns, after
    the hash count was reset; otherwise the mask of the first `nlen` pixels,
    and, when a hash and its count are given, the hash of the pixels inside.
  */
  method PrepareAnnularDetector(
    nlen: nat, detbuf: array?<real>, dethash: array?<int>, nhashGiven: bool, nhash0: nat, pfhdrGiven: bool,
    fh: FrameHeader, calib: FrameCalib, range: Range)
    returns (code: int, nhash: nat)
    modifies detbuf, dethash
    requires fh.columns > 0 ==> fh.rows != 0
    requires detbuf != null ==> nlen <= detbuf.Length
    requires dethash != null && nhashGiven && fh.columns > 0 ==> |Hash(fh, calib, range, nlen)| <= dethash.Length
    ensures code == (if nlen == 0 then 1 else if detbuf == null then 2 else if !pfhdrGiven then 5
      else if fh.columns <= 0 then 10 else 0)
    ensures var hashing := code != 1 && code != 2 && code != 5 && dethash != null && nhashGiven;
      !hashing ==> nhash == nhash0
    ensures detbuf != null && code == 0 ==>
      (forall i :: 0 <= i < nlen ==> detbuf[i] == MaskAt(fh, calib, range, i)) &&
      (forall i :: nlen <= i < detbuf.Length ==> detbuf[i] == old(detbuf[i]))
    ensures detbuf != null && code != 0 ==> detbuf[..] == old(detbuf[..])
    ensures dethash != null && nhashGiven && code == 10 ==> nhash == 0
    ensures dethash != null && nhashGiven && code == 0 ==>
      nhash <= dethash.Length && dethash[..nhash] == Hash(fh, calib, range, nlen) &&
      dethash[nhash..] == old(dethash[nhash..])
    ensures dethash != null && !(nhashGiven && code == 0) ==> dethash[..] == old(dethash[..])
  {
    nhash := nhash0;
    if nlen == 0 {
      return 1, nhash;
    }
    if detbuf == null {
      return 2, nhash;
    }
    if !pfhdrGiven {
      return 5, nhash;
    }
    if fh.columns <= 0 {
      if dethash != null && nhashGiven {
        nhash := 0;
      }
      return 10, nhash;
    }
    var n := MarkAnnulus(nlen, detbuf, dethash, dethash != null && nhashGiven, fh, calib, range, Flags(fh, calib, range, nlen));
    FlagsInside(fh, calib, range, nlen);
    if dethash != null && nhashGiven {
      nhash := n;
    }
    return 0, nhash;
  }

  /**
    The loop of `prepare_annular_detector`: marks each of the first `nlen`
    pixels 1 when it is inside the annulus and 0 otherwise, and when hashing
    lists those inside in the hash; returns the number listed.
  */
  method MarkAnnulus(
    nlen: nat, detbuf: array<real>, dethash: array?<int>, bhash: bool, fh: FrameHeader, calib: FrameCalib, range: Range,
    ghost flags: seq<bool>)
    returns (nhash: nat)
    modifies detbuf, dethash
    requires fh.columns > 0 && fh.rows != 0 && nlen <= detbuf.Length
    requires flags == Flags(fh, calib, range, nlen)
    requires bhash ==> dethash != null && |HashOf(flags)| <= dethash.Length
    ensures detbuf[..] == MaskOf(flags) + old(detbuf[nlen..])
    ensures bhash ==> nhash == |HashOf(flags)| && dethash[..] == HashOf(flags) + old(dethash[nhash..])
    ensures !bhash && dethash != null ==> dethash[..] == old(dethash[..])
  {
    ghost var d0 := detbuf[..];
    ghost var h0 := if dethash != null then dethash[..] else [];
    nhash := 0;
    var i := 0;
    while i < nlen
      invariant i <= nlen && Marked(detbuf, dethash, bhash, flags, d0, h0, i, nhash)
    {
      var inside := PixelInside(fh, calib, range, i, flags);
      nhash := MarkPixel(detbuf, dethash, bhash, i, nhash, inside, flags, d0, h0);
      i := i + 1;
    }
    MarkedAll(detbuf, dethash, bhash, flags, d0, h0, nhash);
  }

  /** Once every pixel is marked, the buffer holds the mask and the hash holds the hash of the flags. */
  lemma MarkedAll(detbuf: array<real>, dethash: array?<int>, bhash: bool, flags: seq<bool>, d0: seq<real>, h0: seq<int>, nhash: nat)
    requires Marked(detbuf, dethash, bhash, flags, d0, h0, |flags|, nhash)
    ensures detbuf[..] == MaskOf(flags) + d0[|flags|..]
    ensures bhash ==> dethash != null && nhash == |HashOf(flags)| && dethash[..] == HashOf(flags) + h0[nhash..]
  {
    assert flags[..|flags|] == flags;
  }

  /**
    The state of the mask and the hash after the first `i` pixels: the mask
    holds their values and the rest of the buffer is as it was; when hashing,
    the first `nhash` entries of the hash list those inside and the rest are
    as they were, and otherwise the hash is untouched.
  */
  ghost predicate Marked(
    detbuf: array<real>, dethash: array?<int>, bhash: bool, flags: seq<bool>, d0: seq<real>, h0: seq<int>, i: nat, nhash: nat)
    reads detbuf, dethash
    requires i <= |flags|
  {
    detbuf.Length == |d0| && |flags| <= |d0| &&
    (forall j :: 0 <= j < i ==> detbuf[j] == MaskOf(flags)[j]) &&
    (forall j :: i <= j < detbuf.Length ==> detbuf[j] == d0[j]) &&
    (!bhash && dethash != null ==> dethash[..] == h0) &&
    (bhash ==> (dethash != null && |h0| == dethash.Length && nhash == |HashOf(flags[..i])| <= |h0| &&
                (forall k :: 0 <= k < nhash ==> dethash[k] == HashOf(flags[..i])[k]) &&
                (forall k :: nhash <= k < dethash.Length ==> dethash[k] == h0[k])))
  }

  /** One pass of the loop of `prepare_annular_detector`: the mask value of pixel `i`, and its hash entry when it is inside. */
  method MarkPixel(
    detbuf: array<real>, dethash: array?<int>, bhash: bool, i: nat, nhash: nat, inside: bool,
    ghost flags: seq<bool>, ghost d0: seq<real>, ghost h0: seq<int>)
    returns (nhash': nat)
    modifies detbuf, dethash
    requires i < |flags| && inside == flags[i]
    requires bhash ==> |HashOf(flags)| <= |h0|
    requires Marked(detbuf, dethash, bhash, flags, d0, h0, i, nhash)
    ensures Marked(detbuf, dethash, bhash, flags, d0, h0, i + 1, nhash')
  {
    if bhash {
      HashOfStep(flags, i);
    }
    detbuf[i] := if inside then 1.0 else 0.0;
    nhash' := nhash;
    if inside && bhash {
      dethash[nhash] := AsInt(i);
      nhash' := nhash + 1;
    }
  }

  /** The annulus test of the loop of `prepare_annular_detector` for pixel `i`. */
  method PixelInside(fh: FrameHeader, calib: FrameCalib, range: Range, i: nat, ghost flags: seq<bool>) returns (inside: bool)
    requires fh.columns > 0 && fh.rows != 0
    requires i < |flags| && flags == Flags(fh, calib, range, |flags|)
    ensures inside == flags[i]
  {
    FlagsInside(fh, calib, range, |flags|);
    var q := CalibPos(calib, FramePixel(fh, AsInt(i)).value);
    inside := InAnnulus(q, range);
  }

  /**
    `prepare_frame_coordinates`: errors 1 to 4 for no pixels or a missing
    buffer or frame header, error 10 when the frame has no columns, otherwise
    the calibrated position of each of the first `nlen` pixels; when both
    buffers are the same array it ends up holding the y coordinates.
  */
  method PrepareFrameCoordinates(nlen: nat, x: array?<real>, y: array?<real>, pfhdrGiven: bool, fh: FrameHeader, calib: FrameCalib)
    returns (code: int)
    modifies x, y
    requires fh.columns > 0 ==> fh.rows != 0
    requires x != null ==> nlen <= x.Length
    requires y != null ==> nlen <= y.Length
    ensures code == (if nlen == 0 then 1 else if x == null then 2 else if y == null then 3 else if !pfhdrGiven then 4
      else if fh.columns <= 0 then 10 else 0)
    ensures code == 0 ==> forall i :: 0 <= i < nlen ==>
      y[i] == CalibPos(calib, FramePixel(fh, AsInt(i)).value).y &&
      (x != y ==> x[i] == CalibPos(calib, FramePixel(fh, AsInt(i)).value).x)
    ensures code == 0 ==> (forall i :: nlen <= i < x.Length ==> x[i] == old(x[i])) && (forall i :: nlen <= i < y.Length ==> y[i] == old(y[i]))
    ensures code != 0 && x != null ==> x[..] == old(x[..])
    ensures code != 0 && y != null ==> y[..] == old(y[..])
  {
    if nlen == 0 {
      return 1;
    }
    if x == null {
      return 2;
    }
    if y == null {
      return 3;
    }
    if !pfhdrGiven {
      return 4;
    }
    if fh.columns <= 0 {
      return 10;
    }
    var i := 0;
    while i < nlen
      invariant 0 <= i <= nlen
      invariant forall j :: 0 <= j < i ==>
        y[j] == CalibPos(calib, FramePixel(fh, AsInt(j)).value).y &&
        (x != y ==> x[j] == CalibPos(calib, FramePixel(fh, AsInt(j)).value).x)
      invariant forall j :: i <= j < x.Length ==> x[j] == old(x[j])
      invariant forall j :: i <= j < y.Length ==> y[j] == old(y[j])
    {
      var q := CalibPos(calib, FramePixel(fh, AsInt(i)).value);
      x[i] := q.x;
      y[i] := q.y;
      i := i + 1;
    }
    return 0;
  }

  /** The hash loop: the sum of `v` over the first `n` hash entries read as `size_t`. */
  method SumHash(v: seq<real>, dethash: array<int>, n: nat) returns (s: real)
    requires n <= dethash.Length
    requires forall k :: 0 <= k < n ==> AsSize(dethash[k]) < |v|
    ensures s == SumIdx(v, HashIdx(dethash[..n]))
  {
    s := 0.0;
    var i := 0;
    while i < n
      invariant 0 <= i <= n
      invariant s == SumIdx(v, HashIdx(dethash[..i]))
    {
      assert HashIdx(dethash[..i + 1]) == HashIdx(dethash[..i]) + [AsSize(dethash[i])];
      s := s + v[AsSize(dethash[i])];
      i := i + 1;
    }
  }

  /** The full loop: the sum of the first `n` values of `v`. */
  method SumAll(v: seq<real>, n: nat) returns (s: real)
    requires n <= |v|
    ensures s == SumPrefix(v, n)
  {
    s := 0.0;
    var i := 0;
    while i < n
      invariant 0 <= i <= n
      invariant s == SumPrefix(v, i)
    {
      s := s + v[i];
      i := i + 1;
    }
  }

  /** Whether the routines sum through the hash: a hash is given and it is not empty. */
  predicate HashPath(dethash: array?<int>, nhash: nat) {
    dethash != null && nhash > 0
  }

  /**
    `sum_annular_range`: errors 2, 3 and 6 for a missing frame, mask or
    result; the result is 0 for no pixels, otherwise the frame times the mask
    summed through the hash when one is given and not empty, else over the
    first `nlen` pixels.
  */
  method SumAnnularRange(nlen: nat, buf: array?<real>, detbuf: array?<real>, dethash: array?<int>, nhash: nat, resGiven: bool, res0: real)
    returns (code: int, res: real)
    requires buf != null && detbuf != null && nlen > 0 && !HashPath(dethash, nhash) ==> nlen <= buf.Length && nlen <= detbuf.Length
    requires buf != null && detbuf != null && nlen > 0 && HashPath(dethash, nhash) ==>
      nhash <= dethash.Length && forall k :: 0 <= k < nhash ==> AsSize(dethash[k]) < buf.Length && AsSize(dethash[k]) < detbuf.Length
    ensures code == (if buf == null then 2 else if detbuf == null then 3 else if !resGiven then 6 else 0)
    ensures code != 0 ==> res == res0
    ensures code == 0 && nlen == 0 ==> res == 0.0
    ensures code == 0 && nlen > 0 ==>
      var v := Prod(buf[..], detbuf[..]);
      if HashPath(dethash, nhash) then
        (forall k :: 0 <= k < nhash ==> AsSize(dethash[k]) < |v|) && res == SumIdx(v, HashIdx(dethash[..nhash]))
      else nlen <= |v| && res == SumPrefix(v, nlen)
  {
    if buf == null {
      return 2, res0;
    }
    if detbuf == null {
      return 3, res0;
    }
    if !resGiven {
      return 6, res0;
    }
    res := 0.0;
    if nlen > 0 {
      var v := Prod(buf[..], detbuf[..]);
      if dethash != null && nhash > 0 {
        res := SumHash(v, dethash, nhash);
      } else {
        res := SumAll(v, nlen);
      }
    }
    return 0, res;
  }

  /**
    `com_annular_range`: errors 2, 3, 4, 5, 9 and 10 for a missing frame,
    mask, coordinate buffer or result; the centre of mass is (0, 0) unless
    there are pixels and the reference total `ref0` is positive, and then it is
    the coordinates times frame times mask, summed as in `sum_annular_range`,
    over `ref0`.
  */
  method ComAnnularRange(
    nlen: nat, buf: array?<real>, detbuf: array?<real>, x: array?<real>, y: array?<real>,
    dethash: array?<int>, nhash: nat, ref0: real, resxGiven: bool, resyGiven: bool, resx0: real, resy0: real)
    returns (code: int, resx: real, resy: real)
    requires buf != null && detbuf != null && x != null && y != null && nlen > 0 && ref0 > 0.0 ==>
      if HashPath(dethash, nhash) then
        nhash <= dethash.Length && forall k :: 0 <= k < nhash ==>
          AsSize(dethash[k]) < buf.Length && AsSize(dethash[k]) < detbuf.Length &&
          AsSize(dethash[k]) < x.Length && AsSize(dethash[k]) < y.Length
      else nlen <= buf.Length && nlen <= detbuf.Length && nlen <= x.Length && nlen <= y.Length
    ensures code == (if buf == null then 2 else if detbuf == null then 3 else if x == null then 4
      else if y == null then 5 else if !resxGiven then 9 else if !resyGiven then 10 else 0)
    ensures code != 0 ==> resx == resx0 && resy == resy0
    ensures code == 0 && !(nlen > 0 && ref0 > 0.0) ==> resx == 0.0 && resy == 0.0
    ensures code == 0 && nlen > 0 && ref0 > 0.0 ==>
      var vx, vy := Prod(Prod(x[..], buf[..]), detbuf[..]), Prod(Prod(y[..], buf[..]), detbuf[..]);
      if HashPath(dethash, nhash) then
        (forall k :: 0 <= k < nhash ==> AsSize(dethash[k]) < |vx| && AsSize(dethash[k]) < |vy|) &&
        resx == SumIdx(vx, HashIdx(dethash[..nhash])) / ref0 && resy == SumIdx(vy, HashIdx(dethash[..nhash])) / ref0
      else nlen <= |vx| && nlen <= |vy| && resx == SumPrefix(vx, nlen) / ref0 && resy == SumPrefix(vy, nlen) / ref0
  {
    if buf == null {
      return 2, resx0, resy0;
    }
    if detbuf == null {
      return 3, resx0, resy0;
    }
    if x == null {
      return 4, resx0, resy0;
    }
    if y == null {
      return 5, resx0, resy0;
    }
    if !resxGiven {
      return 9, resx0, resy0;
    }
    if !resyGiven {
      return 10, resx0, resy0;
    }
    resx, resy := 0.0, 0.0;
    if nlen > 0 && ref0 > 0.0 {
      var vx := Prod(Prod(x[..], buf[..]), detbuf[..]);
      var vy := Prod(Prod(y[..], buf[..]), detbuf[..]);
      var sx, sy;
      if dethash != null && nhash > 0 {
        sx := SumHash(vx, dethash, nhash);
        sy := SumHash(vy, dethash, nhash);
      } else {
        sx := SumAll(vx, nlen);
        sy := SumAll(vy, nlen);
      }
      resx, resy := sx / ref0, sy / ref0;
    }
    return 0, resx, resy;
  }
}
