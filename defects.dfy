/**
  The defect pixels of `merlin_params` as values (`merlin_prm.h` lines 34-39,
  `merlin_prm.cpp` lines 526-596, 664-679, 746-774 and 883-915): the list of
  registered defects, each with its position and the cache of neighbour
  pixels its value is replaced by the mean of, and the flag that says the
  caches need rebuilding. The class in `merlin_params.dfy` updates its fields
  as these functions say; the properties of the list are proved here.
*/
module Defects {
  import opened CLib
  import opened MerlinHdr
  import opened Indexing

  /** `defect_pixel_corr`: the linear pixel index, the pixel, and the indices used to correct it. */
  datatype DefectPixelCorr = DefectPixelCorr(idx: nat, x: int, y: int, corr: seq<nat>)

  /** `v_defect_corr` together with `defects_modified`. */
  datatype DefectList = DefectList(entries: seq<DefectPixelCorr>, modified: bool)

  /** `is_defect_pixel(idx)`: some entry has this index. */
  predicate IsDefect(ds: seq<DefectPixelCorr>, idx: int) {
    exists k :: 0 <= k < |ds| && ds[k].idx == idx
  }

  /** `get_frame_pixel_idx(x, y)` stored in a `size_t`: an error (-1) becomes 2^64 - 1. */
  function PixelIndex(fh: FrameHeader, x: int, y: int): nat {
    AsSize(FramePixelIdx(fh, x, y))
  }

  /** No pixel is registered twice. */
  predicate NoDuplicates(ds: seq<DefectPixelCorr>) {
    forall k, l :: 0 <= k < l < |ds| ==> ds[k].idx != ds[l].idx
  }

  /** No cached neighbour is itself a registered defect. */
  predicate CacheFresh(ds: seq<DefectPixelCorr>) {
    forall k, j :: 0 <= k < |ds| && 0 <= j < |ds[k].corr| ==> !IsDefect(ds, ds[k].corr[j])
  }

  /** An entry stands at a pixel of the frame, and its index is that pixel's. */
  predicate Canonical(fh: FrameHeader, e: DefectPixelCorr) {
    0 <= e.x < fh.columns && 0 <= e.y < fh.rows && e.idx == e.x + e.y * fh.columns
  }

  /**
    `get_frame_pixel((int)i, x, y)`: the pixel of index `i` cast to `int`; when
    there are no frame columns the call fails and the output keeps whatever it
    held before, `junk`.
  */
  function PixelOf(fh: FrameHeader, i: nat, junk: Pix): Pix
    requires fh.columns > 0 ==> fh.rows != 0
  {
    match FramePixel(fh, AsInt(i))
    case None => junk
    case Some(p) => p
  }

  /** A new defect with an empty correction list. */
  function NewEntry(fh: FrameHeader, i: nat, junk: Pix): DefectPixelCorr
    requires fh.columns > 0 ==> fh.rows != 0
  {
    var p := PixelOf(fh, i, junk);
    DefectPixelCorr(i, p.x, p.y, [])
  }

  /* ------------------------------------------------------ set_defect_pixel */

  /**
    `set_defect_pixel(x, y)` as written: its error test `i < 0` is on a
    `size_t` and never holds, so a pixel index of -1 (no frame) is registered
    as 2^64 - 1. The caller must not leave a zero row count with columns, since
    `get_frame_pixel` would divide by it.
  */
  function SetDefectAsWritten(d: DefectList, fh: FrameHeader, x: int, y: int, junk: Pix): (int, DefectList)
    requires fh.columns > 0 ==> fh.rows != 0
  {
    var i := PixelIndex(fh, x, y);
    if IsDefect(d.entries, i) then (0, d)
    else (0, DefectList(d.entries + [NewEntry(fh, i, junk)], true))
  }

  /** With no frame, the as-written function registers the pixel 2^64 - 1 and reports success; the corrected one reports error 1. */
  lemma SetDefectAsWrittenRegistersNoPixel(junk: Pix)
    ensures SetDefectAsWritten(DefectList([], false), DefaultFrameHeader, 3, 4, junk)
      == (0, DefectList([DefectPixelCorr(SizeModulus - 1, junk.x, junk.y, [])], true))
    ensures SetDefect(DefectList([], false), DefaultFrameHeader, 3, 4) == (1, DefectList([], false))
  {
    var fh := DefaultFrameHeader;
    assert FramePixelIdx(fh, 3, 4) == -1;
    assert PixelIndex(fh, 3, 4) == SizeModulus - 1;
    assert !IsDefect([], SizeModulus - 1);
    assert FramePixel(fh, AsInt(SizeModulus - 1)).None?;
    assert PixelOf(fh, SizeModulus - 1, junk) == junk;
    var e := NewEntry(fh, SizeModulus - 1, junk);
    assert e == DefectPixelCorr(SizeModulus - 1, junk.x, junk.y, []);
    assert [] + [e] == [e];
  }

  /**
    With columns but negative rows, `get_frame_pixel_idx` still gives -1, but
    `get_frame_pixel` succeeds on the wrapped index: the appended entry has the
    defined coordinates (columns - 1, imod(-1, rows)) whatever `junk` holds.
  */
  lemma SetDefectAsWrittenNegativeRows(junk: Pix)
    ensures var fh := DefaultFrameHeader.(columns := 3, rows := -2);
      SetDefectAsWritten(DefectList([], false), fh, 3, 4, junk)
        == (0, DefectList([DefectPixelCorr(SizeModulus - 1, 2, -1, [])], true))
  {
    var fh := DefaultFrameHeader.(columns := 3, rows := -2);
    assert FramePixelIdx(fh, 3, 4) == -1;
    assert AsInt(SizeModulus - 1) == -1;
    assert IMod(-1, 3) == 2 by { assert CRem(-1, 3) == -1; assert CRem(2, 3) == 2; }
    assert CDiv(-3, 3) == -1;
    assert IMod(-1, -2) == -1 by { assert CRem(-1, -2) == -1; assert CRem(-3, -2) == -1; }
    assert FramePixel(fh, -1).value == Pix(2, -1);
    assert [] + [DefectPixelCorr(SizeModulus - 1, 2, -1, [])] == [DefectPixelCorr(SizeModulus - 1, 2, -1, [])];
  }

  /**
    `set_defect_pixel(x, y)` with its error test made effective: an already
    registered pixel changes nothing (0), a position without a frame pixel is
    error 1, and a new pixel is appended with an empty correction list and
    marks the list modified.
  */
  function SetDefect(d: DefectList, fh: FrameHeader, x: int, y: int): (int, DefectList) {
    var i := PixelIndex(fh, x, y);
    if IsDefect(d.entries, i) then (0, d)
    else if FramePixelIdx(fh, x, y) < 0 then (1, d)
    else (0, DefectList(d.entries + [NewEntry(fh, i, Pix(0, 0))], true))
  }

  /**
    Setting a pixel never creates a duplicate; on success the pixel is
    registered, otherwise nothing changes; at most the one entry is appended,
    and the flag is raised exactly when it is.
  */
  lemma SetDefectRegisters(d: DefectList, fh: FrameHeader, x: int, y: int)
    requires NoDuplicates(d.entries)
    ensures var (code, r) := SetDefect(d, fh, x, y);
      NoDuplicates(r.entries) &&
      (code == 0 <==> IsDefect(r.entries, PixelIndex(fh, x, y))) &&
      (code != 0 ==> r == d) &&
      d.entries <= r.entries && |r.entries| <= |d.entries| + 1 &&
      r.modified == (d.modified || |r.entries| > |d.entries|)
  {
    var (code, r) := SetDefect(d, fh, x, y);
    var i := PixelIndex(fh, x, y);
    if !IsDefect(d.entries, i) && FramePixelIdx(fh, x, y) >= 0 {
      assert r.entries[|d.entries|].idx == i;
    }
  }

  /**
    As written, setting a pixel always returns 0 and registers its `size_t`
    index: no duplicate is created, at most that one entry is appended, and
    the flag is raised exactly when it is.
  */
  lemma SetDefectAsWrittenRegisters(d: DefectList, fh: FrameHeader, x: int, y: int, junk: Pix)
    requires fh.columns > 0 ==> fh.rows != 0
    requires NoDuplicates(d.entries)
    ensures var (code, r) := SetDefectAsWritten(d, fh, x, y, junk);
      code == 0 && IsDefect(r.entries, PixelIndex(fh, x, y)) && NoDuplicates(r.entries) &&
      d.entries <= r.entries && |r.entries| <= |d.entries| + 1 &&
      r.modified == (d.modified || |r.entries| > |d.entries|)
  {
    var r := SetDefectAsWritten(d, fh, x, y, junk).1;
    var i := PixelIndex(fh, x, y);
    if !IsDefect(d.entries, i) {
      assert r.entries[|d.entries|].idx == i;
    }
  }

  /** Where the frame has the pixel, the code as written agrees with the corrected version, whatever the uninitialised coordinates. */
  lemma SetDefectAsWrittenAgrees(d: DefectList, fh: FrameHeader, x: int, y: int, junk: Pix)
    requires FramePixelIdx(fh, x, y) >= 0
    ensures SetDefectAsWritten(d, fh, x, y, junk) == SetDefect(d, fh, x, y)
  {
    var i := PixelIndex(fh, x, y);
    assert FramePixel(fh, AsInt(i)).Some?;
    assert PixelOf(fh, i, junk) == PixelOf(fh, i, Pix(0, 0));
  }

  /** Setting the same pixel a second time changes nothing. */
  lemma SetDefectIdempotent(d: DefectList, fh: FrameHeader, x: int, y: int)
    requires SetDefect(d, fh, x, y).0 == 0
    ensures var r := SetDefect(d, fh, x, y).1; SetDefect(r, fh, x, y) == (0, r)
  {
    var r := SetDefect(d, fh, x, y).1;
    var i := PixelIndex(fh, x, y);
    if !IsDefect(d.entries, i) {
      assert r.entries[|d.entries|].idx == i;
    }
  }

  /** A new pixel is stored at its own frame pixel: the position reduced modulo the frame size. */
  lemma SetDefectCanonical(d: DefectList, fh: FrameHeader, x: int, y: int)
    requires fh.columns > 0 && fh.rows > 0 && fh.columns * fh.rows <= 0x8000_0000
    requires !IsDefect(d.entries, PixelIndex(fh, x, y))
    ensures var r := SetDefect(d, fh, x, y).1;
      |r.entries| == |d.entries| + 1 &&
      Canonical(fh, r.entries[|d.entries|]) &&
      r.entries[|d.entries|].x == x % fh.columns && r.entries[|d.entries|].y == y % fh.rows
  {
    var i := FramePixelIdx(fh, x, y);
    FramePixelIdxInFrame(fh, x, y);
    FramePixelOfIdx(fh, x, y);
    FramePixelIdxOfPixel(fh, i);
    var p := FramePixel(fh, i).value;
    IModIsEuclidean(x, fh.columns);
    IModIsEuclidean(y, fh.rows);
    assert 0 <= p.x < fh.columns && 0 <= p.y < fh.rows;
  }

  /* ---------------------------------------------------- unset_defect_pixel */

  /** The position of the first entry with index `idx`, or the length when there is none. */
  function FirstMatch(ds: seq<DefectPixelCorr>, idx: int): (k: nat)
    ensures k <= |ds|
    ensures forall j :: 0 <= j < k ==> ds[j].idx != idx
    ensures k < |ds| ==> ds[k].idx == idx
  {
    if ds == [] then 0
    else if ds[0].idx == idx then 0
    else 1 + FirstMatch(ds[1..], idx)
  }

  /**
    `unset_defect_pixel(x, y)`: the first entry of the pixel is removed and the
    flag becomes whether entries remain; when none matches nothing changes.
  */
  function UnsetDefect(d: DefectList, fh: FrameHeader, x: int, y: int): DefectList {
    var k := FirstMatch(d.entries, PixelIndex(fh, x, y));
    if k == |d.entries| then d
    else
      var rest := d.entries[..k] + d.entries[k + 1..];
      DefectList(rest, |rest| > 0)
  }

  /**
    Unsetting removes the pixel and keeps every other registration; an
    unregistered pixel leaves the list as it was; fresh caches stay fresh.
  */
  lemma UnsetDefectRemoves(d: DefectList, fh: FrameHeader, x: int, y: int)
    requires NoDuplicates(d.entries)
    ensures var r := UnsetDefect(d, fh, x, y); var p := PixelIndex(fh, x, y);
      NoDuplicates(r.entries) &&
      !IsDefect(r.entries, p) &&
      (forall i :: i != p ==> (IsDefect(r.entries, i) <==> IsDefect(d.entries, i))) &&
      (!IsDefect(d.entries, p) ==> r == d) &&
      (CacheFresh(d.entries) ==> CacheFresh(r.entries))
  {
    var p := PixelIndex(fh, x, y);
    var k := FirstMatch(d.entries, p);
    if k < |d.entries| {
      RemoveAt(d.entries, k);
    }
  }

  /** Removing one entry of a list without duplicates unregisters exactly its pixel, and fresh caches stay fresh. */
  lemma RemoveAt(ds: seq<DefectPixelCorr>, k: nat)
    requires NoDuplicates(ds) && k < |ds|
    ensures var rest := ds[..k] + ds[k + 1..];
      NoDuplicates(rest) &&
      (forall i :: IsDefect(rest, i) <==> IsDefect(ds, i) && i != ds[k].idx) &&
      (CacheFresh(ds) ==> CacheFresh(rest))
  {
    var rest := ds[..k] + ds[k + 1..];
    assert forall j :: 0 <= j < |rest| ==> rest[j] == if j < k then ds[j] else ds[j + 1];
    forall i | IsDefect(ds, i) && i != ds[k].idx
      ensures IsDefect(rest, i)
    {
      var j :| 0 <= j < |ds| && ds[j].idx == i;
      assert rest[if j < k then j else j - 1].idx == i;
    }
  }

  /** Setting a new pixel and unsetting it again gives back the list it started from. */
  lemma SetThenUnset(d: DefectList, fh: FrameHeader, x: int, y: int)
    requires !IsDefect(d.entries, PixelIndex(fh, x, y)) && FramePixelIdx(fh, x, y) >= 0
    ensures UnsetDefect(SetDefect(d, fh, x, y).1, fh, x, y).entries == d.entries
  {
    var r := SetDefect(d, fh, x, y).1;
    var p := PixelIndex(fh, x, y);
    assert r.entries[|d.entries|].idx == p;
    assert forall j :: 0 <= j < |d.entries| ==> r.entries[j].idx != p;
    assert FirstMatch(r.entries, p) == |d.entries|;
    assert r.entries[..|d.entries|] == d.entries;
  }

  /* ------------------------------------------------------ load_defect_mask */

  /**
    The mask loop of `load_defect_mask` over its first `n` pixels: each pixel
    whose mask value is not zero and which is not yet registered is appended,
    in increasing order.
  */
  function AddMask(ds: seq<DefectPixelCorr>, fh: FrameHeader, mask: seq<int>, n: nat, junk: Pix): seq<DefectPixelCorr>
    requires n <= |mask| && (fh.columns > 0 ==> fh.rows != 0)
  {
    if n == 0 then ds
    else
      var e := AddMask(ds, fh, mask, n - 1, junk);
      if mask[n - 1] != 0 && !IsDefect(e, n - 1) then e + [NewEntry(fh, n - 1, junk)] else e
  }

  /** Appending an entry for a pixel not yet registered keeps the list free of duplicates and registers exactly that pixel more. */
  lemma AppendNew(ds: seq<DefectPixelCorr>, e: DefectPixelCorr)
    requires NoDuplicates(ds) && !IsDefect(ds, e.idx)
    ensures NoDuplicates(ds + [e])
    ensures forall i :: IsDefect(ds + [e], i) <==> IsDefect(ds, i) || i == e.idx
  {
    var r := ds + [e];
    assert r[|ds|] == e;
    forall i | IsDefect(ds, i)
      ensures IsDefect(r, i)
    {
      var j :| 0 <= j < |ds| && ds[j].idx == i;
      assert r[j] == ds[j];
    }
  }

  /**
    The mask loop keeps the list free of duplicates and only appends to it;
    afterwards exactly the pixels registered before and the masked pixels are
    registered.
  */
  lemma {:induction false} AddMaskRegisters(ds: seq<DefectPixelCorr>, fh: FrameHeader, mask: seq<int>, n: nat, junk: Pix)
    requires n <= |mask| && (fh.columns > 0 ==> fh.rows != 0)
    requires NoDuplicates(ds)
    ensures var r := AddMask(ds, fh, mask, n, junk);
      ds <= r && NoDuplicates(r) &&
      forall i :: IsDefect(r, i) <==> IsDefect(ds, i) || (0 <= i < n && mask[i] != 0)
  {
    if n > 0 {
      AddMaskRegisters(ds, fh, mask, n - 1, junk);
      var e := AddMask(ds, fh, mask, n - 1, junk);
      if mask[n - 1] != 0 && !IsDefect(e, n - 1) {
        AppendNew(e, NewEntry(fh, n - 1, junk));
        assert ds <= e + [NewEntry(fh, n - 1, junk)];
      }
    }
  }

  /** Each entry the mask loop appends is a masked pixel that was not registered before, in increasing order. */
  lemma {:induction false} AddMaskOrder(ds: seq<DefectPixelCorr>, fh: FrameHeader, mask: seq<int>, n: nat, junk: Pix)
    requires n <= |mask| && (fh.columns > 0 ==> fh.rows != 0)
    ensures var r := AddMask(ds, fh, mask, n, junk);
      |ds| <= |r| &&
      (forall k :: |ds| <= k < |r| ==> r[k].idx < n && mask[r[k].idx] != 0 && !IsDefect(ds, r[k].idx)) &&
      (forall k :: |ds| < k < |r| ==> r[k - 1].idx < r[k].idx)
  {
    if n > 0 {
      AddMaskOrder(ds, fh, mask, n - 1, junk);
      var e := AddMask(ds, fh, mask, n - 1, junk);
      AddMaskPrefix(ds, fh, mask, n - 1, junk);
      PrefixRegisters(ds, e, n - 1);
      if mask[n - 1] != 0 && !IsDefect(e, n - 1) {
        var r := e + [NewEntry(fh, n - 1, junk)];
        assert forall k :: 0 <= k < |e| ==> r[k] == e[k];
      }
    }
  }

  /** A pixel registered in a list is registered in every extension of it. */
  lemma PrefixRegisters(ds: seq<DefectPixelCorr>, e: seq<DefectPixelCorr>, i: int)
    requires ds <= e
    ensures IsDefect(ds, i) ==> IsDefect(e, i)
  {
    if IsDefect(ds, i) {
      var j :| 0 <= j < |ds| && ds[j].idx == i;
      assert e[j] == ds[j];
    }
  }

  /** The mask loop only appends. */
  lemma {:induction false} AddMaskPrefix(ds: seq<DefectPixelCorr>, fh: FrameHeader, mask: seq<int>, n: nat, junk: Pix)
    requires n <= |mask| && (fh.columns > 0 ==> fh.rows != 0)
    ensures ds <= AddMask(ds, fh, mask, n, junk)
  {
    if n > 0 {
      AddMaskPrefix(ds, fh, mask, n - 1, junk);
      var e := AddMask(ds, fh, mask, n - 1, junk);
      assert ds <= e + [NewEntry(fh, n - 1, junk)];
    }
  }

  /** With a frame of at most 2^31 pixels, every entry the mask loop appends is at its own frame pixel. */
  lemma {:induction false} AddMaskCanonical(ds: seq<DefectPixelCorr>, fh: FrameHeader, mask: seq<int>, n: nat, junk: Pix)
    requires fh.columns > 0 && fh.rows > 0 && fh.columns * fh.rows <= 0x8000_0000
    requires n <= |mask| && n <= fh.columns * fh.rows
    ensures var r := AddMask(ds, fh, mask, n, junk);
      |ds| <= |r| && forall k :: |ds| <= k < |r| ==> Canonical(fh, r[k])
  {
    if n > 0 {
      AddMaskCanonical(ds, fh, mask, n - 1, junk);
      FramePixelIdxOfPixel(fh, n - 1);
      GridPixelOfIndex(fh.columns, fh.rows, n - 1);
    }
  }

  /* ---------------------------------------- update_defect_correction_list */

  /** The 3 x 3 neighbourhood in the order of the loops: row offset outside, column offset inside. */
  const Offsets: seq<Pix> := [
    Pix(-1, -1), Pix(0, -1), Pix(1, -1),
    Pix(-1, 0), Pix(0, 0), Pix(1, 0),
    Pix(-1, 1), Pix(0, 1), Pix(1, 1)]

  /** The `size_t` index of the neighbour at offset `o`, wrapped around the frame edges. */
  function NeighbourAt(fh: FrameHeader, x: int, y: int, o: Pix): nat {
    PixelIndex(fh, x + o.x, y + o.y)
  }

  /** The correction list built from the first `n` offsets: each neighbour that is not a registered defect. */
  function Neighbours(ds: seq<DefectPixelCorr>, fh: FrameHeader, x: int, y: int, n: nat): seq<nat>
    requires n <= |Offsets|
  {
    if n == 0 then []
    else
      var c := NeighbourAt(fh, x, y, Offsets[n - 1]);
      Neighbours(ds, fh, x, y, n - 1) + (if IsDefect(ds, c) then [] else [c])
  }

  /** The neighbour list holds exactly the neighbours that are not registered defects. */
  lemma {:induction false} NeighboursSpec(ds: seq<DefectPixelCorr>, fh: FrameHeader, x: int, y: int, n: nat)
    requires n <= |Offsets|
    ensures forall c :: c in Neighbours(ds, fh, x, y, n) <==>
      !IsDefect(ds, c) && exists j :: 0 <= j < n && c == NeighbourAt(fh, x, y, Offsets[j])
  {
    if n > 0 {
      NeighboursSpec(ds, fh, x, y, n - 1);
    }
  }

  /** The offset the loops visit at step `3 * (k + 1) + (l + 1)`. */
  lemma OffsetAt(k: int, l: int)
    requires -1 <= k <= 1 && -1 <= l <= 1
    ensures Offsets[3 * (k + 1) + (l + 1)] == Pix(l, k)
  {
  }

  /** One step of the neighbour loops: the neighbour at column offset `l` and row offset `k` is considered next. */
  lemma NeighboursNext(ds: seq<DefectPixelCorr>, fh: FrameHeader, x: int, y: int, k: int, l: int)
    requires -1 <= k <= 1 && -1 <= l <= 1
    ensures var n, c := 3 * (k + 1) + (l + 1), PixelIndex(fh, x + l, y + k);
      Neighbours(ds, fh, x, y, n + 1) == Neighbours(ds, fh, x, y, n) + (if IsDefect(ds, c) then [] else [c])
  {
    OffsetAt(k, l);
  }

  /** Lists with the same indices register the same pixels, whatever their correction lists. */
  lemma SameIndices(a: seq<DefectPixelCorr>, b: seq<DefectPixelCorr>)
    requires |a| == |b| && forall j :: 0 <= j < |a| ==> a[j].idx == b[j].idx
    ensures forall i :: IsDefect(a, i) <==> IsDefect(b, i)
  {
    forall i | IsDefect(b, i)
      ensures IsDefect(a, i)
    {
      var j :| 0 <= j < |b| && b[j].idx == i;
      assert a[j].idx == i;
    }
  }

  /** The neighbour list depends only on which pixels are registered. */
  lemma {:induction false} NeighboursSameIndices(a: seq<DefectPixelCorr>, b: seq<DefectPixelCorr>, fh: FrameHeader, x: int, y: int, n: nat)
    requires |a| == |b| && forall j :: 0 <= j < |a| ==> a[j].idx == b[j].idx
    requires n <= |Offsets|
    ensures Neighbours(a, fh, x, y, n) == Neighbours(b, fh, x, y, n)
  {
    SameIndices(a, b);
    if n > 0 {
      NeighboursSameIndices(a, b, fh, x, y, n - 1);
    }
  }

  /** The list with every correction list rebuilt. */
  function Refresh(ds: seq<DefectPixelCorr>, fh: FrameHeader): seq<DefectPixelCorr> {
    seq(|ds|, k requires 0 <= k < |ds| => ds[k].(corr := Neighbours(ds, fh, ds[k].x, ds[k].y, |Offsets|)))
  }

  /**
    After the rebuild the same pixels are registered, the caches are fresh and
    hold every neighbour that is not a defect, and no defect is in its own list.
  */
  lemma RefreshFresh(ds: seq<DefectPixelCorr>, fh: FrameHeader)
    ensures var r := Refresh(ds, fh);
      |r| == |ds| &&
      (forall i :: IsDefect(r, i) <==> IsDefect(ds, i)) &&
      (NoDuplicates(ds) ==> NoDuplicates(r)) &&
      CacheFresh(r) &&
      (forall k :: 0 <= k < |r| ==> r[k].idx !in r[k].corr)
  {
    var r := Refresh(ds, fh);
    assert forall k :: 0 <= k < |r| ==> r[k].idx == ds[k].idx;
    assert forall i :: IsDefect(r, i) <==> IsDefect(ds, i) by {
      forall i | IsDefect(ds, i)
        ensures IsDefect(r, i)
      {
        var k :| 0 <= k < |ds| && ds[k].idx == i;
        assert r[k].idx == i;
      }
    }
    forall k, j | 0 <= k < |r| && 0 <= j < |r[k].corr|
      ensures !IsDefect(r, r[k].corr[j])
    {
      NeighboursSpec(ds, fh, ds[k].x, ds[k].y, |Offsets|);
      assert r[k].corr[j] in r[k].corr;
    }
  }

  /** With a frame, every neighbour index lies in the frame. */
  lemma {:induction false} NeighboursInFrame(ds: seq<DefectPixelCorr>, fh: FrameHeader, x: int, y: int, n: nat)
    requires fh.columns > 0 && fh.rows > 0 && fh.columns * fh.rows < SizeModulus
    requires n <= |Offsets|
    ensures forall j :: 0 <= j < |Neighbours(ds, fh, x, y, n)| ==> Neighbours(ds, fh, x, y, n)[j] < fh.columns * fh.rows
  {
    if n > 0 {
      NeighboursInFrame(ds, fh, x, y, n - 1);
      FramePixelIdxInFrame(fh, x + Offsets[n - 1].x, y + Offsets[n - 1].y);
    }
  }

  /* ----------------------------------------------------- defect_correction */

  /** Every defect and every cached neighbour is a position of a buffer of length `n`. */
  predicate InBuffer(ds: seq<DefectPixelCorr>, n: int) {
    forall k :: 0 <= k < |ds| ==> ds[k].idx < n && forall j :: 0 <= j < |ds[k].corr| ==> ds[k].corr[j] < n
  }

  predicate Indices(b: seq<real>, idxs: seq<nat>) {
    forall j :: 0 <= j < |idxs| ==> idxs[j] < |b|
  }

  /** The sum of the buffer values at the given positions, added in list order. */
  function SumAt(b: seq<real>, idxs: seq<nat>): real
    requires Indices(b, idxs)
  {
    if idxs == [] then 0.0 else SumAt(b, idxs[..|idxs| - 1]) + b[idxs[|idxs| - 1]]
  }

  /** The mean of the buffer values at the positions, as the sum times the reciprocal of the count. */
  function Mean(b: seq<real>, idxs: seq<nat>): real
    requires |idxs| > 0 && Indices(b, idxs)
  {
    SumAt(b, idxs) * (1.0 / (|idxs| as real))
  }

  /** The buffer after the first `n` defects were corrected, in list order, each from the values as they are by then. */
  function Correct(b: seq<real>, ds: seq<DefectPixelCorr>, n: nat): (r: seq<real>)
    requires n <= |ds| && InBuffer(ds, |b|)
    ensures |r| == |b|
  {
    if n == 0 then b
    else
      var c := Correct(b, ds, n - 1);
      var d := ds[n - 1];
      if |d.corr| > 0 then c[d.idx := Mean(c, d.corr)] else c
  }

  /** Some defect among the first `n` with a non-empty list is at position `i`. */
  predicate Corrects(ds: seq<DefectPixelCorr>, n: nat, i: int)
    requires n <= |ds|
  {
    exists k :: 0 <= k < n && ds[k].idx == i && |ds[k].corr| > 0
  }

  /** Sums over positions where two buffers agree are equal. */
  lemma {:induction false} SumAtAgrees(b: seq<real>, c: seq<real>, idxs: seq<nat>)
    requires Indices(b, idxs) && Indices(c, idxs)
    requires forall j :: 0 <= j < |idxs| ==> b[idxs[j]] == c[idxs[j]]
    ensures SumAt(b, idxs) == SumAt(c, idxs)
  {
    if idxs != [] {
      SumAtAgrees(b, c, idxs[..|idxs| - 1]);
    }
  }

  /** Correcting writes defect positions only. */
  lemma {:induction false} CorrectKeeps(b: seq<real>, ds: seq<DefectPixelCorr>, n: nat)
    requires n <= |ds| && InBuffer(ds, |b|)
    ensures forall i :: 0 <= i < |b| && !IsDefect(ds, i) ==> Correct(b, ds, n)[i] == b[i]
  {
    if n > 0 {
      CorrectKeeps(b, ds, n - 1);
      assert IsDefect(ds, ds[n - 1].idx);
    }
  }

  /** A fresh cache averages positions that are not defects, so it gives the same mean on buffers that agree off the defects. */
  lemma MeanOfFresh(b: seq<real>, c: seq<real>, ds: seq<DefectPixelCorr>, k: nat)
    requires InBuffer(ds, |b|) && |c| == |b| && CacheFresh(ds)
    requires k < |ds| && |ds[k].corr| > 0
    requires forall i :: 0 <= i < |b| && !IsDefect(ds, i) ==> c[i] == b[i]
    ensures Mean(c, ds[k].corr) == Mean(b, ds[k].corr)
  {
    forall j | 0 <= j < |ds[k].corr|
      ensures b[ds[k].corr[j]] == c[ds[k].corr[j]]
    {
      assert !IsDefect(ds, ds[k].corr[j]);
    }
    SumAtAgrees(b, c, ds[k].corr);
  }

  /**
    With distinct defects and fresh caches, correcting in order is the same as
    correcting every defect from the original values: a defect with a
    non-empty list gets the mean of its neighbours, every other position keeps
    its value.
  */
  lemma {:induction false} CorrectValue(b: seq<real>, ds: seq<DefectPixelCorr>, n: nat)
    requires n <= |ds| && InBuffer(ds, |b|) && NoDuplicates(ds) && CacheFresh(ds)
    ensures forall k :: 0 <= k < n && |ds[k].corr| > 0 ==> Correct(b, ds, n)[ds[k].idx] == Mean(b, ds[k].corr)
    ensures forall i :: 0 <= i < |b| && !Corrects(ds, n, i) ==> Correct(b, ds, n)[i] == b[i]
  {
    if n > 0 {
      CorrectValue(b, ds, n - 1);
      if |ds[n - 1].corr| > 0 {
        CorrectKeeps(b, ds, n - 1);
        MeanOfFresh(b, Correct(b, ds, n - 1), ds, n - 1);
      }
    }
  }

  /** One position of a corrected buffer is left as it is by a second correction. */
  lemma RecorrectAt(b: seq<real>, ds: seq<DefectPixelCorr>, i: nat)
    requires InBuffer(ds, |b|) && NoDuplicates(ds) && CacheFresh(ds) && i < |b|
    ensures Correct(Correct(b, ds, |ds|), ds, |ds|)[i] == Correct(b, ds, |ds|)[i]
  {
    var c := Correct(b, ds, |ds|);
    CorrectValue(c, ds, |ds|);
    if Corrects(ds, |ds|, i) {
      var k :| 0 <= k < |ds| && ds[k].idx == i && |ds[k].corr| > 0;
      CorrectValue(b, ds, |ds|);
      CorrectKeeps(b, ds, |ds|);
      MeanOfFresh(b, c, ds, k);
    }
  }

  /** With distinct defects and fresh caches, correcting a corrected buffer changes nothing. */
  lemma CorrectIdempotent(b: seq<real>, ds: seq<DefectPixelCorr>)
    requires InBuffer(ds, |b|) && NoDuplicates(ds) && CacheFresh(ds)
    ensures Correct(Correct(b, ds, |ds|), ds, |ds|) == Correct(b, ds, |ds|)
  {
    forall i | 0 <= i < |b|
      ensures Correct(Correct(b, ds, |ds|), ds, |ds|)[i] == Correct(b, ds, |ds|)[i]
    {
      RecorrectAt(b, ds, i);
    }
  }
}
