/**
  The state of `merlin_params` (`merlin_prm.h` lines 41-75) and the methods
  that change it in place: building the frame index, maintaining the defect
  list and its correction caches, and applying the gain and defect
  corrections to a frame buffer.
*/
module MerlinParams {
  import opened Wrappers
  import opened CLib
  import opened MerlinHdr
  import opened Indexing
  import opened FrameIndex
  import opened Defects

  /** The frame buffer after `gain_correction`: the first `n` values multiplied by their gain factors. */
  function Gained(b: seq<real>, gain: seq<real>, n: nat): seq<real>
    requires n <= |b| && n <= |gain|
  {
    seq(|b|, i requires 0 <= i < |b| => if i < n then b[i] * gain[i] else b[i])
  }

  function Reciprocals(gain: seq<real>): (r: seq<real>)
    requires forall i :: 0 <= i < |gain| ==> gain[i] != 0.0
    ensures |r| == |gain| && forall i :: 0 <= i < |gain| ==> r[i] * gain[i] == 1.0
  {
    seq(|gain|, i requires 0 <= i < |gain| => 1.0 / gain[i])
  }

  /** A gain map without zeros is undone by its reciprocals. */
  lemma GainedUndone(b: seq<real>, gain: seq<real>, n: nat)
    requires n <= |b| && n <= |gain|
    requires forall i :: 0 <= i < |gain| ==> gain[i] != 0.0
    ensures Gained(Gained(b, gain, n), Reciprocals(gain), n) == b
  {
    var g := Gained(b, gain, n);
    var r := Reciprocals(gain);
    var h := Gained(g, r, n);
    forall i | 0 <= i < |b|
      ensures h[i] == b[i]
    {
      if i < n {
        assert r[i] * gain[i] == 1.0;
        calc {
          h[i];
          (b[i] * gain[i]) * r[i];
          b[i] * (gain[i] * r[i]);
          b[i];
        }
      }
    }
  }

  /** One more stride. */
  lemma MulStep(c: int, stride: int)
    ensures (c + 1) * stride == c * stride + stride
  {
  }

  /** `(size_t)n_rows * (size_t)n_columns` of a frame header. */
  function PixelCount(fh: FrameHeader): nat {
    (AsSize(fh.rows) * AsSize(fh.columns)) % SizeModulus
  }

  /** The `merlin_params` object: the fields the core reads and writes. */
  class Params {
    var hdr: AcqHeader
    var hdrFrm: FrameHeader
    var frmFile: seq<int>
    var frmPos: seq<int>
    var frameCalib: FrameCalib
    var rangeAnnular: Range
    var scanRectRoi: Roi
    var scanFrameHeaders: bool
    var swapBytes: bool
    var gainCorrect: bool
    var gain: Option<seq<real>>
    var defects: seq<DefectPixelCorr>
    var defectsModified: bool

    /**
      One file index per data position, no pixel registered twice, and a
      clear `defects_modified` only while no cached neighbour is a defect.
    */
    predicate Valid()
      reads this
    {
      |frmFile| == |frmPos| && NoDuplicates(defects) && (!defectsModified ==> CacheFresh(defects))
    }

    /** The part of the state `read_frame_headers` builds. */
    function IndexState(): Index
      reads this
    {
      Index(hdr.files, frmFile, frmPos, hdrFrm, hdr.fhdrBytes, hdr.dataBytes)
    }

    function DefectState(): DefectList
      reads this
    {
      DefectList(defects, defectsModified)
    }

    /** The constructor: no frames, identity calibration, empty ranges and region, no corrections. */
    constructor ()
      ensures Valid()
      ensures hdr == DefaultAcqHeader && hdrFrm == DefaultFrameHeader && frmFile == [] && frmPos == []
      ensures frameCalib == FrameCalib(Pos(0.0, 0.0), Pos(1.0, 0.0), Pos(0.0, 1.0))
      ensures rangeAnnular == Range(0.0, 0.0) && scanRectRoi == Roi(0, 0, 0, 0)
      ensures !scanFrameHeaders && !swapBytes && !gainCorrect && gain.None?
      ensures defects == [] && !defectsModified
    {
      hdr := DefaultAcqHeader;
      hdrFrm := DefaultFrameHeader;
      frmFile := [];
      frmPos := [];
      frameCalib := FrameCalib(Pos(0.0, 0.0), Pos(1.0, 0.0), Pos(0.0, 1.0));
      rangeAnnular := Range(0.0, 0.0);
      scanRectRoi := Roi(0, 0, 0, 0);
      scanFrameHeaders := false;
      swapBytes := false;
      gainCorrect := false;
      gain := None;
      defects := [];
      defectsModified := false;
    }

    /* ------------------------------------------------------ frame index */

    /** The missing-frame loops of `read_frame_headers`: entries one stride apart in the file of the last entry, up to `n`. */
    method FillMissing(n: int)
      modifies this`frmPos, this`frmFile
      requires |frmFile| == |frmPos| && |frmPos| > 0
      ensures IndexState() == FillTo(old(IndexState()), n)
    {
      var m := |frmPos|;
      var lpos := frmPos[m - 1];
      var lfile := frmFile[m - 1];
      var stride := hdr.fhdrBytes + hdr.dataBytes;
      ghost var pos0, file0 := frmPos, frmFile;
      var i := m;
      while i < n
        invariant m <= i && (i <= n || i == m)
        invariant frmPos == pos0 + Strides(pos0[m - 1], stride, i - m)
        invariant frmFile == file0 + seq(i - m, _ => lfile)
        invariant lpos == pos0[m - 1] + (i - m) * stride
      {
        MulStep(i - m, stride);
        lpos := lpos + stride;
        frmPos := frmPos + [lpos];
        frmFile := frmFile + [lfile];
        assert Strides(pos0[m - 1], stride, i - m) + [lpos] == Strides(pos0[m - 1], stride, i + 1 - m);
        assert seq(i - m, _ => lfile) + [lfile] == seq(i + 1 - m, _ => lfile);
        i := i + 1;
      }
    }

    /** The headers of one data file, read until the file ends, fast mode has its first header, or an error. */
    method ReadFileHeaders(hdrs: seq<HeaderRead>) returns (code: int)
      modifies this`frmPos, this`frmFile, this`hdrFrm, this`hdr
      requires |frmFile| == |frmPos|
      ensures Outcome(code, IndexState()) == ReadFile(old(IndexState()), hdrs, 0, scanFrameHeaders)
      ensures hdr.frames == old(hdr.frames) && hdr.columns == old(hdr.columns) && hdr.rows == old(hdr.rows) && hdr.timestamp == old(hdr.timestamp)
    {
      ghost var spec := ReadFile(IndexState(), hdrs, 0, scanFrameHeaders);
      var k := 0;
      var bread := true;
      code := 0;
      while bread
        invariant 0 <= k <= |hdrs| && |frmFile| == |frmPos|
        invariant bread ==> code == 0 && ReadFile(IndexState(), hdrs, k, scanFrameHeaders) == spec
        invariant !bread ==> Outcome(code, IndexState()) == spec
        invariant hdr.frames == old(hdr.frames) && hdr.columns == old(hdr.columns) && hdr.rows == old(hdr.rows) && hdr.timestamp == old(hdr.timestamp)
        decreases |hdrs| - k, bread
      {
        var r := if k < |hdrs| then hdrs[k] else Failed(true);
        match r
        case Failed(eof) =>
          if !eof {
            return 2;
          }
          bread := false;
        case Read(fh, pos, good) =>
          if |frmPos| == 0 {
            hdrFrm := fh;
            hdr := hdr.(fhdrBytes := AsSize(fh.size), dataBytes := DataBytes(fh));
          }
          if scanFrameHeaders {
            if !Consistent(hdrFrm, fh, |frmPos|) {
              return 3;
            }
            frmPos := frmPos + [pos];
            frmFile := frmFile + [hdr.files];
            bread := good;
            k := k + 1;
          } else {
            if |frmPos| > 0 {
              FillMissing(fh.iSeq);
            }
            frmPos := frmPos + [pos];
            frmFile := frmFile + [hdr.files];
            bread := false;
          }
      }
    }

    /** The loop of `read_frame_headers` over the data files, up to the first error. */
    method IndexDataFiles(files: seq<DataFile>) returns (code: int)
      modifies this`frmPos, this`frmFile, this`hdrFrm, this`hdr
      requires |frmFile| == |frmPos|
      ensures |frmFile| == |frmPos|
      ensures Outcome(code, IndexState()) == IndexFiles(old(IndexState()), files, scanFrameHeaders)
      ensures hdr.frames == old(hdr.frames) && hdr.columns == old(hdr.columns) && hdr.rows == old(hdr.rows) && hdr.timestamp == old(hdr.timestamp)
    {
      ghost var start := IndexState();
      var f := 0;
      while f < |files|
        invariant 0 <= f <= |files| && |frmFile| == |frmPos|
        invariant IndexFiles(IndexState(), files[f..], scanFrameHeaders) == IndexFiles(start, files, scanFrameHeaders)
        invariant hdr.frames == old(hdr.frames) && hdr.columns == old(hdr.columns) && hdr.rows == old(hdr.rows) && hdr.timestamp == old(hdr.timestamp)
      {
        assert files[f..][0] == files[f] && files[f..][1..] == files[f + 1..];
        match files[f]
        case Unopenable =>
          return 1;
        case Opened(hdrs) =>
          code := ReadFileHeaders(hdrs);
          if code != 0 {
            return;
          }
          hdr := hdr.(files := hdr.files + 1);
        f := f + 1;
      }
      assert files[f..] == [];
      return 0;
    }

    /**
      `read_frame_headers`: the frame index built from the data files in
      order, with the return code of the specification in `FrameIndex`; the
      defect list and the settings are not touched.
    */
    method ReadFrameHeaders(files: seq<DataFile>) returns (code: int)
      modifies this`frmPos, this`frmFile, this`hdrFrm, this`hdr
      requires Valid()
      ensures Valid()
      ensures var o := ReadFrameHeadersSpec(old(hdr.frames), old(hdrFrm), files, scanFrameHeaders);
        code == o.code && IndexState() == o.ix
      ensures hdr.frames == old(hdr.frames) && hdr.columns == old(hdr.columns) && hdr.rows == old(hdr.rows) && hdr.timestamp == old(hdr.timestamp)
    {
      hdr := hdr.(files := 0, fhdrBytes := 0, dataBytes := 0);
      frmFile := [];
      frmPos := [];
      code := IndexDataFiles(files);
      if code != 0 {
        return;
      }
      if hdr.files == 0 || |frmPos| == 0 {
        return 4;
      }
      if |frmPos| < hdr.frames {
        if scanFrameHeaders {
          return 5;
        }
        FillMissing(hdr.frames);
      }
      return 0;
    }

    /**
      `get_frame_filepos`: error 1 for a frame number outside `[0, n_frames)`,
      otherwise the file index and data position of the frame; on error the
      outputs keep the values they came with.
    */
    method GetFrameFilePos(idx: int, file0: int, pos0: int) returns (code: int, file: int, pos: int)
      requires 0 <= idx < hdr.frames ==> idx < |frmFile| && idx < |frmPos|
      ensures code == 1 <==> idx < 0 || idx >= hdr.frames
      ensures code == 0 <==> 0 <= idx < hdr.frames
      ensures code == 0 ==> file == frmFile[idx] && pos == frmPos[idx]
      ensures code != 0 ==> file == file0 && pos == pos0
    {
      if idx < 0 || idx >= hdr.frames {
        return 1, file0, pos0;
      }
      return 0, frmFile[idx], frmPos[idx];
    }

    /* ------------------------------------------------------- defect list */

    /** `is_defect_pixel(idx)`: a linear search of the list. */
    method IsDefectPixel(idx: nat) returns (found: bool)
      ensures found <==> IsDefect(defects, idx)
    {
      var i := 0;
      while i < |defects|
        invariant 0 <= i <= |defects|
        invariant forall j :: 0 <= j < i ==> defects[j].idx != idx
      {
        if defects[i].idx == idx {
          return true;
        }
        i := i + 1;
      }
      return false;
    }

    /** `is_defect_pixel(x, y)`: the search for the `size_t` pixel index of the position. */
    method IsDefectPixelAt(x: int, y: int) returns (found: bool)
      ensures found <==> IsDefect(defects, PixelIndex(hdrFrm, x, y))
    {
      found := IsDefectPixel(PixelIndex(hdrFrm, x, y));
    }

    /**
      `set_defect_pixel(x, y)` as written: the test `i < 0` on the `size_t`
      index never holds, so a position without a frame pixel registers index
      2^64 - 1. `junk` is what the coordinates of the new entry hold when
      `get_frame_pixel` fails. A frame with columns but no rows would make
      `get_frame_pixel` divide by zero.
    */
    method SetDefectPixel(x: int, y: int, junk: Pix) returns (code: int)
      modifies this`defects, this`defectsModified
      requires Valid()
      requires hdrFrm.columns > 0 ==> hdrFrm.rows != 0
      ensures Valid()
      ensures (code, DefectState()) == SetDefectAsWritten(old(DefectState()), hdrFrm, x, y, junk)
    {
      SetDefectAsWrittenRegisters(DefectState(), hdrFrm, x, y, junk);
      var isd := IsDefectPixelAt(x, y);
      if isd {
        return 0;
      }
      var i := AsSize(FramePixelIdx(hdrFrm, x, y));
      var e := NewEntry(hdrFrm, i, junk);
      defects := defects + [e];
      defectsModified := true;
      return 0;
    }

    /** `unset_defect_pixel(x, y)`: the first entry of the pixel is erased. */
    method UnsetDefectPixel(x: int, y: int) returns (code: int)
      modifies this`defects, this`defectsModified
      requires Valid()
      ensures Valid()
      ensures code == 0 && DefectState() == UnsetDefect(old(DefectState()), hdrFrm, x, y)
    {
      UnsetDefectRemoves(DefectState(), hdrFrm, x, y);
      var idx := PixelIndex(hdrFrm, x, y);
      var i := 0;
      while i < |defects|
        invariant 0 <= i <= |defects|
        invariant forall j :: 0 <= j < i ==> defects[j].idx != idx
      {
        if defects[i].idx == idx {
          assert FirstMatch(defects, idx) == i;
          defects := defects[..i] + defects[i + 1..];
          defectsModified := |defects| > 0;
          return 0;
        }
        i := i + 1;
      }
      assert FirstMatch(defects, idx) == |defects|;
      return 0;
    }

    /** `unset_defect_list`: no defects, nothing to update. */
    method UnsetDefectList() returns (code: int)
      modifies this`defects, this`defectsModified
      ensures Valid() <==> |frmFile| == |frmPos|
      ensures code == 0 && defects == [] && !defectsModified
    {
      defects := [];
      defectsModified := false;
      return 0;
    }

    /**
      The in-memory part of `load_defect_mask`: error 1 when the frame has no
      pixels; otherwise every masked pixel not yet registered is appended in
      increasing order, and the list is marked modified when one was. `junk`
      is the pixel the reused entry holds when `get_frame_pixel` fails.
    */
    method AddDefectMask(mask: seq<int>, junk: Pix) returns (code: int)
      modifies this`defects, this`defectsModified
      requires Valid()
      requires |mask| == PixelCount(hdrFrm)
      ensures Valid()
      ensures code == (if PixelCount(hdrFrm) == 0 then 1 else 0)
      ensures code == 0 ==> defects == AddMask(old(defects), hdrFrm, mask, |mask|, junk)
      ensures code == 0 ==> defectsModified == (old(defectsModified) || |defects| > |old(defects)|)
      ensures code != 0 ==> defects == old(defects) && defectsModified == old(defectsModified)
    {
      var npix := PixelCount(hdrFrm);
      if npix == 0 {
        return 1;
      }
      assert hdrFrm.columns > 0 ==> hdrFrm.rows != 0;
      AddMaskRegisters(defects, hdrFrm, mask, |mask|, junk);
      var added := 0;
      var idx := 0;
      while idx < npix
        invariant 0 <= idx <= npix
        invariant defects == AddMask(old(defects), hdrFrm, mask, idx, junk)
        invariant added == |defects| - |old(defects)|
        invariant defectsModified == old(defectsModified)
      {
        if mask[idx] != 0 {
          var isd := IsDefectPixel(idx);
          if !isd {
            defects := defects + [NewEntry(hdrFrm, idx, junk)];
            added := added + 1;
          }
        }
        idx := idx + 1;
      }
      if added > 0 {
        defectsModified := true;
      }
      return 0;
    }

    /**
      The neighbour loops of `update_defect_correction_list` for the defect at
      (x, y): the wrapped 3 x 3 neighbourhood, row offset outside and column
      offset inside, without the registered defects.
    */
    method CorrectionList(x: int, y: int) returns (corr: seq<nat>)
      ensures corr == Neighbours(defects, hdrFrm, x, y, |Offsets|)
    {
      corr := [];
      ghost var n := 0;
      for k := -1 to 2
        invariant n == 3 * (k + 1) && corr == Neighbours(defects, hdrFrm, x, y, n)
      {
        for l := -1 to 2
          invariant n == 3 * (k + 1) + (l + 1) && corr == Neighbours(defects, hdrFrm, x, y, n)
        {
          corr := ConsiderNeighbour(x, y, k, l, corr);
          n := n + 1;
        }
      }
    }

    /** One pass of the inner neighbour loop: the neighbour at column offset `l` and row offset `k` is kept unless it is a registered defect. */
    method ConsiderNeighbour(x: int, y: int, k: int, l: int, corr: seq<nat>) returns (corr': seq<nat>)
      requires -1 <= k <= 1 && -1 <= l <= 1
      requires corr == Neighbours(defects, hdrFrm, x, y, 3 * (k + 1) + (l + 1))
      ensures corr' == Neighbours(defects, hdrFrm, x, y, 3 * (k + 1) + (l + 1) + 1)
    {
      NeighboursNext(defects, hdrFrm, x, y, k, l);
      var idx2 := PixelIndex(hdrFrm, x + l, y + k);
      var isd := IsDefectPixel(idx2);
      corr' := if isd then corr else corr + [idx2];
    }

    /**
      `update_defect_correction_list`: every correction list rebuilt from the
      wrapped 3 x 3 neighbourhood of its defect, and the list marked up to
      date.
    */
    method UpdateDefectCorrectionList() returns (code: int)
      modifies this`defects, this`defectsModified
      requires Valid()
      ensures Valid()
      ensures code == 0 && defects == Refresh(old(defects), hdrFrm) && !defectsModified
    {
      ghost var ds0 := defects;
      var i := 0;
      while i < |defects|
        invariant 0 <= i <= |defects| == |ds0|
        invariant forall j :: 0 <= j < i ==> defects[j] == Refresh(ds0, hdrFrm)[j]
        invariant forall j :: i <= j < |ds0| ==> defects[j] == ds0[j]
      {
        NeighboursSameIndices(defects, ds0, hdrFrm, defects[i].x, defects[i].y, |Offsets|);
        var corr := CorrectionList(defects[i].x, defects[i].y);
        defects := defects[i := defects[i].(corr := corr)];
        i := i + 1;
      }
      assert defects == Refresh(ds0, hdrFrm);
      RefreshFresh(ds0, hdrFrm);
      defectsModified := false;
      return 0;
    }

    /* ------------------------------------------------------ corrections */

    /** The loop of `gain_correction`: the first `n` values multiplied by their gain factors. */
    method MultiplyGain(buf: array<real>, g: seq<real>, n: nat)
      modifies buf
      requires n <= buf.Length && n <= |g|
      ensures buf[..] == Gained(old(buf[..]), g, n)
    {
      var i := 0;
      while i < n
        invariant 0 <= i <= n
        invariant forall j :: 0 <= j < buf.Length ==> buf[j] == if j < i then old(buf[j]) * g[j] else old(buf[j])
      {
        buf[i] := buf[i] * g[i];
        i := i + 1;
      }
      assert forall j :: 0 <= j < buf.Length ==> buf[..][j] == Gained(old(buf[..]), g, n)[j];
    }

    /**
      `gain_correction`: with gain correction on, error 1 without a buffer or
      gain map, error 2 for a frame without pixels, otherwise every pixel
      multiplied by its gain factor; with it off, nothing happens.
    */
    method GainCorrection(buf: array?<real>) returns (code: int)
      modifies buf
      requires buf != null && gainCorrect && gain.Some? ==>
        PixelCount(hdrFrm) <= buf.Length && PixelCount(hdrFrm) <= |gain.value|
      ensures code == (if !gainCorrect then 0 else if buf == null || gain.None? then 1 else if PixelCount(hdrFrm) == 0 then 2 else 0)
      ensures buf != null ==>
        if gainCorrect && code == 0 then buf[..] == Gained(old(buf[..]), gain.value, PixelCount(hdrFrm))
        else buf[..] == old(buf[..])
    {
      var npix := PixelCount(hdrFrm);
      if gainCorrect {
        if buf == null || gain.None? {
          return 1;
        }
        if npix == 0 {
          return 2;
        }
        MultiplyGain(buf, gain.value, npix);
      }
      return 0;
    }

    /** The accumulation loop of `defect_correction`: the buffer values at the positions, added in list order. */
    method SumNeighbours(buf: array<real>, corr: seq<nat>) returns (snc: real)
      requires Indices(buf[..], corr)
      ensures snc == SumAt(buf[..], corr)
    {
      snc := 0.0;
      var icor := 0;
      while icor < |corr|
        invariant 0 <= icor <= |corr|
        invariant snc == SumAt(buf[..], corr[..icor])
      {
        assert corr[..icor + 1][..icor] == corr[..icor];
        snc := snc + buf[corr[icor]];
        icor := icor + 1;
      }
      assert corr[..icor] == corr;
    }

    /** The body of the loop of `defect_correction` for one defect: its value becomes the mean of its neighbours when it has any. */
    method CorrectDefect(buf: array<real>, d: DefectPixelCorr)
      modifies buf
      requires d.idx < buf.Length && Indices(buf[..], d.corr)
      ensures |d.corr| > 0 ==> buf[..] == old(buf[..])[d.idx := Mean(old(buf[..]), d.corr)]
      ensures |d.corr| == 0 ==> buf[..] == old(buf[..])
    {
      var nc := |d.corr|;
      if nc > 0 {
        var rnc := 1.0 / (nc as real);
        var snc := SumNeighbours(buf, d.corr);
        assert snc == SumAt(old(buf[..]), d.corr);
        assert snc * rnc == Mean(old(buf[..]), d.corr);
        buf[d.idx] := snc * rnc;
      }
    }

    /**
      `defect_correction`: with registered defects, error 1 without a buffer
      and error 2 for a frame without pixels; otherwise each defect with a
      non-empty list, in list order, gets the mean of its neighbours' values
      at that moment.
    */
    method DefectCorrection(buf: array?<real>) returns (code: int)
      modifies buf
      requires buf != null && |defects| > 0 && PixelCount(hdrFrm) != 0 ==> InBuffer(defects, buf.Length)
      ensures code == (if |defects| == 0 then 0 else if buf == null then 1 else if PixelCount(hdrFrm) == 0 then 2 else 0)
      ensures buf != null ==>
        if |defects| > 0 && code == 0 then buf[..] == Correct(old(buf[..]), defects, |defects|)
        else buf[..] == old(buf[..])
    {
      if |defects| > 0 {
        if buf == null {
          return 1;
        }
        if PixelCount(hdrFrm) == 0 {
          return 2;
        }
        var idef := 0;
        while idef < |defects|
          invariant 0 <= idef <= |defects|
          invariant buf[..] == Correct(old(buf[..]), defects, idef)
        {
          CorrectDefect(buf, defects[idef]);
          idef := idef + 1;
        }
      }
      return 0;
    }
  }

  /**
    Correcting twice straight after the caches were rebuilt gives the same
    buffer as correcting once: the state `update_defect_correction_list`
    leaves satisfies what `CorrectIdempotent` needs.
  */
  lemma CorrectAfterUpdateIdempotent(b: seq<real>, ds: seq<DefectPixelCorr>, fh: FrameHeader)
    requires NoDuplicates(ds) && InBuffer(Refresh(ds, fh), |b|)
    ensures var r := Refresh(ds, fh); Correct(Correct(b, r, |r|), r, |r|) == Correct(b, r, |r|)
  {
    RefreshFresh(ds, fh);
    CorrectIdempotent(b, Refresh(ds, fh));
  }
}
