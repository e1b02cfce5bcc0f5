/**
  Index arithmetic of `merlin_params` (`merlin_prm.cpp` lines 253-390): the
  parameter tokeniser of the option strings, the scan rectangle, the frame
  calibration and the conversions between linear indices and (x, y)
  positions on the scan grid and on the frame pixel grid.
*/
module Indexing {
  import opened Wrappers
  import opened CLib
  import opened MerlinHdr
  import opened MerlinFrame

  /* ------------------------------------------------------------ read_param */

  /** The separators of `read_param`: a comma and a space. */
  predicate IsSep(c: char) { c == ',' || c == ' ' }

  /** `find_first_of(", ", i)`: the first separator at or after `i`, if any. */
  function SepFrom(s: string, i: nat): (c: Option<nat>)
    decreases |s| - i
    ensures c.Some? ==> i <= c.value < |s| && IsSep(s[c.value])
    ensures c.Some? ==> forall k :: i <= k < c.value ==> !IsSep(s[k])
    ensures c.None? ==> forall k :: i <= k < |s| ==> !IsSep(s[k])
  {
    if i >= |s| then None
    else if IsSep(s[i]) then Some(i)
    else SepFrom(s, i + 1)
  }

  /** `find_first_not_of(", ", i)`: the first character other than a separator at or after `i`, if any. */
  function NonSepFrom(s: string, i: nat): (c: Option<nat>)
    decreases |s| - i
    ensures c.Some? ==> i <= c.value < |s| && !IsSep(s[c.value])
    ensures c.Some? ==> forall k :: i <= k < c.value ==> IsSep(s[k])
    ensures c.None? ==> forall k :: i <= k < |s| ==> IsSep(s[k])
  {
    if i >= |s| then None
    else if !IsSep(s[i]) then Some(i)
    else NonSepFrom(s, i + 1)
  }

  /**
    `read_param` (merlin_prm.cpp:253-294): with the start clamped to 0, a start
    at or beyond the end empties `prm` and is returned; otherwise the token is
    the run up to the next separator (or the end), replaces `prm` when it is not
    empty, and the result is where the following token starts (or the end).
  */
  function ReadParam(ipos: int, str: Option<string>, prm: Option<string>): ParamResult {
    var lipos := if ipos >= 0 then ipos else 0;
    if str.None? then NoHeader
    else if prm.None? then NoParam
    else
      var s := str.value;
      if lipos >= |s| then Advanced(lipos, "")
      else
        var c := match SepFrom(s, lipos) case None => |s| case Some(k) => k;
        var tok := if c - lipos > 0 then s[lipos..c] else prm.value;
        var next := if c < |s| then (match NonSepFrom(s, c) case None => |s| case Some(k) => k) else c;
        Advanced(next, tok)
  }

  /**
    The result of `read_param` is the end of the string or the start of a
    token, strictly after the start whenever the start was inside the string;
    the token read holds no separator, and is followed by a separator or the end.
  */
  lemma ReadParamAdvances(ipos: int, s: string, prm: string)
    requires 0 <= ipos < |s|
    ensures var r := ReadParam(ipos, Some(s), Some(prm));
      r.Advanced? && ipos < r.next <= |s| && (r.next == |s| || !IsSep(s[r.next]))
    ensures var r := ReadParam(ipos, Some(s), Some(prm));
      IsSep(s[ipos]) ==> r.prm == prm && forall k :: ipos <= k < r.next ==> IsSep(s[k])
    ensures var r := ReadParam(ipos, Some(s), Some(prm));
      !IsSep(s[ipos]) ==>
        var e := ipos + |r.prm|;
        0 < |r.prm| && e <= r.next && r.prm == s[ipos..e] &&
        (forall k :: ipos <= k < e ==> !IsSep(s[k])) &&
        (forall k :: e <= k < r.next ==> IsSep(s[k])) &&
        (e < |s| ==> IsSep(s[e]))
  {
  }

  /**
    `read_param` reads a token written between separators: for a token `tok`
    without separators, followed by a run of separators and the rest of the
    string, it captures `tok` (or keeps `prm` when `tok` is empty) and stops at
    the rest, which starts with a non-separator or is empty.
  */
  lemma {:induction false} ReadParamReadsToken(pre: string, tok: string, seps: string, rest: string, prm: string)
    requires forall k :: 0 <= k < |tok| ==> !IsSep(tok[k])
    requires |seps| > 0 && forall k :: 0 <= k < |seps| ==> IsSep(seps[k])
    requires rest == [] || !IsSep(rest[0])
    ensures ReadParam(|pre|, Some(pre + tok + seps + rest), Some(prm))
      == Advanced(|pre| + |tok| + |seps|, if tok == [] then prm else tok)
  {
    var s := pre + tok + seps + rest;
    var p := |pre|;
    var c := p + |tok|;
    SepFromSkips(s, p, c);
    var n := c + |seps|;
    if rest == [] {
      assert forall k :: c <= k < |s| ==> IsSep(s[k]) by {
        forall k | c <= k < |s| ensures IsSep(s[k]) {
          assert s[k] == seps[k - c];
        }
      }
    } else {
      NonSepFromSkips(s, c, n);
    }
    assert s[p..c] == tok;
  }

  lemma {:induction false} SepFromSkips(s: string, i: nat, c: nat)
    requires i <= c < |s| && IsSep(s[c])
    requires forall k :: i <= k < c ==> !IsSep(s[k])
    ensures SepFrom(s, i) == Some(c)
    decreases c - i
  {
    if i < c {
      SepFromSkips(s, i + 1, c);
    }
  }

  lemma {:induction false} NonSepFromSkips(s: string, i: nat, c: nat)
    requires i <= c < |s| && !IsSep(s[c])
    requires forall k :: i <= k < c ==> IsSep(s[k])
    ensures NonSepFrom(s, i) == Some(c)
    decreases c - i
  {
    if i < c {
      NonSepFromSkips(s, i + 1, c);
    }
  }

  /** A start at or beyond the end yields the empty token and the clamped start itself. */
  lemma ReadParamAtEnd(ipos: int, s: string, prm: string)
    requires ipos >= |s|
    ensures ReadParam(ipos, Some(s), Some(prm)) == Advanced(ipos, "")
  {
  }

  /* -------------------------------------------------------- scan rectangle */

  /** `in_scan_roi`: the rectangle includes both of its corners. */
  predicate InScanRoi(pos: Pix, roi: Roi) {
    roi.x0 <= pos.x <= roi.x1 && roi.y0 <= pos.y <= roi.y1
  }

  /** `get_scan_rect_roi_size` as written: the differences of the corners, not counting the far edges. */
  function RoiSizeAsWritten(roi: Roi): nat {
    var dx := if roi.x1 > roi.x0 then roi.x1 - roi.x0 else 0;
    var dy := if roi.y1 > roi.y0 then roi.y1 - roi.y0 else 0;
    dx * dy
  }

  /** The number of scan positions the rectangle includes, its far edges counted as `in_scan_roi` counts them. */
  function RoiSize(roi: Roi): nat {
    var dx := if roi.x1 >= roi.x0 then roi.x1 - roi.x0 + 1 else 0;
    var dy := if roi.y1 >= roi.y0 then roi.y1 - roi.y0 + 1 else 0;
    dx * dy
  }

  /** The positions of the rectangle, row by row. */
  function RoiPositions(roi: Roi): (ps: seq<Pix>)
    decreases if roi.y1 >= roi.y0 then roi.y1 - roi.y0 + 1 else 0
  {
    if roi.y1 < roi.y0 then []
    else RoiPositions(roi.(y1 := roi.y1 - 1)) + RowPositions(roi.x0, roi.x1, roi.y1)
  }

  /** The positions `x0..x1` of row `y`. */
  function RowPositions(x0: int, x1: int, y: int): (ps: seq<Pix>)
    decreases if x1 >= x0 then x1 - x0 + 1 else 0
    ensures |ps| == if x1 >= x0 then x1 - x0 + 1 else 0
    ensures forall k :: 0 <= k < |ps| ==> ps[k] == Pix(x0 + k, y)
  {
    if x1 < x0 then [] else RowPositions(x0, x1 - 1, y) + [Pix(x1, y)]
  }

  /**
    The corrected size counts the rectangle: its positions are exactly the ones
    `in_scan_roi` accepts, each listed once, and there are `RoiSize` of them.
  */
  lemma {:induction false} RoiSizeCounts(roi: Roi)
    ensures |RoiPositions(roi)| == RoiSize(roi)
    ensures forall p :: p in RoiPositions(roi) <==> InScanRoi(p, roi)
    ensures forall i, j :: 0 <= i < j < |RoiPositions(roi)| ==> RoiPositions(roi)[i] != RoiPositions(roi)[j]
    decreases if roi.y1 >= roi.y0 then roi.y1 - roi.y0 + 1 else 0
  {
    if roi.y1 >= roi.y0 {
      var lower := roi.(y1 := roi.y1 - 1);
      RoiSizeCounts(lower);
      var a, b := RoiPositions(lower), RowPositions(roi.x0, roi.x1, roi.y1);
      var w := if roi.x1 >= roi.x0 then roi.x1 - roi.x0 + 1 else 0;
      assert |a| == w * (roi.y1 - roi.y0);
      assert |a + b| == w * (roi.y1 - roi.y0 + 1);
      forall p
        ensures p in a + b <==> InScanRoi(p, roi)
      {
        if InScanRoi(p, roi) && p.y == roi.y1 {
          assert b[p.x - roi.x0] == p;
        }
      }
      forall i, j | 0 <= i < j < |a + b|
        ensures (a + b)[i] != (a + b)[j]
      {
        if j >= |a| && i < |a| {
          assert (a + b)[i] in a;
        }
      }
    }
  }

  /** The counterexample: a ten by ten rectangle holds 100 positions, but line 389 reports 81. */
  lemma RoiSizeAsWrittenMissesEdges()
    ensures RoiSizeAsWritten(Roi(0, 0, 9, 9)) == 81
    ensures RoiSize(Roi(0, 0, 9, 9)) == 100
  {
  }

  /* ---------------------------------------------------------- calibration */

  /** `get_calib_pos` with an output record: the affine map `(p - offset) . [a0; a1]`. */
  function CalibPos(calib: FrameCalib, p: Pix): (r: Pos) {
    var dx, dy := p.x as real - calib.offset.x, p.y as real - calib.offset.y;
    Pos(dx * calib.a0.x + dy * calib.a1.x, dx * calib.a0.y + dy * calib.a1.y)
  }

  /** The calibration is affine: the difference of two positions is the linear part applied to the difference of the pixels. */
  lemma CalibPosAffine(calib: FrameCalib, p: Pix, q: Pix)
    ensures var dx, dy := (p.x - q.x) as real, (p.y - q.y) as real;
      CalibPos(calib, p).x - CalibPos(calib, q).x == dx * calib.a0.x + dy * calib.a1.x &&
      CalibPos(calib, p).y - CalibPos(calib, q).y == dx * calib.a0.y + dy * calib.a1.y
  {
  }

  /* ---------------------------------------------------------- grid indices */

  /**
    The (x, y) position of a linear index on a grid of `columns` by `rows`, as
    `get_scan_pixel` and `get_frame_pixel` compute it; `None` (return code 1)
    when there are no columns. The caller must not pass a zero row count, since
    `imod` would divide by it.
  */
  function GridPixel(columns: int, rows: int, idx: int): Option<Pix>
    requires columns > 0 ==> rows != 0
  {
    if columns <= 0 then None
    else
      var x := IMod(idx, columns);
      Some(Pix(x, IMod(CDiv(idx - x, columns), rows)))
  }

  /** `get_scan_pixel`: the scan position of frame number `idx`. */
  function ScanPixel(hdr: AcqHeader, idx: int): Option<Pix>
    requires hdr.columns > 0 ==> hdr.rows != 0
  {
    GridPixel(hdr.columns, hdr.rows, idx)
  }

  /** `get_frame_pixel`: the detector pixel of linear pixel index `idx`. */
  function FramePixel(fh: FrameHeader, idx: int): Option<Pix>
    requires fh.columns > 0 ==> fh.rows != 0
  {
    GridPixel(fh.columns, fh.rows, idx)
  }

  /** `get_frame_idx`: -1 without columns, -2 or -3 for an x or y off the scan, else the frame number. */
  function FrameIdx(hdr: AcqHeader, x: int, y: int): int {
    if hdr.columns <= 0 then -1
    else if x < 0 || x >= hdr.columns then -2
    else if y < 0 || y >= hdr.rows then -3
    else IMod(x, hdr.columns) + IMod(y, hdr.rows) * hdr.columns
  }

  /** `get_frame_pixel_idx`: -1 without columns or rows, else the linear index of the pixel with both coordinates wrapped onto the frame. */
  function FramePixelIdx(fh: FrameHeader, x: int, y: int): int {
    if fh.columns <= 0 || fh.rows <= 0 then -1
    else IMod(x, fh.columns) + IMod(y, fh.rows) * fh.columns
  }

  /** `get_scan_pixel` fails exactly without columns. */
  lemma ScanPixelFails(hdr: AcqHeader, idx: int)
    requires hdr.columns > 0 ==> hdr.rows != 0
    ensures ScanPixel(hdr, idx).None? <==> hdr.columns <= 0
  {
  }

  /** Truncating division of an exact multiple by a positive number. */
  lemma CDivExact(c: int, q: int)
    requires c > 0
    ensures CDiv(c * q, c) == q
  {
    if q >= 0 {
      MulNonneg(c, q);
      DivModUnique(c * q, c, q, 0);
    } else {
      MulNonneg(c, -q);
      assert Abs(c * q) == c * -q;
      DivModUnique(c * -q, c, -q, 0);
    }
  }

  /** On a grid, the index of the cell in column `x` and row `y` is `x + y * columns`, inside `[0, columns * rows)`. */
  lemma CellIndexInGrid(columns: int, rows: int, x: int, y: int)
    requires 0 <= x < columns && 0 <= y < rows
    ensures 0 <= x + y * columns < columns * rows
  {
    MulNonneg(y, columns);
    MulNonneg(rows - 1 - y, columns);
    assert (rows - 1 - y) * columns + y * columns + columns == rows * columns;
  }

  /** The cell of index `idx` of a grid, by Euclidean division. */
  lemma GridPixelOfIndex(columns: int, rows: int, idx: int)
    requires columns > 0 && rows > 0 && 0 <= idx < columns * rows
    ensures GridPixel(columns, rows, idx) == Some(Pix(idx % columns, idx / columns))
    ensures 0 <= idx / columns < rows
    ensures idx == idx % columns + idx / columns * columns
  {
    IModIsEuclidean(idx, columns);
    var x, q := idx % columns, idx / columns;
    assert idx - x == columns * q;
    CDivExact(columns, q);
    QuotientBelow(columns, rows, idx);
    IModOfSmall(q, rows);
  }

  /** The row of an index inside the grid is inside the grid. */
  lemma QuotientBelow(columns: int, rows: int, idx: int)
    requires columns > 0 && rows > 0 && 0 <= idx < columns * rows
    ensures 0 <= idx / columns < rows
  {
    var q := idx / columns;
    if q >= rows {
      MulNonneg(columns, q - rows);
      assert false;
    }
  }

  /** `imod` leaves a value already in range unchanged. */
  lemma IModOfSmall(q: int, n: int)
    requires 0 <= q < n
    ensures IMod(q, n) == q
  {
    IModIsEuclidean(q, n);
    DivModUnique(q, n, 0, q);
  }

  /** Scan round trip: the frame number of a scan position on the scan maps back to that position. */
  lemma ScanPixelOfFrameIdx(hdr: AcqHeader, x: int, y: int)
    requires hdr.columns > 0 && hdr.rows > 0
    requires 0 <= x < hdr.columns && 0 <= y < hdr.rows
    ensures 0 <= FrameIdx(hdr, x, y) < hdr.columns * hdr.rows
    ensures ScanPixel(hdr, FrameIdx(hdr, x, y)) == Some(Pix(x, y))
  {
    var c, r := hdr.columns, hdr.rows;
    IModIsEuclidean(x, c);
    DivModUnique(x, c, 0, x);
    IModIsEuclidean(y, r);
    DivModUnique(y, r, 0, y);
    var idx := x + y * c;
    assert FrameIdx(hdr, x, y) == idx;
    CellIndexInGrid(c, r, x, y);
    DivModUnique(idx, c, y, x);
    GridPixelOfIndex(c, r, idx);
  }

  /** Scan round trip: every frame number of the scan is the frame number of its own scan position. */
  lemma FrameIdxOfScanPixel(hdr: AcqHeader, idx: int)
    requires hdr.columns > 0 && hdr.rows > 0
    requires 0 <= idx < hdr.columns * hdr.rows
    ensures ScanPixel(hdr, idx).Some?
    ensures FrameIdx(hdr, ScanPixel(hdr, idx).value.x, ScanPixel(hdr, idx).value.y) == idx
  {
    var c, r := hdr.columns, hdr.rows;
    GridPixelOfIndex(c, r, idx);
    var x, y := idx % c, idx / c;
    IModIsEuclidean(x, c);
    DivModUnique(x, c, 0, x);
    IModIsEuclidean(y, r);
    DivModUnique(y, r, 0, y);
  }

  /** `get_frame_pixel_idx` wraps any position onto the frame: its result is a valid pixel index. */
  lemma FramePixelIdxInFrame(fh: FrameHeader, x: int, y: int)
    requires fh.columns > 0 && fh.rows > 0
    ensures 0 <= FramePixelIdx(fh, x, y) < fh.columns * fh.rows
  {
    CellIndexInGrid(fh.columns, fh.rows, IMod(x, fh.columns), IMod(y, fh.rows));
  }

  /** The pixel of the wrapped index is the position reduced modulo the frame size, in both coordinates. */
  lemma FramePixelOfIdx(fh: FrameHeader, x: int, y: int)
    requires fh.columns > 0 && fh.rows > 0
    ensures FramePixel(fh, FramePixelIdx(fh, x, y)) == Some(Pix(x % fh.columns, y % fh.rows))
  {
    var c, r := fh.columns, fh.rows;
    IModIsEuclidean(x, c);
    IModIsEuclidean(y, r);
    var px, py := x % c, y % r;
    var idx := px + py * c;
    CellIndexInGrid(c, r, px, py);
    DivModUnique(idx, c, py, px);
    GridPixelOfIndex(c, r, idx);
  }

  /** Every pixel index of the frame is the wrapped index of its own pixel. */
  lemma FramePixelIdxOfPixel(fh: FrameHeader, idx: int)
    requires fh.columns > 0 && fh.rows > 0
    requires 0 <= idx < fh.columns * fh.rows
    ensures FramePixel(fh, idx).Some?
    ensures FramePixelIdx(fh, FramePixel(fh, idx).value.x, FramePixel(fh, idx).value.y) == idx
  {
    var c, r := fh.columns, fh.rows;
    GridPixelOfIndex(c, r, idx);
    var x, y := idx % c, idx / c;
    IModIsEuclidean(x, c);
    DivModUnique(x, c, 0, x);
    IModIsEuclidean(y, r);
    DivModUnique(y, r, 0, y);
  }
}
