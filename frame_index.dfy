/**
  The frame index of `merlin_params::read_frame_headers` (`merlin_prm.cpp`
  lines 93-250): for every frame of the acquisition, the data file it lies in
  and the position of its data in that file.

  The data files `<input>1.mib`, `<input>2.mib`, ... are given as the list of
  the files that exist, in order; each either cannot be opened or is the list
  of results that successive frame-header reads of it return: a header with the
  position after it and whether the stream is still good once it has been moved
  over the frame data, or a failure, at the end of the file or not. Reading
  past the end of the list is a failure at the end of the file.

  In scan mode every header of every file is read and checked against the
  first one; in fast mode only the first header of each file is read, and the
  frames between are assumed to follow each other at a fixed stride.
*/
module FrameIndex {
  import opened CLib
  import opened MerlinHdr

  datatype HeaderRead = Read(fhdr: FrameHeader, pos: int, goodAfter: bool) | Failed(eof: bool)

  datatype DataFile = Unopenable | Opened(hdrs: seq<HeaderRead>)

  /**
    The part of `merlin_params` the index builder writes: the file count, the
    per-frame file indices and data positions, the template header and the
    header and data sizes taken from it.
  */
  datatype Index = Index(files: int, frmFile: seq<int>, frmPos: seq<int>, tmpl: FrameHeader, fhdrBytes: nat, dataBytes: nat)

  /** The outcome of building the index: the return code and the state left behind. */
  datatype Outcome = Outcome(code: int, ix: Index)

  /** One file index per data position. */
  predicate Aligned(ix: Index) { |ix.frmFile| == |ix.frmPos| }

  /** The distance between two frames in a file: one header and one frame of data. */
  function Stride(ix: Index): int { ix.fhdrBytes + ix.dataBytes }

  /** `(cols * rows * bpi) >> 3` computed in `size_t`. */
  function DataBytes(fh: FrameHeader): nat {
    AsSize(fh.columns * fh.rows * fh.bpi) / 8
  }

  /** The first header of the data set becomes the template, and sets the header and data sizes. */
  function Adopt(ix: Index, fh: FrameHeader): Index {
    ix.(tmpl := fh, fhdrBytes := AsSize(fh.size), dataBytes := DataBytes(fh))
  }

  /** A header belongs to the sequence: same size, depth and frame shape as the template, and the next sequence number. */
  predicate Consistent(tmpl: FrameHeader, fh: FrameHeader, n: int) {
    tmpl.size == fh.size && tmpl.bpi == fh.bpi && tmpl.columns == fh.columns && tmpl.rows == fh.rows && fh.iSeq == n
  }

  function Push(ix: Index, pos: int, file: int): Index {
    ix.(frmPos := ix.frmPos + [pos], frmFile := ix.frmFile + [file])
  }

  function Last(s: seq<int>): int
    requires |s| > 0
  {
    s[|s| - 1]
  }

  /** `count` positions following `last` at the given stride. */
  function Strides(last: int, stride: int, count: nat): seq<int> {
    seq(count, k => last + (k + 1) * stride)
  }

  /** Entries added until there are `n`: each in the file of the last entry, one stride after the entry before it. */
  function FillTo(ix: Index, n: int): (r: Index)
    requires Aligned(ix) && |ix.frmPos| > 0
    ensures Aligned(r) && |r.frmPos| == Max(n, |ix.frmPos|)
  {
    var m := |ix.frmPos|;
    if n <= m then ix
    else ix.(frmPos := ix.frmPos + Strides(Last(ix.frmPos), Stride(ix), n - m),
             frmFile := ix.frmFile + seq(n - m, _ => Last(ix.frmFile)))
  }

  /** Fast mode: the first header of a file; the frames missing before its sequence number are filled in, then it is added. */
  function FastAdd(ix: Index, fh: FrameHeader, pos: int): (r: Index)
    requires Aligned(ix)
    ensures Aligned(r)
  {
    if |ix.frmPos| == 0 then Push(ix, pos, ix.files)
    else Push(FillTo(ix, fh.iSeq), pos, ix.files)
  }

  /**
    The headers of one file from read `k` on (lines 122-199): a failure at the
    end of the file ends the file, any other failure is error 2; the first
    header of the data set becomes the template; fast mode stops after one
    header; scan mode adds every consistent header while the stream stays
    good, and an inconsistent one is error 3.
  */
  function ReadFile(ix: Index, hdrs: seq<HeaderRead>, k: nat, scan: bool): (o: Outcome)
    requires Aligned(ix)
    ensures Aligned(o.ix) && o.ix.files == ix.files
    decreases |hdrs| - k
  {
    if k >= |hdrs| then Outcome(0, ix)
    else match hdrs[k]
      case Failed(eof) => Outcome(if eof then 0 else 2, ix)
      case Read(fh, pos, good) =>
        var ix1 := if |ix.frmPos| == 0 then Adopt(ix, fh) else ix;
        if !scan then Outcome(0, FastAdd(ix1, fh, pos))
        else if !Consistent(ix1.tmpl, fh, |ix1.frmPos|) then Outcome(3, ix1)
        else if good then ReadFile(Push(ix1, pos, ix1.files), hdrs, k + 1, scan)
        else Outcome(0, Push(ix1, pos, ix1.files))
  }

  /** The data files in order (lines 117-209): a file that cannot be opened is error 1; an error in a file ends the search. */
  function IndexFiles(ix: Index, files: seq<DataFile>, scan: bool): (o: Outcome)
    requires Aligned(ix)
    ensures Aligned(o.ix)
    decreases |files|
  {
    if files == [] then Outcome(0, ix)
    else match files[0]
      case Unopenable => Outcome(1, ix)
      case Opened(hdrs) =>
        var o := ReadFile(ix, hdrs, 0, scan);
        if o.code != 0 then o
        else IndexFiles(o.ix.(files := o.ix.files + 1), files[1..], scan)
  }

  /**
    `read_frame_headers`: the index built from the files, error 4 when there
    was no file or no frame, and, when fewer frames were indexed than the
    acquisition header announces, error 5 in scan mode and padding at the
    stride in fast mode.
  */
  function ReadFrameHeadersSpec(frames: int, tmpl: FrameHeader, files: seq<DataFile>, scan: bool): (o: Outcome)
    ensures Aligned(o.ix)
  {
    var o := IndexFiles(Index(0, [], [], tmpl, 0, 0), files, scan);
    if o.code != 0 then o
    else if o.ix.files == 0 || |o.ix.frmPos| == 0 then Outcome(4, o.ix)
    else if |o.ix.frmPos| < frames then
      if scan then Outcome(5, o.ix) else Outcome(0, FillTo(o.ix, frames))
    else o
  }

  /* ------------------------------------------------------------ properties */

  /** The file indices of the index: each names a file already counted or the current one, and they never decrease. */
  predicate FilesOrdered(ix: Index, bound: int) {
    (forall k :: 0 <= k < |ix.frmFile| ==> 0 <= ix.frmFile[k] <= bound) &&
    (forall k :: 0 < k < |ix.frmFile| ==> ix.frmFile[k - 1] <= ix.frmFile[k])
  }

  lemma FillToOrdered(ix: Index, n: int, bound: int)
    requires Aligned(ix) && |ix.frmPos| > 0 && FilesOrdered(ix, bound)
    ensures FilesOrdered(FillTo(ix, n), bound)
  {
  }

  lemma PushOrdered(ix: Index, pos: int, bound: int)
    requires Aligned(ix) && bound >= 0 && FilesOrdered(ix, bound)
    ensures FilesOrdered(Push(ix, pos, bound), bound)
  {
  }

  lemma {:induction false} ReadFileOrdered(ix: Index, hdrs: seq<HeaderRead>, k: nat, scan: bool)
    requires Aligned(ix) && ix.files >= 0 && FilesOrdered(ix, ix.files)
    ensures FilesOrdered(ReadFile(ix, hdrs, k, scan).ix, ix.files)
    decreases |hdrs| - k
  {
    if k < |hdrs| && hdrs[k].Read? {
      var fh, pos := hdrs[k].fhdr, hdrs[k].pos;
      var ix1 := if |ix.frmPos| == 0 then Adopt(ix, fh) else ix;
      assert FilesOrdered(ix1, ix.files);
      if !scan {
        if |ix1.frmPos| > 0 {
          FillToOrdered(ix1, fh.iSeq, ix.files);
          PushOrdered(FillTo(ix1, fh.iSeq), pos, ix.files);
        } else {
          PushOrdered(ix1, pos, ix.files);
        }
      } else if Consistent(ix1.tmpl, fh, |ix1.frmPos|) {
        PushOrdered(ix1, pos, ix.files);
        if hdrs[k].goodAfter {
          ReadFileOrdered(Push(ix1, pos, ix1.files), hdrs, k + 1, scan);
        }
      }
    }
  }

  lemma OrderedRenumbered(ix: Index, next: Index, bound: int)
    requires FilesOrdered(ix, bound) && next.frmFile == ix.frmFile
    ensures FilesOrdered(next, bound)
  {
  }

  lemma {:induction false} IndexFilesOrdered(ix: Index, files: seq<DataFile>, scan: bool)
    requires Aligned(ix) && ix.files >= 0 && FilesOrdered(ix, ix.files - 1)
    ensures var o := IndexFiles(ix, files, scan);
      o.code == 0 ==> o.ix.files >= ix.files && FilesOrdered(o.ix, o.ix.files - 1)
    decreases |files|
  {
    if files != [] && files[0].Opened? {
      ReadFileOrdered(ix, files[0].hdrs, 0, scan);
      var o := ReadFile(ix, files[0].hdrs, 0, scan);
      if o.code == 0 {
        var next := o.ix.(files := o.ix.files + 1);
        OrderedRenumbered(o.ix, next, ix.files);
        IndexFilesOrdered(next, files[1..], scan);
        assert IndexFiles(ix, files, scan) == IndexFiles(next, files[1..], scan);
      }
    }
  }

  /**
    A successful build indexes at least as many frames as the acquisition
    announces, each with a data position, in files that were found, in
    non-decreasing file order; so `get_frame_filepos` stays inside both lists
    for every frame number below `n_frames`.
  */
  lemma ReadFrameHeadersCovers(frames: int, tmpl: FrameHeader, files: seq<DataFile>, scan: bool)
    ensures var o := ReadFrameHeadersSpec(frames, tmpl, files, scan);
      o.code == 0 ==>
        |o.ix.frmPos| == |o.ix.frmFile| && |o.ix.frmPos| >= frames && |o.ix.frmPos| > 0 && o.ix.files > 0 &&
        FilesOrdered(o.ix, o.ix.files - 1)
  {
    var ix0 := Index(0, [], [], tmpl, 0, 0);
    IndexFilesOrdered(ix0, files, scan);
    var o := IndexFiles(ix0, files, scan);
    if o.code == 0 && o.ix.files != 0 && |o.ix.frmPos| != 0 && |o.ix.frmPos| < frames && !scan {
      FillToOrdered(o.ix, frames, o.ix.files - 1);
    }
  }

  /** The error codes: 0, or 1 to 5. */
  lemma {:induction false} ReadFrameHeadersCodes(frames: int, tmpl: FrameHeader, files: seq<DataFile>, scan: bool)
    ensures ReadFrameHeadersSpec(frames, tmpl, files, scan).code in {0, 1, 2, 3, 4, 5}
    ensures !scan ==> ReadFrameHeadersSpec(frames, tmpl, files, scan).code != 3 && ReadFrameHeadersSpec(frames, tmpl, files, scan).code != 5
  {
    IndexFilesCodes(Index(0, [], [], tmpl, 0, 0), files, scan);
  }

  lemma {:induction false} ReadFileCodes(ix: Index, hdrs: seq<HeaderRead>, k: nat, scan: bool)
    requires Aligned(ix)
    ensures ReadFile(ix, hdrs, k, scan).code in {0, 2, 3}
    ensures !scan ==> ReadFile(ix, hdrs, k, scan).code in {0, 2}
    decreases |hdrs| - k
  {
    if k < |hdrs| && hdrs[k].Read? && scan {
      var fh := hdrs[k].fhdr;
      var ix1 := if |ix.frmPos| == 0 then Adopt(ix, fh) else ix;
      if Consistent(ix1.tmpl, fh, |ix1.frmPos|) && hdrs[k].goodAfter {
        ReadFileCodes(Push(ix1, hdrs[k].pos, ix1.files), hdrs, k + 1, scan);
      }
    }
  }

  lemma {:induction false} IndexFilesCodes(ix: Index, files: seq<DataFile>, scan: bool)
    requires Aligned(ix)
    ensures IndexFiles(ix, files, scan).code in {0, 1, 2, 3}
    ensures !scan ==> IndexFiles(ix, files, scan).code in {0, 1, 2}
    decreases |files|
  {
    if files != [] && files[0].Opened? {
      ReadFileCodes(ix, files[0].hdrs, 0, scan);
      var o := ReadFile(ix, files[0].hdrs, 0, scan);
      if o.code == 0 {
        IndexFilesCodes(o.ix.(files := o.ix.files + 1), files[1..], scan);
      }
    }
  }

  /**
    Fast mode places the first header of a later file at its own sequence
    number: the frames missing before it are in the file of the last entry,
    one stride apart after the last position, and the entries before are kept.
  */
  lemma FastAddPlacesHeader(ix: Index, fh: FrameHeader, pos: int)
    requires Aligned(ix) && |ix.frmPos| > 0 && fh.iSeq >= |ix.frmPos|
    ensures var r, m := FastAdd(ix, fh, pos), |ix.frmPos|;
      |r.frmPos| == fh.iSeq + 1 && r.frmPos[fh.iSeq] == pos && r.frmFile[fh.iSeq] == ix.files &&
      r.frmPos[..m] == ix.frmPos && r.frmFile[..m] == ix.frmFile &&
      forall k :: m <= k < fh.iSeq ==>
        r.frmPos[k] == Last(ix.frmPos) + (k - m + 1) * Stride(ix) && r.frmFile[k] == Last(ix.frmFile)
  {
    var r, m := FastAdd(ix, fh, pos), |ix.frmPos|;
    var f := FillTo(ix, fh.iSeq);
    assert r.frmPos == f.frmPos + [pos];
    assert r.frmPos[..m] == ix.frmPos;
    assert r.frmFile[..m] == ix.frmFile;
  }

  /**
    Scan mode reads a well-formed file completely: when every header is good
    and carries the next sequence number with the template's shape, the file
    adds exactly its header positions, all with the current file index.
  */
  lemma {:induction false} ScanReadsWholeFile(ix: Index, hdrs: seq<HeaderRead>, k: nat)
    requires Aligned(ix) && |ix.frmPos| > 0 && k <= |hdrs|
    requires forall j :: k <= j < |hdrs| ==> hdrs[j].Read? && hdrs[j].goodAfter
    requires forall j :: k <= j < |hdrs| ==> Consistent(ix.tmpl, hdrs[j].fhdr, |ix.frmPos| + j - k)
    ensures ReadFile(ix, hdrs, k, true) ==
      Outcome(0, ix.(frmPos := ix.frmPos + seq(|hdrs| - k, j requires 0 <= j < |hdrs| - k => hdrs[k + j].pos),
                     frmFile := ix.frmFile + seq(|hdrs| - k, _ => ix.files)))
    decreases |hdrs| - k
  {
    if k < |hdrs| {
      var ix1 := Push(ix, hdrs[k].pos, ix.files);
      ScanReadsWholeFile(ix1, hdrs, k + 1);
      assert ix1.frmPos + seq(|hdrs| - (k + 1), j requires 0 <= j < |hdrs| - (k + 1) => hdrs[k + 1 + j].pos)
        == ix.frmPos + seq(|hdrs| - k, j requires 0 <= j < |hdrs| - k => hdrs[k + j].pos);
      assert ix1.frmFile + seq(|hdrs| - (k + 1), _ => ix.files) == ix.frmFile + seq(|hdrs| - k, _ => ix.files);
    }
  }

  /**
    In scan mode the first header that does not continue the sequence ends the
    read with code 3; the consistent headers before it stay in the index.
  */
  lemma {:induction false} ScanRejectsInconsistent(ix: Index, hdrs: seq<HeaderRead>, k: nat, j: nat)
    requires Aligned(ix) && |ix.frmPos| > 0 && k <= j < |hdrs|
    requires forall i :: k <= i < j ==> hdrs[i].Read? && hdrs[i].goodAfter
    requires forall i :: k <= i < j ==> Consistent(ix.tmpl, hdrs[i].fhdr, |ix.frmPos| + i - k)
    requires hdrs[j].Read? && !Consistent(ix.tmpl, hdrs[j].fhdr, |ix.frmPos| + j - k)
    ensures ReadFile(ix, hdrs, k, true) ==
      Outcome(3, ix.(frmPos := ix.frmPos + seq(j - k, i requires 0 <= i < j - k => hdrs[k + i].pos),
                     frmFile := ix.frmFile + seq(j - k, _ => ix.files)))
    decreases j - k
  {
    if k < j {
      var ix1 := Push(ix, hdrs[k].pos, ix.files);
      ScanRejectsInconsistent(ix1, hdrs, k + 1, j);
      assert ix1.frmPos + seq(j - (k + 1), i requires 0 <= i < j - (k + 1) => hdrs[k + 1 + i].pos)
        == ix.frmPos + seq(j - k, i requires 0 <= i < j - k => hdrs[k + i].pos);
      assert ix1.frmFile + seq(j - (k + 1), _ => ix.files) == ix.frmFile + seq(j - k, _ => ix.files);
    }
  }

  /** In scan mode the very first header becomes the template and must carry sequence number 0. */
  lemma ScanRejectsFirstOutOfSequence(ix: Index, hdrs: seq<HeaderRead>, k: nat)
    requires Aligned(ix) && |ix.frmPos| == 0 && k < |hdrs|
    requires hdrs[k].Read? && hdrs[k].fhdr.iSeq != 0
    ensures ReadFile(ix, hdrs, k, true) == Outcome(3, Adopt(ix, hdrs[k].fhdr))
  {
  }

  /** Fast mode pads the index up to the announced frame count, one stride apart after the last frame found. */
  lemma FastModePads(frames: int, tmpl: FrameHeader, files: seq<DataFile>)
    ensures var o, p := ReadFrameHeadersSpec(frames, tmpl, files, false), IndexFiles(Index(0, [], [], tmpl, 0, 0), files, false);
      o.code == 0 ==>
        var m := |p.ix.frmPos|;
        m > 0 && |o.ix.frmPos| == Max(frames, m) && o.ix.frmPos[..m] == p.ix.frmPos &&
        forall k :: m <= k < |o.ix.frmPos| ==> o.ix.frmPos[k] == Last(p.ix.frmPos) + (k - m + 1) * Stride(p.ix)
  {
    var o, p := ReadFrameHeadersSpec(frames, tmpl, files, false), IndexFiles(Index(0, [], [], tmpl, 0, 0), files, false);
    IndexFilesCodes(Index(0, [], [], tmpl, 0, 0), files, false);
    if o.code == 0 {
      assert o.ix.frmPos[..|p.ix.frmPos|] == p.ix.frmPos;
    }
  }
}
