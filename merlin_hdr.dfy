/**
  The records of a Merlin acquisition (`merlin_hdr.h`) and the reader of the
  global text header (`merlin_read_header`), together with `imod`, the
  normalised modulo every index computation of the reader uses.
*/
module MerlinHdr {
  import opened Wrappers
  import opened CLib

  /** Largest frame header, in bytes, that the frame-header reader accepts. */
  const FrameHdrSizeMax: int := 2048

  /** A rectangle of scan positions with inclusive bounds. */
  datatype Roi = Roi(x0: int, y0: int, x1: int, y1: int)

  /** An integer pixel position (scan or frame). */
  datatype Pix = Pix(x: int, y: int)

  /** A physical position. */
  datatype Pos = Pos(x: real, y: real)

  /** A physical radius range; `max <= min` disables the annulus. */
  datatype Range = Range(min: real, max: real)

  /** The global acquisition header (`merlin_hdr`). */
  datatype AcqHeader = AcqHeader(
    frames: int,        // number of frames, columns * rows
    columns: int,       // scan columns
    rows: int,          // scan rows
    files: int,         // number of data files
    fhdrBytes: nat,     // frame header length in bytes
    dataBytes: nat,     // frame data length in bytes
    timestamp: string)

  /**
    One frame header (`merlin_frame_hdr`). The dwell time is kept as the text
    of its field: its conversion with `atof` is floating point.
  */
  datatype FrameHeader = FrameHeader(
    size: int,          // header size in bytes
    columns: int,       // frame pixel columns
    rows: int,          // frame pixel rows
    iSeq: int,          // zero-based acquisition sequence index
    chips: int,         // number of chips
    bpi: int,           // bits per item
    chipSelect: int,    // chip selection bits
    dwell: string,      // shutter open time, as written in the header
    sensorLayout: string,
    hid: string,        // header id
    time: string)       // frame time stamp

  /** The affine frame calibration: physical = (pixel - offset) . [a0; a1]. */
  datatype FrameCalib = FrameCalib(offset: Pos, a0: Pos, a1: Pos)

  /** The default-initialised records of `merlin_hdr.h`. */
  const DefaultAcqHeader := AcqHeader(0, 0, 0, 0, 0, 0, "")
  const DefaultFrameHeader := FrameHeader(0, 0, 0, 0, 0, 16, 0, "", "", "", "")

  /** `imod(i, n) = ((i % n + n) % n)` with C's truncating `%`; `n = 0` divides by zero. */
  function IMod(i: int, n: int): (r: int)
    requires n != 0
    ensures n > 0 ==> 0 <= r < n
    ensures n < 0 ==> n < r <= 0
  {
    CRem(CRem(i, n) + n, n)
  }

  /** For a positive modulus `imod` is the Euclidean remainder: in range and congruent to `i`. */
  lemma IModIsEuclidean(i: int, n: int)
    requires n > 0
    ensures IMod(i, n) == i % n
  {
    var r1 := CRem(i, n);
    if i >= 0 {
      DivModUnique(r1 + n, n, 1, r1);
    } else {
      var m := (-i) % n;
      var q := (-i) / n;
      assert r1 == -m;
      if m == 0 {
        DivModUnique(n, n, 1, 0);
        DivModUnique(i, n, -q, 0);
      } else {
        DivModUnique(n - m, n, 0, n - m);
        DivModUnique(i, n, -q - 1, n - m);
      }
    }
  }

  /* ---------------------------------------------------------------- rows */

  /**
    Rows derivation as written at merlin_hdr.cpp lines 57-62: `None` stands for
    the division by zero of `imod(frames, columns)` at line 60 when the header
    gave no (or a zero) column count.
  */
  function DeriveRowsAsWritten(frames: int, columns: int, rows: int): Option<int> {
    var r := if frames > 0 && frames > columns && columns > 0
             then (frames - IMod(frames, columns)) / columns else rows;
    if columns == 0 then None
    else Some(if 0 < IMod(frames, columns) then r + 1 else r)
  }

  /** The counterexample: a header without a column count makes line 60 divide by zero. */
  lemma DeriveRowsAsWrittenDividesByZero()
    ensures DeriveRowsAsWritten(100, 0, 0) == None
    ensures DeriveRows(100, 0, 0) == 0
  {
  }

  /**
    Rows derivation with the increment of line 60 guarded by a non-zero column
    count, which is what the text header format intends: without a column count
    the row count keeps its prior value.
  */
  function DeriveRows(frames: int, columns: int, rows: int): (r: int)
    ensures columns <= 0 ==> r == rows
    ensures 0 < columns < frames ==> (r - 1) * columns < frames <= r * columns
    ensures 0 < columns && frames <= columns ==> r == rows + (if frames % columns > 0 then 1 else 0)
  {
    var r := if frames > 0 && frames > columns && columns > 0
             then (frames - IMod(frames, columns)) / columns else rows;
    if columns > 0 then
      IModIsEuclidean(frames, columns);
      CeilStep(frames, columns);
      if 0 < IMod(frames, columns) then r + 1 else r
    else if columns != 0 && 0 < IMod(frames, columns) then r + 1
    else r
  }

  /** Arithmetic behind `DeriveRows`: `(f - f % c) / c` is the floor quotient, and one more is the ceiling. */
  lemma CeilStep(f: int, c: int)
    requires c > 0
    ensures (f - f % c) / c == f / c
    ensures f % c == 0 ==> (f / c - 1) * c < f <= f / c * c
    ensures f % c > 0 ==> f / c * c < f <= (f / c + 1) * c
  {
    var q, m := f / c, f % c;
    DivModUnique(f - m, c, q, 0);
    assert (q - 1) * c == q * c - c;
    assert (q + 1) * c == q * c + c;
  }

  /** Where the source does not divide by zero, the corrected derivation agrees with it. */
  lemma DeriveRowsAgrees(frames: int, columns: int, rows: int)
    ensures DeriveRowsAsWritten(frames, columns, rows).None? <==> columns == 0
    ensures columns != 0 ==> DeriveRowsAsWritten(frames, columns, rows) == Some(DeriveRows(frames, columns, rows))
  {
  }

  /* ------------------------------------------------------ global header */

  const EndTag := "End"
  const TimestampPrefix := "Time and Date Stamp " + "(yr, mnth, day, hr, min, s):"
  const FramesPrefix := "Frames in Acquisition (Number):"
  const ColumnsPrefix := "Frames per Trigger (Number):"

  /** `0 == s.find(p)`: `p` occurs at the start of `s`. */
  predicate StartsWith(s: string, p: string) {
    |p| <= |s| && s[..|p|] == p
  }

  /** The lines kept by lines 26-34: those before the first line starting with "End", then "End". */
  function HeaderLines(lines: seq<string>): seq<string> {
    if |lines| == 0 then []
    else if StartsWith(lines[0], EndTag) then [EndTag]
    else [lines[0]] + HeaderLines(lines[1..])
  }

  /** One header line applied to the header (lines 44-55); `None` when `substr` throws. */
  function ApplyLine(h: AcqHeader, line: string): Option<AcqHeader> {
    if StartsWith(line, TimestampPrefix) then
      (if 49 > |line| then None else Some(h.(timestamp := line[49..])))
    else if StartsWith(line, FramesPrefix) then
      (if 32 > |line| then None else Some(h.(frames := Atoi(line[32..]))))
    else if StartsWith(line, ColumnsPrefix) then
      (if 29 > |line| then None else Some(h.(columns := Atoi(line[29..]))))
    else Some(h)
  }

  /** The header lines applied in order. */
  function ApplyLines(h: AcqHeader, lines: seq<string>): Option<AcqHeader> {
    if |lines| == 0 then Some(h)
    else match ApplyLines(h, lines[..|lines| - 1])
      case None => None
      case Some(h') => ApplyLine(h', lines[|lines| - 1])
  }

  /**
    The outcome of `merlin_read_header`: a return code and the header, an
    uncaught exception from a field conversion, or the integer division by a
    zero column count at merlin_hdr.cpp:60.
  */
  datatype HeaderResult = HeaderRead(code: int, hdr: AcqHeader) | Aborted | DividedByZero

  /** What `merlin_read_header` computes from the lines its stream yields, as written. */
  function ReadHeaderSpec(open: bool, lines: seq<string>, h: AcqHeader): HeaderResult {
    if !open then HeaderRead(2, h)
    else match ApplyLines(h, HeaderLines(lines))
      case None => Aborted
      case Some(h') =>
        match DeriveRowsAsWritten(h'.frames, h'.columns, h'.rows)
        case None => DividedByZero
        case Some(r) => HeaderRead(0, h'.(rows := r))
  }

  /** The header read with the rows derivation guarded by a non-zero column count. */
  function ReadHeaderGuarded(open: bool, lines: seq<string>, h: AcqHeader): HeaderResult {
    if !open then HeaderRead(2, h)
    else match ApplyLines(h, HeaderLines(lines))
      case None => Aborted
      case Some(h') => HeaderRead(0, h'.(rows := DeriveRows(h'.frames, h'.columns, h'.rows)))
  }

  /**
    The header read as written divides by zero exactly when the header sets no
    non-zero column count; otherwise it agrees with the guarded read, whose
    row count is derived from the frame and column counts and the prior rows.
  */
  lemma ReadHeaderRows(open: bool, lines: seq<string>, h: AcqHeader, a: AcqHeader)
    requires open && ApplyLines(h, HeaderLines(lines)) == Some(a)
    ensures ReadHeaderSpec(open, lines, h) == DividedByZero <==> a.columns == 0
    ensures a.columns != 0 ==> ReadHeaderSpec(open, lines, h) == ReadHeaderGuarded(open, lines, h)
    ensures ReadHeaderGuarded(open, lines, h) == HeaderRead(0, a.(rows := DeriveRows(a.frames, a.columns, h.rows)))
  {
    DeriveRowsAgrees(a.frames, a.columns, a.rows);
    ApplyLinesKeepsUnmatched(h, HeaderLines(lines));
  }

  /** The counterexample: a header with only its "End" line divides by zero, where the guarded read succeeds. */
  lemma ReadHeaderWithoutColumnsDividesByZero()
    ensures ReadHeaderSpec(true, [EndTag], DefaultAcqHeader) == DividedByZero
    ensures ReadHeaderGuarded(true, [EndTag], DefaultAcqHeader) == HeaderRead(0, DefaultAcqHeader)
  {
    assert HeaderLines([EndTag]) == [EndTag];
    assert ApplyLines(DefaultAcqHeader, [EndTag]) == Some(DefaultAcqHeader);
  }

  lemma {:induction false} HeaderLinesPrefix(lines: seq<string>, i: nat)
    requires i <= |lines|
    requires forall j :: 0 <= j < i ==> !StartsWith(lines[j], EndTag)
    ensures HeaderLines(lines) == lines[..i] + HeaderLines(lines[i..])
  {
    if i > 0 {
      HeaderLinesPrefix(lines[1..], i - 1);
      assert lines[1..][..i - 1] == lines[1..i];
      assert lines[1..][i - 1..] == lines[i..];
      assert lines[..i] == [lines[0]] + lines[1..i];
    }
  }

  /**
    `merlin_read_header` (merlin_hdr.cpp:15-65): reads the lines of the header
    stream up to the one starting with "End", applies the recognised fields in
    order and derives the scan rows, dividing by the column count as line 60
    does. A stream that is not open gives code 2.
  */
  method ReadHeader(open: bool, lines: seq<string>, h: AcqHeader) returns (res: HeaderResult)
    ensures res == ReadHeaderSpec(open, lines, h)
  {
    if !open {
      return HeaderRead(2, h);
    }
    var collected: seq<string> := [];
    var i := 0;
    while i < |lines|
      invariant 0 <= i <= |lines|
      invariant collected == lines[..i]
      invariant forall j :: 0 <= j < i ==> !StartsWith(lines[j], EndTag)
    {
      if StartsWith(lines[i], EndTag) {
        break;
      }
      collected := collected + [lines[i]];
      i := i + 1;
    }
    HeaderLinesPrefix(lines, i);
    if i < |lines| {
      collected := collected + [EndTag];
    } else {
      assert lines[i..] == [];
    }
    assert collected == HeaderLines(lines);

    var cur := h;
    var k := 0;
    while k < |collected|
      invariant 0 <= k <= |collected|
      invariant ApplyLines(h, collected[..k]) == Some(cur)
    {
      assert collected[..k + 1][..k] == collected[..k];
      var next := ApplyLine(cur, collected[k]);
      if next.None? {
        ApplyLinesNoneSticks(h, collected, k + 1);
        return Aborted;
      }
      cur := next.value;
      k := k + 1;
    }
    assert collected[..k] == collected;
    var rows := DeriveRowsAsWritten(cur.frames, cur.columns, cur.rows);
    if rows.None? {
      return DividedByZero;
    }
    return HeaderRead(0, cur.(rows := rows.value));
  }

  /** Once a line throws, the whole header read throws. */
  lemma {:induction false} ApplyLinesNoneSticks(h: AcqHeader, lines: seq<string>, k: nat)
    requires k <= |lines|
    requires ApplyLines(h, lines[..k]) == None
    ensures ApplyLines(h, lines) == None
  {
    if k < |lines| {
      assert lines[..|lines| - 1][..k] == lines[..k];
      ApplyLinesNoneSticks(h, lines[..|lines| - 1], k);
    } else {
      assert lines[..k] == lines;
    }
  }

  /** Applying two runs of lines is applying the first, then the second. */
  lemma {:induction false} ApplyLinesConcat(h: AcqHeader, a: seq<string>, b: seq<string>)
    ensures ApplyLines(h, a + b) == match ApplyLines(h, a) case None => None case Some(h') => ApplyLines(h', b)
  {
    if |b| == 0 {
      assert a + b == a;
    } else {
      ApplyLinesConcat(h, a, b[..|b| - 1]);
      assert (a + b)[..|a + b| - 1] == a + b[..|b| - 1];
    }
  }

  /** Lines after the first line starting with "End" are never read. */
  lemma {:induction false} ReadHeaderStopsAtEnd(open: bool, pre: seq<string>, e: string, post: seq<string>, h: AcqHeader)
    requires StartsWith(e, EndTag)
    ensures ReadHeaderSpec(open, pre + [e] + post, h) == ReadHeaderSpec(open, pre + [e], h)
  {
    HeaderLinesStop(pre, e, post);
  }

  lemma {:induction false} HeaderLinesStop(pre: seq<string>, e: string, post: seq<string>)
    requires StartsWith(e, EndTag)
    ensures HeaderLines(pre + [e] + post) == HeaderLines(pre + [e])
  {
    if |pre| == 0 {
      assert pre + [e] + post == [e] + post;
      assert pre + [e] == [e];
    } else {
      assert (pre + [e] + post)[1..] == pre[1..] + [e] + post;
      assert (pre + [e])[1..] == pre[1..] + [e];
      HeaderLinesStop(pre[1..], e, post);
    }
  }

  /** A field whose prefix appears on no line keeps the value it had. */
  lemma {:induction false} ApplyLinesKeepsUnmatched(h: AcqHeader, lines: seq<string>)
    requires ApplyLines(h, lines).Some?
    ensures (forall j :: 0 <= j < |lines| ==> !StartsWith(lines[j], FramesPrefix)) ==> ApplyLines(h, lines).value.frames == h.frames
    ensures (forall j :: 0 <= j < |lines| ==> !StartsWith(lines[j], ColumnsPrefix)) ==> ApplyLines(h, lines).value.columns == h.columns
    ensures (forall j :: 0 <= j < |lines| ==> !StartsWith(lines[j], TimestampPrefix)) ==> ApplyLines(h, lines).value.timestamp == h.timestamp
    ensures ApplyLines(h, lines).value.rows == h.rows && ApplyLines(h, lines).value.files == h.files
  {
    if |lines| > 0 {
      var init := lines[..|lines| - 1];
      ApplyLinesKeepsUnmatched(h, init);
      assert forall j :: 0 <= j < |init| ==> init[j] == lines[j];
    }
  }

  /** The last line carrying the frame count decides it: later lines without that prefix leave it alone. */
  lemma LastFramesLineWins(h: AcqHeader, a: seq<string>, m: string, b: seq<string>)
    requires StartsWith(m, FramesPrefix) && |m| >= 32
    requires forall j :: 0 <= j < |b| ==> !StartsWith(b[j], FramesPrefix)
    requires ApplyLines(h, a + [m] + b).Some?
    ensures ApplyLines(h, a + [m] + b).value.frames == Atoi(m[32..])
  {
    ApplyLinesConcat(h, a + [m], b);
    var mid := ApplyLines(h, a + [m]);
    assert (a + [m])[..|a + [m]| - 1] == a;
    FramesLineIsNotTimestamp(m);
    ApplyLinesKeepsUnmatched(mid.value, b);
  }

  lemma FramesLineIsNotTimestamp(m: string)
    requires StartsWith(m, FramesPrefix)
    ensures !StartsWith(m, TimestampPrefix)
  {
    assert m[0] == m[..|FramesPrefix|][0] == FramesPrefix[0] == 'F';
    assert TimestampPrefix[0] == 'T';
  }
}
