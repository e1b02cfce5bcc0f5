# Merlin reader core in Dafny

This project models the decoding, indexing and correction engine of the
Merlin-detector reader, a command-line tool for 4D-STEM data. It takes a
scan of diffraction frames stored in one or more `.mib` files and does
four things:

- reads the global acquisition header;
- decodes each frame's comma-separated header and its raw pixel block;
- builds the index from frame number to file and position;
- keeps a set of defect pixels with their correction lists.

It also corrects frames for gain and defects, and prepares the annular
virtual detector with its masked sums and centre of mass.

The model covers the following:

| file | module | what it models |
|---|---|---|
| `clib.dfy` | `CLib` | The C and C++ primitives the code relies on: truncating `%` and `/`, `size_t` wrap-around, 32-bit `int` casts, `atoi`, `strtoul(…, 16)`, `substr`, and reading a byte buffer as a NUL-terminated C string. |
| `merlin_hdr.dfy` | `MerlinHdr` | The records of `merlin_hdr.h`, their defaults and `MERLIN_FRAME_HDR_SIZE_MAX`. Also `imod`, the rows derivation and `merlin_read_header`, with the header file given as its list of lines. |
| `frame_header.dfy` | `MerlinFrame` | The comma-token cursor `merlin_read_frame_header_param`, and the two-phase `merlin_read_frame_header` over a stream given as bytes, a position and an open flag. |
| `pixel_data.dfy` | `MerlinData` | `merlin_read_data`: the 8, 16 and 32-bit decoder, with optional byte swap, and its error codes. |
| `indexing.dfy` | `Indexing` | `read_param`, `in_scan_roi`, `get_scan_rect_roi_size`, `get_calib_pos`, `get_scan_pixel`, `get_frame_idx`, `get_frame_pixel` and `get_frame_pixel_idx`. |
| `frame_index.dfy` | `FrameIndex` | The specification of `read_frame_headers`. Each data file is the list of results that successive frame-header reads return. |
| `defects.dfy` | `Defects` | The defect list as a value: set, unset, the mask loop, the neighbour lists and the correction. |
| `merlin_params.dfy` | `MerlinParams` | The class `merlin_params` with the fields the core updates in place. Its methods are proved against the functions of `FrameIndex` and `Defects`. |
| `virtual_detector.dfy` | `VirtualDetector` | `prepare_annular_detector`, `prepare_frame_coordinates`, `sum_annular_range` and `com_annular_range` over arrays of `real`. |

Error codes are the integers the C++ code returns.

- A null pointer argument is a `null` array or a `false` "given" flag, except where "## Left out" says otherwise.
- A thrown `std::out_of_range` is an explicit outcome: `OutOfRange` for the cursor, `FrameHeaderThrown` for the frame-header parser.
- Pixel values, gain factors and calibrations are `real`.
- The global `prm` fields that the detector routines read become parameters.

Where the prose documentation and the code disagree, the model follows the code:

- `merlin_read_frame_header_param` indexes the string with `at()` before it checks the bounds. If no comma follows the starting position, or only commas follow the token, it throws instead of returning the end of the string. `ParamSpec` returns `None` there, and `ReadFrameHeaderParam` returns `OutOfRange`.
- `is_defect_pixel` tests `idx >= 0` on a `size_t`, which always holds. Neighbour lookup likewise tests `idx2 < 0` on a `size_t`, which never holds. Neither test appears as a condition in the model.

The rows derivation at merlinio/merlin_hdr.cpp:57-62 divides by the column count whenever it is 0. That covers every header without a non-zero `Frames per Trigger` line, whatever the frame count. `ReadHeaderSpec` and `ReadHeader` model this as written: such a header gives the `DividedByZero` outcome. The guarded read `ReadHeaderGuarded` keeps the rows unchanged instead; see Findings.

## Model

| member | source | states |
|---|---|---|
| CLib.CRem | merlinio/merlin_hdr.cpp:11 | C's `%` truncates toward zero: the dividend equals the truncated quotient times the divisor plus the remainder, which is smaller than the divisor in magnitude and has the sign of the dividend |
| CLib.AsSize | src/merlin_prm.cpp:565 | the conversion to `size_t` lands in [0, 2^64), keeps values already in range, and maps a negative value v ≥ −2^64 to v + 2^64 |
| CLib.AsInt | merlinio/merlinio.cpp:181 | the `(int)` cast of a `size_t` lands in the 32-bit range and keeps values already in that range |
| CLib.Substr | merlinio/merlin_hdr.cpp:157 | `substr(pos, len)` throws exactly when `pos` is past the end, and otherwise returns the characters from `pos` on, min(`len`, length − `pos`) of them |
| CLib.CStringPrefix | merlinio/merlin_hdr.cpp:112 | the C string of the first k bytes of a buffer is the first k characters of the buffer's C string (all of it when it is shorter) |
| CLib.CString | merlinio/merlin_hdr.cpp:112 | the string built from a `char` buffer is its bytes up to, not including, the first NUL byte (or all of them when there is none) |
| MerlinHdr.IMod | merlinio/merlin_hdr.cpp:9-12 | `imod(i, n)` lies in [0, n) for n > 0, and in (n, 0] for n < 0 |
| MerlinHdr.IModIsEuclidean | merlinio/merlin_hdr.cpp:9-12 | for n > 0, `imod(i, n)` equals the Euclidean remainder i mod n |
| MerlinHdr.DeriveRowsAsWrittenDividesByZero | merlinio/merlin_hdr.cpp:57-62 | with 100 frames and 0 frames per trigger, the code as written evaluates `imod(frames, 0)`, which divides by zero; the corrected derivation keeps rows unchanged |
| MerlinHdr.DeriveRows | merlinio/merlin_hdr.cpp:57-62 | without columns the rows stay unchanged; with 0 < columns < frames the rows are the ceiling of frames/columns, i.e. (r−1)·columns < frames ≤ r·columns |
| MerlinHdr.DeriveRowsAgrees | merlinio/merlin_hdr.cpp:57-62 | the code as written fails exactly when columns = 0, and otherwise agrees with the corrected derivation |
| MerlinHdr.ReadHeader | merlinio/merlin_hdr.cpp:15-65 | the line-collecting and line-applying loops compute `ReadHeaderSpec`: an unopened stream gives 2; lines are collected up to and including the first one starting with `End`; each is applied in turn, and the rows are derived at the end, dividing by the column count as line 60 does |
| MerlinHdr.ReadHeaderRows | merlinio/merlin_hdr.cpp:43-62 | after the lines are applied, the read divides by zero exactly when the column count is 0; otherwise it agrees with the guarded read, whose rows are `DeriveRows` of the frame and column counts and the prior rows |
| MerlinHdr.ReadHeaderWithoutColumnsDividesByZero | merlinio/merlin_hdr.cpp:57-62 | a header holding only its `End` line divides by zero as written, and the guarded read returns 0 with the default header |
| MerlinHdr.ApplyLinesNoneSticks | merlinio/merlin_hdr.cpp:43-56 | once applying a line throws, the whole header read throws, whatever lines follow |
| MerlinHdr.ReadHeaderStopsAtEnd | merlinio/merlin_hdr.cpp:27-34 | lines after the first line starting with `End` do not change the result |
| MerlinHdr.HeaderLinesStop | merlinio/merlin_hdr.cpp:27-34 | the collected lines are the same whatever follows the first `End` line |
| MerlinHdr.ApplyLinesKeepsUnmatched | merlinio/merlin_hdr.cpp:43-56 | a field whose prefix appears on no line keeps its prior value; rows and file count are never set by a line |
| MerlinHdr.LastFramesLineWins | merlinio/merlin_hdr.cpp:48-51 | the frame count is `atoi` of the last line that starts with the frame-count prefix |
| MerlinFrame.CommaFrom | merlinio/merlin_hdr.cpp:79-81 | the result is the first comma at or after the start, or none when no comma follows |
| MerlinFrame.NonCommaFrom | merlinio/merlin_hdr.cpp:87-89 | the result is the first non-comma at or after the start, or none when only commas follow |
| MerlinFrame.ReadFrameHeaderParam | merlinio/merlin_hdr.cpp:67-91 | a null header gives −1 and a null output −2; otherwise the result is the throw or the (next position, token) pair of `ParamSpec` |
| MerlinFrame.ScanToken | merlinio/merlin_hdr.cpp:79-81 | the token scan stops at the first comma from the start (`CommaFrom`) |
| MerlinFrame.ScanSeparators | merlinio/merlin_hdr.cpp:82-89 | the separator scan stops at the first non-comma after the comma (`NonCommaFrom`) |
| MerlinFrame.ParamAdvances | merlinio/merlin_hdr.cpp:67-91 | a cursor step that does not throw returns a position strictly after `ipos` (and after 0) and inside the string, i.e. where the next parameter begins |
| MerlinFrame.ParamReadsToken | merlinio/merlin_hdr.cpp:79-90 | for text `pre + tok + commas + rest` with a comma-free token of two or more characters, the cursor returns the token and the position where `rest` begins |
| MerlinFrame.ParamKeepsShortToken | merlinio/merlin_hdr.cpp:82-85 | a token of length 0 or 1 leaves the output string unchanged |
| MerlinFrame.TokenAt | merlinio/merlin_hdr.cpp:115-116 | a token within bounds is returned together with the position one past its comma |
| MerlinFrame.ReadField | merlinio/merlin_hdr.cpp:115-116 | each field read is a cursor step followed by the bound check on its position (error 3 in the pre-read and 5 in the body) |
| MerlinFrame.ReadOneField | merlinio/merlin_hdr.cpp:115-173 | one field step extends the parse exactly as the recursive field parser does |
| MerlinFrame.PreParseHeader | merlinio/merlin_hdr.cpp:113-124 | the pre-read parses the first three fields (header id, sequence number, declared size) bounded by 128 |
| MerlinFrame.ParseHeaderBody | merlinio/merlin_hdr.cpp:141-173 | the second phase parses fields 4 to 11, bounded by the declared size |
| MerlinFrame.ReadFrameHeader | merlinio/merlin_hdr.cpp:93-188 | the parser computes `ReadFrameHeaderSpec`: a closed stream gives 2, a short pre-read 13, a pre-read token at or beyond byte 128 gives 3, a size outside 1..2048 gives 4, a short re-read 15, a later token at or beyond the declared size 5; fields are set in order: `i_seq` = atoi − 1, `n_bpi` from two characters at index 1, chip select as hexadecimal |
| MerlinFrame.ReadFullHeader | merlinio/merlin_hdr.cpp:129-187 | the phase after the pre-read computes `AfterPreParse` |
| MerlinFrame.ReadFrameHeaderCodes | merlinio/merlin_hdr.cpp:100-187 | on a non-null record the result is a throw or one of 0, 2, 4, 5, 13, 15; the end-of-data flag is set exactly for 13 and 15; error 3 cannot occur because the pre-read text is at most 128 characters |
| MerlinFrame.AfterPreParseCodes | merlinio/merlin_hdr.cpp:129-187 | after the pre-read the outcome is 0, 4, 5 or 15, and only 15 reports the end of the data |
| MerlinFrame.ParseFieldsInside | merlinio/merlin_hdr.cpp:115-124 | positions in a text of at most 128 characters never fail the 128 bound |
| MerlinFrame.ParseFieldsKeepSize | merlinio/merlin_hdr.cpp:141-173 | the second phase never changes the declared header size |
| MerlinFrame.ReadFrameHeaderFields | merlinio/merlin_hdr.cpp:93-188 | a header of eleven comma-free tokens of two or more characters, joined by comma runs, whose first three lie within the 128 pre-read bytes and all within the declared size (token 3, in 1..2048), gives 0 with header id = token 1, `i_seq` = atoi(token 2) − 1, size = atoi(token 3), chips, columns and rows = atoi of tokens 4 to 6, `n_bpi` = atoi of the two characters at index 1 of token 7, the sensor layout token 8, chip select = token 9 read as hexadecimal, the time stamp token 10 and the dwell time token 11; the stream then stands at start + size |
| MerlinFrame.PreReadFields | merlinio/merlin_hdr.cpp:111-126 | on such a header the pre-read of 128 bytes yields the header id, the sequence number less one and the declared size, with the cursor at the fourth token |
| MerlinFrame.BodySteps | merlinio/merlin_hdr.cpp:141-173 | from the fourth token on, the second phase writes tokens 4 to 11 into their fields and ends after the eleventh |
| MerlinFrame.ParseTokenAt | merlinio/merlin_hdr.cpp:115-117 | a laid-out token read by the cursor is written into its field, and reading goes on at the next token |
| MerlinFrame.ReadFrameHeaderPositions | merlinio/merlin_hdr.cpp:129-187 | on success the declared size is in 1..2048 and the stream stands at start + declared size, after the header |
| MerlinData.Sample | merlinio/merlin_hdr.cpp:234-279 | a decoded 8-bit sample is below 2^8, a 16-bit one below 2^16, any sample below 2^32 |
| MerlinData.ReadData | merlinio/merlin_hdr.cpp:190-286 | the code is `DataCode` (1/3/4/5 for null arguments, 13 closed, 23 for a negative position, 110 when the read comes short, including at a position past the end, 200 unsupported depth); on success exactly `buf[0 .. columns·rows)` holds the decoded samples; on failure the buffer is unchanged |
| MerlinData.DataCodePositive | merlinio/merlin_hdr.cpp:199-230 | the code is never negative, and it is 0 exactly when all arguments are present, the stream is open, the position is not negative, the block of `n_data_bytes` bytes lies in the stream (or is empty) and the depth is 8, 16 or 32 |
| MerlinData.PastEndFailsInRead | merlinio/merlin_hdr.cpp:216-229 | a position past the end of the stream passes the seek and fails in the read with 110 when bytes are asked for; with no bytes asked for the result is 0, or 200 for an unsupported depth |
| MerlinData.DecodeEncode | merlinio/merlin_hdr.cpp:241-273 | decoding the little-endian (or, with swap, big-endian) encoding of in-range values returns those values |
| MerlinData.EightBitIgnoresSwap | merlinio/merlin_hdr.cpp:235-240 | 8-bit data decode the same with and without byte swap |
| Indexing.SepFrom | src/merlin_prm.cpp:272-280 | the first `,` or space at or after the start, or none |
| Indexing.NonSepFrom | src/merlin_prm.cpp:281-291 | the first character after the start that is neither `,` nor space, or none |
| Indexing.ReadParamAdvances | src/merlin_prm.cpp:253-294 | from a position inside the string, `read_param` returns a position after it that is the end or a non-separator; a token starting there is the maximal separator-free run, and starting on a separator leaves the output unchanged |
| Indexing.ReadParamReadsToken | src/merlin_prm.cpp:272-293 | for `pre + tok + seps + rest` the result is the start of `rest`, and the token, or the prior output when the token is empty |
| Indexing.ReadParamAtEnd | src/merlin_prm.cpp:253-269 | at or past the end, the token is "" and the position is returned unchanged |
| Indexing.RoiSizeCounts | src/merlin_prm.cpp:298-315 | the corrected ROI size is the number of distinct scan positions that `in_scan_roi` accepts |
| Indexing.RoiSizeAsWrittenMissesEdges | src/merlin_prm.cpp:385-390 | for the rectangle (0,0)-(9,9) the code as written reports 81 while `in_scan_roi` accepts 100 positions |
| Indexing.CalibPosAffine | src/merlin_prm.cpp:319-330 | the calibrated position is affine in the pixel: differences of positions are the matrix (a0, a1) applied to differences of pixels |
| Indexing.ScanPixelFails | src/merlin_prm.cpp:332-340 | `get_scan_pixel` fails (returns 1) exactly when columns ≤ 0 |
| Indexing.GridPixelOfIndex | src/merlin_prm.cpp:332-340 | for 0 ≤ idx < columns·rows the position is (idx mod columns, idx div columns), and the row lies below rows |
| Indexing.ScanPixelOfFrameIdx | src/merlin_prm.cpp:332-354 | for a scan position inside the grid, `get_frame_idx` lies in [0, columns·rows) and `get_scan_pixel` maps it back to the position |
| Indexing.FrameIdxOfScanPixel | src/merlin_prm.cpp:332-354 | for 0 ≤ idx < columns·rows, `get_frame_idx(get_scan_pixel(idx)) = idx` |
| Indexing.FramePixelIdxInFrame | src/merlin_prm.cpp:366-372 | with positive frame columns and rows, `get_frame_pixel_idx` lies in [0, columns·rows) for every x, y |
| Indexing.FramePixelOfIdx | src/merlin_prm.cpp:356-372 | `get_frame_pixel(get_frame_pixel_idx(x, y))` is (x mod columns, y mod rows): coordinates wrap |
| Indexing.FramePixelIdxOfPixel | src/merlin_prm.cpp:356-372 | for 0 ≤ idx < columns·rows, `get_frame_pixel_idx(get_frame_pixel(idx)) = idx` |
| FrameIndex.FillTo | src/merlin_prm.cpp:229-240 | padding keeps both lists of equal length and makes them max(n, current) long |
| FrameIndex.ReadFile | src/merlin_prm.cpp:120-205 | reading one file keeps both lists aligned and does not change the file count |
| FrameIndex.IndexFiles | src/merlin_prm.cpp:116-213 | browsing the files keeps both lists aligned |
| FrameIndex.ReadFrameHeadersSpec | src/merlin_prm.cpp:93-250 | the frame index always has as many file entries as positions |
| FrameIndex.ReadFileOrdered | src/merlin_prm.cpp:120-205 | entries added while reading a file refer to that file, so file indices never decrease along the index |
| FrameIndex.IndexFilesOrdered | src/merlin_prm.cpp:116-213 | on success the file indices along the index are non-decreasing and below the number of files |
| FrameIndex.ReadFrameHeadersCovers | src/merlin_prm.cpp:219-240 | on success the index is non-empty, covers at least `n_frames` frames, and every entry names one of the files found |
| FrameIndex.ReadFrameHeadersCodes | src/merlin_prm.cpp:93-250 | the result is one of 0 to 5; fast mode never returns 3 (inconsistent header) or 5 (missing frames) |
| FrameIndex.ReadFileCodes | src/merlin_prm.cpp:120-205 | one file yields 0, 2 or 3, and never 3 in fast mode |
| FrameIndex.IndexFilesCodes | src/merlin_prm.cpp:116-213 | browsing yields 0, 1, 2 or 3, and never 3 in fast mode |
| FrameIndex.FastAddPlacesHeader | src/merlin_prm.cpp:170-187 | in fast mode a file whose first sequence number skips ahead gets the missing frames at last + k·stride in the last file, then its own header at its sequence number; existing entries are kept |
| FrameIndex.ScanRejectsInconsistent | src/merlin_prm.cpp:138-161 | in scan mode, after consistent, correctly numbered headers, the first header that differs from the template in size, depth, columns or rows, or carries the wrong sequence number, stops the browse with 3; the headers before it are indexed |
| FrameIndex.ScanRejectsFirstOutOfSequence | src/merlin_prm.cpp:138-161 | in scan mode, a first header whose sequence number is not 0 gives 3 |
| FrameIndex.ScanReadsWholeFile | src/merlin_prm.cpp:138-161 | in scan mode a file of consistent, correctly numbered headers adds one entry per header at the header's position, all in that file |
| FrameIndex.FastModePads | src/merlin_prm.cpp:229-240 | on success in fast mode the browsed index is kept and padded to max(n_frames, found) with positions last + k·stride |
| Defects.SetDefectAsWrittenRegistersNoPixel | src/merlin_prm.cpp:581-596 | as written, setting pixel (3, 4) on a frame without columns returns 0 and appends an entry with index 2^64 − 1 and undefined coordinates; the corrected version returns 1 and changes nothing |
| Defects.SetDefectAsWrittenNegativeRows | src/merlin_prm.cpp:356-372 | with 3 columns and −2 rows the index is −1, yet `get_frame_pixel` succeeds on the wrapped 2^64 − 1 and the appended entry is (2^64 − 1, 2, −1) with result 0 |
| Defects.SetDefectAsWrittenRegisters | src/merlin_prm.cpp:581-596 | as written, setting a pixel always returns 0 and leaves its `size_t` index registered, creates no duplicate, appends at most that one entry, and raises the flag exactly when it appends |
| Defects.SetDefectAsWrittenAgrees | src/merlin_prm.cpp:581-596 | where the frame has the pixel (positive columns and rows), the code as written and the corrected version give the same code and list, whatever the uninitialised coordinates |
| Defects.SetDefectRegisters | src/merlin_prm.cpp:581-596 | setting keeps the list duplicate-free, returns 0 exactly when the pixel is then registered, leaves the list unchanged on error, only appends at most one entry, and sets the modified flag exactly when it appended |
| Defects.SetDefectIdempotent | src/merlin_prm.cpp:583-584 | setting the same pixel twice is the same as setting it once |
| Defects.SetDefectCanonical | src/merlin_prm.cpp:585-590 | a newly set pixel is appended with its wrapped coordinates (x mod columns, y mod rows) and the matching index |
| Defects.FirstMatch | src/merlin_prm.cpp:759-771 | the search stops at the first entry with the pixel's index, or at the end when none has it |
| Defects.UnsetDefectRemoves | src/merlin_prm.cpp:753-774 | unsetting removes exactly that pixel and no other; it changes nothing when the pixel is not registered; fresh caches stay fresh |
| Defects.SetThenUnset | src/merlin_prm.cpp:753-774 | unsetting a pixel just set restores the previous entries |
| Defects.AddMaskRegisters | src/merlin_prm.cpp:664-679 | after the mask loop the registered set is the old set plus the non-zero mask indices, with no duplicates and the old entries kept as a prefix |
| Defects.AddMaskOrder | src/merlin_prm.cpp:664-673 | the appended entries are non-zero, previously unregistered mask indices in strictly increasing order |
| Defects.AddMaskPrefix | src/merlin_prm.cpp:664-673 | the mask loop only appends |
| Defects.AddMaskCanonical | src/merlin_prm.cpp:664-673 | each appended entry carries the coordinates of its index |
| Defects.NeighboursSpec | src/merlin_prm.cpp:563-570 | a correction list holds exactly the wrapped 3×3 neighbours that are not registered defects |
| Defects.NeighboursInFrame | src/merlin_prm.cpp:565 | every neighbour index lies inside the frame |
| Defects.RefreshFresh | src/merlin_prm.cpp:550-579 | the rebuild keeps the registered set and duplicate-freedom, makes every cache fresh, and no defect lists itself |
| Defects.CorrectKeeps | src/merlin_prm.cpp:897-912 | the correction changes no pixel that is not a defect |
| Defects.CorrectValue | src/merlin_prm.cpp:897-912 | with fresh caches, each defect with a non-empty list gets the mean of its neighbours' original values, and every other pixel is unchanged |
| Defects.CorrectIdempotent | src/merlin_prm.cpp:883-915 | with fresh caches, correcting twice equals correcting once |
| MerlinParams.GainedUndone | src/merlin_prm.cpp:868-880 | multiplying by the gain map and then by its reciprocals restores the frame |
| MerlinParams.Params.constructor | src/merlin_prm.cpp:30-55 | a new parameter set has default headers (`n_bpi` 16, all counts 0), empty frame index and defect list, identity calibration, no gain correction and a clean modified flag |
| MerlinParams.Params.FillMissing | src/merlin_prm.cpp:229-240 | the padding loop appends exactly what `FillTo` describes |
| MerlinParams.Params.ReadFileHeaders | src/merlin_prm.cpp:120-205 | the header loop over one file computes `ReadFile`, and leaves the acquisition counts read from the header file alone |
| MerlinParams.Params.IndexDataFiles | src/merlin_prm.cpp:116-213 | the file loop computes `IndexFiles` |
| MerlinParams.Params.ReadFrameHeaders | src/merlin_prm.cpp:93-250 | `read_frame_headers` computes `ReadFrameHeadersSpec` and keeps the object valid |
| MerlinParams.Params.GetFrameFilePos | src/merlin_prm.cpp:374-382 | an index in [0, n_frames) yields 0 with that frame's file and position; any other yields 1 and leaves the outputs unchanged |
| MerlinParams.Params.IsDefectPixel | src/merlin_prm.cpp:526-536 | the result is true exactly when the index is registered |
| MerlinParams.Params.IsDefectPixelAt | src/merlin_prm.cpp:538-543 | the result is true exactly when the wrapped pixel index is registered |
| MerlinParams.Params.SetDefectPixel | src/merlin_prm.cpp:581-596 | the method computes `SetDefectAsWritten` on the list and flag, as the code is written: it always returns 0 and, for a position without a frame pixel, appends index 2^64 − 1 with the uninitialised coordinates `junk`; it keeps the object valid |
| MerlinParams.Params.UnsetDefectPixel | src/merlin_prm.cpp:753-774 | the method returns 0 and computes `UnsetDefect` on the list and flag |
| MerlinParams.Params.UnsetDefectList | src/merlin_prm.cpp:746-751 | the list is emptied and the modified flag cleared |
| MerlinParams.Params.AddDefectMask | src/merlin_prm.cpp:641-679 | a frame of zero pixels gives 1 with nothing changed; otherwise the list becomes `AddMask` and the flag is set exactly when something was added |
| MerlinParams.Params.CorrectionList | src/merlin_prm.cpp:563-570 | the double loop builds exactly `Neighbours` over all nine offsets |
| MerlinParams.Params.ConsiderNeighbour | src/merlin_prm.cpp:565-569 | one step of the double loop extends the list by one offset |
| MerlinParams.Params.UpdateDefectCorrectionList | src/merlin_prm.cpp:550-579 | the rebuild returns 0, replaces the list by `Refresh` and clears the modified flag |
| MerlinParams.Params.MultiplyGain | src/merlin_prm.cpp:875-877 | the first n values are multiplied by the gain, the rest are unchanged |
| MerlinParams.Params.GainCorrection | src/merlin_prm.cpp:868-880 | without gain correction the frame is unchanged and the result is 0; with it, 1 for a missing frame or map and 2 for zero pixels; otherwise the frame becomes `Gained` |
| MerlinParams.Params.SumNeighbours | src/merlin_prm.cpp:906-909 | the accumulation equals the sum of the buffer at the listed positions |
| MerlinParams.Params.CorrectDefect | src/merlin_prm.cpp:898-911 | a defect with a non-empty list gets the mean of its neighbours; one with an empty list changes nothing |
| MerlinParams.Params.DefectCorrection | src/merlin_prm.cpp:883-915 | an empty list changes nothing; otherwise 1 for a null frame and 2 for zero pixels; on success the frame becomes `Correct` |
| MerlinParams.CorrectAfterUpdateIdempotent | src/merlin_prm.cpp:883-915 | after the correction lists are rebuilt, correcting a frame twice equals correcting it once |
| VirtualDetector.FlagsInside | merlinio/merlinio.cpp:168-177 | the flag of pixel i is the annulus test on its calibrated position |
| VirtualDetector.HashOfListsSet | merlinio/merlinio.cpp:176-184 | the hash lists, in strictly increasing order, exactly the indices whose flag is set |
| VirtualDetector.HashListsInside | merlinio/merlinio.cpp:164-188 | the hash lists, in increasing order, exactly the pixels inside the annulus |
| VirtualDetector.SumIdxIsSumPrefix | merlinio/merlinio.cpp:239-249 | summing over increasing indices that cover every non-zero value equals summing the whole prefix |
| VirtualDetector.MaskedSumThroughHash | merlinio/merlinio.cpp:239-249 | with a 0/1 mask, the sum over the hash equals the full masked sum |
| VirtualDetector.HashSumIsFullSum | merlinio/merlinio.cpp:176-187 | with the detector mask, the sum over its hash equals the full masked sum |
| VirtualDetector.PrepareAnnularDetector | merlinio/merlinio.cpp:147-190 | gives 1, 2, 5 or 10 for no pixels, no mask buffer, no frame header or no frame columns; on success the mask is 1 inside and 0 outside the annulus, and the hash (when requested) is exactly the inside indices with `nhash` their count |
| VirtualDetector.MarkAnnulus | merlinio/merlinio.cpp:168-188 | the pixel loop writes the mask and, when hashing, the hash of the inside flags, and nothing beyond them |
| VirtualDetector.MarkPixel | merlinio/merlinio.cpp:176-187 | one pixel step extends the marked mask and hash by that pixel |
| VirtualDetector.PixelInside | merlinio/merlinio.cpp:169-177 | the inside test of one pixel equals its flag |
| VirtualDetector.PrepareFrameCoordinates | merlinio/merlinio.cpp:192-222 | gives 1, 2, 3, 4 or 10 for bad arguments; on success x[i] and y[i] are the calibrated position of frame pixel i for i < nlen, and nothing else changes |
| VirtualDetector.SumHash | merlinio/merlinio.cpp:240-243 | the hash loop sums the values at the hashed indices |
| VirtualDetector.SumAll | merlinio/merlinio.cpp:246-248 | the full loop sums the first nlen values |
| VirtualDetector.SumAnnularRange | merlinio/merlinio.cpp:224-253 | gives 2, 3 or 6 for null buffer, mask or result; 0 when nlen = 0; otherwise Σ buf·mask over the hash (when present) or over all nlen pixels |
| VirtualDetector.ComAnnularRange | merlinio/merlinio.cpp:255-298 | gives 2, 3, 4, 5, 9 or 10 for null arguments; (0,0) unless nlen > 0 and ref0 > 0; otherwise (Σx·buf·mask, Σy·buf·mask)/ref0 over the hash or over all pixels |

## Left out

- File-system work is not modelled: `stat`, opening files, file names and `merlin_params::read_header`. A data file is the list of results its header reads return, and the header file is its list of lines. For the same reason the file-reading parts of `load_defect_mask` (codes 2 to 4), `load_defect_list` and `load_gain_correction` are out; only the mask loop and the in-memory gain map are modelled.
- Stream failure branches are not modelled: the `tellg`/`seekg` failures 12, 14 and 16 of `merlin_read_frame_header`, and the null stream pointer (code 1) of `merlin_read_header` and `merlin_read_frame_header`. A null frame-header record is modelled. A stream is a byte sequence with a position. As on a file stream, seeking to any position that is not negative succeeds, also past the end, and a read there comes short.
- Floating point is not modelled: IEEE rounding, summation order, and the `float`-to-`double` widening of gain factors. Values are `real`. The annulus test uses exact squares instead of `sqrt`: min ≤ r < max holds exactly when (min ≤ 0 or r² ≥ min²) and max > 0 and r² < max².
- `set_origin`, `set_sampling`, `set_annular_range` and `set_scan_rect_roi` are not modelled: they parse text with `atof`/`atoi` into calibration fields. The model takes those fields as given values. The dwell time is kept as its token text.
- `set_annular_offset` is declared at src/merlin_prm.h:142 but never defined.
- `set_defect_pixel(std::string)` and `unset_defect_pixel(std::string)` are not modelled: they only split a string and call the modelled integer versions.
- `is_defect_list_modified` is not modelled: it only returns the flag, which is a field of the class.
- The `__int8` and `__int16` narrowing casts of parsed chip count and bits per pixel are not modelled; `atoi` results are kept as integers.
- MerlinFrame.ReadFrameHeader: a declared size of exactly 2048 makes the code read one byte past its buffer when it builds the C string. The model reads the declared bytes only.
- `get_calib_pos`'s null-output code 2 (src/merlin_prm.cpp:322-324) is not modelled: both callers, merlinio/merlinio.cpp:172 and :214, pass the address of a local, so the model returns the position. Their failure code 20 cannot occur for the same reason.
- `merlin_read_header` with a null header record (merlinio/merlin_hdr.cpp:40) is not modelled: it reads the lines, closes the stream and returns 0 without parsing. The model always passes a record.
- FrameIndex.IndexFilesOrdered: only the file-order half of the index invariant is proved. Positions are what each header read reports, so offsets increasing within one file are not proved; the model has no file offsets to seek, as the `seekg` past the data block at src/merlin_prm.cpp:152-154 does.
- FrameIndex.ReadFile: a frame-header read that throws `out_of_range` (`FrameHeaderThrown`) is not a case of a file's header reads. `read_frame_headers` does not catch it, so the exception leaves the whole call; the model has no outcome for that.
- Indexing.FrameIdx and Indexing.FramePixelIdx: the source computes `imod(x, c) + imod(y, r)·c` in 32-bit `int`, which overflows for grids above 2^31 cells. The model uses unbounded integers, so its round-trip lemmas describe the source only for grids of at most 2^31 cells.
- MerlinParams.Params.AddDefectMask: when the frame has no columns, `get_frame_pixel` leaves the coordinates of the entry uninitialised. The model takes them as the parameter `junk`.
- The model assumes a frame with columns has non-zero rows: scan and frame geometry functions require `columns > 0 ==> rows != 0`, where the code would divide by zero in `imod`.
- MerlinParams.Params.SetDefectPixel: requires a frame with columns to have non-zero rows, because with columns and 0 rows the index 2^64 − 1 reaches `get_frame_pixel`, whose `imod` divides by zero. The coordinates left uninitialised when `get_frame_pixel` fails are the parameter `junk`.
- Allocation failure (code 100) and the leaked buffers on error paths are not modelled.
- Progress and debug output are not modelled.
- `main`, option parsing, the control-script interpreter and the `run_*` routines are not modelled: they are orchestration outside the core.
- The host is taken as little-endian, as `main`'s byte-order test sets `swapbytes` on such hosts. Without swap, 16- and 32-bit samples are decoded little-endian.

## Findings

| source | as written | input that shows it | evidently intended | confidence | as-written member | corrected member |
|---|---|---|---|---|---|---|
| merlinio/merlin_hdr.cpp:60 | the rows increment tests `imod(frames, columns) > 0` outside the `columns > 0` guard, so `imod` divides by zero whenever columns is 0 | a header with `Frames in Acquisition` 100 and `Frames per Trigger` 0, or one holding only its `End` line | rows stay unchanged when there are no columns | not executed | MerlinHdr.DeriveRowsAsWritten, MerlinHdr.DeriveRowsAsWrittenDividesByZero, MerlinHdr.ReadHeaderWithoutColumnsDividesByZero | MerlinHdr.DeriveRows, MerlinHdr.DeriveRowsAgrees, MerlinHdr.ReadHeaderRows |
| src/merlin_prm.cpp:385-390 | `get_scan_rect_roi_size` multiplies `x1 − x0` by `y1 − y0`, although `in_scan_roi` includes both corners | the rectangle (0,0)-(9,9): 81 reported, 100 positions accepted | (x1 − x0 + 1)·(y1 − y0 + 1) | not executed | Indexing.RoiSizeAsWritten, Indexing.RoiSizeAsWrittenMissesEdges | Indexing.RoiSize, Indexing.RoiSizeCounts |
| src/merlin_prm.cpp:585-586 | `set_defect_pixel` stores the result of `get_frame_pixel_idx` in a `size_t` and tests `i < 0`, which never holds; the −1 returned for a frame without columns becomes 2^64 − 1, `get_frame_pixel` then fails, and an entry with undefined coordinates is appended with result 0. With columns but negative rows, `get_frame_pixel` succeeds on 2^64 − 1 and the entry gets the defined coordinates (columns − 1, imod(−1, rows)); with columns and 0 rows, `imod` divides by zero (see "## Left out") | pixel (3, 4) with a default frame header (0 columns) | report an error and register nothing | not executed | Defects.SetDefectAsWritten, Defects.SetDefectAsWrittenRegistersNoPixel, Defects.SetDefectAsWrittenNegativeRows, MerlinParams.Params.SetDefectPixel | Defects.SetDefect, Defects.SetDefectRegisters, Defects.SetDefectAsWrittenAgrees |
