/**
  The per-frame binary header of a Merlin data file (`merlin_hdr.cpp` lines
  67-188): the comma-separated token cursor and the two-phase frame-header
  reader that first reads 128 bytes to learn the declared header length and
  then re-reads that many bytes.

  A data file is a `Stream`: its bytes, the current read position and whether
  it is open. A seek to a position inside the data, or just after it, always
  succeeds.
*/
module MerlinFrame {
  import opened Wrappers
  import opened CLib
  import opened MerlinHdr

  datatype Stream = Stream(data: seq<byte>, pos: nat, open: bool)

  /** Bytes read first, to learn the declared header length. */
  const PreReadBytes := 128

  /* ------------------------------------------------------------ the cursor */

  /** The first comma at or after `i`, if any. */
  function CommaFrom(s: string, i: nat): (c: Option<nat>)
    decreases |s| - i
    ensures c.Some? ==> i <= c.value < |s| && s[c.value] == ','
    ensures c.Some? ==> forall k :: i <= k < c.value ==> s[k] != ','
    ensures c.None? ==> forall k :: i <= k < |s| ==> s[k] != ','
  {
    if i >= |s| then None
    else if s[i] == ',' then Some(i)
    else CommaFrom(s, i + 1)
  }

  /** The first character other than a comma at or after `i`, if any. */
  function NonCommaFrom(s: string, i: nat): (c: Option<nat>)
    decreases |s| - i
    ensures c.Some? ==> i <= c.value < |s| && s[c.value] != ','
    ensures c.Some? ==> forall k :: i <= k < c.value ==> s[k] == ','
    ensures c.None? ==> forall k :: i <= k < |s| ==> s[k] == ','
  {
    if i >= |s| then None
    else if s[i] != ',' then Some(i)
    else NonCommaFrom(s, i + 1)
  }

  /** Where the next token starts, and the value of the output string after the call. */
  datatype Token = Token(next: int, prm: string)

  /**
    What `merlin_read_frame_header_param` does with non-null pointers: the token
    runs from `ipos` (clamped to 0) to the next comma and replaces `prm` only when
    it is at least two characters long; the cursor then moves past the run of
    commas. `std::string::at` checks its index before the loop guards do, so a
    header without a comma at or after the start, or without a non-comma after
    that comma, throws `out_of_range`: `None`.
  */
  function ParamSpec(ipos: int, s: string, prm: string): Option<Token> {
    var lipos := if ipos >= 0 then ipos else 0;
    match CommaFrom(s, lipos)
    case None => None
    case Some(c) =>
      match NonCommaFrom(s, c)
      case None => None
      case Some(n) => Some(Token(n, if c - lipos > 1 then s[lipos..c] else prm))
  }

  /** The outcome of a call: the two null-pointer codes, the advanced cursor, or the exception. */
  datatype ParamResult = NoHeader | NoParam | Advanced(next: int, prm: string) | OutOfRange

  /** The value the C++ function returns, for outcomes that return. */
  function ParamCode(r: ParamResult): int
    requires !r.OutOfRange?
  {
    match r
    case NoHeader => -1
    case NoParam => -2
    case Advanced(n, _) => n
  }

  /** `merlin_read_frame_header_param` (merlin_hdr.cpp:67-91). */
  method ReadFrameHeaderParam(ipos: int, hdr: Option<string>, prm: Option<string>) returns (r: ParamResult)
    ensures hdr.None? ==> r == NoHeader
    ensures hdr.Some? && prm.None? ==> r == NoParam
    ensures hdr.Some? && prm.Some? ==>
      match ParamSpec(ipos, hdr.value, prm.value)
      case None => r == OutOfRange
      case Some(t) => r == Advanced(t.next, t.prm)
  {
    var lipos := if ipos >= 0 then ipos else 0;
    var lcpos := lipos;
    if hdr.None? {
      return NoHeader;
    }
    if prm.None? {
      return NoParam;
    }
    var s := hdr.value;
    // the token: up to the next comma
    var comma := ScanToken(s, lipos);
    if comma.None? {
      return OutOfRange;
    }
    var c := comma.value;
    lcpos := c;
    var out := prm.value;
    if lcpos - lipos > 1 {
      out := s[lipos..lcpos];
      lcpos := lcpos + 1;
    }
    // the separators: up to the next non-comma
    var next := ScanSeparators(s, c, lcpos);
    if next.None? {
      return OutOfRange;
    }
    return Advanced(next.value, out);
  }

  /** The first loop of `merlin_read_frame_header_param`: from `i`, the position of the next comma; `None` where `at` throws. */
  method ScanToken(s: string, i: nat) returns (c: Option<nat>)
    ensures c == CommaFrom(s, i)
  {
    var lmpos := |s|;
    var lcpos := i;
    while true
      invariant i <= lcpos
      invariant CommaFrom(s, i) == CommaFrom(s, lcpos)
      decreases |s| - lcpos
    {
      if lcpos >= |s| {
        return None;
      }
      if !(s[lcpos] != ',' && lcpos < lmpos) {
        return Some(lcpos);
      }
      lcpos := lcpos + 1;
    }
  }

  /**
    The second loop of `merlin_read_frame_header_param`: from `from`, which is
    the comma `c` or the character after it, the next character other than a
    comma; `None` where `at` throws.
  */
  method ScanSeparators(s: string, c: nat, from: nat) returns (n: Option<nat>)
    requires c < |s| && s[c] == ',' && c <= from <= c + 1
    ensures n == NonCommaFrom(s, c)
  {
    var lmpos := |s|;
    var lcpos := from;
    while true
      invariant from <= lcpos
      invariant NonCommaFrom(s, c) == NonCommaFrom(s, lcpos)
      decreases |s| - lcpos
    {
      if lcpos >= |s| {
        return None;
      }
      if !(s[lcpos] == ',' && lcpos < lmpos) {
        return Some(lcpos);
      }
      lcpos := lcpos + 1;
    }
  }

  /** The cursor always advances: the next token starts after the (clamped) start position, inside the string. */
  lemma ParamAdvances(ipos: int, s: string, prm: string)
    requires ParamSpec(ipos, s, prm).Some?
    ensures ipos < ParamSpec(ipos, s, prm).value.next < |s|
    ensures 0 < ParamSpec(ipos, s, prm).value.next
  {
  }

  /** A token with no comma, followed by a comma run and a non-comma, is captured and skipped (length at least 2). */
  lemma {:induction false} ParamReadsToken(pre: string, tok: string, commas: nat, rest: string, prm: string)
    requires |tok| >= 2 && commas >= 1
    requires forall k :: 0 <= k < |tok| ==> tok[k] != ','
    requires |rest| > 0 && rest[0] != ','
    ensures ParamSpec(|pre|, pre + tok + Commas(commas) + rest, prm) == Some(Token(|pre| + |tok| + commas, tok))
  {
    var s := pre + tok + Commas(commas) + rest;
    var c := |pre| + |tok|;
    CommaFromSkips(s, |pre|, c);
    NonCommaFromSkips(s, c, c + commas);
    assert s[|pre|..c] == tok;
  }

  /** A token shorter than two characters leaves the output string unchanged. */
  lemma ParamKeepsShortToken(ipos: int, s: string, prm: string)
    requires ParamSpec(ipos, s, prm).Some?
    requires ipos >= 0 && CommaFrom(s, ipos).Some? && CommaFrom(s, ipos).value - ipos <= 1
    ensures ParamSpec(ipos, s, prm).value.prm == prm
  {
  }

  /** `n` commas. */
  function Commas(n: nat): (s: string)
    ensures |s| == n && forall k :: 0 <= k < n ==> s[k] == ','
  {
    if n == 0 then "" else Commas(n - 1) + ","
  }

  lemma {:induction false} CommaFromSkips(s: string, i: nat, c: nat)
    requires i <= c < |s| && s[c] == ','
    requires forall k :: i <= k < c ==> s[k] != ','
    ensures CommaFrom(s, i) == Some(c)
    decreases c - i
  {
    if i < c {
      CommaFromSkips(s, i + 1, c);
    }
  }

  lemma {:induction false} NonCommaFromSkips(s: string, i: nat, c: nat)
    requires i <= c < |s| && s[c] != ','
    requires forall k :: i <= k < c ==> s[k] == ','
    ensures NonCommaFrom(s, i) == Some(c)
    decreases c - i
  {
    if i < c {
      NonCommaFromSkips(s, i + 1, c);
    }
  }

  /* ------------------------------------------------------ the frame header */

  /** One token of the frame header, checked against a bound on where the next one starts. */
  datatype Field = Field(next: int, num: string) | Bad | Threw

  function NextField(ipos: int, s: string, num: string, bound: int): Field {
    match ParamSpec(ipos, s, num)
    case None => Threw
    case Some(t) => if t.next < 0 || t.next >= bound then Bad else Field(t.next, t.prm)
  }

  /**
    Token `i` of the frame header (the header id is token 0) written into the
    record: sequence number less one, declared size, chip count, columns, rows,
    bit depth from characters 1-2 of the depth token, sensor layout, chip select
    in hexadecimal, time stamp and dwell time. `None` when `substr` throws.
  */
  function SetField(h: FrameHeader, i: nat, num: string): Option<FrameHeader> {
    if i == 0 then Some(h.(hid := num))
    else if i == 1 then Some(h.(iSeq := Atoi(num) - 1))
    else if i == 2 then Some(h.(size := Atoi(num)))
    else if i == 3 then Some(h.(chips := Atoi(num)))
    else if i == 4 then Some(h.(columns := Atoi(num)))
    else if i == 5 then Some(h.(rows := Atoi(num)))
    else if i == 6 then
      (match Substr(num, 1, 2)
       case None => None
       case Some(depth) => Some(h.(bpi := Atoi(depth))))
    else if i == 7 then Some(h.(sensorLayout := num))
    else if i == 8 then Some(h.(chipSelect := StrToULHex(num)))
    else if i == 9 then Some(h.(time := num))
    else Some(h.(dwell := num))
  }

  /**
    How reading tokens ended: all read (with the cursor and `str_num` after the
    last), stopped by the bound check (with the fields written before it), or an
    exception.
  */
  datatype Parsed = Done(next: int, num: string, h: FrameHeader) | Stopped(h: FrameHeader) | ParseThrew

  /** Tokens `i` up to `last` (exclusive), each read with the cursor, checked against `bound` and written into the record. */
  function ParseFields(s: string, p: int, num: string, bound: int, h: FrameHeader, i: nat, last: nat): Parsed
    decreases last - i
  {
    if i >= last then Done(p, num, h)
    else match NextField(p, s, num, bound)
      case Threw => ParseThrew
      case Bad => Stopped(h)
      case Field(p', num') =>
        match SetField(h, i, num')
        case None => ParseThrew
        case Some(h') => ParseFields(s, p', num', bound, h', i + 1, last)
  }

  /**
    The outcome of `merlin_read_frame_header`: the return code, the header record
    (when one was passed) with the fields written before the return, the stream
    position and whether the end of the data was hit; or the uncaught
    `out_of_range` of the cursor or of `substr`.
  */
  datatype FrameHeaderResult =
    | FrameHeaderRead(code: int, fhdr: Option<FrameHeader>, pos: nat, eof: bool)
    | FrameHeaderThrown

  /** The header text: the re-read bytes as a zero-terminated string (the buffer is zeroed beyond them). */
  function HeaderText(st: Stream, n: nat): string
    requires st.pos + n <= |st.data|
  {
    CString(st.data[st.pos..st.pos + n])
  }

  /** `merlin_read_frame_header` on a non-null stream: the pre-read, the size check, the re-read and the body. */
  function ReadFrameHeaderSpec(st: Stream, fhdr: Option<FrameHeader>): FrameHeaderResult {
    var h := if fhdr.Some? then fhdr.value else DefaultFrameHeader;
    if !st.open then FrameHeaderRead(2, fhdr, st.pos, false)
    else if st.pos + PreReadBytes > |st.data| then FrameHeaderRead(13, fhdr, |st.data|, true)
    else
      var after := st.pos + PreReadBytes;
      var pre := ParseFields(HeaderText(st, PreReadBytes), 0, "", PreReadBytes, h, 0, 3);
      match pre
      case ParseThrew => FrameHeaderThrown
      case Stopped(h') => FrameHeaderRead(3, Written(fhdr, h'), after, false)
      case Done(_, _, _) => AfterPreParse(st, fhdr, pre)
  }

  /** Lines 125-187: the size check, the re-read and tokens four to eleven. */
  function AfterPreParse(st: Stream, fhdr: Option<FrameHeader>, pre: Parsed): FrameHeaderResult
    requires pre.Done? && st.pos + PreReadBytes <= |st.data|
  {
    var nhdr := pre.h.size;
    if !(0 < nhdr <= FrameHdrSizeMax) then FrameHeaderRead(4, Written(fhdr, pre.h), st.pos + PreReadBytes, false)
    else if st.pos + nhdr > |st.data| then FrameHeaderRead(15, Written(fhdr, pre.h), |st.data|, true)
    else if fhdr.None? then FrameHeaderRead(0, None, st.pos + nhdr, false)
    else BodyOutcome(ParseFields(HeaderText(st, Max(nhdr, PreReadBytes)), pre.next, pre.num, nhdr, pre.h, 3, 11), st.pos + nhdr)
  }

  /** The outcome of reading the tokens from the fourth on: 5 when one starts beyond the declared size, 0 otherwise. */
  function BodyOutcome(body: Parsed, after: nat): FrameHeaderResult {
    match body
    case ParseThrew => FrameHeaderThrown
    case Stopped(h) => FrameHeaderRead(5, Some(h), after, false)
    case Done(_, _, h) => FrameHeaderRead(0, Some(h), after, false)
  }

  /** The header record after the writes, when a record was passed. */
  function Written(fhdr: Option<FrameHeader>, h: FrameHeader): Option<FrameHeader> {
    if fhdr.Some? then Some(h) else None
  }

  /** One call of the cursor followed by the bound check of the caller. */
  method ReadField(ipos: int, s: string, num: string, bound: int) returns (f: Field)
    ensures f == NextField(ipos, s, num, bound)
  {
    var r := ReadFrameHeaderParam(ipos, Some(s), Some(num));
    if r.OutOfRange? {
      return Threw;
    }
    if r.next < 0 || r.next >= bound {
      return Bad;
    }
    return Field(r.next, r.prm);
  }

  /**
    Token `i` of lines 113-173: one call of the cursor, the bound check and the
    write of the field, after which reading goes on from the new cursor.
  */
  method ReadOneField(s: string, p: int, num: string, bound: int, h: FrameHeader, i: nat, last: nat)
    returns (r: Parsed)
    requires i < last
    ensures r.Done? ==> ParseFields(s, p, num, bound, h, i, last) == ParseFields(s, r.next, r.num, bound, r.h, i + 1, last)
    ensures !r.Done? ==> r == ParseFields(s, p, num, bound, h, i, last)
  {
    var f := ReadField(p, s, num, bound);
    if f.Threw? {
      return ParseThrew;
    }
    if f.Bad? {
      return Stopped(h);
    }
    var h' := SetField(h, i, f.num);
    if h'.None? {
      return ParseThrew;
    }
    return Done(f.next, f.num, h'.value);
  }

  /** Lines 113-126: header id, sequence number and declared size from the pre-read text. */
  method PreParseHeader(s: string, h: FrameHeader) returns (f: Parsed)
    ensures f == ParseFields(s, 0, "", PreReadBytes, h, 0, 3)
  {
    f := ReadOneField(s, 0, "", PreReadBytes, h, 0, 3);
    if !f.Done? { return; }
    f := ReadOneField(s, f.next, f.num, PreReadBytes, f.h, 1, 3);
    if !f.Done? { return; }
    f := ReadOneField(s, f.next, f.num, PreReadBytes, f.h, 2, 3);
  }

  /** Lines 141-173: chips, columns, rows, depth, layout, chip select, time stamp and dwell time. */
  method ParseHeaderBody(s: string, p: int, num: string, nhdr: int, h: FrameHeader) returns (f: Parsed)
    ensures f == ParseFields(s, p, num, nhdr, h, 3, 11)
  {
    f := ReadOneField(s, p, num, nhdr, h, 3, 11);
    if !f.Done? { return; }
    f := ReadOneField(s, f.next, f.num, nhdr, f.h, 4, 11);
    if !f.Done? { return; }
    f := ReadOneField(s, f.next, f.num, nhdr, f.h, 5, 11);
    if !f.Done? { return; }
    f := ReadOneField(s, f.next, f.num, nhdr, f.h, 6, 11);
    if !f.Done? { return; }
    f := ReadOneField(s, f.next, f.num, nhdr, f.h, 7, 11);
    if !f.Done? { return; }
    f := ReadOneField(s, f.next, f.num, nhdr, f.h, 8, 11);
    if !f.Done? { return; }
    f := ReadOneField(s, f.next, f.num, nhdr, f.h, 9, 11);
    if !f.Done? { return; }
    f := ReadOneField(s, f.next, f.num, nhdr, f.h, 10, 11);
  }

  /** `merlin_read_frame_header` (merlin_hdr.cpp:93-188) with a non-null stream. */
  method ReadFrameHeader(st: Stream, fhdr: Option<FrameHeader>) returns (r: FrameHeaderResult)
    ensures r == ReadFrameHeaderSpec(st, fhdr)
  {
    var h := if fhdr.Some? then fhdr.value else DefaultFrameHeader;
    if !st.open {
      return FrameHeaderRead(2, fhdr, st.pos, false);
    }
    var ipos := st.pos;
    if ipos + PreReadBytes > |st.data| {
      return FrameHeaderRead(13, fhdr, |st.data|, true);
    }
    var strTmp := HeaderText(st, PreReadBytes);
    var f := PreParseHeader(strTmp, h);
    if f.ParseThrew? { return FrameHeaderThrown; }
    if f.Stopped? { return FrameHeaderRead(3, Written(fhdr, f.h), ipos + PreReadBytes, false); }
    r := ReadFullHeader(st, fhdr, f);
  }

  /** Lines 125-187, once the first three tokens were read. */
  method ReadFullHeader(st: Stream, fhdr: Option<FrameHeader>, pre: Parsed) returns (r: FrameHeaderResult)
    requires pre.Done? && st.pos + PreReadBytes <= |st.data|
    ensures r == AfterPreParse(st, fhdr, pre)
  {
    var ipos := st.pos;
    var nhdr := pre.h.size;
    if !(0 < nhdr <= FrameHdrSizeMax) {
      return FrameHeaderRead(4, Written(fhdr, pre.h), ipos + PreReadBytes, false);
    }
    if ipos + nhdr > |st.data| {
      return FrameHeaderRead(15, Written(fhdr, pre.h), |st.data|, true);
    }
    if fhdr.None? {
      return FrameHeaderRead(0, None, ipos + nhdr, false);
    }
    var strTmp := HeaderText(st, Max(nhdr, PreReadBytes));
    var f := ParseHeaderBody(strTmp, pre.next, pre.num, nhdr, pre.h);
    if f.ParseThrew? { return FrameHeaderThrown; }
    if f.Stopped? { return FrameHeaderRead(5, Some(f.h), ipos + nhdr, false); }
    return FrameHeaderRead(0, Some(f.h), ipos + nhdr, false);
  }

  /**
    The three tokens of the first phase always start inside the 128 bytes read,
    so the pre-parsing error 3 never occurs; every outcome is 0 or one of the
    error codes 2, 4, 5, 13 and 15, and the end of the data is reported exactly
    with the two read failures 13 and 15.
  */
  lemma ReadFrameHeaderCodes(st: Stream, fhdr: Option<FrameHeader>)
    ensures match ReadFrameHeaderSpec(st, fhdr)
      case FrameHeaderThrown => true
      case FrameHeaderRead(code, _, _, eof) =>
        code in {0, 2, 4, 5, 13, 15} && (eof <==> code in {13, 15})
  {
    if st.open && st.pos + PreReadBytes <= |st.data| {
      var h := if fhdr.Some? then fhdr.value else DefaultFrameHeader;
      ParseFieldsInside(HeaderText(st, PreReadBytes), 0, "", h, 0, 3);
      var pre := ParseFields(HeaderText(st, PreReadBytes), 0, "", PreReadBytes, h, 0, 3);
      if pre.Done? {
        AfterPreParseCodes(st, fhdr, pre);
      }
    }
  }

  /** After the first phase, the outcome is 0 or one of the errors 4, 5 and 15, and only 15 reports the end of the data. */
  lemma AfterPreParseCodes(st: Stream, fhdr: Option<FrameHeader>, pre: Parsed)
    requires pre.Done? && st.pos + PreReadBytes <= |st.data|
    ensures match AfterPreParse(st, fhdr, pre)
      case FrameHeaderThrown => true
      case FrameHeaderRead(code, _, _, eof) =>
        code in {0, 4, 5, 15} && (eof <==> code == 15)
  {
  }

  /** A token read from a string of at most 128 characters always starts inside the pre-read bound. */
  lemma {:induction false} ParseFieldsInside(s: string, p: int, num: string, h: FrameHeader, i: nat, last: nat)
    requires |s| <= PreReadBytes
    ensures !ParseFields(s, p, num, PreReadBytes, h, i, last).Stopped?
    decreases last - i
  {
    if i < last && ParamSpec(p, s, num).Some? {
      ParamAdvances(p, s, num);
      var t := ParamSpec(p, s, num).value;
      if SetField(h, i, t.prm).Some? {
        ParseFieldsInside(s, t.next, t.prm, SetField(h, i, t.prm).value, i + 1, last);
      }
    }
  }

  /** Tokens from the fourth on never write the declared size. */
  lemma {:induction false} ParseFieldsKeepSize(s: string, p: int, num: string, bound: int, h: FrameHeader, i: nat, last: nat)
    requires i >= 3
    ensures !ParseFields(s, p, num, bound, h, i, last).ParseThrew? ==> ParseFields(s, p, num, bound, h, i, last).h.size == h.size
    decreases last - i
  {
    if i < last {
      var f := NextField(p, s, num, bound);
      if f.Field? && SetField(h, i, f.num).Some? {
        ParseFieldsKeepSize(s, f.next, f.num, bound, SetField(h, i, f.num).value, i + 1, last);
      }
    }
  }

  /**
    A header read with a record passed and accepted declares a size in
    1..2048, lies inside the data, and leaves the stream just after itself
    (so the seek of line 185 cannot fail).
  */
  lemma ReadFrameHeaderPositions(st: Stream, fhdr: Option<FrameHeader>)
    requires fhdr.Some?
    requires ReadFrameHeaderSpec(st, fhdr).FrameHeaderRead? && ReadFrameHeaderSpec(st, fhdr).code == 0
    ensures var r := ReadFrameHeaderSpec(st, fhdr);
      r.fhdr.Some? && 0 < r.fhdr.value.size <= FrameHdrSizeMax &&
      r.pos == st.pos + r.fhdr.value.size <= |st.data|
  {
    var pre := ParseFields(HeaderText(st, PreReadBytes), 0, "", PreReadBytes, fhdr.value, 0, 3);
    var nhdr := pre.h.size;
    ParseFieldsKeepSize(HeaderText(st, Max(nhdr, PreReadBytes)), pre.next, pre.num, nhdr, pre.h, 3, 11);
  }

  /** A comma-terminated token of `n` characters (at least two) at `p`, followed by a character other than a comma. */
  predicate TokenEndsAt(s: string, p: nat, n: nat) {
    n >= 2 && p + n + 1 < |s| &&
    (forall k :: p <= k < p + n ==> s[k] != ',') &&
    s[p + n] == ',' && s[p + n + 1] != ','
  }

  /** The cursor and the bound check over a well-formed token: the token is captured and the cursor moves just past its comma. */
  lemma TokenAt(s: string, p: nat, n: nat, prm: string, bound: int)
    requires TokenEndsAt(s, p, n) && p + n + 1 < bound
    ensures NextField(p, s, prm, bound) == Field(p + n + 1, s[p..p + n])
  {
    CommaFromSkips(s, p, p + n);
    NonCommaFromSkips(s, p + n, p + n + 1);
  }

  /* ---------------------------------------------- a well-formed frame header */

  /** Tokens, each followed by its run of commas. */
  function Join(ts: seq<string>, cs: seq<nat>): string
    requires |ts| == |cs|
  {
    if ts == [] then "" else ts[0] + Commas(cs[0]) + Join(ts[1..], cs[1..])
  }

  /** Each token is at least two characters long and free of commas, and each comma run is non-empty. */
  predicate Separated(ts: seq<string>, cs: seq<nat>) {
    |ts| == |cs| &&
    (forall k :: 0 <= k < |ts| ==> |ts[k]| >= 2 && cs[k] >= 1) &&
    (forall k, j :: 0 <= k < |ts| && 0 <= j < |ts[k]| ==> ts[k][j] != ',')
  }

  /** At `p`: the token `tok`, then `c` commas, then a character other than a comma. */
  predicate TokenRun(s: string, p: nat, tok: string, c: nat) {
    p + |tok| + c < |s| && s[p..p + |tok|] == tok &&
    (forall k :: p + |tok| <= k < p + |tok| + c ==> s[k] == ',') &&
    s[p + |tok| + c] != ','
  }

  /** The tokens, each followed by its comma run, one after the other from `p` on. */
  predicate Tokens(s: string, p: nat, ts: seq<string>, cs: seq<nat>)
    requires |ts| == |cs|
    decreases |ts|
  {
    ts != [] ==> TokenRun(s, p, ts[0], cs[0]) && Tokens(s, p + |ts[0]| + cs[0], ts[1..], cs[1..])
  }

  /** The characters the tokens and their comma runs take up. */
  function Width(ts: seq<string>, cs: seq<nat>): nat
    requires |ts| == |cs|
  {
    if ts == [] then 0 else |ts[0]| + cs[0] + Width(ts[1..], cs[1..])
  }

  /** Where token `k` starts, counted from the first. */
  function Offset(ts: seq<string>, cs: seq<nat>, k: nat): nat
    requires |ts| == |cs| && k <= |ts|
  {
    Width(ts[..k], cs[..k])
  }

  lemma SeparatedTail(ts: seq<string>, cs: seq<nat>)
    requires Separated(ts, cs) && ts != []
    ensures Separated(ts[1..], cs[1..])
    ensures |ts[0]| >= 2 && cs[0] >= 1 && forall k :: 0 <= k < |ts[0]| ==> ts[0][k] != ','
  {
    assert forall k :: 0 <= k < |ts| - 1 ==> ts[1..][k] == ts[k + 1];
  }

  /** Separated tokens joined by their comma runs and followed by a character other than a comma lie in the text one after the other. */
  lemma {:induction false} JoinedTokens(s: string, p: nat, ts: seq<string>, cs: seq<nat>, rest: string)
    requires Separated(ts, cs) && (ts != [] ==> |rest| > 0 && rest[0] != ',')
    requires p <= |s| && s[p..] == Join(ts, cs) + rest
    ensures Tokens(s, p, ts, cs) && |Join(ts, cs)| == Width(ts, cs)
    decreases |ts|
  {
    if ts != [] {
      SeparatedTail(ts, cs);
      var q := p + |ts[0]| + cs[0];
      assert s[p..] == ts[0] + Commas(cs[0]) + (Join(ts[1..], cs[1..]) + rest);
      assert s[p..p + |ts[0]|] == ts[0];
      assert forall k :: p + |ts[0]| <= k < q ==> s[k] == s[p..][k - p];
      assert s[q..] == Join(ts[1..], cs[1..]) + rest;
      assert s[q] == s[q..][0];
      JoinedTokens(s, q, ts[1..], cs[1..], rest);
    }
  }

  lemma OffsetCons(ts: seq<string>, cs: seq<nat>, k: nat)
    requires |ts| == |cs| && 1 <= k <= |ts|
    ensures Offset(ts, cs, k) == |ts[0]| + cs[0] + Offset(ts[1..], cs[1..], k - 1)
  {
    assert ts[..k][1..] == ts[1..][..k - 1] && cs[..k][1..] == cs[1..][..k - 1];
  }

  /** The next token starts after this one and its commas. */
  lemma {:induction false} OffsetStep(ts: seq<string>, cs: seq<nat>, k: nat)
    requires |ts| == |cs| && k < |ts|
    ensures Offset(ts, cs, k + 1) == Offset(ts, cs, k) + |ts[k]| + cs[k]
  {
    OffsetCons(ts, cs, k + 1);
    if k > 0 {
      OffsetCons(ts, cs, k);
      OffsetStep(ts[1..], cs[1..], k - 1);
    } else {
      assert ts[1..][..0] == [] && cs[1..][..0] == [];
    }
  }

  /** Token `k` of tokens lying one after the other starts at its offset. */
  lemma {:induction false} TokensAt(s: string, p: nat, ts: seq<string>, cs: seq<nat>, k: nat)
    requires |ts| == |cs| && k < |ts| && Tokens(s, p, ts, cs)
    ensures TokenRun(s, p + Offset(ts, cs, k), ts[k], cs[k])
    decreases k
  {
    if k > 0 {
      OffsetCons(ts, cs, k);
      TokensAt(s, p + |ts[0]| + cs[0], ts[1..], cs[1..], k - 1);
    } else {
      assert ts[..0] == [] && cs[..0] == [];
    }
  }

  /** The cursor at `p` over a token of at least two characters free of commas, followed by its comma run: the token, and the cursor just past the run. */
  lemma TokenField(s: string, p: nat, tok: string, c: nat, num: string, bound: int)
    requires |tok| >= 2 && c >= 1 && forall k :: 0 <= k < |tok| ==> tok[k] != ','
    requires TokenRun(s, p, tok, c) && p + |tok| + c < bound
    ensures NextField(p, s, num, bound) == Field(p + |tok| + c, tok)
  {
    assert forall k :: p <= k < p + |tok| ==> s[k] == tok[k - p];
    CommaFromSkips(s, p, p + |tok|);
    NonCommaFromSkips(s, p + |tok|, p + |tok| + c);
  }

  /** A token read and written into field `i` hands the rest of the reading over to field `i + 1`. */
  lemma ParseStep(s: string, p: int, num: string, bound: int, h: FrameHeader, i: nat, last: nat,
                  p': int, num': string, h': FrameHeader)
    requires i < last && NextField(p, s, num, bound) == Field(p', num') && SetField(h, i, num') == Some(h')
    ensures ParseFields(s, p, num, bound, h, i, last) == ParseFields(s, p', num', bound, h', i + 1, last)
  {
  }

  /** At `p`: a token of at least two characters free of commas, then its non-empty comma run, then a character other than a comma. */
  predicate Run(s: string, p: nat, tok: string, c: nat) {
    |tok| >= 2 && c >= 1 && (forall k :: 0 <= k < |tok| ==> tok[k] != ',') && TokenRun(s, p, tok, c)
  }

  /** Every token is a run at its offset. */
  predicate Laid(s: string, ts: seq<string>, cs: seq<nat>) {
    |ts| == |cs| &&
    forall k {:trigger Run(s, Offset(ts, cs, k), ts[k], cs[k])} :: 0 <= k < |ts| ==> Run(s, Offset(ts, cs, k), ts[k], cs[k])
  }

  /** Separated tokens lying one after the other from 0 are laid out as runs at their offsets. */
  lemma LaidTokens(s: string, ts: seq<string>, cs: seq<nat>)
    requires Separated(ts, cs) && Tokens(s, 0, ts, cs)
    ensures Laid(s, ts, cs)
  {
    forall k | 0 <= k < |ts|
      ensures Run(s, Offset(ts, cs, k), ts[k], cs[k])
    {
      TokensAt(s, 0, ts, cs, k);
    }
  }

  /** Token `k` of laid-out tokens, read into field `k`, turning record `h` into `h'`. */
  lemma ParseTokenAt(s: string, ts: seq<string>, cs: seq<nat>, k: nat, num: string, bound: int, h: FrameHeader, h': FrameHeader, last: nat)
    requires Laid(s, ts, cs) && k < |ts| && k < last
    requires Offset(ts, cs, k + 1) < bound
    requires SetField(h, k, ts[k]) == Some(h')
    ensures ParseFields(s, Offset(ts, cs, k), num, bound, h, k, last)
         == ParseFields(s, Offset(ts, cs, k + 1), ts[k], bound, h', k + 1, last)
  {
    assert Run(s, Offset(ts, cs, k), ts[k], cs[k]);
    OffsetStep(ts, cs, k);
    TokenField(s, Offset(ts, cs, k), ts[k], cs[k], num, bound);
    ParseStep(s, Offset(ts, cs, k), num, bound, h, k, last, Offset(ts, cs, k + 1), ts[k], h');
  }

  lemma {:induction false} JoinSplit(ts: seq<string>, cs: seq<nat>, m: nat)
    requires |ts| == |cs| && m <= |ts|
    ensures Join(ts, cs) == Join(ts[..m], cs[..m]) + Join(ts[m..], cs[m..])
  {
    if m > 0 {
      JoinSplit(ts[1..], cs[1..], m - 1);
      assert ts[..m][1..] == ts[1..][..m - 1] && cs[..m][1..] == cs[1..][..m - 1];
      assert ts[1..][m - 1..] == ts[m..] && cs[1..][m - 1..] == cs[m..];
    } else {
      assert ts[..0] == [] && ts[0..] == ts && cs[0..] == cs;
    }
  }

  /** The record after the first three tokens: the header id, the sequence number less one and the declared size. */
  function PreReadHeader(h: FrameHeader, ts: seq<string>): FrameHeader
    requires |ts| >= 3
  {
    h.(hid := ts[0], iSeq := Atoi(ts[1]) - 1, size := Atoi(ts[2]))
  }

  /** The record after all eleven tokens. */
  function TokenHeader(h: FrameHeader, ts: seq<string>): FrameHeader
    requires |ts| == 11 && |ts[6]| >= 1
  {
    PreReadHeader(h, ts).(chips := Atoi(ts[3]), columns := Atoi(ts[4]), rows := Atoi(ts[5]),
      bpi := Atoi(Substr(ts[6], 1, 2).value), sensorLayout := ts[7], chipSelect := StrToULHex(ts[8]),
      time := ts[9], dwell := ts[10])
  }

  /** The pre-read bytes hold the first three tokens of a well-formed header: the header id, the sequence number and the size. */
  lemma PreReadFields(st: Stream, h: FrameHeader, ts: seq<string>, cs: seq<nat>, rest: string)
    requires Separated(ts, cs) && |ts| == 11
    requires st.pos + Max(Atoi(ts[2]), PreReadBytes) <= |st.data|
    requires HeaderText(st, Max(Atoi(ts[2]), PreReadBytes)) == Join(ts, cs) + rest
    requires |Join(ts[..3], cs[..3])| < PreReadBytes
    ensures ParseFields(HeaderText(st, PreReadBytes), 0, "", PreReadBytes, h, 0, 3)
      == Done(Offset(ts, cs, 3), ts[2], PreReadHeader(h, ts))
  {
    PreReadLaid(st, ts, cs, rest);
    PreReadSteps(HeaderText(st, PreReadBytes), h, ts[..3], cs[..3]);
    assert ts[..3][..3] == ts[..3] && cs[..3][..3] == cs[..3];
    assert ts[..3][0] == ts[0] && ts[..3][1] == ts[1] && ts[..3][2] == ts[2];
  }

  /** The first three tokens are laid out in the pre-read text. */
  lemma PreReadLaid(st: Stream, ts: seq<string>, cs: seq<nat>, rest: string)
    requires Separated(ts, cs) && |ts| == 11
    requires st.pos + Max(Atoi(ts[2]), PreReadBytes) <= |st.data|
    requires HeaderText(st, Max(Atoi(ts[2]), PreReadBytes)) == Join(ts, cs) + rest
    requires |Join(ts[..3], cs[..3])| < PreReadBytes
    ensures Laid(HeaderText(st, PreReadBytes), ts[..3], cs[..3])
    ensures Offset(ts[..3], cs[..3], 3) < PreReadBytes
  {
    assert ts[..3][..3] == ts[..3] && cs[..3][..3] == cs[..3];
    PreReadText(st, ts, cs, rest);
    SeparatedPrefix(ts, cs, 3);
    TextLaid(HeaderText(st, PreReadBytes), ts[..3], cs[..3], HeaderText(st, PreReadBytes)[|Join(ts[..3], cs[..3])|..]);
  }

  /** A prefix of separated tokens is separated. */
  lemma SeparatedPrefix(ts: seq<string>, cs: seq<nat>, m: nat)
    requires Separated(ts, cs) && m <= |ts|
    ensures Separated(ts[..m], cs[..m])
  {
    assert forall k :: 0 <= k < m ==> ts[..m][k] == ts[k] && cs[..m][k] == cs[k];
  }

  /** Separated tokens at the start of a text, followed by a character other than a comma, are laid out in it. */
  lemma TextLaid(s: string, ts: seq<string>, cs: seq<nat>, rest: string)
    requires Separated(ts, cs) && (ts != [] ==> |rest| > 0 && rest[0] != ',')
    requires s == Join(ts, cs) + rest
    ensures Laid(s, ts, cs) && Width(ts, cs) == |Join(ts, cs)|
  {
    assert s[0..] == s;
    JoinedTokens(s, 0, ts, cs, rest);
    LaidTokens(s, ts, cs);
  }

  /** The pre-read text starts with the first three tokens and their comma runs, followed by a character other than a comma. */
  lemma PreReadText(st: Stream, ts: seq<string>, cs: seq<nat>, rest: string)
    requires Separated(ts, cs) && |ts| == 11
    requires st.pos + Max(Atoi(ts[2]), PreReadBytes) <= |st.data|
    requires HeaderText(st, Max(Atoi(ts[2]), PreReadBytes)) == Join(ts, cs) + rest
    requires |Join(ts[..3], cs[..3])| < PreReadBytes
    ensures |Join(ts[..3], cs[..3])| < |HeaderText(st, PreReadBytes)|
    ensures HeaderText(st, PreReadBytes)[|Join(ts[..3], cs[..3])|] != ','
    ensures HeaderText(st, PreReadBytes)
      == Join(ts[..3], cs[..3]) + HeaderText(st, PreReadBytes)[|Join(ts[..3], cs[..3])|..]
  {
    JoinHead(ts, cs, rest);
    PreReadPrefix(st, Max(Atoi(ts[2]), PreReadBytes));
  }

  /** A header read of `m` bytes or more holds the pre-read text as its prefix. */
  lemma PreReadPrefix(st: Stream, m: nat)
    requires PreReadBytes <= m && st.pos + m <= |st.data|
    ensures var text := HeaderText(st, m);
      HeaderText(st, PreReadBytes) == text[..if PreReadBytes < |text| then PreReadBytes else |text|]
  {
    CStringPrefix(st.data[st.pos..st.pos + m], PreReadBytes);
    assert st.data[st.pos..st.pos + m][..PreReadBytes] == st.data[st.pos..st.pos + PreReadBytes];
  }

  /** Eleven separated tokens: the first three and their comma runs come first, then a character other than a comma. */
  lemma JoinHead(ts: seq<string>, cs: seq<nat>, rest: string)
    requires Separated(ts, cs) && |ts| == 11
    ensures var text, j3 := Join(ts, cs) + rest, Join(ts[..3], cs[..3]);
      |j3| < |text| && text[..|j3|] == j3 && text[|j3|] != ','
  {
    JoinSplit(ts, cs, 3);
    assert ts[3..][0] == ts[3];
    assert Join(ts[3..], cs[3..])[0] == ts[3][0];
  }

  lemma PreReadSteps(s: string, h: FrameHeader, ts: seq<string>, cs: seq<nat>)
    requires Laid(s, ts, cs) && |ts| == 3 && Offset(ts, cs, 3) < PreReadBytes
    ensures ParseFields(s, 0, "", PreReadBytes, h, 0, 3) == Done(Offset(ts, cs, 3), ts[2], PreReadHeader(h, ts))
  {
    assert ts[..0] == [] && cs[..0] == [];
    OffsetStep(ts, cs, 2);
    var h1 := h.(hid := ts[0]);
    var h2 := h1.(iSeq := Atoi(ts[1]) - 1);
    PairSteps(s, ts, cs, 0, "", PreReadBytes, h, h1, h2, 3);
    LastStep(s, ts, cs, 2, ts[1], PreReadBytes, h2, PreReadHeader(h, ts));
  }

  /** Tokens four to eleven of a well-formed header, read from where the pre-read stopped. */
  lemma BodySteps(s: string, h: FrameHeader, ts: seq<string>, cs: seq<nat>, bound: int)
    requires Laid(s, ts, cs) && |ts| == 11 && |ts[6]| >= 2 && Offset(ts, cs, 11) < bound
    ensures ParseFields(s, Offset(ts, cs, 3), ts[2], bound, PreReadHeader(h, ts), 3, 11)
         == Done(Offset(ts, cs, 11), ts[10], TokenHeader(h, ts))
  {
    OffsetStep(ts, cs, 10);
    var h7 := PreReadHeader(h, ts).(chips := Atoi(ts[3]), columns := Atoi(ts[4]), rows := Atoi(ts[5]),
      bpi := Atoi(Substr(ts[6], 1, 2).value));
    BodyFirstHalf(s, h, ts, cs, bound, h7);
    BodySecondHalf(s, h, ts, cs, bound, h7);
  }

  /** Tokens four to seven: chips, columns, rows and depth. */
  lemma BodyFirstHalf(s: string, h: FrameHeader, ts: seq<string>, cs: seq<nat>, bound: int, h7: FrameHeader)
    requires Laid(s, ts, cs) && |ts| == 11 && |ts[6]| >= 2 && Offset(ts, cs, 11) < bound
    requires h7 == PreReadHeader(h, ts).(chips := Atoi(ts[3]), columns := Atoi(ts[4]), rows := Atoi(ts[5]),
      bpi := Atoi(Substr(ts[6], 1, 2).value))
    ensures ParseFields(s, Offset(ts, cs, 3), ts[2], bound, PreReadHeader(h, ts), 3, 11)
         == ParseFields(s, Offset(ts, cs, 7), ts[6], bound, h7, 7, 11)
  {
    OffsetsBelow(ts, cs, 3);
    OffsetsBelow(ts, cs, 5);
    var h3 := PreReadHeader(h, ts);
    var h5 := h3.(chips := Atoi(ts[3]), columns := Atoi(ts[4]));
    PairSteps(s, ts, cs, 3, ts[2], bound, h3, h3.(chips := Atoi(ts[3])), h5, 11);
    PairSteps(s, ts, cs, 5, ts[4], bound, h5, h5.(rows := Atoi(ts[5])), h7, 11);
  }

  /** Tokens eight to eleven: sensor layout, chip select, time stamp and dwell time. */
  lemma BodySecondHalf(s: string, h: FrameHeader, ts: seq<string>, cs: seq<nat>, bound: int, h7: FrameHeader)
    requires Laid(s, ts, cs) && |ts| == 11 && |ts[6]| >= 2 && Offset(ts, cs, 11) < bound
    requires h7 == PreReadHeader(h, ts).(chips := Atoi(ts[3]), columns := Atoi(ts[4]), rows := Atoi(ts[5]),
      bpi := Atoi(Substr(ts[6], 1, 2).value))
    ensures ParseFields(s, Offset(ts, cs, 7), ts[6], bound, h7, 7, 11)
         == Done(Offset(ts, cs, 11), ts[10], TokenHeader(h, ts))
  {
    OffsetsBelow(ts, cs, 7);
    OffsetsBelow(ts, cs, 9);
    var h9 := h7.(sensorLayout := ts[7], chipSelect := StrToULHex(ts[8]));
    PairSteps(s, ts, cs, 7, ts[6], bound, h7, h7.(sensorLayout := ts[7]), h9, 11);
    PairSteps(s, ts, cs, 9, ts[8], bound, h9, h9.(time := ts[9]), TokenHeader(h, ts), 11);
  }

  /** Offsets grow with the token number: the one after token `k + 1` lies below the end of all eleven. */
  lemma OffsetsBelow(ts: seq<string>, cs: seq<nat>, k: nat)
    requires |ts| == |cs| == 11 && k <= 9
    ensures Offset(ts, cs, k + 2) <= Offset(ts, cs, 11)
    decreases 9 - k
  {
    if k < 9 {
      OffsetStep(ts, cs, k + 2);
      OffsetsBelow(ts, cs, k + 1);
    }
  }

  /** Tokens `k` and `k + 1` read into their fields, turning `h` into `h1` and then `h2`. */
  lemma PairSteps(s: string, ts: seq<string>, cs: seq<nat>, k: nat, num: string, bound: int, h: FrameHeader, h1: FrameHeader, h2: FrameHeader, last: nat)
    requires Laid(s, ts, cs) && k + 1 < |ts| && k + 1 < last
    requires Offset(ts, cs, k + 2) < bound
    requires SetField(h, k, ts[k]) == Some(h1) && SetField(h1, k + 1, ts[k + 1]) == Some(h2)
    ensures ParseFields(s, Offset(ts, cs, k), num, bound, h, k, last)
         == ParseFields(s, Offset(ts, cs, k + 2), ts[k + 1], bound, h2, k + 2, last)
  {
    OffsetStep(ts, cs, k + 1);
    ParseTokenAt(s, ts, cs, k, num, bound, h, h1, last);
    ParseTokenAt(s, ts, cs, k + 1, ts[k], bound, h1, h2, last);
  }

  /** The last token `k` of the first `k + 1` read into its field ends the reading. */
  lemma LastStep(s: string, ts: seq<string>, cs: seq<nat>, k: nat, num: string, bound: int, h: FrameHeader, h': FrameHeader)
    requires Laid(s, ts, cs) && k < |ts|
    requires Offset(ts, cs, k + 1) < bound
    requires SetField(h, k, ts[k]) == Some(h')
    ensures ParseFields(s, Offset(ts, cs, k), num, bound, h, k, k + 1) == Done(Offset(ts, cs, k + 1), ts[k], h')
  {
    ParseTokenAt(s, ts, cs, k, num, bound, h, h', k + 1);
  }

  /**
    What a well-formed header decodes to: eleven separated tokens whose first
    three lie inside the 128 pre-read bytes and all of which lie inside the
    declared size (token 2, in 1..2048) fill the record (sequence number less
    one, size, chips, columns, rows, depth from characters 1-2 of token 6,
    sensor layout, chip select in hexadecimal, time stamp, dwell time), give
    code 0 and leave the stream just after the declared size.
  */
  lemma ReadFrameHeaderFields(st: Stream, h: FrameHeader, ts: seq<string>, cs: seq<nat>, rest: string)
    requires Separated(ts, cs) && |ts| == 11 && |rest| > 0 && rest[0] != ','
    requires st.open && 0 < Atoi(ts[2]) <= FrameHdrSizeMax
    requires st.pos + Max(Atoi(ts[2]), PreReadBytes) <= |st.data|
    requires HeaderText(st, Max(Atoi(ts[2]), PreReadBytes)) == Join(ts, cs) + rest
    requires |Join(ts[..3], cs[..3])| < PreReadBytes && |Join(ts, cs)| < Atoi(ts[2])
    ensures ReadFrameHeaderSpec(st, Some(h)) == FrameHeaderRead(0, Some(TokenHeader(h, ts)), st.pos + Atoi(ts[2]), false)
  {
    var pre := Done(Offset(ts, cs, 3), ts[2], PreReadHeader(h, ts));
    PreReadFields(st, h, ts, cs, rest);
    AfterDonePreRead(st, h, pre);
    TextLaid(HeaderText(st, Max(Atoi(ts[2]), PreReadBytes)), ts, cs, rest);
    assert ts[..11] == ts && cs[..11] == cs;
    BodySteps(HeaderText(st, Max(Atoi(ts[2]), PreReadBytes)), h, ts, cs, Atoi(ts[2]));
  }

  /** A pre-read that finds its three tokens hands over to the size check and the body. */
  lemma AfterDonePreRead(st: Stream, h: FrameHeader, pre: Parsed)
    requires st.open && st.pos + PreReadBytes <= |st.data| && pre.Done?
    requires ParseFields(HeaderText(st, PreReadBytes), 0, "", PreReadBytes, h, 0, 3) == pre
    ensures ReadFrameHeaderSpec(st, Some(h)) == AfterPreParse(st, Some(h), pre)
  {
  }
}
