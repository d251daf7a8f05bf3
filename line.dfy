/**
 * Whole lines through the state machine: feeding the bytes of one accepted
 * line to a parser that waits for a type answers PARSER_BUSY twice,
 * PARSE_ERROR for every byte but the last, and PARSE_OK for the last, and
 * publishes the record the line spells.
 */
module SrecLine {
  import opened SrecHex
  import opened SrecRecord
  import opened SrecChecksum
  import opened SrecFsm

  /** Successive calls of `record_parse_sync`, one per byte, with their answers. */
  function Run(p: ParserState, s: seq<byte>): (r: (ParserState, seq<ParseRet>))
    requires Inv(p)
    ensures Inv(r.0) && |r.0.buf| == |p.buf| && |r.1| == |s|
    decreases |s|
  {
    if s == [] then (p, [])
    else
      var prev := Run(p, s[..|s| - 1]);
      var next := ParseByte(prev.0, s[|s| - 1]);
      (next.0, prev.1 + [next.1])
  }

  // ---------------------------------------------------------------------
  // The fields of a line
  // ---------------------------------------------------------------------

  function LineType(line: seq<byte>): RecordType
    requires |line| >= 2
  {
    MapToRecordType(line[0], line[1])
  }

  function LineCount(line: seq<byte>): int
    requires |line| >= 4
  {
    FindRecordCount(line[2..4])
  }

  /**
   * A line the parser takes whole: a valid type, a count the buffer of
   * length `n` can hold, a layout that fits the type, and exactly as many
   * bytes as the count announces, CR LF included.
   */
  ghost predicate Accepted(line: seq<byte>, n: int) {
    |line| >= 4 && LineType(line).Srec?
    && CountAccepted(LineCount(line), n)
    && LayoutOk(LineType(line).digit, LineCount(line))
    && |line| == LineEnd(LineCount(line))
  }

  function LineDigit(line: seq<byte>): Digit
    requires |line| >= 4 && LineType(line).Srec?
  {
    LineType(line).digit
  }

  /** The address, decoded from the characters the address state has seen when it fires. */
  function LineAddress(line: seq<byte>): int
    requires Accepted(line, 255)
  {
    Thresholds(LineDigit(line), LineCount(line));
    FindRecordAddress(line[BYTES_FOR_COUNT..AddrDone(LineDigit(line))])
  }

  function LineData(line: seq<byte>): seq<byte>
    requires Accepted(line, 255)
  {
    var d := LineDigit(line);
    Thresholds(d, LineCount(line));
    line[BYTES_FOR_COUNT + AddrChars(d)..BYTES_FOR_COUNT + AddrChars(d) + DataChars(d, LineCount(line))]
  }

  /** The checksum field, decoded from the characters the checksum state has seen when it fires. */
  function LineCsum(line: seq<byte>): int
    requires Accepted(line, 255)
  {
    var d := LineDigit(line);
    Thresholds(d, LineCount(line));
    HexStringToDec(line[BYTES_FOR_COUNT + AddrChars(d) + DataChars(d, LineCount(line))..CsumDone(d, LineCount(line))])
  }

  /** The record a line spells. */
  function LineRecord(line: seq<byte>): RecordInfo
    requires Accepted(line, 255)
  {
    var d := LineDigit(line);
    RecordInfo(Srec(d), LineCount(line), LineAddress(line), AddrChars(d), LineData(line),
               DataChars(d, LineCount(line)), LineCsum(line))
  }

  /** Whether `verify_checksum` rejects the line, run on what is buffered when the checksum state fires. */
  function LineMismatch(line: seq<byte>): bool
    requires Accepted(line, 255)
  {
    Thresholds(LineDigit(line), LineCount(line));
    !VerifyChecksum(line, CsumDone(LineDigit(line), LineCount(line)))
  }

  /** The answers to the bytes of a line of `n` bytes. */
  function LineRets(n: nat): (r: seq<ParseRet>)
    requires n >= 3
    ensures |r| == n
  {
    [ParserBusy, ParserBusy] + Fill(ParseError, n - 3) + [ParseOk]
  }

  lemma LineRetsAt(n: nat, k: nat)
    requires 3 <= n && k < n
    ensures LineRets(n)[k] == if k < 2 then ParserBusy else if k == n - 1 then ParseOk else ParseError
  {
    if 2 <= k < n - 1 {
      assert LineRets(n)[k] == Fill(ParseError, n - 3)[k - 2];
    }
  }

  // ---------------------------------------------------------------------
  // A line and the record it spells, field by field
  // ---------------------------------------------------------------------

  /** The lengths in `f` agree with its type and count, and its line fits a buffer of `n` bytes. */
  ghost predicate Shape(f: RecordInfo, n: int) {
    f.rtype.Srec? && CountAccepted(f.count, n) && LayoutOk(f.rtype.digit, f.count)
    && f.addressLen == AddrChars(f.rtype.digit) && f.dataLen == DataChars(f.rtype.digit, f.count)
  }

  /** Where each field of a line of record `f` starts, past the type and the count. */
  function DataFrom(f: RecordInfo): int
    requires f.rtype.Srec?
  {
    BYTES_FOR_COUNT + AddrChars(f.rtype.digit)
  }

  function CsumFrom(f: RecordInfo): int
    requires f.rtype.Srec?
  {
    DataFrom(f) + DataChars(f.rtype.digit, f.count)
  }

  /**
   * `line` spells the record `f`, and `m` is the checksum verdict the
   * parser reaches on it: each field of `f` is what its state reads.
   */
  ghost predicate Spells(line: seq<byte>, f: RecordInfo, m: bool, n: int) {
    Shape(f, n) && |line| == LineEnd(f.count)
    && (Thresholds(f.rtype.digit, f.count);
        MapToRecordType(line[0], line[1]) == f.rtype
        && FindRecordCount(line[BYTES_FOR_TYPE..BYTES_FOR_COUNT]) == f.count
        && f.address == FindRecordAddress(line[BYTES_FOR_COUNT..AddrDone(f.rtype.digit)])
        && f.data == line[DataFrom(f)..CsumFrom(f)]
        && f.csum == HexStringToDec(line[CsumFrom(f)..CsumDone(f.rtype.digit, f.count)])
        && m == !VerifyChecksum(line, CsumDone(f.rtype.digit, f.count)))
  }

  /** A line spells only its own record and verdict, and only if it is accepted. */
  lemma SpelledIsAccepted(line: seq<byte>, f: RecordInfo, m: bool, n: int)
    requires ValidLength(n) && Spells(line, f, m, n)
    ensures Accepted(line, n) && Accepted(line, 255)
    ensures f == LineRecord(line) && m == LineMismatch(line)
  {
    var d, count := f.rtype.digit, f.count;
    Thresholds(d, count);
    assert line[BYTES_FOR_TYPE..BYTES_FOR_COUNT] == line[2..4];
    assert LineType(line) == f.rtype && LineCount(line) == count;
    assert Accepted(line, n);
    assert LineDigit(line) == d;
    assert f == RecordInfo(Srec(d), count, LineAddress(line), AddrChars(d), LineData(line),
                           DataChars(d, count), LineCsum(line));
  }

  /** An accepted line spells its own record and verdict. */
  lemma AcceptedSpells(line: seq<byte>, n: int)
    requires ValidLength(n) && Accepted(line, n)
    ensures Accepted(line, 255) && Spells(line, LineRecord(line), LineMismatch(line), n)
  {
    var f := LineRecord(line);
    var d, count := LineDigit(line), LineCount(line);
    Thresholds(d, count);
    assert f.rtype == Srec(d) && f.count == count;
    assert line[BYTES_FOR_TYPE..BYTES_FOR_COUNT] == line[2..4];
    assert Shape(f, n);
  }

  /** Spelling, exactly: the record and verdict of an accepted line, and nothing else. */
  lemma SpellsLineRecord(line: seq<byte>, f: RecordInfo, m: bool, n: int)
    requires ValidLength(n)
    ensures Spells(line, f, m, n) <==>
      Accepted(line, n) && f == LineRecord(line) && m == LineMismatch(line)
  {
    if Spells(line, f, m, n) {
      SpelledIsAccepted(line, f, m, n);
    }
    if Accepted(line, n) && f == LineRecord(line) && m == LineMismatch(line) {
      AcceptedSpells(line, n);
    }
  }

  // The record in `local_record` as the fields of a line arrive, one
  // update per field, in the order the states write them.

  function TypedRecord(f: RecordInfo): RecordInfo {
    ZeroRecord.(rtype := f.rtype)
  }

  function CountedRecord(f: RecordInfo): RecordInfo {
    TypedRecord(f).(count := f.count)
  }

  function LaidRecord(f: RecordInfo): RecordInfo {
    CountedRecord(f).(addressLen := f.addressLen)
  }

  function AddressedRecord(f: RecordInfo): RecordInfo {
    LaidRecord(f).(address := f.address)
  }

  function SizedRecord(f: RecordInfo): RecordInfo {
    AddressedRecord(f).(dataLen := f.dataLen)
  }

  function FilledRecord(f: RecordInfo): RecordInfo {
    SizedRecord(f).(data := f.data)
  }

  // ---------------------------------------------------------------------
  // The parser after the first k bytes of a line
  // ---------------------------------------------------------------------

  /** The buffer after the first `k` bytes of the line: those bytes, then what was there before. */
  function Prefix(p: ParserState, line: seq<byte>, k: nat): seq<byte>
    requires k <= |line| <= |p.buf|
  {
    line[..k] + p.buf[k..]
  }

  /** The parser after the first `k` bytes of a line that spells `f` with verdict `m`. */
  function Snap(p: ParserState, line: seq<byte>, f: RecordInfo, m: bool, k: nat): ParserState
    requires f.rtype.Srec? && k <= |line| <= |p.buf|
  {
    var d, count := f.rtype.digit, f.count;
    var buf := Prefix(p, line, k);
    if k < BYTES_FOR_TYPE then
      ParserState(GetRecordType, buf, k, p.local, p.info, p.csumMismatch)
    else if k < BYTES_FOR_COUNT then
      ParserState(GetRecordCount, buf, k, TypedRecord(f), p.info, p.csumMismatch)
    else if k < AddrDone(d) then
      ParserState(GetRecordAddress, buf, k, if k == BYTES_FOR_COUNT then CountedRecord(f) else LaidRecord(f),
                  p.info, p.csumMismatch)
    else if k < DataDone(d, count) then
      ParserState(GetRecordData, buf, k, if k == AddrDone(d) then AddressedRecord(f) else SizedRecord(f),
                  p.info, p.csumMismatch)
    else if k < CsumDone(d, count) then
      ParserState(GetRecordChecksum, buf, k, FilledRecord(f), p.info, p.csumMismatch)
    else
      ParserState(GetStreamEnd, buf, k, f, p.info, m)
  }

  /** The state after the last byte: `f` published, everything else reset. */
  function Done(p: ParserState, f: RecordInfo, m: bool): ParserState {
    ParserState(GetRecordType, Zeros(|p.buf|), 0, ZeroRecord, f, m)
  }

  /** The buffer holds NULs past the type and the count, as it does while the parser waits for a type. */
  ghost predicate Blank(p: ParserState) {
    forall i :: BYTES_FOR_COUNT <= i < |p.buf| ==> p.buf[i] == 0
  }

  // Snap, phase by phase

  lemma SnapData(p: ParserState, line: seq<byte>, f: RecordInfo, m: bool, k: nat)
    requires f.rtype.Srec? && k <= |line| <= |p.buf|
    requires AddrDone(f.rtype.digit) <= k < DataDone(f.rtype.digit, f.count)
    ensures Snap(p, line, f, m, k) ==
      ParserState(GetRecordData, Prefix(p, line, k), k, if k == AddrDone(f.rtype.digit) then AddressedRecord(f) else SizedRecord(f),
                  p.info, p.csumMismatch)
  {
  }

  lemma SnapChecksum(p: ParserState, line: seq<byte>, f: RecordInfo, m: bool, k: nat)
    requires f.rtype.Srec? && k <= |line| <= |p.buf|
    requires DataDone(f.rtype.digit, f.count) <= k < CsumDone(f.rtype.digit, f.count)
    ensures Snap(p, line, f, m, k) == ParserState(GetRecordChecksum, Prefix(p, line, k), k, FilledRecord(f), p.info, p.csumMismatch)
  {
  }

  lemma SnapEnd(p: ParserState, line: seq<byte>, f: RecordInfo, m: bool, k: nat)
    requires f.rtype.Srec? && k <= |line| <= |p.buf|
    requires CsumDone(f.rtype.digit, f.count) <= k
    ensures Snap(p, line, f, m, k) == ParserState(GetStreamEnd, Prefix(p, line, k), k, f, p.info, m)
  {
  }

  /** Writing the next byte of the line extends the prefix in the buffer. */
  lemma BufStep(p: ParserState, line: seq<byte>, k: nat)
    requires k < |line| <= |p.buf|
    ensures Prefix(p, line, k)[k := line[k]] == Prefix(p, line, k + 1)
  {
  }

  lemma PrefixSlice(p: ParserState, line: seq<byte>, k: nat, i: nat, j: nat)
    requires i <= j <= k <= |line| <= |p.buf|
    ensures Prefix(p, line, k)[i..j] == line[i..j]
  {
  }

  /** Reading a field from `from` on stops at the end of the prefix, where the buffer holds a NUL. */
  lemma ReadsPrefix(p: ParserState, line: seq<byte>, from: nat, k: nat)
    requires Blank(p) && BYTES_FOR_COUNT <= k && from <= k <= |line| <= |p.buf|
    ensures HexStringToDec(Prefix(p, line, k)[from..]) == HexStringToDec(line[from..k])
  {
    assert Prefix(p, line, k)[from..] == line[from..k] + p.buf[k..];
    HexStringToDecStopsAtNul(line[from..k], p.buf[k..]);
  }

  /** The buffer once the byte that completes the address field is written. */
  lemma AddressBuf(p: ParserState, line: seq<byte>, k: nat, address: int)
    requires Blank(p) && BYTES_FOR_COUNT <= k < |line| <= |p.buf|
    requires address == FindRecordAddress(line[BYTES_FOR_COUNT..k + 1])
    ensures Prefix(p, line, k)[k := line[k]] == Prefix(p, line, k + 1)
    ensures FindRecordAddress(Prefix(p, line, k)[k := line[k]][BYTES_FOR_COUNT..]) == address
  {
    BufStep(p, line, k);
    ReadsPrefix(p, line, BYTES_FOR_COUNT, k + 1);
  }

  /** The buffer once the byte that completes the data field is written. */
  lemma DataBuf(p: ParserState, line: seq<byte>, k: nat, from: nat, to: nat)
    requires from <= to <= k + 1 <= |line| <= |p.buf|
    ensures Prefix(p, line, k)[k := line[k]] == Prefix(p, line, k + 1)
    ensures Prefix(p, line, k)[k := line[k]][from..to] == line[from..to]
  {
    BufStep(p, line, k);
    PrefixSlice(p, line, k + 1, from, to);
  }

  /** The buffer once the byte that completes the checksum field is written. */
  lemma ChecksumBuf(p: ParserState, line: seq<byte>, k: nat, from: nat)
    requires Blank(p) && BYTES_FOR_COUNT <= k && from <= k + 1 <= |line| <= |p.buf| && 2 <= k + 1
    ensures Prefix(p, line, k)[k := line[k]] == Prefix(p, line, k + 1)
    ensures HexStringToDec(Prefix(p, line, k)[k := line[k]][from..]) == HexStringToDec(line[from..k + 1])
    ensures VerifyChecksum(Prefix(p, line, k)[k := line[k]], k + 1) == VerifyChecksum(line, k + 1)
  {
    BufStep(p, line, k);
    ReadsPrefix(p, line, from, k + 1);
    PrefixSlice(p, line, k + 1, 0, k + 1);
    VerifyChecksumPrefix(Prefix(p, line, k + 1), line, k + 1);
  }

  // ---------------------------------------------------------------------
  // One lemma per phase: the next byte takes Snap(k) to Snap(k + 1)
  // ---------------------------------------------------------------------

  lemma TypePhase(p: ParserState, line: seq<byte>, f: RecordInfo, m: bool, k: nat, s: ParserState)
    requires Ready(p) && Shape(f, |p.buf|) && |line| == LineEnd(f.count) && k < BYTES_FOR_TYPE
    requires MapToRecordType(line[0], line[1]) == f.rtype
    requires Inv(s) && s == Snap(p, line, f, m, k)
    ensures TypeStep(s, line[k]) == (Snap(p, line, f, m, k + 1), ParserBusy)
  {
    Thresholds(f.rtype.digit, f.count);
    BufStep(p, line, k);
    assert s == ParserState(GetRecordType, Prefix(p, line, k), k, p.local, p.info, p.csumMismatch);
    var q := Written(s, line[k]);
    if k == 0 {
      assert TypeStep(s, line[k]) == (q, ParserBusy);
      assert q == Snap(p, line, f, m, 1);
    } else {
      assert q.buf[0] == line[0] && q.buf[1] == line[1];
      assert p.local == ZeroRecord.(rtype := p.local.rtype);
      assert TypeStep(s, line[k]) == (q.(local := TypedRecord(f), fsm := GetRecordCount), ParserBusy);
      assert Snap(p, line, f, m, 2) == ParserState(GetRecordCount, Prefix(p, line, 2), 2, TypedRecord(f), p.info, p.csumMismatch);
    }
  }

  lemma CountPhase(p: ParserState, line: seq<byte>, f: RecordInfo, m: bool, k: nat, s: ParserState)
    requires Blank(p) && Shape(f, |p.buf|) && |line| == LineEnd(f.count) && BYTES_FOR_TYPE <= k < BYTES_FOR_COUNT
    requires FindRecordCount(line[BYTES_FOR_TYPE..BYTES_FOR_COUNT]) == f.count
    requires Inv(s) && s == Snap(p, line, f, m, k)
    ensures CountStep(s, line[k]) == (Snap(p, line, f, m, k + 1), ParseError)
  {
    Thresholds(f.rtype.digit, f.count);
    BufStep(p, line, k);
    assert s == ParserState(GetRecordCount, Prefix(p, line, k), k, TypedRecord(f), p.info, p.csumMismatch);
    var q := Written(s, line[k]);
    if k == 2 {
      assert CountStep(s, line[k]) == (q, ParseError);
      assert q == Snap(p, line, f, m, 3);
    } else {
      ReadsPrefix(p, line, BYTES_FOR_TYPE, BYTES_FOR_COUNT);
      assert FindRecordCount(q.buf[BYTES_FOR_TYPE..]) == f.count;
      assert CountStep(s, line[k]) == (q.(local := CountedRecord(f), fsm := GetRecordAddress), ParseError);
      assert Snap(p, line, f, m, 4) == ParserState(GetRecordAddress, Prefix(p, line, 4), 4, CountedRecord(f), p.info, p.csumMismatch);
    }
  }

  /** A byte inside the address field, or the one that completes it. */
  lemma AddressPhase(p: ParserState, line: seq<byte>, f: RecordInfo, m: bool, k: nat, s: ParserState)
    requires Blank(p) && Shape(f, |p.buf|) && |line| == LineEnd(f.count)
    requires BYTES_FOR_COUNT <= k < AddrDone(f.rtype.digit)
    requires k + 1 == AddrDone(f.rtype.digit) ==> f.address == FindRecordAddress(line[BYTES_FOR_COUNT..k + 1])
    requires Inv(s) && s == Snap(p, line, f, m, k)
    ensures AddressStep(s, line[k]) == (Snap(p, line, f, m, k + 1), ParseError)
  {
    var d := f.rtype.digit;
    Thresholds(d, f.count);
    var local := if k == BYTES_FOR_COUNT then CountedRecord(f) else LaidRecord(f);
    assert s == ParserState(GetRecordAddress, Prefix(p, line, k), k, local, p.info, p.csumMismatch);
    assert local.(addressLen := AddrChars(d)) == LaidRecord(f);
    if k + 1 < AddrDone(d) {
      AddressMid(p, line, f, m, k, s, local);
    } else {
      AddressFires(p, line, f, m, k, s, local);
      SnapData(p, line, f, m, k + 1);
    }
  }

  lemma AddressMid(p: ParserState, line: seq<byte>, f: RecordInfo, m: bool, k: nat, s: ParserState, local: RecordInfo)
    requires Blank(p) && Shape(f, |p.buf|) && |line| == LineEnd(f.count)
    requires BYTES_FOR_COUNT <= k && k + 1 < AddrDone(f.rtype.digit)
    requires local.(addressLen := AddrChars(f.rtype.digit)) == LaidRecord(f)
    requires Inv(s) && s == ParserState(GetRecordAddress, Prefix(p, line, k), k, local, p.info, p.csumMismatch)
    ensures AddressStep(s, line[k]) == (Snap(p, line, f, m, k + 1), ParseError)
  {
    Thresholds(f.rtype.digit, f.count);
    BufStep(p, line, k);
    var q := Written(s, line[k]).(local := LaidRecord(f));
    assert AddressStep(s, line[k]) == (q, ParseError);
    assert q == Snap(p, line, f, m, k + 1);
  }

  lemma AddressFires(p: ParserState, line: seq<byte>, f: RecordInfo, m: bool, k: nat, s: ParserState, local: RecordInfo)
    requires Blank(p) && Shape(f, |p.buf|) && |line| == LineEnd(f.count)
    requires BYTES_FOR_COUNT <= k && k + 1 == AddrDone(f.rtype.digit)
    requires f.address == FindRecordAddress(line[BYTES_FOR_COUNT..k + 1])
    requires local.(addressLen := AddrChars(f.rtype.digit)) == LaidRecord(f)
    requires Inv(s) && s == ParserState(GetRecordAddress, Prefix(p, line, k), k, local, p.info, p.csumMismatch)
    ensures AddressStep(s, line[k]) ==
      (ParserState(GetRecordData, Prefix(p, line, k + 1), k + 1, AddressedRecord(f), p.info, p.csumMismatch), ParseError)
  {
    Thresholds(f.rtype.digit, f.count);
    AddressBuf(p, line, k, f.address);
    assert s.local.rtype == f.rtype && s.local.count == f.count;
    AddressFiresStep(s, line[k]);
    var q := Written(s, line[k]);
    assert q == ParserState(GetRecordAddress, Prefix(p, line, k + 1), k + 1, local, p.info, p.csumMismatch);
    assert s.local.(addressLen := AddrChars(f.rtype.digit), address := FindRecordAddress(q.buf[BYTES_FOR_COUNT..]))
      == AddressedRecord(f);
  }

  /** A byte inside the data field, or the one that completes it. */
  lemma DataPhase(p: ParserState, line: seq<byte>, f: RecordInfo, m: bool, k: nat, s: ParserState)
    requires Blank(p) && Shape(f, |p.buf|) && |line| == LineEnd(f.count)
    requires AddrDone(f.rtype.digit) <= k < DataDone(f.rtype.digit, f.count)
    requires k + 1 == DataDone(f.rtype.digit, f.count) ==> DataFrom(f) <= CsumFrom(f) <= |line| && f.data == line[DataFrom(f)..CsumFrom(f)]
    requires Inv(s) && s == Snap(p, line, f, m, k)
    ensures DataStep(s, line[k]) == (Snap(p, line, f, m, k + 1), ParseError)
  {
    var d := f.rtype.digit;
    Thresholds(d, f.count);
    var local := if k == AddrDone(d) then AddressedRecord(f) else SizedRecord(f);
    assert s == ParserState(GetRecordData, Prefix(p, line, k), k, local, p.info, p.csumMismatch);
    assert local.(dataLen := f.dataLen) == SizedRecord(f);
    if k + 1 < DataDone(d, f.count) {
      DataMid(p, line, f, m, k, s, local);
    } else {
      DataFires(p, line, f, m, k, s, local);
      SnapChecksum(p, line, f, m, k + 1);
    }
  }

  lemma DataMid(p: ParserState, line: seq<byte>, f: RecordInfo, m: bool, k: nat, s: ParserState, local: RecordInfo)
    requires Blank(p) && Shape(f, |p.buf|) && |line| == LineEnd(f.count)
    requires AddrDone(f.rtype.digit) <= k && k + 1 < DataDone(f.rtype.digit, f.count)
    requires local.(dataLen := f.dataLen) == SizedRecord(f)
    requires Inv(s) && s == ParserState(GetRecordData, Prefix(p, line, k), k, local, p.info, p.csumMismatch)
    ensures DataStep(s, line[k]) == (Snap(p, line, f, m, k + 1), ParseError)
  {
    Thresholds(f.rtype.digit, f.count);
    BufStep(p, line, k);
    var q := Written(s, line[k]).(local := SizedRecord(f));
    assert DataStep(s, line[k]) == (q, ParseError);
    assert q == Snap(p, line, f, m, k + 1);
  }

  lemma DataFires(p: ParserState, line: seq<byte>, f: RecordInfo, m: bool, k: nat, s: ParserState, local: RecordInfo)
    requires Blank(p) && Shape(f, |p.buf|) && |line| == LineEnd(f.count)
    requires AddrDone(f.rtype.digit) <= k && k + 1 == DataDone(f.rtype.digit, f.count)
    requires DataFrom(f) <= CsumFrom(f) <= |line| && f.data == line[DataFrom(f)..CsumFrom(f)]
    requires local.(dataLen := f.dataLen) == SizedRecord(f)
    requires Inv(s) && s == ParserState(GetRecordData, Prefix(p, line, k), k, local, p.info, p.csumMismatch)
    ensures DataStep(s, line[k]) ==
      (ParserState(GetRecordChecksum, Prefix(p, line, k + 1), k + 1, FilledRecord(f), p.info, p.csumMismatch), ParseError)
  {
    Thresholds(f.rtype.digit, f.count);
    DataBuf(p, line, k, DataFrom(f), CsumFrom(f));
    assert s.local.addressLen == f.addressLen && s.local.rtype == f.rtype && s.local.count == f.count;
    DataFiresStep(s, line[k], DataFrom(f), f.dataLen);
    var q := Written(s, line[k]);
    assert q == ParserState(GetRecordData, Prefix(p, line, k + 1), k + 1, local, p.info, p.csumMismatch);
    assert s.local.(dataLen := f.dataLen, data := q.buf[DataFrom(f)..DataFrom(f) + f.dataLen]) == FilledRecord(f);
  }

  /** A byte of the checksum field, or the one that completes it. */
  lemma ChecksumPhase(p: ParserState, line: seq<byte>, f: RecordInfo, m: bool, k: nat, s: ParserState)
    requires Blank(p) && Shape(f, |p.buf|) && |line| == LineEnd(f.count)
    requires DataDone(f.rtype.digit, f.count) <= k < CsumDone(f.rtype.digit, f.count)
    requires k + 1 == CsumDone(f.rtype.digit, f.count) ==>
      CsumFrom(f) <= k + 1 && f.csum == HexStringToDec(line[CsumFrom(f)..k + 1]) && m == !VerifyChecksum(line, k + 1)
    requires Inv(s) && s == Snap(p, line, f, m, k)
    ensures ChecksumStep(s, line[k]) == (Snap(p, line, f, m, k + 1), ParseError)
  {
    var d := f.rtype.digit;
    Thresholds(d, f.count);
    assert s == ParserState(GetRecordChecksum, Prefix(p, line, k), k, FilledRecord(f), p.info, p.csumMismatch);
    if k + 1 < CsumDone(d, f.count) {
      ChecksumMid(p, line, f, m, k, s);
    } else {
      ChecksumFires(p, line, f, m, k, s);
      SnapEnd(p, line, f, m, k + 1);
    }
  }

  lemma ChecksumMid(p: ParserState, line: seq<byte>, f: RecordInfo, m: bool, k: nat, s: ParserState)
    requires Blank(p) && Shape(f, |p.buf|) && |line| == LineEnd(f.count)
    requires DataDone(f.rtype.digit, f.count) <= k && k + 1 < CsumDone(f.rtype.digit, f.count)
    requires Inv(s) && s == ParserState(GetRecordChecksum, Prefix(p, line, k), k, FilledRecord(f), p.info, p.csumMismatch)
    ensures ChecksumStep(s, line[k]) == (Snap(p, line, f, m, k + 1), ParseError)
  {
    Thresholds(f.rtype.digit, f.count);
    BufStep(p, line, k);
    var q := Written(s, line[k]);
    assert ChecksumStep(s, line[k]) == (q, ParseError);
    assert q == Snap(p, line, f, m, k + 1);
  }

  lemma ChecksumFires(p: ParserState, line: seq<byte>, f: RecordInfo, m: bool, k: nat, s: ParserState)
    requires Blank(p) && Shape(f, |p.buf|) && |line| == LineEnd(f.count)
    requires DataDone(f.rtype.digit, f.count) <= k && k + 1 == CsumDone(f.rtype.digit, f.count)
    requires CsumFrom(f) <= k + 1 && f.csum == HexStringToDec(line[CsumFrom(f)..k + 1]) && m == !VerifyChecksum(line, k + 1)
    requires Inv(s) && s == ParserState(GetRecordChecksum, Prefix(p, line, k), k, FilledRecord(f), p.info, p.csumMismatch)
    ensures ChecksumStep(s, line[k]) == (ParserState(GetStreamEnd, Prefix(p, line, k + 1), k + 1, f, p.info, m), ParseError)
  {
    Thresholds(f.rtype.digit, f.count);
    ChecksumBuf(p, line, k, CsumFrom(f));
    assert BYTES_FOR_COUNT + s.local.addressLen + s.local.dataLen == CsumFrom(f);
    ChecksumFiresStep(s, line[k], CsumFrom(f));
    var q := Written(s, line[k]);
    assert q == ParserState(GetRecordChecksum, Prefix(p, line, k + 1), k + 1, FilledRecord(f), p.info, p.csumMismatch);
    assert s.local.(csum := HexStringToDec(q.buf[CsumFrom(f)..])) == f;
  }

  lemma EndPhase(p: ParserState, line: seq<byte>, f: RecordInfo, m: bool, k: nat, s: ParserState)
    requires Blank(p) && Shape(f, |p.buf|) && |line| == LineEnd(f.count)
    requires CsumDone(f.rtype.digit, f.count) <= k < |line|
    requires Inv(s) && s == Snap(p, line, f, m, k)
    ensures EndStep(s, line[k]) ==
      if k + 1 < |line| then (Snap(p, line, f, m, k + 1), ParseError) else (Done(p, f, m), ParseOk)
  {
    Thresholds(f.rtype.digit, f.count);
    BufStep(p, line, k);
    assert s == ParserState(GetStreamEnd, Prefix(p, line, k), k, f, p.info, m);
    if k + 1 < |line| {
      assert EndStep(s, line[k]) == (Written(s, line[k]), ParseError);
      assert Snap(p, line, f, m, k + 1) == ParserState(GetStreamEnd, Prefix(p, line, k + 1), k + 1, f, p.info, m);
      assert Written(s, line[k]) == Snap(p, line, f, m, k + 1);
    } else {
      assert |s.buf| == |p.buf|;
      assert EndStep(s, line[k]) == (Done(p, f, m), ParseOk);
    }
  }

  /** The bytes of the type, the count and the address field. */
  lemma HeadStep(p: ParserState, line: seq<byte>, f: RecordInfo, m: bool, k: nat, s: ParserState)
    requires Ready(p) && Spells(line, f, m, |p.buf|) && k < AddrDone(f.rtype.digit)
    requires Inv(s) && s == Snap(p, line, f, m, k)
    ensures ParseByte(s, line[k]) == (Snap(p, line, f, m, k + 1), if k < BYTES_FOR_TYPE then ParserBusy else ParseError)
  {
    var b := line[k];
    Thresholds(f.rtype.digit, f.count);
    if k < BYTES_FOR_TYPE {
      TypePhase(p, line, f, m, k, s);
      assert ParseByte(s, b) == TypeStep(s, b);
    } else if k < BYTES_FOR_COUNT {
      CountPhase(p, line, f, m, k, s);
      assert ParseByte(s, b) == CountStep(s, b);
    } else {
      AddressPhase(p, line, f, m, k, s);
      assert ParseByte(s, b) == AddressStep(s, b);
    }
  }

  /** The bytes of the data field. */
  lemma DataByte(p: ParserState, line: seq<byte>, f: RecordInfo, m: bool, k: nat, s: ParserState)
    requires Ready(p) && Spells(line, f, m, |p.buf|)
    requires AddrDone(f.rtype.digit) <= k < DataDone(f.rtype.digit, f.count)
    requires Inv(s) && s == Snap(p, line, f, m, k)
    ensures ParseByte(s, line[k]) == (Snap(p, line, f, m, k + 1), ParseError)
  {
    Thresholds(f.rtype.digit, f.count);
    DataPhase(p, line, f, m, k, s);
    assert ParseByte(s, line[k]) == DataStep(s, line[k]);
  }

  /** The bytes of the checksum field. */
  lemma ChecksumByte(p: ParserState, line: seq<byte>, f: RecordInfo, m: bool, k: nat, s: ParserState)
    requires Ready(p) && Spells(line, f, m, |p.buf|)
    requires DataDone(f.rtype.digit, f.count) <= k < CsumDone(f.rtype.digit, f.count)
    requires Inv(s) && s == Snap(p, line, f, m, k)
    ensures ParseByte(s, line[k]) == (Snap(p, line, f, m, k + 1), ParseError)
  {
    Thresholds(f.rtype.digit, f.count);
    ChecksumPhase(p, line, f, m, k, s);
    assert ParseByte(s, line[k]) == ChecksumStep(s, line[k]);
  }

  /** CR LF, up to the last byte. */
  lemma TrailStep(p: ParserState, line: seq<byte>, f: RecordInfo, m: bool, k: nat, s: ParserState)
    requires Ready(p) && Shape(f, |p.buf|) && |line| == LineEnd(f.count)
    requires CsumDone(f.rtype.digit, f.count) <= k && k + 1 < |line|
    requires Inv(s) && s == Snap(p, line, f, m, k)
    ensures ParseByte(s, line[k]) == (Snap(p, line, f, m, k + 1), ParseError)
  {
    Thresholds(f.rtype.digit, f.count);
    EndPhase(p, line, f, m, k, s);
    assert ParseByte(s, line[k]) == EndStep(s, line[k]);
  }

  /** Every byte but the last takes Snap(k) to Snap(k + 1). */
  lemma PhaseStep(p: ParserState, line: seq<byte>, f: RecordInfo, m: bool, k: nat, s: ParserState)
    requires Ready(p) && Spells(line, f, m, |p.buf|) && k + 1 < |line|
    requires Inv(s) && s == Snap(p, line, f, m, k)
    ensures ParseByte(s, line[k]) == (Snap(p, line, f, m, k + 1), LineRets(|line|)[k])
  {
    LineRetsAt(|line|, k);
    Thresholds(f.rtype.digit, f.count);
    if k < AddrDone(f.rtype.digit) {
      HeadStep(p, line, f, m, k, s);
    } else if k < DataDone(f.rtype.digit, f.count) {
      DataByte(p, line, f, m, k, s);
    } else if k < CsumDone(f.rtype.digit, f.count) {
      ChecksumByte(p, line, f, m, k, s);
    } else {
      TrailStep(p, line, f, m, k, s);
    }
  }

  /** The last byte publishes the record. */
  lemma LastStep(p: ParserState, line: seq<byte>, f: RecordInfo, m: bool)
    requires Ready(p) && Spells(line, f, m, |p.buf|)
    ensures var s := Snap(p, line, f, m, |line| - 1);
      Inv(s) ==> ParseByte(s, line[|line| - 1]) == (Done(p, f, m), ParseOk)
  {
    var s := Snap(p, line, f, m, |line| - 1);
    if Inv(s) {
      Thresholds(f.rtype.digit, f.count);
      EndPhase(p, line, f, m, |line| - 1, s);
      assert ParseByte(s, line[|line| - 1]) == EndStep(s, line[|line| - 1]);
    }
  }

  lemma TakeSnoc<T>(s: seq<T>, k: nat)
    requires 0 < k <= |s|
    ensures s[..k - 1] + [s[k - 1]] == s[..k]
  {
  }

  lemma TakeAll<T>(s: seq<T>)
    ensures s[..|s|] == s
  {
  }

  /** Before the first byte the snapshot is the parser itself. */
  lemma SnapStart(p: ParserState, line: seq<byte>, f: RecordInfo, m: bool)
    requires Ready(p) && Shape(f, |p.buf|) && |line| == LineEnd(f.count)
    ensures Snap(p, line, f, m, 0) == p
  {
    assert Prefix(p, line, 0) == p.buf;
  }

  lemma {:induction false} RunPrefix(p: ParserState, line: seq<byte>, f: RecordInfo, m: bool, k: nat)
    requires Ready(p) && Spells(line, f, m, |p.buf|) && k < |line|
    ensures Run(p, line[..k]) == (Snap(p, line, f, m, k), LineRets(|line|)[..k])
  {
    if k == 0 {
      SnapStart(p, line, f, m);
    } else {
      RunPrefix(p, line, f, m, k - 1);
      var prev := Run(p, line[..k - 1]);
      RunSnoc(p, line, k);
      PhaseStep(p, line, f, m, k - 1, prev.0);
      TakeSnoc(LineRets(|line|), k);
    }
  }

  /** Feeding one more byte of the line. */
  lemma RunSnoc(p: ParserState, line: seq<byte>, k: nat)
    requires Inv(p) && 0 < k <= |line|
    ensures var prev := Run(p, line[..k - 1]);
      Run(p, line[..k]) == (ParseByte(prev.0, line[k - 1]).0, prev.1 + [ParseByte(prev.0, line[k - 1]).1])
  {
    assert line[..k][..k - 1] == line[..k - 1] && line[..k][k - 1] == line[k - 1];
  }

  /**
   * A line that spells `f` with checksum verdict `m`, fed to a parser that
   * waits for a type: the answers are PARSER_BUSY twice, PARSE_ERROR up to
   * the last byte and PARSE_OK for it; `f` is published with the verdict,
   * and the parser is back at its initial state.
   */
  lemma RunSpelledLine(p: ParserState, line: seq<byte>, f: RecordInfo, m: bool)
    requires Ready(p) && Spells(line, f, m, |p.buf|)
    ensures Run(p, line) == (Done(p, f, m), LineRets(|line|))
  {
    var n := |line|;
    RunButLast(p, line, f, m);
    RunSnoc(p, line, n);
    TakeAll(line);
    TakeAll(LineRets(n));
    TakeSnoc(LineRets(n), n);
    LineRetsAt(n, n - 1);
  }

  /** All bytes but the last, then the last. */
  lemma RunButLast(p: ParserState, line: seq<byte>, f: RecordInfo, m: bool)
    requires Ready(p) && Spells(line, f, m, |p.buf|)
    ensures var prev := Run(p, line[..|line| - 1]);
      prev.1 == LineRets(|line|)[..|line| - 1]
      && ParseByte(prev.0, line[|line| - 1]) == (Done(p, f, m), ParseOk)
  {
    LastStep(p, line, f, m);
    RunPrefix(p, line, f, m, |line| - 1);
  }

  /** Every accepted line is parsed into its own record. */
  lemma ParseLine(p: ParserState, line: seq<byte>)
    requires Ready(p) && Accepted(line, |p.buf|)
    ensures Run(p, line) == (Done(p, LineRecord(line), LineMismatch(line)), LineRets(|line|))
  {
    AcceptedSpells(line, |p.buf|);
    RunSpelledLine(p, line, LineRecord(line), LineMismatch(line));
  }
}
