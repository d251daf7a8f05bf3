/**
 * The state machine of `record_parse_sync` as a function on values: the
 * statics `parser_fsm`, `byte_cnt`, `record_buffer`, `local_record` and the
 * published `record_info` form a `ParserState`, and `ParseByte` is one call.
 * The class in the parser module runs the same machine in place and is
 * proved equal to it.
 */
module SrecFsm {
  import opened SrecHex
  import opened SrecRecord
  import opened SrecChecksum

  // The field widths of `parser.h`, cumulative where the code uses them so:
  // the count is read at offset BYTES_FOR_TYPE and the address at offset
  // BYTES_FOR_COUNT.
  const BYTES_FOR_TYPE := 2
  const BYTES_FOR_COUNT := 4
  const BYTES_FOR_CSUM := 2
  const BYTES_FOR_STREAM_END := 2

  /** `t_parser_fsm`. */
  datatype Fsm =
    | GetRecordType
    | GetRecordCount
    | GetRecordAddress
    | GetRecordData
    | GetRecordChecksum
    | GetStreamEnd

  /** `t_parser_ret`. */
  datatype ParseRet = ParseOk | ParseError | ParserBusy

  /**
   * The statics of the parser. `buf` is `record_buffer`, whose length is
   * `RECORD_LENGTH`; `cnt` is `byte_cnt`; `local` is `local_record`; `info`
   * is `record_info`. `csumMismatch` records the outcome of the last
   * checksum check, which the source only logs.
   */
  datatype ParserState = ParserState(
    fsm: Fsm,
    buf: seq<byte>,
    cnt: nat,
    local: RecordInfo,
    info: RecordInfo,
    csumMismatch: bool)

  /**
   * The buffer lengths the model admits: the count field is decoded up to a
   * NUL, so the buffer needs a fifth byte; `byte_cnt` is an `unsigned char`,
   * so it must not pass 255.
   */
  predicate ValidLength(n: int) {
    BYTES_FOR_COUNT < n <= 255
  }

  function Max(a: int, b: int): int {
    if a < b then b else a
  }

  /** Characters of the address field (`address_len`). */
  function AddrChars(d: Digit): int {
    2 * RecAddLen(d)
  }

  /** Characters of the data field (`data_len`): the count less the address bytes and the checksum byte, doubled. */
  function DataChars(d: Digit, count: int): int {
    2 * (count - (RecAddLen(d) + 1))
  }

  /** Bytes of a whole line: type, count field, `count` character pairs, then CR LF. */
  function LineEnd(count: int): int {
    BYTES_FOR_TYPE + 2 + 2 * count + BYTES_FOR_STREAM_END
  }

  /** The count check as written: non-zero and at most `RECORD_LENGTH`. */
  predicate CountAcceptedAsWritten(count: int, n: int) {
    count != 0 && count <= n
  }

  /** The count check of the model: also, the whole line must fit in the buffer. */
  predicate CountAccepted(count: int, n: int) {
    CountAcceptedAsWritten(count, n) && LineEnd(count) <= n
  }

  /**
   * The check as written lets a line through that cannot fit: the count
   * field "FF" reads as 255, which passes with `RECORD_LENGTH` 255, yet
   * such a line is 516 bytes long, so `record_buffer[byte_cnt]` would be
   * written past its end. The model's check refuses it.
   */
  lemma CountCheckAsWrittenOverruns(field: seq<byte>)
    requires field == [0x46, 0x46]
    ensures FindRecordCount(field) == 255
    ensures CountAcceptedAsWritten(255, 255) && LineEnd(255) == 516
    ensures !CountAccepted(255, 255)
  {
    assert field == [field[0], field[1]];
    HexPairValue(field[0], field[1]);
    HexStringToDecOfDigits(field);
  }

  /**
   * The address length and the data length are defined: the type is not S4,
   * and the count covers at least the address and the checksum.
   */
  predicate LayoutOk(d: Digit, count: int) {
    d != 4 && count >= RecAddLen(d) + 1
  }

  // The value of `byte_cnt` at which each field state hands over to the
  // next. Every state consumes at least one byte, so an empty field still
  // costs one.
  function AddrDone(d: Digit): int {
    Max(BYTES_FOR_COUNT + 1, BYTES_FOR_COUNT + AddrChars(d))
  }

  function DataDone(d: Digit, count: int): int {
    Max(AddrDone(d) + 1, BYTES_FOR_COUNT + AddrChars(d) + DataChars(d, count))
  }

  function CsumDone(d: Digit, count: int): int {
    Max(DataDone(d, count) + 1, BYTES_FOR_COUNT + AddrChars(d) + DataChars(d, count) + BYTES_FOR_CSUM)
  }

  /**
   * With a well-formed layout the fields end in order, and the stream-end
   * threshold `4 + address + data + 2 + 2` is the line length.
   */
  lemma Thresholds(d: Digit, count: int)
    requires LayoutOk(d, count)
    ensures AddrChars(d) == 0 || AddrChars(d) >= 4
    ensures DataChars(d, count) >= 0
    ensures 4 < AddrDone(d) < DataDone(d, count) < CsumDone(d, count) < LineEnd(count)
    ensures BYTES_FOR_COUNT + AddrChars(d) + DataChars(d, count) + BYTES_FOR_CSUM + BYTES_FOR_STREAM_END == LineEnd(count)
    ensures AddrChars(d) > 0 ==> AddrDone(d) == 4 + AddrChars(d) && CsumDone(d, count) == LineEnd(count) - 2
  {
    AddressFieldChars();
  }

  /** What holds between any two calls. */
  ghost predicate Inv(p: ParserState) {
    var n := |p.buf|;
    ValidLength(n) && p.cnt < n
    // hex_string_to_dec reads up to a NUL: everything past the field being collected is zero
    && (forall i :: BYTES_FOR_COUNT <= i < n && p.cnt <= i ==> p.buf[i] == 0)
    && match p.fsm
       case GetRecordType =>
         p.cnt < BYTES_FOR_TYPE && p.local == ZeroRecord.(rtype := p.local.rtype)
       case GetRecordCount =>
         p.cnt < BYTES_FOR_COUNT && p.local.rtype.Srec?
       case GetRecordAddress =>
         Collecting(p) && BYTES_FOR_COUNT <= p.cnt < AddrDone(p.local.rtype.digit)
         && (p.cnt > BYTES_FOR_COUNT ==> Laid(p))
       case GetRecordData =>
         Collecting(p) && Laid(p)
         && AddrDone(p.local.rtype.digit) <= p.cnt < DataDone(p.local.rtype.digit, p.local.count)
       case GetRecordChecksum =>
         Collecting(p) && Laid(p) && Sized(p)
         && DataDone(p.local.rtype.digit, p.local.count) <= p.cnt < CsumDone(p.local.rtype.digit, p.local.count)
       case GetStreamEnd =>
         Collecting(p) && Laid(p) && Sized(p)
         && CsumDone(p.local.rtype.digit, p.local.count) <= p.cnt < LineEnd(p.local.count)
  }

  /** Type and count accepted: the line is being collected. */
  ghost predicate Collecting(p: ParserState) {
    p.local.rtype.Srec? && CountAccepted(p.local.count, |p.buf|)
  }

  /** The address length is set and agrees with the type. */
  ghost predicate Laid(p: ParserState)
    requires p.local.rtype.Srec?
  {
    LayoutOk(p.local.rtype.digit, p.local.count) && p.local.addressLen == AddrChars(p.local.rtype.digit)
  }

  /** The data length is set and agrees with the type and the count. */
  ghost predicate Sized(p: ParserState)
    requires p.local.rtype.Srec?
  {
    p.local.dataLen == DataChars(p.local.rtype.digit, p.local.count)
  }

  /** The parser before its first byte, and after every finished line. */
  function Initial(n: nat): (p: ParserState)
    requires ValidLength(n)
    ensures Inv(p)
  {
    ParserState(GetRecordType, Zeros(n), 0, ZeroRecord, ZeroRecord, false)
  }

  /** Waiting for the first byte of a line. */
  ghost predicate Ready(p: ParserState) {
    Inv(p) && p.fsm == GetRecordType && p.cnt == 0
  }

  /** `record_buffer[byte_cnt] = *record; byte_cnt++;` */
  function Written(p: ParserState, b: byte): (q: ParserState)
    requires p.cnt < |p.buf|
  {
    p.(buf := p.buf[p.cnt := b], cnt := p.cnt + 1)
  }

  /**
   * The guard that stands in for the undefined address and data lengths of
   * an S4 type or a count below the address and checksum: drop the line as
   * a finished line would be dropped, without publishing it.
   */
  function Abort(q: ParserState): ParserState {
    q.(fsm := GetRecordType, cnt := 0, buf := Zeros(|q.buf|), local := ZeroRecord)
  }

  function TypeStep(p: ParserState, b: byte): (r: (ParserState, ParseRet))
    requires Inv(p) && p.fsm == GetRecordType
    ensures Inv(r.0) && r.0.buf == p.buf[p.cnt := b] && r.0.info == p.info
    ensures r.1 == ParserBusy <==> p.cnt == 0 || MapToRecordType(p.buf[0], b) != RInv
    ensures r.1 != ParseOk
    ensures p.cnt == 1 && MapToRecordType(p.buf[0], b) == RInv ==> r.0.fsm == GetRecordType && r.0.cnt == 0
    ensures p.cnt == 1 && MapToRecordType(p.buf[0], b) != RInv ==>
      r.0.fsm == GetRecordCount && r.0.cnt == 2 && r.0.local.rtype == MapToRecordType(p.buf[0], b)
  {
    var q := Written(p, b);
    if q.cnt >= BYTES_FOR_TYPE then
      var t := MapToRecordType(q.buf[0], q.buf[1]);
      var q' := q.(local := q.local.(rtype := t));
      if t != RInv then (q'.(fsm := GetRecordCount), ParserBusy)
      else (q'.(cnt := 0), ParseError)
    else
      (q, ParserBusy)
  }

  function CountStep(p: ParserState, b: byte): (r: (ParserState, ParseRet))
    requires Inv(p) && p.fsm == GetRecordCount
    ensures Inv(r.0) && r.0.buf == p.buf[p.cnt := b] && r.0.info == p.info
    ensures r.1 == ParseError && r.0.local.rtype == p.local.rtype
    ensures p.cnt == 3 ==>
      r.0.local.count == FindRecordCount([p.buf[2], b])
      && (if CountAccepted(r.0.local.count, |p.buf|)
          then r.0.fsm == GetRecordAddress && r.0.cnt == 4
          else r.0.fsm == GetRecordCount && r.0.cnt == 0)
  {
    var q := Written(p, b);
    if q.cnt >= BYTES_FOR_COUNT then
      HexStringToDecStopsAtNul([p.buf[2], b], q.buf[BYTES_FOR_COUNT..]);
      assert q.buf[BYTES_FOR_TYPE..] == [p.buf[2], b] + q.buf[BYTES_FOR_COUNT..];
      var count := FindRecordCount(q.buf[BYTES_FOR_TYPE..]);
      var q' := q.(local := q.local.(count := count));
      if CountAccepted(count, |q.buf|) then (q'.(fsm := GetRecordAddress), ParseError)
      else (q'.(cnt := 0), ParseError)
    else
      (q, ParseError)
  }

  function AddressStep(p: ParserState, b: byte): (r: (ParserState, ParseRet))
    requires Inv(p) && p.fsm == GetRecordAddress
    ensures Inv(r.0) && (r.0.buf == p.buf[p.cnt := b] || r.0.buf == Zeros(|p.buf|)) && r.0.info == p.info
    ensures r.1 == ParseError
  {
    var q := Written(p, b);
    var d := p.local.rtype.digit;
    if !LayoutOk(d, p.local.count) then
      (Abort(q), ParseError)
    else
      var q' := q.(local := q.local.(addressLen := AddrChars(d)));
      Thresholds(d, p.local.count);
      if q.cnt >= BYTES_FOR_COUNT + AddrChars(d) then
        (q'.(local := q'.local.(address := FindRecordAddress(q.buf[BYTES_FOR_COUNT..])), fsm := GetRecordData), ParseError)
      else
        (q', ParseError)
  }

  function DataStep(p: ParserState, b: byte): (r: (ParserState, ParseRet))
    requires Inv(p) && p.fsm == GetRecordData
    ensures Inv(r.0) && r.0.buf == p.buf[p.cnt := b] && r.0.info == p.info
    ensures r.1 == ParseError
  {
    var q := Written(p, b);
    var dataLen := DataChars(p.local.rtype.digit, p.local.count);
    var q' := q.(local := q.local.(dataLen := dataLen));
    Thresholds(p.local.rtype.digit, p.local.count);
    if q.cnt >= BYTES_FOR_COUNT + p.local.addressLen + dataLen then
      var from := BYTES_FOR_COUNT + p.local.addressLen;
      (q'.(local := q'.local.(data := q.buf[from..from + dataLen]), fsm := GetRecordChecksum), ParseError)
    else
      (q', ParseError)
  }

  function ChecksumStep(p: ParserState, b: byte): (r: (ParserState, ParseRet))
    requires Inv(p) && p.fsm == GetRecordChecksum
    ensures Inv(r.0) && r.0.buf == p.buf[p.cnt := b] && r.0.info == p.info
    ensures r.1 == ParseError
    ensures p.cnt + 1 >= CsumDone(p.local.rtype.digit, p.local.count) ==>
      r.0.fsm == GetStreamEnd && r.0.csumMismatch == !VerifyChecksum(p.buf[p.cnt := b], p.cnt + 1)
  {
    var q := Written(p, b);
    Thresholds(p.local.rtype.digit, p.local.count);
    if q.cnt >= BYTES_FOR_COUNT + p.local.addressLen + p.local.dataLen + BYTES_FOR_CSUM then
      var from := BYTES_FOR_COUNT + p.local.addressLen + p.local.dataLen;
      (q.(local := q.local.(csum := HexStringToDec(q.buf[from..])),
          csumMismatch := !VerifyChecksum(q.buf, q.cnt),
          fsm := GetStreamEnd), ParseError)
    else
      (q, ParseError)
  }

  // The step of each field state on the byte that completes its field.

  lemma AddressFiresStep(s: ParserState, b: byte)
    requires Inv(s) && s.fsm == GetRecordAddress && LayoutOk(s.local.rtype.digit, s.local.count)
    requires s.cnt + 1 >= BYTES_FOR_COUNT + AddrChars(s.local.rtype.digit)
    ensures var q := Written(s, b);
      AddressStep(s, b) == (q.(local := s.local.(addressLen := AddrChars(s.local.rtype.digit),
                                                 address := FindRecordAddress(q.buf[BYTES_FOR_COUNT..])),
                               fsm := GetRecordData), ParseError)
  {
  }

  lemma DataFiresStep(s: ParserState, b: byte, from: int, len: int)
    requires Inv(s) && s.fsm == GetRecordData
    requires from == BYTES_FOR_COUNT + s.local.addressLen && len == DataChars(s.local.rtype.digit, s.local.count)
    requires 0 <= from && 0 <= len && from + len <= s.cnt + 1
    ensures var q := Written(s, b);
      DataStep(s, b) == (q.(local := s.local.(dataLen := len, data := q.buf[from..from + len]),
                            fsm := GetRecordChecksum), ParseError)
  {
  }

  /** The checksum state once its field is in, whatever the state around it. */
  lemma ChecksumFiresStep(s: ParserState, b: byte, from: int)
    requires Inv(s) && s.fsm == GetRecordChecksum
    requires from == BYTES_FOR_COUNT + s.local.addressLen + s.local.dataLen
    requires 0 <= from && from + BYTES_FOR_CSUM <= s.cnt + 1
    ensures var q := Written(s, b);
      ChecksumStep(s, b) == (q.(local := s.local.(csum := HexStringToDec(q.buf[from..])),
                                csumMismatch := !VerifyChecksum(q.buf, s.cnt + 1), fsm := GetStreamEnd), ParseError)
  {
  }

  function EndStep(p: ParserState, b: byte): (r: (ParserState, ParseRet))
    requires Inv(p) && p.fsm == GetStreamEnd
    ensures Inv(r.0) && (r.0.buf == p.buf[p.cnt := b] || r.0.buf == Zeros(|p.buf|))
    ensures r.1 != ParserBusy
    ensures r.1 == ParseOk <==> p.cnt + 1 == LineEnd(p.local.count)
    ensures r.1 == ParseOk ==>
      r.0 == ParserState(GetRecordType, Zeros(|p.buf|), 0, ZeroRecord, p.local, p.csumMismatch)
    ensures r.1 != ParseOk ==> r.0.info == p.info
  {
    var q := Written(p, b);
    Thresholds(p.local.rtype.digit, p.local.count);
    if q.cnt >= BYTES_FOR_COUNT + p.local.addressLen + p.local.dataLen + BYTES_FOR_CSUM + BYTES_FOR_STREAM_END then
      (ParserState(GetRecordType, Zeros(|q.buf|), 0, ZeroRecord, q.local, q.csumMismatch), ParseOk)
    else
      (q, ParseError)
  }

  /**
   * One call of `record_parse_sync`: buffer the byte, count it, and run the
   * case of the current state.
   */
  function ParseByte(p: ParserState, b: byte): (r: (ParserState, ParseRet))
    requires Inv(p)
    ensures Inv(r.0) && |r.0.buf| == |p.buf|
    // every byte is buffered, unless the buffer is cleared
    ensures r.0.buf == p.buf[p.cnt := b] || r.0.buf == Zeros(|p.buf|)
    // PARSER_BUSY comes only from the type state
    ensures r.1 == ParserBusy ==> p.fsm == GetRecordType
    // PARSE_OK exactly when the last byte of a line arrives
    ensures r.1 == ParseOk <==> p.fsm == GetStreamEnd && p.cnt + 1 == LineEnd(p.local.count)
    // and then the line is published and the parser starts afresh
    ensures r.1 == ParseOk ==>
      r.0 == ParserState(GetRecordType, Zeros(|p.buf|), 0, ZeroRecord, p.local, p.csumMismatch)
    // `record_info` is written nowhere else
    ensures r.1 != ParseOk ==> r.0.info == p.info
  {
    match p.fsm
    case GetRecordType => TypeStep(p, b)
    case GetRecordCount => CountStep(p, b)
    case GetRecordAddress => AddressStep(p, b)
    case GetRecordData => DataStep(p, b)
    case GetRecordChecksum => ChecksumStep(p, b)
    case GetStreamEnd => EndStep(p, b)
  }
}
