/**
 * The parser as the source runs it: the statics of `parser.c` become the
 * fields of one object, `record_parse_sync` becomes `Feed` and
 * `get_record_info` becomes `GetRecord`. `Feed` is proved to perform exactly
 * one step of `ParseByte`.
 */
module SrecParser {
  import opened SrecHex
  import opened SrecRecord
  import opened SrecChecksum
  import opened SrecFsm

  class RecordParser {
    /** `record_buffer`, of length `RECORD_LENGTH`. */
    const recordBuffer: array<byte>
    var parserFsm: Fsm
    var byteCnt: nat
    var localRecord: RecordInfo
    var recordInfo: RecordInfo
    var csumMismatch: bool

    ghost function State(): ParserState
      reads this, recordBuffer
    {
      ParserState(parserFsm, recordBuffer[..], byteCnt, localRecord, recordInfo, csumMismatch)
    }

    ghost predicate Valid()
      reads this, recordBuffer
    {
      Inv(State())
    }

    /** The statics at program start: everything zero, waiting for a type. */
    constructor (recordLength: nat)
      requires ValidLength(recordLength)
      ensures Valid() && State() == Initial(recordLength)
      ensures fresh(recordBuffer)
    {
      recordBuffer := new byte[recordLength](_ => 0);
      parserFsm := GetRecordType;
      byteCnt := 0;
      localRecord := ZeroRecord;
      recordInfo := ZeroRecord;
      csumMismatch := false;
      new;
      assert recordBuffer[..] == Zeros(recordLength);
    }

    /** `memset(record_buffer, 0, RECORD_LENGTH)`. */
    method ClearBuffer()
      modifies recordBuffer
      ensures recordBuffer[..] == Zeros(recordBuffer.Length)
    {
      var i := 0;
      while i < recordBuffer.Length
        invariant 0 <= i <= recordBuffer.Length
        invariant forall j :: 0 <= j < i ==> recordBuffer[j] == 0
      {
        recordBuffer[i] := 0;
        i := i + 1;
      }
    }

    /** `record_parse_sync(&b)`: take one byte of the stream. */
    method Feed(b: byte) returns (ret: ParseRet)
      requires Valid()
      modifies this, recordBuffer
      ensures Valid()
      ensures (State(), ret) == ParseByte(old(State()), b)
    {
      ghost var p := State();
      recordBuffer[byteCnt] := b;
      byteCnt := byteCnt + 1;
      assert recordBuffer[..] == p.buf[p.cnt := b];
      match parserFsm
      case GetRecordType => ret := TypeCase(p, b);
      case GetRecordCount => ret := CountCase(p, b);
      case GetRecordAddress => ret := AddressCase(p, b);
      case GetRecordData => ret := DataCase(p, b);
      case GetRecordChecksum => ret := ChecksumCase(p, b);
      case GetStreamEnd => ret := EndCase(p, b);
    }

    // One method per case of the switch, each entered with the byte already
    // buffered and counted.

    ghost predicate Entered(p: ParserState, b: byte)
      requires p.cnt < |p.buf|
      reads this, recordBuffer
    {
      recordBuffer[..] == p.buf[p.cnt := b] && byteCnt == p.cnt + 1
      && parserFsm == p.fsm && localRecord == p.local && recordInfo == p.info && csumMismatch == p.csumMismatch
    }

    method TypeCase(ghost p: ParserState, b: byte) returns (ret: ParseRet)
      requires Inv(p) && p.fsm == GetRecordType
      requires Entered(p, b)
      modifies this
      ensures (State(), ret) == TypeStep(p, b)
    {
      ret := ParserBusy;
      if byteCnt >= BYTES_FOR_TYPE {
        localRecord := localRecord.(rtype := MapToRecordType(recordBuffer[0], recordBuffer[1]));
        if localRecord.rtype != RInv {
          parserFsm := GetRecordCount;
        } else {
          ret := ParseError;
          byteCnt := 0;
        }
      }
    }

    method CountCase(ghost p: ParserState, b: byte) returns (ret: ParseRet)
      requires Inv(p) && p.fsm == GetRecordCount
      requires Entered(p, b)
      modifies this
      ensures (State(), ret) == CountStep(p, b)
    {
      ret := ParseError;
      if byteCnt >= BYTES_FOR_COUNT {
        var value := HexStringToDecAt(recordBuffer, BYTES_FOR_TYPE);
        localRecord := localRecord.(count := ToU16(value));
        if CountAccepted(localRecord.count, recordBuffer.Length) {
          parserFsm := GetRecordAddress;
        } else {
          byteCnt := 0;
        }
      }
    }

    method AddressCase(ghost p: ParserState, b: byte) returns (ret: ParseRet)
      requires Inv(p) && p.fsm == GetRecordAddress
      requires Entered(p, b)
      modifies this, recordBuffer
      ensures (State(), ret) == AddressStep(p, b)
    {
      ret := ParseError;
      var d := localRecord.rtype.digit;
      if !LayoutOk(d, localRecord.count) {
        parserFsm := GetRecordType;
        byteCnt := 0;
        ClearBuffer();
        localRecord := ZeroRecord;
      } else {
        localRecord := localRecord.(addressLen := AddrChars(d));
        if byteCnt >= BYTES_FOR_COUNT + localRecord.addressLen {
          var address := HexStringToDecAt(recordBuffer, BYTES_FOR_COUNT);
          localRecord := localRecord.(address := address);
          parserFsm := GetRecordData;
        }
      }
    }

    method DataCase(ghost p: ParserState, b: byte) returns (ret: ParseRet)
      requires Inv(p) && p.fsm == GetRecordData
      requires Entered(p, b)
      modifies this
      ensures (State(), ret) == DataStep(p, b)
    {
      ret := ParseError;
      ghost var q := Written(p, b);
      ghost var dataLen := DataChars(p.local.rtype.digit, p.local.count);
      ghost var from := BYTES_FOR_COUNT + p.local.addressLen;
      assert 0 <= dataLen && from + dataLen <= |q.buf| == recordBuffer.Length by {
        assert Collecting(p) && Laid(p);
        Thresholds(p.local.rtype.digit, p.local.count);
        assert |recordBuffer[..]| == recordBuffer.Length;
      }
      localRecord := localRecord.(dataLen := DataChars(localRecord.rtype.digit, localRecord.count));
      if byteCnt >= BYTES_FOR_COUNT + localRecord.addressLen + localRecord.dataLen {
        var copyBytes := BYTES_FOR_COUNT + localRecord.addressLen;
        localRecord := localRecord.(data := recordBuffer[copyBytes..copyBytes + localRecord.dataLen]);
        parserFsm := GetRecordChecksum;
      }
    }

    method ChecksumCase(ghost p: ParserState, b: byte) returns (ret: ParseRet)
      requires Inv(p) && p.fsm == GetRecordChecksum
      requires Entered(p, b)
      modifies this
      ensures (State(), ret) == ChecksumStep(p, b)
    {
      ret := ParseError;
      ghost var q := Written(p, b);
      ghost var from := BYTES_FOR_COUNT + p.local.addressLen + p.local.dataLen;
      assert from + BYTES_FOR_CSUM + BYTES_FOR_STREAM_END <= |q.buf| == recordBuffer.Length by {
        assert Collecting(p) && Laid(p) && Sized(p);
        Thresholds(p.local.rtype.digit, p.local.count);
        assert |recordBuffer[..]| == recordBuffer.Length;
      }
      if byteCnt >= BYTES_FOR_COUNT + localRecord.addressLen + localRecord.dataLen + BYTES_FOR_CSUM {
        var copyBytes := BYTES_FOR_COUNT + localRecord.addressLen + localRecord.dataLen;
        var csum := HexStringToDecAt(recordBuffer, copyBytes);
        var ok := VerifyChecksumAt(recordBuffer, byteCnt);
        localRecord := localRecord.(csum := csum);
        csumMismatch := !ok;
        parserFsm := GetStreamEnd;
        ChecksumFiresStep(p, b, copyBytes);
      }
    }

    method EndCase(ghost p: ParserState, b: byte) returns (ret: ParseRet)
      requires Inv(p) && p.fsm == GetStreamEnd
      requires Entered(p, b)
      modifies this, recordBuffer
      ensures (State(), ret) == EndStep(p, b)
    {
      ret := ParseError;
      Thresholds(localRecord.rtype.digit, localRecord.count);
      if byteCnt >= BYTES_FOR_COUNT + localRecord.addressLen + localRecord.dataLen + BYTES_FOR_CSUM + BYTES_FOR_STREAM_END {
        parserFsm := GetRecordType;
        recordInfo := localRecord;
        byteCnt := 0;
        ClearBuffer();
        localRecord := ZeroRecord;
        ret := ParseOk;
      }
    }

    /** `get_record_info`: a copy of the last published record, always with `PARSE_OK`. */
    method GetRecord() returns (ret: ParseRet, record: RecordInfo)
      ensures ret == ParseOk && record == recordInfo
    {
      record := recordInfo;
      ret := ParseOk;
    }
  }
}
