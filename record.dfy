/**
 * Record types, the address-length table `REC_ADD_LEN`, the type recogniser
 * `map_to_record_type` / `find_record_type`, the count decoder
 * `find_record_count` and the record structure `t_record_info`.
 */
module SrecRecord {
  import opened SrecHex

  /** The digit of a record type S0..S9 (the enumerators of `t_record_type`). */
  type Digit = d: int | 0 <= d <= 9

  /** `t_record_type`: S0..S9 or `R_INV`. */
  datatype RecordType = Srec(digit: Digit) | RInv

  /** `REC_ADD_LEN`: address bytes per type; -1 marks S4, which has no address. */
  const REC_ADD_LEN: seq<int> := [2, 2, 3, 4, -1, 0, 3, 4, 3, 2]

  function RecAddLen(d: Digit): (n: int)
    ensures n == -1 <==> d == 4
    ensures n != -1 ==> 0 <= n <= 4
  {
    REC_ADD_LEN[d]
  }

  /**
   * The address field, in characters, is twice the table entry:
   * S0, S1, S9 take 4; S2, S6, S8 take 6; S3, S7 take 8; S5 takes none.
   */
  lemma AddressFieldChars()
    ensures 2 * RecAddLen(0) == 2 * RecAddLen(1) == 2 * RecAddLen(9) == 4
    ensures 2 * RecAddLen(2) == 2 * RecAddLen(6) == 2 * RecAddLen(8) == 6
    ensures 2 * RecAddLen(3) == 2 * RecAddLen(7) == 8
    ensures RecAddLen(5) == 0 && RecAddLen(4) == -1
  {
  }

  /**
   * `map_to_record_type` over the first two buffered bytes: 'S' then a digit,
   * or a digit then 'S' (the source's "big endian" case); anything else,
   * "SS" included, is `R_INV`.
   */
  function MapToRecordType(b0: byte, b1: byte): (r: RecordType)
    ensures r != RInv <==>
      (b0 == 'S' as int && IsDecDigit(b1)) || (b0 != 'S' as int && b1 == 'S' as int && IsDecDigit(b0))
    ensures r.Srec? ==> r.digit + '0' as int == (if b0 == 'S' as int then b1 else b0)
  {
    var next: byte := if b0 == 'S' as int then b1 else if b1 == 'S' as int then b0 else 0;
    if IsDecDigit(next) then Srec(next - '0' as int) else RInv
  }

  /** A `long` converted to `unsigned short`. */
  function ToU16(x: int): int
  {
    x % 0x1_0000
  }

  /**
   * `find_record_count`: `hex_string_to_dec` of the field, returned as an
   * `unsigned short`, so the error value -1 becomes 0xFFFF.
   */
  function FindRecordCount(field: seq<byte>): (count: int)
    ensures 0 <= count < 0x1_0000
    ensures HexStringToDec(field) == -1 ==> count == 0xFFFF
    ensures 0 <= HexStringToDec(field) < 0x1_0000 ==> count == HexStringToDec(field)
  {
    ToU16(HexStringToDec(field))
  }

  /** `find_record_address`: the field decoded up to its first NUL, or -1. */
  function FindRecordAddress(field: seq<byte>): (address: int)
    ensures address == if AllHex(CString(field)) then HexValue(CString(field)) else -1
  {
    HexStringToDecValue(field);
    HexStringToDec(field)
  }

  /**
   * `t_record_info`. `address` and `csum` hold what `hex_string_to_dec`
   * returned; `data` holds the raw hex characters of the data field and
   * `dataLen` counts those characters.
   */
  datatype RecordInfo = RecordInfo(
    rtype: RecordType,
    count: int,
    address: int,
    addressLen: int,
    data: seq<byte>,
    dataLen: int,
    csum: int)

  /** A record after `memset(&record, 0, sizeof record)`: type 0 is S0. */
  const ZeroRecord := RecordInfo(Srec(0), 0, 0, 0, [], 0, 0)
}
