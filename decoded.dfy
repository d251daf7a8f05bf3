/**
 * What the parser reads from a well-formed line written in upper-case hex
 * digits with a non-empty address field: the count, address and checksum
 * fields decode to their hex values, and the checksum verdict is the
 * S-record checksum rule.
 */
module SrecDecoded {
  import opened SrecHex
  import opened SrecRecord
  import opened SrecChecksum
  import opened SrecFsm
  import opened SrecLine

  /** A slice of an upper-case hex string is a hex string. */
  lemma UpperSlice(line: seq<byte>, i: nat, j: nat, a: nat, b: nat)
    requires i <= j <= |line| && AllUpperHex(line[i..j]) && i <= a <= b <= j
    ensures AllHex(line[a..b])
  {
    forall t | 0 <= t < b - a ensures IsHexDigit(line[a..b][t]) {
      assert line[a..b][t] == line[i..j][a - i + t];
    }
  }

  /** The lines this module speaks of. */
  ghost predicate UpperLine(line: seq<byte>) {
    Accepted(line, 255) && AddrChars(LineDigit(line)) > 0 && AllUpperHex(line[2..|line| - 2])
  }

  /** Where the fields of such a line lie. */
  lemma UpperShape(line: seq<byte>)
    requires UpperLine(line)
    ensures var d, n := LineDigit(line), |line|;
      && 4 <= AddrChars(d) && 8 + AddrChars(d) <= n && n % 2 == 0
      && BYTES_FOR_COUNT + AddrChars(d) + DataChars(d, LineCount(line)) == n - 4
      && AddrDone(d) == 4 + AddrChars(d) && CsumDone(d, LineCount(line)) == n - 2
  {
    Thresholds(LineDigit(line), LineCount(line));
  }

  /** The fields of a line of `8 + a` characters or more, upper-case hex between type and CR LF. */
  lemma HexFields(line: seq<byte>, a: nat)
    requires 8 + a <= |line| && AllUpperHex(line[2..|line| - 2])
    ensures var n := |line|;
      && AllHex(line[2..4]) && AllHex(line[4..4 + a])
      && AllHex(line[n - 4..n - 2]) && AllHex(line[2..n - 2])
  {
    var n := |line|;
    UpperSlice(line, 2, n - 2, 2, 4);
    UpperSlice(line, 2, n - 2, 4, 4 + a);
    UpperSlice(line, 2, n - 2, n - 4, n - 2);
    UpperSlice(line, 2, n - 2, 2, n - 2);
  }

  /** Each field of such a line is a string of hex digits. */
  lemma UpperFields(line: seq<byte>)
    requires UpperLine(line)
    ensures var a, n := AddrChars(LineDigit(line)), |line|;
      && 4 + a <= n - 4 && n % 2 == 0
      && AllHex(line[2..4]) && AllHex(line[4..4 + a])
      && AllHex(line[n - 4..n - 2]) && AllHex(line[2..n - 2])
  {
    UpperShape(line);
    HexFields(line, AddrChars(LineDigit(line)));
  }

  /**
   * Reference reading of a line with an address field of `a` characters:
   * the type, the hex values of the count, address and checksum fields,
   * and the data characters between.
   */
  function Reading(line: seq<byte>, d: Digit, a: nat): RecordInfo
    requires 8 + a <= |line|
    requires AllHex(line[2..4]) && AllHex(line[4..4 + a]) && AllHex(line[|line| - 4..|line| - 2])
  {
    var n := |line|;
    RecordInfo(Srec(d), HexValue(line[2..4]), HexValue(line[4..4 + a]), a,
               line[4 + a..n - 4], n - 8 - a, HexValue(line[n - 4..n - 2]))
  }

  /** The reference reading of an upper-case line. */
  function UpperRecord(line: seq<byte>): RecordInfo
    requires UpperLine(line)
  {
    UpperFields(line);
    Reading(line, LineDigit(line), AddrChars(LineDigit(line)))
  }

  /** Whether the checksum of such a line is wrong by the S-record rule. */
  ghost function UpperMismatch(line: seq<byte>): bool
    requires UpperLine(line)
  {
    UpperFields(line);
    !ChecksumOk(line[2..|line| - 2])
  }

  lemma UpperCount(line: seq<byte>)
    requires UpperLine(line)
    ensures AllHex(line[2..4]) && LineCount(line) == HexValue(line[2..4])
  {
    UpperFields(line);
    HexStringToDecOfDigits(line[2..4]);
    assert line[2..4] == [line[2], line[3]];
    HexPairValue(line[2], line[3]);
  }

  lemma UpperAddress(line: seq<byte>)
    requires UpperLine(line)
    ensures var a := AddrChars(LineDigit(line));
      4 + a <= |line| && AllHex(line[4..4 + a]) && LineAddress(line) == HexValue(line[4..4 + a])
  {
    var d := LineDigit(line);
    UpperShape(line);
    HexFields(line, AddrChars(d));
    HexStringToDecOfDigits(line[4..4 + AddrChars(d)]);
  }

  lemma UpperCsum(line: seq<byte>)
    requires UpperLine(line)
    ensures var n := |line|; 4 <= n && AllHex(line[n - 4..n - 2]) && LineCsum(line) == HexValue(line[n - 4..n - 2])
  {
    var n := |line|;
    UpperShape(line);
    HexFields(line, AddrChars(LineDigit(line)));
    HexStringToDecOfDigits(line[n - 4..n - 2]);
  }

  /** The record the parser publishes for such a line is its reference reading. */
  lemma UpperLineRecord(line: seq<byte>)
    requires UpperLine(line)
    ensures LineRecord(line) == UpperRecord(line)
  {
    var d := LineDigit(line);
    Thresholds(d, LineCount(line));
    UpperCount(line);
    UpperAddress(line);
    UpperCsum(line);
  }

  /**
   * On such a line `verify_checksum` fails exactly when the line's
   * checksum is wrong, so the recorded mismatch is the S-record verdict.
   */
  lemma UpperLineChecksum(line: seq<byte>)
    requires UpperLine(line)
    ensures LineMismatch(line) == UpperMismatch(line)
  {
    Thresholds(LineDigit(line), LineCount(line));
    UpperFields(line);
    VerifyChecksumUpperLine(line, |line| - 2);
  }

  /**
   * Feeding such a line to a waiting parser publishes its reference reading,
   * with the mismatch flag set exactly when its checksum is wrong.
   */
  lemma ParseUpperLine(p: ParserState, line: seq<byte>)
    requires Ready(p) && Accepted(line, |p.buf|)
    requires AddrChars(LineDigit(line)) > 0 && AllUpperHex(line[2..|line| - 2])
    ensures Run(p, line) == (Done(p, UpperRecord(line), UpperMismatch(line)), LineRets(|line|))
  {
    assert Accepted(line, 255);
    ParseLine(p, line);
    UpperLineRecord(line);
    UpperLineChecksum(line);
  }

  /**
   * S5 has no address field, so the address state fires on the fifth byte
   * and decodes the first data character alone: "S5031203E7" CR LF is
   * parsed whole with the address 1.
   */
  lemma S5AddressIsFirstDataDigit(line: seq<byte>)
    requires line == [0x53, 0x35, 0x30, 0x33, 0x31, 0x32, 0x30, 0x33, 0x45, 0x37, 0x0D, 0x0A]
    ensures Accepted(line, 255) && LineDigit(line) == 5 && LineAddress(line) == 1
  {
    assert line[2..4] == [0x30, 0x33];
    HexPairValue(0x30, 0x33);
    HexStringToDecOfDigits(line[2..4]);
    assert LineCount(line) == 3;
    assert line[4..5] == [0x31];
    CStringOfDigits([0x31]);
    assert [0x31][..0] == [];
  }
}
