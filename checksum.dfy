/**
 * `verify_checksum`: the one's-complement, modulo-256 checksum of a record
 * line, computed over the character pairs between the type and the checksum.
 */
module SrecChecksum {
  import opened SrecHex

  /** `JOIN_TWO_NUMBERS(h, l)`, taken to be `h * 16 + l`. */
  function Join(h: int, l: int): int
  {
    h * 16 + l
  }

  /** The character pair at `i`, joined as the checksum code does it. */
  function PairAt(data: seq<byte>, i: nat): int
    requires i + 1 < |data|
  {
    Join(HexCharToDec(data[i]), HexCharToDec(data[i + 1]))
  }

  /** The pairs at `index`, `index + 2`, ... while `index < length - 2`, summed without reduction. */
  function PairsFrom(data: seq<byte>, index: nat, length: nat): int
    requires length <= |data|
    decreases length - index
  {
    if index + 2 < length then PairAt(data, index) + PairsFrom(data, index + 2, length) else 0
  }

  /** `lastByte`: the `unsigned char` complement of the last pair. */
  function LastByte(data: seq<byte>, length: nat): int
    requires 2 <= length <= |data|
  {
    (-PairAt(data, length - 2) - 1) % 256
  }

  /**
   * The `for` loop of `verify_checksum` from `index` on, with the running
   * `unsigned char` sum `sum`, then the comparison with the last byte.
   */
  function ChecksumLoop(data: seq<byte>, index: nat, length: nat, sum: int): bool
    requires 2 <= length <= |data|
    decreases length - index
  {
    if index + 2 < length then ChecksumLoop(data, index + 2, length, (sum + PairAt(data, index)) % 256)
    else sum == LastByte(data, length)
  }

  /** `verify_checksum(data, length)`. */
  function VerifyChecksum(data: seq<byte>, length: nat): bool
    requires 2 <= length <= |data|
  {
    ChecksumLoop(data, 2, length, 0)
  }

  lemma AddMod(acc: int, pair: int, rest: int)
    ensures ((acc + pair) % 256 + rest) % 256 == (acc + (pair + rest)) % 256
  {
  }

  /** The loop compares the sum of the remaining pairs, reduced modulo 256, with the last byte. */
  lemma {:induction false} ChecksumLoopSum(data: seq<byte>, index: nat, length: nat, sum: int)
    requires 2 <= length <= |data| && 0 <= sum < 256
    ensures ChecksumLoop(data, index, length, sum) <==> (sum + PairsFrom(data, index, length)) % 256 == LastByte(data, length)
    decreases length - index
  {
    if index + 2 < length {
      var pair, rest := PairAt(data, index), PairsFrom(data, index + 2, length);
      assert PairsFrom(data, index, length) == pair + rest;
      assert ChecksumLoop(data, index, length, sum) == ChecksumLoop(data, index + 2, length, (sum + pair) % 256);
      ChecksumLoopSum(data, index + 2, length, (sum + pair) % 256);
      AddMod(sum, pair, rest);
    }
  }

  lemma ComplementMod(x: int, j: int)
    ensures x % 256 == (-j - 1) % 256 <==> (x + j) % 256 == 0xFF
  {
  }

  /** The check passes exactly when the sum of the pairs and the last pair make 0xFF modulo 256. */
  lemma VerifyChecksumComplement(data: seq<byte>, length: nat)
    requires 2 <= length <= |data|
    ensures VerifyChecksum(data, length) <==> (PairsFrom(data, 2, length) + PairAt(data, length - 2)) % 256 == 0xFF
  {
    ChecksumLoopSum(data, 2, length, 0);
    ComplementMod(PairsFrom(data, 2, length), PairAt(data, length - 2));
  }

  /** The check only reads the first `length` bytes. */
  lemma {:induction false} PairsFromPrefix(x: seq<byte>, y: seq<byte>, index: nat, length: nat)
    requires length <= |x| && length <= |y| && x[..length] == y[..length]
    ensures PairsFrom(x, index, length) == PairsFrom(y, index, length)
    decreases length - index
  {
    if index + 2 < length {
      assert x[index] == x[..length][index] && y[index] == y[..length][index];
      assert x[index + 1] == x[..length][index + 1] && y[index + 1] == y[..length][index + 1];
      PairsFromPrefix(x, y, index + 2, length);
    }
  }

  lemma VerifyChecksumPrefix(x: seq<byte>, y: seq<byte>, length: nat)
    requires 2 <= length <= |x| && length <= |y| && x[..length] == y[..length]
    ensures VerifyChecksum(x, length) == VerifyChecksum(y, length)
  {
    ChecksumLoopSum(x, 2, length, 0);
    ChecksumLoopSum(y, 2, length, 0);
    PairsFromPrefix(x, y, 2, length);
    assert x[length - 2] == x[..length][length - 2] && y[length - 2] == y[..length][length - 2];
    assert x[length - 1] == x[..length][length - 1] && y[length - 1] == y[..length][length - 1];
  }

  /** The loop of `verify_checksum` over the buffer. */
  method VerifyChecksumAt(data: array<byte>, length: nat) returns (ok: bool)
    requires 2 <= length <= data.Length
    ensures ok == VerifyChecksum(data[..], length)
  {
    var lastByte := (-Join(HexCharToDec(data[length - 2]), HexCharToDec(data[length - 1])) - 1) % 256;
    assert lastByte == LastByte(data[..], length);
    var calcCsum := 0;
    var index := 2;
    while index + 2 < length
      invariant 2 <= index <= length
      invariant ChecksumLoop(data[..], index, length, calcCsum) == VerifyChecksum(data[..], length)
    {
      var pair := Join(HexCharToDec(data[index]), HexCharToDec(data[index + 1]));
      assert pair == PairAt(data[..], index);
      calcCsum := (calcCsum + pair) % 256;
      index := index + 2;
    }
    ok := calcCsum == lastByte;
  }

  // ---------------------------------------------------------------------
  // Reference: the checksum of a line of hex digits
  // ---------------------------------------------------------------------

  /** The value of the hex-digit pair `[a, b]`. */
  lemma HexPairValue(a: byte, b: byte)
    requires IsHexDigit(a) && IsHexDigit(b)
    ensures AllHex([a, b])
    ensures HexValue([a, b]) == 16 * DigitValue(a) + DigitValue(b)
  {
    assert [a][..0] == [];
    assert HexValue([a]) == DigitValue(a);
    assert [a, b][..1] == [a];
  }

  /** The sum of the byte values spelled by a string of hex-digit pairs. */
  function PairSum(s: seq<byte>): int
    requires AllHex(s) && |s| % 2 == 0
    decreases |s|
  {
    if s == [] then 0 else HexValue(s[..2]) + PairSum(s[2..])
  }

  /**
   * The fields of a line after its type (count, address, data, checksum),
   * as hex-digit pairs, whose byte values add up to 0xFF modulo 256: the
   * checksum is the one's complement of the sum of the other bytes.
   */
  ghost predicate ChecksumOk(fields: seq<byte>)
    requires AllHex(fields) && |fields| % 2 == 0
  {
    PairSum(fields) % 256 == 0xFF
  }

  lemma PairAtUpper(data: seq<byte>, i: nat)
    requires i + 1 < |data| && IsUpperHexDigit(data[i]) && IsUpperHexDigit(data[i + 1])
    ensures AllHex(data[i..i + 2])
    ensures PairAt(data, i) == HexValue(data[i..i + 2])
  {
    HexCharToDecUpperOnly(data[i]);
    HexCharToDecUpperOnly(data[i + 1]);
    assert data[i..i + 2] == [data[i], data[i + 1]];
    HexPairValue(data[i], data[i + 1]);
  }

  /** The pairs from `index` up to and including the pair at `n - 2`. */
  lemma {:induction false} PairsFromUpper(data: seq<byte>, index: nat, n: nat)
    requires 2 <= index <= n && n <= |data| && (n - index) % 2 == 0
    requires AllUpperHex(data[2..n])
    ensures AllHex(data[index..n])
    ensures index < n ==> PairsFrom(data, index, n) + PairAt(data, n - 2) == PairSum(data[index..n])
    decreases n - index
  {
    forall i | index <= i < n ensures IsHexDigit(data[i]) {
      assert data[i] == data[2..n][i - 2];
    }
    assert AllHex(data[index..n]);
    if index < n {
      assert data[index] == data[2..n][index - 2] && data[index + 1] == data[2..n][index - 1];
      PairAtUpper(data, index);
      assert data[index..n][..2] == data[index..index + 2];
      assert data[index..n][2..] == data[index + 2..n];
      if index + 2 < n {
        PairsFromUpper(data, index + 2, n);
      } else {
        assert data[index + 2..n] == [];
      }
    }
  }

  /**
   * On a line of upper-case hex digits `verify_checksum` accepts exactly the
   * lines whose checksum is right.
   */
  lemma VerifyChecksumUpperLine(data: seq<byte>, n: nat)
    requires 4 <= n <= |data| && n % 2 == 0 && AllUpperHex(data[2..n])
    ensures AllHex(data[2..n])
    ensures VerifyChecksum(data, n) <==> ChecksumOk(data[2..n])
  {
    VerifyChecksumComplement(data, n);
    PairsFromUpper(data, 2, n);
  }

  /** The fields "030000fc" of the line below carry a right checksum. */
  lemma LowercaseFieldsChecksumOk(f: seq<byte>)
    requires f == [0x30, 0x33, 0x30, 0x30, 0x30, 0x30, 0x66, 0x63]
    ensures AllHex(f) && ChecksumOk(f)
  {
    HexPairValue(0x30, 0x33);
    HexPairValue(0x30, 0x30);
    HexPairValue(0x66, 0x63);
    assert f[..2] == [0x30, 0x33] && f[2..][..2] == [0x30, 0x30];
    assert f[2..][2..][..2] == [0x30, 0x30] && f[2..][2..][2..][..2] == [0x66, 0x63];
    assert f[2..][2..][2..][2..] == [];
    assert PairSum(f[2..][2..][2..]) == 0xFC;
    assert PairSum(f[2..][2..]) == 0xFC;
    assert PairSum(f[2..]) == 0xFC;
  }

  lemma LowercaseLinePairs(line: seq<byte>)
    requires line == [0x53, 0x31, 0x30, 0x33, 0x30, 0x30, 0x30, 0x30, 0x66, 0x63]
    ensures PairsFrom(line, 2, 10) == 3
  {
    HexCharToDecUpperOnly(0x30);
    HexCharToDecUpperOnly(0x33);
    assert PairAt(line, 2) == 3 by { assert line[2] == 0x30 && line[3] == 0x33; }
    assert PairAt(line, 4) == 0 by { assert line[4] == 0x30 && line[5] == 0x30; }
    assert PairAt(line, 6) == 0 by { assert line[6] == 0x30 && line[7] == 0x30; }
    assert PairsFrom(line, 8, 10) == 0;
    assert PairsFrom(line, 6, 10) == 0;
    assert PairsFrom(line, 4, 10) == 0;
  }

  lemma LowercaseLineLastPair(line: seq<byte>)
    requires line == [0x53, 0x31, 0x30, 0x33, 0x30, 0x30, 0x30, 0x30, 0x66, 0x63]
    ensures PairAt(line, 8) == 796
  {
    assert line[8] == 0x66 && line[9] == 0x63;
    HexCharToDecUpperOnly(0x66);
    HexCharToDecUpperOnly(0x63);
  }

  /**
   * A correct line written with lower-case digits, "S1030000fc", fails the
   * check, because `hex_char_to_dec` decodes only upper-case letters.
   */
  lemma LowercaseChecksumMisjudged(line: seq<byte>)
    requires line == [0x53, 0x31, 0x30, 0x33, 0x30, 0x30, 0x30, 0x30, 0x66, 0x63]
    ensures AllHex(line[2..]) && ChecksumOk(line[2..])
    ensures !VerifyChecksum(line, 10)
  {
    LowercaseFieldsChecksumOk(line[2..]);
    LowercaseLinePairs(line);
    LowercaseLineLastPair(line);
  }
}
