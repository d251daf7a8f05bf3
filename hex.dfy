/**
 * Hexadecimal decoding of the S-record parser: the 256-entry `hextable`,
 * `hex_string_to_dec` (which reads up to the first NUL byte) and the
 * upper-case-only `hex_char_to_dec` used by the checksum check.
 */
module SrecHex {

  /** One byte of the input stream, read as an unsigned value. */
  type byte = x: int | 0 <= x < 0x100

  /** `n` copies of `v`. */
  function Fill<T>(v: T, n: nat): (r: seq<T>)
    ensures |r| == n
    ensures forall i :: 0 <= i < n ==> r[i] == v
  {
    if n == 0 then [] else Fill(v, n - 1) + [v]
  }

  /** A buffer of `n` NUL bytes, as `memset(buf, 0, n)` leaves it. */
  function Zeros(n: nat): (r: seq<byte>)
    ensures |r| == n
    ensures forall i :: 0 <= i < n ==> r[i] == 0
  {
    Fill(0, n)
  }

  // ---------------------------------------------------------------------
  // Reference definitions: what a hexadecimal digit is and what it is worth
  // ---------------------------------------------------------------------

  predicate IsDecDigit(c: byte) {
    '0' as int <= c <= '9' as int
  }

  predicate IsUpperHexDigit(c: byte) {
    IsDecDigit(c) || 'A' as int <= c <= 'F' as int
  }

  predicate IsHexDigit(c: byte) {
    IsUpperHexDigit(c) || 'a' as int <= c <= 'f' as int
  }

  function DigitValue(c: byte): (v: int)
    requires IsHexDigit(c)
    ensures 0 <= v < 16
  {
    if IsDecDigit(c) then c - '0' as int
    else if 'A' as int <= c <= 'F' as int then c - 'A' as int + 10
    else c - 'a' as int + 10
  }

  ghost predicate AllHex(s: seq<byte>) {
    forall i :: 0 <= i < |s| ==> IsHexDigit(s[i])
  }

  ghost predicate AllUpperHex(s: seq<byte>) {
    forall i :: 0 <= i < |s| ==> IsUpperHexDigit(s[i])
  }

  /** The value of a string of hex digits, most significant digit first. */
  function HexValue(t: seq<byte>): (v: nat)
    requires AllHex(t)
  {
    if t == [] then 0 else 16 * HexValue(t[..|t| - 1]) + DigitValue(t[|t| - 1])
  }

  // ---------------------------------------------------------------------
  // hextable
  // ---------------------------------------------------------------------

  /**
   * The lookup table: -1 everywhere except at '0'..'9' (48..57),
   * 'A'..'F' (65..70) and 'a'..'f' (97..102).
   */
  const HEXTABLE: seq<int> :=
    Fill(-1, 48) + [0, 1, 2, 3, 4, 5, 6, 7, 8, 9] + Fill(-1, 7)
    + [10, 11, 12, 13, 14, 15] + Fill(-1, 26)
    + [10, 11, 12, 13, 14, 15] + Fill(-1, 153)

  /** A table that maps every byte to its digit value, or to -1 when it is no hex digit. */
  ghost predicate DecodesHex(table: seq<int>) {
    |table| == 256 && forall c: byte :: table[c] == if IsHexDigit(c) then DigitValue(c) else -1
  }

  /** `hextable[c]`; the C code indexes with a `char`, read here as unsigned. */
  lemma HexTableEntry(c: byte)
    ensures |HEXTABLE| == 256
    ensures HEXTABLE[c] == if IsHexDigit(c) then DigitValue(c) else -1
  {
    var a := Fill(-1, 48) + [0, 1, 2, 3, 4, 5, 6, 7, 8, 9];
    var b := a + Fill(-1, 7) + [10, 11, 12, 13, 14, 15];
    var e := b + Fill(-1, 26) + [10, 11, 12, 13, 14, 15];
    assert HEXTABLE == e + Fill(-1, 153);
    if c < 48 {
      assert HEXTABLE[c] == Fill(-1, 48)[c];
    } else if c < 58 {
      assert HEXTABLE[c] == a[c];
    } else if c < 65 {
      assert HEXTABLE[c] == b[c] == Fill(-1, 7)[c - 58];
    } else if c < 71 {
      assert HEXTABLE[c] == b[c];
    } else if c < 97 {
      assert HEXTABLE[c] == e[c] == Fill(-1, 26)[c - 71];
    } else if c < 103 {
      assert HEXTABLE[c] == e[c];
    } else {
      assert HEXTABLE[c] == Fill(-1, 153)[c - 103];
    }
  }

  /** The table decodes exactly the hex digits of either case, and gives -1 for anything else. */
  lemma HexTableDecodes()
    ensures DecodesHex(HEXTABLE)
  {
    HexTableEntry(0);
    forall c: byte ensures HEXTABLE[c] == if IsHexDigit(c) then DigitValue(c) else -1 {
      HexTableEntry(c);
    }
  }

  // ---------------------------------------------------------------------
  // hex_string_to_dec
  // ---------------------------------------------------------------------

  /**
   * One turn of the loop: `(ret << 4) | nibble` for a non-negative `ret`.
   * OR-ing -1 sets every bit, so an invalid digit turns the result into -1;
   * a valid nibble fills the four zero bits the shift made.
   */
  function HexStep(acc: int, nibble: int): int
  {
    if nibble < 0 then -1 else acc * 16 + nibble
  }

  /**
   * The while loop of `hex_string_to_dec` with lookup table `table`: stop at
   * the end, at a NUL, or once the result is negative.
   */
  function HexFold(table: seq<int>, s: seq<byte>, acc: int): int
    requires |table| == 256
  {
    if s == [] || s[0] == 0 || acc < 0 then acc
    else HexFold(table, s[1..], HexStep(acc, table[s[0]]))
  }

  /** `hex_string_to_dec(s)`: -1 on error, the value otherwise. */
  function HexStringToDec(s: seq<byte>): int
  {
    HexFold(HEXTABLE, s, 0)
  }

  /** The longest prefix of `s` without a NUL: what C reads as the string at `s`. */
  function CString(s: seq<byte>): (r: seq<byte>)
    ensures |r| <= |s| && r == s[..|r|]
    ensures forall i :: 0 <= i < |r| ==> r[i] != 0
    ensures |r| < |s| ==> s[|r|] == 0
  {
    if s == [] || s[0] == 0 then [] else [s[0]] + CString(s[1..])
  }

  /** A C string that does not start with NUL is its first character and the C string after it. */
  lemma CStringCons(s: seq<byte>)
    requires s != [] && s[0] != 0
    ensures CString(s) == [s[0]] + CString(s[1..])
    ensures AllHex(CString(s)) <==> IsHexDigit(s[0]) && AllHex(CString(s[1..]))
  {
    var t := CString(s[1..]);
    assert CString(s) == [s[0]] + t;
    if IsHexDigit(s[0]) && AllHex(t) {
      forall i | 0 <= i < |CString(s)| ensures IsHexDigit(CString(s)[i]) {
        if i > 0 {
          assert CString(s)[i] == t[i - 1];
        }
      }
    }
    if AllHex(CString(s)) {
      assert CString(s)[0] == s[0];
      forall i | 0 <= i < |t| ensures IsHexDigit(t[i]) {
        assert t[i] == CString(s)[i + 1];
      }
    }
  }

  /** Appending a digit shifts the value by one place. */
  lemma HexValueSnoc(p: seq<byte>, c: byte)
    requires AllHex(p) && IsHexDigit(c)
    ensures AllHex(p + [c]) && HexValue(p + [c]) == 16 * HexValue(p) + DigitValue(c)
  {
    var p' := p + [c];
    assert p'[..|p'| - 1] == p;
    assert forall i :: 0 <= i < |p'| ==> p'[i] == if i < |p| then p[i] else c;
  }

  lemma {:induction false} HexFoldValue(table: seq<int>, s: seq<byte>, p: seq<byte>)
    requires DecodesHex(table) && AllHex(p)
    ensures HexFold(table, s, HexValue(p)) == if AllHex(CString(s)) then HexValue(p + CString(s)) else -1
    decreases |s|
  {
    if s == [] || s[0] == 0 {
      assert p + CString(s) == p;
    } else if IsHexDigit(s[0]) {
      var p' := p + [s[0]];
      HexValueSnoc(p, s[0]);
      HexFoldValue(table, s[1..], p');
      CStringCons(s);
      assert p' + CString(s[1..]) == p + CString(s);
    } else {
      CStringCons(s);
      assert HexFold(table, s[1..], -1) == -1;
    }
  }

  /**
   * `hex_string_to_dec` reads the string up to its first NUL: it returns the
   * value of those digits (0 for the empty string) when all of them are hex
   * digits of either case, and -1 as soon as one is not.
   */
  lemma HexStringToDecValue(s: seq<byte>)
    ensures HexStringToDec(s) == if AllHex(CString(s)) then HexValue(CString(s)) else -1
  {
    HexTableDecodes();
    HexFoldValue(HEXTABLE, s, []);
    assert [] + CString(s) == CString(s);
  }

  /** A string of hex digits holds no NUL, so C reads all of it. */
  lemma {:induction false} CStringOfDigits(s: seq<byte>)
    requires AllHex(s)
    ensures CString(s) == s
    decreases |s|
  {
    if s != [] {
      assert IsHexDigit(s[0]);
      assert AllHex(s[1..]) by {
        forall i | 0 <= i < |s[1..]| ensures IsHexDigit(s[1..][i]) {
          assert s[1..][i] == s[i + 1];
        }
      }
      CStringOfDigits(s[1..]);
      assert [s[0]] + s[1..] == s;
    }
  }

  /** `hex_string_to_dec` of a string of hex digits is its value. */
  lemma HexStringToDecOfDigits(s: seq<byte>)
    requires AllHex(s)
    ensures HexStringToDec(s) == HexValue(s)
  {
    CStringOfDigits(s);
    HexStringToDecValue(s);
  }

  lemma {:induction false} HexFoldStopsAtNul(table: seq<int>, t: seq<byte>, z: seq<byte>, acc: int)
    requires |table| == 256 && (z == [] || z[0] == 0)
    ensures HexFold(table, t + z, acc) == HexFold(table, t, acc)
    decreases |t|
  {
    if t == [] {
      assert t + z == z;
    } else if t[0] != 0 && acc >= 0 {
      assert (t + z)[1..] == t[1..] + z;
      HexFoldStopsAtNul(table, t[1..], z, HexStep(acc, table[t[0]]));
    }
  }

  /** Whatever follows a NUL is never read. */
  lemma HexStringToDecStopsAtNul(t: seq<byte>, z: seq<byte>)
    requires z == [] || z[0] == 0
    ensures HexStringToDec(t + z) == HexStringToDec(t)
  {
    HexTableEntry(0);
    HexFoldStopsAtNul(HEXTABLE, t, z, 0);
  }

  /** `hex_string_to_dec(a + start)` over a buffer, as the C loop runs it. */
  method HexStringToDecAt(a: array<byte>, start: nat) returns (r: int)
    requires start <= a.Length
    ensures r == HexStringToDec(a[start..])
  {
    HexTableEntry(0);
    r := 0;
    var i := start;
    while i < a.Length && a[i] != 0 && r >= 0
      invariant start <= i <= a.Length
      invariant HexFold(HEXTABLE, a[i..], r) == HexStringToDec(a[start..])
    {
      assert a[i..][1..] == a[i + 1..];
      r := HexStep(r, HEXTABLE[a[i]]);
      i := i + 1;
    }
  }

  // ---------------------------------------------------------------------
  // hex_char_to_dec
  // ---------------------------------------------------------------------

  /** The conversion of a small int to a two's-complement `signed char`. */
  function ToSChar(x: int): (r: int)
    requires -0x100 <= x < 0x100
    ensures -128 <= r < 128 && (r - x) % 256 == 0
  {
    if x < -128 then x + 256 else if x >= 128 then x - 256 else x
  }

  /**
   * `hex_char_to_dec`: subtract '0' from a decimal digit and 'A' - 10 from
   * anything else, in `signed char` arithmetic. Worked out for each byte read
   * as unsigned: a byte from 128 on is negative as a `signed char`, and the
   * subtraction wraps for those below 183.
   */
  function HexCharToDec(c: byte): (v: int)
    ensures -128 <= v < 128
  {
    if '0' as int <= c <= '9' as int then c - '0' as int
    else if c < 183 then c - ('A' as int - 10)
    else c - 256 - ('A' as int - 10)
  }

  /** The closed form agrees with the `signed char` computation step by step. */
  lemma HexCharToDecSigned(c: byte)
    ensures var h := ToSChar(c);
      HexCharToDec(c) == ToSChar(if '0' as int <= h <= '9' as int then h - '0' as int else h - 'A' as int + 10)
  {
  }

  /**
   * `hex_char_to_dec` decodes the digits 0-9 and A-F, but not a-f: a lower-case
   * letter comes out as its distance from 'A' plus 10, that is 42..47.
   */
  lemma HexCharToDecUpperOnly(c: byte)
    ensures IsUpperHexDigit(c) ==> HexCharToDec(c) == DigitValue(c)
    ensures 'a' as int <= c <= 'f' as int ==> HexCharToDec(c) == DigitValue(c) + 32
  {
  }
}
