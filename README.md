# Motorola S-record stream parser, modelled in Dafny

This project models the parser in `src/parser/parser.c` of Srec_CParser. It is fed one
character at a time. From the line `S<type><count><address><data><checksum>\r\n` it builds a
`t_record_info` and publishes it to `record_info` when the line ends.

The model has seven modules:

- `SrecHex` (hex.dfy) covers `hextable`, `hex_string_to_dec` and `hex_char_to_dec`.
  `hextable` and `hex_string_to_dec` are proved to agree with a reference definition of hex
  digits and their values (`IsHexDigit`, `DigitValue`, `HexValue`). `hex_char_to_dec` agrees on
  0-9 and A-F only, and reads a-f as their value plus 32.
- `SrecRecord` (record.dfy) covers `REC_ADD_LEN`, `map_to_record_type` / `find_record_type`,
  `find_record_count`, `find_record_address` and the `t_record_info` record.
- `SrecChecksum` (checksum.dfy) covers `verify_checksum`. On lines written in upper-case hex digits it
  is proved to agree with the S-record rule: the bytes of the count, address, data and checksum
  fields add up to 0xFF modulo 256. Lines in lower-case digits are misjudged
  (`LowercaseChecksumMisjudged`).
- `SrecFsm` (fsm.dfy) covers `record_parse_sync` as a function of values. `ParseByte` maps a
  `ParserState` and one byte to the next state and the answer. It has one step function per case
  of the switch and an invariant `Inv` that every step keeps.
- `SrecParser` (parser.dfy) covers the statics of `parser.c` as the fields of a class
  `RecordParser`:
  - `record_buffer` is an array;
  - `Feed` is `record_parse_sync`, with one method per case of the switch;
  - `GetRecord` is `get_record_info`.

  `Feed` is proved to perform exactly one `ParseByte` step.
- `SrecLine` (line.dfy) feeds whole lines. It defines the well-formed lines (`Accepted`) and
  proves that every such line is parsed whole:
  - the answers are `PARSER_BUSY` twice, then `PARSE_ERROR`, then `PARSE_OK` for the last byte;
  - the record published is the one the line spells;
  - the parser ends back in its initial state.
- `SrecDecoded` (decoded.dfy) covers lines written in upper-case hex digits whose type has an
  address field. On such a line, the published count, address and checksum are the hex values
  of their fields, and the checksum verdict follows the S-record rule. The restriction to upper
  case is only needed for the checksum verdict; the record half is stated for the same lines so
  that both halves speak of one set of lines. S5 is excluded because it has no address field
  (see "## Left out").

`RECORD_LENGTH` is not defined in the files modelled, so it is a parameter: the length of the
buffer, with 4 < `RECORD_LENGTH` <= 255 (`byte_cnt` is an `unsigned char`). Characters are bytes
0..255, which means a `char` is read as unsigned. The constants from `parser.h` are taken as
`BYTES_FOR_TYPE` = 2, `BYTES_FOR_COUNT` = 4, `BYTES_FOR_CSUM` = 2, `BYTES_FOR_STREAM_END` = 2 and
`JOIN_TWO_NUMBERS(h, l)` = `h * 16 + l`. `parser.h` is not part of this model.

`REC_ADD_LEN` gives S7 a 4-byte address, as the Motorola format does, and the model follows it.

## Model

| member | source | states |
|---|---|---|
| SrecHex.HexTableDecodes | src/parser/parser.c:38-50 | `hextable` maps each of 0-9, A-F and a-f to its digit value, and every other byte to -1 |
| SrecHex.HexTableEntry | src/parser/parser.c:38-50 | the table has 256 entries, and entry `c` is the value of `c` if it is a hex digit and -1 otherwise |
| SrecHex.HexStringToDecValue | src/parser/parser.c:61-67 | `hex_string_to_dec` (the function `HexStringToDec`, a fold `HexFold` over the string) returns the hex value of the characters before the first NUL if all are hex digits (either case), and -1 otherwise |
| SrecHex.HexStringToDecStopsAtNul | src/parser/parser.c:63 | nothing after a NUL changes the result |
| SrecHex.HexStringToDecOfDigits | src/parser/parser.c:61-67 | a string made only of hex digits decodes to its hex value |
| SrecHex.CStringOfDigits | src/parser/parser.c:63 | a string of hex digits holds no NUL, so it is read whole |
| SrecHex.HexStringToDecAt | src/parser/parser.c:61-67 | the `while` loop over the buffer from `start` returns `hex_string_to_dec` of that suffix |
| SrecHex.HexCharToDecSigned | src/parser/parser.c:76-87 | the closed form `HexCharToDec` of `hex_char_to_dec` equals the `signed char` computation for every byte |
| SrecHex.HexCharToDecUpperOnly | src/parser/parser.c:76-87 | 0-9 and A-F decode to their digit values; a-f decode to their value plus 32 |
| SrecRecord.RecAddLen | src/parser/parser.c:24-33 | the table entry is -1 exactly for S4, and between 0 and 4 otherwise |
| SrecRecord.AddressFieldChars | src/parser/parser.c:24-33 | the address field is 4 characters for S0/S1/S9, 6 for S2/S6/S8 and 8 for S3/S7; S5 has none and S4 has none defined |
| SrecRecord.MapToRecordType | src/parser/parser.c:98-153 | the type is valid exactly for 'S' then a decimal digit, or a digit then 'S' when the first byte is not 'S'; the digit read is the one next to the 'S' |
| SrecRecord.FindRecordCount | src/parser/parser.c:163-177 | the count is an `unsigned short`; -1 becomes 0xFFFF, and values below 0x10000 are kept |
| SrecRecord.FindRecordAddress | src/parser/parser.c:191-205 | the address is the hex value of the field up to its NUL when that is all hex digits, and -1 otherwise |
| SrecChecksum.VerifyChecksumComplement | src/parser/parser.c:216-239 | `verify_checksum` (the function `VerifyChecksum`, its loop `ChecksumLoop`, pairs joined by `Join` as `JOIN_TWO_NUMBERS` does) passes exactly when the pairs from index 2 up to `length - 2` plus the last pair make 0xFF modulo 256 |
| SrecChecksum.VerifyChecksumPrefix | src/parser/parser.c:216-239 | the check reads only the first `length` characters |
| SrecChecksum.VerifyChecksumAt | src/parser/parser.c:216-239 | the `for` loop over the buffer returns `verify_checksum` |
| SrecChecksum.VerifyChecksumUpperLine | src/parser/parser.c:216-239 | on upper-case hex digits, the check passes exactly when the line's fields satisfy the S-record checksum rule |
| SrecChecksum.LowercaseChecksumMisjudged | src/parser/parser.c:225-231 | the correct line "S1030000fc" fails the check, because lower-case digits are misread |
| SrecFsm.CountCheckAsWrittenOverruns | src/parser/parser.c:296 | the count check as written accepts the count "FF" = 255 with `RECORD_LENGTH` 255, for a 516-byte line; the model's check rejects it |
| SrecFsm.Thresholds | src/parser/parser.c:310-366 | with a defined layout the field thresholds rise strictly, and the stream-end threshold is the line length |
| SrecFsm.Initial | src/parser/parser.c:254-262 | the zero-initialised statics satisfy the invariant |
| SrecFsm.TypeStep | src/parser/parser.c:270-287 | `PARSER_BUSY` unless the second byte completes an invalid type; an invalid type answers `PARSE_ERROR` and resets the count; a valid type moves to the count state |
| SrecFsm.CountStep | src/parser/parser.c:288-307 | always `PARSE_ERROR`; the fourth byte decodes the count from characters 2-3; an accepted count moves to the address state, and a rejected one resets the counter and stays |
| SrecFsm.AddressStep | src/parser/parser.c:308-324 | always `PARSE_ERROR`; the invariant is kept; the byte is buffered, or the line is dropped (the guard under Left out) |
| SrecFsm.DataStep | src/parser/parser.c:325-340 | always `PARSE_ERROR`; the invariant is kept; the byte is buffered and nothing is published |
| SrecFsm.ChecksumStep | src/parser/parser.c:341-360 | always `PARSE_ERROR`; once the field is in, moves to the stream end and records whether `verify_checksum` failed |
| SrecFsm.EndStep | src/parser/parser.c:361-384 | `PARSE_OK` exactly on the last byte of the line; it then publishes the local record and restarts with a zeroed buffer and record |
| SrecFsm.ParseByte | src/parser/parser.c:250-392 | each call (the byte written and counted by `Written`, as at lines 265-267, then the case of the state) keeps the invariant (including `byte_cnt < RECORD_LENGTH`) and buffers the byte or clears the buffer; `PARSER_BUSY` comes only from the type state; `PARSE_OK` comes exactly on a line's last byte, which publishes the line; `record_info` is written nowhere else |
| SrecParser.RecordParser.constructor | src/parser/parser.c:254-262 | a new parser is in the initial state, with a zeroed buffer of `RECORD_LENGTH` bytes |
| SrecParser.RecordParser.ClearBuffer | src/parser/parser.c:377 | `memset` zeroes the whole buffer |
| SrecParser.RecordParser.Feed | src/parser/parser.c:250-392 | the new fields and the answer are exactly one `ParseByte` step from the old fields |
| SrecParser.RecordParser.TypeCase | src/parser/parser.c:270-287 | the type case updates the fields as `TypeStep` does |
| SrecParser.RecordParser.CountCase | src/parser/parser.c:288-307 | the count case updates the fields as `CountStep` does |
| SrecParser.RecordParser.AddressCase | src/parser/parser.c:308-324 | the address case updates the fields as `AddressStep` does |
| SrecParser.RecordParser.DataCase | src/parser/parser.c:325-340 | the data case updates the fields as `DataStep` does |
| SrecParser.RecordParser.ChecksumCase | src/parser/parser.c:341-360 | the checksum case updates the fields as `ChecksumStep` does |
| SrecParser.RecordParser.EndCase | src/parser/parser.c:361-384 | the stream-end case updates the fields as `EndStep` does |
| SrecParser.RecordParser.GetRecord | src/parser/parser.c:403-416 | `get_record_info` returns `PARSE_OK` and a copy of the published record |
| SrecLine.Run | src/parser/parser.c:250-392 | a sequence of calls keeps the invariant and the buffer length, and gives one answer per byte |
| SrecLine.SpellsLineRecord | src/parser/parser.c:270-360 | a line spells a record and a verdict exactly when it is accepted and they are its own record and verdict |
| SrecLine.RunSpelledLine | src/parser/parser.c:250-392 | a line that spells a record, fed to a waiting parser, gives `PARSER_BUSY` twice, `PARSE_ERROR` up to its last byte and then `PARSE_OK`; the record is published with its verdict and the parser is back at its start |
| SrecLine.ParseLine | src/parser/parser.c:250-392 | every accepted line is parsed whole into its own record, with the answers above |
| SrecDecoded.UpperCount | src/parser/parser.c:288-300 | on an upper-case line the count is the hex value of characters 2-3 |
| SrecDecoded.UpperAddress | src/parser/parser.c:308-320 | on an upper-case line the address is the hex value of the address field |
| SrecDecoded.UpperCsum | src/parser/parser.c:341-349 | on an upper-case line the checksum is the hex value of the two characters before CR LF |
| SrecDecoded.UpperLineRecord | src/parser/parser.c:270-360 | on an upper-case line the record is the line's reference reading (type, decoded count, address, checksum, and the data characters) |
| SrecDecoded.UpperLineChecksum | src/parser/parser.c:341-360 | on an upper-case line the recorded mismatch holds exactly when the S-record checksum rule fails |
| SrecDecoded.ParseUpperLine | src/parser/parser.c:250-392 | for any `RECORD_LENGTH`, an accepted upper-case line fed to a waiting parser publishes its reference reading, with the mismatch flag set exactly when its checksum is wrong |
| SrecDecoded.S5AddressIsFirstDataDigit | src/parser/parser.c:308-320 | an S5 line ("S5031203E7" CR LF) is accepted, and its stored address is the value of its first data character, 1, since the address state decodes `record_buffer + 4` after five bytes |

## Left out

- Logging (`console_logger`) is left out. The model has a `csumMismatch` field in its place, holding the checksum verdict that `parser.c:351-353` only logs; the source keeps it nowhere.
- The null-pointer checks of `find_record_type`, `find_record_count`, `find_record_address` and `get_record_info` are left out: Dafny values cannot be null.
- The `t_parser` singleton and `main.c` are left out: they only wire up and call the two operations.
- `record_end_cnt` is left out: it is written but never read.
- The `default:` branch of the switch is left out: the state is a datatype with exactly the six states, so it cannot be reached.
- SrecHex.HexStringToDec: integers are unbounded, so `long` overflow is not modelled. This assumes a 64-bit `long`, which overflows only past 15 hex digits, longer than any field the parser decodes. With a 32-bit `long` an 8-digit S3/S7 address such as `FFFFFFFF` would overflow.
- SrecRecord.RecordInfo: the field widths of `t_record_info` are declared in `parser.h` and are assumed wide enough for what is stored. `count` keeps 16 bits. `address_len` and `data_len` are unbounded. `csum` keeps the -1 of `hex_string_to_dec`, where an `unsigned char` field would hold 0xFF.
- SrecFsm.CountAccepted: the model's count check also requires that the whole line, `2 * count + 6` bytes, fits `RECORD_LENGTH`. As written, the check lets `record_buffer` overrun (see Findings).
- SrecLine.ParseLine: only the well-formed lines (`Accepted`) are shown to be parsed whole. Other inputs can also end in `PARSE_OK`. After a rejected count the parser stays in the count state with the counter at 0 (`parser.c:301-305`) and reads a new count from the next four bytes.
- SrecDecoded.UpperLine: S5 lines are not covered. S5 has no address field (`REC_ADD_LEN` 0), so the address state fires on the fifth byte and decodes `record_buffer + 4` up to the NUL after it (`parser.c:312-318`). The stored address is then the value of the first data character: for "S5031203E7\r\n" it is 1 (`SrecDecoded.S5AddressIsFirstDataDigit`). The model reproduces this, and `SrecLine.ParseLine` covers S5 lines with that address.
- SrecFsm.AddressStep: an S4 type (`REC_ADD_LEN` -1) or a count below the address bytes plus one (negative `data_len`) has no defined meaning in the source. The model drops such a line on its first address byte, as a finished line is dropped but without publishing it.
- The `data` field of `t_record_info` is modelled as the copied characters. The source's array width is not modelled.
- Characters are read as unsigned bytes. A negative `char` index into `hextable` is not modelled.
- `RECORD_LENGTH` and the `parser.h` constants are parameters or the assumed values given above; `parser.h` is not part of this model.

## Findings

| source | as written | input that shows it | evidently intended | confidence | as-written member | corrected member |
|---|---|---|---|---|---|---|
| src/parser/parser.c:296 | the count is accepted when it is non-zero and at most `RECORD_LENGTH` | count field "FF" (255) with `RECORD_LENGTH` 255: the line is 516 bytes, so `record_buffer[byte_cnt]` is written past its end | accept only counts whose whole line, `2 * count + 6` bytes, fits the buffer | not executed | SrecFsm.CountCheckAsWrittenOverruns | SrecFsm.ParseByte |

The corrected check is `SrecFsm.CountAccepted`. `ParseByte` uses it, and its preserved invariant
`Inv` keeps `byte_cnt < RECORD_LENGTH` on every call. `SrecLine.ParseLine` shows that every `Accepted`
line is parsed whole. The corrected count check alone does not make a line `Accepted`: its layout
must also fit its type, or it is dropped on its first address byte.
