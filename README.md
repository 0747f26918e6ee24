# ninja-log-read-rs, modelled in Dafny

`ninja-log-read-rs` reads a `.ninja_log` file. The first line must be the
header `# ninja log v<N>` with `N` a decimal byte. Only version 5 is
accepted. Each later line is a tab-separated record of `start`, `end`,
`timestamp` (nanoseconds), output `name` and a hash. For every record the
program prints `end - start`, the name and the timestamp. It stops at the
first record that does not decode.

This project models that core as it is written in `src/main.rs`:

- `decimal.dfy` (module `Decimal`): bytes, ASCII digits, the value of a digit
  string, and the canonical decimal rendering used by the round-trip lemmas.
- `header.dfy` (module `Header`): the nom combinators that the header parser
  uses. `tag`, `character::complete::u8` (greedy digits with checked
  arithmetic), `newline` and `all_consuming` become functions over
  `seq<byte>` returning nom's `IResult` (rest and value, or the input at the
  failure and its `ErrorKind`). On top of them sit `ParseHeaderHelp` and
  `ParseHeader`, an independent description of the header language
  (`IsHeaderLine`), and the version gate `CheckHeader` with its three
  outcomes `Proceed`, `BadHeader` and `Unsupported(v)`.
- `record.dfy` (module `RecordLine`): the `Record` shape and the reader
  configuration. There is no header row, a line whose first byte is `#` is a
  comment, and fields are split on tab. `start` and `end` are decoded as
  `u64` under Rust's `str::parse` rules. `timestamp` is decoded as the `i64`
  nanosecond count that chrono's `ts_nanoseconds` deserializer reads. An
  encoder `EncodeRecord` is the partner of the decoder.
- `driver.dfy` (module `Driver`): `main` from the header check onwards. The
  spec function `Drive` describes the record loop. The method `Run` is the
  imperative loop, and it is proved to compute `RunResult` (gate, then
  `Drive`). The lemmas state completion, stopping at the first bad line after
  the earlier entries were printed, file order, and end-to-end round trips.
- `wrappers.dfy` (module `Wrappers`): `Option` and `Result`.

The timestamp is read by chrono's `ts_nanoseconds`, which deserializes a
signed 64-bit nanosecond count, so the model uses `i64`.

Body lines are given to the model as byte sequences without their line
terminators. A line that the reader does not hand to the decoder is
"skipped". That is a comment line (first byte `#`) or an empty line: the
`csv` reader ignores blank lines.

## Model

| member | source | states |
|---|---|---|
| `Header.U8Run` | src/main.rs:30 | nom's `u8` reads the longest run of digits. It succeeds exactly when the run is non-empty and its value is at most 255, and then leaves the bytes after the run. |
| `Header.ParseHeader` | src/main.rs:36-38 | Whenever `parse_header` succeeds, the remaining input is empty. |
| `Header.HelpLeavesRest` | src/main.rs:28-34 | `parse_header_help` consumes `# ninja log v<n>\n` and returns `n` together with whatever follows, unchanged. |
| `Header.ParseRendered` | src/main.rs:28-38 | Round trip: for every `n` in 0..255, the header line rendered for `n` parses to `n` with an empty remainder. |
| `Header.TrailingBytesRejected` | src/main.rs:37 | Any byte after the newline makes `parse_header` fail with an end-of-input error on exactly those bytes. |
| `Header.MissingNewlineRejected` | src/main.rs:31 | A header without its newline fails in `newline`, on empty input. |
| `Header.WrongPrefixRejected` | src/main.rs:29 | Input not starting with `# ninja log v` fails at the tag, and the error holds the whole input. |
| `Header.ParseHeaderIff` | src/main.rs:28-38 | `parse_header` succeeds exactly on the header language: the prefix, one or more digits of value at most 255, a newline, nothing more. On success the version is the digits' value and the remainder is empty. |
| `Header.HeaderExamples` | src/main.rs:96-102 | The test cases: `v5\n` gives 5, `v4\n` gives 4 (the parser does not check compatibility), and `v4` without a newline fails. |
| `Header.CheckHeaderIff` | src/main.rs:63-70 | The gate gives `Proceed` exactly for a header line of version 5. It gives `BadHeader` exactly for an unparsable line, and `Unsupported(v)` exactly for a header line of version `v` other than 5. |
| `Header.CheckRendered` | src/main.rs:63-70 | On the rendered header of version `n`, the gate proceeds when `n` is 5 and otherwise reports `Unsupported(n)`. |
| `RecordLine.Split` | src/main.rs:76 | Tab splitting gives at least one field. No field contains the delimiter, and joining the fields with it gives back the line. |
| `RecordLine.SplitCount` | src/main.rs:76 | There is exactly one more field than there are delimiters in the line. |
| `RecordLine.SplitJoin` | src/main.rs:76 | Splitting delimiter-free fields joined by the delimiter gives back the same fields. |
| `RecordLine.ParseU64` | src/main.rs:20-21 | A `u64` field that parses consists of digits, with at most a leading `+`. |
| `RecordLine.ParseU64Render` | src/main.rs:20-21 | Every `u64` value parses back from its decimal rendering. |
| `RecordLine.ParseU64RejectsMinus` | src/main.rs:20-21 | An unsigned field starting with `-` never parses. |
| `RecordLine.ParseI64` | src/main.rs:22-23 | A timestamp field that parses consists of digits, with at most a leading sign. |
| `RecordLine.ParseI64Render` | src/main.rs:22-23 | Every `i64` nanosecond count, negative ones included, parses back from its signed decimal rendering. |
| `RecordLine.DecodeEncode` | src/main.rs:18-26 | Round trip: a record whose name and hash are plain text (no tab, quote, line feed or carriage return) is not a skipped line once encoded, and it decodes back to the same record. |
| `RecordLine.DecodeIff` | src/main.rs:18-26 | A line decodes exactly when it has four tabs and its first three fields parse as `u64`, `u64` and `i64`. The name is the fourth field. Any other tab count gives a field-count error, never a partial record. |
| `Driver.WrappingDuration` | src/main.rs:81 | The integer duration equals the wrapped `u64` difference exactly when `end >= start`. Otherwise the wrapped value is 2^64 larger. |
| `Driver.Drive` | src/main.rs:79-87 | The record loop either completes, or it stops with a failure at a line index inside the part of the body still to be read. |
| `Driver.Run` | src/main.rs:63-89 | The imperative gate and loop compute exactly `RunResult`: the gate's verdict, then `Drive` over the body. |
| `Driver.DriveCompletesIff` | src/main.rs:79-80 | The loop completes exactly when every line that is not skipped decodes. |
| `Driver.DriveStopsAtFirstBadLine` | src/main.rs:79-80 | The first line that fails to decode ends the run with that line's index and error. By then, every entry from the lines before it has been printed. |
| `Driver.DrivePrintsDecodedLines` | src/main.rs:79-86 | A completed loop prints one entry per non-skipped line, in file order. Each entry is built from that line's decoded record. |
| `Driver.DriveEncoded` | src/main.rs:73-86 | Over any interleaving of skipped lines and encoded plain-text records, the loop completes and prints exactly those records' entries, in order. |
| `Driver.RejectedHeaderPrintsNothing` | src/main.rs:63-70 | A header that is not a version-5 header line prints nothing. The run ends with `BadHeader` if the line does not parse, and with `Unsupported(v)` carrying the version read otherwise. |
| `Driver.UnsupportedVersionPrintsNothing` | src/main.rs:65-66 | A well-formed header of any version other than 5 fails the run with that version, whatever the body holds. |
| `Driver.RunEncodedLog` | src/main.rs:63-89 | End to end: a version-5 header followed by encoded plain-text records and any skipped lines completes and prints the records' entries. |
| `Driver.SkippedLineBetweenRecords` | src/main.rs:75 | A comment or blank line between two records is skipped, and both records are printed in order. |
| `Driver.FailureAfterPrintedRecord` | src/main.rs:79-80 | A good record followed by a malformed line prints the good record's entry, then fails at line 1 with a field-count error. |
| `Driver.SingleRecordLog` | src/main.rs:79-86 | A version-5 log with one record prints that record's entry and completes. |
| `Driver.ExampleLog` | src/main.rs:81-86 | The concrete log `100 150 1700000000000000000 foo.o abcde` prints duration 50, the name `foo.o` and the raw timestamp. |

## Left out

- Command-line parsing with `clap` (src/main.rs:41-53): argument glue.
- Opening the file and reading the header line with `BufReader::read_until` (src/main.rs:55-62). The header line and the body lines are given as byte sequences, and I/O errors are not modelled.
- How the `csv` reader splits the body into lines. The model takes lines without terminators, so `\r\n` and `\r` handling are not modelled.
- The `csv` reader's quoting and escaping. Lines containing `"` are outside the model, and the round-trip lemmas only cover names and hashes without tab, quote, line feed or carriage return.
- RecordLine.DecodeRecord: rejects every line that does not have exactly five fields. The program reads a record as a sequence and ignores fields after the fifth, so a six-field first record decodes there. Later records of another length then fail with the `csv` reader's unequal-lengths error. Neither behaviour is modelled.
- RecordLine.DecodeRecord: checks the field count before any field. On the first record the program reads the fields in order and fails at the first bad one, so `x` tab `1` fails there with a parse error on field 0, where the model gives `FieldCount(2)`.
- RecordLine.DecodeRecord: the name and hash are kept as bytes, so the UTF-8 validation that `String` fields impose is not modelled.
- RecordLine.ParseU64: follows Rust's `str::parse` rules only. The `csv` deserializer reads a field starting with `0x` as hexadecimal, so `0x10` is 16 in the program, while the model rejects it.
- RecordLine.ParseI64: the same hexadecimal `0x` form applies to the timestamp, which chrono reads through `deserialize_i64`. The model rejects it.
- The chrono conversion of the timestamp to `DateTime<Utc>` and then `DateTime<Local>` (src/main.rs:22-23, 85). This is time-zone logic, so the timestamp stays an `i64` nanosecond count.
- The `println!` formatting (src/main.rs:82-86). An `Entry` holds the three printed values.
- The text of the `anyhow` error messages and their contexts (src/main.rs:66, 69, 80). The `Outcome` constructors stand in for them.
- The failing line's position: `BadRecord` carries the 0-based index of the failing body line, not the `csv` crate's position record.
- Driver.Duration: computed over `int`, so `end < start` gives a negative value. The model does not show the debug-build panic or the release-build wrap-around of `u64` subtraction at src/main.rs:81. `WrappingDuration` relates the two semantics.
