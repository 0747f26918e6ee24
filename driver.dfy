/**
 * The part of `main` (src/main.rs:63-89) after the header line has been read:
 * the version gate, then the loop over the body lines that stops at the first
 * record that does not decode and emits, for every record before it, the
 * duration `end - start`, the output name and the timestamp.
 */
module Driver {
  import opened Wrappers
  import opened Decimal
  import opened Header
  import opened RecordLine

  /** What main prints for one record. */
  datatype Entry = Entry(duration: int, name: seq<byte>, timestamp: i64)

  /** How a run ends. */
  datatype Outcome =
    | Completed
    | HeaderRejected(verdict: Verdict)
    | BadRecord(line: nat, error: DecodeError)

  /** The entries printed, in order, and how the run ended. */
  datatype Report = Report(printed: seq<Entry>, outcome: Outcome)

  /** `record.end - record.start`, taken over the integers. */
  function Duration(r: Record): int {
    r.end - r.start
  }

  function EntryOf(r: Record): Entry {
    Entry(Duration(r), r.name, r.timestamp)
  }

  /** `u64` subtraction as a release build performs it: modulo 2^64. */
  function WrappingSub(a: u64, b: u64): u64 {
    (a - b) % U64_LIMIT
  }

  /** The integer duration is what a release build prints exactly when `end >= start`. */
  lemma WrappingDuration(r: Record)
    ensures WrappingSub(r.end, r.start) == Duration(r) <==> r.end >= r.start
    ensures r.end < r.start ==> WrappingSub(r.end, r.start) == Duration(r) + U64_LIMIT
  {
  }

  // ---------------------------------------------------------------------------
  // The record loop as a function of the body lines

  /** The record loop run from body line `from` on. */
  function Drive(body: seq<seq<byte>>, from: nat): (r: Report)
    requires from <= |body|
    ensures r.outcome.Completed? || (r.outcome.BadRecord? && from <= r.outcome.line < |body|)
    decreases |body| - from
  {
    if from == |body| then Report([], Completed)
    else if IsSkipped(body[from]) then Drive(body, from + 1)
    else
      match DecodeRecord(body[from])
      case Err(e) => Report([], BadRecord(from, e))
      case Ok(rec) =>
        var rest := Drive(body, from + 1);
        Report([EntryOf(rec)] + rest.printed, rest.outcome)
  }

  /** The whole run on a header line and the body lines. */
  function RunResult(header: seq<byte>, body: seq<seq<byte>>): Report {
    var verdict := CheckHeader(header);
    if verdict != Proceed then Report([], HeaderRejected(verdict)) else Drive(body, 0)
  }

  /** The body lines that reach the decoder, in file order. */
  function NonSkipped(lines: seq<seq<byte>>): seq<seq<byte>> {
    if lines == [] then []
    else (if IsSkipped(lines[0]) then [] else [lines[0]]) + NonSkipped(lines[1..])
  }

  function EncodeAll(rs: seq<Record>): seq<seq<byte>> {
    if rs == [] then [] else [EncodeRecord(rs[0])] + EncodeAll(rs[1..])
  }

  function EntriesOf(rs: seq<Record>): seq<Entry> {
    if rs == [] then [] else [EntryOf(rs[0])] + EntriesOf(rs[1..])
  }

  predicate AllPlain(rs: seq<Record>) {
    forall i :: 0 <= i < |rs| ==> IsPlainRecord(rs[i])
  }

  // ---------------------------------------------------------------------------
  // The loop itself

  method Run(header: seq<byte>, body: seq<seq<byte>>) returns (printed: seq<Entry>, outcome: Outcome)
    ensures Report(printed, outcome) == RunResult(header, body)
  {
    printed := [];
    var verdict := CheckHeader(header);
    if verdict != Proceed {
      outcome := HeaderRejected(verdict);
      return;
    }
    var i := 0;
    while i < |body|
      invariant i <= |body|
      invariant Drive(body, 0) == Report(printed + Drive(body, i).printed, Drive(body, i).outcome)
    {
      var line := body[i];
      if !IsSkipped(line) {
        var decoded := DecodeRecord(line);
        if decoded.Err? {
          outcome := BadRecord(i, decoded.error);
          return;
        }
        assert printed + Drive(body, i).printed == (printed + [EntryOf(decoded.value)]) + Drive(body, i + 1).printed;
        printed := printed + [EntryOf(decoded.value)];
      }
      i := i + 1;
    }
    outcome := Completed;
  }

  // ---------------------------------------------------------------------------
  // Properties of the record loop

  /** The loop runs to the end exactly when every line that is not skipped decodes. */
  lemma {:induction false} DriveCompletesIff(body: seq<seq<byte>>, from: nat)
    requires from <= |body|
    ensures Drive(body, from).outcome == Completed <==>
      forall i :: from <= i < |body| && !IsSkipped(body[i]) ==> DecodeRecord(body[i]).Ok?
    decreases |body| - from
  {
    if from < |body| {
      DriveCompletesIff(body, from + 1);
    }
  }

  /**
   * The first line that fails to decode ends the run with its index and error,
   * after the entries of every line before it have been printed.
   */
  lemma {:induction false} DriveStopsAtFirstBadLine(body: seq<seq<byte>>, from: nat, k: nat)
    requires from <= k < |body|
    requires !IsSkipped(body[k]) && DecodeRecord(body[k]).Err?
    requires forall i :: from <= i < k && !IsSkipped(body[i]) ==> DecodeRecord(body[i]).Ok?
    ensures Drive(body, from).outcome == BadRecord(k, DecodeRecord(body[k]).error)
    ensures Drive(body[..k], from) == Report(Drive(body, from).printed, Completed)
    decreases k - from
  {
    if from < k {
      assert body[..k][from] == body[from];
      DriveStopsAtFirstBadLine(body, from + 1, k);
    }
  }

  /** A completed loop prints one entry per line that reaches the decoder, in file order. */
  lemma {:induction false} DrivePrintsDecodedLines(body: seq<seq<byte>>, from: nat)
    requires from <= |body|
    requires Drive(body, from).outcome == Completed
    ensures var lines := NonSkipped(body[from..]);
      var printed := Drive(body, from).printed;
      |printed| == |lines| &&
      forall j :: 0 <= j < |printed| ==>
        DecodeRecord(lines[j]).Ok? && printed[j] == EntryOf(DecodeRecord(lines[j]).value)
    decreases |body| - from
  {
    if from < |body| {
      assert body[from..][0] == body[from] && body[from..][1..] == body[from + 1..];
      DrivePrintsDecodedLines(body, from + 1);
    }
  }

  /** The loop over any interleaving of skipped lines and encoded records prints those records' entries. */
  lemma {:induction false} DriveEncoded(body: seq<seq<byte>>, from: nat, rs: seq<Record>)
    requires from <= |body| && AllPlain(rs)
    requires NonSkipped(body[from..]) == EncodeAll(rs)
    ensures Drive(body, from) == Report(EntriesOf(rs), Completed)
    decreases |body| - from
  {
    if from < |body| {
      assert body[from..][0] == body[from] && body[from..][1..] == body[from + 1..];
      var tail := NonSkipped(body[from + 1..]);
      if IsSkipped(body[from]) {
        assert NonSkipped(body[from..]) == tail;
        DriveEncoded(body, from + 1, rs);
      } else {
        assert NonSkipped(body[from..]) == [body[from]] + tail;
        assert rs != [];
        assert EncodeAll(rs) == [EncodeRecord(rs[0])] + EncodeAll(rs[1..]);
        var enc := EncodeAll(rs);
        assert enc[0] == EncodeRecord(rs[0]) && enc[1..] == EncodeAll(rs[1..]);
        assert ([body[from]] + tail)[1..] == tail;
        DecodeEncode(rs[0]);
        assert AllPlain(rs[1..]) by {
          forall i | 0 <= i < |rs[1..]| ensures IsPlainRecord(rs[1..][i]) {
            assert rs[1..][i] == rs[i + 1];
          }
        }
        DriveEncoded(body, from + 1, rs[1..]);
        assert Drive(body, from) == Report([EntryOf(rs[0])] + Drive(body, from + 1).printed, Completed);
      }
    }
  }

  // ---------------------------------------------------------------------------
  // Properties of a whole run

  /** A header other than a version-5 header ends the run before any record is read. */
  lemma RejectedHeaderPrintsNothing(header: seq<byte>, body: seq<seq<byte>>)
    requires !IsHeaderLine(header) || Value(VersionDigits(header)) != SUPPORTED_VERSION
    ensures RunResult(header, body).printed == []
    ensures RunResult(header, body).outcome == HeaderRejected(CheckHeader(header))
    ensures !IsHeaderLine(header) ==> CheckHeader(header) == BadHeader
    ensures IsHeaderLine(header) ==> CheckHeader(header) == Unsupported(Value(VersionDigits(header)))
  {
    CheckHeaderIff(header);
  }

  /** End to end: a version-5 log of encoded records, with any skipped lines between them, prints their entries. */
  lemma RunEncodedLog(body: seq<seq<byte>>, rs: seq<Record>)
    requires AllPlain(rs) && NonSkipped(body) == EncodeAll(rs)
    ensures RunResult(HeaderLine(SUPPORTED_VERSION), body) == Report(EntriesOf(rs), Completed)
  {
    CheckRendered(SUPPORTED_VERSION);
    assert body[0..] == body;
    DriveEncoded(body, 0, rs);
  }

  /** A version other than 5 fails the run with that version, whatever the body holds. */
  lemma UnsupportedVersionPrintsNothing(v: u8, body: seq<seq<byte>>)
    requires v != SUPPORTED_VERSION
    ensures RunResult(HeaderLine(v), body) == Report([], HeaderRejected(Unsupported(v)))
  {
    CheckRendered(v);
  }

  /** A skipped line between two records leaves both records decoded, in order. */
  lemma SkippedLineBetweenRecords(r1: Record, c: seq<byte>, r2: Record)
    requires IsPlainRecord(r1) && IsPlainRecord(r2)
    requires IsSkipped(c)
    ensures RunResult(HeaderLine(SUPPORTED_VERSION), [EncodeRecord(r1), c, EncodeRecord(r2)])
      == Report([EntryOf(r1), EntryOf(r2)], Completed)
  {
    var e1, e2 := EncodeRecord(r1), EncodeRecord(r2);
    var body := [e1, c, e2];
    var noLines: seq<seq<byte>> := [];
    var noRecords: seq<Record> := [];
    DecodeEncode(r1);
    DecodeEncode(r2);
    assert NonSkipped([e2]) == [e2] by {
      assert [e2][1..] == noLines;
    }
    assert NonSkipped([c, e2]) == [e2] by {
      assert [c, e2][1..] == [e2];
    }
    assert NonSkipped(body) == [e1, e2] by {
      assert body[1..] == [c, e2];
    }
    assert [r1, r2][1..] == [r2];
    assert [r2][1..] == noRecords;
    assert EncodeAll([r2]) == [e2];
    assert EncodeAll([r1, r2]) == [e1] + [e2];
    assert EntriesOf([r2]) == [EntryOf(r2)];
    assert EntriesOf([r1, r2]) == [EntryOf(r1)] + [EntryOf(r2)];
    assert AllPlain([r1, r2]);
    RunEncodedLog(body, [r1, r2]);
  }

  /**
   * A bad record after a good one: the good record's entry has been printed
   * when the run fails at the bad line (a lone field is one field, not five).
   */
  lemma FailureAfterPrintedRecord(r: Record)
    requires IsPlainRecord(r)
    ensures RunResult(HeaderLine(SUPPORTED_VERSION), [EncodeRecord(r), [ZERO]])
      == Report([EntryOf(r)], BadRecord(1, FieldCount(1)))
  {
    var body := [EncodeRecord(r), [ZERO]];
    CheckRendered(SUPPORTED_VERSION);
    DecodeEncode(r);
    assert DecodeRecord([ZERO]) == Err(FieldCount(1)) by {
      assert TAB !in [ZERO];
    }
    assert Drive(body, 1) == Report([], BadRecord(1, FieldCount(1)));
    assert Drive(body, 0) == Report([EntryOf(r)] + Drive(body, 1).printed, Drive(body, 1).outcome);
  }

  /** A version-5 log with one record prints that record's entry and completes. */
  lemma SingleRecordLog(r: Record)
    requires IsPlainRecord(r)
    ensures RunResult(HeaderLine(SUPPORTED_VERSION), [EncodeRecord(r)]) == Report([EntryOf(r)], Completed)
  {
    assert AllPlain([r]);
    assert NonSkipped([EncodeRecord(r)]) == EncodeAll([r]) by {
      DecodeEncode(r);
      assert |[EncodeRecord(r)][1..]| == 0;
      assert |[r][1..]| == 0;
    }
    RunEncodedLog([EncodeRecord(r)], [r]);
    assert EntriesOf([r]) == [EntryOf(r)] by {
      assert |[r][1..]| == 0;
    }
  }

  /** The log `# ninja log v5`, then `100 150 1700000000000000000 foo.o abcde` tab-separated, prints duration 50. */
  lemma ExampleLog()
    ensures var r := Record(100, 150, 1700000000000000000, [0x66, 0x6f, 0x6f, 0x2e, 0x6f], [0x61, 0x62, 0x63, 0x64, 0x65]);
      RunResult(MAGIC + [0x35, LF], [EncodeRecord(r)])
      == Report([Entry(50, [0x66, 0x6f, 0x6f, 0x2e, 0x6f], 1700000000000000000)], Completed)
  {
    var r := Record(100, 150, 1700000000000000000, [0x66, 0x6f, 0x6f, 0x2e, 0x6f], [0x61, 0x62, 0x63, 0x64, 0x65]);
    assert HeaderLine(SUPPORTED_VERSION) == MAGIC + [0x35, LF];
    SingleRecordLog(r);
  }
}
