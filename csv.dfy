/**
 * The series total of `hash_nfts`: the number of records after the header, as
 * counted by a plain CSV reader, against the number of rows the dictionary
 * reader of the second pass yields.
 */
module Csv {
  import opened Wrappers

  /** One line of the file as the CSV reader splits it; a blank line is `[]`. */
  type Record = seq<string>

  /** `next(reader)` on a file without any line raises `StopIteration`. */
  datatype CsvError = MissingHeader

  /** `sum(1 for row in reader)`: one for every record that is left. */
  function CountRecords(records: seq<Record>): (n: nat)
    ensures n == |records|
  {
    if records == [] then 0 else 1 + CountRecords(records[1..])
  }

  /** The series total as written: every record after the header counts. */
  function SeriesTotalAsWritten(table: seq<Record>): (total: Result<nat, CsvError>)
    ensures table == [] <==> total == Failure(MissingHeader)
    ensures table != [] ==> total == Success(|table| - 1)
  {
    if table == [] then Failure(MissingHeader) else Success(CountRecords(table[1..]))
  }

  /** The number of blank records. */
  function Blanks(records: seq<Record>): (n: nat)
    ensures n <= |records|
  {
    if records == [] then 0 else (if records[0] == [] then 1 else 0) + Blanks(records[1..])
  }

  /** The records the dictionary reader turns into rows: blank ones are skipped. */
  function DictReaderRecords(records: seq<Record>): (rows: seq<Record>)
    ensures forall k :: 0 <= k < |rows| ==> rows[k] != []
    ensures forall r :: r in rows <==> r in records && r != []
    ensures |rows| == |records| - Blanks(records)
  {
    if records == [] then []
    else (if records[0] == [] then [] else [records[0]]) + DictReaderRecords(records[1..])
  }

  /** The rows of two stretches of records are those of the first, then those of the second. */
  lemma {:induction false} DictReaderRecordsAppend(a: seq<Record>, b: seq<Record>)
    ensures DictReaderRecords(a + b) == DictReaderRecords(a) + DictReaderRecords(b)
  {
    if a != [] {
      var first := if a[0] == [] then [] else [a[0]];
      assert (a + b)[0] == a[0] && (a + b)[1..] == a[1..] + b;
      assert DictReaderRecords(a + b) == first + DictReaderRecords(a[1..] + b);
      DictReaderRecordsAppend(a[1..], b);
      assert DictReaderRecords(a) == first + DictReaderRecords(a[1..]);
    } else {
      assert a + b == b;
    }
  }

  /** Without blank records the dictionary reader yields every record, unchanged. */
  lemma {:induction false} NoBlankKeepsAll(records: seq<Record>)
    requires forall k :: 0 <= k < |records| ==> records[k] != []
    ensures DictReaderRecords(records) == records
  {
    if records != [] {
      assert forall k :: 0 <= k < |records[1..]| ==> records[1..][k] == records[k + 1];
      NoBlankKeepsAll(records[1..]);
    }
  }

  /** A blank record is counted by `Blanks`. */
  lemma {:induction false} BlankCounted(records: seq<Record>, i: nat)
    requires i < |records| && records[i] == []
    ensures Blanks(records) > 0
  {
    if i > 0 {
      BlankCounted(records[1..], i - 1);
    }
  }

  /** The series total meant: the number of rows the second pass iterates over. */
  function SeriesTotal(table: seq<Record>): (total: Result<nat, CsvError>)
    ensures table == [] <==> total == Failure(MissingHeader)
    ensures table != [] ==> total == Success(|table| - 1 - Blanks(table[1..]))
  {
    if table == [] then Failure(MissingHeader) else Success(|DictReaderRecords(table[1..])|)
  }

  /**
   * The two counts agree exactly when no record after the header is blank;
   * otherwise the count as written is the larger, by the number of blank lines.
   */
  lemma AsWrittenAgreesIffNoBlank(table: seq<Record>)
    requires table != []
    ensures SeriesTotalAsWritten(table) == SeriesTotal(table)
      <==> forall k :: 1 <= k < |table| ==> table[k] != []
    ensures SeriesTotalAsWritten(table).value == SeriesTotal(table).value + Blanks(table[1..])
  {
    var records := table[1..];
    if exists k :: 1 <= k < |table| && table[k] == [] {
      var k :| 1 <= k < |table| && table[k] == [];
      BlankCounted(records, k - 1);
    } else {
      assert forall k :: 0 <= k < |records| ==> records[k] == table[k + 1];
      NoBlankKeepsAll(records);
    }
  }

  /**
   * A header, a row, a blank line and a row (`Teams\nA\n\nB\n`): the count as
   * written is 3, but the dictionary reader yields only 2 rows.
   */
  lemma BlankLineOvercounts()
    ensures SeriesTotalAsWritten([["Teams"], ["A"], [], ["B"]]) == Success(3)
    ensures SeriesTotal([["Teams"], ["A"], [], ["B"]]) == Success(2)
  {
    var records: seq<Record> := [["A"], [], ["B"]];
    assert [["Teams"], ["A"], [], ["B"]][1..] == records;
    assert records[1..] == [[], ["B"]];
    assert records[1..][1..] == [["B"]];
  }
}
