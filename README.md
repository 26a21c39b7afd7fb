# hash_nfts in Dafny

`hash_nfts.py` reads a CSV file of NFT rows. It gives every row the team name
of the block it belongs to and builds a CHIP-0007 metadata document for the
row. It then hashes that document with SHA-256 and writes the row back with a
`Hash` column. This project models that per-row transformation and the driver
loop around it, and proves what they compute.

The project has six modules, one per file:

- `Wrappers` (`wrappers.dfy`) holds `Option` and `Result`.
- `Text` (`text.dfy`) holds the two Python string operations the code uses.
  `Split` is `str.split(sep)` for a one-character separator: it always yields
  at least one piece, and `"".split(";")` is `[""]`. `Strip` is `str.strip()`
  over the ASCII whitespace Python recognises. Both come with the lemmas the
  parser needs, among them the split/join round trip and the
  characterization of stripping.
- `Attributes` (`attributes.dfy`) models the attribute loop of
  `generate_json`. The `Attributes` cell is split on `;`. Each segment must
  unpack on `:` into exactly two names, which happens exactly when it holds
  one colon. If every segment does, the list is the gender entry followed by
  one stripped `{trait_type, value}` entry per segment. If any segment does
  not, the whole list is the raw cell. The method `GenerateAttributes` keeps
  the loop with its `break`. The recursive function `ParseAttributes` is its
  specification.
- `Document` (`document.dfy`) models the document `generate_json` builds and
  the json file path `json_dir / Filename`. A missing column is the
  `KeyError` the code raises. It is modelled as `Failure(MissingField(name))`
  for the first column read, in the order the code reads them.
- `Pipeline` (`pipeline.dfy`) models the row loop of `hash_nfts`. The method
  `HashNfts` carries `current_team` across the rows, builds and hashes each
  document, and hands each row with its `Hash` to the CSV writer. A
  `KeyError` stops the loop after the rows before it have been handed on.
  The specification of the carry-forward is the fold `CarryForward`.
  Each carried value is proved to be the last non-empty team so far.
- `Csv` (`csv.dfy`) models how `series_total` is counted. The first pass
  counts the records after the header with a plain `csv.reader`. The second
  pass iterates a `csv.DictReader`. The two disagree when the file has a
  blank line (see Findings).

Serialization (`json.dump`) and hashing (`hashlib.sha256(...).hexdigest()`)
are passed to the driver as the function parameters `serialize` and
`sha256hex`. The model states which document is hashed, not which digest
comes out. `HashNfts` takes the rows the dictionary reader yields and the
`series_total` of the first pass as parameters, as `generate_json` does. The
program passes the count `Csv.SeriesTotalAsWritten`. The corrected count
`Csv.SeriesTotal` equals the number of rows.

The run is not atomic: the loop hands each row to the writer as soon as it is
hashed. The collection id is the row's `UUID` cell.

## Model

| member | source | states |
|---|---|---|
| Text.Split | hash_nfts.py:17-22 | `str.split(sep)`: at least one piece; characterized by Text.SplitCount, Text.SplitPiecesFree, Text.JoinSplit and Text.SplitJoin |
| Text.Strip | hash_nfts.py:33 | `str.strip()`: characterized by Text.StripCharacterized, Text.StripIdempotent and Text.StripUnchanged |
| Text.SplitAround | hash_nfts.py:17 | splitting `s + sep + t` gives the pieces of `s` followed by the pieces of `t` |
| Text.SplitWithoutSeparator | hash_nfts.py:22 | a string without the separator splits into itself alone |
| Text.SplitOnce | hash_nfts.py:22 | `left + sep + right`, with no separator on either side, splits into exactly `[left, right]` |
| Text.SplitCount | hash_nfts.py:17-22 | the number of pieces is one more than the number of separators |
| Text.SplitPiecesFree | hash_nfts.py:17 | no piece contains the separator |
| Text.JoinSplit | hash_nfts.py:17 | joining the pieces with the separator gives back the original string |
| Text.SplitJoin | hash_nfts.py:17 | splitting the join of separator-free pieces gives back the pieces |
| Text.TrimStartCharacterized | hash_nfts.py:33 | stripping the front removes a whitespace-only prefix and leaves a result that is empty or starts with a non-space |
| Text.TrimEndCharacterized | hash_nfts.py:33 | stripping the end removes a whitespace-only suffix and leaves a result that is empty or ends with a non-space |
| Text.StripCharacterized | hash_nfts.py:33 | `strip()` yields the infix of `s` between a whitespace-only prefix and a whitespace-only suffix, with no surrounding space left |
| Text.StripIdempotent | hash_nfts.py:33 | stripping twice is stripping once |
| Text.StripUnchanged | hash_nfts.py:33 | a string that is empty or has non-space ends is left as it is |
| Attributes.WellFormedIffOneColon | hash_nfts.py:22-23 | `attribute.split(":")` unpacks into two names exactly when the segment holds exactly one colon |
| Attributes.EntryOfPair | hash_nfts.py:22-34 | the entry of `left:right` is `{trait_type: strip(left), value: strip(right)}` |
| Attributes.ParseSegmentsCharacterized | hash_nfts.py:20-34 | the parse succeeds exactly when every segment is well formed, and then yields one entry per segment in segment order |
| Attributes.ParseAttributes | hash_nfts.py:17-34 | the attribute list of a row: characterized by Attributes.ParsedEntries and Attributes.FallbackIffMalformed, and computed by Attributes.GenerateAttributes |
| Attributes.GenerateAttributes | hash_nfts.py:17-34 | the loop with its `break` computes the attribute list the recursive specification defines, in both the success and the fallback outcome |
| Attributes.ParsedEntries | hash_nfts.py:17-34 | when all segments are well formed, the list has 1 + the number of segments entries: the gender entry first, then one stripped pair per segment, in order |
| Attributes.FallbackIffMalformed | hash_nfts.py:21-30 | the list is exactly `[raw cell]` if and only if some segment is malformed, so the gender entry and all earlier entries are dropped |
| Attributes.EmptyCellFallsBack | hash_nfts.py:17-30 | an empty `Attributes` cell yields `[""]` |
| Attributes.TrailingSemicolonFallsBack | hash_nfts.py:17-30 | a cell ending in `;` has an empty last segment and falls back to the raw cell |
| Attributes.TwoPairs | hash_nfts.py:17-34 | `k1:v1;k2:v2` (as in `color:blue; size:large`) yields the gender entry and the two stripped pairs |
| Attributes.FirstSegmentWithoutColon | hash_nfts.py:17-30 | a first segment without a colon (as in `color-blue;size:large`) makes the result the raw cell, whatever follows |
| Document.GenerateJson | hash_nfts.py:16-56 | `generate_json` looks the columns up in the code's order, runs the attribute loop, and returns the document and path the builder defines, or the same `KeyError` |
| Document.BuildDocument | hash_nfts.py:16-56 | the document and json path of a row: characterized by Document.BuildFailsOnFirstMissing and Document.DocumentShape |
| Document.BuildFailsOnFirstMissing | hash_nfts.py:16-44 | building fails exactly when one of the eight columns it reads is missing, and reports the first missing one in reading order |
| Document.FirstMissingDocumentField | hash_nfts.py:16-44 | the first missing column follows the read order Filename, Attributes, Gender, Name, Description, Teams, Series Number, UUID |
| Document.DocumentShape | hash_nfts.py:16-56 | format `CHIP-0007`; name, description, minting tool, series number and collection id copied from the row; the given series total; the parsed attributes; sensitive content false when absent, else the cell; the fixed collection name and description attribute; path `json_dir / Filename` |
| Document.DocumentIgnoresFilename | hash_nfts.py:16-56 | changing `Filename` changes only the path, not the document nor whether building succeeds |
| Document.DocumentDeterminesColumns | hash_nfts.py:36-55 | equal documents come from rows with equal Name, Description, Teams, Series Number, UUID and Sensitive Content, and from equal series totals |
| Pipeline.NextTeam | hash_nfts.py:89-90 | the update of `current_team`: characterized by Pipeline.NextTeamPrefersOwn and Pipeline.LastNonEmptyAppend |
| Pipeline.CarryForward | hash_nfts.py:85-91 | the team column after the loop: characterized by Pipeline.CarryForwardIsLastNonEmpty, Pipeline.CarryKeepsOwnTeam and Pipeline.CarryForwardIdempotent |
| Pipeline.NextTeamPrefersOwn | hash_nfts.py:89-90 | the `!= current_team` test changes nothing: the new current team is the row's own team when it is non-empty, else the old one |
| Pipeline.LastNonEmptyIsLast | hash_nfts.py:85-91 | the last non-empty team is `""` exactly when all teams are empty, and otherwise some team equal to it is followed by empty ones only |
| Pipeline.LastNonEmptyAppend | hash_nfts.py:89-91 | one more row updates the last non-empty team the way `current_team` is updated |
| Pipeline.CarryForwardIsLastNonEmpty | hash_nfts.py:85-91 | after row i, `Teams` is the last non-empty team among rows 0..i, or `""` |
| Pipeline.CarryKeepsOwnTeam | hash_nfts.py:89-91 | a row whose own team is non-empty keeps it |
| Pipeline.CarryForwardIdempotent | hash_nfts.py:85-91 | carrying forward an already carried column changes nothing |
| Pipeline.CarryForwardExample | hash_nfts.py:85-91 | `["A","","","B",""]` becomes `["A","A","A","B","B"]` |
| Pipeline.OutputRow | hash_nfts.py:89-98 | the row one loop step writes: characterized by Pipeline.OutputRowFailure and Pipeline.OutputRowContent |
| Pipeline.OutputRowFailure | hash_nfts.py:89-98 | a row's output fails exactly when one of its columns is missing, naming the first one read (`Teams` on line 89 before those of `generate_json`) |
| Pipeline.OutputRowContent | hash_nfts.py:89-98 | a complete row comes out with the same columns plus `Hash`, `Teams` set to the carried team, every other column unchanged, and `Hash` the digest of a document whose minting tool is that team and whose series total is the given one |
| Pipeline.HashIgnoresFilename | hash_nfts.py:93-98 | two rows that differ only in `Filename` get the same hash |
| Pipeline.HashNfts | hash_nfts.py:85-99 | one output row per input row, in order, each the output row for the carried team and the given `series_total`; the run fails exactly when some row lacks a column, after writing the rows before the first such row |
| Pipeline.WrittenRows | hash_nfts.py:71-99 | every written row is its input row with `Teams` the last non-empty team so far, `Hash` added and nothing else changed, and its hash is that of a document whose series total is the given one |
| Csv.SeriesTotalAsWritten | hash_nfts.py:71-75 | the count as written: `MissingHeader` for an empty file, otherwise every record after the header, blank ones included |
| Csv.CountRecords | hash_nfts.py:75 | `sum(1 for row in reader)` is the number of records left after the header |
| Csv.DictReaderRecords | hash_nfts.py:79-86 | the dictionary reader yields exactly the non-blank records: a record is a row if and only if it is a non-blank record, and there are as many rows as records minus blank ones |
| Csv.DictReaderRecordsAppend | hash_nfts.py:79-86 | the rows of two stretches of records are the rows of the first followed by those of the second, so the reader keeps the records' order |
| Csv.NoBlankKeepsAll | hash_nfts.py:79-86 | without blank records every record becomes a row |
| Csv.SeriesTotal | hash_nfts.py:71-79 | the series total meant: no header is `MissingHeader`, otherwise the number of data records that are not blank, which is the number of rows the dictionary reader yields |
| Csv.AsWrittenAgreesIffNoBlank | hash_nfts.py:71-79 | the series total as counted equals the number of rows the dictionary reader yields exactly when no record after the header is blank, and otherwise exceeds it by the number of blank records |
| Csv.BlankLineOvercounts | hash_nfts.py:71-75 | for a header, a row, a blank line and a row, the total as counted is 3 but the dictionary reader yields 2 rows |

## Left out

- CSV parsing and writing are not modelled. Quoting, field splitting and encoding are absent: the input is the sequence of rows as the dictionary reader yields them (`Document.Row`), or of records as the plain reader yields them (`Csv.Record`).
- The writer is not modelled, and Pipeline.HashNfts describes the rows handed to `writerow`, not what reaches the output file. `csv.DictWriter` is configured with a `TEAM NAMES` column and the default `extrasaction="raise"`, while every row handed to it carries `Teams`, which is not among its columns. So the real run always stops with `ValueError` at the first `writerow`: the output holds only the header, and the first row's json file and the temporary directory are left behind.
- Short and long CSV lines are not modelled. The dictionary reader fills a short line's missing cells with `None` and gathers a long line's extra cells under a `None` key. The model's rows hold strings only.
- `json.dump` and SHA-256 are the parameters `serialize` and `sha256hex`. Nothing is proved about the bytes written or the digest itself (64 lowercase hex digits).
- File and process plumbing is not modelled: the temporary directory, writing, reading and deleting the json file, the output file name, and the `argparse` entry point. Errors they raise (an unwritable directory, a `Filename` that is not a plain file name) are not part of the model.
- `Document.Path` models a path as a sequence of components, and `json_dir / Filename` appends one. An absolute `Filename`, which would replace the directory, is not distinguished.
- `attributes_with_gender` is computed and never used, so it is not modelled.
- Text.Strip: trims only the ASCII whitespace Python recognises (space, tab to carriage return, and the separators `\x1c` to `\x1f`). It does not trim the other Unicode whitespace that `str.strip()` also removes, such as `\x85`, `\xa0` or `\u2000`.
- Attributes.TwoPairs and Attributes.FirstSegmentWithoutColon state the examples `color:blue; size:large` and `color-blue;size:large` for all strings of that shape, not for the literal strings.
- The only failure modelled in the row loop is the `KeyError` of a missing column. An empty input file's `StopIteration` is modelled only in `Csv.SeriesTotalAsWritten` and `Csv.SeriesTotal`.

## Findings

| source | as written | input that shows it | evidently intended | confidence | as-written member | corrected member |
|---|---|---|---|---|---|---|
| hash_nfts.py:72-75 | `series_total` counts every record a plain `csv.reader` yields after the header, including the empty record of a blank line | the file `Teams\nA\n\nB\n`: the count is 3, while the dictionary reader of line 79 skips the blank record and yields 2 rows | `series_total` is the number of data rows, that is, of rows the dictionary reader yields | not executed | Csv.BlankLineOvercounts | Csv.SeriesTotal |
