/**
 * The driver `hash_nfts` without its file handling: carry the team name
 * forward, build each row's document, hash it, and write the row back with a
 * `Hash` column.
 */
module Pipeline {
  import opened Wrappers
  import opened Attributes
  import opened Document

  newtype byte = x: int | 0 <= x < 256

  /** The `Teams` cell of a row, `""` when the column is absent. */
  function TeamOf(row: Row): string
  {
    if "Teams" in row then row["Teams"] else ""
  }

  /** The `Teams` column of all rows. */
  function Teams(rows: seq<Row>): (teams: seq<string>)
    ensures |teams| == |rows|
    ensures forall k :: 0 <= k < |rows| ==> teams[k] == TeamOf(rows[k])
  {
    seq(|rows|, k requires 0 <= k < |rows| => TeamOf(rows[k]))
  }

  /** The update of `current_team` for a row whose own cell is `own`. */
  function NextTeam(current: string, own: string): string
  {
    if own != "" && own != current then own else current
  }

  /** The `own != current_team` test changes nothing: a non-empty cell wins. */
  lemma NextTeamPrefersOwn(current: string, own: string)
    ensures NextTeam(current, own) == if own != "" then own else current
  {
  }

  /** The last non-empty team of `teams`, or `""` when all are empty. */
  function LastNonEmpty(teams: seq<string>): string
  {
    if teams == [] then ""
    else if teams[|teams| - 1] != "" then teams[|teams| - 1]
    else LastNonEmpty(teams[..|teams| - 1])
  }

  /**
   * `LastNonEmpty` is what its name says: `""` exactly when every team is
   * empty, and otherwise some team equal to it is followed by empty ones only.
   */
  lemma {:induction false} LastNonEmptyIsLast(teams: seq<string>)
    ensures LastNonEmpty(teams) == "" <==> forall k :: 0 <= k < |teams| ==> teams[k] == ""
    ensures LastNonEmpty(teams) != "" ==>
      exists j :: 0 <= j < |teams| && teams[j] == LastNonEmpty(teams)
        && forall k :: j < k < |teams| ==> teams[k] == ""
  {
    if teams != [] && teams[|teams| - 1] == "" {
      var front := teams[..|teams| - 1];
      LastNonEmptyIsLast(front);
      assert forall k :: 0 <= k < |front| ==> front[k] == teams[k];
      if LastNonEmpty(front) != "" {
        var j :| 0 <= j < |front| && front[j] == LastNonEmpty(front)
          && forall k :: j < k < |front| ==> front[k] == "";
        assert teams[j] == LastNonEmpty(teams);
      }
    }
  }

  /** One more row updates the last non-empty team as `current_team` is updated. */
  lemma LastNonEmptyAppend(teams: seq<string>, own: string)
    ensures LastNonEmpty(teams + [own]) == NextTeam(LastNonEmpty(teams), own)
  {
    assert (teams + [own])[..|teams|] == teams;
  }

  /** The team column after the loop, as the loop computes it from `current`. */
  function CarryFrom(current: string, teams: seq<string>): (carried: seq<string>)
    ensures |carried| == |teams|
    decreases |teams|
  {
    if teams == [] then []
    else
      var next := NextTeam(current, teams[0]);
      [next] + CarryFrom(next, teams[1..])
  }

  /** The team column the loop writes, starting from `current_team = ""`. */
  function CarryForward(teams: seq<string>): seq<string>
  {
    CarryFrom("", teams)
  }

  /** The carried team of a row is the last non-empty team up to and including it. */
  lemma CarryForwardIsLastNonEmpty(teams: seq<string>, i: nat)
    requires i < |teams|
    ensures CarryForward(teams)[i] == LastNonEmpty(teams[..i + 1])
  {
    CarryFromIsLastNonEmpty([], teams, i);
    assert [] + teams[..i + 1] == teams[..i + 1];
  }

  lemma {:induction false} CarryFromIsLastNonEmpty(before: seq<string>, teams: seq<string>, i: nat)
    requires i < |teams|
    ensures CarryFrom(LastNonEmpty(before), teams)[i] == LastNonEmpty(before + teams[..i + 1])
    decreases i
  {
    LastNonEmptyAppend(before, teams[0]);
    if i == 0 {
      assert before + teams[..1] == before + [teams[0]];
    } else {
      CarryFromIsLastNonEmpty(before + [teams[0]], teams[1..], i - 1);
      assert before + [teams[0]] + teams[1..][..i] == before + teams[..i + 1];
    }
  }

  /** One row of the loop: its carried team follows from the team before it. */
  lemma CarryStep(teams: seq<string>, i: nat)
    requires i < |teams|
    ensures LastNonEmpty(teams[..i + 1]) == NextTeam(LastNonEmpty(teams[..i]), teams[i])
    ensures CarryForward(teams)[i] == LastNonEmpty(teams[..i + 1])
  {
    CarryForwardIsLastNonEmpty(teams, i);
    assert teams[..i + 1] == teams[..i] + [teams[i]];
    LastNonEmptyAppend(teams[..i], teams[i]);
  }

  /** A row with its own team name keeps it. */
  lemma CarryKeepsOwnTeam(teams: seq<string>, i: nat)
    requires i < |teams| && teams[i] != ""
    ensures CarryForward(teams)[i] == teams[i]
  {
    CarryForwardIsLastNonEmpty(teams, i);
    assert teams[..i + 1][i] == teams[i];
  }

  /** Carrying forward a second time changes nothing. */
  lemma CarryForwardIdempotent(teams: seq<string>)
    ensures CarryForward(CarryForward(teams)) == CarryForward(teams)
  {
    CarryFromIdempotent("", teams);
  }

  lemma {:induction false} CarryFromIdempotent(current: string, teams: seq<string>)
    ensures CarryFrom(current, CarryFrom(current, teams)) == CarryFrom(current, teams)
    decreases |teams|
  {
    if teams != [] {
      var next := NextTeam(current, teams[0]);
      var once := CarryFrom(current, teams);
      assert once[0] == next && once[1..] == CarryFrom(next, teams[1..]);
      assert NextTeam(current, next) == next;
      CarryFromIdempotent(next, teams[1..]);
    }
  }

  /** The sparse team column of the example spreads down its blocks. */
  lemma CarryForwardExample()
    ensures CarryForward(["A", "", "", "B", ""]) == ["A", "A", "A", "B", "B"]
  {
  }

  /** The columns a row must have: `Teams` is read first, then those of `generate_json`. */
  const RowFields: seq<string> := ["Teams"] + DocumentFields

  /**
   * The row the loop writes for `row` when `team` is the carried team: the
   * team cell overwritten and the hash of the row's document added, or the
   * `KeyError` that aborts the run.
   */
  function OutputRow(row: Row, team: string, seriesTotal: nat, jsonDir: Path,
                     serialize: Document -> seq<byte>, sha256hex: seq<byte> -> string): Result<Row, Error>
  {
    if "Teams" !in row then Failure(MissingField("Teams"))
    else
      var nft := row["Teams" := team];
      var built :- BuildDocument(nft, seriesTotal, jsonDir);
      Success(nft["Hash" := sha256hex(serialize(built.0))])
  }

  /**
   * An output row fails exactly when one of the columns is missing, and the
   * error names the first missing one in the order the source reads them.
   */
  lemma OutputRowFailure(row: Row, team: string, seriesTotal: nat, jsonDir: Path,
                         serialize: Document -> seq<byte>, sha256hex: seq<byte> -> string)
    ensures var out := OutputRow(row, team, seriesTotal, jsonDir, serialize, sha256hex);
      && (out.Success? <==> HasFields(row, RowFields))
      && (out.Failure? ==> out.error == MissingField(RowFields[FirstMissing(row, RowFields).value]))
  {
    var nft := row["Teams" := team];
    if "Teams" !in row {
      FirstMissingAt(row, RowFields, 0);
    } else {
      BuildFailsOnFirstMissing(nft, seriesTotal, jsonDir);
      assert HasFields(row, RowFields) <==> HasFields(nft, DocumentFields) by {
        if HasFields(nft, DocumentFields) {
          forall k | 0 <= k < |RowFields| ensures RowFields[k] in row {
            if k > 0 { assert RowFields[k] == DocumentFields[k - 1]; }
          }
        }
        if HasFields(row, RowFields) {
          forall k | 0 <= k < |DocumentFields| ensures DocumentFields[k] in nft {
            assert DocumentFields[k] == RowFields[k + 1];
          }
        }
      }
      var missing := FirstMissing(nft, DocumentFields);
      if missing.Some? {
        FirstMissingAt(row, RowFields, missing.value + 1);
      }
    }
  }

  /**
   * A row with all its columns comes out with `Teams` set to the carried team,
   * a `Hash` column holding the digest of the serialized document, whose
   * minting tool is that team and whose series total is the given one, and
   * every other column as it was.
   */
  lemma OutputRowContent(row: Row, team: string, seriesTotal: nat, jsonDir: Path,
                         serialize: Document -> seq<byte>, sha256hex: seq<byte> -> string)
    requires HasFields(row, RowFields)
    ensures OutputRow(row, team, seriesTotal, jsonDir, serialize, sha256hex).Success?
    ensures var out := OutputRow(row, team, seriesTotal, jsonDir, serialize, sha256hex).value;
      var doc := BuildDocument(row["Teams" := team], seriesTotal, jsonDir).value.0;
      && out.Keys == row.Keys + {"Hash"}
      && out["Teams"] == team
      && out["Hash"] == sha256hex(serialize(doc))
      && doc.mintingTool == team
      && doc.seriesTotal == seriesTotal
      && forall key :: key in row && key != "Teams" && key != "Hash" ==> out[key] == row[key]
  {
    OutputRowFailure(row, team, seriesTotal, jsonDir, serialize, sha256hex);
    var nft := row["Teams" := team];
    BuildFailsOnFirstMissing(nft, seriesTotal, jsonDir);
    DocumentShape(nft, seriesTotal, jsonDir);
  }

  /** One step of the loop: the row it writes once the document is built. */
  lemma OutputRowStep(row: Row, team: string, seriesTotal: nat, jsonDir: Path,
                      serialize: Document -> seq<byte>, sha256hex: seq<byte> -> string,
                      built: Result<(Document, Path), Error>)
    requires "Teams" in row
    requires built == BuildDocument(row["Teams" := team], seriesTotal, jsonDir)
    ensures built.Failure? ==>
      OutputRow(row, team, seriesTotal, jsonDir, serialize, sha256hex) == Failure(built.error)
    ensures built.Success? ==>
      OutputRow(row, team, seriesTotal, jsonDir, serialize, sha256hex)
      == Success(row["Teams" := team]["Hash" := sha256hex(serialize(built.value.0))])
  {
  }

  /** The hash of a row does not depend on its `Filename` column. */
  lemma HashIgnoresFilename(row: Row, filename: string, team: string, seriesTotal: nat, jsonDir: Path,
                            serialize: Document -> seq<byte>, sha256hex: seq<byte> -> string)
    requires "Filename" in row && "Teams" in row
    requires OutputRow(row, team, seriesTotal, jsonDir, serialize, sha256hex).Success?
    ensures var renamed := row["Filename" := filename];
      && OutputRow(renamed, team, seriesTotal, jsonDir, serialize, sha256hex).Success?
      && OutputRow(renamed, team, seriesTotal, jsonDir, serialize, sha256hex).value["Hash"]
         == OutputRow(row, team, seriesTotal, jsonDir, serialize, sha256hex).value["Hash"]
  {
    var renamed := row["Filename" := filename];
    assert renamed["Teams" := team] == row["Teams" := team]["Filename" := filename];
    DocumentIgnoresFilename(row["Teams" := team], filename, seriesTotal, jsonDir);
  }

  /** Every written row is the output row of the input row at its position. */
  predicate WrittenAsOutput(rows: seq<Row>, carried: seq<string>, seriesTotal: nat, jsonDir: Path,
                            serialize: Document -> seq<byte>, sha256hex: seq<byte> -> string,
                            written: seq<Row>)
    decreases |written|
  {
    && |written| <= |rows| <= |carried|
    && (written != [] ==>
          var n := |written| - 1;
          && WrittenAsOutput(rows, carried, seriesTotal, jsonDir, serialize, sha256hex, written[..n])
          && OutputRow(rows[n], carried[n], seriesTotal, jsonDir, serialize, sha256hex) == Success(written[n]))
  }

  lemma {:induction false} WrittenAsOutputAt(rows: seq<Row>, carried: seq<string>, seriesTotal: nat, jsonDir: Path,
                                             serialize: Document -> seq<byte>, sha256hex: seq<byte> -> string,
                                             written: seq<Row>)
    requires WrittenAsOutput(rows, carried, seriesTotal, jsonDir, serialize, sha256hex, written)
    ensures forall k :: 0 <= k < |written| ==>
      OutputRow(rows[k], carried[k], seriesTotal, jsonDir, serialize, sha256hex) == Success(written[k])
    decreases |written|
  {
    if written != [] {
      var n := |written| - 1;
      WrittenAsOutputAt(rows, carried, seriesTotal, jsonDir, serialize, sha256hex, written[..n]);
      assert forall k :: 0 <= k < n ==> written[..n][k] == written[k];
    }
  }

  /** Writing the output row of the next input row keeps every written row an output row. */
  lemma WrittenAsOutputExtend(rows: seq<Row>, carried: seq<string>, seriesTotal: nat, jsonDir: Path,
                              serialize: Document -> seq<byte>, sha256hex: seq<byte> -> string,
                              written: seq<Row>, next: Row)
    requires WrittenAsOutput(rows, carried, seriesTotal, jsonDir, serialize, sha256hex, written)
    requires |written| < |rows|
    requires OutputRow(rows[|written|], carried[|written|], seriesTotal, jsonDir, serialize, sha256hex) == Success(next)
    ensures WrittenAsOutput(rows, carried, seriesTotal, jsonDir, serialize, sha256hex, written + [next])
  {
    assert (written + [next])[..|written|] == written;
  }

  lemma {:induction false} WrittenHaveFields(rows: seq<Row>, carried: seq<string>, seriesTotal: nat, jsonDir: Path,
                                             serialize: Document -> seq<byte>, sha256hex: seq<byte> -> string,
                                             written: seq<Row>)
    requires WrittenAsOutput(rows, carried, seriesTotal, jsonDir, serialize, sha256hex, written)
    ensures forall k :: 0 <= k < |written| ==> HasFields(rows[k], RowFields)
    decreases |written|
  {
    if written != [] {
      var n := |written| - 1;
      WrittenHaveFields(rows, carried, seriesTotal, jsonDir, serialize, sha256hex, written[..n]);
      OutputRowFailure(rows[n], carried[n], seriesTotal, jsonDir, serialize, sha256hex);
    }
  }

  /**
   * The row loop of `hash_nfts`, given the `series_total` of the first pass.
   * Each row takes the carried team, gets its document built and hashed, and
   * is handed on with the hash added; a missing column aborts the loop after
   * the rows before it have been handed on.
   */
  method HashNfts(rows: seq<Row>, seriesTotal: nat, jsonDir: Path,
                  serialize: Document -> seq<byte>, sha256hex: seq<byte> -> string)
    returns (written: seq<Row>, failure: Option<Error>)
    ensures |written| <= |rows|
    ensures failure.None? <==> forall k :: 0 <= k < |rows| ==> HasFields(rows[k], RowFields)
    ensures failure.None? ==> |written| == |rows|
    ensures forall k :: 0 <= k < |written| ==>
      OutputRow(rows[k], CarryForward(Teams(rows))[k], seriesTotal, jsonDir, serialize, sha256hex) == Success(written[k])
    ensures failure.Some? ==>
      && |written| < |rows|
      && OutputRow(rows[|written|], CarryForward(Teams(rows))[|written|], seriesTotal, jsonDir, serialize, sha256hex)
         == Failure(failure.value)
  {
    ghost var teams := Teams(rows);
    written, failure := [], None;
    var currentTeam := "";
    var i := 0;
    while i < |rows|
      invariant 0 <= i <= |rows| && |written| == i
      invariant currentTeam == LastNonEmpty(teams[..i])
      invariant WrittenAsOutput(rows, CarryForward(teams), seriesTotal, jsonDir, serialize, sha256hex, written)
    {
      var nft := rows[i];
      CarryStep(teams, i);
      if "Teams" !in nft {
        failure := Some(MissingField("Teams"));
        break;
      }
      if nft["Teams"] != "" && nft["Teams"] != currentTeam {
        currentTeam := nft["Teams"];
      }
      assert currentTeam == CarryForward(teams)[i];
      nft := nft["Teams" := currentTeam];
      var generated := GenerateJson(nft, seriesTotal, jsonDir);
      OutputRowStep(rows[i], currentTeam, seriesTotal, jsonDir, serialize, sha256hex, generated);
      if generated.Failure? {
        failure := Some(generated.error);
        break;
      }
      var jsonNft := generated.value.0;
      var nftHash := sha256hex(serialize(jsonNft));
      nft := nft["Hash" := nftHash];
      WrittenAsOutputExtend(rows, CarryForward(teams), seriesTotal, jsonDir, serialize, sha256hex, written, nft);
      written := written + [nft];
      i := i + 1;
    }
    HashNftsOutcome(rows, seriesTotal, jsonDir, serialize, sha256hex, written, failure);
  }

  /** The postconditions of `HashNfts` from the state its loop ends in. */
  lemma HashNftsOutcome(rows: seq<Row>, seriesTotal: nat, jsonDir: Path,
                        serialize: Document -> seq<byte>, sha256hex: seq<byte> -> string,
                        written: seq<Row>, failure: Option<Error>)
    requires WrittenAsOutput(rows, CarryForward(Teams(rows)), seriesTotal, jsonDir, serialize, sha256hex, written)
    requires failure.None? ==> |written| == |rows|
    requires failure.Some? ==>
      && |written| < |rows|
      && OutputRow(rows[|written|], CarryForward(Teams(rows))[|written|], seriesTotal, jsonDir, serialize, sha256hex)
         == Failure(failure.value)
    ensures |written| <= |rows|
    ensures failure.None? <==> forall k :: 0 <= k < |rows| ==> HasFields(rows[k], RowFields)
    ensures forall k :: 0 <= k < |written| ==>
      OutputRow(rows[k], CarryForward(Teams(rows))[k], seriesTotal, jsonDir, serialize, sha256hex) == Success(written[k])
  {
    var carried := CarryForward(Teams(rows));
    WrittenAsOutputAt(rows, carried, seriesTotal, jsonDir, serialize, sha256hex, written);
    WrittenHaveFields(rows, carried, seriesTotal, jsonDir, serialize, sha256hex, written);
    if failure.Some? {
      OutputRowFailure(rows[|written|], carried[|written|], seriesTotal, jsonDir, serialize, sha256hex);
    }
  }

  /**
   * What the run writes, row by row: the input row's columns and a `Hash`
   * column; `Teams` holding the last non-empty team so far; every other column
   * as read; and the hash of a document whose series total is the given one
   * and whose minting tool is the carried team.
   */
  lemma WrittenRows(rows: seq<Row>, written: seq<Row>, seriesTotal: nat, jsonDir: Path,
                    serialize: Document -> seq<byte>, sha256hex: seq<byte> -> string)
    requires |written| <= |rows|
    requires forall k :: 0 <= k < |written| ==>
      OutputRow(rows[k], CarryForward(Teams(rows))[k], seriesTotal, jsonDir, serialize, sha256hex) == Success(written[k])
    ensures forall k :: 0 <= k < |written| ==>
      && HasFields(rows[k], RowFields) && "Teams" in rows[k]
      && written[k].Keys == rows[k].Keys + {"Hash"}
      && written[k]["Teams"] == LastNonEmpty(Teams(rows)[..k + 1])
      && (forall key :: key in rows[k] && key != "Teams" && key != "Hash" ==> written[k][key] == rows[k][key])
      && BuildDocument(rows[k]["Teams" := written[k]["Teams"]], seriesTotal, jsonDir).Success?
      && var doc := BuildDocument(rows[k]["Teams" := written[k]["Teams"]], seriesTotal, jsonDir).value.0;
         && doc.seriesTotal == seriesTotal
         && doc.mintingTool == written[k]["Teams"]
         && written[k]["Hash"] == sha256hex(serialize(doc))
  {
    var carried := CarryForward(Teams(rows));
    forall k | 0 <= k < |written|
      ensures HasFields(rows[k], RowFields) && "Teams" in rows[k]
      ensures written[k].Keys == rows[k].Keys + {"Hash"}
      ensures written[k]["Teams"] == LastNonEmpty(Teams(rows)[..k + 1])
      ensures forall key :: key in rows[k] && key != "Teams" && key != "Hash" ==> written[k][key] == rows[k][key]
      ensures BuildDocument(rows[k]["Teams" := written[k]["Teams"]], seriesTotal, jsonDir).Success?
      ensures var doc := BuildDocument(rows[k]["Teams" := written[k]["Teams"]], seriesTotal, jsonDir).value.0;
        && doc.seriesTotal == seriesTotal
        && doc.mintingTool == written[k]["Teams"]
        && written[k]["Hash"] == sha256hex(serialize(doc))
    {
      OutputRowFailure(rows[k], carried[k], seriesTotal, jsonDir, serialize, sha256hex);
      assert RowFields[0] == "Teams";
      OutputRowContent(rows[k], carried[k], seriesTotal, jsonDir, serialize, sha256hex);
      CarryForwardIsLastNonEmpty(Teams(rows), k);
    }
  }
}
