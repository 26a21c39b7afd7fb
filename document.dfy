/**
 * The CHIP-0007 metadata document `generate_json` builds for one row, and the
 * path of the json file it names.
 */
module Document {
  import opened Wrappers
  import opened Attributes

  /** A row as `csv.DictReader` yields it: column name to cell text. */
  type Row = map<string, string>

  /** A file-system path as its components; `dir / name` appends one. */
  type Path = seq<string>

  /** The `KeyError` raised when a row lacks a column the code reads. */
  datatype Error = MissingField(field: string)

  /** `nft.get("Sensitive Content", False)`: JSON `false`, or the cell text. */
  datatype SensitiveContent = NotGiven | Given(text: string)

  datatype CollectionAttribute = CollectionAttribute(kind: string, value: string)

  datatype Collection = Collection(name: string, id: string, attributes: seq<CollectionAttribute>)

  /** The json object of one NFT; `mintingTool` is the key spelled `miniting_tool`. */
  datatype Document = Document(
    format: string,
    name: string,
    description: string,
    mintingTool: string,
    sensitiveContent: SensitiveContent,
    seriesNumber: string,
    seriesTotal: nat,
    attributes: seq<AttrItem>,
    collection: Collection)

  const Format := "CHIP-0007"
  const CollectionName := "Zuri NFT Tickets for Free Lunch"
  const CollectionDescription := "Rewards for accomplishments during HNGi9."

  /** The columns `generate_json` reads, in the order it reads them. */
  const DocumentFields: seq<string> :=
    ["Filename", "Attributes", "Gender", "Name", "Description", "Teams", "Series Number", "UUID"]

  /** `row[key]`. */
  function Field(row: Row, key: string): Result<string, Error>
  {
    if key in row then Success(row[key]) else Failure(MissingField(key))
  }

  /** Every column of `fields` is present. */
  predicate HasFields(row: Row, fields: seq<string>)
  {
    forall k :: 0 <= k < |fields| ==> fields[k] in row
  }

  /** The position in `fields` of the first column the row lacks, if any. */
  function FirstMissing(row: Row, fields: seq<string>): (r: Option<nat>)
    ensures r.None? <==> HasFields(row, fields)
    ensures r.Some? ==> r.value < |fields| && fields[r.value] !in row
    ensures r.Some? ==> forall j :: 0 <= j < r.value ==> fields[j] in row
  {
    if fields == [] then None
    else if fields[0] !in row then Some(0)
    else match FirstMissing(row, fields[1..])
      case None => None
      case Some(i) => Some(i + 1)
  }

  /** `json_dir / name`. */
  function ChildPath(dir: Path, name: string): Path
  {
    dir + [name]
  }

  /**
   * The document and json path `generate_json` returns for `row`, or the
   * `KeyError` of the first column it reads that the row lacks.
   */
  function BuildDocument(row: Row, seriesTotal: nat, jsonDir: Path): Result<(Document, Path), Error>
  {
    var filename :- Field(row, "Filename");
    var raw :- Field(row, "Attributes");
    var gender :- Field(row, "Gender");
    var attributes := ParseAttributes(raw, gender);
    var name :- Field(row, "Name");
    var description :- Field(row, "Description");
    var team :- Field(row, "Teams");
    var sensitive := if "Sensitive Content" in row then Given(row["Sensitive Content"]) else NotGiven;
    var seriesNumber :- Field(row, "Series Number");
    var id :- Field(row, "UUID");
    var collection := Collection(CollectionName, id, [CollectionAttribute("description", CollectionDescription)]);
    Success((
      Document(Format, name, description, team, sensitive, seriesNumber, seriesTotal, attributes, collection),
      ChildPath(jsonDir, filename)))
  }

  /**
   * `generate_json`: look the columns up in the code's order, run the
   * attribute loop, and assemble the document.
   */
  method GenerateJson(nft: Row, seriesTotal: nat, jsonDir: Path) returns (result: Result<(Document, Path), Error>)
    ensures result == BuildDocument(nft, seriesTotal, jsonDir)
  {
    var filename :- Field(nft, "Filename");
    var jsonFilePath := ChildPath(jsonDir, filename);
    var raw :- Field(nft, "Attributes");
    var gender :- Field(nft, "Gender");
    var attributes := GenerateAttributes(raw, gender);
    var name :- Field(nft, "Name");
    var description :- Field(nft, "Description");
    var team :- Field(nft, "Teams");
    var sensitive := if "Sensitive Content" in nft then Given(nft["Sensitive Content"]) else NotGiven;
    var seriesNumber :- Field(nft, "Series Number");
    var id :- Field(nft, "UUID");
    var collection := Collection(CollectionName, id, [CollectionAttribute("description", CollectionDescription)]);
    var jsonNft := Document(Format, name, description, team, sensitive, seriesNumber, seriesTotal, attributes, collection);
    result := Success((jsonNft, jsonFilePath));
  }

  /**
   * The builder fails exactly when a column it reads is missing, and then it
   * reports the first such column in its reading order.
   */
  lemma BuildFailsOnFirstMissing(row: Row, seriesTotal: nat, jsonDir: Path)
    ensures BuildDocument(row, seriesTotal, jsonDir).Success? <==> HasFields(row, DocumentFields)
    ensures BuildDocument(row, seriesTotal, jsonDir).Failure? ==>
      BuildDocument(row, seriesTotal, jsonDir).error
      == MissingField(DocumentFields[FirstMissing(row, DocumentFields).value])
  {
    FirstMissingDocumentField(row);
  }

  /** The first missing column of the builder, in its reading order. */
  lemma FirstMissingDocumentField(row: Row)
    ensures FirstMissing(row, DocumentFields) ==
      if "Filename" !in row then Some(0)
      else if "Attributes" !in row then Some(1)
      else if "Gender" !in row then Some(2)
      else if "Name" !in row then Some(3)
      else if "Description" !in row then Some(4)
      else if "Teams" !in row then Some(5)
      else if "Series Number" !in row then Some(6)
      else if "UUID" !in row then Some(7)
      else None
  {
    var fields := DocumentFields;
    if "Filename" !in row {
      FirstMissingAt(row, fields, 0);
    } else if "Attributes" !in row {
      FirstMissingAt(row, fields, 1);
    } else if "Gender" !in row {
      FirstMissingAt(row, fields, 2);
    } else if "Name" !in row {
      FirstMissingAt(row, fields, 3);
    } else if "Description" !in row {
      FirstMissingAt(row, fields, 4);
    } else if "Teams" !in row {
      FirstMissingAt(row, fields, 5);
    } else if "Series Number" !in row {
      FirstMissingAt(row, fields, 6);
    } else if "UUID" !in row {
      FirstMissingAt(row, fields, 7);
    } else {
      assert HasFields(row, fields);
    }
  }

  /** `FirstMissing` finds the earliest missing column. */
  lemma {:induction false} FirstMissingAt(row: Row, fields: seq<string>, i: nat)
    requires i < |fields| && fields[i] !in row
    requires forall j :: 0 <= j < i ==> fields[j] in row
    ensures FirstMissing(row, fields) == Some(i)
    decreases i
  {
    if i > 0 {
      FirstMissingAt(row, fields[1..], i - 1);
    }
  }

  /**
   * The fixed shape of the document: the constant format tag and collection,
   * the columns copied verbatim, the given series total, the parsed
   * attributes, `sensitive_content` defaulting to false, and the json file
   * named after the `Filename` column inside `jsonDir`.
   */
  lemma DocumentShape(row: Row, seriesTotal: nat, jsonDir: Path)
    requires HasFields(row, DocumentFields)
    ensures BuildDocument(row, seriesTotal, jsonDir).Success?
    ensures var (doc, path) := BuildDocument(row, seriesTotal, jsonDir).value;
      && doc.format == "CHIP-0007"
      && doc.name == row["Name"]
      && doc.description == row["Description"]
      && doc.mintingTool == row["Teams"]
      && doc.sensitiveContent == (if "Sensitive Content" in row then Given(row["Sensitive Content"]) else NotGiven)
      && doc.seriesNumber == row["Series Number"]
      && doc.seriesTotal == seriesTotal
      && doc.attributes == ParseAttributes(row["Attributes"], row["Gender"])
      && doc.collection.name == "Zuri NFT Tickets for Free Lunch"
      && doc.collection.id == row["UUID"]
      && doc.collection.attributes == [CollectionAttribute("description", "Rewards for accomplishments during HNGi9.")]
      && path == jsonDir + [row["Filename"]]
  {
    BuildFailsOnFirstMissing(row, seriesTotal, jsonDir);
  }

  /** The `Filename` column names the json file but does not enter the document. */
  lemma DocumentIgnoresFilename(row: Row, filename: string, seriesTotal: nat, jsonDir: Path)
    requires "Filename" in row
    ensures var before, after := BuildDocument(row, seriesTotal, jsonDir), BuildDocument(row["Filename" := filename], seriesTotal, jsonDir);
      && (before.Success? <==> after.Success?)
      && (before.Success? ==> before.value.0 == after.value.0 && after.value.1 == jsonDir + [filename])
      && (before.Failure? ==> before.error == after.error)
  {
  }

  /**
   * Two rows with the same document agree on every copied column, so changing
   * any one of them (a description, say) changes what is hashed.
   */
  lemma DocumentDeterminesColumns(row1: Row, row2: Row, seriesTotal1: nat, seriesTotal2: nat, jsonDir: Path)
    requires BuildDocument(row1, seriesTotal1, jsonDir).Success?
    requires BuildDocument(row2, seriesTotal2, jsonDir).Success?
    requires BuildDocument(row1, seriesTotal1, jsonDir).value.0 == BuildDocument(row2, seriesTotal2, jsonDir).value.0
    ensures seriesTotal1 == seriesTotal2
    ensures forall key :: key in ["Name", "Description", "Teams", "Series Number", "UUID"] ==> row1[key] == row2[key]
    ensures ("Sensitive Content" in row1 <==> "Sensitive Content" in row2)
    ensures "Sensitive Content" in row1 ==> row1["Sensitive Content"] == row2["Sensitive Content"]
  {
  }
}
