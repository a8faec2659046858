/**
 * Header normalisation of the IUPHAR target and family tables
 * (IUPHAR/script/io_utils.py): every cell is read as text with missing cells
 * filled by "", legacy HGNC column names of the target table are renamed,
 * and both tables must have every expected column.
 */
module IupharIo {
  import opened Wrappers
  import opened Strings
  import opened Columns

  /** The columns the target table must have, in the order they are reported. */
  const ExpectedTargetColumns: seq<string> :=
    ["target_id", "swissprot", "hgnc_name", "hgnc_id", "gene_name", "synonyms", "family_id", "target_name"]

  /** The columns the family table must have, in the order they are reported. */
  const ExpectedFamilyColumns: seq<string> :=
    ["family_id", "family_name", "parent_family_id", "target_id", "type"]

  /** Legacy spellings of the HGNC columns and their normal names. */
  const LegacyRenames: map<string, string> :=
    map["HGNC_NAME" := "hgnc_name", "HGNC_name" := "hgnc_name", "HGNC_ID" := "hgnc_id", "HGNC_id" := "hgnc_id"]

  /** A table as read with every column as text: `None` is a missing cell (NaN). */
  datatype RawTable = RawTable(columns: seq<string>, rows: seq<seq<Option<string>>>)

  /** A loaded table: every cell is a string. */
  datatype Table = Table(columns: seq<string>, rows: seq<seq<string>>)

  /** The message prefix of `_validate_columns`, which is `CheckColumns` with it. */
  const MissingColumnsPrefix := "Missing columns: "

  /** The normal name of one column header. */
  function RenameColumn(c: string): (r: string)
    ensures c !in LegacyRenames ==> r == c
    ensures c == "HGNC_NAME" || c == "HGNC_name" ==> r == "hgnc_name"
    ensures c == "HGNC_ID" || c == "HGNC_id" ==> r == "hgnc_id"
    ensures r !in LegacyRenames
  {
    if c in LegacyRenames then LegacyRenames[c] else c
  }

  /** The `rename(columns=...)` step of `load_targets`, column by column. */
  function RenameColumns(columns: seq<string>): (r: seq<string>)
    ensures |r| == |columns| && forall i :: 0 <= i < |columns| ==> r[i] == RenameColumn(columns[i])
  {
    seq(|columns|, i requires 0 <= i < |columns| => RenameColumn(columns[i]))
  }

  /** Renaming twice is renaming once: no normal name is itself a legacy name. */
  lemma RenameIdempotent(columns: seq<string>)
    ensures RenameColumns(RenameColumns(columns)) == RenameColumns(columns)
  {
    var r := RenameColumns(columns);
    forall i | 0 <= i < |r| ensures RenameColumn(r[i]) == r[i] {
      assert r[i] !in LegacyRenames;
    }
  }

  /** A legacy HGNC header is enough for the renamed table to have the normal column. */
  lemma LegacyHeaderAccepted(columns: seq<string>, i: nat)
    requires i < |columns| && columns[i] in {"HGNC_NAME", "HGNC_name"}
    ensures "hgnc_name" in RenameColumns(columns)
  {
    assert RenameColumns(columns)[i] == "hgnc_name";
  }

  /** `fillna("")`: a missing cell becomes "", every other cell is kept. */
  function FillNa(rows: seq<seq<Option<string>>>): (r: seq<seq<string>>)
    ensures |r| == |rows|
    ensures forall i :: 0 <= i < |rows| ==> |r[i]| == |rows[i]|
    ensures forall i, j :: 0 <= i < |rows| && 0 <= j < |rows[i]| ==> r[i][j] == rows[i][j].GetOr("")
  {
    seq(|rows|, i requires 0 <= i < |rows| => seq(|rows[i]|, j requires 0 <= j < |rows[i]| => rows[i][j].GetOr("")))
  }

  /**
   * `load_targets` after reading: fill missing cells, rename the legacy
   * headers, then validate against the eight target columns.
   */
  function LoadTargets(raw: RawTable): (r: Result<Table>)
    ensures r.Success? <==> forall c :: c in ExpectedTargetColumns ==> c in RenameColumns(raw.columns)
    ensures r.Success? ==> r.value == Table(RenameColumns(raw.columns), FillNa(raw.rows))
    ensures r.Failure? ==> r.error == "Missing columns: " + Join(Missing(RenameColumns(raw.columns), ExpectedTargetColumns), ", ")
  {
    var t := Table(RenameColumns(raw.columns), FillNa(raw.rows));
    match CheckColumns(MissingColumnsPrefix, t.columns, ExpectedTargetColumns)
    case Pass => Success(t)
    case Fail(e) => Failure(e)
  }

  /** `load_families` after reading: fill missing cells and validate against the five family columns, with no renaming. */
  function LoadFamilies(raw: RawTable): (r: Result<Table>)
    ensures r.Success? <==> forall c :: c in ExpectedFamilyColumns ==> c in raw.columns
    ensures r.Success? ==> r.value == Table(raw.columns, FillNa(raw.rows))
    ensures r.Failure? ==> r.error == "Missing columns: " + Join(Missing(raw.columns, ExpectedFamilyColumns), ", ")
  {
    var t := Table(raw.columns, FillNa(raw.rows));
    match CheckColumns(MissingColumnsPrefix, t.columns, ExpectedFamilyColumns)
    case Pass => Success(t)
    case Fail(e) => Failure(e)
  }

  /** A loaded cell is "" exactly when the raw cell was missing or empty. */
  lemma FilledCellEmpty(rows: seq<seq<Option<string>>>, i: nat, j: nat)
    requires i < |rows| && j < |rows[i]|
    ensures FillNa(rows)[i][j] == "" <==> rows[i][j] == None || rows[i][j] == Some("")
  {
  }

  /** A target table whose header lacks `gene_name` fails, and the message names it. */
  lemma MissingGeneName(raw: RawTable)
    requires forall c :: c in raw.columns ==> c != "gene_name"
    ensures LoadTargets(raw).Failure?
    ensures Contains(LoadTargets(raw).error, "gene_name")
  {
    var renamed := RenameColumns(raw.columns);
    assert "gene_name" !in renamed by {
      forall i | 0 <= i < |renamed| ensures renamed[i] != "gene_name" {
        assert raw.columns[i] in raw.columns;
      }
    }
  }
}
