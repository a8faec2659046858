/**
 * The per-row output of `map_uniprot_file`: each UniProt accession is mapped
 * to a target id, classified with `by_target_id`, and given its id and name
 * paths. Reading and writing the CSV files is not modelled; the input is the
 * `uniprot_id` column as a sequence.
 */
module IupharMapping {
  import opened Strings
  import opened IupharData
  import opened IupharClassifier

  /** The five classification columns `_classify` adds to a row. */
  datatype ClassColumns = ClassColumns(
    familyId: string, typeName: string, className: string, subclassName: string, chain: string)

  /** One output row: the accession, its target id, the class columns and the two paths. */
  datatype MappedRow = MappedRow(
    uniprotId: string, targetId: string, columns: ClassColumns, fullIdPath: string, fullNamePath: string)

  /** The class columns of a row without a target id. */
  const EmptyColumns := ClassColumns("", "", "", "", "")

  /**
   * `_classify`: every column empty for an empty target id; otherwise the
   * fields of `by_target_id` with the tree joined by ">".
   */
  function Classify(cat: Catalog, tid: string): (r: ClassColumns)
    requires Acyclic(cat.families)
    ensures tid == "" <==> r == EmptyColumns
    ensures tid != "" ==> r.typeName != ""
    ensures (tid != "" && (!ValidParameter(tid) || '|' in tid))
              ==> r == ClassColumns("N/A", DefaultType, OtherTarget, OtherTarget, Join(DefaultTree, ">"))
    ensures (ValidParameter(tid) && '|' !in tid)
              ==> r.typeName == TargetToType(cat, tid) && (r.className, r.subclassName) == SplitType(r.typeName)
    ensures (ValidParameter(tid) && '|' !in tid && ValidParameter(FromTargetFamilyId(cat.targets, tid)))
              ==> r.familyId == FromTargetFamilyId(cat.targets, tid)
                  && r.chain == Join(Chain(cat.families, r.familyId), ">")
    ensures (ValidParameter(tid) && '|' !in tid && !ValidParameter(FromTargetFamilyId(cat.targets, tid)))
              ==> r.familyId == "N/A" && r.chain == Join(DefaultTree, ">")
  {
    if tid == "" then EmptyColumns
    else
      var rec := ByTargetId(cat, tid, "");
      ClassColumns(rec.familyId, rec.typeName, rec.className, rec.subclassName, Join(rec.tree, ">"))
  }

  /**
   * When no family id holds ">", the chain column splits back into the
   * family chain of the target, starting at its own family.
   */
  lemma ClassifyChainRoundTrip(cat: Catalog, tid: string)
    requires Acyclic(cat.families)
    requires ValidParameter(tid) && '|' !in tid
    requires ValidParameter(FromTargetFamilyId(cat.targets, tid))
    requires '>' !in FromTargetFamilyId(cat.targets, tid)
    requires forall k :: 0 <= k < |cat.families| ==> '>' !in cat.families[k].parentFamilyId
    ensures var c := Chain(cat.families, FromTargetFamilyId(cat.targets, tid));
      && Split(Classify(cat, tid).chain, '>') == c
      && c[0] == FromTargetFamilyId(cat.targets, tid)
  {
    var fid := FromTargetFamilyId(cat.targets, tid);
    var c := Chain(cat.families, fid);
    ChainShape(cat.families, fid);
    forall i | 0 <= i < |c| ensures '>' !in c[i] {
      if i > 0 {
        ParentOfParentCell(cat.families, c[i - 1]);
      }
    }
    SplitJoin(c, '>');
  }

  /** One row of `map_uniprot_file`'s output for the accession `accession`. */
  function MapRow(cat: Catalog, accession: string): (r: MappedRow)
    requires Acyclic(cat.families)
    ensures r.uniprotId == accession
    ensures r.targetId == TargetIdByUniprot(cat.targets, accession)
    ensures r.columns == Classify(cat, r.targetId)
    ensures r.fullIdPath == AllId(cat, r.targetId) && r.fullNamePath == AllNamePath(cat, r.targetId)
  {
    var tid := TargetIdByUniprot(cat.targets, accession);
    MappedRow(accession, tid, Classify(cat, tid), AllId(cat, tid), AllNamePath(cat, tid))
  }

  /** `map_uniprot_file` on the `uniprot_id` column: one output row per input row, in order. */
  function MapUniprotColumn(cat: Catalog, accessions: seq<string>): (r: seq<MappedRow>)
    requires Acyclic(cat.families)
    ensures |r| == |accessions|
    ensures forall i :: 0 <= i < |accessions| ==> r[i] == MapRow(cat, accessions[i])
  {
    seq(|accessions|, i requires 0 <= i < |accessions| => MapRow(cat, accessions[i]))
  }

  /**
   * An accession no target row carries gets an empty target id and empty
   * class columns; its paths are those of the empty target id.
   */
  lemma UnknownAccession(cat: Catalog, accession: string)
    requires Acyclic(cat.families)
    requires forall k :: 0 <= k < |cat.targets| ==> cat.targets[k].swissprot != accession
    ensures MapRow(cat, accession).targetId == ""
    ensures MapRow(cat, accession).columns == EmptyColumns
  {
  }

  /** An accession first listed by a row with a usable target id gets that row's classification. */
  lemma KnownAccession(cat: Catalog, accession: string, k: nat)
    requires Acyclic(cat.families)
    requires FirstMatch(cat.targets, BySwissprot(accession), k)
    requires ValidParameter(cat.targets[k].targetId) && '|' !in cat.targets[k].targetId
    ensures MapRow(cat, accession).targetId == cat.targets[k].targetId
    ensures MapRow(cat, accession).columns.typeName == TargetToType(cat, cat.targets[k].targetId)
    ensures MapRow(cat, accession).columns.typeName == ByUniprotId(cat, accession).typeName
  {
  }
}
