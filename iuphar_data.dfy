/**
 * The IUPHAR catalog (`IUPHARData` in mylib/transforms.py): two immutable
 * tables of string cells, target rows and family rows, with first-match
 * record lookups, target-id lookups, the parent-family walk and the id and
 * name paths built from it. "First match" means the lowest row index.
 */
module IupharData {
  import opened Wrappers
  import opened Strings
  import opened Seqs

  /** One row of the target table (all cells are strings, missing cells are ""). */
  datatype TargetRow = TargetRow(
    targetId: string, swissprot: string, hgncName: string, hgncId: string,
    geneName: string, synonyms: string, familyId: string, targetName: string,
    targetType: string)

  /** One row of the family table; `targetIds` is a "|"-separated list. */
  datatype FamilyRow = FamilyRow(
    familyId: string, familyName: string, parentFamilyId: string,
    targetIds: string, familyType: string)

  /** The two tables an `IUPHARData` holds. */
  datatype Catalog = Catalog(targets: seq<TargetRow>, families: seq<FamilyRow>)

  // ---------------------------------------------------------------------
  // First-match record lookups
  // ---------------------------------------------------------------------

  /** Index of the first target row with the given id. */
  function TargetIndex(targets: seq<TargetRow>, tid: string): (r: Option<nat>)
    ensures r.Some? ==> r.value < |targets| && targets[r.value].targetId == tid
    ensures r.Some? ==> forall j :: 0 <= j < r.value ==> targets[j].targetId != tid
    ensures r.None? <==> forall j :: 0 <= j < |targets| ==> targets[j].targetId != tid
  {
    if |targets| == 0 then None
    else if targets[0].targetId == tid then Some(0)
    else match TargetIndex(targets[1..], tid)
      case None => None
      case Some(k) => Some(k + 1)
  }

  /** Index of the first family row with the given id. */
  function FamilyIndex(families: seq<FamilyRow>, fid: string): (r: Option<nat>)
    ensures r.Some? ==> r.value < |families| && families[r.value].familyId == fid
    ensures r.Some? ==> forall j :: 0 <= j < r.value ==> families[j].familyId != fid
    ensures r.None? <==> forall j :: 0 <= j < |families| ==> families[j].familyId != fid
  {
    if |families| == 0 then None
    else if families[0].familyId == fid then Some(0)
    else match FamilyIndex(families[1..], fid)
      case None => None
      case Some(k) => Some(k + 1)
  }

  /** Row `k` is the first target row with id `tid` (what `iloc[0]` picks). */
  predicate FirstTargetRow(targets: seq<TargetRow>, tid: string, k: int) {
    0 <= k < |targets| && targets[k].targetId == tid && forall j :: 0 <= j < k ==> targets[j].targetId != tid
  }

  /** Row `k` is the first family row with id `fid`. */
  predicate FirstFamilyRow(families: seq<FamilyRow>, fid: string, k: int) {
    0 <= k < |families| && families[k].familyId == fid && forall j :: 0 <= j < k ==> families[j].familyId != fid
  }

  /** `from_target_record`: the first target row whose id is `tid`, if any. */
  function FromTargetRecord(targets: seq<TargetRow>, tid: string): (r: Option<TargetRow>)
    ensures r.None? <==> forall k :: 0 <= k < |targets| ==> targets[k].targetId != tid
    ensures r.Some? ==> exists k :: 0 <= k < |targets| && targets[k] == r.value && r.value.targetId == tid
                          && forall j :: 0 <= j < k ==> targets[j].targetId != tid
  {
    match TargetIndex(targets, tid)
    case None => None
    case Some(k) => Some(targets[k])
  }

  /** `from_family_record`: the first family row whose id is `fid`, if any. */
  function FromFamilyRecord(families: seq<FamilyRow>, fid: string): (r: Option<FamilyRow>)
    ensures r.None? <==> forall k :: 0 <= k < |families| ==> families[k].familyId != fid
    ensures r.Some? ==> exists k :: 0 <= k < |families| && families[k] == r.value && r.value.familyId == fid
                          && forall j :: 0 <= j < k ==> families[j].familyId != fid
  {
    match FamilyIndex(families, fid)
    case None => None
    case Some(k) => Some(families[k])
  }

  /** The family row lists `tid` among its "|"-separated target ids. */
  predicate ListsTarget(f: FamilyRow, tid: string) {
    tid in Split(f.targetIds, '|')
  }

  /** Row `k` is the first family row listing `tid`. */
  predicate FirstListingRow(families: seq<FamilyRow>, tid: string, k: int) {
    0 <= k < |families| && ListsTarget(families[k], tid) && forall j :: 0 <= j < k ==> !ListsTarget(families[j], tid)
  }

  /** `from_target_family_record`: the first family row listing `tid`. */
  function FromTargetFamilyRecord(families: seq<FamilyRow>, tid: string): (r: Option<FamilyRow>)
    ensures r.None? <==> forall k :: 0 <= k < |families| ==> !ListsTarget(families[k], tid)
    ensures r.Some? ==> exists k :: 0 <= k < |families| && families[k] == r.value && ListsTarget(r.value, tid)
                          && forall j :: 0 <= j < k ==> !ListsTarget(families[j], tid)
  {
    match FindFirst(families, (f: FamilyRow) => ListsTarget(f, tid))
    case None => None
    case Some(k) => Some(families[k])
  }

  /**
   * Because `"".split("|")` is `[""]`, the empty target id is "listed" by a
   * family row whose target-id cell is empty.
   */
  lemma EmptyTargetIdMatchesUnlinkedFamily(families: seq<FamilyRow>)
    requires |families| > 0 && families[0].targetIds == ""
    ensures FromTargetFamilyRecord(families, "") == Some(families[0])
  {
    assert ListsTarget(families[0], "");
  }

  /** A target row's field, projected from the first row with id `tid`, or "". */
  function FromTargetFamilyId(targets: seq<TargetRow>, tid: string): (r: string)
    ensures (forall k :: 0 <= k < |targets| ==> targets[k].targetId != tid) ==> r == ""
    ensures r != "" ==> exists k :: 0 <= k < |targets| && targets[k].targetId == tid && targets[k].familyId == r
    ensures forall k :: FirstTargetRow(targets, tid, k) ==> r == targets[k].familyId
  {
    match FromTargetRecord(targets, tid)
    case None => ""
    case Some(t) => t.familyId
  }

  /** `from_target_name`. */
  function FromTargetName(targets: seq<TargetRow>, tid: string): (r: string)
    ensures (forall k :: 0 <= k < |targets| ==> targets[k].targetId != tid) ==> r == ""
    ensures r != "" ==> exists k :: 0 <= k < |targets| && targets[k].targetId == tid && targets[k].targetName == r
    ensures forall k :: FirstTargetRow(targets, tid, k) ==> r == targets[k].targetName
  {
    match FromTargetRecord(targets, tid)
    case None => ""
    case Some(t) => t.targetName
  }

  /** `from_target_type`. */
  function FromTargetType(targets: seq<TargetRow>, tid: string): (r: string)
    ensures (forall k :: 0 <= k < |targets| ==> targets[k].targetId != tid) ==> r == ""
    ensures r != "" ==> exists k :: 0 <= k < |targets| && targets[k].targetId == tid && targets[k].targetType == r
    ensures forall k :: FirstTargetRow(targets, tid, k) ==> r == targets[k].targetType
  {
    match FromTargetRecord(targets, tid)
    case None => ""
    case Some(t) => t.targetType
  }

  /** `from_target_synonyms`. */
  function FromTargetSynonyms(targets: seq<TargetRow>, tid: string): (r: string)
    ensures (forall k :: 0 <= k < |targets| ==> targets[k].targetId != tid) ==> r == ""
    ensures r != "" ==> exists k :: 0 <= k < |targets| && targets[k].targetId == tid && targets[k].synonyms == r
    ensures forall k :: FirstTargetRow(targets, tid, k) ==> r == targets[k].synonyms
  {
    match FromTargetRecord(targets, tid)
    case None => ""
    case Some(t) => t.synonyms
  }

  /** `from_target_parent_family`: the parent of the first family listing `tid`. */
  function FromTargetParentFamily(families: seq<FamilyRow>, tid: string): (r: string)
    ensures (forall k :: 0 <= k < |families| ==> !ListsTarget(families[k], tid)) ==> r == ""
    ensures r != "" ==> exists k :: 0 <= k < |families| && ListsTarget(families[k], tid) && families[k].parentFamilyId == r
    ensures forall k :: FirstListingRow(families, tid, k) ==> r == families[k].parentFamilyId
  {
    match FromTargetFamilyRecord(families, tid)
    case None => ""
    case Some(f) => f.parentFamilyId
  }

  /** `from_family_type`. */
  function FromFamilyType(families: seq<FamilyRow>, fid: string): (r: string)
    ensures (forall k :: 0 <= k < |families| ==> families[k].familyId != fid) ==> r == ""
    ensures r != "" ==> exists k :: 0 <= k < |families| && families[k].familyId == fid && families[k].familyType == r
    ensures forall k :: FirstFamilyRow(families, fid, k) ==> r == families[k].familyType
  {
    match FromFamilyRecord(families, fid)
    case None => ""
    case Some(f) => f.familyType
  }

  /**
   * `from_family_parent`, which is also the step of `family_chain`: the
   * parent of the first family row with id `fid`, or "" when there is none.
   */
  function ParentOf(families: seq<FamilyRow>, fid: string): string {
    match FamilyIndex(families, fid)
    case None => ""
    case Some(k) => families[k].parentFamilyId
  }

  /** A non-empty parent is some row's parent cell. */
  lemma ParentOfParentCell(families: seq<FamilyRow>, fid: string)
    ensures ParentOf(families, fid) == "" || exists k :: 0 <= k < |families| && families[k].parentFamilyId == ParentOf(families, fid)
  {
  }

  /** The parent is "" without a row, and otherwise the parent cell of the first row with that id. */
  lemma ParentOfSpec(families: seq<FamilyRow>, fid: string)
    ensures (forall k :: 0 <= k < |families| ==> families[k].familyId != fid) ==> ParentOf(families, fid) == ""
    ensures forall k :: 0 <= k < |families| && families[k].familyId == fid && (forall j :: 0 <= j < k ==> families[j].familyId != fid)
              ==> ParentOf(families, fid) == families[k].parentFamilyId
    ensures ParentOf(families, fid) != "" ==> fid in FamilyIds(families)
  {
    var r := FamilyIndex(families, fid);
    if r.Some? {
      forall k | 0 <= k < |families| && families[k].familyId == fid && (forall j :: 0 <= j < k ==> families[j].familyId != fid)
        ensures k == r.value
      {
      }
    }
  }

  // ---------------------------------------------------------------------
  // Target-id lookups
  // ---------------------------------------------------------------------

  /** The column and value a target-id lookup filters on. */
  datatype Query =
    | BySwissprot(accession: string)
    | ByHgncName(hgncName: string)
    | ByHgncId(hgncId: string)
    | ByGene(gene: string)
    | BySynonym(text: string)

  /** The row satisfies the lookup's mask; synonyms match case-insensitively as a substring. */
  predicate Matches(q: Query, t: TargetRow) {
    match q
    case BySwissprot(a) => t.swissprot == a
    case ByHgncName(n) => t.hgncName == n
    case ByHgncId(i) => t.hgncId == i
    case ByGene(g) => t.geneName == g
    case BySynonym(s) => Contains(Lower(t.synonyms), Lower(s))
  }

  /** The target ids of the matching rows, in table order (with repeats). */
  function MatchIds(targets: seq<TargetRow>, q: Query): (r: seq<string>)
    ensures forall id :: id in r <==> exists k :: 0 <= k < |targets| && Matches(q, targets[k]) && targets[k].targetId == id
  {
    if |targets| == 0 then []
    else
      var rest := MatchIds(targets[1..], q);
      assert forall k :: 1 <= k < |targets| ==> targets[k] == targets[1..][k - 1];
      (if Matches(q, targets[0]) then [targets[0].targetId] else []) + rest
  }

  /**
   * `_select_target_ids`: the distinct ids of the matching rows. They are
   * ordered by first appearance in the table (see `SelectTargetIdsOrder`).
   */
  function SelectTargetIds(targets: seq<TargetRow>, q: Query): (r: seq<string>)
    ensures NoDup(r)
    ensures forall id :: id in r <==> exists k :: 0 <= k < |targets| && Matches(q, targets[k]) && targets[k].targetId == id
  {
    DedupSpec(MatchIds(targets, q));
    Dedup(MatchIds(targets, q))
  }

  /** Selected ids keep the order in which the table first mentions them. */
  lemma SelectTargetIdsOrder(targets: seq<TargetRow>, q: Query, i: nat, j: nat)
    requires i < j < |SelectTargetIds(targets, q)|
    ensures SelectTargetIds(targets, q)[i] in MatchIds(targets, q)
    ensures SelectTargetIds(targets, q)[j] in MatchIds(targets, q)
    ensures FirstIndexOf(MatchIds(targets, q), SelectTargetIds(targets, q)[i])
          < FirstIndexOf(MatchIds(targets, q), SelectTargetIds(targets, q)[j])
  {
    DedupOrder(MatchIds(targets, q), i, j);
  }

  /** Row `k` is the first row the query matches. */
  predicate FirstMatch(targets: seq<TargetRow>, q: Query, k: int) {
    0 <= k < |targets| && Matches(q, targets[k]) && forall j :: 0 <= j < k ==> !Matches(q, targets[j])
  }

  /** The first id of a match list is that of the first matching row. */
  lemma {:induction false} MatchIdsHead(targets: seq<TargetRow>, q: Query, k: nat)
    requires FirstMatch(targets, q, k)
    ensures |MatchIds(targets, q)| > 0 && MatchIds(targets, q)[0] == targets[k].targetId
  {
    if k > 0 {
      assert FirstMatch(targets[1..], q, k - 1) by {
        assert forall j :: 0 <= j < k - 1 ==> targets[1..][j] == targets[j + 1];
      }
      MatchIdsHead(targets[1..], q, k - 1);
    }
  }

  lemma {:induction false} DedupHead<T(!new)>(xs: seq<T>)
    requires |xs| > 0
    ensures |Dedup(xs)| > 0 && Dedup(xs)[0] == xs[0]
  {
    var init := xs[..|xs| - 1];
    if |init| == 0 {
      assert Dedup(xs) == Dedup(init) + [xs[|xs| - 1]];
    } else {
      DedupHead(init);
      assert Dedup(xs) == if xs[|xs| - 1] in Dedup(init) then Dedup(init) else Dedup(init) + [xs[|xs| - 1]];
    }
  }

  /** The first selected id is that of the first matching row. */
  lemma SelectHead(targets: seq<TargetRow>, q: Query)
    ensures forall k :: FirstMatch(targets, q, k) ==>
      |SelectTargetIds(targets, q)| > 0 && SelectTargetIds(targets, q)[0] == targets[k].targetId
  {
    forall k | FirstMatch(targets, q, k)
      ensures |SelectTargetIds(targets, q)| > 0 && SelectTargetIds(targets, q)[0] == targets[k].targetId
    {
      MatchIdsHead(targets, q, k);
      DedupHead(MatchIds(targets, q));
    }
  }

  /** `target_id_by_uniprot`: the id of the first row with this accession, or "". */
  function TargetIdByUniprot(targets: seq<TargetRow>, accession: string): (r: string)
    ensures (forall k :: 0 <= k < |targets| ==> targets[k].swissprot != accession) ==> r == ""
    ensures forall k :: FirstMatch(targets, BySwissprot(accession), k) ==> r == targets[k].targetId
  {
    var ids := SelectTargetIds(targets, BySwissprot(accession));
    SelectHead(targets, BySwissprot(accession));
    assert |ids| > 0 ==> ids[0] in ids;
    if |ids| > 0 then ids[0] else ""
  }

  lemma {:induction false} JoinEmpty(parts: seq<string>, sep: string)
    requires |sep| > 0
    ensures Join(parts, sep) == "" <==> |parts| == 0 || (|parts| == 1 && parts[0] == "")
  {
    if |parts| > 1 {
      assert |Join(parts, sep)| >= |sep|;
    }
  }

  /** The "|"-joined selection of a lookup; "" exactly when no matching row has a non-empty id. */
  function JoinedIds(targets: seq<TargetRow>, q: Query): (r: string)
    ensures r == "" <==> forall k :: 0 <= k < |targets| && Matches(q, targets[k]) ==> targets[k].targetId == ""
  {
    var ids := SelectTargetIds(targets, q);
    JoinEmpty(ids, "|");
    AllEmptyIds(targets, q);
    if |ids| > 0 then Join(ids, "|") else ""
  }

  /** The selection is empty or `[""]` exactly when every matching row has an empty id. */
  lemma AllEmptyIds(targets: seq<TargetRow>, q: Query)
    ensures var ids := SelectTargetIds(targets, q);
      (|ids| == 0 || (|ids| == 1 && ids[0] == "")) <==> forall k :: 0 <= k < |targets| && Matches(q, targets[k]) ==> targets[k].targetId == ""
  {
    var ids := SelectTargetIds(targets, q);
    if forall k :: 0 <= k < |targets| && Matches(q, targets[k]) ==> targets[k].targetId == "" {
      forall x | x in ids ensures x == "" {
        var k :| 0 <= k < |targets| && Matches(q, targets[k]) && targets[k].targetId == x;
      }
      assert (set x | x in ids) <= {""};
      NoDupCard(ids);
      SubsetCard((set x | x in ids), {""});
      assert |ids| <= 1;
      assert |ids| == 1 ==> ids[0] in ids;
    }
    if |ids| == 0 || (|ids| == 1 && ids[0] == "") {
      forall k | 0 <= k < |targets| && Matches(q, targets[k]) ensures targets[k].targetId == "" {
        assert targets[k].targetId in ids;
      }
    }
  }

  /** When ids contain no "|", the joined lookup splits back into the selection. */
  lemma JoinedIdsRoundTrip(targets: seq<TargetRow>, q: Query)
    requires forall k :: 0 <= k < |targets| ==> '|' !in targets[k].targetId
    requires exists k :: 0 <= k < |targets| && Matches(q, targets[k])
    ensures Split(JoinedIds(targets, q), '|') == SelectTargetIds(targets, q)
  {
    var ids := SelectTargetIds(targets, q);
    var k :| 0 <= k < |targets| && Matches(q, targets[k]);
    assert targets[k].targetId in ids;
    forall i | 0 <= i < |ids| ensures '|' !in ids[i] {
      assert ids[i] in ids;
    }
    SplitJoin(ids, '|');
  }

  /** `target_id_by_hgnc_name`: "" for an empty name, else the joined matches. */
  function TargetIdByHgncName(targets: seq<TargetRow>, name: string): (r: string)
    ensures name == "" ==> r == ""
    ensures name != "" ==> r == JoinedIds(targets, ByHgncName(name))
  {
    if name == "" then "" else JoinedIds(targets, ByHgncName(name))
  }

  /** `target_id_by_hgnc_id` (no empty-query guard: "" matches rows with an empty HGNC id). */
  function TargetIdByHgncId(targets: seq<TargetRow>, hgncId: string): (r: string)
    ensures r == "" <==> forall k :: 0 <= k < |targets| && targets[k].hgncId == hgncId ==> targets[k].targetId == ""
    ensures r == JoinedIds(targets, ByHgncId(hgncId))
  {
    JoinedIds(targets, ByHgncId(hgncId))
  }

  /** `target_id_by_gene` (no empty-query guard). */
  function TargetIdByGene(targets: seq<TargetRow>, gene: string): (r: string)
    ensures r == "" <==> forall k :: 0 <= k < |targets| && targets[k].geneName == gene ==> targets[k].targetId == ""
    ensures r == JoinedIds(targets, ByGene(gene))
  {
    JoinedIds(targets, ByGene(gene))
  }

  /** `target_id_by_name`: case-insensitive substring search in the synonyms cell. */
  function TargetIdByName(targets: seq<TargetRow>, name: string): (r: string)
    ensures name == "" ==> r == ""
    ensures name != "" ==> r == JoinedIds(targets, BySynonym(name))
  {
    if name == "" then "" else JoinedIds(targets, BySynonym(name))
  }

  /** A non-empty name finds nothing exactly when every target whose synonyms mention it has an empty id. */
  lemma TargetIdByNameEmpty(targets: seq<TargetRow>, name: string)
    requires name != ""
    ensures TargetIdByName(targets, name) == "" <==> forall k :: 0 <= k < |targets| && Contains(Lower(targets[k].synonyms), Lower(name)) ==> targets[k].targetId == ""
  {
    assert forall k :: 0 <= k < |targets| ==> (Matches(BySynonym(name), targets[k]) <==> Contains(Lower(targets[k].synonyms), Lower(name)));
  }

  /** A synonym long enough to search for (`s and len(s) > 3`). */
  predicate LongSynonym(s: string) {
    |s| > 3
  }

  /** An unambiguous hit: a non-empty lookup result with no "|". */
  predicate Unambiguous(mapped: string) {
    mapped != "" && '|' !in mapped
  }

  /** `target_id_by_name` applied to each name. */
  function LookUpNames(targets: seq<TargetRow>, names: seq<string>): (r: seq<string>)
    ensures |r| == |names| && forall i :: 0 <= i < |names| ==> r[i] == TargetIdByName(targets, names[i])
  {
    seq(|names|, i requires 0 <= i < |names| => TargetIdByName(targets, names[i]))
  }

  /** The unambiguous lookup results of `synonyms`, in order. */
  function SynonymHits(targets: seq<TargetRow>, synonyms: seq<string>): seq<string> {
    Filter(LookUpNames(targets, synonyms), Unambiguous)
  }

  /** A hit is exactly an unambiguous lookup result of one of the synonyms. */
  lemma SynonymHitsMembers(targets: seq<TargetRow>, synonyms: seq<string>, x: string)
    ensures x in SynonymHits(targets, synonyms) <==> Unambiguous(x) && exists i :: 0 <= i < |synonyms| && TargetIdByName(targets, synonyms[i]) == x
  {
    var m := LookUpNames(targets, synonyms);
    if x in m {
      var i :| 0 <= i < |m| && m[i] == x;
    }
    if exists i :: 0 <= i < |synonyms| && TargetIdByName(targets, synonyms[i]) == x {
      var i :| 0 <= i < |synonyms| && TargetIdByName(targets, synonyms[i]) == x;
      assert m[i] == x;
    }
  }

  /**
   * `target_ids_by_synonyms`: the sorted, duplicate-free unambiguous hits of
   * the synonyms longer than three characters, joined by "|".
   */
  method TargetIdsBySynonyms(targets: seq<TargetRow>, synonyms: seq<string>) returns (r: string)
    ensures r == Join(SortedUnique(SynonymHits(targets, Filter(synonyms, LongSynonym))), "|")
  {
    var valid: seq<string> := [];
    for i := 0 to |synonyms|
      invariant valid == Filter(synonyms[..i], LongSynonym)
    {
      LongStep(synonyms, i);
      if LongSynonym(synonyms[i]) {
        valid := valid + [synonyms[i]];
      }
    }
    assert synonyms[..|synonyms|] == synonyms;
    var ids: seq<string> := [];
    for i := 0 to |valid|
      invariant ids == SynonymHits(targets, valid[..i])
    {
      var mapped := TargetIdByName(targets, valid[i]);
      HitStep(targets, valid, i);
      if mapped != "" && '|' !in mapped {
        ids := ids + [mapped];
      }
    }
    assert valid[..|valid|] == valid;
    var unique := SortedUnique(ids);
    r := if |unique| > 0 then Join(unique, "|") else "";
  }

  /** One more synonym extends the long synonyms by it when it is long. */
  lemma LongStep(synonyms: seq<string>, i: nat)
    requires i < |synonyms|
    ensures Filter(synonyms[..i + 1], LongSynonym)
      == Filter(synonyms[..i], LongSynonym) + (if LongSynonym(synonyms[i]) then [synonyms[i]] else [])
  {
    FilterSnoc(synonyms[..i], synonyms[i], LongSynonym);
    assert synonyms[..i + 1] == synonyms[..i] + [synonyms[i]];
  }

  /** One more synonym extends the hits by its lookup result when that is unambiguous. */
  lemma HitStep(targets: seq<TargetRow>, names: seq<string>, i: nat)
    requires i < |names|
    ensures var m := TargetIdByName(targets, names[i]);
      SynonymHits(targets, names[..i + 1]) == SynonymHits(targets, names[..i]) + (if Unambiguous(m) then [m] else [])
  {
    var m := TargetIdByName(targets, names[i]);
    assert LookUpNames(targets, names[..i + 1]) == LookUpNames(targets, names[..i]) + [m];
    FilterSnoc(LookUpNames(targets, names[..i]), m, Unambiguous);
  }

  /** Every id `target_ids_by_synonyms` reports comes from a long synonym with a single hit, and vice versa. */
  lemma TargetIdsBySynonymsMembers(targets: seq<TargetRow>, synonyms: seq<string>, x: string)
    ensures x in SortedUnique(SynonymHits(targets, Filter(synonyms, LongSynonym)))
        <==> Unambiguous(x) && exists s :: s in synonyms && |s| > 3 && TargetIdByName(targets, s) == x
  {
    var valid := Filter(synonyms, LongSynonym);
    var hits := SynonymHits(targets, valid);
    SynonymHitsMembers(targets, valid, x);
    assert x in SortedUnique(hits) <==> x in hits;
    if x in hits {
      var i :| 0 <= i < |valid| && TargetIdByName(targets, valid[i]) == x;
      assert valid[i] in valid;
      assert valid[i] in synonyms && |valid[i]| > 3;
    }
    if Unambiguous(x) && exists s :: s in synonyms && |s| > 3 && TargetIdByName(targets, s) == x {
      var s :| s in synonyms && |s| > 3 && TargetIdByName(targets, s) == x;
      assert s in valid;
      var i :| 0 <= i < |valid| && valid[i] == s;
      assert x in hits;
    }
  }

  /** `from_target_family_id` applied to each target id. */
  function LookUpFamilyIds(targets: seq<TargetRow>, tids: seq<string>): (r: seq<string>)
    ensures |r| == |tids| && forall i :: 0 <= i < |tids| ==> r[i] == FromTargetFamilyId(targets, tids[i])
  {
    seq(|tids|, i requires 0 <= i < |tids| => FromTargetFamilyId(targets, tids[i]))
  }

  /** The non-empty family ids of the non-empty target ids, in order. */
  function FamilyIdsOf(targets: seq<TargetRow>, tids: seq<string>): seq<string> {
    NonEmpty(LookUpFamilyIds(targets, NonEmpty(tids)))
  }

  /**
   * `family_id_by_name`: the sorted, duplicate-free family ids of the
   * targets whose synonyms mention `name`, joined by "|"; "" for an empty name.
   */
  function FamilyIdByName(targets: seq<TargetRow>, name: string): (r: string)
    ensures name == "" ==> r == ""
    ensures name != "" ==> r == Join(SortedUnique(FamilyIdsOf(targets, Split(TargetIdByName(targets, name), '|'))), "|")
  {
    if name == "" then ""
    else
      var tids := Split(TargetIdByName(targets, name), '|');
      var unique := SortedUnique(FamilyIdsOf(targets, tids));
      if |unique| > 0 then Join(unique, "|") else ""
  }

  /** The family ids `family_id_by_name` reports are sorted, distinct, and each belongs to a matched target. */
  lemma FamilyIdByNameMembers(targets: seq<TargetRow>, name: string, f: string)
    requires name != ""
    ensures var u := SortedUnique(FamilyIdsOf(targets, Split(TargetIdByName(targets, name), '|')));
      && Sorted(u) && NoDup(u)
      && (f in u <==> f != "" && exists t :: t in Split(TargetIdByName(targets, name), '|') && t != "" && FromTargetFamilyId(targets, t) == f)
  {
    var tids := NonEmpty(Split(TargetIdByName(targets, name), '|'));
    var m := LookUpFamilyIds(targets, tids);
    if f in m {
      var i :| 0 <= i < |m| && m[i] == f;
      assert tids[i] in tids;
    }
    if exists t :: t in Split(TargetIdByName(targets, name), '|') && t != "" && FromTargetFamilyId(targets, t) == f {
      var t :| t in Split(TargetIdByName(targets, name), '|') && t != "" && FromTargetFamilyId(targets, t) == f;
      assert t in tids;
      var i :| 0 <= i < |tids| && tids[i] == t;
      assert m[i] == f;
    }
  }

  /** A row cell read with `row.get(key, "")`. */
  function RowGet(row: map<string, string>, key: string): string {
    if key in row then row[key] else ""
  }

  /**
   * The five id lists `target_id_from_row` combines: by accession, HGNC name,
   * HGNC id, and the name and synonym sources, which the source leaves empty.
   */
  function RowSources(targets: seq<TargetRow>, row: map<string, string>): seq<string> {
    [TargetIdByUniprot(targets, RowGet(row, "uniprot_id")),
     TargetIdByHgncName(targets, RowGet(row, "HGNC_name")),
     TargetIdByHgncId(targets, RowGet(row, "HGNC_id")),
     "",
     ""]
  }

  /** The non-empty "|"-pieces of the non-empty parts, in order. */
  function Pieces(parts: seq<string>): seq<string> {
    NonEmpty(Flatten(SplitAll(NonEmpty(parts))))
  }

  /** A piece is a non-empty "|"-piece of a part, and it contains no "|". */
  lemma PiecesMembers(parts: seq<string>, x: string)
    ensures x in Pieces(parts) <==> x != "" && exists k :: 0 <= k < |parts| && x in Split(parts[k], '|')
    ensures x in Pieces(parts) ==> '|' !in x
  {
    var ne := NonEmpty(parts);
    var sa := SplitAll(ne);
    if x in Flatten(sa) {
      var k :| 0 <= k < |sa| && x in sa[k];
      assert ne[k] in ne;
      var j :| 0 <= j < |parts| && parts[j] == ne[k];
      var m :| 0 <= m < |sa[k]| && sa[k][m] == x;
    }
    if x != "" && exists k :: 0 <= k < |parts| && x in Split(parts[k], '|') {
      var k :| 0 <= k < |parts| && x in Split(parts[k], '|');
      assert parts[k] != "" by {
        assert Split("", '|') == [""];
      }
      assert parts[k] in ne;
      var j :| 0 <= j < |ne| && ne[j] == parts[k];
      assert x in sa[j];
    }
  }

  /**
   * `target_id_from_row`: the sorted distinct ids found by the sources,
   * joined by "|", or "N/A" when none is found.
   */
  function TargetIdFromRow(targets: seq<TargetRow>, row: map<string, string>): (r: string)
    ensures |Pieces(RowSources(targets, row))| == 0 ==> r == "N/A"
  {
    var unique := SortedUnique(Pieces(RowSources(targets, row)));
    assert |unique| > 0 ==> unique[0] in unique;
    if |unique| == 0 then "N/A" else Join(unique, "|")
  }

  /** When some source finds an id, the result splits into the sorted distinct ids found. */
  lemma TargetIdFromRowFound(targets: seq<TargetRow>, row: map<string, string>)
    requires |Pieces(RowSources(targets, row))| > 0
    ensures Split(TargetIdFromRow(targets, row), '|') == SortedUnique(Pieces(RowSources(targets, row)))
  {
    var ps := Pieces(RowSources(targets, row));
    var unique := SortedUnique(ps);
    forall k | 0 <= k < |unique| ensures '|' !in unique[k] {
      assert unique[k] in unique;
      PiecesMembers(RowSources(targets, row), unique[k]);
    }
    assert ps[0] in ps;
    SplitJoin(unique, '|');
  }

  // ---------------------------------------------------------------------
  // The parent-family walk
  // ---------------------------------------------------------------------

  /**
   * The walk from `fid` with at most `fuel` steps: `None` when the fuel runs
   * out, else the ids visited until an empty id, a missing row or an empty
   * parent.
   */
  function ChainFrom(families: seq<FamilyRow>, fid: string, fuel: nat): Option<seq<string>>
    decreases fuel
  {
    if fid == "" then Some([])
    else if fuel == 0 then None
    else match ChainFrom(families, ParentOf(families, fid), fuel - 1)
      case None => None
      case Some(rest) => Some([fid] + rest)
  }

  /** The walk with one step per family row plus one. */
  function Walk(families: seq<FamilyRow>, fid: string): Option<seq<string>> {
    ChainFrom(families, fid, |families| + 1)
  }

  /**
   * `family_chain` has no cycle guard: it ends only when no walk revisits an
   * id. `Acyclic` says every walk ends within `|families| + 1` steps, which
   * `AcyclicIffAllTerminate` shows is the same as every walk ending at all.
   */
  ghost predicate Acyclic(families: seq<FamilyRow>) {
    forall fid :: Walk(families, fid).Some?
  }

  /** The walk from `fid` ends with some amount of fuel. */
  ghost predicate Terminates(families: seq<FamilyRow>, fid: string) {
    exists fuel: nat :: ChainFrom(families, fid, fuel).Some?
  }

  /** The chain of `fid` in an acyclic family table. */
  function Chain(families: seq<FamilyRow>, fid: string): seq<string>
    requires Acyclic(families)
  {
    Walk(families, fid).value
  }

  /** The shape of every finished walk: start, parent links, end condition. */
  lemma {:induction false} ChainFromShape(families: seq<FamilyRow>, fid: string, fuel: nat)
    requires ChainFrom(families, fid, fuel).Some?
    decreases fuel
    ensures var c := ChainFrom(families, fid, fuel).value;
      && (fid == "" <==> c == [])
      && (c != [] ==> c[0] == fid && ParentOf(families, c[|c| - 1]) == "")
      && (forall i :: 0 <= i < |c| - 1 ==> c[i + 1] == ParentOf(families, c[i]))
      && (forall i :: 0 <= i < |c| ==> c[i] != "")
      && |c| <= fuel
  {
    if fid != "" {
      var p := ParentOf(families, fid);
      ChainFromShape(families, p, fuel - 1);
      var rest := ChainFrom(families, p, fuel - 1).value;
      var c := [fid] + rest;
      assert forall i :: 1 <= i < |c| ==> c[i] == rest[i - 1];
      if rest != [] {
        assert c[1] == p && c[|c| - 1] == rest[|rest| - 1];
      }
    }
  }

  /** A finished walk does not depend on the amount of fuel. */
  lemma {:induction false} ChainFromFuel(families: seq<FamilyRow>, fid: string, f1: nat, f2: nat)
    requires ChainFrom(families, fid, f1).Some? && ChainFrom(families, fid, f2).Some?
    ensures ChainFrom(families, fid, f1) == ChainFrom(families, fid, f2)
    decreases f1
  {
    if fid != "" {
      ChainFromFuel(families, ParentOf(families, fid), f1 - 1, f2 - 1);
    }
  }

  /** More fuel never hurts. */
  lemma {:induction false} ChainFromMoreFuel(families: seq<FamilyRow>, fid: string, f1: nat, f2: nat)
    requires ChainFrom(families, fid, f1).Some? && f1 <= f2
    ensures ChainFrom(families, fid, f2) == ChainFrom(families, fid, f1)
    decreases f1
  {
    if fid != "" {
      ChainFromMoreFuel(families, ParentOf(families, fid), f1 - 1, f2 - 1);
    }
  }

  /** Every suffix of a walk is the walk from its first id. */
  lemma {:induction false} ChainFromSuffix(families: seq<FamilyRow>, fid: string, fuel: nat, k: nat)
    requires ChainFrom(families, fid, fuel).Some?
    requires k < |ChainFrom(families, fid, fuel).value|
    ensures var c := ChainFrom(families, fid, fuel).value;
      fuel >= k && ChainFrom(families, c[k], fuel - k).Some?
      && |ChainFrom(families, c[k], fuel - k).value| == |c| - k
    decreases k
  {
    var c := ChainFrom(families, fid, fuel).value;
    if k > 0 {
      var p := ParentOf(families, fid);
      var rest := ChainFrom(families, p, fuel - 1).value;
      assert c == [fid] + rest;
      ChainFromSuffix(families, p, fuel - 1, k - 1);
      assert c[k] == rest[k - 1];
    }
  }

  /** Two finished walks from the same id are the same walk. */
  lemma SameStartSameChain(families: seq<FamilyRow>, a: string, b: string, f1: nat, f2: nat)
    ensures a == b && ChainFrom(families, a, f1).Some? && ChainFrom(families, b, f2).Some?
            ==> |ChainFrom(families, a, f1).value| == |ChainFrom(families, b, f2).value|
  {
    if a == b && ChainFrom(families, a, f1).Some? && ChainFrom(families, b, f2).Some? {
      ChainFromFuel(families, a, f1, f2);
    }
  }

  /** Positions `i < j` of a finished walk hold different ids. */
  lemma ChainFromDistinctAt(families: seq<FamilyRow>, fid: string, fuel: nat, i: nat, j: nat)
    requires ChainFrom(families, fid, fuel).Some?
    requires i < j < |ChainFrom(families, fid, fuel).value|
    ensures ChainFrom(families, fid, fuel).value[i] != ChainFrom(families, fid, fuel).value[j]
  {
    var c := ChainFrom(families, fid, fuel).value;
    ChainFromSuffix(families, fid, fuel, i);
    ChainFromSuffix(families, fid, fuel, j);
    SameStartSameChain(families, c[i], c[j], fuel - i, fuel - j);
  }

  /** A finished walk never visits an id twice. */
  lemma ChainFromNoRepeat(families: seq<FamilyRow>, fid: string, fuel: nat)
    requires ChainFrom(families, fid, fuel).Some?
    ensures NoDup(ChainFrom(families, fid, fuel).value)
  {
    var c := ChainFrom(families, fid, fuel).value;
    forall i, j | 0 <= i < j < |c| ensures c[i] != c[j] {
      ChainFromDistinctAt(families, fid, fuel, i, j);
    }
  }

  /** A finished walk of length `n` also finishes with fuel `n`. */
  lemma {:induction false} ChainFromExactFuel(families: seq<FamilyRow>, fid: string, fuel: nat)
    requires ChainFrom(families, fid, fuel).Some?
    ensures ChainFrom(families, fid, |ChainFrom(families, fid, fuel).value|) == ChainFrom(families, fid, fuel)
    decreases fuel
  {
    if fid != "" {
      ChainFromExactFuel(families, ParentOf(families, fid), fuel - 1);
    }
  }

  /** The ids of the family rows. */
  function FamilyIds(families: seq<FamilyRow>): (r: set<string>)
    ensures |r| <= |families|
    ensures forall fid :: fid in r <==> exists k :: 0 <= k < |families| && families[k].familyId == fid
  {
    if |families| == 0 then {}
    else
      var rest := FamilyIds(families[1..]);
      assert forall k :: 1 <= k < |families| ==> families[k] == families[1..][k - 1];
      {families[0].familyId} + rest
  }

  lemma {:induction false} NoDupCard(s: seq<string>)
    requires NoDup(s)
    ensures |set x | x in s| == |s|
  {
    if |s| > 0 {
      NoDupCard(s[1..]);
      assert (set x | x in s) == {s[0]} + (set x | x in s[1..]);
      assert s[0] !in s[1..];
    }
  }

  /** Every id of a finished walk but the last has a family row. */
  lemma ChainFromInTable(families: seq<FamilyRow>, fid: string, fuel: nat)
    requires ChainFrom(families, fid, fuel).Some?
    ensures var c := ChainFrom(families, fid, fuel).value;
      forall i :: 0 <= i < |c| - 1 ==> c[i] in FamilyIds(families)
  {
    var c := ChainFrom(families, fid, fuel).value;
    ChainFromShape(families, fid, fuel);
    forall i | 0 <= i < |c| - 1
      ensures c[i] in FamilyIds(families)
    {
      assert ParentOf(families, c[i]) == c[i + 1] != "";
      ParentOfSpec(families, c[i]);
    }
  }

  /** A finished walk has at most `|families| + 1` ids: the pigeonhole bound. */
  lemma ChainFromLength(families: seq<FamilyRow>, fid: string, fuel: nat)
    requires ChainFrom(families, fid, fuel).Some?
    ensures |ChainFrom(families, fid, fuel).value| <= |families| + 1
  {
    var c := ChainFrom(families, fid, fuel).value;
    ChainFromNoRepeat(families, fid, fuel);
    ChainFromInTable(families, fid, fuel);
    if |c| > 0 {
      var inner := c[..|c| - 1];
      assert NoDup(inner);
      NoDupCard(inner);
      assert (set x | x in inner) <= FamilyIds(families);
      SubsetCard((set x | x in inner), FamilyIds(families));
    }
  }

  /** Any walk that ends at all ends within `|families| + 1` steps. */
  lemma TerminatesWithinBudget(families: seq<FamilyRow>, fid: string, fuel: nat)
    requires ChainFrom(families, fid, fuel).Some?
    ensures Walk(families, fid).Some?
  {
    var c := ChainFrom(families, fid, fuel).value;
    ChainFromLength(families, fid, fuel);
    ChainFromExactFuel(families, fid, fuel);
    ChainFromMoreFuel(families, fid, |c|, |families| + 1);
  }

  /** The acyclicity assumption is exactly "every walk terminates". */
  lemma AcyclicIffAllTerminate(families: seq<FamilyRow>)
    ensures Acyclic(families) <==> forall fid :: Terminates(families, fid)
  {
    if forall fid :: Terminates(families, fid) {
      forall fid ensures Walk(families, fid).Some? {
        assert Terminates(families, fid);
        var fuel: nat :| ChainFrom(families, fid, fuel).Some?;
        TerminatesWithinBudget(families, fid, fuel);
      }
    }
    if Acyclic(families) {
      forall fid ensures Terminates(families, fid) {
        assert Walk(families, fid).Some?;
        var fuel: nat := |families| + 1;
        assert ChainFrom(families, fid, fuel).Some?;
      }
    }
  }

  /** Without the assumption the walk need not end: a family that is its own parent never does. */
  lemma {:induction false} SelfParentNeverTerminates(families: seq<FamilyRow>, fid: string, fuel: nat)
    requires fid != "" && ParentOf(families, fid) == fid
    ensures ChainFrom(families, fid, fuel).None?
  {
    if fuel > 0 {
      SelfParentNeverTerminates(families, fid, fuel - 1);
    }
  }

  /** The chain of an acyclic table: start, parent links, end condition, no repeats. */
  lemma ChainShape(families: seq<FamilyRow>, fid: string)
    requires Acyclic(families)
    ensures var c := Chain(families, fid);
      && (fid == "" <==> c == [])
      && (c != [] ==> c[0] == fid && ParentOf(families, c[|c| - 1]) == "")
      && (forall i :: 0 <= i < |c| - 1 ==> c[i + 1] == ParentOf(families, c[i]))
      && (forall i :: 0 <= i < |c| ==> c[i] != "")
      && NoDup(c)
  {
    assert Walk(families, fid).Some?;
    ChainFromShape(families, fid, |families| + 1);
    ChainFromNoRepeat(families, fid, |families| + 1);
  }

  /** One step of a finished walk. */
  lemma ChainStep(families: seq<FamilyRow>, fid: string, fuel: nat)
    requires fid != "" && ChainFrom(families, fid, fuel).Some?
    ensures fuel >= 1 && ChainFrom(families, ParentOf(families, fid), fuel - 1).Some?
    ensures ChainFrom(families, fid, fuel).value == [fid] + ChainFrom(families, ParentOf(families, fid), fuel - 1).value
  {
  }

  /**
   * `family_chain`: follow parent links from `start` until an empty id, a
   * missing row or an empty parent.
   */
  method FamilyChain(families: seq<FamilyRow>, start: string) returns (chain: seq<string>)
    requires Walk(families, start).Some?
    ensures chain == Walk(families, start).value
  {
    chain := [];
    var current := start;
    ghost var fuel: nat := |families| + 1;
    ghost var rest := Walk(families, start).value;
    while current != ""
      invariant ChainFrom(families, current, fuel) == Some(rest)
      invariant chain + rest == Walk(families, start).value
      decreases fuel
    {
      ChainStep(families, current, fuel);
      // "" both when no row has this id and when its parent cell is empty
      var parent := ParentOf(families, current);
      ghost var next := ChainFrom(families, parent, fuel - 1).value;
      assert rest == [current] + next;
      chain := chain + [current];
      assert chain + next == Walk(families, start).value;
      if parent == "" {
        assert next == [];
        break;
      }
      current := parent;
      fuel := fuel - 1;
      rest := next;
    }
  }

  /** `all_id`: "<target>#<chain joined by '>'>", or "" when the target has no family id. */
  function AllId(cat: Catalog, tid: string): (r: string)
    requires Acyclic(cat.families)
    ensures FromTargetFamilyId(cat.targets, tid) == "" <==> r == ""
  {
    var fid := FromTargetFamilyId(cat.targets, tid);
    if fid == "" then ""
    else tid + "#" + Join(Chain(cat.families, fid), ">")
  }

  /** The id path decodes back into the target id and the family chain. */
  lemma AllIdRoundTrip(cat: Catalog, tid: string)
    requires Acyclic(cat.families)
    requires FromTargetFamilyId(cat.targets, tid) != ""
    requires '#' !in tid
    requires forall k :: 0 <= k < |cat.families| ==> '#' !in cat.families[k].parentFamilyId && '>' !in cat.families[k].parentFamilyId
    requires '#' !in FromTargetFamilyId(cat.targets, tid) && '>' !in FromTargetFamilyId(cat.targets, tid)
    ensures var c := Chain(cat.families, FromTargetFamilyId(cat.targets, tid));
      && Split(AllId(cat, tid), '#') == [tid, Join(c, ">")]
      && Split(Join(c, ">"), '>') == c
  {
    var fid := FromTargetFamilyId(cat.targets, tid);
    var c := Chain(cat.families, fid);
    ChainShape(cat.families, fid);
    forall i | 0 <= i < |c| ensures '#' !in c[i] && '>' !in c[i] {
      if i > 0 {
        var p := ParentOf(cat.families, c[i - 1]);
        assert p == c[i];
        ParentOfParentCell(cat.families, c[i - 1]);
      }
    }
    SplitJoin(c, '>');
    JoinChars(c, ">", '#');
    SplitJoin([tid, Join(c, ">")], '#');
    assert Join([tid, Join(c, ">")], "#") == tid + "#" + Join(c, ">");
  }

  /** A family name `all_name` keeps: non-empty and not "enzyme" in any case. */
  predicate KeptName(name: string) {
    name != "" && Lower(name) != "enzyme"
  }

  /** The family name of an id, when it has a record. */
  function NameOf(families: seq<FamilyRow>, fid: string): Option<string> {
    match FromFamilyRecord(families, fid)
    case None => None
    case Some(r) => Some(r.familyName)
  }

  /** `NameOf` applied to each id. */
  function NamesOf(families: seq<FamilyRow>, ids: seq<string>): (r: seq<Option<string>>)
    ensures |r| == |ids| && forall i :: 0 <= i < |ids| ==> r[i] == NameOf(families, ids[i])
  {
    seq(|ids|, i requires 0 <= i < |ids| => NameOf(families, ids[i]))
  }

  /** The names kept from a list of looked-up names: present and `KeptName`. */
  function KeptNames(names: seq<Option<string>>): seq<string> {
    if |names| == 0 then []
    else
      var init := names[..|names| - 1];
      var last := names[|names| - 1];
      KeptNames(init) + (if last.Some? && KeptName(last.value) then [last.value] else [])
  }

  /** A kept name is a present name that passes `KeptName`. */
  lemma {:induction false} KeptNamesMembers(names: seq<Option<string>>, n: string)
    ensures n in KeptNames(names) <==> KeptName(n) && Some(n) in names
  {
    if |names| > 0 {
      var init := names[..|names| - 1];
      KeptNamesMembers(init, n);
      assert names == init + [names[|names| - 1]];
    }
  }

  /** The kept family names along a chain of ids, in order; ids without a record are skipped. */
  function ChainNames(families: seq<FamilyRow>, ids: seq<string>): seq<string> {
    KeptNames(NamesOf(families, ids))
  }

  /** `all_name` keeps exactly the kept names of the ids that have a record. */
  lemma ChainNamesMembers(families: seq<FamilyRow>, ids: seq<string>, n: string)
    ensures n in ChainNames(families, ids) <==> KeptName(n) && exists i :: 0 <= i < |ids| && NameOf(families, ids[i]) == Some(n)
  {
    var m := NamesOf(families, ids);
    KeptNamesMembers(m, n);
    if Some(n) in m {
      var i :| 0 <= i < |m| && m[i] == Some(n);
    }
    if exists i :: 0 <= i < |ids| && NameOf(families, ids[i]) == Some(n) {
      var i :| 0 <= i < |ids| && NameOf(families, ids[i]) == Some(n);
      assert m[i] == Some(n);
    }
  }

  /** One more id extends the kept names by its family name when it has a record and the name is kept. */
  lemma NameStep(families: seq<FamilyRow>, ids: seq<string>, i: nat)
    requires i < |ids|
    ensures var n := NameOf(families, ids[i]);
      ChainNames(families, ids[..i + 1]) == ChainNames(families, ids[..i]) + (if n.Some? && KeptName(n.value) then [n.value] else [])
  {
    assert NamesOf(families, ids[..i + 1])[..i] == NamesOf(families, ids[..i]);
  }

  /** The name path of `all_name`, "" when the target has no family id. */
  function AllNamePath(cat: Catalog, tid: string): string
    requires Acyclic(cat.families)
  {
    var fid := FromTargetFamilyId(cat.targets, tid);
    if fid == "" then ""
    else FromTargetName(cat.targets, tid) + "#" + Join(ChainNames(cat.families, Chain(cat.families, fid)), ">")
  }

  /** `all_name`: the target name, "#", and the kept family names along the chain joined by ">". */
  method AllName(cat: Catalog, tid: string) returns (path: string)
    requires Acyclic(cat.families)
    ensures path == AllNamePath(cat, tid)
    ensures FromTargetFamilyId(cat.targets, tid) == "" <==> path == ""
  {
    var fid := FromTargetFamilyId(cat.targets, tid);
    if fid == "" {
      return "";
    }
    assert Walk(cat.families, fid).Some?;
    var ids := FamilyChain(cat.families, fid);
    var names: seq<string> := [];
    for i := 0 to |ids|
      invariant names == ChainNames(cat.families, ids[..i])
    {
      NameStep(cat.families, ids, i);
      var rec := FromFamilyRecord(cat.families, ids[i]);
      if rec.None? {
        continue;
      }
      var name := rec.value.familyName;
      if name != "" && Lower(name) != "enzyme" {
        names := names + [name];
      }
    }
    assert ids[..|ids|] == ids;
    path := FromTargetName(cat.targets, tid) + "#" + Join(names, ">");
    assert path[|FromTargetName(cat.targets, tid)|] == '#';
  }
}
