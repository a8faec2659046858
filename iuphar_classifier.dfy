/**
 * The IUPHAR classifier (`IUPHARClassifier` and `ClassificationRecord` in
 * mylib/transforms.py): validity checks on cell values, type reconciliation
 * between a target and its family, the keyword ladder on target names, the
 * EC-number rule table and chain map, record construction for each kind of
 * key, and the precedence that `get` applies between them.
 */
module IupharClassifier {
  import opened Wrappers
  import opened Strings
  import opened Seqs
  import opened IupharData

  /** The placeholder class and subclass. */
  const OtherTarget: string := "Other Protein Target"

  /** The placeholder type: class and subclass joined by ".". */
  const DefaultType: string := "Other Protein Target.Other Protein Target"

  /** The tree of a record built without one. */
  const DefaultTree: seq<string> := ["0864-1", "0864"]

  /** The tree `by_name` uses when it finds no family, spelled without the leading zero. */
  const NameFallbackTree: seq<string> := ["864-1", "864"]

  /** One classification result; `tree` is the family chain, `status` names the key that produced it. */
  datatype ClassificationRecord = ClassificationRecord(
    targetId: string, familyId: string, className: string, subclassName: string,
    tree: seq<string>, typeName: string, name: string, ecNumbers: seq<string>,
    status: string)

  /**
   * The dataclass constructor followed by `__post_init__`: a tree or an EC
   * list that is not given becomes the default tree or the empty list.
   */
  function NewRecord(targetId: string, familyId: string, className: string, subclassName: string,
                     tree: Option<seq<string>>, typeName: string, name: string,
                     ecNumbers: Option<seq<string>>, status: string): (r: ClassificationRecord)
    ensures tree.None? ==> r.tree == DefaultTree
    ensures tree.Some? ==> r.tree == tree.value
    ensures ecNumbers.None? ==> r.ecNumbers == []
    ensures ecNumbers.Some? ==> r.ecNumbers == ecNumbers.value
  {
    ClassificationRecord(targetId, familyId, className, subclassName,
      if tree.Some? then tree.value else DefaultTree, typeName, name,
      if ecNumbers.Some? then ecNumbers.value else [], status)
  }

  /** `ClassificationRecord()` with every field at its default. */
  function DefaultRecord(): (r: ClassificationRecord)
    ensures r.targetId == "N/A" && r.familyId == "N/A" && r.status == "N/A"
    ensures r.className == OtherTarget && r.subclassName == OtherTarget && r.typeName == DefaultType
    ensures r.tree == DefaultTree && r.ecNumbers == [] && r.name == "N/A"
  {
    NewRecord("N/A", "N/A", OtherTarget, OtherTarget, None, DefaultType, "N/A", None, "N/A")
  }

  // ---------------------------------------------------------------------
  // Validation helpers
  // ---------------------------------------------------------------------

  /** `_is_valid_parameter`: non-empty and not one of the two placeholders. */
  predicate ValidParameter(p: string) {
    p != "" && p != "N/A" && p != OtherTarget
  }

  /** An entry `_is_valid_list` keeps: non-empty and not "N/A". */
  predicate Meaningful(v: string) {
    v != "" && v != "N/A"
  }

  /**
   * `_is_valid_list`: something is left after dropping placeholders, and what
   * is left is not a two-element list starting with "0864-1".
   */
  predicate ValidList(values: seq<string>) {
    var kept := Kept(values);
    |kept| > 0 && !(kept[0] == "0864-1" && |kept| == 2)
  }

  /** The meaningful entries, in order (`[v for v in values if v and v != "N/A"]`). */
  function Kept(values: seq<string>): (r: seq<string>)
    ensures |r| <= |values|
  {
    if |values| == 0 then []
    else (if Meaningful(values[0]) then [values[0]] else []) + Kept(values[1..])
  }

  /** An entry is kept exactly when it is meaningful. */
  lemma {:induction false} KeptMembers(values: seq<string>, v: string)
    ensures v in Kept(values) <==> v in values && Meaningful(v)
  {
    if |values| > 0 {
      KeptMembers(values[1..], v);
      assert values == [values[0]] + values[1..];
    }
  }

  /** Keeping twice is keeping once. */
  lemma {:induction false} KeptIdempotent(values: seq<string>)
    ensures Kept(Kept(values)) == Kept(values)
  {
    if |values| > 0 {
      KeptIdempotent(values[1..]);
      var h := if Meaningful(values[0]) then [values[0]] else [];
      KeptAppend(h, Kept(values[1..]));
    }
  }

  /** Keeping distributes over concatenation. */
  lemma {:induction false} KeptAppend(xs: seq<string>, ys: seq<string>)
    ensures Kept(xs + ys) == Kept(xs) + Kept(ys)
  {
    if |xs| > 0 {
      KeptAppend(xs[1..], ys);
      assert (xs + ys)[1..] == xs[1..] + ys;
    } else {
      assert xs + ys == ys;
    }
  }

  /** The default tree is not a valid list. */
  lemma DefaultTreeNotValid()
    ensures !ValidList(DefaultTree)
  {
    assert Kept(DefaultTree[1..]) == ["0864"] by {
      assert DefaultTree[1..][1..] == [];
    }
  }

  /** Dropping placeholders first changes nothing, and a list with nothing meaningful is not valid. */
  lemma ValidListFacts(values: seq<string>)
    ensures ValidList(values) <==> ValidList(Kept(values))
    ensures (forall v :: v in values ==> !Meaningful(v)) ==> !ValidList(values)
  {
    KeptIdempotent(values);
    var kept := Kept(values);
    if |kept| > 0 {
      KeptMembers(values, kept[0]);
    }
  }

  // ---------------------------------------------------------------------
  // Lookups
  // ---------------------------------------------------------------------

  /** `_family_to_type`: the family's type, or "N/A" for an invalid id or an empty type cell. */
  function FamilyToType(cat: Catalog, fid: string): (r: string)
    ensures r != ""
    ensures r == "N/A" || (ValidParameter(fid) && exists k :: 0 <= k < |cat.families| && cat.families[k].familyId == fid && cat.families[k].familyType == r)
    ensures ValidParameter(fid) && FromFamilyType(cat.families, fid) != "" ==> r == FromFamilyType(cat.families, fid)
  {
    if ValidParameter(fid) then
      var t := FromFamilyType(cat.families, fid);
      if t != "" then t else "N/A"
    else "N/A"
  }

  /** `_family_to_chain`: the parent chain of a valid family id, else the empty list. */
  function FamilyToChain(cat: Catalog, fid: string): (r: seq<string>)
    requires Acyclic(cat.families)
    ensures ValidParameter(fid) ==> r == Chain(cat.families, fid) && |r| >= 1 && r[0] == fid
    ensures !ValidParameter(fid) ==> r == []
  {
    if ValidParameter(fid) then
      ChainShape(cat.families, fid);
      Chain(cat.families, fid)
    else []
  }

  /** `_target_record`: the first row of a valid target id. */
  function TargetRecord(cat: Catalog, tid: string): (r: Option<TargetRow>)
    ensures !ValidParameter(tid) ==> r.None?
    ensures ValidParameter(tid) ==> r == FromTargetRecord(cat.targets, tid)
  {
    if ValidParameter(tid) then FromTargetRecord(cat.targets, tid) else None
  }

  // ---------------------------------------------------------------------
  // Type helpers
  // ---------------------------------------------------------------------

  /** The guard of the final branch of `_target_to_type`'s ladder: every earlier guard fails. */
  predicate ReachesLastBranch(type1: string, type2: string) {
    var v1 := ValidParameter(type1);
    var v2 := ValidParameter(type2);
    !(v1 && !v2) && !(v2 && !v1) && (v1 || v2) && type1 != type2 && !v1
  }

  /**
   * The ladder of `_target_to_type`, as written: the target's own type when
   * it alone is valid, the family's when it alone is valid, the default when
   * neither is, the shared value when they agree, the target's when it is
   * valid, and "N/A.N/A" otherwise, with "" replaced by the default.
   */
  function ReconcileTypes(type1: string, type2: string): (r: string)
    ensures r != ""
    ensures r == (if ValidParameter(type1) then type1 else if ValidParameter(type2) then type2 else DefaultType)
    ensures !ReachesLastBranch(type1, type2)
  {
    var v1 := ValidParameter(type1);
    var v2 := ValidParameter(type2);
    var t :=
      if v1 && !v2 then type1
      else if v2 && !v1 then type2
      else if !(v1 || v2) then DefaultType
      else if type1 == type2 then type1
      else if v1 then type1
      else "N/A.N/A";
    if t != "" then t else DefaultType
  }

  /**
   * `_target_to_type`: the default type when the id is invalid or has no
   * row; otherwise the row's own type when valid, else its family's type
   * when valid, else the default.
   */
  function TargetToType(cat: Catalog, tid: string): (r: string)
    ensures r != ""
    ensures TargetRecord(cat, tid).None? ==> r == DefaultType
    ensures (TargetRecord(cat, tid).Some? && ValidParameter(TargetRecord(cat, tid).value.targetType))
              ==> r == TargetRecord(cat, tid).value.targetType
    ensures (TargetRecord(cat, tid).Some? && !ValidParameter(TargetRecord(cat, tid).value.targetType))
              ==> var familyType := FamilyToType(cat, TargetRecord(cat, tid).value.familyId);
                  r == if ValidParameter(familyType) then familyType else DefaultType
  {
    match TargetRecord(cat, tid)
    case None => DefaultType
    case Some(t) => ReconcileTypes(t.targetType, FamilyToType(cat, t.familyId))
  }

  /** The keyword rungs of `_name_to_type`, in the order they are tried. */
  const NameRules: seq<(seq<string>, string)> := [
    (["kinase"], "Enzyme.Transferase"),
    (["oxidase", "reductase"], "Enzyme.Oxidoreductase"),
    (["hydrolase", "protease", "phosphatases"], "Enzyme.Hydrolase"),
    (["atpase"], "Transporter.N/A"),
    (["solute carrier"], "Transporter.SLC superfamily of solute carrier"),
    (["transport"], "Transporter.N/A"),
    (["channel"], "Ion channel.N/A"),
    (["hormone"], "Receptor.Nuclear hormone receptor")]

  /** `_name_to_type`, as written: the first keyword found in the lower-cased name decides. */
  function NameToType(targetName: string): (r: string)
    ensures !ValidParameter(targetName) ==> r == DefaultType
  {
    if !ValidParameter(targetName) then DefaultType else KeywordLadder(Lower(targetName))
  }

  /** The keyword tests of `_name_to_type` on the already lower-cased name. */
  function KeywordLadder(name: string): string {
    if Contains(name, "kinase") then "Enzyme.Transferase"
    else if Contains(name, "oxidase") || Contains(name, "reductase") then "Enzyme.Oxidoreductase"
    else if Contains(name, "hydrolase") || Contains(name, "protease") || Contains(name, "phosphatases") then "Enzyme.Hydrolase"
    else if Contains(name, "atpase") then "Transporter.N/A"
    else if Contains(name, "solute carrier") then "Transporter.SLC superfamily of solute carrier"
    else if Contains(name, "transport") then "Transporter.N/A"
    else if Contains(name, "channel") then "Ion channel.N/A"
    else if Contains(name, "hormone") then "Receptor.Nuclear hormone receptor"
    else DefaultType
  }

  /** Some keyword of `keywords[j..]` occurs in `name`. */
  predicate AnyKeyword(name: string, keywords: seq<string>, j: nat)
    decreases |keywords| - j
  {
    j < |keywords| && (Contains(name, keywords[j]) || AnyKeyword(name, keywords, j + 1))
  }

  /** The type of the first rule from `rules[i..]` with a keyword in `name`, or the default. */
  function FirstRule(name: string, rules: seq<(seq<string>, string)>, i: nat): (r: string)
    ensures r == DefaultType || exists k :: i <= k < |rules| && r == rules[k].1
    decreases |rules| - i
  {
    if i >= |rules| then DefaultType
    else if AnyKeyword(name, rules[i].0, 0) then rules[i].1
    else FirstRule(name, rules, i + 1)
  }

  /** The last five rungs of the table, each with a single keyword. */
  lemma LowerRungs(n: string)
    ensures FirstRule(n, NameRules, 3)
            == if Contains(n, "atpase") then "Transporter.N/A"
               else if Contains(n, "solute carrier") then "Transporter.SLC superfamily of solute carrier"
               else if Contains(n, "transport") then "Transporter.N/A"
               else if Contains(n, "channel") then "Ion channel.N/A"
               else if Contains(n, "hormone") then "Receptor.Nuclear hormone receptor"
               else DefaultType
  {
    assert FirstRule(n, NameRules, 8) == DefaultType;
    assert FirstRule(n, NameRules, 7) == if Contains(n, "hormone") then "Receptor.Nuclear hormone receptor" else DefaultType;
    assert FirstRule(n, NameRules, 6) == if Contains(n, "channel") then "Ion channel.N/A" else FirstRule(n, NameRules, 7);
    assert FirstRule(n, NameRules, 5) == if Contains(n, "transport") then "Transporter.N/A" else FirstRule(n, NameRules, 6);
    assert FirstRule(n, NameRules, 4) == if Contains(n, "solute carrier") then "Transporter.SLC superfamily of solute carrier" else FirstRule(n, NameRules, 5);
  }

  /** The ladder agrees with the rule table read top to bottom. */
  lemma KeywordLadderByTable(n: string)
    ensures KeywordLadder(n) == FirstRule(n, NameRules, 0)
  {
    LowerRungs(n);
    assert AnyKeyword(n, NameRules[2].0, 0) <==> Contains(n, "hydrolase") || Contains(n, "protease") || Contains(n, "phosphatases");
    assert FirstRule(n, NameRules, 2) == if Contains(n, "hydrolase") || Contains(n, "protease") || Contains(n, "phosphatases") then "Enzyme.Hydrolase" else FirstRule(n, NameRules, 3);
    assert AnyKeyword(n, NameRules[1].0, 0) <==> Contains(n, "oxidase") || Contains(n, "reductase");
    assert FirstRule(n, NameRules, 1) == if Contains(n, "oxidase") || Contains(n, "reductase") then "Enzyme.Oxidoreductase" else FirstRule(n, NameRules, 2);
    assert FirstRule(n, NameRules, 0) == if Contains(n, "kinase") then "Enzyme.Transferase" else FirstRule(n, NameRules, 1);
  }

  /** For a usable name, `_name_to_type` is the first matching rule of the table on the lower-cased name. */
  lemma NameToTypeByTable(targetName: string)
    requires ValidParameter(targetName)
    ensures NameToType(targetName) == FirstRule(Lower(targetName), NameRules, 0)
  {
    KeywordLadderByTable(Lower(targetName));
  }

  /** The name ladder yields the default or one of the eight rule types. */
  lemma NameToTypeRange(targetName: string)
    ensures NameToType(targetName) == DefaultType || exists k :: 0 <= k < |NameRules| && NameToType(targetName) == NameRules[k].1
  {
    if ValidParameter(targetName) {
      NameToTypeByTable(targetName);
    }
  }

  /** "Example Kinase" is classified as a transferase. */
  lemma ExampleKinase()
    ensures NameToType("Example Kinase") == "Enzyme.Transferase"
  {
    var n := Lower("Example Kinase");
    assert n == "example kinase";
    assert n[8..14] == "kinase";
    assert OccursAt(n, "kinase", 8);
  }

  /** The class and subclass of a type: parts 0 and 1 of its "."-split, the subclass defaulting to the placeholder. */
  function SplitType(typeVal: string): (r: (string, string))
    ensures '.' !in r.0
    ensures '.' !in typeVal ==> r == (typeVal, OtherTarget)
    ensures StartsWith(typeVal, r.0)
  {
    var parts := Split(typeVal, '.');
    assert '.' !in typeVal ==> parts == [typeVal] by {
      if '.' !in typeVal {
        SplitNoSep(typeVal, '.');
      }
    }
    JoinSplit(typeVal, '.');
    JoinPrefix(parts, ".");
    (parts[0], if |parts| > 1 then parts[1] else OtherTarget)
  }

  /** A type with exactly one "." is its class and subclass joined by ".". */
  lemma SplitTypeRoundTrip(typeVal: string)
    requires |Split(typeVal, '.')| == 2
    ensures SplitType(typeVal).0 + "." + SplitType(typeVal).1 == typeVal
  {
    var parts := Split(typeVal, '.');
    JoinSplit(typeVal, '.');
    assert Join(parts, ".") == parts[0] + "." + Join(parts[1..], ".");
  }

  /** Joining class and subclass and splitting again gives them back. */
  lemma SplitTypeOfJoin(cls: string, sub: string)
    requires '.' !in cls && '.' !in sub
    ensures SplitType(cls + "." + sub) == (cls, sub)
  {
    SplitJoin([cls, sub], '.');
    assert Join([cls, sub], ".") == cls + "." + sub;
  }

  // ---------------------------------------------------------------------
  // EC numbers
  // ---------------------------------------------------------------------

  /** The leading numeral of an EC number with a ".", else "". */
  function EcCode(n: string): string {
    if '.' in n then Split(n, '.')[0] else ""
  }

  /** `EcCode` of each number. */
  function EcCodes(ecs: seq<string>): (r: seq<string>)
    ensures |r| == |ecs| && forall i :: 0 <= i < |ecs| ==> r[i] == EcCode(ecs[i])
  {
    seq(|ecs|, i requires 0 <= i < |ecs| => EcCode(ecs[i]))
  }

  /** The distinct non-empty leading numerals, each once (the `prefixes` set). */
  function LeadingCodes(ecs: seq<string>): seq<string> {
    Dedup(NonEmpty(EcCodes(ecs)))
  }

  /** A leading code is the non-empty `EcCode` of some number, and the codes are distinct. */
  lemma LeadingCodesMembers(ecs: seq<string>, c: string)
    ensures NoDup(LeadingCodes(ecs))
    ensures c in LeadingCodes(ecs) <==> c != "" && exists i :: 0 <= i < |ecs| && EcCode(ecs[i]) == c
  {
    var codes := EcCodes(ecs);
    DedupSpec(NonEmpty(codes));
    if c in NonEmpty(codes) {
      var i :| 0 <= i < |codes| && codes[i] == c;
    }
    if c != "" && exists i :: 0 <= i < |ecs| && EcCode(ecs[i]) == c {
      var i :| 0 <= i < |ecs| && EcCode(ecs[i]) == c;
      assert codes[i] == c;
    }
  }

  /** The EC class numerals 1 to 7 and their enzyme types (the `mapping` table). */
  const EcClassTypes: map<string, string> := map[
    "1" := "Enzyme.Oxidoreductase",
    "2" := "Enzyme.Transferase",
    "3" := "Enzyme.Hydrolase",
    "4" := "Enzyme.Lyase",
    "5" := "Enzyme.Isomerase",
    "6" := "Enzyme.Ligase",
    "7" := "Enzyme.Translocase"]

  /** `_CHAIN_MAP`: the tree of each EC-derived or receptor/transporter/channel type. */
  const ChainMap: map<string, seq<string>> := map[
    "Enzyme.Oxidoreductase" := ["0690-1", "0690"],
    "Enzyme.Transferase" := ["0690-2", "0690"],
    "Enzyme.Multifunctional" := ["0690-3", "0690"],
    "Enzyme.Hydrolase" := ["0690-4", "0690"],
    "Enzyme.Isomerase" := ["0690-5", "0690"],
    "Enzyme.Lyase" := ["0690-6", "0690"],
    "Enzyme.Ligase" := ["0690-6", "0690"],
    "Receptor.Catalytic receptor" := ["0862", "0688"],
    "Receptor.G protein-coupled receptor" := ["0694", "0688"],
    "Receptor.Nuclear hormone receptor" := ["0095", "0688"],
    "Transporter.ATP-binding cassette transporter family" := ["0136", "0691"],
    "Transporter.F-type and V-type ATPase" := ["0137", "0691"],
    "Transporter.P-type ATPase" := ["0138", "0691"],
    "Transporter.SLC superfamily of solute carrier" := ["0863", "0691"],
    "Ion channel.Ligand-gated ion channel" := ["0697", "0689"],
    "Ion channel.Other ion channel" := ["0861", "0689"],
    "Ion channel.Voltage-gated ion channel" := ["0696", "0689"]]

  /** The outcomes of the EC rule: no type, several classes, or one of the seven classes. */
  datatype EcType = NoEcType | Multifunctional | Oxidoreductase | Transferase | Hydrolase
                  | Lyase | Isomerase | Ligase | Translocase

  /** The type string of an EC outcome ("" for none). */
  function EcTypeName(e: EcType): string {
    match e
    case NoEcType => ""
    case Multifunctional => "Enzyme.Multifunctional"
    case Oxidoreductase => "Enzyme.Oxidoreductase"
    case Transferase => "Enzyme.Transferase"
    case Hydrolase => "Enzyme.Hydrolase"
    case Lyase => "Enzyme.Lyase"
    case Isomerase => "Enzyme.Isomerase"
    case Ligase => "Enzyme.Ligase"
    case Translocase => "Enzyme.Translocase"
  }

  /** The class of a single leading numeral: `mapping.get(code, "")`. */
  function ClassOfCode(code: string): (e: EcType)
    ensures e != Multifunctional
  {
    if code == "1" then Oxidoreductase
    else if code == "2" then Transferase
    else if code == "3" then Hydrolase
    else if code == "4" then Lyase
    else if code == "5" then Isomerase
    else if code == "6" then Ligase
    else if code == "7" then Translocase
    else NoEcType
  }

  /** `ClassOfCode` reads the numeral table: a listed numeral gets its type, any other string none. */
  lemma ClassOfCodeTable(code: string)
    ensures code in EcClassTypes ==> EcTypeName(ClassOfCode(code)) == EcClassTypes[code]
    ensures code !in EcClassTypes ==> ClassOfCode(code) == NoEcType
  {
  }

  /** The tree of an EC outcome: the chain-map entry of its type, or the default tree. */
  function EcTree(e: EcType): (r: seq<string>)
    ensures |r| == 2
  {
    match e
    case Oxidoreductase => ["0690-1", "0690"]
    case Transferase => ["0690-2", "0690"]
    case Multifunctional => ["0690-3", "0690"]
    case Hydrolase => ["0690-4", "0690"]
    case Isomerase => ["0690-5", "0690"]
    case Lyase => ["0690-6", "0690"]
    case Ligase => ["0690-6", "0690"]
    case Translocase => DefaultTree
    case NoEcType => DefaultTree
  }

  /** `EcTree` reads the chain map: `_CHAIN_MAP.get(type, default)` for each EC outcome's type. */
  lemma EcTreeFromChainMap(e: EcType)
    ensures EcTypeName(e) in ChainMap ==> EcTree(e) == ChainMap[EcTypeName(e)]
    ensures EcTypeName(e) !in ChainMap ==> EcTree(e) == DefaultTree
  {
    match e
    case Translocase =>
      assert EcTypeName(e) !in ChainMap;
    case NoEcType =>
      assert EcTypeName(e) !in ChainMap;
    case _ =>
  }

  /**
   * The rule of `_ec_number_to_type`: none for an invalid list or no leading
   * numeral, several classes for two or more distinct numerals, else the
   * class of the single numeral.
   */
  function EcRule(ecs: seq<string>): (e: EcType)
    ensures !ValidList(ecs) ==> e == NoEcType
    ensures ValidList(ecs) && (forall i :: 0 <= i < |ecs| ==> EcCode(ecs[i]) == "") ==> e == NoEcType
  {
    if !ValidList(ecs) then NoEcType
    else
      var codes := LeadingCodes(ecs);
      if |codes| == 0 then NoEcType
      else
        LeadingCodesMembers(ecs, codes[0]);
        if |codes| > 1 then Multifunctional
        else ClassOfCode(codes[0])
  }

  /** `_ec_number_to_type`: the type string of the EC rule. */
  function EcNumberToType(ecs: seq<string>): (r: string)
    ensures !ValidList(ecs) ==> r == ""
    ensures ValidList(ecs) && (forall i :: 0 <= i < |ecs| ==> EcCode(ecs[i]) == "") ==> r == ""
  {
    EcTypeName(EcRule(ecs))
  }

  /** Two distinct leading numerals in a valid list, and only they, make a multifunctional enzyme. */
  lemma EcMultifunctional(ecs: seq<string>)
    ensures EcRule(ecs) == Multifunctional
      <==> ValidList(ecs) && exists i, j :: 0 <= i < |ecs| && 0 <= j < |ecs| && EcCode(ecs[i]) != "" && EcCode(ecs[j]) != "" && EcCode(ecs[i]) != EcCode(ecs[j])
  {
    assert EcRule(ecs) == Multifunctional <==> ValidList(ecs) && |LeadingCodes(ecs)| > 1;
    if |LeadingCodes(ecs)| > 1 {
      TwoCodesWitness(ecs);
    }
    if exists i, j :: 0 <= i < |ecs| && 0 <= j < |ecs| && EcCode(ecs[i]) != "" && EcCode(ecs[j]) != "" && EcCode(ecs[i]) != EcCode(ecs[j]) {
      var i, j :| 0 <= i < |ecs| && 0 <= j < |ecs| && EcCode(ecs[i]) != "" && EcCode(ecs[j]) != "" && EcCode(ecs[i]) != EcCode(ecs[j]);
      TwoCodesCount(ecs, i, j);
    }
  }

  /** Two leading codes come from two numbers with different numerals. */
  lemma TwoCodesWitness(ecs: seq<string>)
    requires |LeadingCodes(ecs)| > 1
    ensures exists i, j :: 0 <= i < |ecs| && 0 <= j < |ecs| && EcCode(ecs[i]) != "" && EcCode(ecs[j]) != "" && EcCode(ecs[i]) != EcCode(ecs[j])
  {
    var codes := LeadingCodes(ecs);
    LeadingCodesMembers(ecs, codes[0]);
    LeadingCodesMembers(ecs, codes[1]);
    var i :| 0 <= i < |ecs| && EcCode(ecs[i]) == codes[0];
    var j :| 0 <= j < |ecs| && EcCode(ecs[j]) == codes[1];
  }

  /** Two numbers with different non-empty numerals give two leading codes. */
  lemma TwoCodesCount(ecs: seq<string>, i: nat, j: nat)
    requires i < |ecs| && j < |ecs| && EcCode(ecs[i]) != "" && EcCode(ecs[j]) != "" && EcCode(ecs[i]) != EcCode(ecs[j])
    ensures |LeadingCodes(ecs)| > 1
  {
    LeadingCodesMembers(ecs, EcCode(ecs[i]));
    LeadingCodesMembers(ecs, EcCode(ecs[j]));
    TwoDistinct(LeadingCodes(ecs), EcCode(ecs[i]), EcCode(ecs[j]));
  }

  /** A valid list whose leading numerals are all the same string gets that numeral's class. */
  lemma EcSingleClass(ecs: seq<string>, c: string)
    requires ValidList(ecs) && c != ""
    requires exists i :: 0 <= i < |ecs| && EcCode(ecs[i]) == c
    requires forall i :: 0 <= i < |ecs| ==> EcCode(ecs[i]) == "" || EcCode(ecs[i]) == c
    ensures EcRule(ecs) == ClassOfCode(c)
  {
    var codes := LeadingCodes(ecs);
    LeadingCodesMembers(ecs, c);
    LeadingCodesMembers(ecs, codes[0]);
    if |codes| > 1 {
      LeadingCodesMembers(ecs, codes[1]);
    }
  }

  /** `_ec_number_to_chain`: the tree of the EC rule's outcome. */
  function EcNumberToChain(ecs: seq<string>): (r: seq<string>)
    ensures |r| == 2
    ensures !ValidList(ecs) ==> r == DefaultTree
  {
    EcTree(EcRule(ecs))
  }

  /** "1.2.3.4" is an oxidoreductase with the tree 0690-1, 0690. */
  lemma ExampleOxidoreductase()
    ensures EcNumberToType(["1.2.3.4"]) == "Enzyme.Oxidoreductase"
    ensures EcNumberToChain(["1.2.3.4"]) == ["0690-1", "0690"]
  {
    var ecs := ["1.2.3.4"];
    assert Kept(ecs) == ecs by {
      assert Kept(ecs[1..]) == [];
    }
    var s := "1.2.3.4";
    assert s[1] == '.' && s[..1] == "1";
    SplitFirst(s, '.', 1);
    assert EcCode(s) == "1";
    EcSingleClass(ecs, "1");
  }

  /** Translocases have no chain-map entry: they get the default tree. */
  lemma TranslocaseDefaultTree(ecs: seq<string>)
    requires ValidList(ecs) && EcRule(ecs) == Translocase
    ensures EcNumberToType(ecs) == "Enzyme.Translocase" && EcNumberToChain(ecs) == DefaultTree
  {
  }

  // ---------------------------------------------------------------------
  // Record construction
  // ---------------------------------------------------------------------

  /** The status `set_record` derives when none is given, by the first valid key. */
  function DerivedStatus(targetId: string, familyId: string, numbers: seq<string>): (r: string)
    ensures r in {"target_id", "family_id", "ec_number", "N/A"}
    ensures r == "target_id" <==> ValidParameter(targetId)
  {
    if ValidParameter(targetId) then "target_id"
    else if ValidParameter(familyId) then "family_id"
    else if ValidList(numbers) then "ec_number"
    else "N/A"
  }

  /** The family id `set_record` settles on: the given one, or for a valid target with an invalid one, the target's family or "N/A". */
  function SettledFamily(cat: Catalog, target: string, familyId: string): (r: string)
    ensures ValidParameter(familyId) || !ValidParameter(target) ==> r == familyId
    ensures (!ValidParameter(familyId) && ValidParameter(target) && FromTargetFamilyId(cat.targets, target) != "")
              ==> r == FromTargetFamilyId(cat.targets, target)
    ensures (!ValidParameter(familyId) && ValidParameter(target) && FromTargetFamilyId(cat.targets, target) == "")
              ==> r == "N/A"
  {
    if !ValidParameter(familyId) && ValidParameter(target) then
      var f := FromTargetFamilyId(cat.targets, target);
      if f != "" then f else "N/A"
    else familyId
  }

  /** The type `set_record` gives: the target's type, else the family's, else the default. */
  function SettledType(cat: Catalog, target: string, family: string): (r: string)
    ensures r != ""
    ensures ValidParameter(target) ==> r == TargetToType(cat, target)
    ensures !ValidParameter(target) && ValidParameter(family) ==> r == FamilyToType(cat, family)
    ensures !ValidParameter(target) && !ValidParameter(family) ==> r == DefaultType
  {
    if ValidParameter(target) then TargetToType(cat, target)
    else if ValidParameter(family) then FamilyToType(cat, family)
    else DefaultType
  }

  /** The tree of a record: the family's chain for a valid family id, else `fallback`. */
  function TreeOf(cat: Catalog, family: string, fallback: seq<string>): (r: seq<string>)
    requires Acyclic(cat.families)
    ensures ValidParameter(family) ==> r == Chain(cat.families, family) && |r| >= 1 && r[0] == family
    ensures !ValidParameter(family) ==> r == fallback
  {
    if ValidParameter(family) then FamilyToChain(cat, family) else fallback
  }

  /**
   * `set_record`: a record whose target and family ids are valid or "N/A",
   * whose family falls back to the target's family, whose type is the
   * target's, else the family's, else the default, and whose tree is the
   * family's chain or the default tree.
   */
  function SetRecord(cat: Catalog, targetId: string, familyId: string, name: string,
                     status: Option<string>, ecNumbers: Option<seq<string>>): (r: ClassificationRecord)
    requires Acyclic(cat.families)
    ensures ValidParameter(targetId) ==> r.targetId == targetId
    ensures !ValidParameter(targetId) ==> r.targetId == "N/A"
    ensures ValidParameter(r.familyId) || r.familyId == "N/A"
    ensures ValidParameter(familyId) ==> r.familyId == familyId
    ensures (!ValidParameter(familyId) && ValidParameter(targetId) && ValidParameter(FromTargetFamilyId(cat.targets, targetId)))
              ==> r.familyId == FromTargetFamilyId(cat.targets, targetId)
    ensures (!ValidParameter(familyId) && !(ValidParameter(targetId) && ValidParameter(FromTargetFamilyId(cat.targets, targetId))))
              ==> r.familyId == "N/A"
    ensures ValidParameter(r.familyId) ==> r.tree == Chain(cat.families, r.familyId) && r.tree[0] == r.familyId
    ensures !ValidParameter(r.familyId) ==> r.tree == DefaultTree
    ensures r.typeName != "" && (r.className, r.subclassName) == SplitType(r.typeName)
    ensures ValidParameter(targetId) ==> r.typeName == TargetToType(cat, targetId)
    ensures !ValidParameter(targetId) && ValidParameter(familyId) ==> r.typeName == FamilyToType(cat, familyId)
    ensures !ValidParameter(targetId) && !ValidParameter(familyId) ==> r.typeName == DefaultType
    ensures ValidParameter(name) ==> r.name == name
    ensures !ValidParameter(name) ==> r.name == "N/A"
    ensures ecNumbers.Some? && |ecNumbers.value| > 0 && ValidList(ecNumbers.value) ==> r.ecNumbers == ecNumbers.value
    ensures !(ecNumbers.Some? && ValidList(ecNumbers.value)) ==> r.ecNumbers == []
    ensures status.Some? ==> r.status == status.value
    ensures status.None? ==> r.status == DerivedStatus(r.targetId, r.familyId, r.ecNumbers)
  {
    var target := if ValidParameter(targetId) then targetId else "N/A";
    var family := SettledFamily(cat, target, familyId);
    var nm := if ValidParameter(name) then name else "N/A";
    var numbers := if ecNumbers.Some? && |ecNumbers.value| > 0 && ValidList(ecNumbers.value) then ecNumbers.value else [];
    var familyField := if ValidParameter(family) then family else "N/A";
    var st := if status.Some? then status.value else DerivedStatus(target, familyField, numbers);
    var typ := SettledType(cat, target, family);
    var parts := SplitType(typ);
    ClassificationRecord(target, familyField, parts.0, parts.1, TreeOf(cat, familyField, DefaultTree), typ, nm, numbers, st)
  }

  /**
   * `by_target_id`: the default record for an invalid id or one holding "|";
   * otherwise `set_record` of the id, its family and the optional name.
   */
  function ByTargetId(cat: Catalog, targetId: string, optionalName: string): (r: ClassificationRecord)
    requires Acyclic(cat.families)
    ensures !ValidParameter(targetId) || '|' in targetId ==> r == DefaultRecord()
    ensures (ValidParameter(targetId) && '|' !in targetId)
              ==> r == SetRecord(cat, targetId, FromTargetFamilyId(cat.targets, targetId), optionalName, None, None)
    ensures r.status == "target_id" <==> ValidParameter(targetId) && '|' !in targetId
    ensures r.status in {"target_id", "N/A"}
  {
    if !ValidParameter(targetId) || '|' in targetId then DefaultRecord()
    else SetRecord(cat, targetId, FromTargetFamilyId(cat.targets, targetId), optionalName, None, None)
  }

  /** `by_uniprot_id`: the default record when the accession maps to no target id, else `by_target_id` of that id. */
  function ByUniprotId(cat: Catalog, accession: string): (r: ClassificationRecord)
    requires Acyclic(cat.families)
    ensures TargetIdByUniprot(cat.targets, accession) == "" ==> r == DefaultRecord()
    ensures TargetIdByUniprot(cat.targets, accession) != "" ==> r == ByTargetId(cat, TargetIdByUniprot(cat.targets, accession), "")
  {
    var tid := TargetIdByUniprot(cat.targets, accession);
    if tid == "" then DefaultRecord() else ByTargetId(cat, tid, "")
  }

  /** The accession of the first row with a usable target id classifies as that row's target. */
  lemma ByUniprotIdFirstRow(cat: Catalog, accession: string, k: nat)
    requires Acyclic(cat.families)
    requires FirstMatch(cat.targets, BySwissprot(accession), k)
    requires ValidParameter(cat.targets[k].targetId) && '|' !in cat.targets[k].targetId
    ensures ByUniprotId(cat, accession).targetId == cat.targets[k].targetId
    ensures ByUniprotId(cat, accession).status == "target_id"
  {
  }

  /** `by_family_id`: the default record for an invalid id or one holding "|", else `set_record` with no target. */
  function ByFamilyId(cat: Catalog, familyId: string, optionalName: string): (r: ClassificationRecord)
    requires Acyclic(cat.families)
    ensures !ValidParameter(familyId) || '|' in familyId ==> r == DefaultRecord()
    ensures ValidParameter(familyId) && '|' !in familyId ==> r == SetRecord(cat, "N/A", familyId, optionalName, None, None)
    ensures r.status == "family_id" <==> ValidParameter(familyId) && '|' !in familyId
    ensures r.status in {"family_id", "N/A"}
  {
    if !ValidParameter(familyId) || '|' in familyId then DefaultRecord()
    else SetRecord(cat, "N/A", familyId, optionalName, None, None)
  }

  /** A valid family id gives a record of that family whose tree is its parent chain. */
  lemma ByFamilyIdTree(cat: Catalog, familyId: string, optionalName: string)
    requires Acyclic(cat.families)
    requires ValidParameter(familyId) && '|' !in familyId
    ensures ByFamilyId(cat, familyId, optionalName).familyId == familyId
    ensures ByFamilyId(cat, familyId, optionalName).targetId == "N/A"
    ensures ByFamilyId(cat, familyId, optionalName).tree == Chain(cat.families, familyId)
    ensures ByFamilyId(cat, familyId, optionalName).typeName == FamilyToType(cat, familyId)
  {
  }

  /** The EC numbers `by_ec_number` reads: the "|"-split when the cell has "." or "|", else none. */
  function EcList(ec: string): (r: seq<string>)
    ensures '.' !in ec && '|' !in ec ==> r == []
    ensures '.' in ec || '|' in ec ==> Join(r, "|") == ec
  {
    if '.' in ec || '|' in ec then
      JoinSplit(ec, '|');
      Split(ec, '|')
    else []
  }

  /**
   * `by_ec_number`: the default record for an invalid list; otherwise a
   * record with the EC-derived type (or the default type) and chain, the
   * listed numbers and status "ec_number".
   */
  function ByEcNumber(ec: string, optionalName: string): (r: ClassificationRecord)
    ensures !ValidList(EcList(ec)) ==> r == DefaultRecord()
    ensures ValidList(EcList(ec)) ==> (r.status == "ec_number" && r.ecNumbers == EcList(ec)
      && r.tree == EcNumberToChain(EcList(ec)) && r.targetId == "N/A" && r.familyId == "N/A")
    ensures ValidList(EcList(ec)) && EcNumberToType(EcList(ec)) != "" ==> r.typeName == EcNumberToType(EcList(ec))
    ensures ValidList(EcList(ec)) && EcNumberToType(EcList(ec)) == "" ==> r.typeName == DefaultType
    ensures ValidList(EcList(ec)) ==> (r.className, r.subclassName) == SplitType(r.typeName)
    ensures ValidList(EcList(ec)) && ValidParameter(optionalName) ==> r.name == optionalName
    ensures ValidList(EcList(ec)) && !ValidParameter(optionalName) ==> r.name == "N/A"
    ensures r.status in {"ec_number", "N/A"}
  {
    var numbers := EcList(ec);
    if !ValidList(numbers) then
      DefaultRecord()
    else
      var t := EcNumberToType(numbers);
      var typ := if t != "" then t else DefaultType;
      var parts := SplitType(typ);
      var nm := if ValidParameter(optionalName) then optionalName else "N/A";
      NewRecord("N/A", "N/A", parts.0, parts.1, Some(EcNumberToChain(numbers)), typ, nm, Some(numbers), "ec_number")
  }

  /**
   * `by_name`: the default record for an invalid name; otherwise the type of
   * the targets whose synonyms mention the name, else of the families found
   * that way, else of the keyword ladder, with the family chain as tree or
   * the fallback tree ["864-1", "864"].
   */
  function ByName(cat: Catalog, name: string): (r: ClassificationRecord)
    requires Acyclic(cat.families)
    ensures !ValidParameter(name) ==> r == DefaultRecord()
    ensures ValidParameter(name) ==> r.status == "name" && r.name == name && r.ecNumbers == []
    ensures ValidParameter(name) && ValidParameter(TargetIdByName(cat.targets, name)) ==> r.targetId == TargetIdByName(cat.targets, name)
    ensures ValidParameter(name) && !ValidParameter(TargetIdByName(cat.targets, name)) ==> r.targetId == "N/A"
    ensures ValidParameter(name) && ValidParameter(FamilyIdByName(cat.targets, name)) ==> r.familyId == FamilyIdByName(cat.targets, name)
    ensures ValidParameter(name) && !ValidParameter(FamilyIdByName(cat.targets, name)) ==> r.familyId == "N/A"
    ensures ValidParameter(name) ==> r.tree == TreeOf(cat, FamilyIdByName(cat.targets, name), NameFallbackTree)
    ensures ValidParameter(name) && !ValidParameter(r.familyId) ==> r.tree == NameFallbackTree
    ensures ValidParameter(name) && ValidParameter(r.familyId) ==> r.tree == Chain(cat.families, r.familyId)
    ensures (ValidParameter(name) && !ValidParameter(TargetIdByName(cat.targets, name)) && !ValidParameter(FamilyIdByName(cat.targets, name)))
              ==> r.typeName == NameToType(name)
    ensures (ValidParameter(name) && ValidParameter(TargetIdByName(cat.targets, name)))
              ==> r.typeName == TargetToType(cat, TargetIdByName(cat.targets, name))
    ensures (ValidParameter(name) && !ValidParameter(TargetIdByName(cat.targets, name)) && ValidParameter(FamilyIdByName(cat.targets, name)))
              ==> r.typeName == FamilyToType(cat, FamilyIdByName(cat.targets, name))
    ensures ValidParameter(name) ==> (r.className, r.subclassName) == SplitType(r.typeName)
    ensures r.status in {"name", "N/A"}
  {
    if !ValidParameter(name) then
      DefaultRecord()
    else
      var tid := TargetIdByName(cat.targets, name);
      var fid := FamilyIdByName(cat.targets, name);
      var typ :=
        if ValidParameter(tid) then TargetToType(cat, tid)
        else if ValidParameter(fid) then FamilyToType(cat, fid)
        else NameToType(name);
      var tree := TreeOf(cat, fid, NameFallbackTree);
      var parts := SplitType(typ);
      NewRecord(if ValidParameter(tid) then tid else "N/A", if ValidParameter(fid) then fid else "N/A",
        parts.0, parts.1, Some(tree), typ, name, None, "name")
  }

  /**
   * `get`: the target record when its status is "target_id" or "family_id",
   * else the family record when its status is "family_id", else the EC
   * record when "ec_number", else the name record when "name", else the
   * default record.
   */
  function Get(cat: Catalog, targetId: string, familyId: string, ec: string, name: string): (r: ClassificationRecord)
    requires Acyclic(cat.families)
  {
    var targetRec := if ValidParameter(targetId) then ByTargetId(cat, targetId, name) else DefaultRecord();
    var familyRec := if ValidParameter(familyId) then ByFamilyId(cat, familyId, name) else DefaultRecord();
    var ecRec := ByEcNumber(ec, name);
    var nameRec := ByName(cat, name);
    if targetRec.status in {"target_id", "family_id"} then targetRec
    else if familyRec.status == "family_id" then familyRec
    else if ecRec.status == "ec_number" then ecRec
    else if nameRec.status == "name" then nameRec
    else DefaultRecord()
  }

  /**
   * The precedence of `get` in terms of its inputs: a usable target id
   * wins, then a usable family id, then a valid EC list, then a valid name.
   */
  lemma GetPrecedence(cat: Catalog, targetId: string, familyId: string, ec: string, name: string)
    requires Acyclic(cat.families)
    ensures var r := Get(cat, targetId, familyId, ec, name);
      if ValidParameter(targetId) && '|' !in targetId then r == ByTargetId(cat, targetId, name)
      else if ValidParameter(familyId) && '|' !in familyId then r == ByFamilyId(cat, familyId, name)
      else if ValidList(EcList(ec)) then r == ByEcNumber(ec, name)
      else if ValidParameter(name) then r == ByName(cat, name)
      else r == DefaultRecord()
  {
  }

  /** Whatever the inputs, `get` reports one of the five statuses, and "N/A" only with the default record. */
  lemma GetStatus(cat: Catalog, targetId: string, familyId: string, ec: string, name: string)
    requires Acyclic(cat.families)
    ensures Get(cat, targetId, familyId, ec, name).status in {"target_id", "family_id", "ec_number", "name", "N/A"}
    ensures Get(cat, targetId, familyId, ec, name).status == "N/A" ==> Get(cat, targetId, familyId, ec, name) == DefaultRecord()
  {
    GetPrecedence(cat, targetId, familyId, ec, name);
  }
}
