/**
 * The PubChem helpers of `pubchem`: CID validation, CID extraction from the
 * bindings of an RDF query, the sorted duplicate-free CID list, and the
 * "Not Found" defaults of the property and compound records. Each HTTP
 * response is a parameter: `None` stands for a failed request or a 404.
 */
module PubChem {
  import opened Wrappers
  import opened Strings
  import opened Seqs
  import opened Json

  /** The placeholder of every field PubChem did not supply. */
  const NotFound := "Not Found"

  /** The URI prefix removed from a CID. */
  const CidPrefix := "http://rdf.ncbi.nlm.nih.gov/pubchem/compound/CID"

  /** The error of calling `get` on a value that is not a dict. */
  const NoGet := "object has no attribute 'get'"

  /** The error of calling `replace` on a CID value that is not a string. */
  const NoReplace := "object has no attribute 'replace'"

  /**
   * The error of reading item 0 of a truthy value that is not a list: a dict
   * raises `KeyError`, a string's first character has no `get`, a number is
   * not subscriptable.
   */
  const NotAList := "not a list: item 0 cannot be read as a dict"

  /** `validate_cid`: `None` exactly for "0" and "-1"; any other text, "" included, is kept. */
  function ValidateCid(cid: string): (r: Option<string>)
    ensures r.None? <==> (cid == "0" || cid == "-1")
    ensures r.Some? ==> r.value == cid
  {
    if cid == "0" || cid == "-1" then None else Some(cid)
  }

  /** A CID the lookups use: validated and non-empty (`if not validated` rejects both). */
  predicate UsableCid(cid: string) {
    ValidateCid(cid).Some? && ValidateCid(cid).value != ""
  }

  /** Only "", "0" and "-1" are unusable CIDs. */
  lemma UsableCidExactly(cid: string)
    ensures !UsableCid(cid) <==> cid in {"", "0", "-1"}
  {
  }

  // ---------------------------------------------------------------------
  // CID extraction
  // ---------------------------------------------------------------------

  /**
   * The text of a binding's `cid` field before the prefix is removed: the
   * `value` of a dict (default ""), otherwise `str()` of the field, which for
   * a missing field is "None".
   */
  function CidText(field: Option<Json>): Result<string> {
    match field
    case Some(JObj(fs)) =>
      (match GetOr(JObj(fs), "value", JStr(""))
       case JStr(s) => Success(s)
       case _ => Failure(NoReplace))
    case Some(v) => Success(Str(v))
    case None => Success("None")
  }

  /** The CID one binding contributes as written: the prefix removed, nothing if that leaves "". */
  function CidOfAsWritten(item: Json): (r: Result<seq<string>>)
    ensures r.Success? ==> |r.value| <= 1 && forall c :: c in r.value ==> c != ""
  {
    if !item.JObj? then Failure(NoGet)
    else
      match CidText(Get(item, "cid"))
      case Failure(e) => Failure(e)
      case Success(t) =>
        var v := RemoveAll(t, CidPrefix);
        if v != "" then Success([v]) else Success([])
  }

  /** A binding without a CID field, or with `null` there, carries no CID. */
  predicate NoCidField(item: Json) {
    Get(item, "cid").None? || Get(item, "cid").value.JNull?
  }

  /** The CID one binding contributes, skipping a binding without a CID. */
  function CidOf(item: Json): (r: Result<seq<string>>)
    ensures r.Success? ==> |r.value| <= 1 && forall c :: c in r.value ==> c != ""
  {
    if item.JObj? && NoCidField(item) then Success([]) else CidOfAsWritten(item)
  }

  /** The contributions of `f` over `items`, left to right; the first failure wins. */
  function CollectAll(items: seq<Json>, f: Json -> Result<seq<string>>): Result<seq<string>> {
    if |items| == 0 then Success([])
    else
      match CollectAll(items[..|items| - 1], f)
      case Failure(e) => Failure(e)
      case Success(s) =>
        match f(items[|items| - 1])
        case Failure(e) => Failure(e)
        case Success(t) => Success(s + t)
  }

  /** One more successful item appends its contribution. */
  lemma CollectAllStep(items: seq<Json>, f: Json -> Result<seq<string>>, i: nat, acc: seq<string>)
    requires i < |items| && CollectAll(items[..i], f) == Success(acc) && f(items[i]).Success?
    ensures CollectAll(items[..i + 1], f) == Success(acc + f(items[i]).value)
  {
    assert items[..i + 1][..i] == items[..i];
  }

  /** Once a prefix fails, every longer list fails the same way. */
  lemma {:induction false} CollectAllFails(items: seq<Json>, f: Json -> Result<seq<string>>, k: nat)
    requires k <= |items| && CollectAll(items[..k], f).Failure?
    ensures CollectAll(items, f) == CollectAll(items[..k], f)
    decreases |items|
  {
    if k == |items| {
      assert items[..k] == items;
    } else {
      var init := items[..|items| - 1];
      assert init[..k] == items[..k];
      CollectAllFails(init, f, k);
    }
  }

  /** A failing item after a successful prefix is the failure of the whole list. */
  lemma CollectAllStepFails(items: seq<Json>, f: Json -> Result<seq<string>>, i: nat, acc: seq<string>)
    requires i < |items| && CollectAll(items[..i], f) == Success(acc) && f(items[i]).Failure?
    ensures CollectAll(items, f) == f(items[i])
  {
    assert items[..i + 1][..i] == items[..i];
    CollectAllFails(items, f, i + 1);
  }

  /**
   * Collecting succeeds exactly when every item does, and then holds exactly
   * the contributions of the items.
   */
  lemma {:induction false} CollectAllSpec(items: seq<Json>, f: Json -> Result<seq<string>>)
    ensures CollectAll(items, f).Success? <==> forall i :: 0 <= i < |items| ==> f(items[i]).Success?
    ensures CollectAll(items, f).Success? ==>
      forall x :: x in CollectAll(items, f).value <==> exists i :: 0 <= i < |items| && f(items[i]).Success? && x in f(items[i]).value
  {
    if |items| > 0 {
      var init := items[..|items| - 1];
      CollectAllSpec(init, f);
      assert forall i :: 0 <= i < |init| ==> init[i] == items[i];
    }
  }

  /** Collecting over two lists is collecting over each, in order. */
  lemma {:induction false} CollectAllAppend(a: seq<Json>, b: seq<Json>, f: Json -> Result<seq<string>>)
    requires CollectAll(a, f).Success? && CollectAll(b, f).Success?
    ensures CollectAll(a + b, f) == Success(CollectAll(a, f).value + CollectAll(b, f).value)
    decreases |b|
  {
    if |b| == 0 {
      assert a + b == a;
      assert CollectAll(a, f).value + [] == CollectAll(a, f).value;
    } else {
      var init := b[..|b| - 1];
      assert (a + b)[..|a + b| - 1] == a + init;
      assert (a + b)[|a + b| - 1] == b[|b| - 1];
      CollectAllAppend(a, init, f);
      var x, y, z := CollectAll(a, f).value, CollectAll(init, f).value, f(b[|b| - 1]).value;
      assert CollectAll(b, f).value == y + z;
      assert (x + y) + z == x + (y + z);
    }
  }

  /** `_extract_cids` as written. */
  function CidsAsWritten(bindings: seq<Json>): Result<seq<string>> {
    CollectAll(bindings, CidOfAsWritten)
  }

  /** `_extract_cids` with bindings that carry no CID skipped. */
  function Cids(bindings: seq<Json>): Result<seq<string>> {
    CollectAll(bindings, CidOf)
  }

  /** As written, a binding without a CID field contributes the CID "None". */
  lemma MissingCidAsWritten(item: Json)
    requires item.JObj? && Get(item, "cid").None?
    ensures CidsAsWritten([item]) == Success(["None"])
  {
    RemoveAllShort("None", CidPrefix);
    assert [item][..0] == [];
    assert CollectAll([item][..0], CidOfAsWritten) == Success([]);
    assert CidOfAsWritten(item) == Success(["None"]);
    assert [] + ["None"] == ["None"];
  }

  /** Corrected, a binding without a CID contributes nothing and the others are unchanged. */
  lemma MissingCidSkipped(item: Json)
    requires item.JObj? && NoCidField(item)
    ensures Cids([item]) == Success([])
    ensures forall other: Json :: other.JObj? && !NoCidField(other) ==> CidOf(other) == CidOfAsWritten(other)
  {
    assert [item][..0] == [];
    assert CollectAll([item][..0], CidOf) == Success([]);
    assert CidOf(item) == Success([]);
    var none: seq<string> := [];
    assert none + none == none;
  }

  /**
   * Every extracted CID is non-empty, and each one is the text of some
   * binding's CID field with the URI prefix removed.
   */
  lemma CidsMembers(bindings: seq<Json>, x: string)
    requires Cids(bindings).Success?
    ensures x in Cids(bindings).value ==> x != ""
    ensures x in Cids(bindings).value <==>
      exists i :: 0 <= i < |bindings| && bindings[i].JObj? && !NoCidField(bindings[i])
        && CidText(Get(bindings[i], "cid")).Success?
        && x == RemoveAll(CidText(Get(bindings[i], "cid")).value, CidPrefix) && x != ""
  {
    CollectAllSpec(bindings, CidOf);
  }

  /**
   * `_extract_cids` as written, with its loop appending one CID per binding:
   * a binding without a CID field gives `str(None)`, that is "None".
   */
  method ExtractCids(bindings: seq<Json>) returns (r: Result<seq<string>>)
    ensures r == CidsAsWritten(bindings)
  {
    var cids: seq<string> := [];
    for i := 0 to |bindings|
      invariant CollectAll(bindings[..i], CidOfAsWritten) == Success(cids)
    {
      var item := bindings[i];
      if !item.JObj? {
        CollectAllStepFails(bindings, CidOfAsWritten, i, cids);
        return Failure(NoGet);
      }
      var before := cids;
      var field := Get(item, "cid");
      var text: string;
      if field.Some? && field.value.JObj? {
        var v := GetOr(field.value, "value", JStr(""));
        if !v.JStr? {
          CollectAllStepFails(bindings, CidOfAsWritten, i, cids);
          return Failure(NoReplace);
        }
        text := v.s;
      } else if field.Some? {
        text := Str(field.value);
      } else {
        text := "None";
      }
      var value := RemoveAll(text, CidPrefix);
      assert CidText(field) == Success(text);
      if value != "" {
        cids := cids + [value];
      } else {
        assert CidOfAsWritten(item) == Success([]);
      }
      assert cids == before + CidOfAsWritten(item).value;
      CollectAllStep(bindings, CidOfAsWritten, i, before);
    }
    assert bindings[..|bindings|] == bindings;
    r := Success(cids);
  }

  /**
   * A dict CID gives its value and a URI CID loses its prefix:
   * `{"cid": {"value": "123"}}` and `{"cid": "http://rdf.ncbi.nlm.nih.gov/pubchem/compound/CID456"}`
   * give "123" and "456", in that order.
   */
  lemma CidsExample()
    ensures Cids([JObj([("cid", JObj([("value", JStr("123"))]))]), JObj([("cid", JStr(CidPrefix + "456"))])])
              == Success(["123", "456"])
  {
    var b0 := JObj([("cid", JObj([("value", JStr("123"))]))]);
    var b1 := JObj([("cid", JStr(CidPrefix + "456"))]);
    var bs := [b0, b1];
    RemoveAllShort("123", CidPrefix);
    RemoveAllShort("456", CidPrefix);
    assert (CidPrefix + "456")[..|CidPrefix|] == CidPrefix;
    assert (CidPrefix + "456")[|CidPrefix|..] == "456";
    assert RemoveAll(CidPrefix + "456", CidPrefix) == "456";
    assert CidText(Get(b1, "cid")) == Success(CidPrefix + "456");
    assert CidOf(b0) == Success(["123"]);
    assert CidOf(b1) == Success(["456"]);
    var none: seq<string> := [];
    assert bs[..0] == [];
    CollectAllStep(bs, CidOf, 0, none);
    assert none + ["123"] == ["123"];
    CollectAllStep(bs, CidOf, 1, ["123"]);
    assert bs[..2] == bs;
    assert ["123"] + ["456"] == ["123", "456"];
  }

  // ---------------------------------------------------------------------
  // get_cid and get_all_cid
  // ---------------------------------------------------------------------

  /** The CID column: the sorted, duplicate-free CIDs joined by "|", or `None` without any. */
  function CidJoin(cids: seq<string>): Option<string> {
    var unique := SortedUnique(cids);
    if |unique| == 0 then None else Some(Join(unique, "|"))
  }

  /** Every extracted CID is non-empty. */
  lemma CidsNonEmpty(bindings: seq<Json>)
    requires Cids(bindings).Success?
    ensures forall x :: x in Cids(bindings).value ==> x != ""
  {
    CollectAllSpec(bindings, CidOf);
  }

  /** The join of non-empty CIDs is non-empty. */
  lemma CidJoinNonEmpty(cids: seq<string>)
    requires forall c :: c in cids ==> c != ""
    ensures CidJoin(cids).Some? ==> CidJoin(cids).value != ""
  {
    var unique := SortedUnique(cids);
    if |unique| > 0 {
      assert unique[0] in cids;
      JoinPrefix(unique, "|");
    }
  }

  /**
   * The join is absent exactly for no CIDs, depends only on which CIDs occur,
   * and splits back into the sorted duplicate-free CIDs when none holds "|".
   */
  lemma CidJoinSpec(cids: seq<string>, other: seq<string>)
    requires forall x :: x in other <==> x in cids
    ensures CidJoin(cids).None? <==> |cids| == 0
    ensures CidJoin(cids) == CidJoin(other)
    ensures (forall c :: c in cids ==> '|' !in c) && CidJoin(cids).Some? ==>
      var parts := Split(CidJoin(cids).value, '|');
      Sorted(parts) && NoDup(parts) && forall x :: x in parts <==> x in cids
  {
    var unique := SortedUnique(cids);
    assert |cids| > 0 ==> cids[0] in unique;
    SortedSetUnique(unique, SortedUnique(other));
    if (forall c :: c in cids ==> '|' !in c) && |unique| > 0 {
      SplitJoin(unique, '|');
    }
  }

  /**
   * `get_cid` (and `get_all_cid`, which differs only in the query it sends)
   * on the decoded response: `None` for no or an empty response, otherwise
   * the CID join of the response's `results.bindings`.
   */
  function GetCid(response: Option<Json>): (r: Result<Option<string>>)
    ensures r.Success? && r.value.Some? ==> r.value.value != ""
  {
    if response.None? || !Truthy(response.value) then Success(None)
    else if !response.value.JObj? then Failure(NoGet)
    else
      var results := GetOr(response.value, "results", JObj([]));
      if !results.JObj? then Failure(NoGet)
      else
        match Iterate(GetOr(results, "bindings", JArr([])))
        case None => Failure(NotIterable)
        case Some(bindings) =>
          match Cids(bindings)
          case Failure(e) => Failure(e)
          case Success(c) =>
            CidsNonEmpty(bindings);
            CidJoinNonEmpty(c);
            Success(CidJoin(c))
  }

  /**
   * The finding at the level of `get_cid`: for the bindings `[{}]` the code
   * as written joins the CID "None", while the corrected model finds no CID.
   */
  lemma MissingCidGetCid()
    ensures CidsAsWritten([JObj([])]).Success? && CidJoin(CidsAsWritten([JObj([])]).value) == Some("None")
    ensures GetCid(Some(JObj([("results", JObj([("bindings", JArr([JObj([])]))]))]))) == Success(None)
  {
    MissingCidAsWritten(JObj([]));
    MissingCidSkipped(JObj([]));
    SortedUniqueCanonical(["None"], ["None"]);
  }

  /** A response whose bindings list yields CIDs gives their join; one that yields none gives `None`. */
  lemma GetCidOfBindings(bindings: seq<Json>)
    requires Cids(bindings).Success?
    ensures var response := Some(JObj([("results", JObj([("bindings", JArr(bindings))]))]));
      && GetCid(response) == Success(CidJoin(Cids(bindings).value))
      && (GetCid(response).value.None? <==> |Cids(bindings).value| == 0)
  {
    CidJoinSpec(Cids(bindings).value, Cids(bindings).value);
  }

  // ---------------------------------------------------------------------
  // get_standard_name, get_properties, process_compound
  // ---------------------------------------------------------------------

  /**
   * `get_standard_name` on the decoded response: `None` for an unusable CID,
   * no response or no information; otherwise the raw `Title` value of the
   * first item (`None` when it has none).
   */
  function GetStandardName(cid: string, response: Option<Json>): Result<Option<Json>> {
    if !UsableCid(cid) then Success(None)
    else if response.None? || !Truthy(response.value) then Success(None)
    else if !response.value.JObj? then Failure(NoGet)
    else
      var list := GetOr(response.value, "InformationList", JObj([]));
      if !list.JObj? then Failure(NoGet)
      else
        var info := GetOr(list, "Information", JArr([]));
        if !Truthy(info) then Success(None)
        else if !info.JArr? then Failure(NotAList)
        else if !info.items[0].JObj? then Failure(NoGet)
        else
          Success(Get(info.items[0], "Title"))
  }

  /** The decoded description response whose information list is `items`. */
  function DescriptionResponse(items: seq<Json>): Json {
    JObj([("InformationList", JObj([("Information", JArr(items))]))])
  }

  /**
   * The cases of `get_standard_name`: nothing for an unusable CID, for no or
   * a falsy response and for an empty information list; otherwise the
   * `Title` of the first item, missing when the item has no `Title`.
   */
  lemma GetStandardNameCases(cid: string, response: Option<Json>, items: seq<Json>)
    ensures !UsableCid(cid) ==> GetStandardName(cid, response) == Success(None)
    ensures GetStandardName(cid, None) == Success(None)
    ensures response.Some? && !Truthy(response.value) ==> GetStandardName(cid, response) == Success(None)
    ensures GetStandardName(cid, Some(DescriptionResponse([]))) == Success(None)
    ensures UsableCid(cid) && |items| > 0 && items[0].JObj? ==>
      GetStandardName(cid, Some(DescriptionResponse(items))) == Success(Get(items[0], "Title"))
  {
    if UsableCid(cid) && |items| > 0 && items[0].JObj? {
      var list := JObj([("Information", JArr(items))]);
      assert GetOr(DescriptionResponse(items), "InformationList", JObj([])) == list;
      assert GetOr(list, "Information", JArr([])) == JArr(items);
    }
  }

  /** `standard or "Not Found"`: the text of a truthy Title, else "Not Found". */
  function TitleOrNotFound(t: Option<Json>): (r: string)
    ensures t.None? || !Truthy(t.value) ==> r == NotFound
    ensures t.Some? && t.value.JStr? && t.value.s != "" ==> r == t.value.s
  {
    if t.Some? && Truthy(t.value) then Str(t.value) else NotFound
  }

  /** The `Properties` record. */
  datatype Properties = Properties(
    iupacName: string, molecularFormula: string, iSmiles: string, cSmiles: string, inChI: string, inChIKey: string)

  /** The record of a compound PubChem knows nothing about. */
  const NotFoundProperties := Properties(NotFound, NotFound, NotFound, NotFound, NotFound, NotFound)

  /** `item.get(key, "Not Found")`, as text. */
  function Field(item: Json, key: string): string {
    Str(GetOr(item, key, JStr(NotFound)))
  }

  /** The record read from one property item, each missing key defaulting on its own. */
  function FromItem(item: Json): Properties {
    Properties(
      Field(item, "IUPACName"), Field(item, "MolecularFormula"), Field(item, "IsomericSMILES"),
      Field(item, "CanonicalSMILES"), Field(item, "InChI"), Field(item, "InChIKey"))
  }

  /** An item without any of the six keys is the "Not Found" record. */
  lemma EmptyItemNotFound()
    ensures FromItem(JObj([])) == NotFoundProperties
  {
  }

  /**
   * `get_properties` on the decoded response: the "Not Found" record for an
   * unusable CID, no response or no properties; otherwise the first item.
   */
  function GetProperties(cid: string, response: Option<Json>): Result<Properties> {
    if !UsableCid(cid) then Success(NotFoundProperties)
    else if response.None? || !Truthy(response.value) then Success(NotFoundProperties)
    else if !response.value.JObj? then Failure(NoGet)
    else
      var table := GetOr(response.value, "PropertyTable", JObj([]));
      if !table.JObj? then Failure(NoGet)
      else
        var props := GetOr(table, "Properties", JArr([]));
        if !Truthy(props) then Success(NotFoundProperties)
        else if !props.JArr? then Failure(NotAList)
        else if !props.items[0].JObj? then Failure(NoGet)
        else Success(FromItem(props.items[0]))
  }

  /**
   * The "Not Found" record comes back for an unusable CID whatever the
   * response, for no response, and for an empty property list; the first
   * item of any non-empty list gives each field its own value or "Not Found".
   */
  lemma GetPropertiesDefaults(cid: string, response: Option<Json>, item: Json, rest: seq<Json>)
    ensures !UsableCid(cid) ==> GetProperties(cid, response) == Success(NotFoundProperties)
    ensures GetProperties(cid, None) == Success(NotFoundProperties)
    ensures GetProperties(cid, Some(JObj([("PropertyTable", JObj([("Properties", JArr([]))]))])))
              == Success(NotFoundProperties)
    ensures item.JObj? && UsableCid(cid) ==>
      var r := GetProperties(cid, Some(JObj([("PropertyTable", JObj([("Properties", JArr([item] + rest))]))])));
      && r.Success?
      && r.value == FromItem(item)
      && r.value.iupacName == FieldOr(item, "IUPACName")
      && r.value.molecularFormula == FieldOr(item, "MolecularFormula")
      && r.value.iSmiles == FieldOr(item, "IsomericSMILES")
      && r.value.cSmiles == FieldOr(item, "CanonicalSMILES")
      && r.value.inChI == FieldOr(item, "InChI")
      && r.value.inChIKey == FieldOr(item, "InChIKey")
  {
    if item.JObj? && UsableCid(cid) {
      var table := JObj([("Properties", JArr([item] + rest))]);
      var response := JObj([("PropertyTable", table)]);
      assert GetOr(response, "PropertyTable", JObj([])) == table;
      assert GetOr(table, "Properties", JArr([])) == JArr([item] + rest);
      assert Truthy(JArr([item] + rest));
      forall key ensures Field(item, key) == FieldOr(item, key) {
        FieldDefault(item, key);
      }
    }
  }

  /** The value of one key of an item as text, or "Not Found" without that key. */
  function FieldOr(item: Json, key: string): string {
    match Get(item, key)
    case Some(v) => Str(v)
    case None => NotFound
  }

  /** `item.get(key, "Not Found")`: the key's own value when present, else the default. */
  lemma FieldDefault(item: Json, key: string)
    ensures Get(item, key).None? ==> Field(item, key) == NotFound
    ensures Get(item, key).Some? ==> Field(item, key) == Str(Get(item, key).value)
  {
  }

  /** One output row of `process_compound`. */
  datatype CompoundRow = CompoundRow(name: string, cid: string, standardName: string, properties: Properties)

  /** `value or "Not Found"` for an optional text. */
  function OrNotFound(o: Option<string>): (r: string)
    ensures r != ""
    ensures o.Some? && o.value != "" ==> r == o.value
  {
    if o.Some? && o.value != "" then o.value else NotFound
  }

  /**
   * `process_compound` on the three responses (CIDs, description,
   * properties): the name as given, the CID join, and the standard name and
   * properties of that join when there is one.
   */
  function ProcessCompound(name: string, cidResponse: Option<Json>, nameResponse: Option<Json>, propResponse: Option<Json>)
    : Result<CompoundRow>
  {
    match GetCid(cidResponse)
    case Failure(e) => Failure(e)
    case Success(cid) =>
      var found := cid.Some? && cid.value != "";
      var standard := if found then GetStandardName(cid.value, nameResponse) else Success(None);
      var props := if found then GetProperties(cid.value, propResponse) else Success(NotFoundProperties);
      if standard.Failure? then Failure(standard.error)
      else if props.Failure? then Failure(props.error)
      else Success(CompoundRow(name, OrNotFound(cid), TitleOrNotFound(standard.value), props.value))
  }

  /**
   * The row keeps the name given; without a CID every other field is
   * "Not Found"; with one, the CID column is that CID list.
   */
  lemma ProcessCompoundFields(name: string, cidResponse: Option<Json>, nameResponse: Option<Json>, propResponse: Option<Json>)
    requires ProcessCompound(name, cidResponse, nameResponse, propResponse).Success?
    ensures var row := ProcessCompound(name, cidResponse, nameResponse, propResponse).value;
      && row.name == name
      && GetCid(cidResponse).Success?
      && (GetCid(cidResponse).value.None? ==>
            row == CompoundRow(name, NotFound, NotFound, NotFoundProperties))
      && (GetCid(cidResponse).value.Some? ==> row.cid == GetCid(cidResponse).value.value)
      && (GetCid(cidResponse).value.Some? ==>
            var cid := GetCid(cidResponse).value.value;
            && GetStandardName(cid, nameResponse).Success?
            && row.standardName == TitleOrNotFound(GetStandardName(cid, nameResponse).value)
            && GetProperties(cid, propResponse).Success?
            && row.properties == GetProperties(cid, propResponse).value)
  {
  }
}
