/**
 * The UniProt helpers of `uniprot_utils`: the protein and gene names of the
 * entries in a decoded UniProt document, the taxonomy of its first usable
 * entry, and the row `collect_info` assembles from both. Fetching and reading
 * files is not modelled: the decoded document is the input, and a missing or
 * undecodable file is `None`.
 */
module Uniprot {
  import opened Wrappers
  import opened Strings
  import opened Seqs
  import opened Json

  /** The elements of a list, as a set. */
  function ToSet(xs: seq<string>): (r: set<string>)
    ensures forall x :: x in r <==> x in xs
  {
    set x | x in xs
  }

  /** The set of a concatenation is the union of the sets. */
  lemma ToSetAppend(a: seq<string>, b: seq<string>)
    ensures ToSet(a + b) == ToSet(a) + ToSet(b)
  {
  }

  // ---------------------------------------------------------------------
  // Names
  // ---------------------------------------------------------------------

  /** `x` is the non-empty text under the `"value"` key of the dict `item`. */
  predicate HasValue(item: Json, x: string) {
    item.JObj? && Get(item, "value") == Some(JStr(x)) && x != ""
  }

  /**
   * The name carried by one name item: its `"value"` when `item` is a dict
   * and the value is a non-empty string, nothing otherwise.
   */
  function ValueOf(item: Json): (r: seq<string>)
    ensures |r| <= 1
    ensures forall x :: x in r <==> HasValue(item, x)
  {
    if item.JObj? then
      match Get(item, "value")
      case Some(JStr(s)) => if s != "" then [s] else []
      case _ => []
    else []
  }

  /** The names of a list of name items, in order. */
  function ItemValues(items: seq<Json>): (r: seq<string>)
    ensures forall x :: x in r <==> exists k :: 0 <= k < |items| && HasValue(items[k], x)
  {
    if |items| == 0 then []
    else
      var init := items[..|items| - 1];
      var r := ItemValues(init) + ValueOf(items[|items| - 1]);
      assert forall k :: 0 <= k < |init| ==> init[k] == items[k];
      r
  }

  /** The names under `shortName`, which is a single name item or a list of them. */
  function ShortNames(short: Json): seq<string> {
    match short
    case JObj(_) => ValueOf(short)
    case JArr(items) => ItemValues(items)
    case _ => []
  }

  /**
   * `_collect_name_fields`: the full name, then the short name or names, of a
   * UniProt name object; nothing for a value that is not a dict.
   */
  function NameFields(nameObj: Json): (names: seq<string>)
    ensures !nameObj.JObj? ==> names == []
    ensures forall x :: x in names ==> x != ""
    ensures forall x :: HasValue(GetOr(nameObj, "fullName", JNull), x) ==> |names| > 0 && names[0] == x
  {
    if !nameObj.JObj? then []
    else ValueOf(GetOr(nameObj, "fullName", JNull)) + ShortNames(GetOr(nameObj, "shortName", JNull))
  }

  /** The names a name object carries, in any of the three places they can be. */
  lemma NameFieldsMembers(nameObj: Json, x: string)
    requires nameObj.JObj?
    ensures x in NameFields(nameObj) <==>
      var short := GetOr(nameObj, "shortName", JNull);
      || HasValue(GetOr(nameObj, "fullName", JNull), x)
      || HasValue(short, x)
      || (short.JArr? && exists k :: 0 <= k < |short.items| && HasValue(short.items[k], x))
  {
  }

  /** `_collect_name_fields`, walking a list of short names item by item. */
  method CollectNameFields(nameObj: Json) returns (names: seq<string>)
    ensures names == NameFields(nameObj)
  {
    if !nameObj.JObj? {
      return [];
    }
    names := ValueOf(GetOr(nameObj, "fullName", JNull));
    var short := GetOr(nameObj, "shortName", JNull);
    if short.JObj? {
      names := names + ValueOf(short);
    } else if short.JArr? {
      var head := names;
      for i := 0 to |short.items|
        invariant names == head + ItemValues(short.items[..i])
      {
        assert short.items[..i + 1][..i] == short.items[..i];
        names := names + ValueOf(short.items[i]);
      }
      assert short.items[..|short.items|] == short.items;
    }
  }

  /**
   * The union of `f` over `xs`, taken left to right; the first failure is
   * the result, as an exception raised inside a `for` loop would be.
   */
  function UnionAll<T>(xs: seq<T>, f: T -> Result<set<string>>): Result<set<string>> {
    if |xs| == 0 then Success({})
    else
      match UnionAll(xs[..|xs| - 1], f)
      case Failure(e) => Failure(e)
      case Success(s) =>
        match f(xs[|xs| - 1])
        case Failure(e) => Failure(e)
        case Success(t) => Success(s + t)
  }

  /** Once a prefix fails, the whole union fails the same way. */
  lemma {:induction false} UnionAllFails<T>(xs: seq<T>, f: T -> Result<set<string>>, k: nat)
    requires k <= |xs| && UnionAll(xs[..k], f).Failure?
    ensures UnionAll(xs, f) == UnionAll(xs[..k], f)
    decreases |xs|
  {
    if k == |xs| {
      assert xs[..k] == xs;
    } else {
      var init := xs[..|xs| - 1];
      assert init[..k] == xs[..k];
      UnionAllFails(init, f, k);
    }
  }

  /** One more successful element adds its set to the union. */
  lemma UnionAllStep<T>(xs: seq<T>, f: T -> Result<set<string>>, i: nat, acc: set<string>)
    requires i < |xs| && UnionAll(xs[..i], f) == Success(acc) && f(xs[i]).Success?
    ensures UnionAll(xs[..i + 1], f) == Success(acc + f(xs[i]).value)
  {
    assert xs[..i + 1][..i] == xs[..i];
  }

  /** A failing element after a successful prefix is the failure of the whole union. */
  lemma UnionAllStepFails<T>(xs: seq<T>, f: T -> Result<set<string>>, i: nat, acc: set<string>)
    requires i < |xs| && UnionAll(xs[..i], f) == Success(acc) && f(xs[i]).Failure?
    ensures UnionAll(xs, f) == f(xs[i])
  {
    assert xs[..i + 1][..i] == xs[..i];
    UnionAllFails(xs, f, i + 1);
  }

  /**
   * The union succeeds exactly when `f` succeeds on every element, and then
   * holds exactly what `f` gives on some element.
   */
  lemma {:induction false} UnionAllSpec<T>(xs: seq<T>, f: T -> Result<set<string>>)
    ensures UnionAll(xs, f).Success? <==> forall i :: 0 <= i < |xs| ==> f(xs[i]).Success?
    ensures UnionAll(xs, f).Success? ==>
      forall x :: x in UnionAll(xs, f).value <==> exists i :: 0 <= i < |xs| && f(xs[i]).Success? && x in f(xs[i]).value
  {
    if |xs| > 0 {
      var init := xs[..|xs| - 1];
      UnionAllSpec(init, f);
      assert forall i :: 0 <= i < |init| ==> init[i] == xs[i];
    }
  }

  /** The names of one name object, as a union step. */
  function NameSet(item: Json): Result<set<string>> {
    Success(ToSet(NameFields(item)))
  }

  /**
   * The names in the list under `key` of a protein description
   * (`desc.get(key) or []`, then every item); iterating a truthy value that is
   * not iterable raises.
   */
  function KeyNames(desc: Json, key: string): Result<set<string>> {
    var v := GetOr(desc, key, JNull);
    if !Truthy(v) then Success({})
    else
      match Iterate(v)
      case None => Failure(NotIterable)
      case Some(items) => UnionAll(items, NameSet)
  }

  /** The two list-valued keys of a protein description, in the order they are read. */
  const ListKeys := ["alternativeNames", "submissionNames"]

  /** The names under each key of `keys`, in order. */
  function KeysNames(desc: Json, keys: seq<string>): Result<set<string>> {
    if |keys| == 0 then Success({})
    else
      match KeysNames(desc, keys[..|keys| - 1])
      case Failure(e) => Failure(e)
      case Success(s) =>
        match KeyNames(desc, keys[|keys| - 1])
        case Failure(e) => Failure(e)
        case Success(t) => Success(s + t)
  }

  /**
   * `_extract_protein_names`: the names of the recommended name and of every
   * alternative and submission name of a protein description.
   */
  function ProteinNames(desc: Json): (r: Result<set<string>>)
    ensures !desc.JObj? ==> r == Success({})
  {
    if !desc.JObj? then Success({})
    else
      match KeysNames(desc, ListKeys)
      case Failure(e) => Failure(e)
      case Success(s) => Success(ToSet(NameFields(GetOr(desc, "recommendedName", JNull))) + s)
  }

  /**
   * The names under a list of keys succeed when every key's do, and are the
   * names under some key.
   */
  lemma {:induction false} KeysNamesSpec(desc: Json, keys: seq<string>)
    ensures KeysNames(desc, keys).Success? <==> forall k :: 0 <= k < |keys| ==> KeyNames(desc, keys[k]).Success?
    ensures KeysNames(desc, keys).Success? ==>
      forall x :: x in KeysNames(desc, keys).value <==>
        exists k :: 0 <= k < |keys| && KeyNames(desc, keys[k]).Success? && x in KeyNames(desc, keys[k]).value
  {
    if |keys| > 0 {
      var init := keys[..|keys| - 1];
      KeysNamesSpec(desc, init);
      assert forall k :: 0 <= k < |init| ==> init[k] == keys[k];
    }
  }

  /**
   * The names of a protein description are those of its recommended name and
   * those of the items under its alternative and submission name lists.
   */
  lemma ProteinNamesMembers(desc: Json, x: string)
    requires desc.JObj? && ProteinNames(desc).Success?
    ensures forall k :: 0 <= k < |ListKeys| ==> KeyNames(desc, ListKeys[k]).Success?
    ensures x in ProteinNames(desc).value <==>
      || x in NameFields(GetOr(desc, "recommendedName", JNull))
      || exists k :: 0 <= k < |ListKeys| && KeyNames(desc, ListKeys[k]).Success? && x in KeyNames(desc, ListKeys[k]).value
  {
    KeysNamesSpec(desc, ListKeys);
  }

  /** The names under one key are those of its items, when the value is a non-empty list. */
  lemma KeyNamesMembers(desc: Json, key: string, x: string)
    requires GetOr(desc, key, JNull).JArr? && |GetOr(desc, key, JNull).items| > 0
    ensures var items := GetOr(desc, key, JNull).items;
      && KeyNames(desc, key).Success?
      && (x in KeyNames(desc, key).value <==> exists i :: 0 <= i < |items| && x in NameFields(items[i]))
  {
    UnionAllSpec(GetOr(desc, key, JNull).items, NameSet);
  }

  /** The inner loop of `_extract_protein_names`: the names of every item of one name list. */
  method ItemsNames(items: seq<Json>) returns (added: set<string>)
    ensures UnionAll(items, NameSet) == Success(added)
  {
    added := {};
    for i := 0 to |items|
      invariant UnionAll(items[..i], NameSet) == Success(added)
    {
      var fields := CollectNameFields(items[i]);
      UnionAllStep(items, NameSet, i, added);
      added := added + ToSet(fields);
    }
    assert items[..|items|] == items;
  }

  /** `_extract_protein_names`, with its loop over the two name lists and their items. */
  method ExtractProteinNames(desc: Json) returns (r: Result<set<string>>)
    ensures r == ProteinNames(desc)
  {
    if !desc.JObj? {
      return Success({});
    }
    var rec := GetOr(desc, "recommendedName", JNull);
    var recNames := CollectNameFields(rec);
    var names := ToSet(recNames);
    for k := 0 to |ListKeys|
      invariant KeysNames(desc, ListKeys[..k]).Success?
      invariant names == ToSet(recNames) + KeysNames(desc, ListKeys[..k]).value
    {
      var before := names;
      var v := GetOr(desc, ListKeys[k], JNull);
      var added: set<string> := {};
      if Truthy(v) {
        var items := Iterate(v);
        if items.None? {
          KeysNamesFails(desc, k);
          return Failure(NotIterable);
        }
        added := ItemsNames(items.value);
        names := names + added;
      }
      KeysNamesStep(desc, k, KeysNames(desc, ListKeys[..k]).value, added);
    }
    assert ListKeys[..|ListKeys|] == ListKeys;
    r := Success(names);
  }

  /** One more key adds its names to those of the keys before it. */
  lemma KeysNamesStep(desc: Json, k: nat, acc: set<string>, added: set<string>)
    requires k < |ListKeys| && KeysNames(desc, ListKeys[..k]) == Success(acc)
    requires KeyNames(desc, ListKeys[k]) == Success(added)
    ensures KeysNames(desc, ListKeys[..k + 1]) == Success(acc + added)
  {
    assert ListKeys[..k + 1][..k] == ListKeys[..k];
  }

  /** A key whose list fails after successful keys is the failure of all of them. */
  lemma KeysNamesFails(desc: Json, k: nat)
    requires k < |ListKeys| && KeysNames(desc, ListKeys[..k]).Success? && KeyNames(desc, ListKeys[k]).Failure?
    ensures KeysNames(desc, ListKeys) == KeyNames(desc, ListKeys[k])
  {
    assert ListKeys[..k + 1][..k] == ListKeys[..k];
    assert ListKeys[..1][..0] == [];
    assert ListKeys[..2] == ListKeys;
    if k == 0 {
      assert ListKeys[..2][..1] == ListKeys[..1];
    }
  }

  /** The names of one gene: its main name and its synonyms; nothing for a non-dict. */
  function GeneOf(gene: Json): Result<set<string>> {
    if !gene.JObj? then Success({})
    else
      match Iterate(GetOr(gene, "synonyms", JArr([])))
      case None => Failure(NotIterable)
      case Some(syns) => Success(ToSet(ValueOf(GetOr(gene, "geneName", JNull))) + ToSet(ItemValues(syns)))
  }

  /** `_extract_gene_names`: the names of every gene of an entry. */
  function GeneNames(entry: Json): Result<set<string>>
    requires entry.JObj?
  {
    match Iterate(GetOr(entry, "genes", JArr([])))
    case None => Failure(NotIterable)
    case Some(genes) => UnionAll(genes, GeneOf)
  }

  /** The synonym loop of `_extract_gene_names`: the string values of the synonyms. */
  method SynonymNames(syns: seq<Json>) returns (found: set<string>)
    ensures found == ToSet(ItemValues(syns))
  {
    found := {};
    for i := 0 to |syns|
      invariant found == ToSet(ItemValues(syns[..i]))
    {
      assert syns[..i + 1][..i] == syns[..i];
      ToSetAppend(ItemValues(syns[..i]), ValueOf(syns[i]));
      found := found + ToSet(ValueOf(syns[i]));
    }
    assert syns[..|syns|] == syns;
  }

  /** `_extract_gene_names`, with its loops over the genes and their synonyms. */
  method ExtractGeneNames(entry: Json) returns (r: Result<set<string>>)
    requires entry.JObj?
    ensures r == GeneNames(entry)
  {
    var genes := Iterate(GetOr(entry, "genes", JArr([])));
    if genes.None? {
      return Failure(NotIterable);
    }
    var names: set<string> := {};
    for g := 0 to |genes.value|
      invariant UnionAll(genes.value[..g], GeneOf) == Success(names)
    {
      var gene := genes.value[g];
      var before := names;
      if gene.JObj? {
        var mainName := ValueOf(GetOr(gene, "geneName", JNull));
        names := names + ToSet(mainName);
        var syns := Iterate(GetOr(gene, "synonyms", JArr([])));
        if syns.None? {
          UnionAllStepFails(genes.value, GeneOf, g, before);
          return Failure(NotIterable);
        }
        var synonyms := SynonymNames(syns.value);
        names := names + synonyms;
        assert GeneOf(gene) == Success(ToSet(mainName) + ToSet(ItemValues(syns.value)));
      }
      UnionAllStep(genes.value, GeneOf, g, before);
      assert UnionAll(genes.value[..g + 1], GeneOf) == Success(before + GeneOf(gene).value);
      assert names == before + GeneOf(gene).value;
    }
    assert genes.value[..|genes.value|] == genes.value;
    r := Success(names);
  }

  /**
   * The entries of a document: the `results` of a search response, the items
   * of a list, or the document itself as a single entry.
   */
  function Entries(data: Json): Option<seq<Json>> {
    if data.JObj? && Get(data, "results").Some? then Iterate(Get(data, "results").value)
    else if data.JArr? then Some(data.items)
    else Some([data])
  }

  /** The protein and gene names of one entry; nothing for a non-dict. */
  function EntryNames(entry: Json): Result<set<string>> {
    if !entry.JObj? then Success({})
    else
      match ProteinNames(GetOr(entry, "proteinDescription", JObj([])))
      case Failure(e) => Failure(e)
      case Success(p) =>
        match GeneNames(entry)
        case Failure(e) => Failure(e)
        case Success(g) => Success(p + g)
  }

  /** `extract_names`: the names of all entries of a document. */
  function NamesOf(data: Json): Result<set<string>> {
    match Entries(data)
    case None => Failure(NotIterable)
    case Some(entries) => UnionAll(entries, EntryNames)
  }

  /**
   * A name of the document is a name of one of its entries, and every name is
   * non-empty.
   */
  lemma NamesOfMembers(data: Json)
    requires Entries(data).Some?
    ensures var es := Entries(data).value;
      NamesOf(data).Success? <==> forall i :: 0 <= i < |es| ==> EntryNames(es[i]).Success?
    ensures var es := Entries(data).value;
      NamesOf(data).Success? ==>
        forall x :: x in NamesOf(data).value <==> exists i :: 0 <= i < |es| && EntryNames(es[i]).Success? && x in EntryNames(es[i]).value
  {
    UnionAllSpec(Entries(data).value, EntryNames);
  }

  /** `extract_names`, with its loop over the entries. */
  method ExtractNames(data: Json) returns (r: Result<set<string>>)
    ensures r == NamesOf(data)
  {
    var it := Entries(data);
    if it.None? {
      return Failure(NotIterable);
    }
    var entries := it.value;
    var names: set<string> := {};
    for i := 0 to |entries|
      invariant UnionAll(entries[..i], EntryNames) == Success(names)
    {
      var entry := entries[i];
      var before := names;
      if entry.JObj? {
        var p := ExtractProteinNames(GetOr(entry, "proteinDescription", JObj([])));
        if p.Failure? {
          UnionAllStepFails(entries, EntryNames, i, before);
          return p;
        }
        var g := ExtractGeneNames(entry);
        if g.Failure? {
          UnionAllStepFails(entries, EntryNames, i, before);
          return g;
        }
        assert EntryNames(entry) == Success(p.value + g.value);
        names := names + (p.value + g.value);
      }
      UnionAllStep(entries, EntryNames, i, before);
      assert names == before + EntryNames(entry).value;
    }
    assert entries[..|entries|] == entries;
    r := Success(names);
  }

  // ---------------------------------------------------------------------
  // Organism
  // ---------------------------------------------------------------------

  /** The four taxonomy fields `extract_organism` returns. */
  datatype Organism = Organism(genus: string, superkingdom: string, phylum: string, taxonId: string)

  /** The result when no entry carries organism data. */
  const NoOrganism := Organism("", "", "", "")

  /** The error of `sci_name.split()[0]` on a name that is all whitespace. */
  const IndexOutOfRange := "list index out of range"

  /** The error of calling `split` on a scientific name that is not a string. */
  const NoSplit := "object has no attribute 'split'"

  /** The organism object of an entry (`entry.get("organism", {})`). */
  function OrgOf(entry: Json): Json {
    GetOr(entry, "organism", JObj([]))
  }

  /** An entry `extract_organism` reads: a dict whose organism is a dict. */
  predicate Usable(entry: Json) {
    entry.JObj? && OrgOf(entry).JObj?
  }

  /** The lineage of an organism, when it is a list (`org.get("lineage") or []`). */
  function Lineage(org: Json): seq<Json> {
    match GetOr(org, "lineage", JNull)
    case JArr(items) => items
    case _ => []
  }

  /**
   * The phylum of a lineage of at least two ranks: the rank after a second
   * rank ending in "zoa" (such as "Metazoa"), otherwise the second rank.
   */
  function PhylumOf(lineage: seq<Json>): string
    requires |lineage| >= 2
  {
    if lineage[1].JStr? && EndsWith(lineage[1].s, "zoa") && |lineage| >= 3 then Str(lineage[2])
    else Str(lineage[1])
  }

  /** The characters of `t` up to its first whitespace. */
  function Word(t: string): (w: string)
    ensures StartsWith(t, w) && forall i :: 0 <= i < |w| ==> !IsSpace(w[i])
    ensures |w| == |t| || IsSpace(t[|w|])
  {
    if |t| == 0 || IsSpace(t[0]) then [] else [t[0]] + Word(t[1..])
  }

  /**
   * `s.split()[0]`: the first whitespace-separated word, absent (the split is
   * empty) exactly when `s` is all whitespace.
   */
  function FirstWord(s: string): (r: Option<string>)
    ensures r.None? <==> AllSpace(s)
    ensures r.Some? ==> r.value != [] && exists i :: 0 <= i <= |s| && AllSpace(s[..i]) && StartsWith(s[i..], r.value)
  {
    var t := LStrip(s);
    LStripSpec(s);
    if t == [] then
      assert s == s[..|s| - |t|];
      None
    else
      var w := Word(t);
      assert !AllSpace(s) by {
        assert s[|s| - |t|] == t[0];
      }
      Some(w)
  }

  /**
   * The taxonomy read from one organism object: the taxon id as text, the
   * first rank as superkingdom, the phylum rule, the last rank as genus, and
   * the first word of the scientific name when the lineage names no genus.
   */
  function FromOrg(org: Json): Result<Organism>
    requires org.JObj?
  {
    var lin := Lineage(org);
    var sci := GetOr(org, "scientificName", JNull);
    if Truthy(sci) && !HasGenus(lin) then
      if !sci.JStr? then Failure(NoSplit)
      else
        match FirstWord(sci.s)
        case None => Failure(IndexOutOfRange)
        case Some(w) => Success(Organism(w, FirstRank(lin), PhylumText(lin), TaxonText(org)))
    else Success(Organism(LastRank(lin), FirstRank(lin), PhylumText(lin), TaxonText(org)))
  }

  /** The taxon id as text; empty when absent or `null`. */
  function TaxonText(org: Json): string {
    match Get(org, "taxonId")
    case Some(v) => if v.JNull? then "" else Str(v)
    case None => ""
  }

  /** The first rank of a lineage (the superkingdom), or empty. */
  function FirstRank(lin: seq<Json>): string {
    if |lin| > 0 then Str(lin[0]) else ""
  }

  /** The phylum of a lineage of at least two ranks, or empty. */
  function PhylumText(lin: seq<Json>): string {
    if |lin| >= 2 then PhylumOf(lin) else ""
  }

  /** The last rank of a lineage (the genus), or empty. */
  function LastRank(lin: seq<Json>): string {
    if |lin| > 0 then Str(lin[|lin| - 1]) else ""
  }

  /** The lineage ends in a truthy rank, so the genus needs no scientific name. */
  predicate HasGenus(lin: seq<Json>) {
    |lin| > 0 && Truthy(lin[|lin| - 1])
  }

  /**
   * A field the organism object does not provide is left empty: no taxon id,
   * no lineage, no second rank, no genus in the lineage nor a scientific name.
   */
  lemma FromOrgMissing(org: Json)
    requires org.JObj?
    ensures Get(org, "taxonId").None? && FromOrg(org).Success? ==> FromOrg(org).value.taxonId == ""
    ensures |Lineage(org)| == 0 && FromOrg(org).Success? ==> FromOrg(org).value.superkingdom == ""
    ensures |Lineage(org)| < 2 && FromOrg(org).Success? ==> FromOrg(org).value.phylum == ""
    ensures (|Lineage(org)| == 0 && !Truthy(GetOr(org, "scientificName", JNull)))
              ==> FromOrg(org).Success? && FromOrg(org).value.genus == ""
  {
  }

  /**
   * Reading an organism fails exactly when a truthy scientific name must
   * supply the genus and it is not a string, or is all whitespace.
   */
  lemma FromOrgFailure(org: Json)
    requires org.JObj?
    ensures var lin := Lineage(org);
      var sci := GetOr(org, "scientificName", JNull);
      FromOrg(org).Failure? <==>
        Truthy(sci) && !(|lin| > 0 && Truthy(lin[|lin| - 1])) && (!sci.JStr? || AllSpace(sci.s))
  {
  }

  /**
   * `extract_organism`: the taxonomy of the first usable entry, or empty
   * fields when there is none; later entries are never read.
   */
  function OrganismOf(data: Json): Result<Organism> {
    match Entries(data)
    case None => Failure(NotIterable)
    case Some(entries) =>
      match FindFirst(entries, Usable)
      case None => Success(NoOrganism)
      case Some(k) => FromOrg(OrgOf(entries[k]))
  }

  /**
   * The body of `extract_organism`'s loop for a usable entry: the result
   * fields filled from its organism object one after the other.
   */
  method ReadOrganism(org: Json) returns (r: Result<Organism>)
    requires org.JObj?
    ensures r == FromOrg(org)
  {
    var genus, superkingdom, phylum, taxonId := "", "", "", "";
    var taxon := Get(org, "taxonId");
    if taxon.Some? && !taxon.value.JNull? {
      taxonId := Str(taxon.value);
    }
    var lineage := Lineage(org);
    var genusSet := false;
    if |lineage| > 0 {
      superkingdom := Str(lineage[0]);
      if |lineage| >= 2 {
        var candidate := lineage[1];
        if candidate.JStr? && EndsWith(candidate.s, "zoa") && |lineage| >= 3 {
          phylum := Str(lineage[2]);
        } else {
          phylum := Str(candidate);
        }
      }
      genus := Str(lineage[|lineage| - 1]);
      genusSet := Truthy(lineage[|lineage| - 1]);
    }
    assert taxonId == TaxonText(org);
    assert (genus, superkingdom, phylum, genusSet)
        == (LastRank(lineage), FirstRank(lineage), PhylumText(lineage), HasGenus(lineage));
    var sci := GetOr(org, "scientificName", JNull);
    if Truthy(sci) && !genusSet {
      if !sci.JStr? {
        return Failure(NoSplit);
      }
      var word := FirstWord(sci.s);
      if word.None? {
        return Failure(IndexOutOfRange);
      }
      genus := word.value;
    }
    r := Success(Organism(genus, superkingdom, phylum, taxonId));
  }

  /** `extract_organism`, with its loop that stops at the first usable entry. */
  method ExtractOrganism(data: Json) returns (r: Result<Organism>)
    ensures r == OrganismOf(data)
  {
    var it := Entries(data);
    if it.None? {
      return Failure(NotIterable);
    }
    var entries := it.value;
    var i := 0;
    while i < |entries|
      invariant i <= |entries|
      invariant forall j :: 0 <= j < i ==> !Usable(entries[j])
    {
      var entry := entries[i];
      if !entry.JObj? {
        i := i + 1;
        continue;
      }
      var org := GetOr(entry, "organism", JObj([]));
      if !org.JObj? {
        i := i + 1;
        continue;
      }
      assert FindFirst(entries, Usable) == Some(i);
      r := ReadOrganism(org);
      return;
    }
    r := Success(NoOrganism);
  }

  /** Entries after the first usable one never change the taxonomy. */
  lemma OrganismIgnoresLater(entries: seq<Json>, more: seq<Json>, k: nat)
    requires k < |entries| && Usable(entries[k])
    ensures OrganismOf(JArr(entries + more)) == OrganismOf(JArr(entries))
  {
    var a := FindFirst(entries, Usable);
    var b := FindFirst(entries + more, Usable);
    assert (entries + more)[a.value] == entries[a.value];
    assert b.value < |entries| ==> (entries + more)[b.value] == entries[b.value];
  }

  /** Without a usable entry every taxonomy field is empty. */
  lemma NoUsableEntry(data: Json)
    requires Entries(data).Some?
    requires forall j :: 0 <= j < |Entries(data).value| ==> !Usable(Entries(data).value[j])
    ensures OrganismOf(data) == Success(NoOrganism)
  {
  }

  /**
   * A search response, a list of entries and a single entry are read alike:
   * an entry is its own one-element list, and `results` stands for its list.
   */
  lemma InputShapes(entries: seq<Json>, entry: Json)
    requires entry.JObj? && Get(entry, "results").None?
    ensures NamesOf(JObj([("results", JArr(entries))])) == NamesOf(JArr(entries))
    ensures OrganismOf(JObj([("results", JArr(entries))])) == OrganismOf(JArr(entries))
    ensures NamesOf(entry) == NamesOf(JArr([entry]))
    ensures OrganismOf(entry) == OrganismOf(JArr([entry]))
  {
  }

  /**
   * A lineage whose second rank is "Metazoa" takes its phylum from the third
   * rank: Eukaryota > Metazoa > Chordata > Mammalia > Homo with taxon 9606 is
   * the genus Homo in the phylum Chordata.
   */
  lemma MetazoaLineage()
    ensures var org := JObj([
        ("lineage", JArr([JStr("Eukaryota"), JStr("Metazoa"), JStr("Chordata"), JStr("Mammalia"), JStr("Homo")])),
        ("taxonId", JInt(9606))]);
      FromOrg(org) == Success(Organism("Homo", "Eukaryota", "Chordata", "9606"))
  {
    assert EndsWith("Metazoa", "zoa");
    assert IntToString(9606) == "9606";
  }

  // ---------------------------------------------------------------------
  // collect_info
  // ---------------------------------------------------------------------

  /** One output row of `collect_info`. */
  datatype InfoRow = InfoRow(
    uniprotId: string, names: string, genus: string, superkingdom: string, phylum: string, taxonId: string)

  /** The elements of a finite set, in some order, each once. */
  method SetToSeq(s: set<string>) returns (xs: seq<string>)
    ensures forall x :: x in xs <==> x in s
  {
    xs := [];
    var rest := s;
    while rest != {}
      invariant rest <= s
      invariant forall x :: x in s <==> x in xs || x in rest
      decreases |rest|
    {
      var x :| x in rest;
      xs := xs + [x];
      rest := rest - {x};
    }
  }

  /**
   * `collect_info`: the accession with empty fields when the document is
   * missing; otherwise its names sorted and joined by "|" and its taxonomy.
   * An exception other than a missing or undecodable file propagates.
   */
  method CollectInfo(uid: string, data: Option<Json>) returns (r: Result<InfoRow>)
    ensures data.None? ==> r == Success(InfoRow(uid, "", "", "", "", ""))
    ensures data.Some? ==> (r.Success? <==> NamesOf(data.value).Success? && OrganismOf(data.value).Success?)
    ensures data.Some? && r.Success? ==>
      var org := OrganismOf(data.value).value;
      && r.value.uniprotId == uid
      && (r.value.genus, r.value.superkingdom, r.value.phylum, r.value.taxonId)
           == (org.genus, org.superkingdom, org.phylum, org.taxonId)
      && exists s :: Sorted(s) && NoDup(s) && (forall x :: x in s <==> x in NamesOf(data.value).value)
           && r.value.names == Join(s, "|")
  {
    if data.None? {
      return Success(InfoRow(uid, "", "", "", "", ""));
    }
    var names := ExtractNames(data.value);
    if names.Failure? {
      return Failure(names.error);
    }
    var org := ExtractOrganism(data.value);
    if org.Failure? {
      return Failure(org.error);
    }
    var list := SetToSeq(names.value);
    var sorted := SortedUnique(list);
    r := Success(InfoRow(uid, Join(sorted, "|"), org.value.genus, org.value.superkingdom, org.value.phylum, org.value.taxonId));
  }

  /**
   * The names column is determined by the set of names, and when no name
   * holds "|" it splits back into that sorted list.
   */
  lemma NamesColumnRoundTrip(s: seq<string>, names: set<string>)
    requires Sorted(s) && NoDup(s) && forall x :: x in s <==> x in names
    requires |s| >= 1 && forall x :: x in names ==> '|' !in x
    ensures forall t :: Sorted(t) && NoDup(t) && (forall x :: x in t <==> x in names) ==> t == s
    ensures Split(Join(s, "|"), '|') == s
  {
    forall t | Sorted(t) && NoDup(t) && (forall x :: x in t <==> x in names)
      ensures t == s
    {
      SortedSetUnique(t, s);
    }
    SplitJoin(s, '|');
  }
}
