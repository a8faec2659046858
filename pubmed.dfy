/**
 * The PubMed record of `pubmed_library`: the fields `parse_pubmed_article`
 * reads from one `PubmedArticle` element, their defaults, and the empty
 * record `EMPTY_PUBMED`. The XML tree is a value; `find` and `findall` are
 * modelled for child paths such as "./A/B", the only ones the parser uses.
 */
module PubMed {
  import opened Wrappers
  import opened Strings
  import opened Seqs

  /** An XML element: its tag, attributes in document order, text and children. */
  datatype Element = Element(tag: string, attrs: seq<(string, string)>, text: Option<string>, children: seq<Element>)

  /** `e.get(name)`: the value of the attribute `name`, if present. */
  function Attr(e: Element, name: string): Option<string> {
    AttrIn(e.attrs, name)
  }

  /** The value of the first attribute called `name`. */
  function AttrIn(attrs: seq<(string, string)>, name: string): Option<string> {
    if |attrs| == 0 then None
    else if attrs[0].0 == name then Some(attrs[0].1)
    else AttrIn(attrs[1..], name)
  }

  // ---------------------------------------------------------------------
  // find, findall, text_or_none, combine
  // ---------------------------------------------------------------------

  /**
   * `node.findall("./" + join(path, "/"))`: the elements reached by following
   * the tags of `path` from child to child, in document order.
   */
  function FindAllIn(node: Element, path: seq<string>): seq<Element>
    decreases |path|, 1
  {
    if |path| == 0 then [node] else Matching(node.children, path)
  }

  /** The elements reached by `path` from those of `cs` whose tag is `path[0]`. */
  function Matching(cs: seq<Element>, path: seq<string>): seq<Element>
    requires |path| > 0
    decreases |path|, 0, |cs|
  {
    if |cs| == 0 then []
    else Matching(cs[..|cs| - 1], path) + (if cs[|cs| - 1].tag == path[0] then FindAllIn(cs[|cs| - 1], path[1..]) else [])
  }

  /** One step of a path reaches exactly the children with that tag. */
  lemma {:induction false} MatchingOne(cs: seq<Element>, tag: string, e: Element)
    ensures e in Matching(cs, [tag]) <==> e in cs && e.tag == tag
  {
    if |cs| > 0 {
      var init := cs[..|cs| - 1];
      MatchingOne(init, tag, e);
      assert [tag][1..] == [];
      assert cs == init + [cs[|cs| - 1]];
    }
  }

  /**
   * Two steps reach exactly the children tagged `b` of the children tagged
   * `a`.
   */
  lemma {:induction false} MatchingTwo(cs: seq<Element>, a: string, b: string, e: Element)
    ensures e in Matching(cs, [a, b]) <==> exists c :: c in cs && c.tag == a && e in c.children && e.tag == b
  {
    if |cs| > 0 {
      var init := cs[..|cs| - 1];
      var last := cs[|cs| - 1];
      MatchingTwo(init, a, b, e);
      assert [a, b][1..] == [b];
      MatchingOne(last.children, b, e);
      assert cs == init + [last];
      if e in Matching(cs, [a, b]) && !(e in Matching(init, [a, b])) {
        assert last in cs;
      }
    }
  }

  /** `find_one`: the first element `findall` gives, and nothing for no node. */
  function FindOne(node: Option<Element>, path: seq<string>): Option<Element>
  {
    if node.None? then None
    else
      var all := FindAllIn(node.value, path);
      if |all| == 0 then None else Some(all[0])
  }

  /** `find_all`: what `findall` gives, and nothing for no node. */
  function FindAll(node: Option<Element>, path: seq<string>): seq<Element>
  {
    if node.None? then [] else FindAllIn(node.value, path)
  }

  /**
   * `text_or_none`: the stripped text of the node, and nothing when the node
   * or its text is missing.
   */
  function TextOrNone(node: Option<Element>): Option<string>
  {
    if node.Some? && node.value.text.Some? then Some(Strip(node.value.text.value)) else None
  }

  /**
   * `text_or_none` gives a text exactly for a node with text, and then a
   * slice of that text, between whitespace only, that neither starts nor
   * ends with whitespace.
   */
  lemma TextOrNoneSpec(node: Option<Element>)
    ensures TextOrNone(node).Some? <==> node.Some? && node.value.text.Some?
    ensures TextOrNone(node).Some? ==>
      var s, t := node.value.text.value, TextOrNone(node).value;
      && (exists i, j :: 0 <= i <= j <= |s| && t == s[i..j] && AllSpace(s[..i]) && AllSpace(s[j..]))
      && (t == [] || (!IsSpace(t[0]) && !IsSpace(t[|t| - 1])))
  {
    if node.Some? && node.value.text.Some? {
      StripSpec(node.value.text.value);
    }
  }

  /** `combine`: the non-empty items joined by "|". */
  function Combine(items: seq<string>): string {
    Join(NonEmpty(items), "|")
  }

  /**
   * The combination is empty exactly when every item is, and without "|" in
   * any item it splits back into the non-empty items.
   */
  lemma CombineSpec(items: seq<string>)
    ensures Combine(items) == "" <==> forall i :: 0 <= i < |items| ==> items[i] == ""
    ensures ((exists i :: 0 <= i < |items| && items[i] != "") && (forall i :: 0 <= i < |items| ==> '|' !in items[i]))
              ==> Split(Combine(items), '|') == NonEmpty(items)
  {
    var kept := NonEmpty(items);
    if |kept| > 0 {
      assert kept[0] in kept;
      JoinPrefix(kept, "|");
      assert forall k :: 0 <= k < |kept| ==> kept[k] in kept;
      if forall i :: 0 <= i < |items| ==> '|' !in items[i] {
        SplitJoin(kept, '|');
      }
    } else {
      assert forall i :: 0 <= i < |items| ==> items[i] !in kept;
    }
  }

  /** `combine(["A", "", "B"])` is "A|B". */
  lemma CombineExample()
    ensures Combine(["A", "", "B"]) == "A|B"
  {
    assert NonEmpty(["A", "", "B"]) == ["A", "B"] by {
      assert ["A", "", "B"][1..] == ["", "B"];
      assert ["", "B"][1..] == ["B"];
      assert ["B"][1..] == [];
    }
  }

  /** `value or default` for an optional text. */
  function Or(o: Option<string>, default: string): (r: string)
    ensures default != "" ==> r != ""
    ensures o.Some? && o.value != "" ==> r == o.value
    ensures (o.None? || o.value == "") ==> r == default
  {
    if o.Some? && o.value != "" then o.value else default
  }

  /** `text or default` for a text. */
  function OrText(s: string, default: string): (r: string)
    ensures default != "" ==> r != ""
    ensures s != "" ==> r == s
  {
    if s != "" then s else default
  }

  // ---------------------------------------------------------------------
  // DOI
  // ---------------------------------------------------------------------

  /** A candidate element marked as a DOI through `attr` and carrying text. */
  predicate IsDoi(e: Element, attr: string) {
    Attr(e, attr) == Some("doi") && e.text.Some? && e.text.value != ""
  }

  /** The stripped text of the first DOI candidate of `cs` from position `i` on. */
  function FirstDoi(cs: seq<Element>, attr: string, i: nat): Option<string>
    decreases |cs| - i
  {
    if i >= |cs| then None
    else if IsDoi(cs[i], attr) then Some(Strip(cs[i].text.value))
    else FirstDoi(cs, attr, i + 1)
  }

  /**
   * No DOI is found exactly when no candidate is one; otherwise the text is
   * that of the first candidate that is.
   */
  lemma {:induction false} FirstDoiSpec(cs: seq<Element>, attr: string, i: nat)
    ensures FirstDoi(cs, attr, i).None? <==> forall k :: i <= k < |cs| ==> !IsDoi(cs[k], attr)
    ensures FirstDoi(cs, attr, i).Some? ==>
      exists k :: i <= k < |cs| && IsDoi(cs[k], attr) && FirstDoi(cs, attr, i).value == Strip(cs[k].text.value)
        && forall j :: i <= j < k ==> !IsDoi(cs[j], attr)
    decreases |cs| - i
  {
    if i < |cs| {
      var r := FirstDoi(cs, attr, i);
      if IsDoi(cs[i], attr) {
        assert IsDoi(cs[i], attr) && r.value == Strip(cs[i].text.value);
      } else {
        FirstDoiSpec(cs, attr, i + 1);
        if r.Some? {
          var k :| i + 1 <= k < |cs| && IsDoi(cs[k], attr) && r.value == Strip(cs[k].text.value)
                     && forall j :: i + 1 <= j < k ==> !IsDoi(cs[j], attr);
          assert forall j :: i <= j < k ==> !IsDoi(cs[j], attr);
        }
      }
    }
  }

  /** The ArticleId candidates of an article. */
  function ArticleIds(article: Element): seq<Element> {
    FindAllIn(article, ["ArticleIdList", "ArticleId"])
  }

  /** The ELocationID candidates of an article. */
  function ELocationIds(article: Element): seq<Element> {
    FindAllIn(article, ["ELocationID"])
  }

  /**
   * The DOI before normalisation: the ArticleIdList one when it gives a
   * non-empty text, otherwise the ELocationID one when there is one.
   */
  function RawDoi(article: Element): Option<string> {
    var a := FirstDoi(ArticleIds(article), "IdType", 0);
    if a.Some? && a.value != "" then a
    else
      var b := FirstDoi(ELocationIds(article), "EIdType", 0);
      if b.Some? then b else a
  }

  /** The URL prefixes tried, in order, after the "doi:" prefix. */
  const DoiPrefixes := ["https://doi.org/", "http://doi.org/", "doi.org/"]

  /** Stripping the first of the prefixes from position `k` on that `d` starts with, ignoring case. */
  function StripUrl(d: string, k: nat): string
    decreases |DoiPrefixes| - k
  {
    if k >= |DoiPrefixes| then d
    else if StartsWith(Lower(d), DoiPrefixes[k]) then Strip(d[|DoiPrefixes[k]|..])
    else StripUrl(d, k + 1)
  }

  /** The DOI with a leading "doi:" (any case) removed, then at most one URL prefix. */
  function NormalizeDoi(doi: string): string {
    var d := if StartsWith(Lower(doi), "doi:") then Strip(doi[4..]) else doi;
    StripUrl(d, 0)
  }

  /** The DOI of an article (`None` without an article or any candidate). */
  function DoiOf(article: Option<Element>): Option<string> {
    if article.None? then None
    else
      var raw := RawDoi(article.value);
      if raw.Some? && raw.value != "" then Some(NormalizeDoi(raw.value)) else raw
  }

  /** An ArticleIdList DOI with text wins over any ELocationID DOI. */
  lemma DoiPrefersArticleId(article: Element, k: nat)
    requires k < |ArticleIds(article)| && IsDoi(ArticleIds(article)[k], "IdType")
    requires forall j :: 0 <= j < k ==> !IsDoi(ArticleIds(article)[j], "IdType")
    requires Strip(ArticleIds(article)[k].text.value) != ""
    ensures DoiOf(Some(article)) == Some(NormalizeDoi(Strip(ArticleIds(article)[k].text.value)))
  {
    var ids := ArticleIds(article);
    FirstDoiSpec(ids, "IdType", 0);
    var a := FirstDoi(ids, "IdType", 0);
    var i :| 0 <= i < |ids| && IsDoi(ids[i], "IdType") && a.value == Strip(ids[i].text.value)
               && forall j :: 0 <= j < i ==> !IsDoi(ids[j], "IdType");
    assert i == k;
  }

  /** Without an ArticleIdList DOI, the first ELocationID DOI is used. */
  lemma DoiFallsBack(article: Element)
    requires forall j :: 0 <= j < |ArticleIds(article)| ==> !IsDoi(ArticleIds(article)[j], "IdType")
    ensures RawDoi(article) == FirstDoi(ELocationIds(article), "EIdType", 0)
  {
    FirstDoiSpec(ArticleIds(article), "IdType", 0);
  }

  /** "doi:", in any case, is removed and what follows is stripped. */
  lemma DoiColonRemoved(doi: string)
    requires |doi| >= 4 && Lower(doi[..4]) == "doi:"
    ensures NormalizeDoi(doi) == StripUrl(Strip(doi[4..]), 0)
  {
    assert Lower(doi)[..4] == Lower(doi[..4]);
  }

  /**
   * The first URL prefix (from position `j` on) that the DOI starts with,
   * ignoring case, is removed and the rest stripped; no later prefix is
   * looked at.
   */
  lemma {:induction false} StripUrlFirstMatch(d: string, j: nat, k: nat)
    requires j <= k < |DoiPrefixes|
    requires StartsWith(Lower(d), DoiPrefixes[k])
    requires forall m :: j <= m < k ==> !StartsWith(Lower(d), DoiPrefixes[m])
    ensures StripUrl(d, j) == Strip(d[|DoiPrefixes[k]|..])
    decreases k - j
  {
    if j < k {
      StripUrlFirstMatch(d, j + 1, k);
    }
  }

  /** A DOI starting with none of the URL prefixes is left as it is. */
  lemma {:induction false} StripUrlNoMatch(d: string, j: nat)
    requires forall m :: j <= m < |DoiPrefixes| ==> !StartsWith(Lower(d), DoiPrefixes[m])
    ensures StripUrl(d, j) == d
    decreases |DoiPrefixes| - j
  {
    if j < |DoiPrefixes| {
      StripUrlNoMatch(d, j + 1);
    }
  }

  /** The DOI search of `parse_pubmed_article`, with its two loops stopping at the first DOI. */
  method FindDoi(article: Element) returns (doi: Option<string>)
    ensures doi == DoiOf(Some(article))
  {
    doi := None;
    var ids := ArticleIds(article);
    var i := 0;
    while i < |ids|
      invariant i <= |ids| && doi.None?
      invariant FirstDoi(ids, "IdType", 0) == FirstDoi(ids, "IdType", i)
    {
      var a := ids[i];
      if Attr(a, "IdType") == Some("doi") && a.text.Some? && a.text.value != "" {
        doi := Some(Strip(a.text.value));
        break;
      }
      i := i + 1;
    }
    assert doi == FirstDoi(ids, "IdType", 0);
    if !(doi.Some? && doi.value != "") {
      var locs := ELocationIds(article);
      var j := 0;
      while j < |locs|
        invariant j <= |locs|
        invariant FirstDoi(locs, "EIdType", 0) == FirstDoi(locs, "EIdType", j)
      {
        var el := locs[j];
        if Attr(el, "EIdType") == Some("doi") && el.text.Some? && el.text.value != "" {
          doi := Some(Strip(el.text.value));
          break;
        }
        j := j + 1;
      }
    }
    assert doi == RawDoi(article);
    if doi.Some? && doi.value != "" {
      var d := doi.value;
      if StartsWith(Lower(d), "doi:") {
        d := Strip(d[4..]);
      }
      var d0 := d;
      var k := 0;
      while k < |DoiPrefixes|
        invariant k <= |DoiPrefixes| && d == d0
        invariant StripUrl(d0, 0) == StripUrl(d0, k)
      {
        var pref := DoiPrefixes[k];
        if StartsWith(Lower(d), pref) {
          d := Strip(d[|pref|..]);
          break;
        }
        k := k + 1;
      }
      doi := Some(d);
    }
  }

  // ---------------------------------------------------------------------
  // Abstract and lists
  // ---------------------------------------------------------------------

  /** A segment whose stripped text is not empty. */
  predicate HasText(seg: Element) {
    var t := TextOrNone(Some(seg));
    t.Some? && t.value != ""
  }

  /** The text one abstract segment contributes: "Label: text" when labelled, nothing if empty. */
  function SegmentPart(seg: Element): (r: seq<string>)
    ensures |r| <= 1 && forall x :: x in r ==> x != ""
    ensures r == [] <==> !HasText(seg)
  {
    var t := TextOrNone(Some(seg));
    if t.Some? && t.value != "" then
      var caption := Attr(seg, "Label");
      [if caption.Some? && caption.value != "" then caption.value + ": " + t.value else t.value]
    else []
  }

  /** The parts of all segments, in order. */
  function Parts(segs: seq<Element>): (r: seq<string>)
    ensures forall x :: x in r ==> x != ""
  {
    if |segs| == 0 then [] else Parts(segs[..|segs| - 1]) + SegmentPart(segs[|segs| - 1])
  }

  /** There are no parts exactly when no segment has text. */
  lemma {:induction false} PartsEmpty(segs: seq<Element>)
    ensures Parts(segs) == [] <==> forall k :: 0 <= k < |segs| ==> !HasText(segs[k])
  {
    if |segs| > 0 {
      var init, last := segs[..|segs| - 1], segs[|segs| - 1];
      PartsEmpty(init);
      assert Parts(segs) == Parts(init) + SegmentPart(last);
      assert (Parts(segs) == []) == (Parts(init) == [] && SegmentPart(last) == []);
      assert forall k :: 0 <= k < |init| ==> init[k] == segs[k];
      assert (forall k :: 0 <= k < |segs| ==> !HasText(segs[k]))
          == ((forall k :: 0 <= k < |init| ==> !HasText(init[k])) && !HasText(last));
    }
  }

  /** The abstract segments of an article. */
  function Segments(article: Element): seq<Element> {
    FindAllIn(article, ["Abstract", "AbstractText"])
  }

  /**
   * The abstract: the parts joined by " ", or, with no usable segment, the
   * text of the first segment.
   */
  function AbstractOf(article: Option<Element>): Option<string> {
    if article.None? then None
    else
      var segs := Segments(article.value);
      var joined := if |segs| > 0 && |Parts(segs)| > 0 then Some(Join(Parts(segs), " ")) else None;
      if joined.None? then TextOrNone(FindOne(article, ["Abstract", "AbstractText"])) else joined
  }

  /**
   * The abstract column is "-" when no segment has text, and the joined
   * parts otherwise.
   */
  lemma AbstractColumn(article: Element)
    ensures Parts(Segments(article)) == [] ==> Or(AbstractOf(Some(article)), "-") == "-"
    ensures Parts(Segments(article)) != [] ==>
      Or(AbstractOf(Some(article)), "-") == Join(Parts(Segments(article)), " ")
  {
    var segs := Segments(article);
    var parts := Parts(segs);
    PartsEmpty(segs);
    if parts == [] && |segs| > 0 {
      assert !HasText(segs[0]);
    }
    if parts != [] {
      assert parts[0] in parts;
      JoinPrefix(parts, " ");
    }
  }

  /** The abstract parts loop of `parse_pubmed_article`. */
  method AbstractParts(segs: seq<Element>) returns (parts: seq<string>)
    ensures parts == Parts(segs)
  {
    parts := [];
    for i := 0 to |segs|
      invariant parts == Parts(segs[..i])
    {
      assert segs[..i + 1][..i] == segs[..i];
      var seg := segs[i];
      var segText := TextOrNone(Some(seg));
      if segText.Some? && segText.value != "" {
        var caption := Attr(seg, "Label");
        parts := parts + [if caption.Some? && caption.value != "" then caption.value + ": " + segText.value else segText.value];
      }
    }
    assert segs[..|segs|] == segs;
  }

  /** The stripped text of the first element `path` reaches below `node`. */
  function TextAt(node: Element, path: seq<string>): Option<string> {
    TextOrNone(FindOne(Some(node), path))
  }

  /** The non-empty texts found at `path` below each node, in order. */
  function TextsAt(nodes: seq<Element>, path: seq<string>): (r: seq<string>)
    ensures forall x :: x in r ==> x != ""
  {
    if |nodes| == 0 then []
    else
      var t := TextAt(nodes[|nodes| - 1], path);
      TextsAt(nodes[..|nodes| - 1], path) + (if t.Some? && t.value != "" then [t.value] else [])
  }

  /** A text found at `path` below one of the nodes is kept. */
  lemma {:induction false} TextsAtMembers(nodes: seq<Element>, path: seq<string>, x: string)
    ensures x in TextsAt(nodes, path) <==>
      x != "" && exists k :: 0 <= k < |nodes| && TextAt(nodes[k], path) == Some(x)
  {
    if |nodes| == 0 {
      assert TextsAt(nodes, path) == [];
    } else {
      var init, last := nodes[..|nodes| - 1], nodes[|nodes| - 1];
      TextsAtMembers(init, path, x);
      var t := TextAt(last, path);
      assert TextsAt(nodes, path) == TextsAt(init, path) + (if t.Some? && t.value != "" then [t.value] else []);
      if x in TextsAt(nodes, path) {
        if x in TextsAt(init, path) {
          var k :| 0 <= k < |init| && TextAt(init[k], path) == Some(x);
          assert nodes[k] == init[k];
        } else {
          assert TextAt(nodes[|nodes| - 1], path) == Some(x);
        }
      }
      if x != "" && exists k :: 0 <= k < |nodes| && TextAt(nodes[k], path) == Some(x) {
        var k :| 0 <= k < |nodes| && TextAt(nodes[k], path) == Some(x);
        if k < |init| {
          assert init[k] == nodes[k];
        }
      }
    }
  }

  /** The qualifiers of every heading, heading by heading. */
  function Qualifiers(headings: seq<Element>): (r: seq<string>)
    ensures forall x :: x in r ==> x != ""
  {
    if |headings| == 0 then []
    else Qualifiers(headings[..|headings| - 1]) + TextsAt(FindAllIn(headings[|headings| - 1], ["QualifierName"]), [])
  }

  /** The qualifier loop of one MeSH heading. */
  method HeadingQualifiers(mh: Element) returns (found: seq<string>)
    ensures found == TextsAt(FindAllIn(mh, ["QualifierName"]), [])
  {
    var qs := FindAllIn(mh, ["QualifierName"]);
    found := [];
    for j := 0 to |qs|
      invariant found == TextsAt(qs[..j], [])
    {
      assert qs[..j + 1][..j] == qs[..j];
      var qt := TextOrNone(Some(qs[j]));
      assert FindOne(Some(qs[j]), []) == Some(qs[j]);
      if qt.Some? && qt.value != "" {
        found := found + [qt.value];
      }
    }
    assert qs[..|qs|] == qs;
  }

  /** The MeSH loop of `parse_pubmed_article`: descriptors and qualifiers of every heading. */
  method MeshTerms(headings: seq<Element>) returns (descriptors: seq<string>, qualifiers: seq<string>)
    ensures descriptors == TextsAt(headings, ["DescriptorName"])
    ensures qualifiers == Qualifiers(headings)
  {
    descriptors, qualifiers := [], [];
    for i := 0 to |headings|
      invariant descriptors == TextsAt(headings[..i], ["DescriptorName"])
      invariant qualifiers == Qualifiers(headings[..i])
    {
      assert headings[..i + 1][..i] == headings[..i];
      var mh := headings[i];
      var d := TextOrNone(FindOne(Some(mh), ["DescriptorName"]));
      if d.Some? && d.value != "" {
        descriptors := descriptors + [d.value];
      }
      var found := HeadingQualifiers(mh);
      qualifiers := qualifiers + found;
    }
    assert headings[..|headings|] == headings;
  }

  /** The chemicals loop of `parse_pubmed_article`. */
  method ChemicalNames(chems: seq<Element>) returns (names: seq<string>)
    ensures names == TextsAt(chems, ["NameOfSubstance"])
  {
    names := [];
    for i := 0 to |chems|
      invariant names == TextsAt(chems[..i], ["NameOfSubstance"])
    {
      assert chems[..i + 1][..i] == chems[..i];
      var nos := TextOrNone(FindOne(Some(chems[i]), ["NameOfSubstance"]));
      if nos.Some? && nos.value != "" {
        names := names + [nos.value];
      }
    }
    assert chems[..|chems|] == chems;
  }

  // ---------------------------------------------------------------------
  // The record
  // ---------------------------------------------------------------------

  /** The twenty fields of a parsed article, in the order of the returned dict. */
  datatype Article = Article(
    pmid: string, doi: string, articleTitle: string, abstractText: string, journalTitle: string,
    issn: string, volume: string, issue: string, startPage: string, endPage: string,
    publicationType: string, meshDescriptors: string, meshQualifiers: string, chemicalList: string,
    dayRevised: string, monthRevised: string, yearRevised: string,
    yearCompleted: string, monthCompleted: string, dayCompleted: string)

  /** One date part: "" when the date element is missing, else the part's text if any. */
  function DatePart(mc: Option<Element>, date: string, part: string): Option<string> {
    var dr := FindOne(mc, [date]);
    if dr.Some? then TextOrNone(FindOne(dr, [part])) else Some("")
  }

  /** The children of the first `list` element of `mc` tagged `item`, or none without the list. */
  function ListItems(mc: Option<Element>, list: string, item: string): seq<Element> {
    var node := FindOne(mc, [list]);
    if node.Some? then FindAllIn(node.value, [item]) else []
  }

  /** `parse_pubmed_article` as a function of the element tree. */
  function ArticleOf(art: Element): Article {
    var mc := FindOne(Some(art), ["MedlineCitation"]);
    var article := if mc.Some? then FindOne(mc, ["Article"]) else None;
    var journal := if article.Some? then FindOne(article, ["Journal"]) else None;
    var journalIssue := if journal.Some? then FindOne(journal, ["JournalIssue"]) else None;
    var pagination := if article.Some? then FindOne(article, ["Pagination"]) else None;
    var pmid := if mc.Some? then TextOrNone(FindOne(mc, ["PMID"])) else None;
    var title := if article.Some? then TextOrNone(FindOne(article, ["ArticleTitle"])) else None;
    var pubtypes := TextsAt(FindAll(article, ["PublicationTypeList", "PublicationType"]), []);
    var headings := ListItems(mc, "MeshHeadingList", "MeshHeading");
    Article(
      Or(pmid, ""),
      Or(DoiOf(article), ""),
      Or(title, "-"),
      Or(AbstractOf(article), "-"),
      Or(TextOrNone(FindOne(journal, ["Title"])), "-"),
      Or(TextOrNone(FindOne(journal, ["ISSN"])), ""),
      Or(TextOrNone(FindOne(journalIssue, ["Volume"])), "0"),
      Or(TextOrNone(FindOne(journalIssue, ["Issue"])), "0"),
      Or(TextOrNone(FindOne(pagination, ["StartPage"])), "0"),
      Or(TextOrNone(FindOne(pagination, ["EndPage"])), "0"),
      OrText(Combine(pubtypes), "unknown"),
      OrText(Combine(TextsAt(headings, ["DescriptorName"])), "unknown"),
      OrText(Combine(Qualifiers(headings)), "unknown"),
      OrText(Combine(TextsAt(ListItems(mc, "ChemicalList", "Chemical"), ["NameOfSubstance"])), "unknown"),
      Or(DatePart(mc, "DateRevised", "Day"), "0"),
      Or(DatePart(mc, "DateRevised", "Month"), "0"),
      Or(DatePart(mc, "DateRevised", "Year"), "0"),
      Or(DatePart(mc, "DateCompleted", "Year"), "0"),
      Or(DatePart(mc, "DateCompleted", "Month"), "0"),
      Or(DatePart(mc, "DateCompleted", "Day"), "0"))
  }

  /** `parse_pubmed_article`: the record read through the DOI, abstract, MeSH and chemical loops. */
  method ParseArticle(art: Element) returns (r: Article)
    ensures r == ArticleOf(art)
  {
    var mc := FindOne(Some(art), ["MedlineCitation"]);
    var article := if mc.Some? then FindOne(mc, ["Article"]) else None;
    var doi: Option<string> := None;
    var articleAbstract: Option<string> := None;
    if article.Some? {
      doi := FindDoi(article.value);
      var segs := Segments(article.value);
      if |segs| > 0 {
        var parts := AbstractParts(segs);
        articleAbstract := if |parts| > 0 then Some(Join(parts, " ")) else None;
      }
      if articleAbstract.None? {
        articleAbstract := TextOrNone(FindOne(article, ["Abstract", "AbstractText"]));
      }
    }
    var headings := ListItems(mc, "MeshHeadingList", "MeshHeading");
    var descriptors, qualifiers := MeshTerms(headings);
    var chemicals := ChemicalNames(ListItems(mc, "ChemicalList", "Chemical"));
    var a := ArticleOf(art);
    r := a.(doi := Or(doi, ""), abstractText := Or(articleAbstract, "-"),
            meshDescriptors := OrText(Combine(descriptors), "unknown"),
            meshQualifiers := OrText(Combine(qualifiers), "unknown"),
            chemicalList := OrText(Combine(chemicals), "unknown"));
  }

  /**
   * The fields with a non-empty default are never empty, whatever the
   * element: titles and abstract "-", numbers "0", lists "unknown".
   */
  lemma DefaultsNonEmpty(art: Element)
    ensures var a := ArticleOf(art);
      && a.articleTitle != "" && a.abstractText != "" && a.journalTitle != ""
      && a.volume != "" && a.issue != "" && a.startPage != "" && a.endPage != ""
      && a.publicationType != "" && a.meshDescriptors != "" && a.meshQualifiers != "" && a.chemicalList != ""
      && a.dayRevised != "" && a.monthRevised != "" && a.yearRevised != ""
      && a.yearCompleted != "" && a.monthCompleted != "" && a.dayCompleted != ""
  {
  }

  /** An element without a `MedlineCitation` gives every default. */
  lemma MissingCitation(art: Element)
    requires forall k :: 0 <= k < |art.children| ==> art.children[k].tag != "MedlineCitation"
    ensures ArticleOf(art) == Article("", "", "-", "-", "-", "", "0", "0", "0", "0",
                                      "unknown", "unknown", "unknown", "unknown", "0", "0", "0", "0", "0", "0")
  {
    var none: seq<Element> := [];
    assert FindAllIn(art, ["MedlineCitation"]) == none by {
      var m := Matching(art.children, ["MedlineCitation"]);
      if |m| > 0 {
        MatchingOne(art.children, "MedlineCitation", m[0]);
      }
    }
    assert NonEmpty([]) == [];
  }

  // ---------------------------------------------------------------------
  // Keys
  // ---------------------------------------------------------------------

  /** The keys of the returned dict, in order. */
  const ArticleKeys := [
    "PubMed.PMID", "PubMed.DOI", "PubMed.ArticleTitle", "PubMed.Abstract", "PubMed.JournalTitle",
    "PubMed.ISSN", "PubMed.Volume", "PubMed.Issue", "PubMed.StartPage", "PubMed.EndPage",
    "PubMed.PublicationType", "PubMed.MeSH_Descriptors", "PubMed.MeSH_Qualifiers", "PubMed.ChemicalList",
    "PubMed.DayRevised", "PubMed.MonthRevised", "PubMed.YearRevised",
    "PubMed.YearCompleted", "PubMed.MonthCompleted", "PubMed.DayCompleted"]

  /** The extra key of `EMPTY_PUBMED`. */
  const ErrorKey := "PubMed.Error"

  /** The fields of a record, in key order. */
  function Values(a: Article): (r: seq<string>)
    ensures |r| == |ArticleKeys|
  {
    [a.pmid, a.doi, a.articleTitle, a.abstractText, a.journalTitle,
     a.issn, a.volume, a.issue, a.startPage, a.endPage,
     a.publicationType, a.meshDescriptors, a.meshQualifiers, a.chemicalList,
     a.dayRevised, a.monthRevised, a.yearRevised,
     a.yearCompleted, a.monthCompleted, a.dayCompleted]
  }

  /** The dict built from parallel keys and values; a later key overwrites an earlier one. */
  function Zip(keys: seq<string>, values: seq<string>): (m: map<string, string>)
    requires |keys| == |values|
    ensures forall k :: k in m <==> k in keys
  {
    if |keys| == 0 then map[]
    else Zip(keys[..|keys| - 1], values[..|values| - 1])[keys[|keys| - 1] := values[|values| - 1]]
  }

  /** With distinct keys, each key maps to its own value. */
  lemma {:induction false} ZipLookup(keys: seq<string>, values: seq<string>, i: nat)
    requires |keys| == |values| && NoDup(keys) && i < |keys|
    ensures Zip(keys, values)[keys[i]] == values[i]
  {
    if i < |keys| - 1 {
      var ki, vi := keys[..|keys| - 1], values[..|values| - 1];
      assert ki[i] == keys[i] && vi[i] == values[i];
      ZipLookup(ki, vi, i);
    }
  }

  /** The dict `parse_pubmed_article` returns. */
  function AsDict(a: Article): map<string, string> {
    Zip(ArticleKeys, Values(a))
  }

  /** `EMPTY_PUBMED`: the twenty keys and "PubMed.Error", all empty. */
  function EmptyPubMed(): map<string, string> {
    Zip(ArticleKeys + [ErrorKey], seq(|ArticleKeys| + 1, _ => ""))
  }

  /** The twenty keys are distinct and do not include the error key. */
  lemma ArticleKeysDistinct()
    ensures |ArticleKeys| == 20 && NoDup(ArticleKeys + [ErrorKey])
  {
  }

  /** Every parsed record has exactly the twenty keys, each holding its field. */
  lemma DictKeys(a: Article)
    ensures AsDict(a).Keys == set k | k in ArticleKeys
    ensures forall i :: 0 <= i < |ArticleKeys| ==> AsDict(a)[ArticleKeys[i]] == Values(a)[i]
  {
    ArticleKeysDistinct();
    assert NoDup(ArticleKeys) by {
      var keys := ArticleKeys + [ErrorKey];
      assert forall i :: 0 <= i < |ArticleKeys| ==> ArticleKeys[i] == keys[i];
    }
    forall i | 0 <= i < |ArticleKeys| ensures AsDict(a)[ArticleKeys[i]] == Values(a)[i] {
      ZipLookup(ArticleKeys, Values(a), i);
    }
  }

  /** `EMPTY_PUBMED` has the twenty keys and the error key, all mapped to "". */
  lemma EmptyPubMedSpec()
    ensures EmptyPubMed().Keys == (set k | k in ArticleKeys) + {ErrorKey}
    ensures forall k :: k in EmptyPubMed() ==> EmptyPubMed()[k] == ""
  {
    ArticleKeysDistinct();
    var keys := ArticleKeys + [ErrorKey];
    var blanks := seq(|ArticleKeys| + 1, _ => "");
    forall k | k in EmptyPubMed() ensures EmptyPubMed()[k] == "" {
      var i :| 0 <= i < |keys| && keys[i] == k;
      ZipLookup(keys, blanks, i);
    }
  }
}
