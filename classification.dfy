/**
 * The classification de-duplication pipeline of
 * library/classification_library.py: token cleaning of pipe-delimited
 * name lists, required-column validation, lower-casing of text columns, and
 * the whole-table stages `get_table`, `build_base`, `get_multyply` and
 * `main_process` over a sequence of rows.
 */
module Classification {
  import opened Wrappers
  import opened Strings
  import opened Seqs
  import opened Columns

  // ---------------------------------------------------------------------
  // Frames
  // ---------------------------------------------------------------------

  /** A table cell: text, or missing (`NaN` as read, `pd.NA` once typed as "string"). */
  datatype Cell = Text(s: string) | Na

  /** A table: its header and one column-to-cell map per row. */
  datatype Frame = Frame(columns: seq<string>, rows: seq<map<string, Cell>>)

  /** The cell of `row` in column `col`, missing when the row has no such column. */
  function CellOf(row: map<string, Cell>, col: string): Cell {
    if col in row then row[col] else Na
  }

  // ---------------------------------------------------------------------
  // to_lower_if_text
  // ---------------------------------------------------------------------

  /** `x.lower() if isinstance(x, str) else x`. */
  function LowerCell(c: Cell): (r: Cell)
    ensures c.Na? <==> r.Na?
    ensures c.Text? ==> r.s == Lower(c.s)
  {
    match c
    case Text(s) => Text(Lower(s))
    case Na => Na
  }

  /** One column of every row passed through `LowerCell`. */
  function LowerColumn(rows: seq<map<string, Cell>>, col: string): (r: seq<map<string, Cell>>)
    ensures |r| == |rows|
    ensures forall i :: 0 <= i < |rows| ==> r[i] == if col in rows[i] then rows[i][col := LowerCell(rows[i][col])] else rows[i]
  {
    seq(|rows|, i requires 0 <= i < |rows| =>
      if col in rows[i] then rows[i][col := LowerCell(rows[i][col])] else rows[i])
  }

  /** The frame after the first `|cols|` iterations of `to_lower_if_text`'s loop. */
  function LowerColumns(df: Frame, cols: seq<string>): (r: Frame)
    ensures r.columns == df.columns && |r.rows| == |df.rows|
  {
    if |cols| == 0 then df
    else
      var prev := LowerColumns(df, cols[..|cols| - 1]);
      var col := cols[|cols| - 1];
      if col in prev.columns then Frame(prev.columns, LowerColumn(prev.rows, col)) else prev
  }

  /**
   * `to_lower_if_text` changes only listed columns that the frame has, and
   * there it lower-cases text cells and keeps missing ones; every row keeps
   * its set of columns.
   */
  lemma {:induction false} LowerColumnsCells(df: Frame, cols: seq<string>, i: nat, k: string)
    requires i < |df.rows|
    ensures LowerColumns(df, cols).rows[i].Keys == df.rows[i].Keys
    ensures k in df.rows[i] ==>
      LowerColumns(df, cols).rows[i][k] == if k in cols && k in df.columns then LowerCell(df.rows[i][k]) else df.rows[i][k]
  {
    if |cols| > 0 {
      var init := cols[..|cols| - 1];
      LowerColumnsCells(df, init, i, k);
      assert cols == init + [cols[|cols| - 1]];
      if k in df.rows[i] && k in init && k in df.columns {
        match df.rows[i][k]
        case Text(s) => LowerIdempotent(s);
        case Na =>
      }
    }
  }

  /** `to_lower_if_text`: lower-case the text cells of each listed column the frame has. */
  method ToLowerIfText(df: Frame, columns: seq<string>) returns (result: Frame)
    ensures result == LowerColumns(df, columns)
  {
    result := df;
    for i := 0 to |columns|
      invariant result == LowerColumns(df, columns[..i])
    {
      assert columns[..i + 1][..i] == columns[..i];
      if columns[i] in result.columns {
        result := Frame(result.columns, LowerColumn(result.rows, columns[i]));
      }
    }
    assert columns[..|columns|] == columns;
  }

  // ---------------------------------------------------------------------
  // split_and_clean
  // ---------------------------------------------------------------------

  /** `[t for t in texts if t is not None and str(t) != ""]`. */
  function Present(texts: seq<Option<string>>): (r: seq<string>)
    ensures forall x :: x in r <==> x != "" && Some(x) in texts
  {
    if |texts| == 0 then []
    else
      var rest := Present(texts[1..]);
      assert texts == [texts[0]] + texts[1..];
      (if texts[0].Some? && texts[0].value != "" then [texts[0].value] else []) + rest
  }

  /** One segment stripped and with every "synonyms=" removed. */
  function CleanToken(t: string): string {
    RemoveAll(Strip(t), "synonyms=")
  }

  /** `no_tag`: each segment cleaned, in order. */
  function CleanEach(segments: seq<string>): (r: seq<string>)
    ensures |r| == |segments| && forall k :: 0 <= k < |segments| ==> r[k] == CleanToken(segments[k])
  {
    seq(|segments|, k requires 0 <= k < |segments| => CleanToken(segments[k]))
  }

  /** `non_empty`: the non-empty cleaned "|"-segments of the present texts, in order. */
  function CleanTokens(texts: seq<Option<string>>): seq<string> {
    NonEmpty(CleanEach(Flatten(SplitAll(Present(texts)))))
  }

  /** What `split_and_clean` returns: the cleaned tokens, each kept at its first occurrence. */
  function Cleaned(texts: seq<Option<string>>): seq<string> {
    Dedup(CleanTokens(texts))
  }

  /** One step of the first-seen loop. */
  lemma DedupStep<T(!new)>(xs: seq<T>, i: nat)
    requires i < |xs|
    ensures Dedup(xs[..i + 1]) == if xs[i] in Dedup(xs[..i]) then Dedup(xs[..i]) else Dedup(xs[..i]) + [xs[i]]
  {
    assert xs[..i + 1][..i] == xs[..i];
  }

  /** `split_and_clean`: the cleaning pipeline, then a seen-set loop keeping first occurrences. */
  method SplitAndClean(texts: seq<Option<string>>) returns (unique: seq<string>)
    ensures unique == Cleaned(texts)
  {
    var nonEmpty := CleanTokens(texts);
    var seen: set<string> := {};
    unique := [];
    for i := 0 to |nonEmpty|
      invariant unique == Dedup(nonEmpty[..i])
      invariant forall x :: x in seen <==> x in unique
    {
      DedupStep(nonEmpty, i);
      var item := nonEmpty[i];
      if item !in seen {
        seen := seen + {item};
        unique := unique + [item];
      }
    }
    assert nonEmpty[..|nonEmpty|] == nonEmpty;
  }

  /** A cleaned segment of a "|"-free segment is "|"-free. */
  lemma CleanTokenNoBar(t: string)
    requires '|' !in t
    ensures '|' !in CleanToken(t)
  {
    if '|' in CleanToken(t) {
      StripChars(t, '|');
    }
  }

  /** A cleaned token comes from a "|"-segment of a present, non-empty input. */
  lemma CleanedSource(texts: seq<Option<string>>, x: string)
    requires x in CleanTokens(texts)
    ensures x != "" && '|' !in x
    ensures exists t, seg :: Some(t) in texts && t != "" && seg in Split(t, '|') && x == CleanToken(seg)
  {
    var present := Present(texts);
    var pieces := SplitAll(present);
    var flat := Flatten(pieces);
    var cleaned := CleanEach(flat);
    var k :| 0 <= k < |cleaned| && cleaned[k] == x;
    assert flat[k] in flat;
    var j :| 0 <= j < |pieces| && flat[k] in pieces[j];
    assert present[j] in present;
    CleanTokenNoBar(flat[k]);
    assert Some(present[j]) in texts && present[j] != "" && flat[k] in Split(present[j], '|');
  }

  /** Every non-empty cleaned "|"-segment of a present, non-empty input is a token. */
  lemma CleanedComplete(texts: seq<Option<string>>, t: string, seg: string)
    requires Some(t) in texts && t != "" && seg in Split(t, '|') && CleanToken(seg) != ""
    ensures CleanToken(seg) in CleanTokens(texts)
  {
    var present := Present(texts);
    var pieces := SplitAll(present);
    var flat := Flatten(pieces);
    var j :| 0 <= j < |present| && present[j] == t;
    assert seg in pieces[j];
    assert seg in flat;
    var k :| 0 <= k < |flat| && flat[k] == seg;
    assert CleanEach(flat)[k] == CleanToken(seg);
  }

  /**
   * `split_and_clean` yields distinct, non-empty, "|"-free tokens, and a
   * token is in the result exactly when it is the cleaned form of a
   * "|"-segment of some present, non-empty input.
   */
  lemma CleanedSpec(texts: seq<Option<string>>, x: string)
    ensures NoDup(Cleaned(texts))
    ensures x in Cleaned(texts) ==> x != "" && '|' !in x
    ensures x in Cleaned(texts) <==>
      x != "" && exists t, seg :: Some(t) in texts && t != "" && seg in Split(t, '|') && x == CleanToken(seg)
  {
    DedupSpec(CleanTokens(texts));
    if x in Cleaned(texts) {
      CleanedSource(texts, x);
    }
    if x != "" && exists t, seg :: Some(t) in texts && t != "" && seg in Split(t, '|') && x == CleanToken(seg) {
      var t, seg :| Some(t) in texts && t != "" && seg in Split(t, '|') && x == CleanToken(seg);
      CleanedComplete(texts, t, seg);
    }
  }

  /** Missing and empty inputs contribute nothing. */
  lemma CleanedIgnoresAbsent(texts: seq<Option<string>>)
    ensures Cleaned(texts + [None]) == Cleaned(texts)
    ensures Cleaned(texts + [Some("")]) == Cleaned(texts)
  {
    PresentAbsent(texts, None);
    PresentAbsent(texts, Some(""));
  }

  lemma {:induction false} PresentAbsent(texts: seq<Option<string>>, t: Option<string>)
    requires t == None || t == Some("")
    ensures Present(texts + [t]) == Present(texts)
  {
    if |texts| > 0 {
      PresentAbsent(texts[1..], t);
      assert (texts + [t])[1..] == texts[1..] + [t];
    }
  }

  // ---------------------------------------------------------------------
  // validate_columns
  // ---------------------------------------------------------------------

  /** The message prefix of `validate_columns`, which is `CheckColumns` with it. */
  const MissingRequiredPrefix := "Missing required columns: "

  // ---------------------------------------------------------------------
  // get_table
  // ---------------------------------------------------------------------

  /** The columns `get_table` requires, in the order they are reported. */
  const TableColumns: seq<string> := [
    "chembl_id", "target_id", "IUPHAR_family_id", "IUPHAR_type", "IUPHAR_class",
    "IUPHAR_subclass", "IUPHAR_chain", "full_id_path", "full_name_path", "gene",
    "component_description", "names_x", "chembl_alternative_name"]

  /** The columns `get_table` lower-cases. */
  const LoweredColumns: seq<string> := [
    "component_description", "pref_name", "gene", "chembl_alternative_name",
    "names_x", "cellular_component_x", "subcellular_location_x", "topology_x"]

  /** The ten columns `get_table` groups by. */
  datatype GroupKey = GroupKey(
    chemblId: Cell, targetId: Cell, familyId: Cell, typeName: Cell, className: Cell,
    subclassName: Cell, chain: Cell, fullIdPath: Cell, fullNamePath: Cell, geneName: Cell)

  /** A row of `get_table`'s result: its group, one alternative name, and its position. */
  datatype TableRow = TableRow(key: GroupKey, altName: string, index: nat)

  /** `gene.str.split("|").str[0]`: the first segment of a text cell; missing stays missing. */
  function FirstSegment(c: Cell): (r: Cell)
    ensures c.Na? <==> r.Na?
    ensures c.Text? ==> '|' !in r.s && StartsWith(c.s, r.s)
    ensures c.Text? ==> r.s == c.s || (|r.s| < |c.s| && c.s[|r.s|] == '|')
  {
    match c
    case Na => Na
    case Text(g) =>
      SplitHead(g, '|');
      JoinSplit(g, '|');
      JoinPrefix(Split(g, '|'), "|");
      Text(Split(g, '|')[0])
  }

  /** The group key of a (lower-cased) source row. */
  function KeyOf(row: map<string, Cell>): GroupKey {
    GroupKey(CellOf(row, "chembl_id"), CellOf(row, "target_id"), CellOf(row, "IUPHAR_family_id"),
             CellOf(row, "IUPHAR_type"), CellOf(row, "IUPHAR_class"), CellOf(row, "IUPHAR_subclass"),
             CellOf(row, "IUPHAR_chain"), CellOf(row, "full_id_path"), CellOf(row, "full_name_path"),
             FirstSegment(CellOf(row, "gene")))
  }

  /**
   * How `get_table` hands a cell to `split_and_clean`, as written: a missing
   * cell is `pd.NA`, which passes the `is not None` test and reads as "<NA>".
   */
  function AltArgAsWritten(c: Cell): Option<string> {
    match c
    case Text(s) => Some(s)
    case Na => Some("<NA>")
  }

  /** The evidently intended argument: a missing cell is skipped like `None`. */
  function AltArg(c: Cell): (r: Option<string>)
    ensures r.None? <==> c.Na?
  {
    match c
    case Text(s) => Some(s)
    case Na => None
  }

  /** The four cells the alternative names are built from. */
  function AltCells(row: map<string, Cell>): seq<Cell> {
    [CellOf(row, "gene"), CellOf(row, "component_description"), CellOf(row, "names_x"),
     CellOf(row, "chembl_alternative_name")]
  }

  /** The `_alternative_names` of a row, as written. */
  function AltNamesAsWritten(row: map<string, Cell>): seq<string> {
    var c := AltCells(row);
    Cleaned([AltArgAsWritten(c[0]), AltArgAsWritten(c[1]), AltArgAsWritten(c[2]), AltArgAsWritten(c[3])])
  }

  /** The `_alternative_names` of a row, with missing cells skipped. */
  function AltNames(row: map<string, Cell>): seq<string> {
    var c := AltCells(row);
    Cleaned([AltArg(c[0]), AltArg(c[1]), AltArg(c[2]), AltArg(c[3])])
  }

  /** As written, a row whose gene cell is missing gets the alternative name "<NA>". */
  lemma MissingGeneAsWritten(row: map<string, Cell>)
    requires CellOf(row, "gene").Na?
    ensures "<NA>" in AltNamesAsWritten(row)
  {
    var c := AltCells(row);
    var texts := [AltArgAsWritten(c[0]), AltArgAsWritten(c[1]), AltArgAsWritten(c[2]), AltArgAsWritten(c[3])];
    assert texts[0] == Some("<NA>");
    SplitNoSep("<NA>", '|');
    StripNoSpace("<NA>");
    RemoveAllShort("<NA>", "synonyms=");
    CleanedComplete(texts, "<NA>", "<NA>");
    DedupSpec(CleanTokens(texts));
  }

  /** With missing cells skipped, a row whose four name cells are all missing has no alternative name. */
  lemma MissingCellsSkipped(row: map<string, Cell>)
    requires forall c :: c in AltCells(row) ==> c.Na?
    ensures AltNames(row) == []
  {
    var c := AltCells(row);
    assert c[0] in c && c[1] in c && c[2] in c && c[3] in c;
    PresentNone([AltArg(c[0]), AltArg(c[1]), AltArg(c[2]), AltArg(c[3])]);
  }

  lemma {:induction false} PresentNone(texts: seq<Option<string>>)
    requires forall k :: 0 <= k < |texts| ==> texts[k] == None
    ensures Present(texts) == []
  {
    if |texts| > 0 {
      PresentNone(texts[1..]);
    }
  }

  /** One selected row: the group key and the alternative names. */
  function Select(rows: seq<map<string, Cell>>): (r: seq<(GroupKey, seq<string>)>)
    ensures |r| == |rows| && forall i :: 0 <= i < |rows| ==> r[i] == (KeyOf(rows[i]), AltNames(rows[i]))
  {
    seq(|rows|, i requires 0 <= i < |rows| => (KeyOf(rows[i]), AltNames(rows[i])))
  }

  /** The keys of the selected rows, each at its first occurrence. */
  function GroupKeys(sel: seq<(GroupKey, seq<string>)>): seq<GroupKey> {
    Dedup(seq(|sel|, i requires 0 <= i < |sel| => sel[i].0))
  }

  /** The name lists of the rows with key `k`, concatenated in row order. */
  function NamesWithKey(sel: seq<(GroupKey, seq<string>)>, k: GroupKey): seq<string> {
    if |sel| == 0 then []
    else (if sel[0].0 == k then sel[0].1 else []) + NamesWithKey(sel[1..], k)
  }

  /** A name is listed for key `k` exactly when some row with that key has it. */
  lemma {:induction false} NamesWithKeyMembers(sel: seq<(GroupKey, seq<string>)>, k: GroupKey, x: string)
    ensures x in NamesWithKey(sel, k) <==> exists i :: 0 <= i < |sel| && sel[i].0 == k && x in sel[i].1
  {
    if |sel| > 0 {
      NamesWithKeyMembers(sel[1..], k, x);
      if exists i :: 0 <= i < |sel| && sel[i].0 == k && x in sel[i].1 {
        var i :| 0 <= i < |sel| && sel[i].0 == k && x in sel[i].1;
        if i > 0 {
          assert sel[1..][i - 1] == sel[i];
        }
      }
      if x in NamesWithKey(sel[1..], k) {
        var i :| 0 <= i < |sel[1..]| && sel[1..][i].0 == k && x in sel[1..][i].1;
        assert sel[i + 1] == sel[1..][i];
      }
    }
  }

  /** `combine_unique` over one group: its names in first-seen order, without repeats. */
  function GroupNames(sel: seq<(GroupKey, seq<string>)>, k: GroupKey): seq<string> {
    Dedup(NamesWithKey(sel, k))
  }

  /** `combine_unique` keeps each name of the group once and adds none. */
  lemma GroupNamesSpec(sel: seq<(GroupKey, seq<string>)>, k: GroupKey, x: string)
    ensures NoDup(GroupNames(sel, k))
    ensures x in GroupNames(sel, k) <==> exists i :: 0 <= i < |sel| && sel[i].0 == k && x in sel[i].1
  {
    DedupSpec(NamesWithKey(sel, k));
    NamesWithKeyMembers(sel, k, x);
  }

  /** `explode` of one group, then the filter on non-empty names. */
  function ExplodeGroup(k: GroupKey, names: seq<string>): (r: seq<(GroupKey, string)>)
    ensures forall p :: p in r <==> p.0 == k && p.1 in names && p.1 != ""
  {
    var kept := NonEmpty(names);
    var r := seq(|kept|, j requires 0 <= j < |kept| => (k, kept[j]));
    assert forall p :: p in r ==> p.0 == k && p.1 in kept;
    assert forall n :: n in kept ==> (k, n) in r by {
      forall n | n in kept ensures (k, n) in r {
        var j :| 0 <= j < |kept| && kept[j] == n;
        assert r[j] == (k, n);
      }
    }
    r
  }

  /** The exploded groups in first-seen order of their keys. */
  function Exploded(sel: seq<(GroupKey, seq<string>)>): seq<(GroupKey, string)> {
    var keys := GroupKeys(sel);
    Flatten(seq(|keys|, i requires 0 <= i < |keys| => ExplodeGroup(keys[i], GroupNames(sel, keys[i]))))
  }

  /** An exploded pair has a non-empty name that some row of its group contributed. */
  lemma ExplodedMembers(sel: seq<(GroupKey, seq<string>)>, p: (GroupKey, string))
    requires p in Exploded(sel)
    ensures p.1 != ""
    ensures exists j :: 0 <= j < |sel| && sel[j].0 == p.0 && p.1 in sel[j].1
  {
    var keys := GroupKeys(sel);
    var groups := seq(|keys|, g requires 0 <= g < |keys| => ExplodeGroup(keys[g], GroupNames(sel, keys[g])));
    assert p in Flatten(groups);
    var g :| 0 <= g < |groups| && p in groups[g];
    GroupNamesSpec(sel, keys[g], p.1);
  }

  /** One exploded group lists each of its names once. */
  lemma ExplodeGroupNoDup(k: GroupKey, names: seq<string>)
    requires NoDup(names)
    ensures NoDup(ExplodeGroup(k, names))
  {
    NonEmptyNoDup(names);
  }

  /** Every non-empty name of every selected row is exploded under that row's key. */
  lemma ExplodedComplete(sel: seq<(GroupKey, seq<string>)>, j: nat, x: string)
    requires j < |sel| && x in sel[j].1 && x != ""
    ensures (sel[j].0, x) in Exploded(sel)
  {
    var keys := GroupKeys(sel);
    var all := seq(|sel|, i requires 0 <= i < |sel| => sel[i].0);
    assert all[j] == sel[j].0;
    DedupSpec(all);
    assert keys == Dedup(all);
    assert sel[j].0 in keys;
    var g :| 0 <= g < |keys| && keys[g] == sel[j].0;
    GroupNamesSpec(sel, keys[g], x);
    var groups := seq(|keys|, h requires 0 <= h < |keys| => ExplodeGroup(keys[h], GroupNames(sel, keys[h])));
    assert (sel[j].0, x) in groups[g];
  }

  /** No (key, name) pair is exploded twice: the groups have distinct keys and distinct names. */
  lemma ExplodedNoDup(sel: seq<(GroupKey, seq<string>)>)
    ensures NoDup(Exploded(sel))
  {
    var keys := GroupKeys(sel);
    DedupSpec(seq(|sel|, i requires 0 <= i < |sel| => sel[i].0));
    var groups := seq(|keys|, h requires 0 <= h < |keys| => ExplodeGroup(keys[h], GroupNames(sel, keys[h])));
    forall h | 0 <= h < |groups| ensures NoDup(groups[h]) {
      GroupNamesSpec(sel, keys[h], "");
      ExplodeGroupNoDup(keys[h], GroupNames(sel, keys[h]));
    }
    forall h1, h2, p: (GroupKey, string) | 0 <= h1 < h2 < |groups| && p in groups[h1] ensures p !in groups[h2] {
      assert p.0 == keys[h1] && keys[h1] != keys[h2];
    }
    FlattenNoDup(groups);
  }

  /** `filtered["Index"] = range(len(filtered))`. */
  function Numbered(ex: seq<(GroupKey, string)>): (r: seq<TableRow>)
    ensures |r| == |ex| && forall i :: 0 <= i < |ex| ==> r[i] == TableRow(ex[i].0, ex[i].1, i)
  {
    seq(|ex|, i requires 0 <= i < |ex| => TableRow(ex[i].0, ex[i].1, i))
  }

  /** The lower-cased source rows, each as its group key and alternative names. */
  function Selected(source: Frame): seq<(GroupKey, seq<string>)> {
    Select(LowerColumns(source, LoweredColumns).rows)
  }

  /**
   * `get_table`: validate the columns, lower-case the text columns, take
   * the group key and alternative names of each row, combine the names per
   * group, explode, drop empty names and number the rows.
   */
  function GetTable(source: Frame): (r: Result<seq<TableRow>>)
    ensures r.Success? <==> forall c :: c in TableColumns ==> c in source.columns
    ensures r.Failure? ==> r.error == "Missing required columns: " + Join(Missing(source.columns, TableColumns), ", ")
    ensures r.Success? ==> r.value == Numbered(Exploded(Selected(source)))
  {
    match CheckColumns(MissingRequiredPrefix, source.columns, TableColumns)
    case Fail(e) => Failure(e)
    case Pass => Success(Numbered(Exploded(Selected(source))))
  }

  /**
   * Every row of `get_table` is numbered by its position, has a non-empty
   * alternative name, and that name is one of the names some source row of
   * its group contributed.
   */
  lemma GetTableRows(source: Frame, i: nat)
    requires forall c :: c in TableColumns ==> c in source.columns
    requires i < |GetTable(source).value|
    ensures var sel := Selected(source);
      var row := GetTable(source).value[i];
      && row.index == i
      && row.altName != ""
      && exists j :: 0 <= j < |sel| && sel[j].0 == row.key && row.altName in sel[j].1
  {
    var sel := Selected(source);
    var ex := Exploded(sel);
    assert ex[i] in ex;
    ExplodedMembers(sel, ex[i]);
  }

  /** Every non-empty name of every selected row is a row of `get_table` under that row's group key. */
  lemma GetTableComplete(source: Frame)
    requires forall c :: c in TableColumns ==> c in source.columns
    ensures var sel := Selected(source);
      var rows := GetTable(source).value;
      forall j, x :: 0 <= j < |sel| && x in sel[j].1 && x != "" ==>
        exists i :: 0 <= i < |rows| && rows[i].key == sel[j].0 && rows[i].altName == x
  {
    var sel := Selected(source);
    var rows := GetTable(source).value;
    var ex := Exploded(sel);
    forall j, x | 0 <= j < |sel| && x in sel[j].1 && x != ""
      ensures exists i :: 0 <= i < |rows| && rows[i].key == sel[j].0 && rows[i].altName == x
    {
      ExplodedComplete(sel, j, x);
      var i :| 0 <= i < |ex| && ex[i] == (sel[j].0, x);
      assert rows[i] == TableRow(sel[j].0, x, i);
    }
  }

  /** A group key and name occur in at most one row of `get_table`. */
  lemma GetTableOnce(source: Frame)
    requires forall c :: c in TableColumns ==> c in source.columns
    ensures var rows := GetTable(source).value;
      forall i1, i2 ::
        (0 <= i1 < |rows| && 0 <= i2 < |rows| && rows[i1].key == rows[i2].key && rows[i1].altName == rows[i2].altName)
        ==> i1 == i2
  {
    var rows := GetTable(source).value;
    var ex := Exploded(Selected(source));
    ExplodedNoDup(Selected(source));
    forall i1, i2 | 0 <= i1 < |rows| && 0 <= i2 < |rows| && rows[i1].key == rows[i2].key
      && rows[i1].altName == rows[i2].altName
      ensures i1 == i2
    {
      assert ex[i1] == ex[i2];
    }
  }

  // ---------------------------------------------------------------------
  // build_base
  // ---------------------------------------------------------------------

  /** The two merged keys `build_base` drops. */
  const ExcludedKeys: set<string> := {"521825", "3271956"}

  /**
   * A row of `build_base`: the left row's chembl id, gene name, alternative
   * name and index; the matched row's key (its chembl id and gene name are
   * "chembl_id.1" and "gene_name.1"); `gene_match`; and `Merged`.
   */
  datatype BaseRow = BaseRow(
    chemblId: Cell, geneName: Cell, altName: string, index: nat,
    right: GroupKey, geneMatch: bool, merged: Cell)

  /** A row of `done`: a non-empty name and a type. */
  predicate Typed(t: TableRow) {
    t.altName != "" && t.key.typeName.Text?
  }

  /** A row of `filter_null_type`: no type. */
  predicate Untyped(t: TableRow) {
    t.key.typeName.Na?
  }

  /**
   * `gene_name == gene_name.1`: the gene-name columns hold objects, and an
   * element-wise `==` on objects is false when either side is missing.
   */
  function GeneMatch(a: Cell, b: Cell): (r: bool)
    ensures r <==> a.Text? && b.Text? && a.s == b.s
    ensures a.Na? || b.Na? ==> !r
  {
    a.Text? && b.Text? && a.s == b.s
  }

  /** `Merged`: the family id as text followed by the index; missing when the family id is. */
  function MergedKey(familyId: Cell, index: nat): (r: Cell)
    ensures r.Text? <==> familyId.Text?
    ensures familyId.Text? ==> r.s == familyId.s + NatToString(index)
  {
    match familyId
    case Text(f) => Text(f + NatToString(index))
    case Na => Na
  }

  /** A left row joined with a matching right row. */
  function Combine(l: TableRow, d: TableRow): BaseRow {
    BaseRow(l.key.chemblId, l.key.geneName, l.altName, l.index, d.key,
            GeneMatch(l.key.geneName, d.key.geneName), MergedKey(d.key.familyId, l.index))
  }

  /** The key of an unmatched right side: every column missing. */
  const NoMatch := GroupKey(Na, Na, Na, Na, Na, Na, Na, Na, Na, Na)

  /** A left row with no match: the right-hand columns are missing. */
  function Unmatched(l: TableRow): BaseRow {
    BaseRow(l.key.chemblId, l.key.geneName, l.altName, l.index, NoMatch,
            GeneMatch(l.key.geneName, Na), MergedKey(Na, l.index))
  }

  /** The right rows whose alternative name is `name`, in order. */
  function SameName(done: seq<TableRow>, name: string): (r: seq<TableRow>)
    ensures forall d :: d in r <==> d in done && d.altName == name
  {
    if |done| == 0 then []
    else
      assert done == [done[0]] + done[1..];
      (if done[0].altName == name then [done[0]] else []) + SameName(done[1..], name)
  }

  /** The rows a left merge produces for one left row. */
  function JoinOne(l: TableRow, done: seq<TableRow>): (r: seq<BaseRow>)
    ensures forall b :: b in r <==>
      (b == Unmatched(l) && |SameName(done, l.altName)| == 0)
      || exists d :: d in SameName(done, l.altName) && b == Combine(l, d)
  {
    var m := SameName(done, l.altName);
    if |m| == 0 then [Unmatched(l)]
    else
      var r := seq(|m|, j requires 0 <= j < |m| => Combine(l, m[j]));
      assert forall d :: d in m ==> Combine(l, d) in r by {
        forall d | d in m ensures Combine(l, d) in r {
          var j :| 0 <= j < |m| && m[j] == d;
          assert r[j] == Combine(l, d);
        }
      }
      r
  }

  /** `filter_null_type.merge(done, on="_alternative_names", how="left")`, in left order. */
  function LeftJoin(left: seq<TableRow>, done: seq<TableRow>): seq<BaseRow> {
    Flatten(seq(|left|, i requires 0 <= i < |left| => JoinOne(left[i], done)))
  }

  /** `keep_with_type`: the matched side has a type. */
  predicate HasRightType(b: BaseRow) {
    b.right.typeName.Text?
  }

  /** The `isin` exclusion; a missing key is never excluded. */
  predicate NotExcluded(b: BaseRow) {
    !(b.merged.Text? && b.merged.s in ExcludedKeys)
  }

  /**
   * `build_base`: untyped rows joined on their alternative name with the
   * typed rows, kept when the match has a type and the merged key is not
   * excluded.
   */
  function BuildBase(source: seq<TableRow>): seq<BaseRow> {
    Filter(Filter(LeftJoin(Filter(source, Untyped), Filter(source, Typed)), HasRightType), NotExcluded)
  }

  /** A joined row comes from one left row. */
  lemma LeftJoinMembers(left: seq<TableRow>, done: seq<TableRow>, b: BaseRow)
    ensures b in LeftJoin(left, done) <==> exists i :: 0 <= i < |left| && b in JoinOne(left[i], done)
  {
    var groups := seq(|left|, i requires 0 <= i < |left| => JoinOne(left[i], done));
    assert LeftJoin(left, done) == Flatten(groups);
    if exists i :: 0 <= i < |left| && b in JoinOne(left[i], done) {
      var i :| 0 <= i < |left| && b in JoinOne(left[i], done);
      assert b in groups[i];
    }
  }

  /** The typed rows kept by `build_base` are matched rows. */
  lemma BuildBaseSource(source: seq<TableRow>, b: BaseRow)
    requires b in BuildBase(source)
    ensures exists l, d :: l in source && Untyped(l) && d in source && Typed(d) && d.altName == l.altName
                           && b == Combine(l, d) && NotExcluded(b)
  {
    var left := Filter(source, Untyped);
    var done := Filter(source, Typed);
    LeftJoinMembers(left, done, b);
    var i :| 0 <= i < |left| && b in JoinOne(left[i], done);
    assert left[i] in left;
    assert !HasRightType(Unmatched(left[i]));
    var d :| d in SameName(done, left[i].altName) && b == Combine(left[i], d);
    assert left[i] in source && Untyped(left[i]) && d in source && Typed(d);
  }

  /** Every matched untyped row whose merged key is not excluded is kept. */
  lemma BuildBaseComplete(source: seq<TableRow>, l: TableRow, d: TableRow)
    requires l in source && Untyped(l) && d in source && Typed(d) && d.altName == l.altName
    requires NotExcluded(Combine(l, d))
    ensures Combine(l, d) in BuildBase(source)
  {
    var left := Filter(source, Untyped);
    var done := Filter(source, Typed);
    var i :| 0 <= i < |left| && left[i] == l;
    assert d in SameName(done, l.altName);
    LeftJoinMembers(left, done, Combine(l, d));
  }

  /**
   * A `build_base` row is exactly an untyped row combined with a typed row
   * of the same alternative name whose merged key is not excluded.
   */
  lemma BuildBaseMembers(source: seq<TableRow>, b: BaseRow)
    ensures b in BuildBase(source) <==>
      exists l, d :: l in source && Untyped(l) && d in source && Typed(d) && d.altName == l.altName
                     && b == Combine(l, d) && NotExcluded(b)
  {
    if b in BuildBase(source) {
      BuildBaseSource(source, b);
    }
    if exists l, d :: l in source && Untyped(l) && d in source && Typed(d) && d.altName == l.altName
                      && b == Combine(l, d) && NotExcluded(b) {
      var l, d :| l in source && Untyped(l) && d in source && Typed(d) && d.altName == l.altName
                  && b == Combine(l, d) && NotExcluded(b);
      BuildBaseComplete(source, l, d);
    }
  }

  /** Every `build_base` row has a type and a merged key that is not excluded. */
  lemma BuildBaseRows(source: seq<TableRow>, b: BaseRow)
    requires b in BuildBase(source)
    ensures b.right.typeName.Text? && NotExcluded(b)
    ensures b.geneMatch == GeneMatch(b.geneName, b.right.geneName)
  {
    BuildBaseSource(source, b);
  }

  // ---------------------------------------------------------------------
  // get_multyply and main_process
  // ---------------------------------------------------------------------

  /** The merged keys `get_multyply` keeps. */
  const Whitelist: set<string> := {"176838", "3231184", "49639", "5721806", "7381101", "765326", "8401880"}

  /** The `(chembl_id, gene_name, Index)` key rows are counted by. */
  datatype CountKey = CountKey(chemblId: Cell, geneName: Cell, index: nat)

  function CountKeyOf(b: BaseRow): CountKey {
    CountKey(b.chemblId, b.geneName, b.index)
  }

  /** `groupby` drops rows with a missing key column. */
  predicate Countable(b: BaseRow) {
    b.chemblId.Text? && b.geneName.Text?
  }

  /** The base rows with key `k`, in order. */
  function RowsWithKey(base: seq<BaseRow>, k: CountKey): (r: seq<BaseRow>)
    ensures forall b :: b in r <==> b in base && CountKeyOf(b) == k
  {
    if |base| == 0 then []
    else
      assert base == [base[0]] + base[1..];
      (if CountKeyOf(base[0]) == k then [base[0]] else []) + RowsWithKey(base[1..], k)
  }

  /** `size()` of one group. */
  function Count(base: seq<BaseRow>, k: CountKey): nat {
    |RowsWithKey(base, k)|
  }

  /** The keys of the countable rows, each once, in first-seen order. */
  function CountKeys(base: seq<BaseRow>): (r: seq<CountKey>)
    ensures forall k :: k in r <==> exists b :: b in base && Countable(b) && CountKeyOf(b) == k
  {
    var countable := Filter(base, Countable);
    var ks := seq(|countable|, i requires 0 <= i < |countable| => CountKeyOf(countable[i]));
    DedupSpec(ks);
    assert forall b :: b in countable ==> CountKeyOf(b) in ks by {
      forall b | b in countable ensures CountKeyOf(b) in ks {
        var i :| 0 <= i < |countable| && countable[i] == b;
        assert ks[i] == CountKeyOf(b);
      }
    }
    Dedup(ks)
  }

  /** The keys among `keys` whose count is one (`single`) or other than one. */
  function KeysByCount(base: seq<BaseRow>, keys: seq<CountKey>, single: bool): (r: seq<CountKey>)
    ensures forall k :: k in r <==> k in keys && (Count(base, k) == 1 <==> single)
  {
    if |keys| == 0 then []
    else
      assert keys == [keys[0]] + keys[1..];
      (if (Count(base, keys[0]) == 1) == single then [keys[0]] else []) + KeysByCount(base, keys[1..], single)
  }

  /** `counts.merge(base, on=group_cols, how="left")`: the rows of each key, key by key. */
  function Expand(base: seq<BaseRow>, keys: seq<CountKey>): (r: seq<BaseRow>)
    ensures forall b :: b in r <==> b in base && CountKeyOf(b) in keys
  {
    var groups := seq(|keys|, i requires 0 <= i < |keys| => RowsWithKey(base, keys[i]));
    var r := Flatten(groups);
    assert forall b :: b in base && CountKeyOf(b) in keys ==> b in r by {
      forall b | b in base && CountKeyOf(b) in keys ensures b in r {
        var i :| 0 <= i < |keys| && keys[i] == CountKeyOf(b);
        assert b in groups[i];
      }
    }
    r
  }

  /** The `Merged` key is whitelisted. */
  predicate Whitelisted(b: BaseRow) {
    b.merged.Text? && b.merged.s in Whitelist
  }

  /** `get_multyply`: rows of groups whose size is not one, kept when their merged key is whitelisted. */
  function GetMultiply(source: seq<TableRow>): seq<BaseRow> {
    var base := BuildBase(source);
    Filter(Expand(base, KeysByCount(base, CountKeys(base), false)), Whitelisted)
  }

  /**
   * A `get_multyply` row is exactly a countable `build_base` row whose group
   * has a size other than one and whose merged key is whitelisted.
   */
  lemma GetMultiplyMembers(source: seq<TableRow>, b: BaseRow)
    ensures b in GetMultiply(source) <==>
      var base := BuildBase(source);
      b in base && Countable(b) && Count(base, CountKeyOf(b)) != 1 && Whitelisted(b)
  {
  }

  /** The rows of the groups of size one. */
  function Singles(base: seq<BaseRow>): seq<BaseRow> {
    Expand(base, KeysByCount(base, CountKeys(base), true))
  }

  /** A single is exactly a countable base row alone in its group. */
  lemma SinglesMembers(base: seq<BaseRow>, b: BaseRow)
    ensures b in Singles(base) <==> b in base && Countable(b) && Count(base, CountKeyOf(b)) == 1
  {
  }

  /**
   * `main_process`: `get_table`, then the rows of size-one groups of
   * `build_base` followed by the rows of `get_multyply`.
   */
  function MainProcess(df: Frame): (r: Result<seq<BaseRow>>)
    ensures r.Success? <==> GetTable(df).Success?
    ensures r.Failure? ==> r == Failure(GetTable(df).error)
    ensures r.Success? ==>
      r.value == Singles(BuildBase(GetTable(df).value)) + GetMultiply(GetTable(df).value)
  {
    match GetTable(df)
    case Failure(e) => Failure(e)
    case Success(t) => Success(Singles(BuildBase(t)) + GetMultiply(t))
  }

  /**
   * Every row of `main_process` is a `build_base` row of the table; it is
   * alone in its group, or its group is larger and its key whitelisted.
   */
  lemma MainProcessRows(df: Frame, b: BaseRow)
    requires MainProcess(df).Success? && b in MainProcess(df).value
    ensures var base := BuildBase(GetTable(df).value);
      && b in base && Countable(b)
      && (Count(base, CountKeyOf(b)) == 1 || Whitelisted(b))
      && NotExcluded(b) && b.right.typeName.Text?
  {
    var t := GetTable(df).value;
    var base := BuildBase(t);
    if b in Singles(base) {
      SinglesMembers(base, b);
    } else {
      GetMultiplyMembers(t, b);
    }
    BuildBaseRows(t, b);
  }
}
