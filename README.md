# ChEMBL data acquisition: a verified model of the IUPHAR classifier and its helpers

This project models, in Dafny, the deterministic core of a data-acquisition
toolkit. The toolkit annotates ChEMBL targets with IUPHAR/BPS Guide to
Pharmacology classifications and gathers names, taxonomy and bibliographic
fields from UniProt, PubChem and PubMed. The project then proves properties
of that model. All of the network and file access is left outside: tables,
JSON documents, XML trees and HTTP responses come in as values.

The modules follow the program's structure:

- `IupharIo` (`iuphar_io.dfy`) models the IUPHAR CSV loaders. It covers the
  legacy header rename, the required-column check, and the "every cell is a
  string, missing ones are empty" normalisation.
- `IupharData` (`iuphar_data.dfy`) models the catalogue, `IUPHARData`. It
  holds target rows, family rows, first-match record lookups and the joined
  target-id lookups. The parent-family walk `family_chain` is a method with
  a loop. So are the synonym lookup and the name path. The id and name paths
  are built on the walk.
- `IupharClassifier` (`iuphar_classifier.dfy`) models `ClassificationRecord`
  and `IUPHARClassifier`. It holds the validity predicates, type
  reconciliation, the keyword ladder, the EC rule table and chain map,
  `set_record`, the `by_*` entry points and the precedence of `get`.
- `IupharMapping` (`iuphar_mapping.dfy`) models the per-row output of
  `map_uniprot_file`.
- `Classification` (`classification.dfy`) models the dedup pipeline of the
  classification library over a sequence of row records. Its stages are
  token cleaning, column checks, lower-casing, `get_table`, `build_base`,
  `get_multyply` and `main_process`.
- `Json` and `Uniprot` (`json.dfy`, `uniprot.dfy`) model decoded JSON as
  `json.load` yields it. Over it they model the UniProt name harvesting, the
  organism and taxonomy rules, and the per-accession row of `collect_info`.
- `PubChem` (`pubchem.dfy`) models CID validation, CID extraction from
  SPARQL-style bindings, the sorted unique join, property defaulting and the
  compound row.
- `PubMed` (`pubmed.dfy`) models an XML element tree with child-path `find`,
  text extraction, DOI normalisation, abstract assembly, MeSH and chemical
  lists, the 20-field article record and the empty record.
- `Wrappers`, `Strings`, `Seqs` and `Columns` are shared helpers:
  - `Option` and `Result`;
  - Python's `strip`, `lower`, `split` and `join` on strings;
  - filtering, first-seen deduplication, insertion sort to a sorted unique
    list;
  - the missing-column list.

Where the source loops, the model is a method with a loop. The method is
proved equal to a recursive specification function, and the properties are
proved about that function:

- `family_chain`, `all_name` and `target_ids_by_synonyms`;
- `split_and_clean` and `to_lower_if_text`;
- the UniProt name helpers and `extract_organism`;
- `parse_pubmed_article` and its loops;
- `_extract_cids`.

`family_chain` has no cycle guard in the source. Its spec function
`ChainFrom` therefore walks with a fuel bound. The method `IupharData.FamilyChain`
requires only `Walk(families, start).Some?`, that is, that the one walk it
performs ends. Every other entry point that builds a chain requires
`Acyclic(families)`, which says that every walk ends within `|families| + 1`
steps. `IupharData.AcyclicIffAllTerminate` shows that this is
exactly "every walk terminates". `IupharData.SelfParentNeverTerminates` shows
a catalogue on which the source would loop forever.

## Model

| member | source | states |
|---|---|---|
| `IupharIo.RenameColumn` | IUPHAR/script/io_utils.py:73-80 | "HGNC_NAME" and "HGNC_name" become "hgnc_name", "HGNC_ID" and "HGNC_id" become "hgnc_id", every other header is kept, and no result is still a legacy header |
| `IupharIo.RenameColumns` | IUPHAR/script/io_utils.py:73-80 | renames each header in place and keeps the header count and order |
| `IupharIo.RenameIdempotent` | IUPHAR/script/io_utils.py:73-80 | renaming twice is the same as renaming once |
| `IupharIo.LegacyHeaderAccepted` | IUPHAR/script/io_utils.py:72-81 | a file with an HGNC_NAME or HGNC_name header gets an hgnc_name column |
| `IupharIo.FillNa` | IUPHAR/script/io_utils.py:71 | keeps the table's shape; each cell is its text, or "" when missing |
| `IupharIo.FilledCellEmpty` | IUPHAR/script/io_utils.py:71 | a loaded cell is "" exactly when the raw cell was missing or empty |
| `IupharIo.LoadTargets` | IUPHAR/script/io_utils.py:51-82 | succeeds iff all eight target columns are present after the rename; the table is the renamed header over the filled rows; the failure message lists the missing columns |
| `IupharIo.LoadFamilies` | IUPHAR/script/io_utils.py:85-106 | the same for the five family columns, with no renaming |
| `IupharIo.MissingGeneName` | IUPHAR/script/io_utils.py:11-20 | a target file without gene_name is refused with a message naming it |
| `Columns.CheckColumns` | IUPHAR/script/io_utils.py:31-48 | the column check of both loaders and of `validate_columns`: passes iff every expected column is present; otherwise the message is the prefix followed by the missing columns in expected order, and it names each of them |
| `Columns.MissingMembers` | IUPHAR/script/io_utils.py:46 | a column is reported missing iff it is expected and absent |
| `Columns.MissingAppend` | IUPHAR/script/io_utils.py:46 | the missing list of a concatenation of expectations is the concatenation of their missing lists, so the order is the expected order |
| `IupharData.TargetIndex` | mylib/transforms.py:236-240 | the index found is the lowest row with the target id; none is found iff no row has it |
| `IupharData.FamilyIndex` | mylib/transforms.py:294-298 | the index found is the lowest row with the family id; none is found iff no row has it |
| `IupharData.FromTargetRecord` | mylib/transforms.py:236-240 | none iff no target row has the id, otherwise the first row that has it |
| `IupharData.FromFamilyRecord` | mylib/transforms.py:294-298 | none iff no family row has the id, otherwise the first row that has it |
| `IupharData.FromTargetFamilyRecord` | mylib/transforms.py:242-249 | none iff no family row lists the target, otherwise the first family row whose "\|"-separated target ids include it |
| `IupharData.EmptyTargetIdMatchesUnlinkedFamily` | mylib/transforms.py:242-249 | the empty target id matches a first family whose target cell is empty, since splitting "" gives [""] |
| `IupharData.FromTargetFamilyId` | mylib/transforms.py:269-274 | "" when the target is unknown; otherwise the family id of the first row with that target id |
| `IupharData.FromTargetName` | mylib/transforms.py:251-253 | "" when the target is unknown; otherwise the name of the first row with that target id |
| `IupharData.FromTargetType` | mylib/transforms.py:255-260 | "" when the target is unknown; otherwise the type of the first row with that target id |
| `IupharData.FromTargetSynonyms` | mylib/transforms.py:262-267 | "" when the target is unknown; otherwise the synonyms of the first row with that target id |
| `IupharData.FromTargetParentFamily` | mylib/transforms.py:276-285 | "" when no family lists the target; otherwise the parent id of the first family row that lists it |
| `IupharData.FromFamilyType` | mylib/transforms.py:287-292 | "" when the family is unknown; otherwise the type of the first row with that family id |
| `IupharData.ParentOfSpec` | mylib/transforms.py:55-62 | the parent is "" for an unknown family and otherwise the parent cell of the first row with the id |
| `IupharData.ParentOfParentCell` | mylib/transforms.py:300-305 | a non-empty parent is the parent cell of some family row |
| `IupharData.MatchIds` | mylib/transforms.py:94-96 | an id is listed iff some row satisfying the query carries it |
| `IupharData.SelectTargetIds` | mylib/transforms.py:94-96 | duplicate-free, and holds exactly the ids of the matching rows |
| `IupharData.SelectTargetIdsOrder` | mylib/transforms.py:94-96 | the ids keep table order: their first occurrences among the matches come in the same order |
| `IupharData.SelectHead` | mylib/transforms.py:94-96 | the first id selected is that of the first matching row |
| `IupharData.TargetIdByUniprot` | mylib/transforms.py:98-100 | "" when no row has the accession, otherwise the target id of the first row that has it |
| `IupharData.JoinedIds` | mylib/transforms.py:102-114 | the joined ids are "" iff every matching row has an empty id |
| `IupharData.AllEmptyIds` | mylib/transforms.py:102-114 | no id is selected, or only "", iff every matching row has an empty id |
| `IupharData.JoinedIdsRoundTrip` | mylib/transforms.py:102-114 | splitting the joined ids on "\|" gives back the selected ids, in table order |
| `IupharData.TargetIdByHgncName` | mylib/transforms.py:102-106 | an empty HGNC name gives ""; otherwise the joined ids of the rows with that name |
| `IupharData.TargetIdByHgncId` | mylib/transforms.py:108-110 | the joined distinct target ids of the rows with that HGNC id (empty query included); "" iff none of them has a non-empty target id |
| `IupharData.TargetIdByGene` | mylib/transforms.py:112-114 | the joined distinct target ids of the rows with that gene (empty query included); "" iff none of them has a non-empty target id |
| `IupharData.TargetIdByName` | mylib/transforms.py:116-123 | an empty name gives ""; otherwise the joined distinct target ids of the rows whose lower-cased synonyms contain the lower-cased name |
| `IupharData.TargetIdByNameEmpty` | mylib/transforms.py:116-123 | for a non-empty name, "" iff no row whose lower-cased synonyms contain the lower-cased name has a target id |
| `IupharData.TargetIdsBySynonyms` | mylib/transforms.py:125-133 | the loop's result is the sorted unique "\|" join of the unambiguous hits of the synonyms longer than three characters |
| `IupharData.TargetIdsBySynonymsMembers` | mylib/transforms.py:125-133 | an id is in the result iff it has no "\|" and is what some synonym longer than three characters maps to |
| `IupharData.SynonymHitsMembers` | mylib/transforms.py:128-132 | a hit is kept iff it is unambiguous and some listed synonym maps to it |
| `IupharData.LookUpNames` | mylib/transforms.py:128-129 | one name lookup per synonym, in order |
| `IupharData.FamilyIdByName` | mylib/transforms.py:135-148 | an empty name gives ""; otherwise the sorted unique join of the family ids of the matched targets |
| `IupharData.LookUpFamilyIds` | mylib/transforms.py:146 | one family-id lookup per target id, in order |
| `IupharData.FamilyIdByNameMembers` | mylib/transforms.py:135-148 | the family list is sorted and duplicate-free, and holds exactly the non-empty family ids of the non-empty matched target ids |
| `IupharData.PiecesMembers` | mylib/transforms.py:150-160 | the candidate ids of a row are exactly the non-empty "\|"-pieces of its lookups, none containing "\|" |
| `IupharData.TargetIdFromRow` | mylib/transforms.py:150-160 | "N/A" when no lookup of the row gives an id |
| `IupharData.TargetIdFromRowFound` | mylib/transforms.py:150-160 | otherwise splitting the result gives the sorted unique candidate ids |
| `IupharData.ChainFromShape` | mylib/transforms.py:44-64 | "" gives []; otherwise the chain starts at the start id, each next id is the parent of the previous one, no id is empty, and the last one has no parent |
| `IupharData.ChainFromFuel` | mylib/transforms.py:51-64 | any two fuel bounds under which the walk ends give the same chain |
| `IupharData.ChainFromMoreFuel` | mylib/transforms.py:51-64 | more fuel than a terminating walk needs changes nothing |
| `IupharData.ChainFromSuffix` | mylib/transforms.py:51-64 | the walk from the k-th element of a chain ends with the remaining steps of fuel, and is the rest of the chain |
| `IupharData.SameStartSameChain` | mylib/transforms.py:51-64 | terminating walks from the same start have the same length |
| `IupharData.ChainFromDistinctAt` | mylib/transforms.py:51-64 | the ids of a terminating walk are pairwise distinct |
| `IupharData.ChainFromNoRepeat` | mylib/transforms.py:51-64 | a terminating walk never revisits a family |
| `IupharData.ChainFromExactFuel` | mylib/transforms.py:51-64 | a terminating walk needs exactly as much fuel as its length |
| `IupharData.FamilyIds` | mylib/transforms.py:294-298 | the set of family ids in the table |
| `IupharData.ChainFromInTable` | mylib/transforms.py:51-64 | every chain id that has a successor is a family id of the table |
| `IupharData.ChainFromLength` | mylib/transforms.py:51-64 | a terminating chain has at most one element more than the table has rows |
| `IupharData.TerminatesWithinBudget` | mylib/transforms.py:51-64 | a walk that terminates under any fuel terminates within the table-sized budget |
| `IupharData.AcyclicIffAllTerminate` | mylib/transforms.py:51-64 | the catalogue condition holds iff the walk from every id terminates |
| `IupharData.SelfParentNeverTerminates` | mylib/transforms.py:51-64 | a family that is its own parent makes the source loop forever |
| `IupharData.ChainShape` | mylib/transforms.py:44-64 | on an acyclic catalogue, the chain has the walk's shape and no repeated id |
| `IupharData.ChainStep` | mylib/transforms.py:58-63 | a chain from a non-empty id is that id followed by the chain from its parent |
| `IupharData.FamilyChain` | mylib/transforms.py:44-64 | the while loop builds exactly the walk's chain |
| `IupharData.AllId` | mylib/transforms.py:66-72 | "" iff the target has no family id |
| `IupharData.AllIdRoundTrip` | mylib/transforms.py:66-72 | the path is target id, "#", then the chain joined by ">", and splitting on "#" and ">" gives back the parts |
| `IupharData.NamesOf` | mylib/transforms.py:80-86 | one name lookup per chain id, in order |
| `IupharData.KeptNamesMembers` | mylib/transforms.py:82-86 | a name is kept iff it was found, is non-empty and is not "enzyme" in any case |
| `IupharData.ChainNamesMembers` | mylib/transforms.py:80-88 | a name is on the name path iff it is kept and belongs to a chain family |
| `IupharData.AllName` | mylib/transforms.py:74-92 | the loop builds the name path; it is "" iff the target has no family id |
| `IupharClassifier.NewRecord` | mylib/transforms.py:389-407 | a missing tree becomes the default tree and missing EC numbers become [] |
| `IupharClassifier.DefaultRecord` | mylib/transforms.py:389-407 | the defaults: "N/A" ids, status and name, the "Other Protein Target" class and subclass, the default type and the default tree |
| `IupharClassifier.Kept` | mylib/transforms.py:425 | dropping "" and "N/A" never lengthens the list |
| `IupharClassifier.KeptMembers` | mylib/transforms.py:424-434 | a value is kept iff it is listed and neither "" nor "N/A" |
| `IupharClassifier.KeptIdempotent` | mylib/transforms.py:424-434 | dropping the meaningless values twice changes nothing |
| `IupharClassifier.KeptAppend` | mylib/transforms.py:424-434 | the filter distributes over concatenation |
| `IupharClassifier.DefaultTreeNotValid` | mylib/transforms.py:428-429 | the default tree is not a valid list |
| `IupharClassifier.ValidListFacts` | mylib/transforms.py:424-434 | validity depends only on the kept values, and a list with no meaningful value is invalid |
| `IupharClassifier.FamilyToType` | mylib/transforms.py:436-439 | never ""; it is "N/A" or the type of a row with the family id, and it is that type whenever the source has one |
| `IupharClassifier.FamilyToChain` | mylib/transforms.py:441-444 | a valid family gives its chain, which starts at it; an invalid one gives [] |
| `IupharClassifier.TargetRecord` | mylib/transforms.py:446-453 | an invalid id gives none; a valid one gives the first record |
| `IupharClassifier.ReconcileTypes` | mylib/transforms.py:455-477 | never ""; prefers the target type, then the family type, then the default; the final "N/A.N/A" branch is never reached |
| `IupharClassifier.TargetToType` | mylib/transforms.py:455-477 | never ""; the default for an unknown target; otherwise the target's own type when valid, else its family's type when valid, else the default |
| `IupharClassifier.NameToType` | mylib/transforms.py:479-499 | an invalid name gives the default type |
| `IupharClassifier.FirstRule` | mylib/transforms.py:479-499 | the result is the default or the type of one of the rules from the cursor on |
| `IupharClassifier.KeywordLadderByTable` | mylib/transforms.py:479-499 | the if/elif ladder equals the first-match rule table |
| `IupharClassifier.LowerRungs` | mylib/transforms.py:489-499 | the lower rungs of the ladder: transporter, solute carrier, channel and hormone keywords |
| `IupharClassifier.NameToTypeByTable` | mylib/transforms.py:479-499 | a valid name is classified by the first rule matching its lower-cased form |
| `IupharClassifier.NameToTypeRange` | mylib/transforms.py:479-499 | every result is the default or one of the ladder's types |
| `IupharClassifier.ExampleKinase` | mylib/transforms.py:479-499 | "Example Kinase" is classified Enzyme.Transferase |
| `IupharClassifier.SplitType` | mylib/transforms.py:587-589 | the class is the part before the first "."; a type without "." gets the "Other Protein Target" subclass |
| `IupharClassifier.SplitTypeRoundTrip` | mylib/transforms.py:587-589 | a two-part type is class "." subclass |
| `IupharClassifier.SplitTypeOfJoin` | mylib/transforms.py:587-589 | splitting class "." subclass gives the pair back |
| `IupharClassifier.EcCodes` | mylib/transforms.py:523-543 | one leading numeral per EC number, in order |
| `IupharClassifier.LeadingCodesMembers` | mylib/transforms.py:523-543 | the distinct leading numerals are exactly the non-empty ones, without duplicates |
| `IupharClassifier.ClassOfCode` | mylib/transforms.py:523-543 | a single numeral never gives Multifunctional |
| `IupharClassifier.ClassOfCodeTable` | mylib/transforms.py:523-543 | numerals 1-7 map through the fixed class table; any other numeral gives no type |
| `IupharClassifier.EcTree` | mylib/transforms.py:502-520 | every EC chain has two elements |
| `IupharClassifier.EcTreeFromChainMap` | mylib/transforms.py:546-548 | the chain is the chain map's entry for the type, or the default tree |
| `IupharClassifier.EcRule` | mylib/transforms.py:523-543 | an invalid list gives no type, and so does a valid list in which no number has a leading numeral |
| `IupharClassifier.EcNumberToType` | mylib/transforms.py:523-543 | an invalid list gives "", and so does a valid list in which no number has a leading numeral |
| `IupharClassifier.EcMultifunctional` | mylib/transforms.py:523-543 | Multifunctional iff the list is valid and holds two different leading numerals |
| `IupharClassifier.TwoCodesWitness` | mylib/transforms.py:526-532 | more than one distinct numeral means two EC numbers with different numerals |
| `IupharClassifier.TwoCodesCount` | mylib/transforms.py:526-532 | two EC numbers with different numerals make more than one distinct numeral |
| `IupharClassifier.EcSingleClass` | mylib/transforms.py:533-543 | a valid list whose numerals are all c is classed by c |
| `IupharClassifier.EcNumberToChain` | mylib/transforms.py:546-548 | two elements, and the default tree for an invalid list |
| `IupharClassifier.ExampleOxidoreductase` | mylib/transforms.py:523-548 | "1.2.3.4" is Enzyme.Oxidoreductase with the chain ["0690-1", "0690"] |
| `IupharClassifier.TranslocaseDefaultTree` | mylib/transforms.py:502-548 | translocases, missing from the chain map, get the default tree |
| `IupharClassifier.DerivedStatus` | mylib/transforms.py:570-578 | the status is one of four values and is target_id iff the target id is valid |
| `IupharClassifier.SettledFamily` | mylib/transforms.py:565-567 | the given family id when it is valid or the target is not; otherwise the target's family id, or "N/A" when the target has none |
| `IupharClassifier.SettledType` | mylib/transforms.py:580-585 | the target's type, else the family's type, else the default; never "" |
| `IupharClassifier.TreeOf` | mylib/transforms.py:591-595 | a valid family gives its chain; otherwise the fallback tree |
| `IupharClassifier.SetRecord` | mylib/transforms.py:554-607 | the target id and name are the given ones or "N/A"; the family id is the given valid one, else the valid family of a valid target, else "N/A"; the type is the target's, else the valid family's, else the default, split into class and subclass; the EC numbers are the given non-empty valid list, else []; the tree is the family chain, headed by the family, or the default tree; the status is the given one or derived |
| `IupharClassifier.ByTargetId` | mylib/transforms.py:609-615 | an invalid or "\|"-containing id gives the default record; otherwise the record for the target and its family, with status target_id |
| `IupharClassifier.ByUniprotId` | mylib/transforms.py:617-628 | an unmatched accession gives the default; otherwise the record of the matched target id |
| `IupharClassifier.ByUniprotIdFirstRow` | mylib/transforms.py:617-628 | the first row with the accession decides the record's target id |
| `IupharClassifier.ByFamilyId` | mylib/transforms.py:630-635 | an invalid or "\|"-containing id gives the default record; otherwise a family record with status family_id |
| `IupharClassifier.ByFamilyIdTree` | mylib/transforms.py:630-635 | a family record has the family's chain as its tree and the family's type |
| `IupharClassifier.EcList` | mylib/transforms.py:640-644 | text without "." or "\|" gives []; otherwise the pieces join back to the text |
| `IupharClassifier.ByEcNumber` | mylib/transforms.py:637-663 | an invalid list gives the default record; otherwise status ec_number, the EC chain and the EC type when there is one |
| `IupharClassifier.ByName` | mylib/transforms.py:665-693 | an invalid name gives the default record; otherwise status name with the name; the target and family ids are the synonym lookups when valid, else "N/A"; the type is the found target's, else the found family's, else the keyword ladder's; the tree is the found family's chain or ["864-1", "864"] |
| `IupharClassifier.GetPrecedence` | mylib/transforms.py:695-726 | the target record when the target id is usable, else the family record, else the EC record, else the name record, else the default |
| `IupharClassifier.GetStatus` | mylib/transforms.py:695-726 | the status is one of five values, and "N/A" only for the default record |
| `IupharMapping.Classify` | mylib/transforms.py:200-220 | an empty id gives all-empty class fields; an unusable id gives the default fields; otherwise the target's type and its split, and either its valid family with the family chain joined by ">" or "N/A" with the default tree joined by ">" |
| `IupharMapping.ClassifyChainRoundTrip` | mylib/transforms.py:200-220 | splitting the chain field on ">" gives back the family chain |
| `IupharMapping.MapRow` | mylib/transforms.py:196-226 | a row carries the accession, its target id, the class fields of that id, and its id and name paths |
| `IupharMapping.MapUniprotColumn` | mylib/transforms.py:196-226 | one output row per accession, in order |
| `IupharMapping.UnknownAccession` | mylib/transforms.py:198-220 | an unknown accession gives an empty target id and empty class fields |
| `IupharMapping.KnownAccession` | mylib/transforms.py:198-226 | a known accession is classified as its first row's target |
| `Classification.LowerCell` | library/classification_library.py:72-74 | text cells are lower-cased, missing ones stay missing |
| `Classification.LowerColumn` | library/classification_library.py:71-74 | only that column is changed, row by row |
| `Classification.LowerColumns` | library/classification_library.py:69-75 | the copy keeps the header and the row count |
| `Classification.LowerColumnsCells` | library/classification_library.py:63-75 | exactly the listed columns that are present change, and no key is added or lost |
| `Classification.ToLowerIfText` | library/classification_library.py:63-75 | the loop over the listed columns gives the lowered copy |
| `Classification.Present` | library/classification_library.py:81 | the non-empty texts, with missing and empty cells skipped |
| `Classification.SplitAndClean` | library/classification_library.py:78-93 | the loop keeps each cleaned token once, in first-seen order |
| `Classification.CleanedSpec` | library/classification_library.py:78-93 | duplicate-free, with no empty token and none containing "\|"; the tokens are exactly the cleaned "\|"-segments of the present texts |
| `Classification.CleanedSource` | library/classification_library.py:81-86 | every token comes from a segment of an input text |
| `Classification.CleanedComplete` | library/classification_library.py:81-92 | every non-empty cleaned segment is among the tokens |
| `Classification.CleanTokenNoBar` | library/classification_library.py:84-85 | cleaning adds no "\|" |
| `Classification.CleanedIgnoresAbsent` | library/classification_library.py:81 | a missing or empty text contributes nothing |
| `Classification.FirstSegment` | library/classification_library.py:176 | the gene name is exactly the text before the first "\|" of the gene (the whole gene when it has none), and missing when the gene is |
| `Classification.AltArg` | library/classification_library.py:177-187 | corrected: a missing cell is passed on as absent, where the code as written passes "<NA>" (see Findings) |
| `Classification.MissingGeneAsWritten` | library/classification_library.py:177-187 | as written, a missing gene cell produces the alternative name "<NA>" |
| `Classification.MissingCellsSkipped` | library/classification_library.py:177-187 | corrected: a row whose four name cells are missing has no alternative names |
| `Classification.Select` | library/classification_library.py:189-203 | corrected: one (group key, alternative names) pair per row, in row order, the names built with missing cells skipped |
| `Classification.GroupNamesSpec` | library/classification_library.py:218-222 | a group's names are duplicate-free and are exactly the names of its rows |
| `Classification.NamesWithKeyMembers` | library/classification_library.py:218-222 | the concatenated names of a group are those of its rows |
| `Classification.ExplodeGroup` | library/classification_library.py:224-225 | one row per non-empty name of the group |
| `Classification.ExplodedMembers` | library/classification_library.py:221-225 | every exploded row has a non-empty name taken from a source row of its group |
| `Classification.Numbered` | library/classification_library.py:226-227 | the Index column is 0..n-1 in row order |
| `Classification.GetTable` | library/classification_library.py:96-228 | fails iff a required column is missing, with the "Missing required columns: " message listing them in required order; otherwise group, explode, filter and number the selected rows (with the corrected alternative names) |
| `Classification.GetTableRows` | library/classification_library.py:118-228 | every output row has its position as Index and a non-empty name from its group |
| `Classification.ExplodedComplete` | library/classification_library.py:218-225 | every non-empty name of every selected row is exploded under that row's key |
| `Classification.ExplodedNoDup` | library/classification_library.py:218-225 | no (key, name) pair is exploded twice |
| `Classification.GetTableComplete` | library/classification_library.py:189-227 | every non-empty name of every selected row is an output row under that row's group key |
| `Classification.GetTableOnce` | library/classification_library.py:218-227 | a group key and name occur in at most one output row |
| `Classification.GeneMatch` | library/classification_library.py:289 | true iff both gene names are present and equal; false whenever either is missing |
| `Classification.MergedKey` | library/classification_library.py:293-297 | the family id followed by the decimal Index, missing when the family id is |
| `Classification.SameName` | library/classification_library.py:254-259 | the typed rows that share the alternative name |
| `Classification.JoinOne` | library/classification_library.py:254-259 | a left-join row: one combined row per typed row with the name, or a single unmatched row |
| `Classification.LeftJoinMembers` | library/classification_library.py:254-259 | the join is the union of the per-row joins |
| `Classification.BuildBaseMembers` | library/classification_library.py:231-299 | a base row is exactly an untyped row joined with a typed row of the same name, whose Merged key is not excluded |
| `Classification.BuildBaseSource` | library/classification_library.py:231-299 | every base row arises that way |
| `Classification.BuildBaseComplete` | library/classification_library.py:231-299 | every such pair gives a base row |
| `Classification.BuildBaseRows` | library/classification_library.py:289-298 | base rows have a type, a non-excluded key, and the gene match of both sides |
| `Classification.RowsWithKey` | library/classification_library.py:306-309 | the base rows of one (chembl_id, gene_name, Index) group |
| `Classification.CountKeys` | library/classification_library.py:306-307 | the keys of the countable base rows |
| `Classification.KeysByCount` | library/classification_library.py:308 | the keys whose group size is 1, or is not 1 |
| `Classification.Expand` | library/classification_library.py:309 | the base rows whose key is selected |
| `Classification.GetMultiplyMembers` | library/classification_library.py:302-312 | a row is kept iff it is in a group of size other than 1 and its Merged key is whitelisted |
| `Classification.SinglesMembers` | library/classification_library.py:320-323 | the rows of groups of size 1 |
| `Classification.MainProcess` | library/classification_library.py:315-327 | fails as get_table does; otherwise the singleton rows followed by the whitelisted duplicates (built on the corrected alternative names) |
| `Classification.MainProcessRows` | library/classification_library.py:315-327 | every output row is a typed, non-excluded base row that is alone in its group or whitelisted |
| `Json.LookupSpec` | uniprot/uniprot_utils.py:80-85 | `get` finds a key iff some member has it, and then returns the value of the last member with that key |
| `Json.Iterate` | uniprot/uniprot_utils.py:142-149 | None, booleans and numbers are not iterable; a list yields its items; dicts and strings yield strings |
| `Json.Str` | uniprot/uniprot_utils.py:180-182 | str() of a string is itself, and of an integer its decimal text |
| `Uniprot.ToSet` | uniprot/uniprot_utils.py:113-128 | the set of the listed names |
| `Uniprot.ValueOf` | uniprot/uniprot_utils.py:80-95 | at most one value per name object: its "value" when that is a non-empty string |
| `Uniprot.ItemValues` | uniprot/uniprot_utils.py:123-127 | exactly the non-empty string values of the listed dict items |
| `Uniprot.NameFields` | uniprot/uniprot_utils.py:75-96 | a non-object gives []; no empty name; the full name comes first when there is one |
| `Uniprot.NameFieldsMembers` | uniprot/uniprot_utils.py:75-96 | the names are the full name and the short name or names, from a dict or a list of dicts |
| `Uniprot.CollectNameFields` | uniprot/uniprot_utils.py:75-96 | the loop yields exactly those names |
| `Uniprot.UnionAllSpec` | uniprot/uniprot_utils.py:99-110 | a union over a list succeeds iff every item does, and holds exactly the items' names |
| `Uniprot.ProteinNames` | uniprot/uniprot_utils.py:99-110 | a non-object description gives no names |
| `Uniprot.ProteinNamesMembers` | uniprot/uniprot_utils.py:99-110 | the names are those of the recommended name and of every alternative and submission name |
| `Uniprot.KeyNamesMembers` | uniprot/uniprot_utils.py:104-109 | a list of name objects contributes exactly the names of its items |
| `Uniprot.KeysNamesSpec` | uniprot/uniprot_utils.py:104-109 | the union over the keys succeeds iff each key does, and holds their names |
| `Uniprot.ItemsNames` | uniprot/uniprot_utils.py:106-109 | the inner loop adds the items' names |
| `Uniprot.ExtractProteinNames` | uniprot/uniprot_utils.py:99-110 | the loops compute the protein names |
| `Uniprot.SynonymNames` | uniprot/uniprot_utils.py:123-127 | the loop collects the non-empty string synonym values |
| `Uniprot.ExtractGeneNames` | uniprot/uniprot_utils.py:113-128 | the loops compute the gene names and synonyms |
| `Uniprot.NamesOfMembers` | uniprot/uniprot_utils.py:131-153 | names succeed iff every entry does, and are the union of the entries' names |
| `Uniprot.ExtractNames` | uniprot/uniprot_utils.py:131-153 | the loop over the entries computes that union |
| `Uniprot.InputShapes` | uniprot/uniprot_utils.py:142-147 | a results wrapper, a bare list and a single entry are read alike |
| `Uniprot.Word` | uniprot/uniprot_utils.py:197-199 | a leading run of non-space characters, ended by a space or the text's end |
| `Uniprot.FirstWord` | uniprot/uniprot_utils.py:197-199 | none iff the text is all space; otherwise a non-empty word after leading space |
| `Uniprot.FromOrgMissing` | uniprot/uniprot_utils.py:180-199 | each organism field defaults to "" when its source is missing or the lineage too short |
| `Uniprot.FromOrgFailure` | uniprot/uniprot_utils.py:197-199 | splitting fails exactly when the genus is still empty and the truthy scientific name is not a string with a word |
| `Uniprot.ReadOrganism` | uniprot/uniprot_utils.py:178-199 | the writes into the result compute the organism of one entry |
| `Uniprot.ExtractOrganism` | uniprot/uniprot_utils.py:156-201 | the loop computes the organism of the data |
| `Uniprot.OrganismIgnoresLater` | uniprot/uniprot_utils.py:174-200 | entries after the first usable one do not change the organism |
| `Uniprot.NoUsableEntry` | uniprot/uniprot_utils.py:167-201 | without a usable entry every field is "" |
| `Uniprot.MetazoaLineage` | uniprot/uniprot_utils.py:183-196 | a Metazoa lineage takes its phylum from the third element and its genus from the last |
| `Uniprot.SetToSeq` | uniprot/uniprot_utils.py:248 | lists exactly the set's elements |
| `Uniprot.CollectInfo` | uniprot/uniprot_utils.py:223-254 | no data gives an empty row; otherwise the row succeeds iff both extractions do, with the organism fields and the sorted names joined by "\|" |
| `Uniprot.NamesColumnRoundTrip` | uniprot/uniprot_utils.py:248 | the sorted unique list is unique, and splitting its join gives it back |
| `PubChem.ValidateCid` | PubChem/script/pubchem.py:65-79 | none exactly for "0" and "-1"; every other cid, "" included, unchanged |
| `PubChem.UsableCidExactly` | PubChem/script/pubchem.py:174-178 | a cid is unusable iff it is "", "0" or "-1" |
| `PubChem.CidOfAsWritten` | PubChem/script/pubchem.py:82-96 | as written, each binding yields at most one non-empty cid |
| `PubChem.CidOf` | PubChem/script/pubchem.py:82-96 | corrected, each binding yields at most one non-empty cid |
| `PubChem.CollectAllSpec` | PubChem/script/pubchem.py:88-95 | collection succeeds iff every binding does, and holds exactly their cids |
| `PubChem.CollectAllAppend` | PubChem/script/pubchem.py:88-95 | collecting a concatenation concatenates the results |
| `PubChem.MissingCidAsWritten` | PubChem/script/pubchem.py:89-93 | as written, a binding without "cid" yields the cid "None" |
| `PubChem.MissingCidSkipped` | PubChem/script/pubchem.py:89-93 | corrected, such a binding yields nothing, and every other binding yields what the source gives |
| `PubChem.CidsMembers` | PubChem/script/pubchem.py:82-96 | corrected: the cids are exactly the prefix-free non-empty texts of the bindings that carry a cid |
| `PubChem.ExtractCids` | PubChem/script/pubchem.py:82-96 | as written: the loop computes the as-written cids, where a binding without a cid contributes "None" |
| `PubChem.CidsExample` | PubChem/script/pubchem.py:88-95 | a dict cid gives its value, and a URI cid loses the prefix |
| `PubChem.CidsNonEmpty` | PubChem/script/pubchem.py:94-95 | no extracted cid is empty |
| `PubChem.CidJoinSpec` | PubChem/script/pubchem.py:121-123 | none iff there are no cids; depends only on the set; its split is sorted, unique and exactly the cids |
| `PubChem.CidJoinNonEmpty` | PubChem/script/pubchem.py:121-123 | a join of non-empty cids is non-empty |
| `Seqs.SortedUnique` | PubChem/script/pubchem.py:122 | the sorted set: sorted, duplicate-free, with the same elements |
| `PubChem.GetCid` | PubChem/script/pubchem.py:99-123 | corrected: a cid found is never "" |
| `PubChem.GetCidOfBindings` | PubChem/script/pubchem.py:99-139 | corrected: a response's cid is the join of its bindings' corrected cids, and none iff there are none |
| `PubChem.MissingCidGetCid` | PubChem/script/pubchem.py:82-123 | for the bindings `[{}]` the as-written cids join to "None", while the corrected `get_cid` finds no cid |
| `PubChem.GetPropertiesDefaults` | PubChem/script/pubchem.py:172-202 | an unusable cid, no response or an empty property list give six "Not Found" fields; otherwise, for a property list of any length, each of the six fields is its key's value in the first item, or "Not Found" when that key is missing |
| `PubChem.FieldDefault` | PubChem/script/pubchem.py:196-201 | `item.get(key, "Not Found")`: the key's value when present, else "Not Found" |
| `PubChem.GetStandardNameCases` | PubChem/script/pubchem.py:142-157 | none for an unusable cid, for no or a falsy response and for an empty information list; otherwise the raw Title of the first item, none without one |
| `PubChem.TitleOrNotFound` | PubChem/script/pubchem.py:226 | `standard or "Not Found"`: "Not Found" for a missing or falsy Title, a non-empty string Title is kept |
| `PubChem.EmptyItemNotFound` | PubChem/script/pubchem.py:193-202 | an empty property item gives all "Not Found" |
| `PubChem.OrNotFound` | PubChem/script/pubchem.py:218-221 | never ""; a non-empty value is kept |
| `PubChem.ProcessCompoundFields` | PubChem/script/pubchem.py:205-233 | corrected: Name is the input; when no cid is found (including bindings without a cid) the row is all "Not Found"; with a cid, CID is that cid, Standard Name is the Title or "Not Found", and the properties are those `get_properties` reads for it |
| `PubMed.MatchingOne` | library/pubmed_library.py:117-124 | a one-step path finds exactly the children with that tag |
| `PubMed.MatchingTwo` | library/pubmed_library.py:117-124 | a two-step path finds exactly the grandchildren along those tags |
| `PubMed.TextOrNoneSpec` | library/pubmed_library.py:105-109 | none iff the node or its text is missing; otherwise the text without surrounding space |
| `PubMed.CombineSpec` | library/pubmed_library.py:112-114 | "" iff every item is empty; splitting the result gives back the non-empty items |
| `PubMed.CombineExample` | library/pubmed_library.py:112-114 | ["A", "", "B"] gives "A\|B" |
| `PubMed.Or` | library/pubmed_library.py:219-240 | a non-empty value is kept, otherwise the default |
| `PubMed.OrText` | library/pubmed_library.py:219-240 | a non-empty text is kept; a non-empty default gives a non-empty result |
| `PubMed.FirstDoiSpec` | library/pubmed_library.py:138-150 | none iff no id is a doi; otherwise the stripped text of the first doi id |
| `PubMed.DoiPrefersArticleId` | library/pubmed_library.py:137-156 | an ArticleIdList doi wins over an ELocationID doi |
| `PubMed.DoiFallsBack` | library/pubmed_library.py:144-150 | without an ArticleIdList doi, the ELocationID doi is used |
| `PubMed.DoiColonRemoved` | library/pubmed_library.py:151-152 | a leading "doi:" is removed in any case |
| `PubMed.StripUrlFirstMatch` | library/pubmed_library.py:153-156 | only the first matching URL prefix is stripped |
| `PubMed.StripUrlNoMatch` | library/pubmed_library.py:153-156 | a doi without a URL prefix is unchanged |
| `PubMed.FindDoi` | library/pubmed_library.py:137-156 | the loops that break compute the normalised doi |
| `PubMed.SegmentPart` | library/pubmed_library.py:164-173 | a segment gives at most one non-empty part, and none iff it has no text |
| `PubMed.Parts` | library/pubmed_library.py:163-173 | no part is empty |
| `PubMed.PartsEmpty` | library/pubmed_library.py:163-175 | there are no parts iff no segment has text |
| `PubMed.AbstractParts` | library/pubmed_library.py:163-173 | the loop collects the parts |
| `PubMed.AbstractColumn` | library/pubmed_library.py:174-175 | the abstract column is "-" without parts, otherwise the parts joined by " " |
| `PubMed.TextsAt` | library/pubmed_library.py:188-207 | no listed text is empty |
| `PubMed.TextsAtMembers` | library/pubmed_library.py:188-207 | the texts are exactly the non-empty texts found along the path |
| `PubMed.Qualifiers` | library/pubmed_library.py:193-197 | no qualifier is empty |
| `PubMed.HeadingQualifiers` | library/pubmed_library.py:194-197 | the inner loop collects a heading's qualifiers |
| `PubMed.MeshTerms` | library/pubmed_library.py:188-199 | the loop collects the descriptors and the qualifiers |
| `PubMed.ChemicalNames` | library/pubmed_library.py:201-207 | the loop collects the substance names |
| `PubMed.ParseArticle` | library/pubmed_library.py:127-240 | the parser computes the article record |
| `PubMed.DefaultsNonEmpty` | library/pubmed_library.py:219-240 | every field with a default is never empty |
| `PubMed.MissingCitation` | library/pubmed_library.py:127-240 | an article without a citation gets every field's default |
| `PubMed.Values` | library/pubmed_library.py:219-240 | one value per key |
| `PubMed.Zip` | library/pubmed_library.py:219-240 | the keys of the dict are the listed keys |
| `PubMed.ZipLookup` | library/pubmed_library.py:219-240 | with distinct keys, each key maps to its own value |
| `PubMed.ArticleKeysDistinct` | library/pubmed_library.py:219-265 | the 20 article keys and the error key are distinct |
| `PubMed.DictKeys` | library/pubmed_library.py:219-240 | the parsed dict has exactly the 20 keys, each holding its field |
| `PubMed.EmptyPubMedSpec` | library/pubmed_library.py:243-265 | the empty record has the 20 keys plus PubMed.Error, all "" |
| `Strings.StripSpec` | library/pubmed_library.py:105-109 | the stripped text is a slice with only space around it, and neither starts nor ends with space |
| `Strings.JoinSplit` | mylib/transforms.py:587-589 | joining the pieces of a split with the separator gives the string back, so the first piece is a prefix of it |
| `Strings.SplitJoin` | PubChem/script/pubchem.py:121-123 | splitting a join of "\|"-free parts gives the parts back |
| `Seqs.DedupSpec` | library/classification_library.py:87-91 | first-seen deduplication keeps every element once |
| `Seqs.DedupOrder` | library/classification_library.py:87-91 | and keeps first-seen order |
| `Seqs.SortedUniqueCanonical` | uniprot/uniprot_utils.py:248 | the sorted unique list is determined by the set of its elements |

## Left out

- File and network I/O are not modelled; the tables, JSON documents, XML trees and HTTP responses they would yield are parameters. This covers:
  - CSV reading and writing, including the read/write shell of `map_uniprot_file`;
  - `make_request`, `url_encode`, `fetch_uniprot`, `fetch_pubmed` and `_do_request`;
  - `iter_ids`, `process`, `read_pmids`;
  - `websearch_gene_to_id` and `iuphar_upload`.
- `merge_activity`, `init_class`, `by_reference` and `get_database` in mylib/transforms.py are not part of this model. They are pandas merges whose meaning rests on NaN filling, suffix renaming and `mode()`.
- The mylib/io_utils.py readers used by `IUPHARData.from_files` are not part of this model. The catalogue is passed in as its two row sequences.
- `ClassificationRecord` is a value. `__post_init__` only fills missing defaults, and records are never updated afterwards.
- IupharData.TargetIdByName: pandas `str.contains` is a regular-expression match by default. The model is a literal, case-insensitive substring test, so a name holding regex metacharacters is not matched as pandas would match it.
- Lower-casing is ASCII only; Python's Unicode case mapping is not modelled.
- Classification.GetTable: the `Int64`/`string` casts are not modelled. Ids are strings and cells are text or missing.
- Classification.GetTable: `groupby` sorts its groups; in the model the groups come in first-seen order. The Index numbering therefore follows that order.
- Classification.CountKeys: `groupby(["chembl_id", "gene_name", "Index"]).size()` sorts its groups. The model lists the keys in first-seen order instead.
- Classification.MainProcess: the singleton rows and the whitelisted duplicates come in the sorted order of the `groupby` counts in the source. In the model they come in first-seen key order. For a given `get_table` table the set of rows is the same. It is not the same for a given source frame: the Index of a row follows the model's first-seen group numbering (see the `Classification.GetTable` line above), and the Merged key is the family id followed by that Index. So `Classification.BuildBase`'s exclusion of "521825" and "3271956" and `Classification.GetMultiply`'s seven-key whitelist can pick different rows than the source does.
- Classification.Select: builds the alternative names with `AltArg`, the corrected argument, not the as-written `AltArgAsWritten`. So a missing name cell gives no "<NA>" token (see Findings).
- Classification.GetTable: is built on `Select` and so on the corrected alternative names. As written, rows whose name cells are missing share the token "<NA>".
- Classification.MainProcess: is built on `GetTable` and so on the corrected names. As written, an untyped and a typed row whose four name cells are all missing are joined on "<NA>"; the model gives no row for them.
- PubChem.GetCid: uses the corrected extraction `Cids`, not `CidsAsWritten`. As written, the bindings `[{}]` or `[{"cid": null}]` give the cid "None" (`PubChem.MissingCidGetCid`).
- PubChem.GetCidOfBindings: is stated for the corrected extraction, like `GetCid`.
- PubChem.CidsMembers: describes the corrected extraction `Cids`; `PubChem.ExtractCids` computes the as-written one.
- PubChem.ProcessCompound: is built on the corrected `GetCid`. As written, bindings without a cid give the cid "None", and the row continues with the standard name and properties of "None".
- PubChem.ProcessCompoundFields: is stated for the corrected `ProcessCompound`.
- PubChem.GetProperties: a truthy `Properties` (or, in `GetStandardName`, `Information`) value that is not a list gives one failure, `NotAList`. The source raises `KeyError` for a dict, `AttributeError` for a string and `TypeError` for a number; the model does not tell these apart.
- PubChem.Field: a property value that is JSON null becomes the text "None" through `str`, and a number becomes its decimal text. The source keeps the raw value, so its record holds Python's `None` or the number.
- PubChem.TitleOrNotFound: a truthy Title that is not a string is turned into text (a number into its decimal text, a list or dict into ""). The source keeps the raw value in the "Standard Name" column.
- Uniprot.ValueOf: keeps only a "value" that is a non-empty string. The source keeps any truthy value. A list or dict value then raises `TypeError` when it is added to the set of names. A kept number or boolean makes `"|".join(sorted(names))` in `collect_info` raise `TypeError`. The model drops such values instead of failing.
- Uniprot.ItemValues: drops non-string values, as `ValueOf` does.
- Uniprot.SynonymNames: drops non-string synonym values, as `ValueOf` does.
- IupharData.TargetIdByHgncName: mylib/transforms.py:105 reads the column "HGNC_NAME". The IUPHAR/script/io_utils.py loader renames that header to "hgnc_name". The loader `IUPHARData.from_files` uses (mylib/io_utils.py) is not part of this model. The model reads the row's HGNC name field and does not model the `KeyError` a table without a "HGNC_NAME" column would give.
- IupharData.TargetIdByHgncId: the same holds for the column "HGNC_ID" read at mylib/transforms.py:109.
- Classification: numeric cells are not modelled, so `to_lower_if_text` sees only text and missing cells.
- Json: floats are not modelled, and `str()` of a list or dict is modelled as "". Repeated object keys keep the last value, as `json.load` does.
- Uniprot.ReadOrganism: every lineage rank is stored as its `str()` text: the superkingdom, the phylum and the genus, and so also `FromOrg`, `FirstRank`, `PhylumOf` and `LastRank`. The source stores `lineage[0]`, `lineage[1]` or `lineage[2]` and `lineage[-1]` raw. A null rank therefore becomes the text "None" where the source row holds `None`, and a list or dict rank becomes "" where the source keeps the container.
- Uniprot.FromOrg: a scientific name that is neither a string nor a falsy value fails the split. The model records the `AttributeError` as a failure result rather than an exception.
- PubChem.GetCid models both `get_cid` and `get_all_cid`: they differ only in the query URL sent over the network.
- PubMed: `find`/`findall` are modelled for child-tag paths only. Those are the only paths the parser uses.
- PubMed: the XML `tail` text and the `itertext` joining of mixed content are not modelled; an element has one optional text.

## Findings

| source | as written | input that shows it | evidently intended | confidence | as-written member | corrected member |
|---|---|---|---|---|---|---|
| library/classification_library.py:177-187 | `get_table` passes cells cast to pandas string dtype to `split_and_clean`, whose guard only skips `None`; a missing cell is `pd.NA`, which passes the guard and becomes the token "<NA>" | a row whose gene cell is missing | a missing cell contributes no alternative name | not executed | `Classification.MissingGeneAsWritten` | `Classification.MissingCellsSkipped` |
| PubChem/script/pubchem.py:82-96 | a binding without a "cid" key gives `str(None)`, so the cid "None" is kept | the bindings `[{}]` | a binding without a cid is skipped | not executed | `PubChem.MissingCidAsWritten` | `PubChem.MissingCidSkipped` |
