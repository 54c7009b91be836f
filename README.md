# RBN-Reader in Dafny

A model of the record-normalisation core of RBN-Reader. The reader loads
the Referentiebestand Nederlands (RBN) lexicon in its two XML schemas into
Python objects:

- the ODWN-style `cdb_lu` records (`odwn_classes.py`);
- the LMF-style `LexicalEntry` records (`rbn_classes.py`).

It also models the batch passes that work over the loaded entries:

- the sense-rank consistency check, polysemy grouping and descriptive
  counts (`utils.py`);
- the phrasal-verb index (`lexicon_utils.py`);
- the inclusion loop of the loading script (`main.py`).

An XML element is an abstract record. Each attribute and child text the
code reads is an `Option<string>`, and each child element the code looks
up is an `Option` of an element. A Python exception becomes
`Err(Fault)` of a `Result`. Each LE class becomes a Dafny `class` with the
same fields. An `Entry` datatype holds a snapshot of those fields, and a
pure `Construct` function says what the constructor computes. The factory
method `NewLE` runs the constructor's statements in order over local
variables and is proved to agree with `Construct`. Lemmas then state the
properties of `Construct`.

Modules, one per source file, plus two shared ones:

- `Builtins` (builtins.dfy): the Python built-ins the code relies on:
  - None, exceptions and truthiness;
  - f-string rendering of None;
  - `lower`, `replace`, `split`, `join` and substring `in`;
  - `str(n)`, `int(s)` and `set(s)`.
- `Xml` (xml.dfy): attribute lookup and `extract_attribute_value_if_el_is_not_none`.
  The two copies of that function, in `odwn_classes.py` and
  `rbn_classes.py`, behave the same, so it is modelled once.
- `Morphology` (morphology.dfy): `split_morphostructure`. The copies in
  `odwn_classes.py` and `utils.py` are identical, so it is modelled once.
- `OdwnClasses` (odwn_classes.dfy): the ODWN LE class, its tables, lexemes
  and FrameNet export, and the initial Synset.
- `RbnClasses` (rbn_classes.dfy): the LMF LE class and its 5-way tables.
- `Utils` (utils.dfy): `get_inconsistent_senseranks`, the grouping part of
  `load_polysemy_info`, and the counting part of `compute_stats_about`.
- `LexiconUtils` (lexicon_utils.dfy): `get_verb_to_phrasal_entries`.
- `MainScript` (main_script.dfy): lines 34-59 of `main.py`.

## Model

| member | source | states |
|---|---|---|
| Builtins.ParseInt | utils.py:192 | `int(s)` succeeds exactly on an optional sign followed by one or more decimal digits; `int(None)` raises TypeError and any other string raises ValueError; an unsigned literal gives its digits' value, a '-' literal its negation, a '+' literal the value |
| Builtins.ParseIntRoundTrip | utils.py:192 | `int(str(n)) == n` for every natural number n |
| Builtins.Split | main.py:34 | `str.split` always gives at least one piece |
| Builtins.SplitJoin | main.py:34 | joining the pieces of `s.split(sep)` with `sep` gives `s` back |
| Builtins.SplitPieces | main.py:34 | every piece of a split is separator-free and made of characters of the input |
| Builtins.SplitFree | main.py:34 | a string without the separator splits into itself alone |
| Builtins.SplitWord | main.py:34 | a separator-free word followed by the separator splits off as the first piece |
| Builtins.ContainsSubstring | main.py:52 | `pat in s` holds exactly when `pat` occurs in `s` at some position |
| Builtins.ElementsCardinality | utils.py:207 | `len(set(s)) <= len(s)`, with equality exactly when no element of `s` repeats |
| Xml.ExtractAttributeValue | rbn_classes.py:4-31 | no elements gives `''`; the assertion fails (AssertionError) exactly when some element lacks the attribute; otherwise the result is a '-'-join of one enumeration of the distinct attribute values |
| Xml.AttributeValuesSpec | odwn_classes.py:24-51 | collecting the values fails exactly when an element lacks the attribute (AssertionError); on success the set holds exactly the values of the elements |
| Xml.SingleValueJoin | rbn_classes.py:31 | when there is a single distinct value, the join is that value unchanged |
| Xml.JoinContainsValues | rbn_classes.py:31 | the '-'-join contains every joined value |
| Xml.Enumerate | rbn_classes.py:31 | iterating a set visits each of its values exactly once |
| Xml.WithAttribute | rbn_classes.py:160 | the `[@attr]` filter keeps only elements of the list that carry the attribute |
| Xml.WithAttributeMembers | rbn_classes.py:160 | the filter drops no value: the values over the filtered list are the values over the whole list |
| Xml.FilteredValuesNeverFail | rbn_classes.py:160-164 | after the `[@attr]` filter the assertion inside the extraction cannot fail |
| Morphology.SplitMorphostructure | odwn_classes.py:2-22 | the loop's parts equal the specification: `[]` for None; otherwise `[]` or fragments that concatenate to the lemma, each non-empty and free of `*`, `[`, `]`, `<`, `>` |
| Morphology.SplitSpecSpec | utils.py:12-32 | the utils copy has the same contract: `[]` for None, otherwise `[]` or an exact re-join to the lemma with well-formed fragments |
| Morphology.SplitAcceptedIff | odwn_classes.py:17-18 | the split is non-empty exactly when the lemma equals the morphostructure with its markers removed and that is non-empty; an accepted split re-joins to the lemma |
| Morphology.FragmentsWellFormed | odwn_classes.py:6-15 | every fragment is non-empty and contains no boundary marker |
| Morphology.FragmentsConcat | odwn_classes.py:6-15 | the fragments concatenate to the morphostructure with its markers removed |
| Morphology.ReplacedIsNormalized | odwn_classes.py:6-9 | the four `replace` calls in sequence equal one left-to-right pass mapping `*` to nothing and `]`, `<`, `>` to `[` |
| Morphology.NormalizeMarkersChars | odwn_classes.py:6-9 | after normalisation every character is `[` or a non-marker character of the input |
| Morphology.ConcatSplit | odwn_classes.py:10-15 | concatenating the pieces of a split removes exactly the separators |
| Morphology.NonEmptyElements | odwn_classes.py:13-15 | the fragment filter keeps only non-empty pieces of the split |
| Morphology.ConcatNonEmpty | odwn_classes.py:13-15 | dropping the empty pieces does not change the concatenation |
| Morphology.ParticleVerbSplit | odwn_classes.py:2-22 | `*particle<verb>` with the lemma particle+verb splits into `[particle, verb]` |
| Morphology.AanbiedenSplit | lexicon_utils.py:15 | the documented example: `*aan<bieden>` for `aanbieden` gives `["aan", "bieden"]` |
| OdwnClasses.PosTables | odwn_classes.py:395-413 | get_simple_pos and get_fn_pos succeed exactly on verb/noun/adj, mapping them to v/n/a and V/N/A, and raise ValueError on anything else |
| OdwnClasses.PosTablesInjective | odwn_classes.py:395-413 | different mapped parts of speech get different simple and FrameNet tags |
| OdwnClasses.LowerIdempotent | odwn_classes.py:349 | lower-casing twice is lower-casing once |
| OdwnClasses.RbnPosNormalised | odwn_classes.py:341-357 | a resolved rbn_pos is lower-case and never 'adjective' (rewritten to 'adj') |
| OdwnClasses.RbnPosFails | odwn_classes.py:344-349 | get_rbn_pos raises AttributeError exactly when the form element exists without form-cat; it gives None exactly when the form element is missing |
| OdwnClasses.LuTypeTable | odwn_classes.py:235-261 | the morpho-type table: singleton, phrasal and exocentric-compound sets map to their types; None and the untyped set map to None; any other value raises |
| OdwnClasses.CanonicalFormsSpec | odwn_classes.py:383-392 | an example without a canonicalform child raises AttributeError; otherwise the dict's keys are the example ids with a non-empty text, and each key holds the text of the last such example |
| OdwnClasses.GetCanonicalForms | odwn_classes.py:383-392 | the loop computes exactly that dict or exception |
| OdwnClasses.GetLemma | odwn_classes.py:326-338 | the lemma is the form-spelling of the form child (None without it); add is lowered exactly when the lemma is falsy |
| OdwnClasses.GetRbnPos | odwn_classes.py:341-357 | the method computes the get_rbn_pos result; add is lowered exactly when the resolved rbn_pos is falsy |
| OdwnClasses.NewLE | odwn_classes.py:93-150 | the constructor's statements in order give a fresh object holding `Construct`, or raise the exception `Construct` names |
| OdwnClasses.LE.constructor | odwn_classes.py:99-127 | the new object holds exactly the given field values |
| OdwnClasses.ConstructFaults | odwn_classes.py:103-139 | c_lu_id None raises TypeError; c_lu_id '' raises IndexError; an example without canonicalform or a form without form-cat raises AttributeError; an unmapped (or empty) part of speech raises ValueError; an unmapped morpho-type raises MappingError; the constructor succeeds exactly when none of these occurs |
| OdwnClasses.EmptyPosRaises | odwn_classes.py:131-134 | an empty form-cat passes the `is not None` guard, and get_simple_pos then raises ValueError |
| OdwnClasses.AddFlag | odwn_classes.py:326-357 | on a constructed entry add is true exactly when the form element exists with a non-empty form-spelling |
| OdwnClasses.Identity | odwn_classes.py:99-129 | sense id, prefix (its first character), c_seq_nr, lemma, namespaces and canonical forms are read as the constructor reads them |
| OdwnClasses.PosDependentFields | odwn_classes.py:131-146 | the POS-dependent fields are set only when rbn_pos is not None: they are None when the form element is missing, and otherwise equal the table lookups and element reads |
| OdwnClasses.VerbOnlyFields | odwn_classes.py:148-150 | rbn_feature_set is set only for verbs, as the caseframe text; rbn_type, separable, provenance and synset id always stay None |
| OdwnClasses.SenseLabelAndUris | odwn_classes.py:137-146 | sense_label is lemma-simple_pos-c_seq_nr (None rendered 'None'); the URIs are namespace+'RBN-'+label and '('+abbreviation+')RBN-'+label |
| OdwnClasses.ConstructedParts | odwn_classes.py:142-143 | a constructed entry's parts are `[]` or re-join to its lemma, and are well formed |
| OdwnClasses.CompoundHasNoLuType | odwn_classes.py:249-255 | a constructed entry with morpho-type 'compound' has lu_type None |
| OdwnClasses.CompoundLexemes | odwn_classes.py:280-298 | the compound loop makes one lexeme per part |
| OdwnClasses.CompoundLexemesShape | odwn_classes.py:280-298 | lexeme i has order i+1 and the part as its name; exactly the last is the head, and it has the FrameNet POS; the POS of an earlier lexeme, when set, is the linking tag 'I' |
| OdwnClasses.LexemesWithoutLuType | odwn_classes.py:267-268 | lu_type None gives `([], False)` |
| OdwnClasses.LexemesSingleton | odwn_classes.py:269-278 | singleton or exocentric compound gives one lexeme named by the lemma, with order '1' and the FrameNet POS, complete |
| OdwnClasses.LexemesPhrasal | odwn_classes.py:300-319 | phrasal with two parts gives two lexemes named by the parts in order, only the second with POS, complete |
| OdwnClasses.LexemesComplete | odwn_classes.py:263-323 | the lexemes are complete exactly for singleton, exocentric compound, or phrasal with two parts and a non-compound morpho-type; any other incomplete non-compound case gives `[]` |
| OdwnClasses.ConstructedLexemesSkipCompound | odwn_classes.py:280-281 | for constructed entries the compound branch of get_lexemes never gives a lexeme |
| OdwnClasses.LE.GetLexemes | odwn_classes.py:263-323 | the method's lexemes and completeness are those of the get_lexemes specification |
| OdwnClasses.Unannotated | odwn_classes.py:203-210 | each of definition, status, POS, frame and provenance is reported exactly when its value is falsy, and nothing else is |
| OdwnClasses.AddUnannotated | odwn_classes.py:203-210 | the loop adds exactly those attributes to the set it is given |
| OdwnClasses.LE.GetFnNltkFormat | odwn_classes.py:169-212 | with the source's defaults (status 'Created', no incorporated FE or timestamp, no optional attributes), the lu dict holds the lexemes and the given values; 'lu_type' is to annotate iff lu_type is None, 'lexemes' iff the lexemes are incomplete, 'status' iff the status is falsy (so never with the default); the rest are the falsy checked attributes |
| OdwnClasses.Synset.constructor | odwn_classes.py:59-85 | ili and id are the element's attributes; synonyms start empty; the definition is the gloss, or "" without a Definition element |
| RbnClasses.LemmaOf | rbn_classes.py:90-98 | writtenForm comes from MultiwordExpression when mw, from Lemma otherwise; raises AttributeError when that child is missing |
| RbnClasses.CanonicalFormsOf | rbn_classes.py:115-121 | one entry per canonicalForm element, in document order, each its canonicalform attribute |
| RbnClasses.PosTables | rbn_classes.py:127-153 | the 5-way tables succeed exactly on verb/noun/adjective/adverb/other and raise ValueError otherwise; 'v' and 'V' come exactly from verb |
| RbnClasses.PosTablesInjective | rbn_classes.py:127-153 | different mapped parts of speech get different simple and FrameNet tags |
| RbnClasses.SemanticValuesSpec | rbn_classes.py:156-170 | a missing Semantics-verb raises AttributeError; no children gives None; otherwise the values of the filtered elements |
| RbnClasses.Separable | rbn_classes.py:172-178 | a missing Morphology raises AttributeError; otherwise True exactly when separability is present and equals 'separable' |
| RbnClasses.JoinForms | rbn_classes.py:84 | `';'.join` raises TypeError exactly when some canonical form is None |
| RbnClasses.JoinFormsValues | rbn_classes.py:84 | with all forms present, the join is the ';'-join of their values |
| RbnClasses.ConstructFaults | rbn_classes.py:37-85 | a missing lemma child or Sense raises AttributeError; an unmapped partOfSpeech of a single-word entry raises ValueError; a verb without Semantics-verb or Morphology raises AttributeError; for a multiword or non-verb entry with those children it raises exactly when a canonicalForm element lacks its attribute; the set orders never change whether or what it raises |
| RbnClasses.PosFieldsGated | rbn_classes.py:50-65 | mw leaves rbn_pos, simple_pos and fn_pos None; otherwise they are partOfSpeech and its two table images |
| RbnClasses.VerbFieldsGated | rbn_classes.py:53-70 | rbn_type, rbn_feature_set and separable are None unless simple_pos is 'v', so always for mw; for a verb separable is get_separable's answer, and the other two are set exactly when Semantics-verb has children |
| RbnClasses.RbnTypeJoinsValues | rbn_classes.py:156-170 | rbn_type is a '-'-join of the distinct semanticType values; it contains each of them and is the single value unchanged |
| RbnClasses.RbnFeatureSetJoinsValues | rbn_classes.py:180-194 | the same for rbn_feature_set and semanticFeatureSet |
| RbnClasses.IdentityAndUris | rbn_classes.py:44-75 | id, mw, lemma and the Sense attributes are read as the code reads them; full URI namespace+'RBN-'+id and short URI '('+abbreviation+')RBN-'+id share the same tail |
| RbnClasses.HoverInfoFields | rbn_classes.py:77-85 | the canonical forms are all present, and hover_info repeats the fields with the forms ';'-joined |
| RbnClasses.LE.constructor | rbn_classes.py:44-85 | the new object holds exactly the given field values |
| RbnClasses.GetSemanticValue | rbn_classes.py:156-194 | get_rbn_type/get_rbn_feature_set: the exception, None, or the join of one enumeration of the values |
| RbnClasses.NewLE | rbn_classes.py:37-85 | the constructor's statements in order give a fresh object holding `Construct` for the set orders it used, or raise the exception `Construct` names |
| Utils.ParsedRanks | utils.py:192 | the ranks are `int(c_seq_nr)` of every entry, in order |
| Utils.ParsedRanksFailure | utils.py:189-192 | once one c_seq_nr fails to parse, the whole pass raises that exception |
| Utils.GroupOf | utils.py:194-202 | a group's id list and rank list have the same length |
| Utils.GroupIds | utils.py:194-202 | a group's ids are exactly the sense ids of the entries with that (lemma, rbn_pos) key |
| Utils.GroupRanks | utils.py:194-202 | a group's ranks are exactly the ranks of the entries with that key |
| Utils.RepeatedRankIff | utils.py:207 | `len(ranks) != len(set(ranks))` exactly when two positions hold the same rank |
| Utils.GroupRepeatIff | utils.py:204-209 | a group has a repeated rank exactly when two entries of its key share a rank |
| Utils.FlaggedIff | utils.py:185-213 | an id is flagged exactly when some entry with that id has a key whose group repeats a rank |
| Utils.FlaggedGroups | utils.py:204-213 | groups are flagged whole; a key held by one entry is never flagged; every flagged id is an input sense id |
| Utils.FlaggedAll | utils.py:204-209 | updating the set with every repeating group's ids gives exactly the flagged ids |
| Utils.GroupSenseranks | utils.py:188-202 | the grouping loop raises what parsing raises; otherwise its keys are exactly the keys held by some entry, each with that key's group |
| Utils.FlagGroups | utils.py:204-209 | the second loop collects exactly the ids of the repeating groups |
| Utils.GetInconsistentSenseranks | utils.py:185-213 | the result is the parsing exception, or the set of flagged ids |
| Utils.PolysemyGroupsSpec | utils.py:151-156 | keys are exactly the (lemma, fn_pos) of entries whose rbn_pos is in the filter, and each key's set is exactly their sense ids |
| Utils.PolysemyGroupsNonEmpty | utils.py:151-156 | no group is empty |
| Utils.GroupByLemmaPos | utils.py:151-156 | the loop builds exactly those groups |
| Utils.SetPolysemy | utils.py:166-167 | each id of the group gets the group size; the other ids keep their values |
| Utils.Polysemy | utils.py:161-167 | every group gets its size; an id has a polysemy value exactly when it is in some group, and the value is that group's size |
| Utils.LoadPolysemyInfo | utils.py:144-182 | the returned lemma_pos2le_ids groups, each of size at least one; the extra outputs are the function's locals (the polysemy per key behind the data frame, and le_id2polysemy_of_lemma, which the source computes but does not return): every grouped id's polysemy is the size of a group holding it |
| Utils.PolysemyOfUniqueIds | utils.py:162-167 | when no id is in two groups, each id's polysemy is the size of its own group |
| Utils.DistinctIdsGroupedOnce | utils.py:151-156 | with distinct sense ids no id lands in two groups |
| Utils.ComputeStatsAbout | utils.py:49-76 | one observation per entry in order; count is the number of entries; unique is the number of distinct observations and at most count; the frequency counts add up to count; an observation is counted exactly when some entry produces it |
| Utils.StatsDistinct | utils.py:58-73 | the observations are all distinct exactly when every frequency is at most one |
| LexiconUtils.FileTriples | lexicon_utils.py:26-29 | filing an id adds exactly that (verb, lemma, id) to the index |
| LexiconUtils.FileStep | lexicon_utils.py:22-30 | filing a qualifying entry keeps the index exact and adds one id and one filed triple |
| LexiconUtils.SkipStep | lexicon_utils.py:22-23 | a non-qualifying entry leaves the index and the counter as they are |
| LexiconUtils.GetVerbToPhrasalEntries | lexicon_utils.py:17-38 | the index files every phrasal two-part entry's id under its second part and lemma, and nothing else; no inner dict or set is empty; the counter is the number of such entries and of filed ids |
| LexiconUtils.FiledOnce | lexicon_utils.py:20-29 | each id is filed under one verb and one lemma only; an id is filed exactly when its entry qualifies |
| LexiconUtils.LemmaEndsWithVerb | lexicon_utils.py:24-29 | when parts re-join to lemmas, every lemma key is present and ends with its verb key |
| LexiconUtils.ConstructedEntriesRejoin | odwn_classes.py:142-143 | entries built by the ODWN constructor meet that re-join condition |
| MainScript.AllowedPrefixesPieces | main.py:34 | each allowed prefix is '+'-free and made of characters of the argument; the split pieces re-join with '+' to the argument; there is at least one prefix |
| MainScript.AllowedPrefixesExample | main.py:10-16 | the documented argument "r+c" allows exactly r and c |
| MainScript.SettledOnlyLowersAdd | main.py:49-54 | applying the settings only lowers add and changes no other field; add stays set exactly when it was set, the prefix is allowed, and (with the exclude flag) the id has no `_sub_` |
| MainScript.ApplySettings | main.py:49-54 | the two assignments leave the object holding the settled entry |
| MainScript.KeptRespectsSettings | main.py:49-57 | no kept entry has a prefix outside the allowed set, and with the exclude flag none has `_sub_` in its id |
| MainScript.KeptMembers | main.py:56-57 | an entry is kept exactly when some element settles to it with add still set |
| MainScript.NotAddedMembers | main.py:58-59 | an id is in not_added exactly when an element with that id settles with add false |
| MainScript.NeverBoth | main.py:56-59 | with distinct ids no kept entry's id is in not_added |
| MainScript.KeptOrNotAdded | main.py:56-59 | each element is kept or its id is not added; there are never more kept entries than elements |
| MainScript.KeptOfConcat | main.py:42-57 | filtering preserves document order: the kept entries of a concatenation are the concatenation of the kept entries |
| MainScript.ConstructAllPrefixFails | main.py:42-47 | once one element's constructor raises, the run raises that exception whatever follows |
| MainScript.ConstructAllEntries | main.py:42-47 | a successful run has one entry per element, each the constructor's result |
| MainScript.LoadOne | main.py:44-54 | one element: the constructor's exception, or a fresh object holding the settled entry |
| MainScript.Record | main.py:56-59 | a switched-on object is appended to le_objs, otherwise its id goes to not_added |
| MainScript.LoadResource | main.py:34-59 | the first constructor exception, or le_objs holding exactly the settled entries whose add is still set, in document order, and not_added exactly the ids of the others |

## Left out

- XML parsing (`lxml` `find`, `xpath`, `get`, `text`, `getchildren`): the parsed element is an input record, and the element lookups the code performs are fields of that record.
- pickle, docopt, the import-time preload in `__init__.py`, pandas data frames, the rounded percentage table of `load_polysemy_info`, `load_mapping`, `get_translations_from_wiktionary`, `convert_mapping_to_json.py` and `represent_rbn_as_dfs.py`: I/O, reporting and floating point.
- rdf_utils.py is not part of this model. It wraps the rdflib graph library.
- `print` and every `verbose` branch: they only write to the console.
- odwn `LE.get_separable`: its only call is commented out (odwn_classes.py:150), so odwn `separable` is always None.
- odwn `LE.get_hover_info`, `LE.__str__` and `Synset.get_hover_info`: they format fields for display.
- Synset beyond its initial state: no code in these files adds synonyms.
- Builtins.Lower: lower-cases ASCII letters only, not the full Unicode mapping of `str.lower`.
- Builtins.ParseInt: does not accept the surrounding whitespace, underscores or non-ASCII digits that `int()` also takes.
- Xml.ExtractAttributeValue: a Python set has no specified iteration order. The result is stated as the '-'-join of some enumeration of the distinct values, not of one fixed order.
- RbnClasses.NewLE: for the same reason, the orders used for rbn_type and rbn_feature_set are ghost outputs, and the contracts hold for whichever enumeration was used.
- OdwnClasses.NewLE: the constructor's `self.x = ...` statements run over local variables, and the fields are stored once at the end. `add` is passed through `get_lemma` and `get_rbn_pos` as a value.
- OdwnClasses.Entry: in Python, `sem_type`, `full_rdf_uri` and `short_rdf_uri` are attributes that exist only when rbn_pos is not None. Reading them otherwise raises AttributeError. The model gives them None.
- odwn `get_definition` leaves `query` unbound for a simple_pos outside v/n/a. That case cannot happen after get_simple_pos, so the model has no such branch.
- Utils and LexiconUtils: the dicts of loaded objects are passed as a sequence (or map) of entry snapshots. The passes only read them.
- Utils.GetInconsistentSenseranks: it reads `c_seq_nr`, which only the ODWN entries have, so it is modelled over ODWN entries. The polysemy pass filters on rbn_pos values of the LMF table (noun, verb, adjective, adverb, other), so it is modelled over LMF entries.
- Utils.ComputeStatsAbout: the tuple of `getattr` values over the attribute list is a function parameter `observe`, and the pandas frame of the frequencies is left out.
- The two loops of `load_polysemy_info` and of `get_inconsistent_senseranks` are each split into two methods, one per loop.
- MainScript.LoadResource: an exception is returned as `error` instead of ending the process, and nothing is written.
- Neither constructor rejects an entry whose lemma starts with a hyphen: the code has no such check, and neither does the model.
- A missing lemma element: the LMF constructor raises AttributeError on a missing Lemma or MultiwordExpression child. The ODWN constructor does not raise on a missing `form` element (lemma and rbn_pos become None and add is lowered), but it does raise on a `form` without `form-cat` (AttributeError) and on an empty or unmapped `form-cat` (ValueError).
- In the LMF code, rbn_type and rbn_feature_set are None for a non-verb and also for a verb whose Semantics-verb has no children; the model states exactly that.
- Utils.LoadPolysemyInfo: the source returns two pandas frames and lemma_pos2le_ids; the model returns lemma_pos2le_ids together with the per-key polysemy and le_id2polysemy_of_lemma, which are locals of the source function and not part of its result.
