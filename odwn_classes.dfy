/**
 * The Open Dutch WordNet reader (odwn_classes.py): one `cdb_lu` element of
 * the Cornetto lexicon becomes an `LE` object. Construction sets the keep
 * flag `add`, resolves the part of speech through closed tables, fills the
 * fields that depend on it, and derives the lexemes of a FrameNet-style
 * lexical unit.
 */
module OdwnClasses {
  import opened Builtins
  import opened Xml
  import opened Morphology

  // ---------------------------------------------------------------------
  // The cdb_lu element

  /** An element found by `find(path)`, as the code reads it: its text. */
  datatype TextEl = TextEl(text: Option<string>)

  /** The `form` child: its form-spelling and form-cat attributes. */
  datatype FormEl = FormEl(spelling: Option<string>, cat: Option<string>)

  /**
   * One `examples/example` child: its r_ex_id attribute and its
   * `form_example/canonicalform` descendant, when it has one.
   */
  datatype ExampleEl = ExampleEl(exampleId: Option<string>, canonicalForm: Option<TextEl>)

  /**
   * A `cdb_lu` element: its c_lu_id and c_seq_nr attributes, its `form`
   * child, the descendants the reader looks up by path (a path that is
   * not a key is not present), and its examples in document order.
   */
  datatype CdbLu = CdbLu(
    cLuId: Option<string>,
    cSeqNr: Option<string>,
    form: Option<FormEl>,
    found: map<string, TextEl>,
    examples: seq<ExampleEl>)

  /** The text of the descendant at path; None when it is absent or has no text. */
  function FindText(raw: CdbLu, path: string): Option<string>
  {
    if path in raw.found then raw.found[path].text else None
  }

  // ---------------------------------------------------------------------
  // Closed tables

  /** get_lemma without its effect on add: the form-spelling of the form child. */
  function LemmaOf(raw: CdbLu): Option<string>
  {
    match raw.form
    case None => None
    case Some(f) => f.spelling
  }

  /**
   * get_rbn_pos without its effect on add: the lower-cased form-cat, with
   * 'adjective' shortened to 'adj'; `.lower()` on a missing form-cat raises.
   */
  function RbnPosOf(raw: CdbLu): Result<Option<string>, Fault>
  {
    match raw.form
    case None => Ok(None)
    case Some(f) =>
      match f.cat
      case None => Err(AttributeError)
      case Some(cat) =>
        var pos := Lower(cat);
        Ok(Some(if pos == "adjective" then "adj" else pos))
  }

  /** The parts of speech the odwn tables map. */
  const OdwnPosTags: set<string> := {"verb", "noun", "adj"}

  /** get_simple_pos */
  function SimplePos(rbnPos: string): Result<string, Fault>
  {
    if rbnPos == "verb" then Ok("v")
    else if rbnPos == "noun" then Ok("n")
    else if rbnPos == "adj" then Ok("a")
    else Err(ValueError)
  }

  /** get_fn_pos */
  function FnPos(rbnPos: string): Result<string, Fault>
  {
    if rbnPos == "verb" then Ok("V")
    else if rbnPos == "noun" then Ok("N")
    else if rbnPos == "adj" then Ok("A")
    else Err(ValueError)
  }

  /** The LU types get_lu_type assigns. */
  datatype LuType = Singleton | Phrasal | ExocentricCompound
  {
    /** The string the source stores. */
    function Name(): string
    {
      match this
      case Singleton => "singleton"
      case Phrasal => "phrasal"
      case ExocentricCompound => "exocentric compound"
    }
  }

  const SingletonMorphoTypes: set<string> :=
    {"simpmorph", "derivation", "xderivation", "zeroderivation", "nmorph"}
  const ExocentricMorphoTypes: set<string> := {"xcompound", "x-compound"}
  /** Morpho-types that are known but give no LU type. */
  const UntypedMorphoTypes: set<string> :=
    {"compound", "wordgroup", "compderiv", "derivcomp", "unspecified", "nil"}

  /** get_lu_type: a closed table; an unknown morpho-type raises. */
  function LuTypeOf(morphoType: Option<string>): Result<Option<LuType>, Fault>
  {
    match morphoType
    case None => Ok(None)
    case Some(m) =>
      if m in SingletonMorphoTypes then Ok(Some(Singleton))
      else if m == "phrasal" then Ok(Some(Phrasal))
      else if m in ExocentricMorphoTypes then Ok(Some(ExocentricCompound))
      else if m in UntypedMorphoTypes then Ok(None)
      else Err(MappingError)
  }

  /** The query get_definition uses for each simple part of speech. */
  function DefinitionQuery(simplePos: string): string
    requires simplePos in {"v", "n", "a"}
  {
    if simplePos == "v" then "sem-definition/sem-def"
    else if simplePos == "n" then "sem-definition/sem-def-noun/sem-specificae"
    else "semantics_adj/sem-resume"
  }

  /**
   * get_canonical_forms: example id to the text of its canonical form, for
   * the examples whose text is non-empty (a later example overwrites an
   * earlier one with the same id); `.text` on a missing canonicalform raises.
   */
  function CanonicalFormsOf(examples: seq<ExampleEl>): Result<map<Option<string>, string>, Fault>
  {
    if examples == [] then Ok(map[])
    else
      var forms :- CanonicalFormsOf(examples[..|examples| - 1]);
      var last := examples[|examples| - 1];
      match last.canonicalForm
      case None => Err(AttributeError)
      case Some(el) =>
        if Truthy(el.text) then Ok(forms[last.exampleId := el.text.value]) else Ok(forms)
  }

  // ---------------------------------------------------------------------
  // Properties of the tables

  /** The two POS tables accept exactly verb, noun and adj, and their codes correspond. */
  lemma PosTables(p: string)
    ensures SimplePos(p).Ok? <==> p in OdwnPosTags
    ensures FnPos(p).Ok? <==> p in OdwnPosTags
    ensures SimplePos(p).Err? ==> SimplePos(p).error == ValueError && FnPos(p).error == ValueError
    ensures p == "verb" ==> SimplePos(p) == Ok("v") && FnPos(p) == Ok("V")
    ensures p == "noun" ==> SimplePos(p) == Ok("n") && FnPos(p) == Ok("N")
    ensures p == "adj" ==> SimplePos(p) == Ok("a") && FnPos(p) == Ok("A")
  {
  }

  /** Distinct parts of speech get distinct codes in both tables. */
  lemma PosTablesInjective(p: string, q: string)
    requires SimplePos(p).Ok? && SimplePos(q).Ok?
    ensures SimplePos(p) == SimplePos(q) <==> p == q
    ensures FnPos(p) == FnPos(q) <==> p == q
  {
  }

  /** Lower-casing twice changes nothing. */
  lemma {:induction false} LowerIdempotent(s: string)
    ensures Lower(Lower(s)) == Lower(s)
  {
    if s != [] {
      LowerIdempotent(s[1..]);
      assert Lower(s)[1..] == Lower(s[1..]);
    }
  }

  /** A resolved rbn_pos is lower case and never 'adjective'. */
  lemma RbnPosNormalised(raw: CdbLu)
    requires RbnPosOf(raw).Ok? && RbnPosOf(raw).value.Some?
    ensures var p := RbnPosOf(raw).value.value; Lower(p) == p && p != "adjective"
  {
    var pos := Lower(raw.form.value.cat.value);
    LowerIdempotent(raw.form.value.cat.value);
    assert Lower("adj") == "adj" by {
      assert Lower("adj") == ['a'] + Lower("dj");
      assert Lower("dj") == ['d'] + Lower("j");
      assert Lower("j") == ['j'] + Lower("");
    }
  }

  /** Reading form-cat fails exactly when the form child lacks it. */
  lemma RbnPosFails(raw: CdbLu)
    ensures RbnPosOf(raw).Err? <==> raw.form.Some? && raw.form.value.cat.None?
    ensures RbnPosOf(raw).Err? ==> RbnPosOf(raw).error == AttributeError
    ensures RbnPosOf(raw) == Ok(None) <==> raw.form.None?
  {
  }

  /** The LU-type table: each group of morpho-types with its type; nothing else is accepted. */
  lemma LuTypeTable(m: Option<string>)
    ensures LuTypeOf(m) == Ok(Some(Singleton)) <==> m.Some? && m.value in SingletonMorphoTypes
    ensures LuTypeOf(m) == Ok(Some(Phrasal)) <==> m == Some("phrasal")
    ensures LuTypeOf(m) == Ok(Some(ExocentricCompound)) <==> m.Some? && m.value in ExocentricMorphoTypes
    ensures LuTypeOf(m) == Ok(None) <==> m.None? || m.value in UntypedMorphoTypes
    ensures LuTypeOf(m).Err? <==>
      m.Some? && m.value !in SingletonMorphoTypes + {"phrasal"} + ExocentricMorphoTypes + UntypedMorphoTypes
  {
  }

  /**
   * Reading the canonical forms fails exactly when an example lacks its
   * canonicalform; otherwise an id is a key exactly when one of its
   * examples has a non-empty text, and it maps to the last such text.
   */
  lemma {:induction false} CanonicalFormsSpec(examples: seq<ExampleEl>)
    ensures CanonicalFormsOf(examples).Ok? <==> forall i :: 0 <= i < |examples| ==> examples[i].canonicalForm.Some?
    ensures CanonicalFormsOf(examples).Err? ==> CanonicalFormsOf(examples).error == AttributeError
    ensures CanonicalFormsOf(examples).Ok? ==>
      var forms := CanonicalFormsOf(examples).value;
      forall id :: id in forms <==> exists i :: 0 <= i < |examples| && examples[i].exampleId == id && Truthy(examples[i].canonicalForm.value.text)
    ensures CanonicalFormsOf(examples).Ok? ==>
      var forms := CanonicalFormsOf(examples).value;
      forall i :: 0 <= i < |examples| && Truthy(examples[i].canonicalForm.value.text) &&
        (forall j :: i < j < |examples| ==> examples[j].exampleId != examples[i].exampleId || !Truthy(examples[j].canonicalForm.value.text))
        ==> forms[examples[i].exampleId] == examples[i].canonicalForm.value.text.value
  {
    if examples != [] {
      var init := examples[..|examples| - 1];
      var n := |examples| - 1;
      CanonicalFormsSpec(init);
      assert forall i :: 0 <= i < n ==> init[i] == examples[i];
    }
  }

  // ---------------------------------------------------------------------
  // The constructed entry

  /**
   * The fields of an LE object once construction has finished. An
   * attribute the constructor never assigns on the object's path is None.
   */
  datatype Entry = Entry(
    add: bool,
    namespace: string,
    abbreviatedNamespace: string,
    senseId: string,
    prefix: string,
    cSeqNr: Option<string>,
    lemmaForm: Option<string>,
    article: Option<string>,
    parts: seq<string>,
    senseLabel: Option<string>,
    definition: Option<string>,
    rbnPos: Option<string>,
    simplePos: Option<string>,
    morphoType: Option<string>,
    luType: Option<LuType>,
    semType: Option<string>,
    morphoStructure: Option<string>,
    fnPos: Option<string>,
    rbnType: Option<string>,
    rbnFeatureSet: Option<string>,
    separable: Option<bool>,
    provenanceSet: Option<set<string>>,
    provenanceLabel: Option<string>,
    synsetId: Option<string>,
    canonicalForms: map<Option<string>, string>,
    fullRdfUri: Option<string>,
    shortRdfUri: Option<string>)

  /**
   * The fields right after the canonical forms and rbn_pos are read: every
   * POS-dependent field still at its initial value.
   */
  function InitialEntry(
    namespace: string, abbreviatedNamespace: string, senseId: string, cSeqNr: Option<string>,
    lemmaForm: Option<string>, canonicalForms: map<Option<string>, string>, rbnPos: Option<string>): Entry
    requires senseId != ""
  {
    Entry(
      Truthy(lemmaForm) && Truthy(rbnPos), namespace, abbreviatedNamespace, senseId, senseId[..1],
      cSeqNr, lemmaForm, None, [], None, None, rbnPos, None, None, None, None, None, None,
      None, None, None, None, None, None, canonicalForms, None, None)
  }

  /** The block run once rbn_pos is resolved to p: the POS tables, the label, the morphology and the URIs. */
  function ResolvePos(e: Entry, raw: CdbLu, p: string): Result<Entry, Fault>
  {
    var simplePos :- SimplePos(p);
    var fnPos := (PosTables(p); FnPos(p).value);
    var senseLabel := Format(e.lemmaForm) + "-" + simplePos + "-" + Format(e.cSeqNr);
    var morphoType := FindText(raw, "morphology_" + p + "/morpho-type");
    var luType :- LuTypeOf(morphoType);
    var morphoStructure := FindText(raw, "morphology_" + p + "/morpho-structure");
    Ok(e.(
      article := FindText(raw, "syntax_" + p + "/sy-article"),
      simplePos := Some(simplePos),
      definition := FindText(raw, DefinitionQuery(simplePos)),
      fnPos := Some(fnPos),
      senseLabel := Some(senseLabel),
      morphoType := morphoType,
      luType := luType,
      semType := FindText(raw, "semantics_" + p + "/sem-type"),
      morphoStructure := morphoStructure,
      parts := SplitSpec(morphoStructure, e.lemmaForm),
      fullRdfUri := Some(e.namespace + "RBN-" + senseLabel),
      shortRdfUri := Some("(" + e.abbreviatedNamespace + ")RBN-" + senseLabel)))
  }

  /** The last step: the feature set is read for verbs only. */
  function WithVerbFields(e: Entry, raw: CdbLu): Entry
  {
    if e.simplePos == Some("v")
    then e.(rbnFeatureSet := FindText(raw, "semantics_verb/sem-caseframe/caseframe"))
    else e
  }

  /** The constructor up to reading rbn_pos: the entry before the POS block, or the exception. */
  function InitialOf(raw: CdbLu, namespace: string, abbreviatedNamespace: string): Result<Entry, Fault>
  {
    match raw.cLuId
    case None => Err(TypeError)
    case Some(senseId) =>
      if senseId == "" then Err(IndexError)
      else
        var canonicalForms :- CanonicalFormsOf(raw.examples);
        var rbnPos :- RbnPosOf(raw);
        Ok(InitialEntry(
          namespace, abbreviatedNamespace, senseId, raw.cSeqNr, LemmaOf(raw), canonicalForms, rbnPos))
  }

  /**
   * What `LE(le_xml_obj, namespace, abbreviated_namespace)` produces, or the
   * exception it raises, in the constructor's order.
   */
  function Construct(raw: CdbLu, namespace: string, abbreviatedNamespace: string): Result<Entry, Fault>
  {
    var initial :- InitialOf(raw, namespace, abbreviatedNamespace);
    var resolved :-
      if initial.rbnPos.None? then Ok(initial) else ResolvePos(initial, raw, initial.rbnPos.value);
    Ok(WithVerbFields(resolved, raw))
  }

  // ---------------------------------------------------------------------
  // Properties of construction

  /**
   * The exceptions of the constructor: a missing c_lu_id, an empty one, a
   * missing canonicalform, a missing form-cat, an unmapped part of speech
   * (including the empty one), an unmapped morpho-type, in that order; no
   * other input raises.
   */
  lemma ConstructFaults(raw: CdbLu, namespace: string, abbreviatedNamespace: string)
    ensures Construct(raw, namespace, abbreviatedNamespace) == Err(TypeError) <==> raw.cLuId.None?
    ensures Construct(raw, namespace, abbreviatedNamespace) == Err(IndexError) <==> raw.cLuId == Some("")
    ensures raw.cLuId.Some? && raw.cLuId.value != "" && CanonicalFormsOf(raw.examples).Err? ==>
      Construct(raw, namespace, abbreviatedNamespace) == Err(AttributeError)
    ensures (raw.cLuId.Some? && raw.cLuId.value != "" && CanonicalFormsOf(raw.examples).Ok? &&
             raw.form.Some? && raw.form.value.cat.None?) ==>
      Construct(raw, namespace, abbreviatedNamespace) == Err(AttributeError)
    ensures (raw.cLuId.Some? && raw.cLuId.value != "" && CanonicalFormsOf(raw.examples).Ok? &&
             raw.form.Some? && raw.form.value.cat.Some? && RbnPosOf(raw).value.value !in OdwnPosTags) ==>
      Construct(raw, namespace, abbreviatedNamespace) == Err(ValueError)
    ensures (raw.cLuId.Some? && raw.cLuId.value != "" && CanonicalFormsOf(raw.examples).Ok? &&
             raw.form.Some? && raw.form.value.cat.Some? && RbnPosOf(raw).value.value in OdwnPosTags &&
             LuTypeOf(FindText(raw, "morphology_" + RbnPosOf(raw).value.value + "/morpho-type")).Err?) ==>
      Construct(raw, namespace, abbreviatedNamespace) == Err(MappingError)
    ensures Construct(raw, namespace, abbreviatedNamespace).Ok? <==>
      raw.cLuId.Some? && raw.cLuId.value != "" && CanonicalFormsOf(raw.examples).Ok? &&
      (raw.form.None? ||
       (raw.form.value.cat.Some? && RbnPosOf(raw).value.value in OdwnPosTags &&
        LuTypeOf(FindText(raw, "morphology_" + RbnPosOf(raw).value.value + "/morpho-type")).Ok?))
  {
    CanonicalFormsSpec(raw.examples);
    if raw.form.Some? && raw.form.value.cat.Some? {
      PosTables(RbnPosOf(raw).value.value);
    }
  }

  /** An empty form-cat passes the `is not None` test and then fails the POS table. */
  lemma EmptyPosRaises(raw: CdbLu, namespace: string, abbreviatedNamespace: string)
    requires raw.cLuId.Some? && raw.cLuId.value != "" && CanonicalFormsOf(raw.examples).Ok?
    requires raw.form.Some? && raw.form.value.cat == Some("")
    ensures RbnPosOf(raw) == Ok(Some(""))
    ensures Construct(raw, namespace, abbreviatedNamespace) == Err(ValueError)
  {
  }

  /**
   * On success the entry is kept exactly when the form child is present
   * with a non-empty spelling: an empty or missing form-cat never gets this far.
   */
  lemma AddFlag(raw: CdbLu, namespace: string, abbreviatedNamespace: string)
    requires Construct(raw, namespace, abbreviatedNamespace).Ok?
    ensures var e := Construct(raw, namespace, abbreviatedNamespace).value;
      e.add <==> raw.form.Some? && Truthy(raw.form.value.spelling)
  {
    if raw.form.Some? {
      PosTables(RbnPosOf(raw).value.value);
    }
  }

  /**
   * The identity fields: sense_id is the non-empty c_lu_id (so the assert
   * after it holds), prefix its first character.
   */
  lemma Identity(raw: CdbLu, namespace: string, abbreviatedNamespace: string)
    requires Construct(raw, namespace, abbreviatedNamespace).Ok?
    ensures var e := Construct(raw, namespace, abbreviatedNamespace).value;
      raw.cLuId == Some(e.senseId) && e.senseId != "" && e.prefix == [e.senseId[0]] &&
      e.cSeqNr == raw.cSeqNr && e.lemmaForm == LemmaOf(raw) &&
      e.namespace == namespace && e.abbreviatedNamespace == abbreviatedNamespace &&
      CanonicalFormsOf(raw.examples) == Ok(e.canonicalForms)
  {
  }

  /**
   * POS-dependent fields are filled only after POS resolution: without a
   * form child they all keep their initial value; with one the part of
   * speech is one of the three the tables map, and the codes follow it.
   */
  lemma PosDependentFields(raw: CdbLu, namespace: string, abbreviatedNamespace: string)
    requires Construct(raw, namespace, abbreviatedNamespace).Ok?
    ensures var e := Construct(raw, namespace, abbreviatedNamespace).value;
      (e.rbnPos.None? <==> raw.form.None?) &&
      (e.rbnPos.None? ==>
        e.simplePos.None? && e.fnPos.None? && e.senseLabel.None? && e.article.None? &&
        e.definition.None? && e.morphoType.None? && e.luType.None? && e.semType.None? &&
        e.morphoStructure.None? && e.parts == [] && e.fullRdfUri.None? && e.shortRdfUri.None? &&
        e.rbnFeatureSet.None?) &&
      (e.rbnPos.Some? ==>
        e.rbnPos.value in OdwnPosTags &&
        Ok(e.simplePos.value) == SimplePos(e.rbnPos.value) &&
        Ok(e.fnPos.value) == FnPos(e.rbnPos.value) &&
        LuTypeOf(e.morphoType) == Ok(e.luType))
  {
    if raw.form.Some? {
      PosTables(RbnPosOf(raw).value.value);
    }
  }

  /**
   * Verb-only fields: rbn_feature_set is filled only for verbs; rbn_type,
   * separable, the provenance fields and synset_id are never filled here.
   */
  lemma VerbOnlyFields(raw: CdbLu, namespace: string, abbreviatedNamespace: string)
    requires Construct(raw, namespace, abbreviatedNamespace).Ok?
    ensures var e := Construct(raw, namespace, abbreviatedNamespace).value;
      (e.rbnFeatureSet.Some? ==> e.simplePos == Some("v") && e.rbnPos == Some("verb")) &&
      (e.simplePos == Some("v") ==>
        e.rbnFeatureSet == FindText(raw, "semantics_verb/sem-caseframe/caseframe")) &&
      e.rbnType.None? && e.separable.None? && e.provenanceSet.None? &&
      e.provenanceLabel.None? && e.synsetId.None?
  {
    if raw.form.Some? {
      PosTables(RbnPosOf(raw).value.value);
    }
  }

  /** sense_label is lemma-simple_pos-c_seq_nr, and both URIs end with RBN-sense_label. */
  lemma SenseLabelAndUris(raw: CdbLu, namespace: string, abbreviatedNamespace: string)
    requires Construct(raw, namespace, abbreviatedNamespace).Ok?
    requires Construct(raw, namespace, abbreviatedNamespace).value.simplePos.Some?
    ensures var e := Construct(raw, namespace, abbreviatedNamespace).value;
      e.senseLabel == Some(Format(e.lemmaForm) + "-" + e.simplePos.value + "-" + Format(e.cSeqNr)) &&
      e.fullRdfUri == Some(namespace + "RBN-" + e.senseLabel.value) &&
      e.shortRdfUri == Some("(" + abbreviatedNamespace + ")RBN-" + e.senseLabel.value)
  {
  }

  /**
   * The parts of a constructed entry are those of split_morphostructure:
   * either none, or non-empty marker-free fragments spelling the lemma.
   */
  lemma ConstructedParts(raw: CdbLu, namespace: string, abbreviatedNamespace: string)
    requires Construct(raw, namespace, abbreviatedNamespace).Ok?
    ensures var e := Construct(raw, namespace, abbreviatedNamespace).value;
      (e.parts == [] || Some(Concat(e.parts)) == e.lemmaForm) && WellFormedParts(e.parts)
  {
    var e := Construct(raw, namespace, abbreviatedNamespace).value;
    SplitSpecSpec(e.morphoStructure, e.lemmaForm);
  }

  /** A constructed entry never has an LU type together with the morpho-type 'compound'. */
  lemma CompoundHasNoLuType(raw: CdbLu, namespace: string, abbreviatedNamespace: string)
    requires Construct(raw, namespace, abbreviatedNamespace).Ok?
    ensures var e := Construct(raw, namespace, abbreviatedNamespace).value;
      e.morphoType == Some("compound") ==> e.luType.None?
  {
    if raw.form.Some? {
      PosTables(RbnPosOf(raw).value.value);
    }
  }

  // ---------------------------------------------------------------------
  // Lexemes of a FrameNet lexical unit

  /**
   * One lexeme dict. order, breakBefore and name are always present; a
   * None headword, pos or head is a key the dict does not have (pos may be
   * present with the value None when fn_pos is None).
   */
  datatype Lexeme = Lexeme(
    order: string,
    breakBefore: string,
    name: Option<string>,
    headword: Option<string>,
    pos: Option<Option<string>>,
    head: Option<string>)

  /** The linking elements that get the POS 'I' in the middle of a three-part compound. */
  const LinkingElements: set<string> := {"s", "e", "en", "n", "ne", "er"}

  /** The lexeme of the part at index i of a compound with n parts. */
  function CompoundLexeme(parts: seq<string>, i: nat, n: nat, fnPos: Option<string>): Lexeme
    requires i < |parts|
  {
    var order := i + 1;
    if order < n then
      Lexeme(NatToString(order), "false", Some(parts[i]), Some("false"),
             if n == 3 && order == 2 && parts[i] in LinkingElements then Some(Some("I")) else None, None)
    else
      Lexeme(NatToString(order), "false", Some(parts[i]), None, Some(fnPos), Some("true"))
  }

  /** The lexemes of the first parts of a compound with n parts. */
  function CompoundLexemes(parts: seq<string>, n: nat, fnPos: Option<string>): (r: seq<Lexeme>)
    ensures |r| == |parts|
  {
    if parts == [] then []
    else CompoundLexemes(parts[..|parts| - 1], n, fnPos) + [CompoundLexeme(parts, |parts| - 1, n, fnPos)]
  }

  /** What get_lexemes returns for the entry's lu_type, morpho_type, parts, fn_pos and lemma. */
  function LexemesOf(
    luType: Option<LuType>, morphoType: Option<string>, parts: seq<string>,
    fnPos: Option<string>, lemmaForm: Option<string>): (seq<Lexeme>, bool)
  {
    if luType.None? then ([], false)
    else if luType.value == Singleton || luType.value == ExocentricCompound then
      ([Lexeme("1", "false", lemmaForm, Some("false"), Some(fnPos), None)], true)
    else if morphoType == Some("compound") then (CompoundLexemes(parts, |parts|, fnPos), false)
    else if luType.value == Phrasal && |parts| == 2 then
      ([Lexeme("1", "false", Some(parts[0]), Some("false"), None, None),
        Lexeme("2", "false", Some(parts[1]), Some("false"), Some(fnPos), None)], true)
    else ([], false)
  }

  /** The FrameNet lexical unit dict built by get_fn_nltk_format. */
  datatype FnLu = FnLu(
    lexemes: seq<Lexeme>,
    definition: Option<string>,
    luName: Option<string>,
    luType: Option<LuType>,
    status: Option<string>,
    pos: Option<string>,
    frame: Option<string>,
    provenance: Option<string>,
    incorporatedFe: Option<string>,
    timestamp: Option<string>,
    optionalLuAttrs: map<string, string>)

  /** The attributes whose falsy value calls for annotation. */
  const CheckedAttributes: set<string> := {"definition", "status", "POS", "frame", "provenance"}

  /** lu[a] for a checked attribute a. */
  function CheckedValue(lu: FnLu, a: string): Option<string>
  {
    if a == "definition" then lu.definition
    else if a == "status" then lu.status
    else if a == "POS" then lu.pos
    else if a == "frame" then lu.frame
    else lu.provenance
  }

  /** The checked attributes whose value in lu is falsy. */
  function Unannotated(lu: FnLu): (r: set<string>)
    ensures r <= CheckedAttributes
    ensures forall a :: a in CheckedAttributes ==> (a in r <==> !Truthy(CheckedValue(lu, a)))
  {
    set a | a in CheckedAttributes && !Truthy(CheckedValue(lu, a))
  }

  /** The loop of get_fn_nltk_format that adds every checked attribute with a falsy value. */
  method AddUnannotated(lu: FnLu, attributes: set<string>) returns (r: set<string>)
    ensures r == attributes + Unannotated(lu)
  {
    r := attributes;
    var checked := ["definition", "status", "POS", "frame", "provenance"];
    for k := 0 to |checked|
      invariant r == attributes + set j | 0 <= j < k && !Truthy(CheckedValue(lu, checked[j])) :: checked[j]
    {
      var value := CheckedValue(lu, checked[k]);
      if !Truthy(value) {
        r := r + {checked[k]};
      }
    }
    forall a | a in Unannotated(lu)
      ensures a in r
    {
      assert a == checked[0] || a == checked[1] || a == checked[2] || a == checked[3] || a == checked[4];
    }
  }

  /** Without an LU type there are no lexemes and they are incomplete. */
  lemma LexemesWithoutLuType(morphoType: Option<string>, parts: seq<string>, fnPos: Option<string>, lemmaForm: Option<string>)
    ensures LexemesOf(None, morphoType, parts, fnPos, lemmaForm) == ([], false)
  {
  }

  /** A singleton or exocentric compound: one complete lexeme named by the lemma, carrying the POS. */
  lemma LexemesSingleton(luType: LuType, morphoType: Option<string>, parts: seq<string>, fnPos: Option<string>, lemmaForm: Option<string>)
    requires luType == Singleton || luType == ExocentricCompound
    ensures var (lexemes, complete) := LexemesOf(Some(luType), morphoType, parts, fnPos, lemmaForm);
      complete && |lexemes| == 1 && lexemes[0].name == lemmaForm && lexemes[0].order == "1" &&
      lexemes[0].pos == Some(fnPos)
  {
  }

  /**
   * A phrasal entry with two parts (and not a compound): two complete
   * lexemes named by the parts in order, only the second carrying the POS.
   */
  lemma LexemesPhrasal(morphoType: Option<string>, parts: seq<string>, fnPos: Option<string>, lemmaForm: Option<string>)
    requires morphoType != Some("compound") && |parts| == 2
    ensures var (lexemes, complete) := LexemesOf(Some(Phrasal), morphoType, parts, fnPos, lemmaForm);
      complete && |lexemes| == 2 &&
      lexemes[0].name == Some(parts[0]) && lexemes[1].name == Some(parts[1]) &&
      lexemes[0].order == "1" && lexemes[1].order == "2" &&
      lexemes[0].pos.None? && lexemes[1].pos == Some(fnPos)
  {
  }

  /** The lexemes are complete exactly for singletons, exocentric compounds and two-part phrasal entries. */
  lemma LexemesComplete(
    luType: Option<LuType>, morphoType: Option<string>, parts: seq<string>,
    fnPos: Option<string>, lemmaForm: Option<string>)
    ensures LexemesOf(luType, morphoType, parts, fnPos, lemmaForm).1 <==>
      luType == Some(Singleton) || luType == Some(ExocentricCompound) ||
      (luType == Some(Phrasal) && morphoType != Some("compound") && |parts| == 2)
    ensures !LexemesOf(luType, morphoType, parts, fnPos, lemmaForm).1 && morphoType != Some("compound") ==>
      LexemesOf(luType, morphoType, parts, fnPos, lemmaForm).0 == []
  {
  }

  /**
   * The compound branch: one lexeme per part, in order, numbered from 1;
   * only the last is the head and carries fn_pos, the others are not
   * headwords.
   */
  lemma {:induction false} CompoundLexemesShape(parts: seq<string>, n: nat, fnPos: Option<string>)
    requires |parts| <= n
    ensures var r := CompoundLexemes(parts, n, fnPos);
      forall i :: 0 <= i < |parts| ==>
        r[i].name == Some(parts[i]) && r[i].order == NatToString(i + 1) && r[i].breakBefore == "false" &&
        (i + 1 == n <==> r[i].head == Some("true")) &&
        (i + 1 < n ==> r[i].headword == Some("false") && (r[i].pos.Some? ==> r[i].pos == Some(Some("I")))) &&
        (i + 1 == n ==> r[i].headword.None? && r[i].pos == Some(fnPos))
  {
    if parts != [] {
      var init := parts[..|parts| - 1];
      CompoundLexemesShape(init, n, fnPos);
      assert forall i :: 0 <= i < |init| ==> init[i] == parts[i];
    }
  }

  /** The compound branch of get_lexemes never runs for a constructed entry. */
  lemma ConstructedLexemesSkipCompound(raw: CdbLu, namespace: string, abbreviatedNamespace: string)
    requires Construct(raw, namespace, abbreviatedNamespace).Ok?
    ensures var e := Construct(raw, namespace, abbreviatedNamespace).value;
      var (lexemes, complete) := LexemesOf(e.luType, e.morphoType, e.parts, e.fnPos, e.lemmaForm);
      !complete ==> lexemes == []
  {
    CompoundHasNoLuType(raw, namespace, abbreviatedNamespace);
  }

  // ---------------------------------------------------------------------
  // The LE object

  /** get_canonical_forms: one pass over the examples, filling a dict. */
  method GetCanonicalForms(examples: seq<ExampleEl>) returns (r: Result<map<Option<string>, string>, Fault>)
    ensures r == CanonicalFormsOf(examples)
  {
    CanonicalFormsSpec(examples);
    var forms: map<Option<string>, string> := map[];
    for i := 0 to |examples|
      invariant CanonicalFormsOf(examples[..i]) == Ok(forms)
    {
      assert examples[..i + 1][..i] == examples[..i];
      var example := examples[i];
      if example.canonicalForm.None? {
        return Err(AttributeError);
      }
      var text := example.canonicalForm.value.text;
      if Truthy(text) {
        forms := forms[example.exampleId := text.value];
      }
    }
    assert examples[..|examples|] == examples;
    r := Ok(forms);
  }

  class LE {
    var add: bool
    var namespace: string
    var abbreviatedNamespace: string
    var senseId: string
    var prefix: string
    var cSeqNr: Option<string>
    var lemmaForm: Option<string>
    var article: Option<string>
    var parts: seq<string>
    var senseLabel: Option<string>
    var definition: Option<string>
    var rbnPos: Option<string>
    var simplePos: Option<string>
    var morphoType: Option<string>
    var luType: Option<LuType>
    var semType: Option<string>
    var morphoStructure: Option<string>
    var fnPos: Option<string>
    var rbnType: Option<string>
    var rbnFeatureSet: Option<string>
    var separable: Option<bool>
    var provenanceSet: Option<set<string>>
    var provenanceLabel: Option<string>
    var synsetId: Option<string>
    var canonicalForms: map<Option<string>, string>
    var fullRdfUri: Option<string>
    var shortRdfUri: Option<string>

    /** The object's fields as a value. */
    function View(): Entry
      reads this
    {
      Entry(add, namespace, abbreviatedNamespace, senseId, prefix, cSeqNr, lemmaForm, article,
            parts, senseLabel, definition, rbnPos, simplePos, morphoType, luType, semType,
            morphoStructure, fnPos, rbnType, rbnFeatureSet, separable, provenanceSet,
            provenanceLabel, synsetId, canonicalForms, fullRdfUri, shortRdfUri)
    }

    /** The object holding the fields of e. */
    constructor (e: Entry)
      ensures View() == e
    {
      add, namespace, abbreviatedNamespace, senseId, prefix := e.add, e.namespace, e.abbreviatedNamespace, e.senseId, e.prefix;
      cSeqNr, lemmaForm, article, parts, senseLabel := e.cSeqNr, e.lemmaForm, e.article, e.parts, e.senseLabel;
      definition, rbnPos, simplePos, morphoType, luType := e.definition, e.rbnPos, e.simplePos, e.morphoType, e.luType;
      semType, morphoStructure, fnPos, rbnType := e.semType, e.morphoStructure, e.fnPos, e.rbnType;
      rbnFeatureSet, separable, provenanceSet, provenanceLabel := e.rbnFeatureSet, e.separable, e.provenanceSet, e.provenanceLabel;
      synsetId, canonicalForms, fullRdfUri, shortRdfUri := e.synsetId, e.canonicalForms, e.fullRdfUri, e.shortRdfUri;
    }

    /** get_lexemes: the lexemes of the entry and whether they are complete. */
    method GetLexemes() returns (lexemes: seq<Lexeme>, complete: bool)
      ensures (lexemes, complete) == LexemesOf(luType, morphoType, parts, fnPos, lemmaForm)
    {
      complete := false;
      if luType.None? {
        lexemes := [];
      } else if luType.value == Singleton || luType.value == ExocentricCompound {
        lexemes := [Lexeme("1", "false", lemmaForm, Some("false"), Some(fnPos), None)];
        complete := true;
      } else if morphoType == Some("compound") {
        lexemes := [];
        for i := 0 to |parts|
          invariant lexemes == CompoundLexemes(parts[..i], |parts|, fnPos)
        {
          var order := i + 1;
          var lexeme := Lexeme(NatToString(order), "false", Some(parts[i]), None, None, None);
          if order < |parts| {
            lexeme := lexeme.(headword := Some("false"));
            if |parts| == 3 && order == 2 && parts[i] in LinkingElements {
              lexeme := lexeme.(pos := Some(Some("I")));
            }
          } else {
            lexeme := lexeme.(pos := Some(fnPos), head := Some("true"));
          }
          assert parts[..i + 1][..i] == parts[..i];
          lexemes := lexemes + [lexeme];
        }
        assert parts[..|parts|] == parts;
      } else if luType.value == Phrasal && |parts| == 2 {
        lexemes := [
          Lexeme("1", "false", Some(parts[0]), Some("false"), None, None),
          Lexeme("2", "false", Some(parts[1]), Some("false"), Some(fnPos), None)];
        complete := true;
      } else {
        lexemes := [];
      }
    }

    /**
     * get_fn_nltk_format: the FrameNet lexical unit of the entry and the
     * attributes still to be annotated by hand.
     */
    method GetFnNltkFormat(
      frame: Option<string>, luName: Option<string>, provenance: Option<string>,
      status: Option<string> := Some("Created"), incorporatedFe: Option<string> := None,
      timestamp: Option<string> := None, optionalLuAttrs: map<string, string> := map[])
      returns (lu: FnLu, toAnnotate: set<string>)
      ensures lu == FnLu(LexemesOf(luType, morphoType, parts, fnPos, lemmaForm).0, definition, luName,
                         luType, status, fnPos, frame, provenance, incorporatedFe, timestamp, optionalLuAttrs)
      ensures "lu_type" in toAnnotate <==> luType.None?
      ensures "lexemes" in toAnnotate <==> !LexemesOf(luType, morphoType, parts, fnPos, lemmaForm).1
      ensures toAnnotate == (if luType.None? then {"lu_type"} else {}) +
        (if LexemesOf(luType, morphoType, parts, fnPos, lemmaForm).1 then {} else {"lexemes"}) + Unannotated(lu)
      ensures "status" in toAnnotate <==> !Truthy(status)
    {
      toAnnotate := {};
      var lexemes, complete := GetLexemes();
      if luType.None? {
        LexemesWithoutLuType(morphoType, parts, fnPos, lemmaForm);
        complete := false;
        toAnnotate := toAnnotate + {"lu_type"};
      }
      lu := FnLu(lexemes, definition, luName, luType, status, fnPos, frame, provenance,
                 incorporatedFe, timestamp, optionalLuAttrs);
      if !complete {
        toAnnotate := toAnnotate + {"lexemes"};
      }
      toAnnotate := AddUnannotated(lu, toAnnotate);
    }
  }

  /**
   * get_lemma: the form-spelling; a missing form or an empty spelling
   * lowers the keep flag, which is passed in and handed back.
   */
  method GetLemma(raw: CdbLu, add: bool) returns (lemmaForm: Option<string>, add': bool)
    ensures lemmaForm == LemmaOf(raw)
    ensures add' == (add && Truthy(lemmaForm))
  {
    add' := add;
    if raw.form.None? {
      add' := false;
      lemmaForm := None;
    } else {
      lemmaForm := raw.form.value.spelling;
    }
    if !Truthy(lemmaForm) {
      add' := false;
    }
  }

  /**
   * get_rbn_pos: the normalised form-cat; a missing form or an empty part
   * of speech lowers the keep flag, a missing form-cat raises.
   */
  method GetRbnPos(raw: CdbLu, add: bool) returns (pos: Result<Option<string>, Fault>, add': bool)
    ensures pos == RbnPosOf(raw)
    ensures pos.Ok? ==> add' == (add && Truthy(pos.value))
  {
    add' := add;
    var p: Option<string>;
    if raw.form.None? {
      add' := false;
      p := None;
    } else {
      var cat := raw.form.value.cat;
      if cat.None? {
        return Err(AttributeError), add';
      }
      var lowered := Lower(cat.value);
      if lowered == "adjective" {
        lowered := "adj";
      }
      p := Some(lowered);
    }
    if !Truthy(p) {
      add' := false;
    }
    pos := Ok(p);
  }

  /**
   * LE(le_xml_obj, namespace, abbreviated_namespace): the constructor's
   * statements in order over local variables, then a new object holding
   * them; or the exception the constructor raises.
   */
  method NewLE(raw: CdbLu, namespace: string, abbreviatedNamespace: string) returns (r: Result<LE, Fault>)
    ensures r.Ok? <==> Construct(raw, namespace, abbreviatedNamespace).Ok?
    ensures r.Err? ==> Construct(raw, namespace, abbreviatedNamespace) == Err(r.error)
    ensures r.Ok? ==> fresh(r.value) && r.value.View() == Construct(raw, namespace, abbreviatedNamespace).value
  {
    var add := true;
    if raw.cLuId.None? {
      return Err(TypeError);
    }
    var senseId := raw.cLuId.value;
    if |senseId| == 0 {
      return Err(IndexError);
    }
    var prefix := senseId[..1];
    var cSeqNr := raw.cSeqNr;

    var lemmaForm;
    lemmaForm, add := GetLemma(raw, add);
    var article: Option<string> := None;
    var parts: seq<string> := [];
    var senseLabel: Option<string> := None;
    var definition: Option<string> := None;
    var rbnPos: Option<string> := None;
    var simplePos: Option<string> := None;
    var morphoType: Option<string> := None;
    var luType: Option<LuType> := None;
    var morphoStructure: Option<string> := None;
    var fnPos: Option<string> := None;
    var rbnFeatureSet: Option<string> := None;
    // the attributes below are assigned only once rbn_pos is resolved
    var semType: Option<string> := None;
    var fullRdfUri: Option<string> := None;
    var shortRdfUri: Option<string> := None;

    var forms := GetCanonicalForms(raw.examples);
    if forms.Err? {
      return Err(forms.error);
    }
    var canonicalForms := forms.value;

    var pos;
    pos, add := GetRbnPos(raw, add);
    if pos.Err? {
      return Err(pos.error);
    }
    rbnPos := pos.value;
    if rbnPos.Some? {
      var p := rbnPos.value;
      article := FindText(raw, "syntax_" + p + "/sy-article");
      var simple := SimplePos(p);
      if simple.Err? {
        return Err(simple.error);
      }
      simplePos := Some(simple.value);
      definition := FindText(raw, DefinitionQuery(simple.value));
      PosTables(p);
      fnPos := Some(FnPos(p).value);
      senseLabel := Some(Format(lemmaForm) + "-" + simple.value + "-" + Format(cSeqNr));
      morphoType := FindText(raw, "morphology_" + p + "/morpho-type");
      var lu := LuTypeOf(morphoType);
      if lu.Err? {
        return Err(lu.error);
      }
      luType := lu.value;
      semType := FindText(raw, "semantics_" + p + "/sem-type");
      morphoStructure := FindText(raw, "morphology_" + p + "/morpho-structure");
      parts := SplitMorphostructure(morphoStructure, lemmaForm);
      fullRdfUri := Some(namespace + "RBN-" + senseLabel.value);
      shortRdfUri := Some("(" + abbreviatedNamespace + ")RBN-" + senseLabel.value);
    }
    if simplePos == Some("v") {
      rbnFeatureSet := FindText(raw, "semantics_verb/sem-caseframe/caseframe");
    }

    var le := new LE(Entry(
      add, namespace, abbreviatedNamespace, senseId, prefix, cSeqNr, lemmaForm, article, parts,
      senseLabel, definition, rbnPos, simplePos, morphoType, luType, semType, morphoStructure,
      fnPos, None, rbnFeatureSet, None, None, None, None, canonicalForms, fullRdfUri, shortRdfUri));
    r := Ok(le);
  }

  // ---------------------------------------------------------------------
  // Synsets

  /**
   * A Synset element: its ili and id attributes, and its
   * `Definitions/Definition` child when it has one.
   */
  datatype SynsetEl = SynsetEl(ili: Option<string>, id: Option<string>, definitionEl: Option<Element>)

  /** get_definition of a synset: the gloss of its definition, or "" when it has none. */
  function SynsetDefinition(el: SynsetEl): Option<string>
  {
    match el.definitionEl
    case None => Some("")
    case Some(d) => Get(d, "gloss")
  }

  class Synset {
    var ili: Option<string>
    var synsetId: Option<string>
    var definition: Option<string>
    var synonyms: seq<LE>

    /** A synset as first read: its attributes, its definition, and no synonyms yet. */
    constructor (el: SynsetEl)
      ensures ili == el.ili && synsetId == el.id && definition == SynsetDefinition(el)
      ensures synonyms == []
      ensures el.definitionEl.None? ==> definition == Some("")
    {
      ili := el.ili;
      synsetId := el.id;
      definition := SynsetDefinition(el);
      synonyms := [];
    }
  }
}
