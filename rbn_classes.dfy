/**
 * The lexical entries of the RBN (Referentiebestand Nederlands) XML
 * schema: one `LexicalEntry` element, read into an LE object whose
 * part-of-speech fields are filled only for single-word entries and whose
 * verb fields are filled only for verbs.
 */
module RbnClasses {
  import opened Builtins
  import opened Xml

  // ---------------------------------------------------------------------
  // The LexicalEntry element

  /**
   * The `Sense/Semantics-verb` element: how many children it has that are
   * not `semanticTypes` elements, and its `semanticTypes` children in
   * document order.
   */
  datatype SemanticsVerbEl = SemanticsVerbEl(otherChildren: nat, semanticTypes: seq<Element>)

  /**
   * A LexicalEntry element: its own attributes, the first `Lemma`,
   * `MultiwordExpression`, `Sense`, `Sense/Semantics-verb` and `Morphology`
   * elements it has (None when there is none), and every
   * `Sense/SenseExamples/SenseExample/canonicalForm` element in document order.
   */
  datatype LexEntryEl = LexEntryEl(
    attrs: Element,
    lemmaEl: Option<Element>,
    multiwordEl: Option<Element>,
    sense: Option<Element>,
    semanticsVerb: Option<SemanticsVerbEl>,
    morphology: Option<Element>,
    canonicalFormEls: seq<Element>)

  // ---------------------------------------------------------------------
  // The getters

  /**
   * get_lemma: the writtenForm of the MultiwordExpression child for a
   * multiword entry and of the Lemma child otherwise; reading it from a
   * missing child raises AttributeError.
   */
  function LemmaOf(raw: LexEntryEl, mw: bool): (r: Result<Option<string>, Fault>)
    ensures var child := if mw then raw.multiwordEl else raw.lemmaEl;
      (r.Err? <==> child.None?) && (r.Err? ==> r.error == AttributeError) &&
      (r.Ok? ==> r.value == Get(child.value, "writtenForm"))
  {
    var child := if mw then raw.multiwordEl else raw.lemmaEl;
    if child.None? then Err(AttributeError) else Ok(Get(child.value, "writtenForm"))
  }

  /** get_canonical_forms: the canonicalform attribute of every canonicalForm element, None where it is absent. */
  function CanonicalFormsOf(raw: LexEntryEl): (r: seq<Option<string>>)
    ensures |r| == |raw.canonicalFormEls|
    ensures forall i :: 0 <= i < |r| ==> r[i] == Get(raw.canonicalFormEls[i], "canonicalform")
  {
    seq(|raw.canonicalFormEls|, i requires 0 <= i < |raw.canonicalFormEls| => Get(raw.canonicalFormEls[i], "canonicalform"))
  }

  /** The five parts of speech of the RBN schema. */
  const RbnPosTags: set<string> := {"verb", "noun", "adjective", "adverb", "other"}

  /** get_simple_pos: verb, noun, adjective, adverb, other to v, n, a, r, o; anything else (None included) raises ValueError. */
  function SimplePos(rbnPos: Option<string>): Result<string, Fault>
  {
    if rbnPos == Some("verb") then Ok("v")
    else if rbnPos == Some("noun") then Ok("n")
    else if rbnPos == Some("adjective") then Ok("a")
    else if rbnPos == Some("adverb") then Ok("r")
    else if rbnPos == Some("other") then Ok("o")
    else Err(ValueError)
  }

  /** get_fn_pos: verb, noun, adjective, adverb, other to V, N, A, ADV, o; anything else (None included) raises ValueError. */
  function FnPos(rbnPos: Option<string>): Result<string, Fault>
  {
    if rbnPos == Some("verb") then Ok("V")
    else if rbnPos == Some("noun") then Ok("N")
    else if rbnPos == Some("adjective") then Ok("A")
    else if rbnPos == Some("adverb") then Ok("ADV")
    else if rbnPos == Some("other") then Ok("o")
    else Err(ValueError)
  }

  /**
   * Both tables are defined on exactly the five RBN tags and raise
   * ValueError elsewhere; a verb, and only a verb, maps to v and V.
   */
  lemma PosTables(rbnPos: Option<string>)
    ensures SimplePos(rbnPos).Ok? <==> rbnPos.Some? && rbnPos.value in RbnPosTags
    ensures FnPos(rbnPos).Ok? <==> SimplePos(rbnPos).Ok?
    ensures SimplePos(rbnPos).Err? ==> SimplePos(rbnPos).error == ValueError && FnPos(rbnPos).error == ValueError
    ensures SimplePos(rbnPos) == Ok("v") <==> rbnPos == Some("verb")
    ensures FnPos(rbnPos) == Ok("V") <==> rbnPos == Some("verb")
  {
  }

  /** The tables are injective: distinct RBN tags get distinct simple and FrameNet tags. */
  lemma PosTablesInjective(p: Option<string>, q: Option<string>)
    requires SimplePos(p).Ok? && SimplePos(q).Ok? && p != q
    ensures SimplePos(p) != SimplePos(q) && FnPos(p) != FnPos(q)
  {
  }

  /** getchildren() of the Semantics-verb element is non-empty. */
  predicate HasChildren(sv: SemanticsVerbEl)
  {
    sv.otherChildren > 0 || sv.semanticTypes != []
  }

  /**
   * The values get_rbn_type (key semanticType) and get_rbn_feature_set
   * (key semanticFeatureSet) join: a missing Semantics-verb raises
   * AttributeError, one without children gives None, and otherwise the
   * values of the key on the semanticTypes children that carry it.
   */
  function SemanticValues(raw: LexEntryEl, key: string): Result<Option<set<string>>, Fault>
  {
    match raw.semanticsVerb
    case None => Err(AttributeError)
    case Some(sv) =>
      if !HasChildren(sv) then Ok(None)
      else
        FilteredValuesNeverFail(sv.semanticTypes, key);
        Ok(Some(AttributeValues(WithAttribute(sv.semanticTypes, key), key).value))
  }

  /**
   * The joined values are exactly the values of the key on the
   * semanticTypes children; children without the key are skipped.
   */
  lemma SemanticValuesSpec(raw: LexEntryEl, key: string)
    ensures SemanticValues(raw, key).Err? <==> raw.semanticsVerb.None?
    ensures SemanticValues(raw, key).Err? ==> SemanticValues(raw, key).error == AttributeError
    ensures SemanticValues(raw, key) == Ok(None) <==> raw.semanticsVerb.Some? && !HasChildren(raw.semanticsVerb.value)
    ensures SemanticValues(raw, key).Ok? && SemanticValues(raw, key).value.Some? ==>
      forall v :: v in SemanticValues(raw, key).value.value <==>
        exists i :: 0 <= i < |raw.semanticsVerb.value.semanticTypes| &&
          Get(raw.semanticsVerb.value.semanticTypes[i], key) == Some(v)
  {
    if raw.semanticsVerb.Some? && HasChildren(raw.semanticsVerb.value) {
      var els := raw.semanticsVerb.value.semanticTypes;
      var filtered := WithAttribute(els, key);
      AttributeValuesSpec(filtered, key);
      WithAttributeMembers(els, key);
    }
  }

  /**
   * get_separable: True exactly when the Morphology child has a
   * separability attribute equal to 'separable'; a missing Morphology
   * raises AttributeError.
   */
  function Separable(raw: LexEntryEl): (r: Result<bool, Fault>)
    ensures r.Err? <==> raw.morphology.None?
    ensures r.Err? ==> r.error == AttributeError
    ensures r.Ok? ==> (r.value <==> "separability" in raw.morphology.value.attrs &&
                                    raw.morphology.value.attrs["separability"] == "separable")
  {
    match raw.morphology
    case None => Err(AttributeError)
    case Some(m) => Ok("separability" in m.attrs && m.attrs["separability"] == "separable")
  }

  /** ';'.join(canonical_forms): a None among them raises TypeError. */
  function JoinForms(forms: seq<Option<string>>): (r: Result<string, Fault>)
    ensures r.Err? <==> exists i :: 0 <= i < |forms| && forms[i].None?
    ensures r.Err? ==> r.error == TypeError
  {
    if forms == [] then Ok("")
    else if forms[0].None? then Err(TypeError)
    else
      var rest :- JoinForms(forms[1..]);
      assert forall i :: 1 <= i < |forms| ==> forms[i] == forms[1..][i - 1];
      Ok(if |forms| == 1 then forms[0].value else forms[0].value + ";" + rest)
  }

  /** The forms without None. */
  function FormValues(forms: seq<Option<string>>): (r: seq<string>)
    requires forall i :: 0 <= i < |forms| ==> forms[i].Some?
    ensures |r| == |forms| && forall i :: 0 <= i < |forms| ==> Some(r[i]) == forms[i]
  {
    seq(|forms|, i requires 0 <= i < |forms| => forms[i].value)
  }

  /** Joining forms that are all present is the ';'-join of their values. */
  lemma {:induction false} JoinFormsValues(forms: seq<Option<string>>)
    requires forall i :: 0 <= i < |forms| ==> forms[i].Some?
    ensures JoinForms(forms) == Ok(Join(FormValues(forms), ";"))
  {
    if forms != [] {
      assert forall i :: 0 <= i < |forms[1..]| ==> forms[1..][i] == forms[i + 1];
      JoinFormsValues(forms[1..]);
      assert FormValues(forms)[1..] == FormValues(forms[1..]);
    }
  }

  // ---------------------------------------------------------------------
  // The state of a constructed LE

  /** The hover_info dict. */
  datatype HoverInfo = HoverInfo(
    pos: Option<string>,
    lemmaForm: Option<string>,
    mw: bool,
    rbnType: Option<string>,
    rbnFeatureSet: Option<string>,
    definition: Option<string>,
    canonicalForms: string)

  /** The attributes of an LE object once its constructor has returned. */
  datatype Entry = Entry(
    id: string,
    mw: bool,
    lemmaForm: Option<string>,
    rbnPos: Option<string>,
    simplePos: Option<string>,
    fnPos: Option<string>,
    rbnType: Option<string>,
    rbnFeatureSet: Option<string>,
    separable: Option<bool>,
    senseId: Option<string>,
    synsetId: Option<string>,
    definition: Option<string>,
    canonicalForms: seq<Option<string>>,
    namespace: string,
    abbreviatedNamespace: string,
    fullRdfUri: string,
    shortRdfUri: string,
    hoverInfo: HoverInfo)

  /** The part-of-speech fields: all None for a multiword entry. */
  datatype PosFields = PosFields(rbnPos: Option<string>, simplePos: Option<string>, fnPos: Option<string>)

  /** The verb fields: all None unless the simple part of speech is v. */
  datatype VerbFields = VerbFields(rbnType: Option<string>, rbnFeatureSet: Option<string>, separable: Option<bool>)

  /** The part-of-speech fields of a single-word entry. */
  function ResolvePos(raw: LexEntryEl): Result<PosFields, Fault>
  {
    var p := Get(raw.attrs, "partOfSpeech");
    var simple :- SimplePos(p);
    PosTables(p);
    Ok(PosFields(p, Some(simple), Some(FnPos(p).value)))
  }

  /**
   * '-'.join over a set of values, for a given iteration order of the set;
   * the join is taken only where there are values to join.
   */
  function Joined(values: Option<set<string>>, order: seq<string>): Option<string>
  {
    if values.None? then None else Some(Join(order, "-"))
  }

  /** The verb fields, in the order the constructor computes them. */
  function ResolveVerb(raw: LexEntryEl, typeOrder: seq<string>, featureOrder: seq<string>): Result<VerbFields, Fault>
  {
    var types :- SemanticValues(raw, "semanticType");
    var features :- SemanticValues(raw, "semanticFeatureSet");
    var separable :- Separable(raw);
    Ok(VerbFields(Joined(types, typeOrder), Joined(features, featureOrder), Some(separable)))
  }

  /**
   * What LE.__init__ leaves, or the exception it raises, when the
   * semanticType and semanticFeatureSet value sets are iterated in the
   * orders typeOrder and featureOrder.
   */
  function Construct(
    id: string, raw: LexEntryEl, mw: bool, namespace: string, abbreviatedNamespace: string,
    typeOrder: seq<string>, featureOrder: seq<string>): Result<Entry, Fault>
  {
    var lemmaForm :- LemmaOf(raw, mw);
    if raw.sense.None? then Err(AttributeError)
    else
      var sense := raw.sense.value;
      var forms := CanonicalFormsOf(raw);
      var pos :- if mw then Ok(PosFields(None, None, None)) else ResolvePos(raw);
      var verb :- if pos.simplePos == Some("v") then ResolveVerb(raw, typeOrder, featureOrder)
                  else Ok(VerbFields(None, None, None));
      var joinedForms :- JoinForms(forms);
      var definition := Get(sense, "definition");
      Ok(Entry(
        id, mw, lemmaForm, pos.rbnPos, pos.simplePos, pos.fnPos, verb.rbnType, verb.rbnFeatureSet,
        verb.separable, Get(sense, "senseId"), Get(sense, "synset"), definition, forms,
        namespace, abbreviatedNamespace,
        namespace + "RBN-" + id, "(" + abbreviatedNamespace + ")RBN-" + id,
        HoverInfo(pos.fnPos, lemmaForm, mw, verb.rbnType, verb.rbnFeatureSet, definition, joinedForms)))
  }

  /** The iteration order is an enumeration of the values the key has. */
  ghost predicate EnumeratesValues(raw: LexEntryEl, key: string, order: seq<string>)
  {
    var v := SemanticValues(raw, key);
    v.Ok? && v.value.Some? && IsEnumeration(order, v.value.value)
  }

  // ---------------------------------------------------------------------
  // Properties of construction

  /**
   * The exceptions of the constructor, in order: a missing lemma child, a
   * missing Sense, an unmapped partOfSpeech of a single-word entry, a
   * verb without Semantics-verb or without Morphology, a canonical form
   * without its attribute. The set orders play no part in them.
   */
  lemma ConstructFaults(
    id: string, raw: LexEntryEl, mw: bool, namespace: string, abbreviatedNamespace: string,
    typeOrder: seq<string>, featureOrder: seq<string>, typeOrder': seq<string>, featureOrder': seq<string>)
    ensures Construct(id, raw, mw, namespace, abbreviatedNamespace, typeOrder, featureOrder).Err? ==
            Construct(id, raw, mw, namespace, abbreviatedNamespace, typeOrder', featureOrder').Err?
    ensures var c := Construct(id, raw, mw, namespace, abbreviatedNamespace, typeOrder, featureOrder);
      c.Err? ==> c == Construct(id, raw, mw, namespace, abbreviatedNamespace, typeOrder', featureOrder')
    ensures var c := Construct(id, raw, mw, namespace, abbreviatedNamespace, typeOrder, featureOrder);
      var p := Get(raw.attrs, "partOfSpeech");
      var lemmaChild := if mw then raw.multiwordEl else raw.lemmaEl;
      (lemmaChild.None? || raw.sense.None? ==> c == Err(AttributeError)) &&
      (lemmaChild.Some? && raw.sense.Some? && !mw ==> (
        (!(p.Some? && p.value in RbnPosTags) ==> c == Err(ValueError)) &&
        (p == Some("verb") && (raw.semanticsVerb.None? || raw.morphology.None?) ==> c == Err(AttributeError)))) &&
      (lemmaChild.Some? && raw.sense.Some? && (mw || (p.Some? && p.value in RbnPosTags && p != Some("verb"))) ==>
        (c.Err? <==> exists i :: 0 <= i < |raw.canonicalFormEls| && !("canonicalform" in raw.canonicalFormEls[i].attrs)))
  {
    PosTables(Get(raw.attrs, "partOfSpeech"));
    var forms := CanonicalFormsOf(raw);
    assert (exists i :: 0 <= i < |forms| && forms[i].None?) <==>
      exists i :: 0 <= i < |raw.canonicalFormEls| && !("canonicalform" in raw.canonicalFormEls[i].attrs);
  }

  /**
   * The part-of-speech fields: None for a multiword entry; for a
   * single-word entry the partOfSpeech attribute and its two table images.
   */
  lemma PosFieldsGated(
    id: string, raw: LexEntryEl, mw: bool, namespace: string, abbreviatedNamespace: string,
    typeOrder: seq<string>, featureOrder: seq<string>)
    requires Construct(id, raw, mw, namespace, abbreviatedNamespace, typeOrder, featureOrder).Ok?
    ensures var e := Construct(id, raw, mw, namespace, abbreviatedNamespace, typeOrder, featureOrder).value;
      (mw ==> e.rbnPos.None? && e.simplePos.None? && e.fnPos.None?) &&
      (!mw ==> e.rbnPos == Get(raw.attrs, "partOfSpeech") && e.rbnPos.Some? && e.rbnPos.value in RbnPosTags &&
               Ok(e.simplePos.value) == SimplePos(e.rbnPos) && Ok(e.fnPos.value) == FnPos(e.rbnPos))
  {
    PosTables(Get(raw.attrs, "partOfSpeech"));
  }

  /**
   * rbn_type, rbn_feature_set and separable are set exactly for verbs, so
   * a multiword entry never has them; a verb's separable flag is what
   * get_separable says, and rbn_type is set exactly when Semantics-verb
   * has children.
   */
  lemma VerbFieldsGated(
    id: string, raw: LexEntryEl, mw: bool, namespace: string, abbreviatedNamespace: string,
    typeOrder: seq<string>, featureOrder: seq<string>)
    requires Construct(id, raw, mw, namespace, abbreviatedNamespace, typeOrder, featureOrder).Ok?
    ensures var e := Construct(id, raw, mw, namespace, abbreviatedNamespace, typeOrder, featureOrder).value;
      (e.simplePos != Some("v") ==> e.rbnType.None? && e.rbnFeatureSet.None? && e.separable.None?) &&
      (mw ==> e.rbnType.None? && e.rbnFeatureSet.None? && e.separable.None?) &&
      (e.simplePos == Some("v") ==>
        !mw && e.rbnPos == Some("verb") && Separable(raw) == Ok(e.separable.value) &&
        raw.semanticsVerb.Some? &&
        (e.rbnType.Some? <==> HasChildren(raw.semanticsVerb.value)) &&
        (e.rbnFeatureSet.Some? <==> HasChildren(raw.semanticsVerb.value)))
  {
    PosTables(Get(raw.attrs, "partOfSpeech"));
  }

  /**
   * When the set is iterated in one of its enumerations, rbn_type joins
   * exactly the semanticType values with '-': it contains each of them,
   * and is that value alone when there is only one.
   */
  lemma RbnTypeJoinsValues(
    id: string, raw: LexEntryEl, mw: bool, namespace: string, abbreviatedNamespace: string,
    typeOrder: seq<string>, featureOrder: seq<string>)
    requires Construct(id, raw, mw, namespace, abbreviatedNamespace, typeOrder, featureOrder).Ok?
    requires Construct(id, raw, mw, namespace, abbreviatedNamespace, typeOrder, featureOrder).value.rbnType.Some?
    requires EnumeratesValues(raw, "semanticType", typeOrder)
    ensures var e := Construct(id, raw, mw, namespace, abbreviatedNamespace, typeOrder, featureOrder).value;
      var values := SemanticValues(raw, "semanticType").value.value;
      JoinOf(values, e.rbnType.value) &&
      (forall v :: v in values ==> ContainsSubstring(e.rbnType.value, v)) &&
      (forall v :: values == {v} ==> e.rbnType == Some(v))
  {
    PosTables(Get(raw.attrs, "partOfSpeech"));
    var e := Construct(id, raw, mw, namespace, abbreviatedNamespace, typeOrder, featureOrder).value;
    var values := SemanticValues(raw, "semanticType").value.value;
    assert e.rbnType == Some(Join(typeOrder, "-"));
    assert JoinOf(values, e.rbnType.value);
    forall v | v in values
      ensures ContainsSubstring(e.rbnType.value, v)
    {
      var i :| 0 <= i < |typeOrder| && typeOrder[i] == v;
      JoinContainsValues(typeOrder, i);
    }
    forall v | values == {v}
      ensures e.rbnType == Some(v)
    {
      SingleValueJoin(v, e.rbnType.value);
    }
  }

  /** The same for rbn_feature_set and the semanticFeatureSet values. */
  lemma RbnFeatureSetJoinsValues(
    id: string, raw: LexEntryEl, mw: bool, namespace: string, abbreviatedNamespace: string,
    typeOrder: seq<string>, featureOrder: seq<string>)
    requires Construct(id, raw, mw, namespace, abbreviatedNamespace, typeOrder, featureOrder).Ok?
    requires Construct(id, raw, mw, namespace, abbreviatedNamespace, typeOrder, featureOrder).value.rbnFeatureSet.Some?
    requires EnumeratesValues(raw, "semanticFeatureSet", featureOrder)
    ensures var e := Construct(id, raw, mw, namespace, abbreviatedNamespace, typeOrder, featureOrder).value;
      var values := SemanticValues(raw, "semanticFeatureSet").value.value;
      JoinOf(values, e.rbnFeatureSet.value) &&
      (forall v :: v in values ==> ContainsSubstring(e.rbnFeatureSet.value, v)) &&
      (forall v :: values == {v} ==> e.rbnFeatureSet == Some(v))
  {
    PosTables(Get(raw.attrs, "partOfSpeech"));
    var e := Construct(id, raw, mw, namespace, abbreviatedNamespace, typeOrder, featureOrder).value;
    var values := SemanticValues(raw, "semanticFeatureSet").value.value;
    assert e.rbnFeatureSet == Some(Join(featureOrder, "-"));
    assert JoinOf(values, e.rbnFeatureSet.value);
    forall v | v in values
      ensures ContainsSubstring(e.rbnFeatureSet.value, v)
    {
      var i :| 0 <= i < |featureOrder| && featureOrder[i] == v;
      JoinContainsValues(featureOrder, i);
    }
    forall v | values == {v}
      ensures e.rbnFeatureSet == Some(v)
    {
      SingleValueJoin(v, e.rbnFeatureSet.value);
    }
  }

  /**
   * The lemma comes from the MultiwordExpression child for a multiword
   * entry and from the Lemma child otherwise; the sense attributes come
   * from the first Sense; the URIs are the namespace (or its
   * parenthesised abbreviation) followed by RBN- and the id.
   */
  lemma IdentityAndUris(
    id: string, raw: LexEntryEl, mw: bool, namespace: string, abbreviatedNamespace: string,
    typeOrder: seq<string>, featureOrder: seq<string>)
    requires Construct(id, raw, mw, namespace, abbreviatedNamespace, typeOrder, featureOrder).Ok?
    ensures var e := Construct(id, raw, mw, namespace, abbreviatedNamespace, typeOrder, featureOrder).value;
      e.id == id && e.mw == mw &&
      e.lemmaForm == Get((if mw then raw.multiwordEl else raw.lemmaEl).value, "writtenForm") &&
      raw.sense.Some? && e.senseId == Get(raw.sense.value, "senseId") &&
      e.synsetId == Get(raw.sense.value, "synset") && e.definition == Get(raw.sense.value, "definition") &&
      e.fullRdfUri == namespace + "RBN-" + id &&
      e.shortRdfUri == "(" + abbreviatedNamespace + ")RBN-" + id &&
      e.fullRdfUri[|namespace|..] == e.shortRdfUri[|abbreviatedNamespace| + 2..]
  {
    var e := Construct(id, raw, mw, namespace, abbreviatedNamespace, typeOrder, featureOrder).value;
    assert e.fullRdfUri[|namespace|..] == "RBN-" + id;
    assert e.shortRdfUri[|abbreviatedNamespace| + 2..] == "RBN-" + id;
  }

  /**
   * The canonical forms are all the canonicalform attributes, all present,
   * and hover_info joins them with ';' and repeats the other fields.
   */
  lemma HoverInfoFields(
    id: string, raw: LexEntryEl, mw: bool, namespace: string, abbreviatedNamespace: string,
    typeOrder: seq<string>, featureOrder: seq<string>)
    requires Construct(id, raw, mw, namespace, abbreviatedNamespace, typeOrder, featureOrder).Ok?
    ensures var e := Construct(id, raw, mw, namespace, abbreviatedNamespace, typeOrder, featureOrder).value;
      e.canonicalForms == CanonicalFormsOf(raw) &&
      (forall i :: 0 <= i < |e.canonicalForms| ==> e.canonicalForms[i].Some?) &&
      e.hoverInfo == HoverInfo(e.fnPos, e.lemmaForm, e.mw, e.rbnType, e.rbnFeatureSet, e.definition,
                               Join(FormValues(e.canonicalForms), ";"))
  {
    var forms := CanonicalFormsOf(raw);
    JoinFormsValues(forms);
  }

  // ---------------------------------------------------------------------
  // The LE object

  class LE {
    var id: string
    var mw: bool
    var lemmaForm: Option<string>
    var rbnPos: Option<string>
    var simplePos: Option<string>
    var fnPos: Option<string>
    var rbnType: Option<string>
    var rbnFeatureSet: Option<string>
    var separable: Option<bool>
    var senseId: Option<string>
    var synsetId: Option<string>
    var definition: Option<string>
    var canonicalForms: seq<Option<string>>
    var namespace: string
    var abbreviatedNamespace: string
    var fullRdfUri: string
    var shortRdfUri: string
    var hoverInfo: HoverInfo

    /** The object's attributes as one value. */
    function View(): Entry
      reads this
    {
      Entry(id, mw, lemmaForm, rbnPos, simplePos, fnPos, rbnType, rbnFeatureSet, separable, senseId,
            synsetId, definition, canonicalForms, namespace, abbreviatedNamespace, fullRdfUri, shortRdfUri,
            hoverInfo)
    }

    /** An object holding the attributes e. */
    constructor (e: Entry)
      ensures View() == e
    {
      id, mw, lemmaForm, rbnPos, simplePos, fnPos := e.id, e.mw, e.lemmaForm, e.rbnPos, e.simplePos, e.fnPos;
      rbnType, rbnFeatureSet, separable := e.rbnType, e.rbnFeatureSet, e.separable;
      senseId, synsetId, definition, canonicalForms := e.senseId, e.synsetId, e.definition, e.canonicalForms;
      namespace, abbreviatedNamespace := e.namespace, e.abbreviatedNamespace;
      fullRdfUri, shortRdfUri, hoverInfo := e.fullRdfUri, e.shortRdfUri, e.hoverInfo;
    }
  }

  /**
   * get_rbn_type and get_rbn_feature_set: the values of the key joined
   * with '-' in the iteration order it hands back.
   */
  method GetSemanticValue(raw: LexEntryEl, key: string) returns (r: Result<Option<string>, Fault>, ghost order: seq<string>)
    ensures SemanticValues(raw, key).Err? ==> r == Err(SemanticValues(raw, key).error)
    ensures SemanticValues(raw, key).Ok? ==> r == Ok(Joined(SemanticValues(raw, key).value, order))
    ensures SemanticValues(raw, key).Ok? && SemanticValues(raw, key).value.Some? ==> EnumeratesValues(raw, key, order)
  {
    order := [];
    if raw.semanticsVerb.None? {
      return Err(AttributeError), order;
    }
    var sv := raw.semanticsVerb.value;
    if !HasChildren(sv) {
      return Ok(None), order;
    }
    var els := WithAttribute(sv.semanticTypes, key);
    FilteredValuesNeverFail(sv.semanticTypes, key);
    var s := ExtractAttributeValue(els, key);
    assert s.Ok?;
    var values := AttributeValues(els, key).value;
    order :| IsEnumeration(order, values) && Join(order, "-") == s.value;
    r := Ok(Some(s.value));
  }

  /**
   * LE(id_, le_xml_obj, mw, namespace, abbreviated_namespace): the
   * constructor's statements in order over local variables, then a new
   * object holding them; or the exception the constructor raises. The
   * iteration orders of the two value sets are handed back.
   */
  method NewLE(id: string, raw: LexEntryEl, mw: bool, namespace: string, abbreviatedNamespace: string)
    returns (r: Result<LE, Fault>, ghost typeOrder: seq<string>, ghost featureOrder: seq<string>)
    ensures r.Err? ==> Construct(id, raw, mw, namespace, abbreviatedNamespace, typeOrder, featureOrder) == Err(r.error)
    ensures r.Ok? ==> Construct(id, raw, mw, namespace, abbreviatedNamespace, typeOrder, featureOrder).Ok?
    ensures r.Ok? ==> fresh(r.value)
    ensures r.Ok? ==> r.value.View() == Construct(id, raw, mw, namespace, abbreviatedNamespace, typeOrder, featureOrder).value
    ensures r.Ok? && r.value.View().rbnType.Some? ==> EnumeratesValues(raw, "semanticType", typeOrder)
    ensures r.Ok? && r.value.View().rbnFeatureSet.Some? ==> EnumeratesValues(raw, "semanticFeatureSet", featureOrder)
  {
    typeOrder, featureOrder := [], [];
    var lemmaResult := LemmaOf(raw, mw);
    if lemmaResult.Err? {
      return Err(lemmaResult.error), typeOrder, featureOrder;
    }
    var lemmaForm := lemmaResult.value;
    var rbnPos: Option<string> := None;
    var simplePos: Option<string> := None;
    var fnPos: Option<string> := None;
    var rbnType: Option<string> := None;
    var rbnFeatureSet: Option<string> := None;
    var separable: Option<bool> := None;

    if raw.sense.None? {
      return Err(AttributeError), typeOrder, featureOrder;
    }
    var sense := raw.sense.value;
    var senseId := Get(sense, "senseId");
    var synsetId := Get(sense, "synset");
    var definition := Get(sense, "definition");
    var canonicalForms := CanonicalFormsOf(raw);

    if !mw {
      rbnPos := Get(raw.attrs, "partOfSpeech");
      var simple := SimplePos(rbnPos);
      if simple.Err? {
        return Err(simple.error), typeOrder, featureOrder;
      }
      simplePos := Some(simple.value);
      PosTables(rbnPos);
      fnPos := Some(FnPos(rbnPos).value);
    }

    if simplePos == Some("v") {
      var t;
      t, typeOrder := GetSemanticValue(raw, "semanticType");
      if t.Err? {
        return Err(t.error), typeOrder, featureOrder;
      }
      rbnType := t.value;
      var f;
      f, featureOrder := GetSemanticValue(raw, "semanticFeatureSet");
      if f.Err? {
        return Err(f.error), typeOrder, featureOrder;
      }
      rbnFeatureSet := f.value;
      var s := Separable(raw);
      if s.Err? {
        return Err(s.error), typeOrder, featureOrder;
      }
      separable := Some(s.value);
    }

    var fullRdfUri := namespace + "RBN-" + id;
    var shortRdfUri := "(" + abbreviatedNamespace + ")RBN-" + id;
    var joinedForms := JoinForms(canonicalForms);
    if joinedForms.Err? {
      return Err(joinedForms.error), typeOrder, featureOrder;
    }
    var hoverInfo := HoverInfo(fnPos, lemmaForm, mw, rbnType, rbnFeatureSet, definition, joinedForms.value);

    var le := new LE(Entry(
      id, mw, lemmaForm, rbnPos, simplePos, fnPos, rbnType, rbnFeatureSet, separable, senseId, synsetId,
      definition, canonicalForms, namespace, abbreviatedNamespace, fullRdfUri, shortRdfUri, hoverInfo));
    r := Ok(le);
  }
}
