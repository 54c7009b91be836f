/**
 * Splitting a morphology-structure string such as "*aan<bieden>" into the
 * fragments of its lemma ("aan", "bieden").  odwn_classes.py and utils.py
 * each carry an identical copy of this routine; it is modelled once here.
 */
module Morphology {
  import opened Builtins

  /** The boundary markers of a morphology structure. */
  predicate IsMarker(c: char)
  {
    c == '*' || c == '[' || c == ']' || c == '<' || c == '>'
  }

  ghost predicate MarkerFree(w: string)
  {
    forall c :: c in w ==> !IsMarker(c)
  }

  /** m with every boundary marker removed: the letters the fragments must spell. */
  function StripMarkers(m: string): string
  {
    if m == [] then "" else (if IsMarker(m[0]) then "" else [m[0]]) + StripMarkers(m[1..])
  }

  /** The four `replace` calls, in the order the code makes them. */
  function ReplaceMarkers(m: string): string
  {
    ReplaceChar(ReplaceChar(ReplaceChar(ReplaceChar(m, '*', ""), ']', "["), '<', "["), '>', "[")
  }

  /** What the four `replace` calls do to one character. */
  function NormalizeChar(c: char): string
  {
    if c == '*' then "" else if c == ']' || c == '<' || c == '>' then "[" else [c]
  }

  /** Character by character: '*' is dropped and ']', '<', '>' become '['. */
  function NormalizeMarkers(m: string): string
  {
    if m == [] then "" else NormalizeChar(m[0]) + NormalizeMarkers(m[1..])
  }

  /** The non-empty strings of pieces, in their order. */
  function NonEmpty(pieces: seq<string>): seq<string>
  {
    if pieces == [] then []
    else
      var last := pieces[|pieces| - 1];
      NonEmpty(pieces[..|pieces| - 1]) + (if last == "" then [] else [last])
  }

  /** The candidate fragments of a morphology structure, before the lemma check. */
  function Fragments(m: string): seq<string>
  {
    NonEmpty(Split(NormalizeMarkers(m), '['))
  }

  /** What split_morphostructure returns for a morphology structure and a lemma. */
  function SplitSpec(morpho: Option<string>, lemmaForm: Option<string>): seq<string>
  {
    match morpho
    case None => []
    case Some(m) =>
      var parts := Fragments(m);
      if Some(Concat(parts)) != lemmaForm then [] else parts
  }

  /** Every fragment is non-empty and free of boundary markers. */
  ghost predicate WellFormedParts(parts: seq<string>)
  {
    (forall p :: p in parts ==> p != "") &&
    (forall p, c :: p in parts && c in p ==> !IsMarker(c))
  }

  /**
   * split_morphostructure: normalise the markers, split on '[', keep the
   * non-empty pieces, and give up (return []) unless they spell the lemma.
   */
  method SplitMorphostructure(morphostructure: Option<string>, lemmaForm: Option<string>)
    returns (parts: seq<string>)
    ensures parts == SplitSpec(morphostructure, lemmaForm)
    ensures morphostructure.None? ==> parts == []
    ensures parts == [] || Some(Concat(parts)) == lemmaForm
    ensures WellFormedParts(parts)
  {
    parts := [];
    if morphostructure.Some? {
      var m := morphostructure.value;
      m := ReplaceChar(m, '*', "");
      m := ReplaceChar(m, ']', "[");
      m := ReplaceChar(m, '<', "[");
      m := ReplaceChar(m, '>', "[");
      ReplacedIsNormalized(morphostructure.value);
      var splitted := Split(m, '[');
      parts := [];
      for i := 0 to |splitted|
        invariant parts == NonEmpty(splitted[..i])
      {
        assert splitted[..i + 1][..i] == splitted[..i];
        if splitted[i] != "" {
          parts := parts + [splitted[i]];
        }
      }
      assert splitted[..|splitted|] == splitted;
      if Some(Concat(parts)) != lemmaForm {
        parts := [];
      }
      FragmentsWellFormed(morphostructure.value);
    }
  }

  lemma {:induction false} NonEmptyElements(pieces: seq<string>)
    ensures forall p :: p in NonEmpty(pieces) ==> p != "" && p in pieces
  {
    if pieces != [] {
      NonEmptyElements(pieces[..|pieces| - 1]);
    }
  }

  lemma {:induction false} ConcatNonEmpty(pieces: seq<string>)
    ensures Concat(NonEmpty(pieces)) == Concat(pieces)
  {
    if pieces != [] {
      var init, last := pieces[..|pieces| - 1], pieces[|pieces| - 1];
      assert pieces == init + [last];
      ConcatNonEmpty(init);
      ConcatAppend(init, last);
      assert Concat(pieces) == Concat(init) + last;
      if last != "" {
        assert NonEmpty(pieces) == NonEmpty(init) + [last];
        ConcatAppend(NonEmpty(init), last);
      } else {
        assert NonEmpty(pieces) == NonEmpty(init) + [];
        assert NonEmpty(init) + [] == NonEmpty(init);
      }
    }
  }

  lemma {:induction false} ReplaceCharAppend(a: string, b: string, x: char, repl: string)
    ensures ReplaceChar(a + b, x, repl) == ReplaceChar(a, x, repl) + ReplaceChar(b, x, repl)
  {
    if a != [] {
      assert (a + b)[1..] == a[1..] + b;
      ReplaceCharAppend(a[1..], b, x, repl);
    } else {
      assert a + b == b;
    }
  }

  /** The four `replace` calls amount to the character-wise normalisation. */
  lemma {:induction false} ReplacedIsNormalized(m: string)
    ensures ReplaceMarkers(m) == NormalizeMarkers(m)
  {
    if m != [] {
      var a, b := [m[0]], m[1..];
      assert m == a + b;
      var a1, b1 := ReplaceChar(a, '*', ""), ReplaceChar(b, '*', "");
      ReplaceCharAppend(a, b, '*', "");
      var a2, b2 := ReplaceChar(a1, ']', "["), ReplaceChar(b1, ']', "[");
      ReplaceCharAppend(a1, b1, ']', "[");
      var a3, b3 := ReplaceChar(a2, '<', "["), ReplaceChar(b2, '<', "[");
      ReplaceCharAppend(a2, b2, '<', "[");
      ReplaceCharAppend(a3, b3, '>', "[");
      ReplacedIsNormalized(b);
      assert ReplaceMarkers(a) == NormalizeChar(m[0]);
    }
  }

  lemma {:induction false} NormalizeMarkersAppend(a: string, b: string)
    ensures NormalizeMarkers(a + b) == NormalizeMarkers(a) + NormalizeMarkers(b)
  {
    if a != [] {
      assert (a + b)[1..] == a[1..] + b;
      NormalizeMarkersAppend(a[1..], b);
    } else {
      assert a + b == b;
    }
  }

  /** Every character of the normalised string is a non-marker of m, or '['. */
  lemma {:induction false} NormalizeMarkersChars(m: string)
    ensures forall c :: c in NormalizeMarkers(m) ==> (c in m && !IsMarker(c)) || c == '['
  {
    if m != [] {
      NormalizeMarkersChars(m[1..]);
    }
  }

  /** After normalisation, deleting the separators is the same as stripping every marker. */
  lemma {:induction false} NormalizedStrip(m: string)
    ensures ReplaceChar(NormalizeMarkers(m), '[', "") == StripMarkers(m)
  {
    if m != [] {
      ReplaceCharAppend(NormalizeChar(m[0]), NormalizeMarkers(m[1..]), '[', "");
      NormalizedStrip(m[1..]);
    }
  }

  /** The pieces of a split, glued together, are the string without its separators. */
  lemma {:induction false} ConcatSplit(t: string, sep: char)
    ensures Concat(Split(t, sep)) == ReplaceChar(t, sep, "")
  {
    if t != [] {
      var rest := Split(t[1..], sep);
      ConcatSplit(t[1..], sep);
      if t[0] == sep {
        assert ([""] + rest)[1..] == rest;
      } else {
        var r := [[t[0]] + rest[0]] + rest[1..];
        assert r[1..] == rest[1..];
        assert Concat(rest) == rest[0] + Concat(rest[1..]);
      }
    }
  }

  /** The candidate fragments always spell the morphology structure without its markers. */
  lemma FragmentsConcat(m: string)
    ensures Concat(Fragments(m)) == StripMarkers(m)
  {
    ConcatNonEmpty(Split(NormalizeMarkers(m), '['));
    ConcatSplit(NormalizeMarkers(m), '[');
    NormalizedStrip(m);
  }

  /** Every candidate fragment is non-empty and free of boundary markers. */
  lemma FragmentsWellFormed(m: string)
    ensures WellFormedParts(Fragments(m))
  {
    NormalizeMarkersChars(m);
    SplitPieces(NormalizeMarkers(m), '[');
    NonEmptyElements(Split(NormalizeMarkers(m), '['));
  }

  /**
   * The split is accepted (non-empty) exactly when the lemma is the
   * morphology structure with its markers stripped, and that is not empty;
   * an accepted split re-joins to the lemma.
   */
  lemma SplitAcceptedIff(m: string, lemmaForm: Option<string>)
    ensures SplitSpec(Some(m), lemmaForm) != [] <==> lemmaForm == Some(StripMarkers(m)) && StripMarkers(m) != ""
    ensures SplitSpec(Some(m), lemmaForm) != [] ==> Some(Concat(SplitSpec(Some(m), lemmaForm))) == lemmaForm
  {
    FragmentsConcat(m);
    FragmentsWellFormed(m);
    var parts := Fragments(m);
    if parts != [] {
      assert parts[0] in parts;
      assert Concat(parts) == parts[0] + Concat(parts[1..]);
    }
  }

  /** The contract of split_morphostructure, for its specification. */
  lemma SplitSpecSpec(morpho: Option<string>, lemmaForm: Option<string>)
    ensures morpho.None? ==> SplitSpec(morpho, lemmaForm) == []
    ensures SplitSpec(morpho, lemmaForm) == [] || Some(Concat(SplitSpec(morpho, lemmaForm))) == lemmaForm
    ensures WellFormedParts(SplitSpec(morpho, lemmaForm))
  {
    if morpho.Some? {
      FragmentsWellFormed(morpho.value);
    }
  }

  lemma {:induction false} NormalizeMarkerFree(w: string)
    requires MarkerFree(w)
    ensures NormalizeMarkers(w) == w
  {
    if w != [] {
      assert w[0] in w;
      NormalizeMarkerFree(w[1..]);
    }
  }

  lemma StarPrefixNormalized(particle: string)
    requires MarkerFree(particle)
    ensures NormalizeMarkers("*" + particle) == particle
  {
    NormalizeMarkersAppend("*", particle);
    NormalizeMarkerFree(particle);
    assert NormalizeMarkers("*") == "";
  }

  lemma AngledSuffixNormalized(x: string, verb: string)
    requires MarkerFree(verb)
    ensures NormalizeMarkers(x + "<" + verb + ">") == NormalizeMarkers(x) + "[" + verb + "["
  {
    var b := x + "<";
    var c := b + verb;
    NormalizeMarkersAppend(c, ">");
    NormalizeMarkersAppend(b, verb);
    NormalizeMarkersAppend(x, "<");
    NormalizeMarkerFree(verb);
    assert NormalizeMarkers("<") == "[";
    assert NormalizeMarkers(">") == "[";
  }

  lemma ParticleVerbNormalized(particle: string, verb: string)
    requires MarkerFree(particle) && MarkerFree(verb)
    ensures NormalizeMarkers("*" + particle + "<" + verb + ">") == particle + "[" + verb + "["
  {
    AngledSuffixNormalized("*" + particle, verb);
    StarPrefixNormalized(particle);
  }

  lemma ParticleVerbFragments(particle: string, verb: string)
    requires MarkerFree(particle) && MarkerFree(verb)
    requires particle != "" && verb != ""
    ensures Fragments("*" + particle + "<" + verb + ">") == [particle, verb]
  {
    ParticleVerbNormalized(particle, verb);
    SplitWord(verb, "", '[');
    assert verb + "[" + "" == verb + "[";
    SplitWord(particle, verb + "[", '[');
    assert particle + "[" + (verb + "[") == particle + "[" + verb + "[";
    var pieces := [particle, verb, ""];
    assert Split(particle + "[" + verb + "[", '[') == pieces;
    assert pieces[..2] == [particle, verb];
    assert [particle, verb][..1] == [particle];
    assert [particle][..0] == [];
    assert NonEmpty([particle]) == [particle];
    assert NonEmpty([particle, verb]) == [particle, verb];
  }

  /**
   * A separable verb written "*particle<verb>" splits into its particle and
   * its verb when the lemma is the two written together.
   */
  lemma ParticleVerbSplit(particle: string, verb: string)
    requires MarkerFree(particle) && MarkerFree(verb)
    requires particle != "" && verb != ""
    ensures SplitSpec(Some("*" + particle + "<" + verb + ">"), Some(particle + verb)) == [particle, verb]
  {
    ParticleVerbFragments(particle, verb);
    assert [particle, verb][1..] == [verb];
    assert [verb][1..] == [];
    assert Concat([verb]) == verb;
    assert Concat([particle, verb]) == particle + verb;
  }

  /** "*aan<bieden>" splits the lemma "aanbieden" into "aan" and "bieden". */
  lemma AanbiedenSplit()
    ensures SplitSpec(Some("*aan<bieden>"), Some("aanbieden")) == ["aan", "bieden"]
  {
    ParticleVerbSplit("aan", "bieden");
    assert "*" + "aan" + "<" + "bieden" + ">" == "*aan<bieden>";
    assert "aan" + "bieden" == "aanbieden";
  }
}
