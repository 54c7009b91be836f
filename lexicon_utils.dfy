/**
 * The phrasal-verb index: for every phrasal entry of two parts (particle
 * and verb), its sense id filed under the verb and then under the lemma.
 */
module LexiconUtils {
  import opened Builtins
  import OdwnClasses

  /** verb -> lemma -> sense ids */
  type PhrasalIndex = map<string, map<Option<string>, set<string>>>

  /** An entry the index takes: morpho-type phrasal and exactly two parts. */
  predicate IsPhrasal(e: OdwnClasses.Entry)
  {
    e.morphoType == Some("phrasal") && |e.parts| == 2
  }

  /** The ids of the dict, outside remaining, whose entries the index takes. */
  ghost function PhrasalIds(d: map<string, OdwnClasses.Entry>, remaining: set<string>): set<string>
  {
    set id | id in d && id !in remaining && IsPhrasal(d[id])
  }

  /** Every (verb, lemma, id) the index files. */
  ghost function Triples(index: PhrasalIndex): set<(string, Option<string>, string)>
  {
    set v, l, id | v in index && l in index[v] && id in index[v][l] :: (v, l, id)
  }

  /** verb_to_lemma_to_ids[verb][lemma].add(id), creating the inner dict and set when missing. */
  function File(index: PhrasalIndex, v: string, l: Option<string>, id: string): PhrasalIndex
  {
    var inner := if v in index then index[v] else map[];
    var ids := if l in inner then inner[l] else {};
    index[v := inner[l := ids + {id}]]
  }

  /** Filing adds exactly one triple. */
  lemma FileTriples(index: PhrasalIndex, v: string, l: Option<string>, id: string)
    ensures Triples(File(index, v, l, id)) == Triples(index) + {(v, l, id)}
  {
    var index' := File(index, v, l, id);
    forall t | t in Triples(index')
      ensures t in Triples(index) + {(v, l, id)}
    {
      var (v', l', id') := t;
      assert v' in index' && l' in index'[v'] && id' in index'[v'][l'];
      if (v', l', id') != (v, l, id) {
        assert v' in index && l' in index[v'] && id' in index[v'][l'];
      }
    }
    forall t | t in Triples(index) + {(v, l, id)}
      ensures t in Triples(index')
    {
      var (v', l', id') := t;
      assert v' in index' && l' in index'[v'] && id' in index'[v'][l'];
    }
  }

  /** The verb of a phrasal entry: its second part. */
  function VerbOf(e: OdwnClasses.Entry): string
    requires IsPhrasal(e)
  {
    e.parts[1]
  }

  /** The index files id under verb v and lemma l. */
  predicate Filed(index: PhrasalIndex, v: string, l: Option<string>, id: string)
  {
    v in index && l in index[v] && id in index[v][l]
  }

  /** Every phrasal entry outside remaining is filed under its verb and lemma. */
  ghost predicate Complete(d: map<string, OdwnClasses.Entry>, remaining: set<string>, index: PhrasalIndex)
  {
    forall id :: id in d && id !in remaining && IsPhrasal(d[id]) ==> Filed(index, VerbOf(d[id]), d[id].lemmaForm, id)
  }

  /** Everything filed is a phrasal entry outside remaining, under its own verb and lemma. */
  ghost predicate Sound(d: map<string, OdwnClasses.Entry>, remaining: set<string>, index: PhrasalIndex)
  {
    forall v, l, id :: Filed(index, v, l, id) ==>
      id in d && id !in remaining && IsPhrasal(d[id]) && VerbOf(d[id]) == v && d[id].lemmaForm == l
  }

  /** No inner dict and no set of ids is empty. */
  ghost predicate NoneEmpty(index: PhrasalIndex)
  {
    (forall v :: v in index ==> |index[v]| > 0) &&
    (forall v, l :: v in index && l in index[v] ==> |index[v][l]| > 0)
  }

  /** The index files exactly the phrasal entries outside remaining. */
  ghost predicate Indexes(d: map<string, OdwnClasses.Entry>, remaining: set<string>, index: PhrasalIndex)
  {
    Complete(d, remaining, index) && Sound(d, remaining, index) && NoneEmpty(index)
  }

  /** After filing (v, l, id), a triple is filed iff it was filed before or is (v, l, id). */
  lemma FiledAfterFile(index: PhrasalIndex, v: string, l: Option<string>, id: string, v': string, l': Option<string>, id': string)
    ensures Filed(File(index, v, l, id), v', l', id') <==> Filed(index, v', l', id') || (v', l', id') == (v, l, id)
  {
  }

  /** Filing keeps every inner dict and every set of ids non-empty. */
  lemma NoneEmptyAfterFile(index: PhrasalIndex, v: string, l: Option<string>, id: string)
    requires NoneEmpty(index)
    ensures NoneEmpty(File(index, v, l, id))
  {
    var index' := File(index, v, l, id);
    forall v' | v' in index'
      ensures |index'[v']| > 0
    {
      if v' == v {
        assert l in index'[v];
      }
    }
    forall v', l' | v' in index' && l' in index'[v']
      ensures |index'[v'][l']| > 0
    {
      if v' == v && l' == l {
        assert id in index'[v'][l'];
      } else {
        assert index'[v'][l'] == index[v'][l'];
      }
    }
  }

  lemma CompleteStep(d: map<string, OdwnClasses.Entry>, remaining: set<string>, index: PhrasalIndex, id: string)
    requires Complete(d, remaining, index)
    requires id in d && IsPhrasal(d[id])
    ensures Complete(d, remaining - {id}, File(index, VerbOf(d[id]), d[id].lemmaForm, id))
  {
    var v, l := VerbOf(d[id]), d[id].lemmaForm;
    forall id' | id' in d && id' !in remaining - {id} && IsPhrasal(d[id'])
      ensures Filed(File(index, v, l, id), VerbOf(d[id']), d[id'].lemmaForm, id')
    {
      FiledAfterFile(index, v, l, id, VerbOf(d[id']), d[id'].lemmaForm, id');
    }
  }

  lemma SoundStep(d: map<string, OdwnClasses.Entry>, remaining: set<string>, index: PhrasalIndex, id: string)
    requires Sound(d, remaining, index)
    requires id in d && id in remaining && IsPhrasal(d[id])
    ensures Sound(d, remaining - {id}, File(index, VerbOf(d[id]), d[id].lemmaForm, id))
  {
    var v, l := VerbOf(d[id]), d[id].lemmaForm;
    forall v', l', id' | Filed(File(index, v, l, id), v', l', id')
      ensures id' in d && id' !in remaining - {id} && IsPhrasal(d[id']) && VerbOf(d[id']) == v' && d[id'].lemmaForm == l'
    {
      FiledAfterFile(index, v, l, id, v', l', id');
    }
  }

  /** Taking one more phrasal entry out of remaining adds one id. */
  lemma PhrasalIdsStep(d: map<string, OdwnClasses.Entry>, remaining: set<string>, id: string)
    requires id in d && id in remaining && IsPhrasal(d[id])
    ensures |PhrasalIds(d, remaining - {id})| == |PhrasalIds(d, remaining)| + 1
  {
    assert PhrasalIds(d, remaining - {id}) == PhrasalIds(d, remaining) + {id};
  }

  /** Filing a triple the index does not hold yet adds one triple. */
  lemma TriplesStep(index: PhrasalIndex, v: string, l: Option<string>, id: string)
    requires !Filed(index, v, l, id)
    ensures |Triples(File(index, v, l, id))| == |Triples(index)| + 1
  {
    assert (v, l, id) !in Triples(index);
    FileTriples(index, v, l, id);
  }

  /** Filing the next entry keeps the index exact and adds one id and one triple. */
  lemma FileStep(d: map<string, OdwnClasses.Entry>, remaining: set<string>, index: PhrasalIndex, id: string)
    requires Indexes(d, remaining, index)
    requires id in d && id in remaining && IsPhrasal(d[id])
    ensures Indexes(d, remaining - {id}, File(index, VerbOf(d[id]), d[id].lemmaForm, id))
    ensures |PhrasalIds(d, remaining - {id})| == |PhrasalIds(d, remaining)| + 1
    ensures |Triples(File(index, VerbOf(d[id]), d[id].lemmaForm, id))| == |Triples(index)| + 1
  {
    var v, l := VerbOf(d[id]), d[id].lemmaForm;
    CompleteStep(d, remaining, index, id);
    SoundStep(d, remaining, index, id);
    NoneEmptyAfterFile(index, v, l, id);
    PhrasalIdsStep(d, remaining, id);
    assert !Filed(index, v, l, id);
    TriplesStep(index, v, l, id);
  }

  /** Passing over an entry the index does not take keeps the index exact. */
  lemma SkipStep(d: map<string, OdwnClasses.Entry>, remaining: set<string>, index: PhrasalIndex, id: string)
    requires Indexes(d, remaining, index)
    requires id in d && id in remaining && !IsPhrasal(d[id])
    ensures Indexes(d, remaining - {id}, index)
    ensures PhrasalIds(d, remaining - {id}) == PhrasalIds(d, remaining)
  {
  }

  /**
   * get_verb_to_phrasal_entries: every phrasal two-part entry's id under
   * its verb (the second part) and lemma, nothing else, no empty inner
   * dict or set; and the phrasal_entries counter, the number of ids filed.
   */
  method GetVerbToPhrasalEntries(d: map<string, OdwnClasses.Entry>) returns (index: PhrasalIndex, phrasalEntries: nat)
    ensures Indexes(d, {}, index)
    ensures phrasalEntries == |PhrasalIds(d, {})| == |Triples(index)|
  {
    index, phrasalEntries := map[], 0;
    var remaining := d.Keys;
    assert PhrasalIds(d, remaining) == {};
    assert Triples(index) == {};
    while remaining != {}
      invariant remaining <= d.Keys
      invariant Indexes(d, remaining, index)
      invariant phrasalEntries == |PhrasalIds(d, remaining)| == |Triples(index)|
      decreases |remaining|
    {
      var senseId :| senseId in remaining;
      var senseObj := d[senseId];
      if senseObj.morphoType == Some("phrasal") && |senseObj.parts| == 2 {
        var particle, verb := senseObj.parts[0], senseObj.parts[1];
        assert verb == VerbOf(senseObj);
        FileStep(d, remaining, index, senseId);
        index := File(index, verb, senseObj.lemmaForm, senseId);
        phrasalEntries := phrasalEntries + 1;
      } else {
        SkipStep(d, remaining, index, senseId);
      }
      remaining := remaining - {senseId};
    }
  }

  /** Each id filed is filed at one verb and one lemma only. */
  lemma FiledOnce(d: map<string, OdwnClasses.Entry>, index: PhrasalIndex)
    requires Indexes(d, {}, index)
    ensures forall v1, l1, v2, l2, id ::
      Filed(index, v1, l1, id) && Filed(index, v2, l2, id) ==> v1 == v2 && l1 == l2
    ensures forall id :: id in d && IsPhrasal(d[id]) <==> exists v, l :: Filed(index, v, l, id)
  {
    forall id | id in d && IsPhrasal(d[id])
      ensures exists v, l :: Filed(index, v, l, id)
    {
      assert Filed(index, VerbOf(d[id]), d[id].lemmaForm, id);
    }
  }

  /**
   * When every entry's parts re-join to its lemma (as split_morphostructure
   * guarantees), each lemma key is particle + verb, so it ends with its
   * verb key.
   */
  lemma LemmaEndsWithVerb(d: map<string, OdwnClasses.Entry>, index: PhrasalIndex)
    requires Indexes(d, {}, index)
    requires forall id :: id in d ==> d[id].parts == [] || Some(Concat(d[id].parts)) == d[id].lemmaForm
    ensures forall v, l :: v in index && l in index[v] ==>
      l.Some? && |v| <= |l.value| && l.value[|l.value| - |v|..] == v
  {
    forall v, l | v in index && l in index[v]
      ensures l.Some? && |v| <= |l.value| && l.value[|l.value| - |v|..] == v
    {
      assert |index[v][l]| > 0;
      var id :| id in index[v][l];
      assert Filed(index, v, l, id);
      var parts := d[id].parts;
      assert parts[1] == v;
      assert Concat(parts) == parts[0] + Concat(parts[1..]);
      assert parts[2..] == [];
      assert Concat(parts[2..]) == "";
      assert Concat(parts[1..]) == parts[1] + Concat(parts[2..]);
      assert Concat(parts[1..]) == v;
      assert l == Some(parts[0] + v);
      var w := parts[0] + v;
      assert w[|w| - |v|..] == v;
    }
  }

  /** Entries built by the LE constructor satisfy the re-join condition. */
  lemma ConstructedEntriesRejoin(d: map<string, OdwnClasses.Entry>, raws: map<string, OdwnClasses.CdbLu>, namespace: string, abbreviatedNamespace: string)
    requires forall id :: id in d ==> id in raws && OdwnClasses.Construct(raws[id], namespace, abbreviatedNamespace) == Ok(d[id])
    ensures forall id :: id in d ==> d[id].parts == [] || Some(Concat(d[id].parts)) == d[id].lemmaForm
  {
    forall id | id in d
      ensures d[id].parts == [] || Some(Concat(d[id].parts)) == d[id].lemmaForm
    {
      OdwnClasses.ConstructedParts(raws[id], namespace, abbreviatedNamespace);
    }
  }
}
