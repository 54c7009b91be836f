/**
 * Batch passes over the loaded lexicon: the sense-rank consistency check,
 * the polysemy grouping by lemma and part of speech, and frequency
 * statistics over observed attribute tuples. Each pass reads the values
 * of a sense-id-to-object dict, given here as the sequence of the objects'
 * attributes in the dict's order.
 */
module Utils {
  import opened Builtins
  import OdwnClasses
  import RbnClasses

  // ---------------------------------------------------------------------
  // get_inconsistent_senseranks

  /** The grouping key: lemma and part of speech. */
  type RankKey = (Option<string>, Option<string>)

  function RankKeyOf(e: OdwnClasses.Entry): RankKey
  {
    (e.lemmaForm, e.rbnPos)
  }

  /** The sense ids and sense ranks of one group, in the order of the entries. */
  datatype SenseGroup = SenseGroup(senseIds: seq<string>, senseranks: seq<int>)

  /**
   * int(c_seq_nr) of every entry, or the exception of the first entry
   * whose c_seq_nr is not an integer.
   */
  function ParsedRanks(es: seq<OdwnClasses.Entry>): (r: Result<seq<int>, Fault>)
    ensures r.Ok? ==> |r.value| == |es|
    ensures r.Ok? ==> forall i :: 0 <= i < |es| ==> ParseInt(es[i].cSeqNr) == Ok(r.value[i])
  {
    if es == [] then Ok([])
    else
      var init :- ParsedRanks(es[..|es| - 1]);
      var last :- ParseInt(es[|es| - 1].cSeqNr);
      Ok(init + [last])
  }

  /** A failure in the first entries is the failure of the whole pass. */
  lemma {:induction false} ParsedRanksFailure(es: seq<OdwnClasses.Entry>, i: nat)
    requires i <= |es|
    requires ParsedRanks(es[..i]).Err?
    ensures ParsedRanks(es) == ParsedRanks(es[..i])
    decreases |es| - i
  {
    if i < |es| {
      assert es[..i + 1][..i] == es[..i];
      ParsedRanksFailure(es, i + 1);
    } else {
      assert es[..i] == es;
    }
  }

  /** The group of the key k: the ids and ranks of the entries with that key, in order. */
  function GroupOf(es: seq<OdwnClasses.Entry>, ranks: seq<int>, k: RankKey): (g: SenseGroup)
    requires |es| == |ranks|
    ensures |g.senseIds| == |g.senseranks|
  {
    if es == [] then SenseGroup([], [])
    else
      var g := GroupOf(es[..|es| - 1], ranks[..|ranks| - 1], k);
      if RankKeyOf(es[|es| - 1]) == k then SenseGroup(g.senseIds + [es[|es| - 1].senseId], g.senseranks + [ranks[|ranks| - 1]])
      else g
  }

  /** len(senseranks) != len(set(senseranks)) */
  predicate HasRepeatedRank(g: SenseGroup)
  {
    |Elements(g.senseranks)| != |g.senseranks|
  }

  /** What get_inconsistent_senseranks returns for entries whose ranks parse to ranks. */
  function InconsistentIds(es: seq<OdwnClasses.Entry>, ranks: seq<int>): set<string>
    requires |es| == |ranks|
  {
    set i | 0 <= i < |es| && HasRepeatedRank(GroupOf(es, ranks, RankKeyOf(es[i]))) :: es[i].senseId
  }

  /** The sense ids of the groups in done that have a repeated rank. */
  ghost function FlaggedIn(groups: map<RankKey, SenseGroup>, done: set<RankKey>): set<string>
  {
    set k, id | k in done && k in groups && HasRepeatedRank(groups[k]) && id in groups[k].senseIds :: id
  }

  /** An id is in the group of k exactly when an entry with key k has that id. */
  lemma {:induction false} GroupIds(es: seq<OdwnClasses.Entry>, ranks: seq<int>, k: RankKey, id: string)
    requires |es| == |ranks|
    ensures id in GroupOf(es, ranks, k).senseIds <==> exists i :: 0 <= i < |es| && RankKeyOf(es[i]) == k && es[i].senseId == id
  {
    if es != [] {
      var init := es[..|es| - 1];
      GroupIds(init, ranks[..|ranks| - 1], k, id);
      assert forall i :: 0 <= i < |init| ==> init[i] == es[i];
      if exists i :: 0 <= i < |es| && RankKeyOf(es[i]) == k && es[i].senseId == id {
        var i :| 0 <= i < |es| && RankKeyOf(es[i]) == k && es[i].senseId == id;
        if i < |init| {
          assert RankKeyOf(init[i]) == k && init[i].senseId == id;
        }
      }
    }
  }

  /**
   * A repeated rank in len(senseranks) != len(set(senseranks)) means two
   * positions with the same rank.
   */
  lemma RepeatedRankIff(g: SenseGroup)
    ensures HasRepeatedRank(g) <==> exists a, b :: 0 <= a < b < |g.senseranks| && g.senseranks[a] == g.senseranks[b]
  {
    ElementsCardinality(g.senseranks);
  }

  /** Two positions of s hold the same rank. */
  ghost predicate Repeats(s: seq<int>)
  {
    exists a, b :: 0 <= a < b < |s| && s[a] == s[b]
  }

  /** Two distinct entries with key k have the same rank. */
  ghost predicate RepeatPair(es: seq<OdwnClasses.Entry>, ranks: seq<int>, k: RankKey)
    requires |es| == |ranks|
  {
    exists a, b :: 0 <= a < b < |es| && RankKeyOf(es[a]) == k && RankKeyOf(es[b]) == k && ranks[a] == ranks[b]
  }

  lemma RepeatsAppend(s: seq<int>, x: int)
    ensures Repeats(s + [x]) <==> Repeats(s) || x in s
  {
    var t := s + [x];
    if Repeats(t) {
      var a, b :| 0 <= a < b < |t| && t[a] == t[b];
      if b == |s| {
        assert s[a] == x;
      } else {
        assert s[a] == s[b];
      }
    }
    if x in s {
      var a :| 0 <= a < |s| && s[a] == x;
      assert t[a] == t[|s|];
    }
    if Repeats(s) {
      var a, b :| 0 <= a < b < |s| && s[a] == s[b];
      assert t[a] == t[b];
    }
  }

  lemma RepeatPairAppend(es: seq<OdwnClasses.Entry>, ranks: seq<int>, k: RankKey)
    requires |es| == |ranks| && es != []
    ensures var n := |es| - 1;
      RepeatPair(es, ranks, k) <==> (RepeatPair(es[..n], ranks[..n], k) ||
        (RankKeyOf(es[n]) == k && exists a :: 0 <= a < n && RankKeyOf(es[a]) == k && ranks[a] == ranks[n]))
  {
    var n := |es| - 1;
    var init, rinit := es[..n], ranks[..n];
    if RepeatPair(es, ranks, k) {
      var a, b :| 0 <= a < b < |es| && RankKeyOf(es[a]) == k && RankKeyOf(es[b]) == k && ranks[a] == ranks[b];
      if b < n {
        assert RankKeyOf(init[a]) == k && RankKeyOf(init[b]) == k && rinit[a] == rinit[b];
      }
    }
    if RepeatPair(init, rinit, k) {
      var a, b :| 0 <= a < b < n && RankKeyOf(init[a]) == k && RankKeyOf(init[b]) == k && rinit[a] == rinit[b];
      assert RankKeyOf(es[a]) == k && RankKeyOf(es[b]) == k && ranks[a] == ranks[b];
    }
  }

  /**
   * A group has a repeated rank exactly when two distinct entries with its
   * key have the same rank.
   */
  lemma {:induction false} GroupRepeatIff(es: seq<OdwnClasses.Entry>, ranks: seq<int>, k: RankKey)
    requires |es| == |ranks|
    ensures HasRepeatedRank(GroupOf(es, ranks, k)) <==> RepeatPair(es, ranks, k)
  {
    var g := GroupOf(es, ranks, k);
    ElementsCardinality(g.senseranks);
    assert HasRepeatedRank(g) <==> Repeats(g.senseranks);
    if es != [] {
      var n := |es| - 1;
      var init, rinit := es[..n], ranks[..n];
      var gi := GroupOf(init, rinit, k);
      GroupRepeatIff(init, rinit, k);
      ElementsCardinality(gi.senseranks);
      RepeatPairAppend(es, ranks, k);
      if RankKeyOf(es[n]) == k {
        GroupRanks(init, rinit, k, ranks[n]);
        RepeatsAppend(gi.senseranks, ranks[n]);
        assert (exists a :: 0 <= a < n && RankKeyOf(es[a]) == k && ranks[a] == ranks[n]) <==>
          exists a :: 0 <= a < n && RankKeyOf(init[a]) == k && rinit[a] == ranks[n];
      }
    }
  }

  /** A rank is in the group of k exactly when an entry with key k has that rank. */
  lemma {:induction false} GroupRanks(es: seq<OdwnClasses.Entry>, ranks: seq<int>, k: RankKey, rank: int)
    requires |es| == |ranks|
    ensures rank in GroupOf(es, ranks, k).senseranks <==> exists i :: 0 <= i < |es| && RankKeyOf(es[i]) == k && ranks[i] == rank
  {
    if es != [] {
      var n := |es| - 1;
      var init, rinit := es[..n], ranks[..n];
      GroupRanks(init, rinit, k, rank);
      assert forall i :: 0 <= i < n ==> init[i] == es[i] && rinit[i] == ranks[i];
      if exists i :: 0 <= i < |es| && RankKeyOf(es[i]) == k && ranks[i] == rank {
        var i :| 0 <= i < |es| && RankKeyOf(es[i]) == k && ranks[i] == rank;
        if i < n {
          assert RankKeyOf(init[i]) == k && rinit[i] == rank;
        }
      }
    }
  }

  /**
   * A sense id is flagged exactly when it belongs to an entry that shares
   * its lemma and part of speech with two distinct entries of equal rank.
   */
  lemma FlaggedIff(es: seq<OdwnClasses.Entry>, ranks: seq<int>, id: string)
    requires |es| == |ranks|
    ensures id in InconsistentIds(es, ranks) <==>
      exists i :: 0 <= i < |es| && es[i].senseId == id &&
        RepeatPair(es, ranks, RankKeyOf(es[i]))
  {
    forall i | 0 <= i < |es|
      ensures HasRepeatedRank(GroupOf(es, ranks, RankKeyOf(es[i]))) <==> RepeatPair(es, ranks, RankKeyOf(es[i]))
    {
      GroupRepeatIff(es, ranks, RankKeyOf(es[i]));
    }
  }

  /**
   * Flagging is by whole groups: an entry sharing its key with a flagged
   * entry is flagged too; a key held by one entry only is never flagged;
   * every flagged id is an input sense id.
   */
  lemma FlaggedGroups(es: seq<OdwnClasses.Entry>, ranks: seq<int>)
    requires |es| == |ranks|
    ensures forall i, j ::
      (0 <= i < |es| && 0 <= j < |es| && RankKeyOf(es[i]) == RankKeyOf(es[j]) &&
       HasRepeatedRank(GroupOf(es, ranks, RankKeyOf(es[i])))) ==> es[j].senseId in InconsistentIds(es, ranks)
    ensures forall i :: 0 <= i < |es| && (forall j :: 0 <= j < |es| && j != i ==> RankKeyOf(es[j]) != RankKeyOf(es[i])) ==>
      !HasRepeatedRank(GroupOf(es, ranks, RankKeyOf(es[i])))
    ensures forall id :: id in InconsistentIds(es, ranks) ==> exists i :: 0 <= i < |es| && es[i].senseId == id
  {
    forall i | 0 <= i < |es| && (forall j :: 0 <= j < |es| && j != i ==> RankKeyOf(es[j]) != RankKeyOf(es[i]))
      ensures !HasRepeatedRank(GroupOf(es, ranks, RankKeyOf(es[i])))
    {
      GroupRepeatIff(es, ranks, RankKeyOf(es[i]));
    }
  }

  /** The groups of the second loop flag exactly the ids of the specification. */
  lemma FlaggedAll(es: seq<OdwnClasses.Entry>, ranks: seq<int>, groups: map<RankKey, SenseGroup>)
    requires |es| == |ranks|
    requires forall k :: k in groups <==> GroupOf(es, ranks, k).senseIds != []
    requires forall k :: k in groups ==> groups[k] == GroupOf(es, ranks, k)
    ensures FlaggedIn(groups, groups.Keys) == InconsistentIds(es, ranks)
  {
    forall id
      ensures id in FlaggedIn(groups, groups.Keys) <==> id in InconsistentIds(es, ranks)
    {
      if id in FlaggedIn(groups, groups.Keys) {
        var k :| k in groups && HasRepeatedRank(groups[k]) && id in groups[k].senseIds;
        GroupIds(es, ranks, k, id);
        var i :| 0 <= i < |es| && RankKeyOf(es[i]) == k && es[i].senseId == id;
      }
      if id in InconsistentIds(es, ranks) {
        var i :| 0 <= i < |es| && HasRepeatedRank(GroupOf(es, ranks, RankKeyOf(es[i]))) && es[i].senseId == id;
        var k := RankKeyOf(es[i]);
        GroupIds(es, ranks, k, id);
      }
    }
  }

  /** One more entry whose rank does not parse: the pass fails with its exception. */
  lemma RankFails(es: seq<OdwnClasses.Entry>, i: nat, ranks: seq<int>)
    requires i < |es| && ParsedRanks(es[..i]) == Ok(ranks)
    requires ParseInt(es[i].cSeqNr).Err?
    ensures ParsedRanks(es) == Err(ParseInt(es[i].cSeqNr).error)
  {
    assert es[..i + 1][..i] == es[..i];
    ParsedRanksFailure(es, i + 1);
  }

  /** The groups after one more entry e with rank r. */
  lemma GroupOfSnoc(es: seq<OdwnClasses.Entry>, ranks: seq<int>, e: OdwnClasses.Entry, r: int, k: RankKey)
    requires |es| == |ranks|
    ensures GroupOf(es + [e], ranks + [r], k) ==
      if RankKeyOf(e) == k then
        SenseGroup(GroupOf(es, ranks, k).senseIds + [e.senseId], GroupOf(es, ranks, k).senseranks + [r])
      else GroupOf(es, ranks, k)
  {
    assert (es + [e])[..|es|] == es;
    assert (ranks + [r])[..|ranks|] == ranks;
  }

  /**
   * One more entry whose rank parses: it is appended to the group of its
   * key, which is created empty when the key is new.
   */
  lemma GroupStep(es: seq<OdwnClasses.Entry>, i: nat, ranks: seq<int>, groups: map<RankKey, SenseGroup>, rank: int)
    requires i < |es| && ParsedRanks(es[..i]) == Ok(ranks)
    requires ParseInt(es[i].cSeqNr) == Ok(rank)
    requires forall k :: k in groups <==> GroupOf(es[..i], ranks, k).senseIds != []
    requires forall k :: k in groups ==> groups[k] == GroupOf(es[..i], ranks, k)
    ensures ParsedRanks(es[..i + 1]) == Ok(ranks + [rank])
    ensures var k := RankKeyOf(es[i]);
      var info := if k in groups then groups[k] else SenseGroup([], []);
      var groups' := groups[k := SenseGroup(info.senseIds + [es[i].senseId], info.senseranks + [rank])];
      (forall k :: k in groups' <==> GroupOf(es[..i + 1], ranks + [rank], k).senseIds != []) &&
      (forall k :: k in groups' ==> groups'[k] == GroupOf(es[..i + 1], ranks + [rank], k))
  {
    var p := es[..i + 1];
    assert p[..i] == es[..i];
    assert p == es[..i] + [es[i]];
    var k := RankKeyOf(es[i]);
    var info := if k in groups then groups[k] else SenseGroup([], []);
    var groups' := groups[k := SenseGroup(info.senseIds + [es[i].senseId], info.senseranks + [rank])];
    forall k' | true
      ensures (k' in groups' <==> GroupOf(p, ranks + [rank], k').senseIds != []) &&
              (k' in groups' ==> groups'[k'] == GroupOf(p, ranks + [rank], k'))
    {
      GroupOfSnoc(es[..i], ranks, es[i], rank, k');
    }
  }

  /**
   * The first loop of get_inconsistent_senseranks: the sense ids and ranks
   * of each (lemma, rbn_pos) key; int() of a c_seq_nr that is not an
   * integer raises.
   */
  method GroupSenseranks(es: seq<OdwnClasses.Entry>) returns (r: Result<map<RankKey, SenseGroup>, Fault>)
    ensures ParsedRanks(es).Err? ==> r == Err(ParsedRanks(es).error)
    ensures ParsedRanks(es).Ok? ==> r.Ok? && forall k :: k in r.value <==> GroupOf(es, ParsedRanks(es).value, k).senseIds != []
    ensures ParsedRanks(es).Ok? ==> forall k :: k in r.value ==> r.value[k] == GroupOf(es, ParsedRanks(es).value, k)
  {
    var groups: map<RankKey, SenseGroup> := map[];
    ghost var ranks: seq<int> := [];
    for i := 0 to |es|
      invariant ParsedRanks(es[..i]) == Ok(ranks)
      invariant forall k :: k in groups <==> GroupOf(es[..i], ranks, k).senseIds != []
      invariant forall k :: k in groups ==> groups[k] == GroupOf(es[..i], ranks, k)
    {
      var value := ParseInt(es[i].cSeqNr);
      if value.Err? {
        RankFails(es, i, ranks);
        return Err(value.error);
      }
      GroupStep(es, i, ranks, groups, value.value);
      var k := RankKeyOf(es[i]);
      // a new key starts with empty lists
      var info := if k in groups then groups[k] else SenseGroup([], []);
      groups := groups[k := SenseGroup(info.senseIds + [es[i].senseId], info.senseranks + [value.value])];
      ranks := ranks + [value.value];
    }
    assert es[..|es|] == es;
    assert forall k :: k in groups ==> groups[k] == GroupOf(es, ranks, k);
    r := Ok(groups);
  }

  /** Flagging one more group adds its ids when its ranks repeat. */
  lemma FlaggedInStep(groups: map<RankKey, SenseGroup>, done: set<RankKey>, k: RankKey)
    requires k in groups
    ensures FlaggedIn(groups, done + {k}) ==
      FlaggedIn(groups, done) + (if HasRepeatedRank(groups[k]) then Elements(groups[k].senseIds) else {})
  {
  }

  /**
   * The second loop of get_inconsistent_senseranks: the union of the
   * sense ids of the groups whose ranks repeat, in any order of the keys.
   */
  method FlagGroups(groups: map<RankKey, SenseGroup>) returns (inconsistentIds: set<string>)
    ensures inconsistentIds == FlaggedIn(groups, groups.Keys)
  {
    inconsistentIds := {};
    var remaining := groups.Keys;
    while remaining != {}
      invariant remaining <= groups.Keys
      invariant inconsistentIds == FlaggedIn(groups, groups.Keys - remaining)
      decreases |remaining|
    {
      var k :| k in remaining;
      var info := groups[k];
      FlaggedInStep(groups, groups.Keys - remaining, k);
      if |info.senseranks| != |Elements(info.senseranks)| {
        inconsistentIds := inconsistentIds + Elements(info.senseIds);
      }
      assert groups.Keys - (remaining - {k}) == (groups.Keys - remaining) + {k};
      remaining := remaining - {k};
    }
  }

  /**
   * get_inconsistent_senseranks: the sense ids of every (lemma, rbn_pos)
   * group whose integer ranks repeat; int() of a c_seq_nr that is not an
   * integer raises.
   */
  method GetInconsistentSenseranks(es: seq<OdwnClasses.Entry>) returns (r: Result<set<string>, Fault>)
    ensures ParsedRanks(es).Err? ==> r == Err(ParsedRanks(es).error)
    ensures ParsedRanks(es).Ok? ==> r == Ok(InconsistentIds(es, ParsedRanks(es).value))
  {
    var groups := GroupSenseranks(es);
    if groups.Err? {
      return Err(groups.error);
    }
    var ids := FlagGroups(groups.value);
    FlaggedAll(es, ParsedRanks(es).value, groups.value);
    r := Ok(ids);
  }

  // ---------------------------------------------------------------------
  // load_polysemy_info

  /** The default part-of-speech filter of load_polysemy_info. */
  const DefaultPolysemyPos: set<string> := {"noun", "verb", "adjective", "adverb", "other"}

  /** The grouping key: lemma and FrameNet part of speech. */
  type LemmaPos = (Option<string>, Option<string>)

  function LemmaPosOf(e: RbnClasses.Entry): LemmaPos
  {
    (e.lemmaForm, e.fnPos)
  }

  /** `le_obj.rbn_pos in pos`: None is in no set of strings. */
  predicate InPos(e: RbnClasses.Entry, pos: set<string>)
  {
    e.rbnPos.Some? && e.rbnPos.value in pos
  }

  /** lemma_pos2le_ids after the entries es. */
  function PolysemyGroups(es: seq<RbnClasses.Entry>, pos: set<string>): map<LemmaPos, set<Option<string>>>
  {
    if es == [] then map[]
    else
      var groups := PolysemyGroups(es[..|es| - 1], pos);
      var e := es[|es| - 1];
      if !InPos(e, pos) then groups
      else
        var key := LemmaPosOf(e);
        groups[key := (if key in groups then groups[key] else {}) + {e.senseId}]
  }

  /**
   * The groups hold exactly the entries that pass the filter: a key is
   * present exactly when a filtered entry has it, and an id is in its
   * group exactly when a filtered entry with that key has that id.
   */
  lemma {:induction false} PolysemyGroupsSpec(es: seq<RbnClasses.Entry>, pos: set<string>)
    ensures forall k :: k in PolysemyGroups(es, pos) <==> exists i :: 0 <= i < |es| && InPos(es[i], pos) && LemmaPosOf(es[i]) == k
    ensures forall k, id :: k in PolysemyGroups(es, pos) ==>
      (id in PolysemyGroups(es, pos)[k] <==>
        exists i :: 0 <= i < |es| && InPos(es[i], pos) && LemmaPosOf(es[i]) == k && es[i].senseId == id)
  {
    if es != [] {
      var n := |es| - 1;
      var init := es[..n];
      PolysemyGroupsSpec(init, pos);
      assert forall i :: 0 <= i < n ==> init[i] == es[i];
    }
  }

  /** No group is empty. */
  lemma {:induction false} PolysemyGroupsNonEmpty(es: seq<RbnClasses.Entry>, pos: set<string>)
    ensures forall k :: k in PolysemyGroups(es, pos) ==> PolysemyGroups(es, pos)[k] != {}
  {
    if es != [] {
      PolysemyGroupsNonEmpty(es[..|es| - 1], pos);
    }
  }

  /** The first loop of load_polysemy_info: lemma_pos2le_ids. */
  method GroupByLemmaPos(es: seq<RbnClasses.Entry>, pos: set<string>) returns (groups: map<LemmaPos, set<Option<string>>>)
    ensures groups == PolysemyGroups(es, pos)
  {
    groups := map[];
    for i := 0 to |es|
      invariant groups == PolysemyGroups(es[..i], pos)
    {
      assert es[..i + 1][..i] == es[..i];
      var e := es[i];
      if InPos(e, pos) {
        var key := LemmaPosOf(e);
        groups := groups[key := (if key in groups then groups[key] else {}) + {e.senseId}];
      }
    }
    assert es[..|es|] == es;
  }

  /** The inner loop: every id of one group gets the group's size n. */
  method SetPolysemy(idPolysemy: map<Option<string>, nat>, ids: set<Option<string>>, n: nat)
    returns (r: map<Option<string>, nat>)
    ensures forall id :: id in r <==> id in idPolysemy || id in ids
    ensures forall id :: id in ids ==> r[id] == n
    ensures forall id :: id in idPolysemy && id !in ids ==> r[id] == idPolysemy[id]
  {
    r := idPolysemy;
    var todo := ids;
    while todo != {}
      invariant todo <= ids
      invariant forall id :: id in r <==> id in idPolysemy || (id in ids && id !in todo)
      invariant forall id :: id in ids && id !in todo ==> r[id] == n
      invariant forall id :: id in idPolysemy && id !in ids ==> r[id] == idPolysemy[id]
      decreases |todo|
    {
      var id :| id in todo;
      r := r[id := n];
      todo := todo - {id};
    }
  }

  /**
   * The second loop of load_polysemy_info: the polysemy column (the size
   * of each group) and le_id2polysemy_of_lemma, filled group by group in
   * any order of the keys.
   */
  method Polysemy(groups: map<LemmaPos, set<Option<string>>>)
    returns (polysemy: map<LemmaPos, nat>, idPolysemy: map<Option<string>, nat>)
    ensures forall k :: k in polysemy <==> k in groups
    ensures forall k :: k in groups ==> polysemy[k] == |groups[k]|
    ensures forall id :: id in idPolysemy <==> exists k :: k in groups && id in groups[k]
    ensures forall id :: id in idPolysemy ==> exists k :: k in groups && id in groups[k] && idPolysemy[id] == |groups[k]|
  {
    polysemy, idPolysemy := map[], map[];
    var remaining := groups.Keys;
    while remaining != {}
      invariant remaining <= groups.Keys
      invariant forall k :: k in polysemy <==> k in groups && k !in remaining
      invariant forall k :: k in polysemy ==> polysemy[k] == |groups[k]|
      invariant forall id :: id in idPolysemy <==> exists k :: k in groups && k !in remaining && id in groups[k]
      invariant forall id :: id in idPolysemy ==> exists k :: k in groups && id in groups[k] && idPolysemy[id] == |groups[k]|
      decreases |remaining|
    {
      var k :| k in remaining;
      var ids := groups[k];
      polysemy := polysemy[k := |ids|];
      idPolysemy := SetPolysemy(idPolysemy, ids, |ids|);
      remaining := remaining - {k};
    }
  }

  /**
   * The grouping part of load_polysemy_info: lemma_pos2le_ids over the
   * entries that pass the filter, each group's size, and each grouped id's
   * polysemy.
   */
  method LoadPolysemyInfo(es: seq<RbnClasses.Entry>, pos: set<string>)
    returns (groups: map<LemmaPos, set<Option<string>>>, polysemy: map<LemmaPos, nat>, idPolysemy: map<Option<string>, nat>)
    ensures groups == PolysemyGroups(es, pos)
    ensures forall k :: k in polysemy <==> k in groups
    ensures forall k :: k in groups ==> polysemy[k] == |groups[k]| >= 1
    ensures forall id :: id in idPolysemy <==> exists k :: k in groups && id in groups[k]
    ensures forall id :: id in idPolysemy ==> exists k :: k in groups && id in groups[k] && idPolysemy[id] == |groups[k]|
  {
    groups := GroupByLemmaPos(es, pos);
    PolysemyGroupsNonEmpty(es, pos);
    polysemy, idPolysemy := Polysemy(groups);
  }

  /** When no id is grouped twice, each grouped id's polysemy is the size of its group. */
  lemma PolysemyOfUniqueIds(
    groups: map<LemmaPos, set<Option<string>>>, idPolysemy: map<Option<string>, nat>, k: LemmaPos, id: Option<string>)
    requires forall id :: id in idPolysemy ==> exists k :: k in groups && id in groups[k] && idPolysemy[id] == |groups[k]|
    requires forall id :: id in idPolysemy <==> exists k :: k in groups && id in groups[k]
    requires forall k1, k2, id :: k1 in groups && k2 in groups && id in groups[k1] && id in groups[k2] ==> k1 == k2
    requires k in groups && id in groups[k]
    ensures id in idPolysemy && idPolysemy[id] == |groups[k]|
  {
    var k' :| k' in groups && id in groups[k'] && idPolysemy[id] == |groups[k']|;
    assert k' == k;
  }

  /** Entries with distinct sense ids put each id in one group only. */
  lemma DistinctIdsGroupedOnce(es: seq<RbnClasses.Entry>, pos: set<string>)
    requires forall i, j :: 0 <= i < |es| && 0 <= j < |es| && es[i].senseId == es[j].senseId ==> i == j
    ensures var g := PolysemyGroups(es, pos);
      forall k1, k2, id :: k1 in g && k2 in g && id in g[k1] && id in g[k2] ==> k1 == k2
  {
    PolysemyGroupsSpec(es, pos);
  }

  // ---------------------------------------------------------------------
  // compute_stats_about

  /**
   * The counting part of compute_stats_about: one observation per entry
   * (observe stands for the tuple of the chosen attributes), their count,
   * the number of distinct observations and their frequency distribution.
   */
  method ComputeStatsAbout<T, O>(es: seq<T>, observe: T -> O)
    returns (observations: seq<O>, count: nat, unique: nat, freqDist: multiset<O>)
    ensures |observations| == |es| && forall i :: 0 <= i < |es| ==> observations[i] == observe(es[i])
    ensures count == |es|
    ensures unique == |Elements(observations)| && unique <= count
    ensures freqDist == multiset(observations) && |freqDist| == count
    ensures forall o :: freqDist[o] > 0 <==> exists i :: 0 <= i < |es| && observe(es[i]) == o
  {
    observations := [];
    for i := 0 to |es|
      invariant |observations| == i
      invariant forall j :: 0 <= j < i ==> observations[j] == observe(es[j])
    {
      observations := observations + [observe(es[i])];
    }
    freqDist := multiset(observations);
    count := |observations|;
    ElementsCardinality(observations);
    unique := |Elements(observations)|;
  }

  /** All observations are distinct exactly when every frequency is one. */
  lemma {:induction false} StatsDistinct<O>(observations: seq<O>)
    ensures |Elements(observations)| == |observations| <==> forall o :: multiset(observations)[o] <= 1
  {
    ElementsCardinality(observations);
    if |Elements(observations)| == |observations| {
      forall o
        ensures multiset(observations)[o] <= 1
      {
        DistinctCount(observations, o);
      }
    } else {
      var a, b :| 0 <= a < b < |observations| && observations[a] == observations[b];
      var o := observations[a];
      var s := observations;
      assert s == s[..b] + [s[b]] + s[b + 1..];
      assert s[a] in s[..b];
      assert multiset(s)[o] == multiset(s[..b])[o] + 1 + multiset(s[b + 1..])[o];
    }
  }

  /** Without repeated elements every element occurs once. */
  lemma {:induction false} DistinctCount<O>(s: seq<O>, o: O)
    requires Distinct(s)
    ensures multiset(s)[o] <= 1
  {
    if s != [] {
      var init := s[..|s| - 1];
      assert s == init + [s[|s| - 1]];
      assert Distinct(init);
      DistinctCount(init, o);
      if o == s[|s| - 1] {
        assert o !in init;
      }
    }
  }
}
