/**
 * The loading script: build an LE object for every cdb_lu element in
 * document order, switch off the ones the settings exclude (a prefix that
 * is not allowed, or a `_sub_` sense id when such ids are excluded), keep
 * the rest in order and collect the ids of those not added.
 */
module MainScript {
  import opened Builtins
  import OdwnClasses

  /** set(allowed_prefixes.split('+')) */
  function AllowedPrefixes(arg: string): set<string>
  {
    Elements(Split(arg, '+'))
  }

  /** The --exclude_sub_NUMBER argument is on exactly when it is the string True. */
  predicate ExcludeSubNumber(arg: string)
  {
    arg == "True"
  }

  /** The allowed prefixes are the '+'-free pieces that, joined with '+', give the argument back. */
  lemma AllowedPrefixesPieces(arg: string)
    ensures forall p :: p in AllowedPrefixes(arg) ==> '+' !in p && forall c :: c in p ==> c in arg
    ensures Join(Split(arg, '+'), "+") == arg
    ensures AllowedPrefixes(arg) != {}
  {
    SplitPieces(arg, '+');
    SplitJoin(arg, '+');
    assert Split(arg, '+')[0] in AllowedPrefixes(arg);
  }

  /** The documented example "r+c" allows exactly the prefixes r and c. */
  lemma AllowedPrefixesExample()
    ensures AllowedPrefixes("r+c") == {"r", "c"}
  {
    SplitWord("r", "c", '+');
    assert "r" + ['+'] + "c" == "r+c";
    SplitFree("c", '+');
    assert Split("r+c", '+') == ["r", "c"];
  }

  /**
   * The entry once the settings have been applied: add stays true only for
   * an allowed prefix, and, when sub-number ids are excluded, for an id
   * without `_sub_`.
   */
  function Settled(e: OdwnClasses.Entry, allowed: set<string>, exclude: bool): OdwnClasses.Entry
  {
    var add := if e.prefix !in allowed then false else e.add;
    var add := if ContainsSubstring(e.senseId, "_sub_") && exclude then false else add;
    e.(add := add)
  }

  /** The constructor's result for every element in order, or the first exception raised. */
  function ConstructAll(raws: seq<OdwnClasses.CdbLu>, namespace: string, abbreviatedNamespace: string): Result<seq<OdwnClasses.Entry>, Fault>
  {
    if raws == [] then Ok([])
    else
      var init :- ConstructAll(raws[..|raws| - 1], namespace, abbreviatedNamespace);
      var e :- OdwnClasses.Construct(raws[|raws| - 1], namespace, abbreviatedNamespace);
      Ok(init + [e])
  }

  /** le_objs: the settled entries whose add is still true, in order. */
  function KeptOf(es: seq<OdwnClasses.Entry>, allowed: set<string>, exclude: bool): seq<OdwnClasses.Entry>
  {
    if es == [] then []
    else
      var e := Settled(es[|es| - 1], allowed, exclude);
      KeptOf(es[..|es| - 1], allowed, exclude) + (if e.add then [e] else [])
  }

  /** not_added: the sense ids of the settled entries whose add is false. */
  function NotAddedOf(es: seq<OdwnClasses.Entry>, allowed: set<string>, exclude: bool): set<string>
  {
    if es == [] then {}
    else
      var e := Settled(es[|es| - 1], allowed, exclude);
      NotAddedOf(es[..|es| - 1], allowed, exclude) + (if e.add then {} else {e.senseId})
  }

  /** The entries the objects hold, in order. */
  function Views(les: seq<OdwnClasses.LE>): seq<OdwnClasses.Entry>
    reads les
  {
    if les == [] then [] else Views(les[..|les| - 1]) + [les[|les| - 1].View()]
  }

  /** Applying the settings only ever lowers add and changes nothing else. */
  lemma SettledOnlyLowersAdd(e: OdwnClasses.Entry, allowed: set<string>, exclude: bool)
    ensures Settled(e, allowed, exclude).add ==> e.add
    ensures Settled(e, allowed, exclude).(add := e.add) == e
    ensures Settled(e, allowed, exclude).add <==>
      e.add && e.prefix in allowed && !(exclude && ContainsSubstring(e.senseId, "_sub_"))
  {
  }

  /** Every kept entry has add set, an allowed prefix and, when excluded, no `_sub_` in its id. */
  lemma {:induction false} KeptRespectsSettings(es: seq<OdwnClasses.Entry>, allowed: set<string>, exclude: bool)
    ensures forall e :: e in KeptOf(es, allowed, exclude) ==>
      e.add && e.prefix in allowed && (exclude ==> !ContainsSubstring(e.senseId, "_sub_"))
  {
    if es != [] {
      KeptRespectsSettings(es[..|es| - 1], allowed, exclude);
    }
  }

  /** An entry is kept exactly when some element settles to it with add still set. */
  lemma {:induction false} KeptMembers(es: seq<OdwnClasses.Entry>, allowed: set<string>, exclude: bool)
    ensures forall e :: e in KeptOf(es, allowed, exclude) <==>
      exists i :: 0 <= i < |es| && Settled(es[i], allowed, exclude) == e && e.add
  {
    if es != [] {
      var init := es[..|es| - 1];
      KeptMembers(init, allowed, exclude);
      forall e | (exists i :: 0 <= i < |es| && Settled(es[i], allowed, exclude) == e && e.add)
        ensures e in KeptOf(es, allowed, exclude)
      {
        var i :| 0 <= i < |es| && Settled(es[i], allowed, exclude) == e && e.add;
        if i < |init| {
          assert init[i] == es[i];
        }
      }
      forall e | e in KeptOf(es, allowed, exclude)
        ensures exists i :: 0 <= i < |es| && Settled(es[i], allowed, exclude) == e && e.add
      {
        if e in KeptOf(init, allowed, exclude) {
          var i :| 0 <= i < |init| && Settled(init[i], allowed, exclude) == e && e.add;
          assert es[i] == init[i];
        } else {
          assert Settled(es[|es| - 1], allowed, exclude) == e && e.add;
        }
      }
    }
  }

  /** A sense id is not added exactly when some element with that id settles with add false. */
  lemma {:induction false} NotAddedMembers(es: seq<OdwnClasses.Entry>, allowed: set<string>, exclude: bool)
    ensures forall id :: id in NotAddedOf(es, allowed, exclude) <==>
      exists i :: 0 <= i < |es| && es[i].senseId == id && !Settled(es[i], allowed, exclude).add
  {
    if es != [] {
      var init := es[..|es| - 1];
      NotAddedMembers(init, allowed, exclude);
      forall id | (exists i :: 0 <= i < |es| && es[i].senseId == id && !Settled(es[i], allowed, exclude).add)
        ensures id in NotAddedOf(es, allowed, exclude)
      {
        var i :| 0 <= i < |es| && es[i].senseId == id && !Settled(es[i], allowed, exclude).add;
        if i < |init| {
          assert init[i] == es[i];
        }
      }
      forall id | id in NotAddedOf(es, allowed, exclude)
        ensures exists i :: 0 <= i < |es| && es[i].senseId == id && !Settled(es[i], allowed, exclude).add
      {
        if id in NotAddedOf(init, allowed, exclude) {
          var i :| 0 <= i < |init| && init[i].senseId == id && !Settled(init[i], allowed, exclude).add;
          assert es[i] == init[i];
        } else {
          assert es[|es| - 1].senseId == id;
        }
      }
    }
  }

  /** With distinct sense ids, no kept entry's id is also among the ids not added. */
  lemma NeverBoth(es: seq<OdwnClasses.Entry>, allowed: set<string>, exclude: bool)
    requires forall i, j :: 0 <= i < j < |es| ==> es[i].senseId != es[j].senseId
    ensures forall e :: e in KeptOf(es, allowed, exclude) ==> e.senseId !in NotAddedOf(es, allowed, exclude)
  {
    KeptMembers(es, allowed, exclude);
    NotAddedMembers(es, allowed, exclude);
    forall e | e in KeptOf(es, allowed, exclude)
      ensures e.senseId !in NotAddedOf(es, allowed, exclude)
    {
      var i :| 0 <= i < |es| && Settled(es[i], allowed, exclude) == e && e.add;
      assert es[i].senseId == e.senseId;
      forall j | 0 <= j < |es| && es[j].senseId == e.senseId
        ensures Settled(es[j], allowed, exclude).add
      {
        assert j == i;
      }
    }
  }

  /** Filtering preserves order: the kept entries of a concatenation are the concatenation of the kept entries. */
  lemma {:induction false} KeptOfConcat(a: seq<OdwnClasses.Entry>, b: seq<OdwnClasses.Entry>, allowed: set<string>, exclude: bool)
    ensures KeptOf(a + b, allowed, exclude) == KeptOf(a, allowed, exclude) + KeptOf(b, allowed, exclude)
    decreases |b|
  {
    if b == [] {
      assert a + b == a;
    } else {
      var b' := b[..|b| - 1];
      assert (a + b)[..|a + b| - 1] == a + b';
      KeptOfConcat(a, b', allowed, exclude);
    }
  }

  /** Every element is either kept or not added, so there are at most as many kept entries as elements. */
  lemma {:induction false} KeptOrNotAdded(es: seq<OdwnClasses.Entry>, allowed: set<string>, exclude: bool)
    ensures |KeptOf(es, allowed, exclude)| <= |es|
    ensures forall i :: 0 <= i < |es| ==>
      Settled(es[i], allowed, exclude) in KeptOf(es, allowed, exclude) || es[i].senseId in NotAddedOf(es, allowed, exclude)
  {
    if es != [] {
      var init := es[..|es| - 1];
      KeptOrNotAdded(init, allowed, exclude);
      forall i | 0 <= i < |es|
        ensures Settled(es[i], allowed, exclude) in KeptOf(es, allowed, exclude) || es[i].senseId in NotAddedOf(es, allowed, exclude)
      {
        if i < |init| {
          assert es[i] == init[i];
        }
      }
    }
  }

  /** Once one element raises, the run raises that exception whatever follows. */
  lemma {:induction false} ConstructAllPrefixFails(raws: seq<OdwnClasses.CdbLu>, j: nat, namespace: string, abbreviatedNamespace: string)
    requires j <= |raws|
    requires ConstructAll(raws[..j], namespace, abbreviatedNamespace).Err?
    ensures ConstructAll(raws, namespace, abbreviatedNamespace) == ConstructAll(raws[..j], namespace, abbreviatedNamespace)
    decreases |raws| - j
  {
    if j < |raws| {
      assert raws[..|raws| - 1][..j] == raws[..j];
      ConstructAllPrefixFails(raws[..|raws| - 1], j, namespace, abbreviatedNamespace);
    } else {
      assert raws[..j] == raws;
    }
  }

  /** A successful run has one entry per element, each the constructor's result. */
  lemma {:induction false} ConstructAllEntries(raws: seq<OdwnClasses.CdbLu>, namespace: string, abbreviatedNamespace: string)
    requires ConstructAll(raws, namespace, abbreviatedNamespace).Ok?
    ensures var es := ConstructAll(raws, namespace, abbreviatedNamespace).value;
      |es| == |raws| && forall i :: 0 <= i < |raws| ==> OdwnClasses.Construct(raws[i], namespace, abbreviatedNamespace) == Ok(es[i])
  {
    if raws != [] {
      var init := raws[..|raws| - 1];
      ConstructAllEntries(init, namespace, abbreviatedNamespace);
      var es := ConstructAll(raws, namespace, abbreviatedNamespace).value;
      forall i | 0 <= i < |raws|
        ensures OdwnClasses.Construct(raws[i], namespace, abbreviatedNamespace) == Ok(es[i])
      {
        if i < |init| {
          assert raws[i] == init[i];
        }
      }
    }
  }

  /** One more element: the run so far extended by its entry, or its exception. */
  lemma ConstructAllStep(raws: seq<OdwnClasses.CdbLu>, i: nat, namespace: string, abbreviatedNamespace: string,
                         es: seq<OdwnClasses.Entry>, c: Result<OdwnClasses.Entry, Fault>)
    requires i < |raws| && ConstructAll(raws[..i], namespace, abbreviatedNamespace) == Ok(es)
    requires OdwnClasses.Construct(raws[i], namespace, abbreviatedNamespace) == c
    ensures ConstructAll(raws[..i + 1], namespace, abbreviatedNamespace) ==
        if c.Err? then Err(c.error) else Ok(es + [c.value])
  {
    assert raws[..i + 1][..i] == raws[..i];
  }

  /** One more entry: kept at the end, or its id added to the ids not added. */
  lemma SettleStep(es: seq<OdwnClasses.Entry>, e: OdwnClasses.Entry, allowed: set<string>, exclude: bool)
    ensures var s := Settled(e, allowed, exclude);
      KeptOf(es + [e], allowed, exclude) == KeptOf(es, allowed, exclude) + (if s.add then [s] else []) &&
      NotAddedOf(es + [e], allowed, exclude) == NotAddedOf(es, allowed, exclude) + (if s.add then {} else {e.senseId})
  {
    assert (es + [e])[..|es|] == es;
  }

  lemma ViewsStep(les: seq<OdwnClasses.LE>, le: OdwnClasses.LE)
    ensures Views(les + [le]) == Views(les) + [le.View()]
  {
    assert (les + [le])[..|les|] == les;
  }

  /** Lines 49-54: switch the object off for a prefix not allowed or an excluded `_sub_` id. */
  method ApplySettings(leObj: OdwnClasses.LE, allowedPrefixes: set<string>, excludeSubNumberIds: bool)
    modifies leObj
    ensures leObj.View() == Settled(old(leObj.View()), allowedPrefixes, excludeSubNumberIds)
  {
    if leObj.prefix !in allowedPrefixes {
      leObj.add := false;
    }
    if ContainsSubstring(leObj.senseId, "_sub_") && excludeSubNumberIds {
      leObj.add := false;
    }
  }

  /**
   * Lines 44-54 for one element: the constructed object with the settings
   * applied, or the exception the constructor raises.
   */
  method LoadOne(raw: OdwnClasses.CdbLu, namespace: string, shortNamespace: string,
                 allowedPrefixes: set<string>, excludeSubNumberIds: bool)
    returns (r: Result<OdwnClasses.LE, Fault>)
    ensures r.Err? <==> OdwnClasses.Construct(raw, namespace, shortNamespace).Err?
    ensures r.Err? ==> OdwnClasses.Construct(raw, namespace, shortNamespace) == Err(r.error)
    ensures r.Ok? ==> fresh(r.value)
    ensures r.Ok? ==>
      r.value.View() == Settled(OdwnClasses.Construct(raw, namespace, shortNamespace).value, allowedPrefixes, excludeSubNumberIds)
  {
    r := OdwnClasses.NewLE(raw, namespace, shortNamespace);
    if r.Ok? {
      ApplySettings(r.value, allowedPrefixes, excludeSubNumberIds);
    }
  }

  /**
   * Lines 56-59: a settled object still switched on is appended to the
   * kept objects, otherwise its sense id goes to the ids not added.
   */
  method Record(leObjs: seq<OdwnClasses.LE>, notAdded: set<string>, leObj: OdwnClasses.LE,
                ghost es: seq<OdwnClasses.Entry>, ghost e: OdwnClasses.Entry, allowed: set<string>, exclude: bool)
    returns (leObjs': seq<OdwnClasses.LE>, notAdded': set<string>)
    requires Views(leObjs) == KeptOf(es, allowed, exclude) && notAdded == NotAddedOf(es, allowed, exclude)
    requires leObj.View() == Settled(e, allowed, exclude)
    ensures Views(leObjs') == KeptOf(es + [e], allowed, exclude) && notAdded' == NotAddedOf(es + [e], allowed, exclude)
    ensures leObjs' == leObjs || leObjs' == leObjs + [leObj]
  {
    SettleStep(es, e, allowed, exclude);
    if leObj.add {
      ViewsStep(leObjs, leObj);
      leObjs', notAdded' := leObjs + [leObj], notAdded;
    } else {
      leObjs', notAdded' := leObjs, notAdded + {leObj.senseId};
    }
  }

  /**
   * Lines 34-59 of the script: the objects kept in order and the ids not
   * added, or the exception the first failing constructor raises.
   */
  method LoadResource(raws: seq<OdwnClasses.CdbLu>, namespace: string, shortNamespace: string,
                      allowedPrefixesArg: string, excludeSubNumberArg: string)
    returns (leObjs: seq<OdwnClasses.LE>, notAdded: set<string>, error: Option<Fault>)
    ensures var all := ConstructAll(raws, namespace, shortNamespace);
      error == (if all.Err? then Some(all.error) else None)
    ensures error.None? ==>
      var es := ConstructAll(raws, namespace, shortNamespace).value;
      var allowed, exclude := AllowedPrefixes(allowedPrefixesArg), ExcludeSubNumber(excludeSubNumberArg);
      Views(leObjs) == KeptOf(es, allowed, exclude) && notAdded == NotAddedOf(es, allowed, exclude)
  {
    var allowedPrefixes := AllowedPrefixes(allowedPrefixesArg);
    var excludeSubNumberIds := excludeSubNumberArg == "True";
    notAdded := {};
    leObjs := [];
    error := None;
    ghost var es: seq<OdwnClasses.Entry> := [];
    for i := 0 to |raws|
      invariant ConstructAll(raws[..i], namespace, shortNamespace) == Ok(es)
      invariant Views(leObjs) == KeptOf(es, allowedPrefixes, excludeSubNumberIds)
      invariant notAdded == NotAddedOf(es, allowedPrefixes, excludeSubNumberIds)
    {
      ghost var c := OdwnClasses.Construct(raws[i], namespace, shortNamespace);
      var r := LoadOne(raws[i], namespace, shortNamespace, allowedPrefixes, excludeSubNumberIds);
      ConstructAllStep(raws, i, namespace, shortNamespace, es, c);
      if r.Err? {
        ConstructAllPrefixFails(raws, i + 1, namespace, shortNamespace);
        return leObjs, notAdded, Some(r.error);
      }
      leObjs, notAdded := Record(leObjs, notAdded, r.value, es, c.value, allowedPrefixes, excludeSubNumberIds);
      es := es + [c.value];
    }
    assert raws[..|raws|] == raws;
  }
}
