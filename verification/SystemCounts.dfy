/** The advisory counts cached on a system after an evaluation (evaluator/evaluate.go). */
module SystemCounts {
  import opened Sets
  import opened Wrappers
  import opened Vmaas

  const ENHANCEMENT := 1
  const BUGFIX := 2
  const SECURITY := 3

  /** A stored advisory of the system: the type of its metadata and its status. */
  datatype Stored = Stored(typeId: int, status: Status)

  /** Advisories of all types, and of the three types that are counted on their own. */
  datatype ByType = ByType(all: int, enh: int, bug: int, sec: int)

  predicate Matches(a: Stored, installableOnly: bool, typeId: Option<int>)
  {
    (installableOnly ==> a.status == Installable) && (typeId.Some? ==> a.typeId == typeId.value)
  }

  function OfType(advisories: map<string, Stored>, installableOnly: bool, typeId: Option<int>): set<string>
  {
    set n | n in advisories && Matches(advisories[n], installableOnly, typeId)
  }

  /** The numbers the tables would give when counted by type. */
  function Counted(advisories: map<string, Stored>, installableOnly: bool): ByType
  {
    ByType(|OfType(advisories, installableOnly, None)|,
           |OfType(advisories, installableOnly, Some(ENHANCEMENT))|,
           |OfType(advisories, installableOnly, Some(BUGFIX))|,
           |OfType(advisories, installableOnly, Some(SECURITY))|)
  }

  /** incrementAdvisoryTypeCounts, and the total beside it. */
  function Incremented(c: ByType, typeId: int): ByType
  {
    if typeId == ENHANCEMENT then ByType(c.all + 1, c.enh + 1, c.bug, c.sec)
    else if typeId == BUGFIX then ByType(c.all + 1, c.enh, c.bug + 1, c.sec)
    else if typeId == SECURITY then ByType(c.all + 1, c.enh, c.bug, c.sec + 1)
    else ByType(c.all + 1, c.enh, c.bug, c.sec)
  }

  lemma OneMore(advisories: map<string, Stored>, n: string, a: Stored, installableOnly: bool, typeId: Option<int>)
    requires n !in advisories
    ensures |OfType(advisories[n := a], installableOnly, typeId)|
            == |OfType(advisories, installableOnly, typeId)|
               + if Matches(a, installableOnly, typeId) then 1 else 0
  {
    hide Matches;
    assert OfType(advisories[n := a], installableOnly, typeId)
        == OfType(advisories, installableOnly, typeId) + if Matches(a, installableOnly, typeId) then {n} else {};
  }

  lemma CountMore(advisories: map<string, Stored>, n: string, a: Stored, installableOnly: bool)
    requires n !in advisories
    ensures Counted(advisories[n := a], installableOnly)
            == if installableOnly && a.status != Installable then Counted(advisories, installableOnly)
               else Incremented(Counted(advisories, installableOnly), a.typeId)
  {
    hide OfType;
    OneMore(advisories, n, a, installableOnly, None);
    OneMore(advisories, n, a, installableOnly, Some(ENHANCEMENT));
    OneMore(advisories, n, a, installableOnly, Some(BUGFIX));
    OneMore(advisories, n, a, installableOnly, Some(SECURITY));
  }

  /** The counting loop of updateSystemPlatform, over the stored advisories in any order. */
  method CountAdvisories(advisories: map<string, Stored>) returns (installable: ByType, applicable: ByType)
    ensures installable == Counted(advisories, true) && applicable == Counted(advisories, false)
    ensures installable.all == |set n | n in advisories && advisories[n].status == Installable|
    ensures installable.enh
            == |set n | n in advisories && advisories[n].status == Installable && advisories[n].typeId == 1|
    ensures installable.bug
            == |set n | n in advisories && advisories[n].status == Installable && advisories[n].typeId == 2|
    ensures installable.sec
            == |set n | n in advisories && advisories[n].status == Installable && advisories[n].typeId == 3|
    ensures applicable.all == |advisories|
    ensures applicable.enh == |set n | n in advisories && advisories[n].typeId == 1|
    ensures applicable.bug == |set n | n in advisories && advisories[n].typeId == 2|
    ensures applicable.sec == |set n | n in advisories && advisories[n].typeId == 3|
  {
    hide Counted, Incremented;
    CountedIs(advisories);
    installable, applicable := ByType(0, 0, 0, 0), ByType(0, 0, 0, 0);
    NothingCounted();
    var rest := advisories.Keys;
    ghost var seen: map<string, Stored> := map[];
    while rest != {}
      invariant rest <= advisories.Keys && seen.Keys == advisories.Keys - rest
      invariant forall n :: n in seen ==> seen[n] == advisories[n]
      invariant installable == Counted(seen, true) && applicable == Counted(seen, false)
    {
      var n :| n in rest;
      var sa := advisories[n];
      CountMore(seen, n, sa, true);
      CountMore(seen, n, sa, false);
      if sa.status == Installable {
        installable := Incremented(installable, sa.typeId);
      }
      applicable := Incremented(applicable, sa.typeId);
      seen := seen[n := sa];
      rest := rest - {n};
    }
    assert seen == advisories;
  }

  lemma CountedIs(advisories: map<string, Stored>)
    ensures var i := Counted(advisories, true);
            && i.all == |set n | n in advisories && advisories[n].status == Installable|
            && i.enh == |set n | n in advisories && advisories[n].status == Installable && advisories[n].typeId == 1|
            && i.bug == |set n | n in advisories && advisories[n].status == Installable && advisories[n].typeId == 2|
            && i.sec == |set n | n in advisories && advisories[n].status == Installable && advisories[n].typeId == 3|
    ensures var a := Counted(advisories, false);
            && a.all == |advisories|
            && a.enh == |set n | n in advisories && advisories[n].typeId == 1|
            && a.bug == |set n | n in advisories && advisories[n].typeId == 2|
            && a.sec == |set n | n in advisories && advisories[n].typeId == 3|
  {
    assert OfType(advisories, true, None) == set n | n in advisories && advisories[n].status == Installable;
    assert OfType(advisories, false, None) == advisories.Keys;
    forall t: int
      ensures OfType(advisories, true, Some(t))
           == set n | n in advisories && advisories[n].status == Installable && advisories[n].typeId == t
      ensures OfType(advisories, false, Some(t)) == set n | n in advisories && advisories[n].typeId == t {
    }
  }

  lemma NothingCounted()
    ensures Counted(map[], true) == ByType(0, 0, 0, 0) && Counted(map[], false) == ByType(0, 0, 0, 0)
  {
    assert forall t, i :: OfType(map[], i, t) == {};
  }

  /**
   Per type and in total, no more advisories are installable than applicable; the types add up to at most
   the total, and exactly to it when no advisory has another type.
   */
  lemma CountsAreConsistent(advisories: map<string, Stored>)
    ensures var i, a := Counted(advisories, true), Counted(advisories, false);
            && i.all <= a.all == |advisories| && i.enh <= a.enh && i.bug <= a.bug && i.sec <= a.sec
            && a.enh + a.bug + a.sec <= a.all
            && (a.enh + a.bug + a.sec == a.all <==> forall n :: n in advisories ==>
                advisories[n].typeId in {ENHANCEMENT, BUGFIX, SECURITY})
  {
    assert OfType(advisories, false, None) == advisories.Keys;
    forall t: Option<int> ensures |OfType(advisories, true, t)| <= |OfType(advisories, false, t)| {
      SubsetSize(OfType(advisories, true, t), OfType(advisories, false, t));
    }
    var e, b, s := OfType(advisories, false, Some(ENHANCEMENT)), OfType(advisories, false, Some(BUGFIX)),
        OfType(advisories, false, Some(SECURITY));
    assert e !! b && (e + b) !! s;
    SubsetSize(e + b + s, advisories.Keys);
    assert e + b + s == advisories.Keys
      <==> forall n :: n in advisories ==> advisories[n].typeId in {ENHANCEMENT, BUGFIX, SECURITY};
  }
}
