/** Which updates of a package count as its latest ones (evaluator/evaluate_packages.go:311-340). */
module LatestUpdates {
  import opened Wrappers
  import opened Orders
  import opened Rpm
  import opened Vmaas
  import opened OrderedMerge
  import opened MergeUpdates
  import C = PackageCache

  predicate Offers(u: Update, status: Status) { u.status == status && GetPackage(u) != "" }

  /** The package named last with the given status, "" when there is none. */
  function LastOf(updates: seq<Update>, status: Status): string
  {
    if updates == [] then ""
    else
      var u := updates[|updates| - 1];
      if Offers(u, status) then GetPackage(u) else LastOf(updates[..|updates| - 1], status)
  }

  lemma {:induction false} LastOffers(updates: seq<Update>, status: Status) returns (i: int)
    requires LastOf(updates, status) != ""
    ensures 0 <= i < |updates| && updates[i].status == status && GetPackage(updates[i]) == LastOf(updates, status)
    ensures forall j :: i < j < |updates| ==> !(updates[j].status == status && GetPackage(updates[j]) != "")
  {
    i := |updates| - 1;
    if !Offers(updates[i], status) {
      i := LastOffers(updates[..i], status);
    }
  }

  lemma {:induction false} NoneOffers(updates: seq<Update>, status: Status)
    ensures LastOf(updates, status) == "" <==>
            forall u :: u in updates ==> !(u.status == status && GetPackage(u) != "")
  {
    if updates != [] {
      var n := |updates| - 1;
      NoneOffers(updates[..n], status);
      assert updates == updates[..n] + [updates[n]];
    }
  }

  /**
   In a list sorted as the merge delivers it, the last package offered with a status is a greatest
   one: no readable package offered with that status is above it.
   */
  lemma LastIsGreatest(lc: LabelOrder, updates: seq<Update>, status: Status, u: Update)
    requires StrictlySorted(ListOrder(lc), updates)
    requires u in updates && u.status == status && GetPackage(u) != ""
    ensures LastOf(updates, status) != ""
    ensures Parses(u) ==>
              && Parse(LastOf(updates, status)).Some?
              && Cmp(lc, Parse(GetPackage(u)).value, Parse(LastOf(updates, status)).value) <= 0
  {
    hide Parse, Cmp, GetPackage;
    NoneOffers(updates, status);
    var i := LastOffers(updates, status);
    var j :| 0 <= j < |updates| && updates[j] == u;
    if j == i {
      CmpIsPreorder(lc);
      if Parses(u) { Flip(CmpOrder(lc), Parse(GetPackage(u)).value, Parse(GetPackage(u)).value); }
    } else {
      assert j < i;
      assert ListOrder(lc)(updates[j], updates[i]) < 0;
    }
  }

  /**
   The same for what mergeUpdates makes of two sorted readable lists: the chosen package is NEVRA-maximal
   among the updates of the first list and those of the second whose key the first lacks.
   */
  lemma LastOfMergeIsGreatest(lc: LabelOrder, a: seq<Update>, b: seq<Update>, status: Status, u: Update)
    requires AllParse(a) && AllParse(b) && StrictlySorted(ListOrder(lc), a) && StrictlySorted(ListOrder(lc), b)
    requires u in a || (u in b && forall v :: v in a ==> Vmaas.Key(u) != Vmaas.Key(v))
    requires u.status == status && GetPackage(u) != ""
    ensures MergeOutcome(lc, a, b).Merged?
    ensures var chosen := LastOf(MergeOutcome(lc, a, b).list, status);
            chosen != "" && Parse(chosen).Some? && Cmp(lc, Parse(GetPackage(u)).value, Parse(chosen).value) <= 0
  {
    hide Parse, Cmp, GetPackage, ListOrder, MergeOutcome, LastOf;
    MergeKeepsFirstList(lc, a, b);
    LastIsGreatest(lc, MergeOutcome(lc, a, b).list, status, u);
  }

  /** The ID of the package a status points to, if it is known. */
  ghost function LatestId(db: C.Table, updates: seq<Update>, status: Status): Option<int>
  {
    var text := LastOf(updates, status);
    if text == "" || C.RowByNevra(db, text).None? then None else Some(C.RowByNevra(db, text).value.id)
  }

  /** The i-th update is the last one that names a package and passes the test. */
  ghost predicate LastWith(updates: seq<Update>, i: int, test: Update -> bool)
  {
    && 0 <= i < |updates| && test(updates[i]) && GetPackage(updates[i]) != ""
    && forall j :: i < j < |updates| ==> !(test(updates[j]) && GetPackage(updates[j]) != "")
  }

  /** The update names the package with this ID. */
  ghost predicate Names(db: C.Table, u: Update, id: int)
  {
    C.RowByNevra(db, GetPackage(u)).Some? && C.RowByNevra(db, GetPackage(u)).value.id == id
  }

  /** The installable ID is that of the last INSTALLABLE update, the applicable ID that of the last APPLICABLE one. */
  lemma LatestIdIs(db: C.Table, updates: seq<Update>, id: int)
    ensures LatestId(db, updates, Installable) == Some(id) <==>
            exists i :: LastWith(updates, i, (u: Update) => u.status == Installable) && Names(db, updates[i], id)
    ensures LatestId(db, updates, Applicable) == Some(id) <==>
            exists i :: LastWith(updates, i, (u: Update) => u.status == Applicable) && Names(db, updates[i], id)
  {
    hide C.RowByNevra, GetPackage;
    LatestOf(db, updates, Installable, (u: Update) => u.status == Installable, id);
    LatestOf(db, updates, Applicable, (u: Update) => u.status == Applicable, id);
  }

  lemma LatestOf(db: C.Table, updates: seq<Update>, status: Status, test: Update -> bool, id: int)
    requires forall u :: test(u) <==> u.status == status
    ensures LatestId(db, updates, status) == Some(id) <==>
            exists i :: LastWith(updates, i, test) && Names(db, updates[i], id)
  {
    hide C.RowByNevra, GetPackage, LastOf;
    if LastOf(updates, status) == "" {
      NoneOffers(updates, status);
    } else {
      var i := LastOffers(updates, status);
      assert LastWith(updates, i, test);
      forall j | LastWith(updates, j, test) ensures j == i { }
    }
  }

  method LatestPackagesFromUpdatesList(cache: C.Cache, db: C.Table, updates: seq<Update>)
    returns (installableId: Option<int>, applicableId: Option<int>)
    requires C.TableOk(db) && cache.Valid(db)
    modifies cache
    ensures cache.Valid(db)
    ensures installableId == LatestId(db, updates, Installable) && applicableId == LatestId(db, updates, Applicable)
    ensures forall id :: installableId == Some(id) <==>
              exists i :: LastWith(updates, i, (u: Update) => u.status == Installable) && Names(db, updates[i], id)
    ensures forall id :: applicableId == Some(id) <==>
              exists i :: LastWith(updates, i, (u: Update) => u.status == Applicable) && Names(db, updates[i], id)
  {
    hide C.TableOk, C.Cache.Valid, C.RowByNevra;
    var latestInstallable, latestApplicable := "", "";
    for i := 0 to |updates|
      invariant latestInstallable == LastOf(updates[..i], Installable)
      invariant latestApplicable == LastOf(updates[..i], Applicable)
    {
      assert updates[..i + 1][..i] == updates[..i];
      var nevra := GetPackage(updates[i]);
      if |nevra| == 0 {
        continue;
      }
      match updates[i].status {
        case Installable => latestInstallable := nevra;
        case Applicable => latestApplicable := nevra;
      }
    }
    assert updates[..|updates|] == updates;
    installableId, applicableId := None, None;
    if |latestInstallable| > 0 {
      var p := cache.GetByNevra(db, latestInstallable);
      if p.Some? { installableId := Some(p.value.id); }
    }
    if |latestApplicable| > 0 {
      var p := cache.GetByNevra(db, latestApplicable);
      if p.Some? { applicableId := Some(p.value.id); }
    }
    forall id {
      LatestIdIs(db, updates, id);
    }
  }
}
