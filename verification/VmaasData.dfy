/**
 Update reports as the evaluator holds them: responses pointing at update lists that are rewritten in
 place (base/vmaas/vmaas.go, base/utils/vmaas.go, evaluator/remediations.go, evaluator/template_advisory.go).
 Each method is proved against the value-level meaning in module Reports.
 */
module VmaasData {
  import opened Wrappers
  import opened OrderedMerge
  import opened LatestFilter
  import opened Rpm
  import opened Vmaas
  import opened MergeUpdates
  import opened Reports

  class UpdateList {
    var updates: seq<Update>
    /** The package key the list stands under, which keeps the lists of one response apart. */
    ghost const key: string

    constructor (ghost key: string, updates: seq<Update>)
      ensures this.key == key && this.updates == updates
    {
      this.key := key;
      this.updates := updates;
    }

    method SetUpdatesInstallability(status: Status)
      modifies this
      ensures updates == WithStatus(old(updates), status)
    {
      for index := 0 to |updates|
        invariant |updates| == |old(updates)|
        invariant forall i :: 0 <= i < index ==> updates[i] == old(updates)[i].(status := status)
        invariant forall i :: index <= i < |updates| ==> updates[i] == old(updates)[i]
      {
        updates := updates[index := updates[index].(status := status)];
      }
    }

    method ApplyTemplate(errata: set<string>)
      modifies this
      ensures updates == TemplateUpdates(old(updates), errata) && |updates| == |old(updates)|
      ensures forall i :: 0 <= i < |updates| ==>
                var u := old(updates)[i];
                updates[i] == if u.erratum == "" then u
                              else u.(status := if u.erratum in errata then Installable else Applicable)
    {
      for i := 0 to |updates|
        invariant |updates| == |old(updates)|
        invariant forall j :: 0 <= j < i ==> updates[j] == TemplateUpdate(old(updates)[j], errata)
        invariant forall j :: i <= j < |updates| ==> updates[j] == old(updates)[j]
      {
        var u := updates[i];
        if u.erratum != "" {
          updates := updates[i := u.(status := if u.erratum in errata then Installable else Applicable)];
        }
      }
    }
  }

  class Response {
    /** Whether the response has an update list at all. */
    var listed: bool
    var lists: map<string, UpdateList>

    /** Each list stands under its own key, so no two package keys share one. */
    ghost predicate Valid()
      reads this
    {
      && (!listed ==> lists == map[])
      && forall k :: k in lists ==> lists[k].key == k
    }

    /** Every object a holder of this response can reach. */
    ghost function Graph(): set<object>
      reads this
    {
      {this} + set l: UpdateList | l in lists.Values
    }

    function Contents(): Content
      reads this, lists.Values
    {
      map k | k in lists :: lists[k].updates
    }

    /** What the response says, as a value. */
    function View(): Option<Content>
      reads this, lists.Values
    {
      if listed then Some(Contents()) else None
    }

    constructor (view: Option<Content>)
      ensures Valid() && View() == view && fresh(Graph())
    {
      listed := view.Some?;
      lists := map[];
      new;
      if view.Some? {
        var rest := view.value.Keys;
        while rest != {}
          invariant rest <= view.value.Keys && lists.Keys == view.value.Keys - rest
          invariant listed && Valid() && fresh(Graph())
          invariant forall k :: k in lists ==> lists[k].updates == view.value[k]
        {
          var k :| k in rest;
          var list := new UpdateList(k, view.value[k]);
          lists := lists[k := list];
          rest := rest - {k};
        }
        assert Contents() == view.value;
      }
    }

    /** The installability loops of getUpdatesData. */
    method SetInstallability(status: Status)
      requires Valid()
      modifies lists.Values
      ensures Contents() == AllWithStatus(old(Contents()), status)
    {
      var rest := lists.Keys;
      while rest != {}
        invariant rest <= lists.Keys
        invariant forall k :: k in rest ==> lists[k].updates == old(lists[k].updates)
        invariant forall k :: k in lists && k !in rest ==> lists[k].updates == WithStatus(old(lists[k].updates), status)
      {
        var k :| k in rest;
        lists[k].SetUpdatesInstallability(status);
        rest := rest - {k};
      }
    }

    method ApplyTemplateAdvisoryInstallability(errata: set<string>)
      requires Valid()
      modifies lists.Values
      ensures Contents() == WithTemplate(old(Contents()), errata)
    {
      var rest := lists.Keys;
      while rest != {}
        invariant rest <= lists.Keys
        invariant forall k :: k in rest ==> lists[k].updates == old(lists[k].updates)
        invariant forall k :: k in lists && k !in rest ==>
                    lists[k].updates == TemplateUpdates(old(lists[k].updates), errata)
      {
        var k :| k in rest;
        lists[k].ApplyTemplate(errata);
        rest := rest - {k};
      }
    }

    /** The fold to advisories: independent of the order in which keys are visited. */
    method GetReportedAdvisories() returns (advisories: map<string, Status>)
      ensures advisories == Reported(Contents())
    {
      advisories := map[];
      ghost var seen: set<Update> := {};
      var rest := lists.Keys;
      while rest != {}
        invariant rest <= lists.Keys
        invariant forall u :: u in seen <==> exists k :: k in lists && k !in rest && u in lists[k].updates
        invariant advisories == AdvisoriesOf(seen)
      {
        var k :| k in rest;
        var available := lists[k].updates;
        ghost var before := seen;
        for i := 0 to |available|
          invariant seen == before + set u | u in available[..i]
          invariant advisories == AdvisoriesOf(seen)
        {
          var u := available[i];
          FoldUpdate(seen, u);
          if u.erratum != "" {
            if !(u.erratum in advisories && advisories[u.erratum] == Installable) {
              advisories := advisories[u.erratum := u.status];
            }
          }
          seen := seen + {u};
          assert available[..i + 1] == available[..i] + [u];
        }
        assert available[..|available|] == available;
        rest := rest - {k};
      }
      SameUpdates(seen);
    }

    lemma SameUpdates(seen: set<Update>)
      requires forall u :: u in seen <==> exists k :: k in lists && u in lists[k].updates
      ensures seen == AllUpdates(Contents())
    {
      var c := Contents();
      forall u ensures u in seen <==> u in AllUpdates(c) {
        if u in seen {
          var k :| k in lists && u in lists[k].updates;
          assert k in c && u in c[k];
        }
      }
    }

    /** Keeps only the latest package of each name, in whatever order the keys come. */
    method RemoveNonLatestPackages(lc: LabelOrder)
      requires Valid()
      modifies this
      ensures Valid() && listed == old(listed)
      ensures Filtered(lc, old(Contents()), Contents())
      ensures lists.Keys <= old(lists.Keys) && forall k :: k in lists ==> lists[k] == old(lists)[k]
    {
      hide Parse, Show, Cmp;
      var toDel: set<string> := {};
      var nameMap: map<string, Best<string, Nevra>> := map[];
      ghost var order: seq<string> := [];
      var rest := lists.Keys;
      while rest != {}
        invariant Distinct(order) && Elements(order) == lists.Keys - rest && rest <= lists.Keys
        invariant ScanAll(PackageReader(lc), order) == Scan(nameMap, toDel)
      {
        var k :| k in rest;
        assert forall i :: 0 <= i < |order| ==> order[i] in Elements(order);
        assert (order + [k])[..|order|] == order && Elements(order + [k]) == Elements(order) + {k};
        match Parse(k) {
          case None =>
            toDel := toDel + {k};
          case Some(nevra) =>
            if nevra.name in nameMap {
              var cmp := Cmp(lc, nameMap[nevra.name].id, nevra);
              if cmp == -1 {
                toDel := toDel + {nameMap[nevra.name].key};
                nameMap := nameMap[nevra.name := Best(k, nevra)];
              } else if cmp == 1 {
                toDel := toDel + {k};
              }
            } else {
              nameMap := nameMap[nevra.name := Best(k, nevra)];
            }
        }
        order := order + [k];
        rest := rest - {k};
      }
      lists := lists - toDel;
      ghost var before := old(Contents());
      assert IsOrderOf(order, before.Keys);
      assert Contents() == map k | k in before && k in Survivors(PackageReader(lc), order) :: before[k];
    }

    /** The lists that stand under each key while those in rest are still to be merged. */
    twostate predicate HalfMerged(lc: LabelOrder, other: Response, rest: set<string>)
      reads this, lists.Values
    {
      && lists.Keys == old(lists).Keys + (old(other.lists).Keys - rest)
      && forall k :: k in lists ==> StandsAt(lc, other, rest, k)
    }

    twostate predicate StandsAt(lc: LabelOrder, other: Response, rest: set<string>, k: string)
      requires k in lists && (k in old(lists) || k in old(other.lists))
      reads this, lists.Values
    {
      if k !in old(lists) then lists[k] == old(other.lists)[k]
      else if k !in old(other.lists) || k in rest then lists[k] == old(lists)[k]
      else
        && fresh(lists[k]) && lists[k].key == k
        && MergeOutcome(lc, old(lists[k].updates), old(other.lists[k].updates)) == Merged(lists[k].updates)
    }

    /**
     The merging loop of MergeVMaaSResponses: a key both have gets a new, merged list, a key only the
     other has gets the other's list object. ended is false when some shared key loops forever.
     */
    method MergeLists(lc: LabelOrder, other: Response) returns (ended: bool)
      requires other != this
      modifies `lists
      ensures ended ==> HalfMerged(lc, other, {})
      ensures !ended ==>
                (exists k :: k in old(lists) && k in other.lists
                   && MergeOutcome(lc, old(lists[k].updates), other.lists[k].updates).Stuck?)
    {
      hide MergeOutcome;
      var rest := other.lists.Keys;
      while rest != {}
        invariant rest <= other.lists.Keys && HalfMerged(lc, other, rest)
      {
        var nevraB :| nevraB in rest;
        ended := MergeKey(lc, nevraB, other.lists[nevraB]);
        if !ended {
          return;
        }
        rest := rest - {nevraB};
      }
      ended := true;
    }

    method Absorb(lc: LabelOrder, other: Response) returns (ended: bool)
      requires Valid() && other.Valid() && listed && Graph() !! other.Graph()
      modifies `lists
      ensures ended <==> !MergeHangs(lc, old(Contents()), old(other.Contents()))
      ensures ended ==>
                && Valid() && listed
                && Contents() == MergeContents(lc, old(Contents()), old(other.Contents()))
                && fresh(Graph() - old(Graph()) - old(other.Graph()))
    {
      ghost var a, b := Contents(), other.Contents();
      assert this in Graph() && other in other.Graph();
      ended := MergeLists(lc, other);
      hide MergeOutcome, MergeHangs, MergeContents;
      if ended {
        MergedAll(lc, a, b, Contents());
      } else {
        ghost var k :| k in old(lists) && k in other.lists
          && MergeOutcome(lc, old(lists[k].updates), other.lists[k].updates).Stuck?;
        HangsAt(lc, a, b, k);
      }
    }

    /** One turn of that loop. */
    method MergeKey(lc: LabelOrder, nevraB: string, updateListB: UpdateList) returns (ended: bool)
      modifies `lists
      ensures ended <==> !(nevraB in old(lists)
                           && MergeOutcome(lc, old(lists[nevraB].updates), updateListB.updates).Stuck?)
      ensures ended ==> nevraB in lists && lists == old(lists)[nevraB := lists[nevraB]]
      ensures ended && nevraB in old(lists) ==>
                && fresh(lists[nevraB]) && lists[nevraB].key == nevraB
                && MergeOutcome(lc, old(lists[nevraB].updates), updateListB.updates) == Merged(lists[nevraB].updates)
      ensures ended && nevraB !in old(lists) ==> lists[nevraB] == updateListB
    {
      hide MergeOutcome;
      if nevraB in lists {
        var merged := Run(lc, lists[nevraB].updates, updateListB.updates);
        if merged.Stuck? {
          return false;
        }
        var list := new UpdateList(nevraB, merged.list);
        lists := lists[nevraB := list];
      } else {
        lists := lists[nevraB := updateListB];
      }
      ended := true;
    }
  }

  lemma HangsAt(lc: LabelOrder, a: Content, b: Content, k: string)
    requires k in a && k in b && MergeOutcome(lc, a[k], b[k]).Stuck?
    ensures MergeHangs(lc, a, b)
  {
  }

  lemma MergedAll(lc: LabelOrder, a: Content, b: Content, c: Content)
    requires c.Keys == a.Keys + b.Keys
    requires forall k :: k in a && k in b ==> MergeOutcome(lc, a[k], b[k]) == Merged(c[k])
    requires forall k :: k in a && k !in b ==> c[k] == a[k]
    requires forall k :: k in b && k !in a ==> c[k] == b[k]
    ensures !MergeHangs(lc, a, b) && c == MergeContents(lc, a, b)
  {
    hide MergeOutcome;
  }

  ghost function ReportOf(r: Response?): Option<Content>
    reads r, if r != null then r.lists.Values else {}
  {
    if r == null then None else Some(r.Contents())
  }

  /** A first report without an update list counts as absent. */
  ghost function FirstReportOf(r: Response?): Option<Content>
    reads r, if r != null then r.lists.Values else {}
  {
    if r == null || !r.listed then None else Some(r.Contents())
  }

  ghost predicate ValidOrNull(r: Response?)
    reads r
  {
    r != null ==> r.Valid()
  }

  ghost function GraphOf(r: Response?): set<object>
    reads r
  {
    if r == null then {} else r.Graph()
  }

  ghost predicate MergeNeverEnds(lc: LabelOrder, a: Option<Content>, b: Option<Content>)
  {
    a.Some? && b.Some? && MergeHangs(lc, a.value, b.value)
  }

  /** MergeVMaaSResponses: merges the second response into the first, in place. */
  method MergeVMaaSResponses(lc: LabelOrder, dataA: Response?, dataB: Response?)
    returns (merged: Response?, ended: bool)
    requires ValidOrNull(dataA) && ValidOrNull(dataB) && GraphOf(dataA) !! GraphOf(dataB)
    modifies dataA
    ensures ended <==> !MergeNeverEnds(lc, old(FirstReportOf(dataA)), old(ReportOf(dataB)))
    ensures dataB == null ==> merged == dataA && ReportOf(merged) == old(ReportOf(dataA))
    ensures ended && (dataB != null || old(FirstReportOf(dataA)).Some?) ==>
              Combined(lc, old(FirstReportOf(dataA)), old(ReportOf(dataB)), ReportOf(merged))
    ensures ended ==>
              && ValidOrNull(merged)
              && fresh(GraphOf(merged) - old(GraphOf(dataA)) - old(GraphOf(dataB)))
  {
    if dataA == null {
      return dataB, true;
    }
    if dataB == null {
      return dataA, true;
    }
    if !dataA.listed {
      return dataB, true;
    }
    ended := dataA.Absorb(lc, dataB);
    if ended {
      dataA.RemoveNonLatestPackages(lc);
    }
    merged := dataA;
  }
}
