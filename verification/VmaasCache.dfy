/**
 The cache of VMaaS answers and the gathering of a system's updates
 (evaluator/vmaas_cache.go, evaluator/evaluate.go, evaluator/template_advisory.go).

 Callers rewrite what they are handed in place, so the cache must share no object with any caller.
 */
module VmaasCache {
  import opened Wrappers
  import opened Rpm
  import opened Vmaas
  import opened Reports
  import opened VmaasData

  /** The response and all it reaches lie in repr, and it says what view says. */
  ghost predicate Holds(repr: set<object>, r: Response, view: Option<Content>)
    reads repr
  {
    && r in repr && (forall k :: k in r.lists ==> r.lists[k] in repr)
    && r.Valid() && r.View() == view
  }

  ghost predicate AllHold(repr: set<object>, data: map<string, Response>, inserted: map<string, Option<Content>>)
    requires inserted.Keys == data.Keys
    reads repr
  {
    forall k :: k in data ==> Holds(repr, data[k], inserted[k])
  }

  lemma HoldWithAdded(repr: set<object>, data: map<string, Response>, inserted: map<string, Option<Content>>,
                      key: string, response: Response)
    requires inserted.Keys == data.Keys && AllHold(repr, data, inserted) && response.Valid()
    ensures AllHold(repr + response.Graph(), data[key := response], inserted[key := response.View()])
  {
    var more := repr + response.Graph();
    forall k | k in data ensures Holds(more, data[k], inserted[k]) {
      assert Holds(repr, data[k], inserted[k]);
      hide Response.View, Response.Graph;
    }
    assert Holds(more, response, response.View());
  }

  lemma CacheIsOutside(c: Cache, r: Response)
    ensures c !in r.Graph()
  {
  }

  class Cache {
    const enabled: bool
    const size: nat
    var data: map<string, Response>
    /** What each resident answer said when it was added. */
    ghost var inserted: map<string, Option<Content>>

    /** Every response and update list the cache reaches. */
    ghost var Repr: set<object>

    /** Every resident response still says what it said when it was added. */
    ghost predicate Valid()
      reads this, Repr
    {
      this !in Repr && inserted.Keys == data.Keys && AllHold(Repr, data, inserted)
    }

    ghost predicate Resident(checksum: Option<string>)
      reads this
    {
      enabled && checksum.Some? && checksum.value in inserted
    }

    constructor (enabled: bool, size: nat)
      ensures Valid() && fresh(Repr) && data == map[] && this.enabled == enabled
    {
      this.enabled, this.size := enabled, size;
      data, inserted := map[], map[];
      Repr := {};
    }

    /** A hit, exactly for a resident checksum, is a sound object of the cache that still says what was added. */
    method Get(checksum: Option<string>) returns (val: Response?)
      requires Valid()
      ensures val != null <==> enabled && checksum.Some? && checksum.value in inserted
      ensures val != null ==> val.Valid() && val.View() == inserted[checksum.value] && val.Graph() <= Repr
    {
      if checksum.Some? && checksum.value in data {
        assert Holds(Repr, data[checksum.value], inserted[checksum.value]);
      }
      if enabled && checksum.Some? && checksum.value in data {
        return data[checksum.value];
      }
      return null;
    }

    /** The added entry is resident afterwards; adding may evict any other. */
    method Add(checksum: Option<string>, response: Response)
      requires Valid() && response.Valid()
      modifies this
      ensures Valid() && Repr <= old(Repr) + response.Graph()
      ensures enabled && checksum.Some? ==> checksum.value in inserted
      ensures !(enabled && checksum.Some?) ==> inserted == old(inserted)
      ensures forall k :: k in inserted ==>
                if enabled && checksum == Some(k) then inserted[k] == response.View()
                else k in old(inserted) && inserted[k] == old(inserted)[k]
    {
      hide AllHold;
      if enabled && checksum.Some? {
        Store(checksum.value, response);
        Shrink(checksum.value);
      }
    }

    method Store(key: string, response: Response)
      requires Valid() && response.Valid()
      modifies this
      ensures Valid() && Repr == old(Repr) + response.Graph()
      ensures inserted == old(inserted)[key := response.View()]
    {
      hide AllHold, Holds, Response.View, Response.Graph, Response.Valid;
      HoldWithAdded(Repr, data, inserted, key, response);
      CacheIsOutside(this, response);
      Repr := Repr + response.Graph();
      data := data[key := response];
      inserted := inserted[key := response.View()];
    }

    /** When full, the underlying cache drops some entry other than the one just added. */
    method Shrink(added: string)
      requires Valid() && added in data
      modifies `data, `inserted
      ensures Valid() && added in inserted && forall k :: k in inserted ==>
              k in old(inserted) && inserted[k] == old(inserted)[k]
    {
      hide Holds;
      if |data| > size {
        if victim :| victim in data && victim != added {
          data := data - {victim};
          inserted := inserted - {victim};
        }
      }
    }

    method Reset()
      requires Valid()
      modifies this
      ensures Valid() && Repr == old(Repr)
      ensures if enabled then inserted == map[] else inserted == old(inserted)
    {
      if enabled {
        data, inserted := map[], map[];
      }
    }
  }

  /** copier's deep copy. */
  method DeepCopy(r: Response) returns (copy: Response)
    requires r.Valid()
    ensures copy.Valid() && copy.View() == r.View() && fresh(copy.Graph())
  {
    copy := new Response(None);
    if r.listed {
      copy.listed := true;
      var rest := r.lists.Keys;
      while rest != {}
        invariant rest <= r.lists.Keys && copy.lists.Keys == r.lists.Keys - rest
        invariant copy.listed && copy.Valid() && fresh(copy.Graph())
        invariant forall k :: k in copy.lists ==> copy.lists[k].updates == r.lists[k].updates
      {
        var k :| k in rest;
        var list := new UpdateList(k, r.lists[k].updates);
        copy.lists := copy.lists[k := list];
        rest := rest - {k};
      }
    }
    assert r.listed ==> copy.Contents() == r.Contents();
  }

  datatype VmaasError = NoError | BadRequestError | CallError

  ghost function Delivered(enabled: bool, inserted: map<string, Option<Content>>, checksum: Option<string>,
                           fetch: Fetch): Fetch
  {
    if enabled && checksum.Some? && checksum.value in inserted then Answer(inserted[checksum.value]) else fetch
  }

  /**
   getVmaasUpdates; fetch is how the request to VMaaS would end if it were made. A hit hands out a copy
   of the resident answer, a miss hands out the answer and keeps a copy of it.
   */
  method GetVmaasUpdates(cache: Cache, checksum: Option<string>, fetch: Fetch)
    returns (data: Response?, err: VmaasError)
    requires cache.Valid()
    modifies cache
    ensures cache.Valid() && fresh(cache.Repr - old(cache.Repr))
    ensures var got := Delivered(cache.enabled, old(cache.inserted), checksum, fetch);
            && (data != null <==> got.Answer?)
            && (data != null ==> data.Valid() && data.View() == got.list)
            && err == match got case BadRequest => BadRequestError case Failed => CallError case _ => NoError
    ensures fresh(GraphOf(data)) && GraphOf(data) !! cache.Repr
    ensures forall k :: k in cache.inserted ==>
              || (k in old(cache.inserted) && cache.inserted[k] == old(cache.inserted)[k])
              || (checksum == Some(k) && fetch == Answer(cache.inserted[k]))
    ensures old(cache.Resident(checksum)) || !(cache.enabled && checksum.Some?) ==>
            cache.inserted == old(cache.inserted)
    ensures cache.enabled && checksum.Some? && !old(cache.Resident(checksum)) && fetch.Answer? ==>
              checksum.value in cache.inserted && cache.inserted[checksum.value] == fetch.list
  {
    hide AllHold;
    var vmaasData := cache.Get(checksum);
    if vmaasData != null {
      data := CopyResident(cache, vmaasData, cache.inserted[checksum.value]);
      return data, NoError;
    }
    match fetch {
      case BadRequest => return null, BadRequestError;
      case Failed => return null, CallError;
      case NoRequest => return null, NoError;
      case Answer(list) =>
        data := new Response(list);
        err := NoError;
        if cache.enabled {
          var vmaasDataCopy := DeepCopy(data);
          cache.Add(checksum, vmaasDataCopy);
        }
    }
  }

  /** The copy handed out on a hit says what the resident answer says and shares nothing with the cache. */
  method CopyResident(ghost cache: Cache, resident: Response, ghost view: Option<Content>) returns (copy: Response)
    requires cache.Valid() && resident.Valid() && resident.View() == view
    ensures copy.Valid() && copy.View() == view
    ensures fresh(copy.Graph()) && copy.Graph() !! cache.Repr
  {
    copy := DeepCopy(resident);
  }

  // ----- a whole run of callers

  /** What callers do: ask for updates, or rewrite statuses in something they were handed earlier. */
  datatype Action =
    | Lookup(checksum: Option<string>, fetch: Fetch)
    | Rewrite(handed: nat, how: Change)
    | ResetCache

  datatype Change =
    | SetAll(status: Status)
    | SetTemplate(errata: set<string>)
    | Scribble(key: string, updates: seq<Update>)

  /** A caller rewriting what it holds, in place. */
  method Apply(r: Response, how: Change)
    requires r.Valid()
    modifies r.lists.Values
  {
    match how {
      case SetAll(status) => r.SetInstallability(status);
      case SetTemplate(errata) => r.ApplyTemplateAdvisoryInstallability(errata);
      case Scribble(key, updates) =>
        if key in r.lists {
          r.lists[key].updates := updates;
        }
    }
  }

  /**
   The i-th action or an earlier one asked VMaaS for this checksum and got this answer, and the cache has
   not been reset since.
   */
  ghost predicate AnsweredBy(actions: seq<Action>, made: seq<bool>, i: int, checksum: Option<string>,
                             view: Option<Content>)
  {
    exists j :: 0 <= j <= i && Answers(actions, made, j, checksum, view) && NoResetIn(actions, j, i)
  }

  ghost predicate Answers(actions: seq<Action>, made: seq<bool>, j: int, checksum: Option<string>,
                          view: Option<Content>)
  {
    0 <= j < |made| && j < |actions| && made[j] && actions[j] == Lookup(checksum, Answer(view))
  }

  ghost predicate NoResetIn(actions: seq<Action>, j: int, i: int)
  {
    forall m :: j < m <= i && 0 <= m < |actions| ==> actions[m] != ResetCache
  }

  /** The responses handed out so far are well formed and share nothing with the cache. */
  ghost predicate Apart(cache: Cache, handed: seq<Response>)
    reads cache, set r | r in handed
  {
    forall r :: r in handed ==> r.Valid() && r.Graph() !! cache.Repr
  }

  ghost predicate AllAnswered(inserted: map<string, Option<Content>>, actions: seq<Action>, made: seq<bool>, i: int)
  {
    forall k :: k in inserted ==> AnsweredBy(actions, made, i, Some(k), inserted[k])
  }

  /** The action just before asked for the same checksum and was handed something. */
  predicate AskedJustBefore(actions: seq<Action>, views: seq<Option<Option<Content>>>, i: int)
    requires 0 < i < |actions| && i <= |views| && actions[i].Lookup?
  {
    actions[i].checksum.Some? && actions[i - 1].Lookup? && actions[i - 1].checksum == actions[i].checksum
        && views[i - 1].Some?
  }

  /** A lookup that makes a request hands out its answer, and one that makes none hands out something. */
  predicate HandsOut(fetch: Fetch, made: bool, view: Option<Option<Content>>)
  {
    if made then view == if fetch.Answer? then Some(fetch.list) else None else view.Some?
  }

  /** Rewriting what a caller holds leaves the cache and the shape of every handed response alone. */
  method RewriteApart(ghost cache: Cache, ghost handed: seq<Response>, r: Response, how: Change)
    requires cache.Valid() && Apart(cache, handed) && r in handed
    modifies r.lists.Values
    ensures cache.Valid() && Apart(cache, handed)
  {
    assert forall l :: l in r.lists.Values ==> l in r.Graph();
    hide AllHold;
    Apply(r, how);
  }

  /** One lookup: a new response is handed out, apart from the cache. */
  method HandOut(cache: Cache, handed: seq<Response>, checksum: Option<string>, fetch: Fetch)
    returns (view: Option<Option<Content>>, hit: bool, more: seq<Response>)
    requires cache.Valid() && Apart(cache, handed)
    modifies cache
    ensures cache.Valid() && Apart(cache, more) && fresh(cache.Repr - old(cache.Repr))
    ensures handed <= more && forall r :: r in more ==> r in handed || fresh(r.Graph())
    ensures hit <==> cache.enabled && checksum.Some? && checksum.value in old(cache.inserted)
    ensures cache.enabled && checksum.Some? && view.Some? ==>
              checksum.value in cache.inserted && cache.inserted[checksum.value] == view.value
    ensures var got := Delivered(cache.enabled, old(cache.inserted), checksum, fetch);
            view == if got.Answer? then Some(got.list) else None
    ensures HandsOut(fetch, !hit, view)
    ensures forall k :: k in cache.inserted ==>
              || (k in old(cache.inserted) && cache.inserted[k] == old(cache.inserted)[k])
              || (checksum == Some(k) && fetch == Answer(cache.inserted[k]))
    ensures hit || !(cache.enabled && checksum.Some?) ==> cache.inserted == old(cache.inserted)
  {
    hide AllHold, Cache.Valid, Response.View, Response.Valid;
    var resident := cache.Get(checksum);
    hit := resident != null;
    var data, _ := GetVmaasUpdates(cache, checksum, fetch);
    view, more := None, handed;
    if data != null {
      more := handed + [data];
      view := Some(data.View());
    }
  }

  /**
   Isolation over every run: whatever callers rewrite, each lookup hands out exactly what VMaaS answered
   to a request that was made for that checksum, by this lookup or an earlier one since the last reset.
   Lookups that the cache cannot serve make a request.
   */
  method Session(cache: Cache, actions: seq<Action>) returns (views: seq<Option<Option<Content>>>, made: seq<bool>)
    requires cache.Valid() && cache.inserted == map[]
    modifies cache
    ensures cache.Valid() && |views| == |made| == |actions|
    ensures forall i :: 0 <= i < |views| && views[i].Some? ==>
              actions[i].Lookup? && AnsweredBy(actions, made, i, actions[i].checksum, views[i].value)
    ensures forall i :: 0 <= i < |actions| && actions[i].Lookup? && (!cache.enabled || actions[i].checksum.None?) ==>
            made[i]
    ensures forall i :: 0 <= i < |actions| && actions[i].Lookup? ==> HandsOut(actions[i].fetch, made[i], views[i])
    ensures forall i :: 0 < i < |actions| && cache.enabled && actions[i].Lookup? ==>
              AskedJustBefore(actions, views, i) ==> !made[i] && views[i] == views[i - 1]
  {
    hide AllHold, Cache.Valid, Response.View, Response.Valid, AnsweredBy, AllAnswered;
    views, made := [], [];
    var handed: seq<Response> := [];
    NoneAnswered(actions);
    for i := 0 to |actions|
      invariant cache.Valid() && fresh(cache.Repr - old(cache.Repr)) && Apart(cache, handed)
      invariant forall r :: r in handed ==> fresh(r.Graph())
      invariant |views| == |made| == i && AllAnswered(cache.inserted, actions, made, i - 1)
      invariant !cache.enabled ==> cache.inserted == map[]
      invariant forall j :: 0 <= j < i && views[j].Some? ==>
                  actions[j].Lookup? && AnsweredBy(actions, made, j, actions[j].checksum, views[j].value)
      invariant forall j :: 0 <= j < i && actions[j].Lookup? && (!cache.enabled || actions[j].checksum.None?) ==>
                made[j]
      invariant forall j :: 0 <= j < i && actions[j].Lookup? ==> HandsOut(actions[j].fetch, made[j], views[j])
      invariant 0 < i && cache.enabled && actions[i - 1].Lookup? && actions[i - 1].checksum.Some?
                && views[i - 1].Some? ==>
                  && actions[i - 1].checksum.value in cache.inserted
                  && cache.inserted[actions[i - 1].checksum.value] == views[i - 1].value
      invariant forall j :: 0 < j < i && cache.enabled && actions[j].Lookup? && AskedJustBefore(actions, views, j) ==>
                  !made[j] && views[j] == views[j - 1]
    {
      ghost var before := cache.inserted;
      var view, hit := None, false;
      match actions[i] {
        case Lookup(checksum, fetch) =>
          view, hit, handed := HandOut(cache, handed, checksum, fetch);
        case Rewrite(n, how) =>
          if n < |handed| {
            assert handed[n] in handed && forall l :: l in handed[n].lists.Values ==> l in handed[n].Graph();
            RewriteApart(cache, handed, handed[n], how);
          }
        case ResetCache =>
          cache.Reset();
      }
      ghost var was := made;
      views, made := views + [view], made + [actions[i].Lookup? && !hit];
      if actions[i].Lookup? {
        LookupAnswered(actions, was, i, before, cache.inserted, cache.enabled, hit);
      } else {
        OthersAnswered(actions, was, i, before, cache.inserted);
      }
      forall j | 0 <= j < i && views[j].Some?
        ensures AnsweredBy(actions, made, j, actions[j].checksum, views[j].value) {
        StillAnswered(actions, was, made, j, actions[j].checksum, views[j].value);
      }
    }
  }

  lemma NoneAnswered(actions: seq<Action>)
    ensures AllAnswered(map[], actions, [], -1)
  {
  }

  lemma StillAnswered(actions: seq<Action>, made: seq<bool>, more: seq<bool>, i: int, checksum: Option<string>,
                      view: Option<Content>)
    requires AnsweredBy(actions, made, i, checksum, view) && made <= more
    ensures AnsweredBy(actions, more, i, checksum, view)
  {
    var j :| 0 <= j <= i && Answers(actions, made, j, checksum, view) && NoResetIn(actions, j, i);
    assert Answers(actions, more, j, checksum, view);
  }

  lemma AnsweredLater(actions: seq<Action>, made: seq<bool>, b: bool, i: int, checksum: Option<string>,
                      view: Option<Content>)
    requires AnsweredBy(actions, made, i - 1, checksum, view) && 0 <= i < |actions| && actions[i] != ResetCache
    ensures AnsweredBy(actions, made + [b], i, checksum, view)
  {
    var j :| 0 <= j <= i - 1 && Answers(actions, made, j, checksum, view) && NoResetIn(actions, j, i - 1);
    assert Answers(actions, made + [b], j, checksum, view) && NoResetIn(actions, j, i);
  }

  /** A lookup keeps every resident answered, and what it delivers was answered too. */
  lemma LookupAnswered(actions: seq<Action>, made: seq<bool>, i: nat, before: map<string, Option<Content>>,
                       after: map<string, Option<Content>>, enabled: bool, hit: bool)
    requires i < |actions| && |made| == i && actions[i].Lookup? && AllAnswered(before, actions, made, i - 1)
    requires var checksum := actions[i].checksum; hit <==> enabled && checksum.Some? && checksum.value in before
    requires hit ==> after == before
    requires forall k :: k in after ==>
               || (k in before && after[k] == before[k])
               || (actions[i].checksum == Some(k) && actions[i].fetch == Answer(after[k]))
    ensures AllAnswered(after, actions, made + [!hit], i)
    ensures var got := Delivered(enabled, before, actions[i].checksum, actions[i].fetch);
            got.Answer? ==> AnsweredBy(actions, made + [!hit], i, actions[i].checksum, got.list)
  {
    forall k | k in before ensures AnsweredBy(actions, made + [!hit], i, Some(k), before[k]) {
      AnsweredLater(actions, made, !hit, i, Some(k), before[k]);
    }
    if !hit && actions[i].fetch.Answer? {
      assert Answers(actions, made + [!hit], i, actions[i].checksum, actions[i].fetch.list);
    }
  }

  /** Rewrites keep every resident answered, and a reset leaves no resident to answer for. */
  lemma OthersAnswered(actions: seq<Action>, made: seq<bool>, i: nat, before: map<string, Option<Content>>,
                       after: map<string, Option<Content>>)
    requires i < |actions| && |made| == i && AllAnswered(before, actions, made, i - 1)
    requires after == if actions[i] == ResetCache then map[] else before
    ensures AllAnswered(after, actions, made + [false], i)
  {
    if actions[i] != ResetCache {
      forall k | k in before ensures AnsweredBy(actions, made + [false], i, Some(k), before[k]) {
        AnsweredLater(actions, made, false, i, Some(k), before[k]);
      }
    }
  }

  // ----- gathering a system's updates

  method YumList(available: seq<Update>) returns (updates: seq<Update>)
    ensures updates == YumUpdates(available)
  {
    hide Parses, YumUpdate;
    updates := [];
    for i := 0 to |available|
      invariant YumUpdates(available) == updates + YumUpdates(available[i..])
    {
      var u := available[i];
      assert available[i..][1..] == available[i + 1..];
      if Parses(u) {
        updates := updates + [YumUpdate(u)];
      }
    }
  }

  /** tryGetYumUpdates; raw is the system's stored yum report when it has a readable one. */
  method TryGetYumUpdates(cfg: Config, raw: Option<Content>) returns (resp: Response?)
    ensures resp == null <==> YumReport(cfg, raw).None?
    ensures resp != null ==> resp.Valid() && resp.View() == YumReport(cfg, raw) && fresh(resp.Graph())
  {
    hide YumUpdates;
    if !cfg.yumEval || raw.None? || raw.value == map[] {
      return null;
    }
    var updatesMap: Content := map[];
    var rest := raw.value.Keys;
    while rest != {}
      invariant rest <= raw.value.Keys && updatesMap.Keys == raw.value.Keys - rest
      invariant forall k :: k in updatesMap ==> updatesMap[k] == YumUpdates(raw.value[k])
    {
      var k :| k in rest;
      var updates := YumList(raw.value[k]);
      updatesMap := updatesMap[k := updates];
      rest := rest - {k};
    }
    assert updatesMap == YumContent(raw.value);
    resp := new Response(Some(updatesMap));
  }

  lemma ListsInGraph(r: Response)
    ensures forall l :: l in r.lists.Values ==> l in r.Graph()
  {
  }

  ghost function VerdictOf(data: Response?, failed: bool, ended: bool): Verdict
    reads data, if data != null then data.lists.Values else {}
  {
    if !ended then Hang else if failed then Fail else Evaluate(ReportOf(data))
  }

  /** getTemplateAdvisoryUpdatesData: VMaaS only, installability from the template's errata. */
  method GetTemplateAdvisoryUpdatesData(lc: LabelOrder, cfg: Config, sys: System, errata: set<string>,
                                        raw: Option<Content>,
                                        cache: Cache, checksum: Option<string>, fetch: Fetch)
    returns (data: Response?, failed: bool)
    requires cache.Valid() && UsesTemplateEval(cfg, sys)
    modifies cache
    ensures cache.Valid()
    ensures MayReach(lc, cfg, sys, errata, raw, Delivered(cache.enabled, old(cache.inserted), checksum, fetch),
                     VerdictOf(data, failed, true))
    ensures fresh(GraphOf(data))
  {
    hide AllHold, AllWithStatus, WithTemplate, Combined, YumReport, VmaasSide, MergeHangs, BootcRule;
    var vmaasErr;
    data, vmaasErr := GetVmaasUpdates(cache, checksum, fetch);
    if vmaasErr.BadRequestError? {
      return null, false;
    }
    failed := vmaasErr.CallError?;
    if data != null {
      ListsInGraph(data);
      assert !data.listed ==> WithTemplate(data.Contents(), errata) == map[] by { NoUpdates(errata); }
      data.ApplyTemplateAdvisoryInstallability(errata);
    }
  }

  lemma NoUpdates(errata: set<string>)
    ensures WithTemplate(map[], errata) == map[] && AllWithStatus(map[], Applicable) == map[]
  {
  }

  /** The end of getUpdatesData: merge, then the rule for image-mode systems. */
  method MergeForSystem(lc: LabelOrder, sys: System, yumUpdates: Response?, vmaasData: Response?)
    returns (merged: Response?, ended: bool)
    requires ValidOrNull(yumUpdates) && ValidOrNull(vmaasData) && GraphOf(yumUpdates) !! GraphOf(vmaasData)
    requires yumUpdates != null ==> yumUpdates.listed
    modifies GraphOf(yumUpdates) + GraphOf(vmaasData)
    ensures var yum, side := old(ReportOf(yumUpdates)), old(ReportOf(vmaasData));
            if ended then exists r :: Combined(lc, yum, side, r) && ReportOf(merged) == BootcRule(sys, r)
            else MergeNeverEnds(lc, yum, side)
    ensures ended ==> fresh(GraphOf(merged) - old(GraphOf(yumUpdates)) - old(GraphOf(vmaasData)))
  {
    hide Combined, AllWithStatus, MergeHangs;
    merged, ended := MergeVMaaSResponses(lc, yumUpdates, vmaasData);
    if ended {
      ghost var r := ReportOf(merged);
      assert Combined(lc, old(ReportOf(yumUpdates)), old(ReportOf(vmaasData)), r) by {
        if yumUpdates == null && vmaasData == null { NothingCombined(lc); }
      }
      if sys.bootc && merged != null {
        ListsInGraph(merged);
        merged.SetInstallability(Applicable);
      }
      assert ReportOf(merged) == BootcRule(sys, r);
    }
  }

  lemma NothingCombined(lc: LabelOrder)
    ensures Combined(lc, None, None, None)
  {
  }

  lemma EarlyVerdict(lc: LabelOrder, cfg: Config, sys: System, errata: set<string>, raw: Option<Content>, got: Fetch)
    requires !UsesTemplateEval(cfg, sys)
    ensures got == BadRequest ==> MayReach(lc, cfg, sys, errata, raw, got, Evaluate(None))
    ensures got == Failed && YumReport(cfg, raw).None? ==> MayReach(lc, cfg, sys, errata, raw, got, Fail)
  {
    hide YumReport, VmaasSide;
  }

  lemma MergeVerdict(lc: LabelOrder, cfg: Config, sys: System, errata: set<string>, raw: Option<Content>, got: Fetch,
                     v: Verdict)
    requires !UsesTemplateEval(cfg, sys) && got != BadRequest && !(got == Failed && YumReport(cfg, raw).None?)
    requires var yum, side := YumReport(cfg, raw), VmaasSide(sys, got);
             if v.Hang? then MergeNeverEnds(lc, yum, side)
             else v.Evaluate? && exists r :: Combined(lc, yum, side, r) && v.updates == BootcRule(sys, r)
    ensures MayReach(lc, cfg, sys, errata, raw, got, v)
  {
    hide YumReport, VmaasSide, BootcRule, MergeHangs;
  }

  /** With Satellite or a template in charge, everything VMaaS delivered becomes applicable, in place. */
  method ApplyManagement(sys: System, vmaasData: Response?, ghost cache: Cache)
    requires cache.Valid() && ValidOrNull(vmaasData) && GraphOf(vmaasData) !! cache.Repr && cache !in GraphOf(vmaasData)
    modifies GraphOf(vmaasData)
    ensures cache.Valid() && ValidOrNull(vmaasData) && GraphOf(vmaasData) == old(GraphOf(vmaasData))
    ensures ReportOf(vmaasData)
            == if vmaasData != null && (sys.satelliteManaged || sys.templated)
               then Some(AllWithStatus(old(ReportOf(vmaasData)).value, Applicable)) else old(ReportOf(vmaasData))
  {
    hide AllHold, AllWithStatus;
    if (sys.satelliteManaged || sys.templated) && vmaasData != null {
      ListsInGraph(vmaasData);
      vmaasData.SetInstallability(Applicable);
    }
  }

  /** The VMaaS side, made applicable throughout when Satellite or a template manages the system. */
  method GetVmaasSide(sys: System, cache: Cache, checksum: Option<string>, fetch: Fetch)
    returns (vmaasData: Response?, vmaasErr: VmaasError)
    requires cache.Valid()
    modifies cache
    ensures cache.Valid() && ValidOrNull(vmaasData) && fresh(GraphOf(vmaasData))
    ensures fresh(cache.Repr - old(cache.Repr)) && GraphOf(vmaasData) !! cache.Repr && cache !in GraphOf(vmaasData)
    ensures var got := Delivered(cache.enabled, old(cache.inserted), checksum, fetch);
            && ReportOf(vmaasData) == VmaasSide(sys, got)
            && (vmaasErr.BadRequestError? <==> got.BadRequest?) && (vmaasErr.CallError? <==> got.Failed?)
    ensures var got := Delivered(cache.enabled, old(cache.inserted), checksum, fetch);
            got.Answer? && !sys.satelliteManaged && !sys.templated ==>
              ReportOf(vmaasData) == Some(if got.list.Some? then got.list.value else map[])
  {
    hide AllHold, AllWithStatus, Cache.Valid;
    vmaasData, vmaasErr := GetVmaasUpdates(cache, checksum, fetch);
    NoUpdates({});
    ApplyManagement(sys, vmaasData, cache);
  }

  /** Both sides of the merge, sharing nothing with each other or with the cache. */
  method GetSides(cfg: Config, sys: System, raw: Option<Content>, cache: Cache, checksum: Option<string>, fetch: Fetch)
    returns (yumUpdates: Response?, vmaasData: Response?, vmaasErr: VmaasError)
    requires cache.Valid()
    modifies cache
    ensures cache.Valid() && Owned(cache, yumUpdates, vmaasData)
    ensures fresh(GraphOf(yumUpdates) + GraphOf(vmaasData))
    ensures ReportOf(yumUpdates) == YumReport(cfg, raw)
    ensures var got := Delivered(cache.enabled, old(cache.inserted), checksum, fetch);
            && ReportOf(vmaasData) == VmaasSide(sys, got)
            && (vmaasErr.BadRequestError? <==> got.BadRequest?) && (vmaasErr.CallError? <==> got.Failed?)
  {
    hide AllHold, YumReport, VmaasSide;
    yumUpdates := TryGetYumUpdates(cfg, raw);
    vmaasData, vmaasErr := GetVmaasSide(sys, cache, checksum, fetch);
  }

  ghost predicate Owned(cache: Cache, yumUpdates: Response?, vmaasData: Response?)
    reads cache, yumUpdates, vmaasData
  {
    && ValidOrNull(yumUpdates) && ValidOrNull(vmaasData) && (yumUpdates != null ==> yumUpdates.listed)
    && GraphOf(yumUpdates) !! GraphOf(vmaasData) && GraphOf(yumUpdates) !! cache.Repr
       && GraphOf(vmaasData) !! cache.Repr
    && cache !in GraphOf(yumUpdates) + GraphOf(vmaasData)
  }

  /** Merging what callers own leaves the cache alone. */
  method MergeBesideCache(lc: LabelOrder, sys: System, yumUpdates: Response?, vmaasData: Response?, ghost cache: Cache)
    returns (merged: Response?, ended: bool)
    requires cache.Valid() && Owned(cache, yumUpdates, vmaasData)
    modifies GraphOf(yumUpdates) + GraphOf(vmaasData)
    ensures cache.Valid()
    ensures var yum, side := old(ReportOf(yumUpdates)), old(ReportOf(vmaasData));
            if ended then exists r :: Combined(lc, yum, side, r) && ReportOf(merged) == BootcRule(sys, r)
            else MergeNeverEnds(lc, yum, side)
    ensures ended ==> fresh(GraphOf(merged) - old(GraphOf(yumUpdates)) - old(GraphOf(vmaasData)))
  {
    hide Combined, BootcRule, MergeNeverEnds, AllHold;
    merged, ended := MergeForSystem(lc, sys, yumUpdates, vmaasData);
  }

  /** getUpdatesData off the template path. */
  method FromBothSources(lc: LabelOrder, cfg: Config, sys: System, errata: set<string>, raw: Option<Content>,
                         cache: Cache, checksum: Option<string>, fetch: Fetch)
    returns (data: Response?, failed: bool, ended: bool)
    requires cache.Valid() && !UsesTemplateEval(cfg, sys)
    modifies cache
    ensures cache.Valid()
    ensures MayReach(lc, cfg, sys, errata, raw, Delivered(cache.enabled, old(cache.inserted), checksum, fetch),
                     VerdictOf(data, failed, ended))
    ensures fresh(GraphOf(data))
  {
    hide MayReach, AllHold, YumReport, VmaasSide, Combined, BootcRule, MergeHangs;
    hide Response.Contents, Cache.Valid, Owned, UsesTemplateEval;
    ghost var got := Delivered(cache.enabled, cache.inserted, checksum, fetch);
    EarlyVerdict(lc, cfg, sys, errata, raw, got);
    var yumUpdates, vmaasData, vmaasErr := GetSides(cfg, sys, raw, cache, checksum, fetch);
    if vmaasErr.BadRequestError? {
      return null, false, true;
    }
    if vmaasErr.CallError? && yumUpdates == null {
      return null, true, true;
    }
    data, ended := MergeBesideCache(lc, sys, yumUpdates, vmaasData, cache);
    if !ended {
      data := null;
    }
    failed := false;
    MergeVerdict(lc, cfg, sys, errata, raw, got, VerdictOf(data, failed, ended));
  }

  /** getUpdatesData: failed stands for a returned error, ended is false when a merge loops forever. */
  method GetUpdatesData(lc: LabelOrder, cfg: Config, sys: System, errata: set<string>, raw: Option<Content>,
                        cache: Cache, checksum: Option<string>, fetch: Fetch)
    returns (data: Response?, failed: bool, ended: bool)
    requires cache.Valid()
    modifies cache
    ensures cache.Valid()
    ensures MayReach(lc, cfg, sys, errata, raw, Delivered(cache.enabled, old(cache.inserted), checksum, fetch),
                     VerdictOf(data, failed, ended))
    ensures fresh(GraphOf(data))
    ensures var got := Delivered(cache.enabled, old(cache.inserted), checksum, fetch);
            var template := cfg.templateEval && sys.templated && !sys.satelliteManaged;
            var yum := !template && cfg.yumEval && raw.Some? && raw.value != map[];
            && (ended && failed <==> got == Failed && !yum)
            && (ended && !failed && data == null <==> got == BadRequest || (got == NoRequest && !yum))
  {
    hide MayReach;
    ghost var got := Delivered(cache.enabled, cache.inserted, checksum, fetch);
    if UsesTemplateEval(cfg, sys) {
      data, failed := GetTemplateAdvisoryUpdatesData(lc, cfg, sys, errata, raw, cache, checksum, fetch);
      ended := true;
    } else {
      data, failed, ended := FromBothSources(lc, cfg, sys, errata, raw, cache, checksum, fetch);
    }
    VerdictIs(lc, cfg, sys, errata, raw, got, VerdictOf(data, failed, ended));
  }
}
