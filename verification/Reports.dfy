/**
 Whole update reports as values: package key to list of updates. What the installability rules, the
 merge of two reports and the fold to advisories mean, independently of how the code walks its maps.
 */
module Reports {
  import opened Wrappers
  import opened Text
  import opened OrderedMerge
  import opened LatestFilter
  import opened Rpm
  import opened Vmaas
  import opened MergeUpdates

  type Content = map<string, seq<Update>>

  /** SetUpdatesInstallability */
  function WithStatus(us: seq<Update>, status: Status): (r: seq<Update>)
    ensures |r| == |us|
    ensures forall i :: 0 <= i < |us| ==> r[i] == us[i].(status := status)
  {
    if us == [] then [] else [us[0].(status := status)] + WithStatus(us[1..], status)
  }

  function AllWithStatus(c: Content, status: Status): Content
  {
    map k | k in c :: WithStatus(c[k], status)
  }

  function TemplateUpdate(u: Update, errata: set<string>): Update
  {
    if u.erratum == "" then u
    else u.(status := if u.erratum in errata then Installable else Applicable)
  }

  function TemplateUpdates(us: seq<Update>, errata: set<string>): (r: seq<Update>)
    ensures |r| == |us|
    ensures forall i :: 0 <= i < |us| ==> r[i] == TemplateUpdate(us[i], errata)
  {
    if us == [] then [] else [TemplateUpdate(us[0], errata)] + TemplateUpdates(us[1..], errata)
  }

  /** applyTemplateAdvisoryInstallability */
  function WithTemplate(c: Content, errata: set<string>): Content
  {
    map k | k in c :: TemplateUpdates(c[k], errata)
  }

  // ----- reported advisories

  ghost function AllUpdates(c: Content): set<Update>
  {
    set k, u | k in c && u in c[k] :: u
  }

  ghost predicate CarriesInstallable(us: set<Update>, e: string)
  {
    exists u :: u in us && u.erratum == e && u.status == Installable
  }

  /** Each non-empty erratum among the updates: installable if some update carrying it is. */
  ghost function AdvisoriesOf(us: set<Update>): map<string, Status>
  {
    map e | e in (set u | u in us && u.erratum != "" :: u.erratum) ::
      if CarriesInstallable(us, e) then Installable else Applicable
  }

  /** getReportedAdvisories */
  ghost function Reported(c: Content): map<string, Status>
  {
    AdvisoriesOf(AllUpdates(c))
  }

  /** Folding in one more update is what the body of the inner loop does. */
  lemma FoldUpdate(us: set<Update>, u: Update)
    ensures var m := AdvisoriesOf(us);
            AdvisoriesOf(us + {u})
              == if u.erratum == "" || (u.erratum in m && m[u.erratum] == Installable) then m
                 else m[u.erratum := u.status]
  {
    var m, m' := AdvisoriesOf(us), AdvisoriesOf(us + {u});
    forall e ensures CarriesInstallable(us + {u}, e)
                <==> CarriesInstallable(us, e) || (u.erratum == e && u.status == Installable) {
      if CarriesInstallable(us, e) {
        var v :| v in us && v.erratum == e && v.status == Installable;
        assert v in us + {u};
      }
      assert u in us + {u};
    }
    assert m'.Keys == if u.erratum == "" then m.Keys else m.Keys + {u.erratum};
  }

  // ----- merging two reports

  function PackageReader(lc: LabelOrder): Reader<string, Nevra>
  {
    Reader(Parse, (n: Nevra) => n.name, CmpOrder(lc))
  }

  lemma PackageReaderIsLawful(lc: LabelOrder)
    ensures Lawful(PackageReader(lc))
  {
    CmpIsPreorder(lc);
  }

  /** The keys both reports have, and whose lists cannot be merged. */
  predicate MergeHangs(lc: LabelOrder, a: Content, b: Content)
  {
    exists k :: k in a && k in b && MergeOutcome(lc, a[k], b[k]).Stuck?
  }

  function MergeContents(lc: LabelOrder, a: Content, b: Content): Content
    requires !MergeHangs(lc, a, b)
  {
    map k | k in a.Keys + b.Keys ::
      if k in a && k in b then
        match MergeOutcome(lc, a[k], b[k])
        case Merged(us) => us
        case Stuck => []
      else if k in a then a[k] else b[k]
  }

  /** What RemoveNonLatestPackages may leave, one result for each order of the keys. */
  ghost predicate Filtered(lc: LabelOrder, before: Content, after: Content)
  {
    exists order :: IsOrderOf(order, before.Keys)
      && after == map k | k in before && k in Survivors(PackageReader(lc), order) :: before[k]
  }

  /** MergeVMaaSResponses when it ends: a missing report yields the other one, unfiltered. */
  ghost predicate Combined(lc: LabelOrder, a: Option<Content>, b: Option<Content>, r: Option<Content>)
  {
    if a.None? then r == b
    else if b.None? then r == a
    else
      && !MergeHangs(lc, a.value, b.value)
      && r.Some? && Filtered(lc, MergeContents(lc, a.value, b.value), r.value)
  }

  /** Every package key of a combined report reads, and no package of its name in either report is newer. */
  lemma CombinedKeysAreLatest(lc: LabelOrder, a: Content, b: Content, r: Content)
    requires Combined(lc, Some(a), Some(b), Some(r))
    requires !HasTiedLoser(PackageReader(lc), a.Keys + b.Keys)
    ensures r.Keys == Latest(PackageReader(lc), a.Keys + b.Keys)
  {
    hide PackageReader, MergeContents, MergeHangs, HasTiedLoser, Latest, Filtered;
    MergedKeys(lc, a, b);
    FilteredKeys(lc, MergeContents(lc, a, b), r);
  }

  lemma MergedKeys(lc: LabelOrder, a: Content, b: Content)
    requires !MergeHangs(lc, a, b)
    ensures MergeContents(lc, a, b).Keys == a.Keys + b.Keys
  {
    hide MergeHangs;
  }

  lemma FilteredKeys(lc: LabelOrder, before: Content, after: Content)
    requires Filtered(lc, before, after) && !HasTiedLoser(PackageReader(lc), before.Keys)
    ensures after.Keys == Latest(PackageReader(lc), before.Keys)
  {
    hide PackageReader, HasTiedLoser, Latest, Survivors, IsOrderOf;
    PackageReaderIsLawful(lc);
    OrderIndependentIff(PackageReader(lc), before.Keys);
    var order :| IsOrderOf(order, before.Keys)
      && after == map k | k in before && k in Survivors(PackageReader(lc), order) :: before[k];
    SurvivorsAreKeys(PackageReader(lc), before.Keys);
    assert after.Keys == Latest(PackageReader(lc), before.Keys);
  }

  lemma Fates(lc: LabelOrder, before: Content, after: Content, k: string)
    requires Filtered(lc, before, after)
    ensures k in Latest(PackageReader(lc), before.Keys) ==> k in after
    ensures k in after ==>
              && k in before && after[k] == before[k] && Parse(k).Some?
              && (k in Latest(PackageReader(lc), before.Keys) || Tied(PackageReader(lc), before.Keys, k))
  {
    hide Parse, Cmp, Survivors, Latest, Tied;
    PackageReaderIsLawful(lc);
    var order :| IsOrderOf(order, before.Keys)
      && after == map i | i in before && i in Survivors(PackageReader(lc), order) :: before[i];
    EveryOrder(PackageReader(lc), order);
  }

  /**
   A package whose label LabelCompare puts below that of another one of its name is not among the latest,
   and unless it ties with a third one, the filter removes it.
   */
  lemma OlderGoes(lc: LabelOrder, before: Content, after: Content, k: string, j: string, n: Nevra, m: Nevra)
    requires Filtered(lc, before, after) && k in before && j in before
    requires Parse(k) == Some(n) && Parse(j) == Some(m) && n.name == m.name
    requires lc(Evr(IntText(n.epoch), n.version, n.release), Evr(IntText(m.epoch), m.version, m.release)) < 0
    ensures k !in Latest(PackageReader(lc), before.Keys)
    ensures k in after ==>
              exists i, o :: i in before && i != k && Parse(i) == Some(o) && o.name == n.name && o.arch == n.arch
                && lc(Evr(IntText(n.epoch), n.version, n.release), Evr(IntText(o.epoch), o.version, o.release)) == 0
  {
    hide Parse, Cmp, IntText, Filtered;
    var r := PackageReader(lc);
    CmpDecides(lc, n, m);
    assert Related(r, k, j, -1);
    Fates(lc, before, after, k);
    if k in after {
      var i :| i in before && i != k && Related(r, k, i, 0);
      TiesShareLabel(lc, n, Parse(i).value);
    }
  }

  lemma TiesShareLabel(lc: LabelOrder, n: Nevra, o: Nevra)
    requires n.name == o.name && Cmp(lc, n, o) == 0
    ensures n.arch == o.arch
    ensures lc(Evr(IntText(n.epoch), n.version, n.release), Evr(IntText(o.epoch), o.version, o.release)) == 0
  {
    CmpDecides(lc, n, o);
    CompareIsAntisymmetric(n.arch, o.arch);
  }

  /** A package stays if no other one of its name has a greater label or, the labels being equal, a greater arch. */
  lemma NewestStays(lc: LabelOrder, before: Content, after: Content, k: string, n: Nevra)
    requires Filtered(lc, before, after) && k in before && Parse(k) == Some(n)
    requires forall j, m :: j in before && Parse(j) == Some(m) && m.name == n.name ==>
               var c := lc(Evr(IntText(n.epoch), n.version, n.release), Evr(IntText(m.epoch), m.version, m.release));
               c > 0 || (c == 0 && Compare(n.arch, m.arch) >= 0)
    ensures k in after && after[k] == before[k]
  {
    hide Parse, Cmp, Compare, Filtered;
    var r := PackageReader(lc);
    forall j | j in before ensures !Related(r, k, j, -1) {
      if Parse(j).Some? && Parse(j).value.name == n.name { CmpDecides(lc, n, Parse(j).value); }
    }
    assert k in Latest(r, before.Keys);
    Fates(lc, before, after, k);
  }

  /** A key that is no package goes. */
  lemma UnreadableGoes(lc: LabelOrder, before: Content, after: Content, k: string)
    requires Filtered(lc, before, after) && Parse(k).None?
    ensures k !in after
  {
    hide Parse, Filtered;
    Fates(lc, before, after, k);
  }

  lemma SurvivorsAreKeys(r: Reader<string, Nevra>, keys: set<string>)
    ensures Latest(r, keys) <= keys
  {
  }

  /** Two prints of one identity tie, so beside a newer package they make the filter order-dependent. */
  lemma BothPrintsTie(lc: LabelOrder, n: Nevra, newer: Nevra)
    requires WellFormed(n) && WellFormed(newer) && n.epoch == 0
    requires n.name == newer.name && Cmp(lc, n, newer) == -1
    ensures HasTiedLoser(PackageReader(lc), {Show(n, true), Show(n, false), Show(newer, true)})
  {
    var r := PackageReader(lc);
    var k, j, top := Show(n, true), Show(n, false), Show(newer, true);
    var keys := {k, j, top};
    RoundTrip(n, true);
    RoundTrip(n, false);
    RoundTrip(newer, true);
    CmpIsPreorder(lc);
    assert Cmp(lc, n, n) == 0 by { assert CmpOrder(lc)(n, n) == -CmpOrder(lc)(n, n); }
    assert |k| == |j| + 2;
    hide Parse, Show, Cmp;
    assert Related(r, k, j, 0) && Related(r, k, top, -1);
    assert Beaten(r, keys, k) && Tied(r, keys, k);
  }

  // ----- installability, end to end

  ghost predicate AllStatus(c: Content, status: Status)
  {
    forall u :: u in AllUpdates(c) ==> u.status == status
  }

  lemma RewrittenStatus(c: Content, status: Status)
    ensures AllStatus(AllWithStatus(c, status), status)
  {
  }

  /**
   A combined list holds the whole first list and, of the second, all but what the first has with the same
   package and erratum.
   */
  lemma CombinedList(lc: LabelOrder, a: Content, b: Content, r: Content, k: string, u: Update)
    requires Combined(lc, Some(a), Some(b), Some(r)) && k in r
    ensures k in a && u in a[k] ==> u in r[k]
    ensures u in r[k] ==> (k in a && u in a[k]) || (k in b && u in b[k])
    ensures k in b && u in b[k] ==>
              || u in r[k]
              || exists v :: k in a && v in a[k] && GetPackage(v) == GetPackage(u) && v.erratum == u.erratum
  {
    hide Parse, GetPackage;
    if k in a && k in b { MergeKeepsKeys(lc, a[k], b[k], u); }
  }

  /**
   Systems managed by Satellite or by a template: yum's report is installable throughout, the other is
   made applicable throughout, and an erratum comes out installable exactly when some yum update under
   a package key that survived carries it.
   */
  lemma InstallableIffYumCarriesIt(lc: LabelOrder, yum: Content, vmaas: Content, r: Content, e: string)
    requires AllStatus(yum, Installable) && AllStatus(vmaas, Applicable)
    requires Combined(lc, Some(yum), Some(vmaas), Some(r))
    ensures (e in Reported(r) && Reported(r)[e] == Installable)
       <==> e != "" && exists k, u :: k in r && k in yum && u in yum[k] && u.erratum == e
  {
    hide Combined;
    if e in Reported(r) && Reported(r)[e] == Installable {
      var u :| u in AllUpdates(r) && u.erratum == e && u.status == Installable;
      var k :| k in r && u in r[k];
      CombinedList(lc, yum, vmaas, r, k, u);
      assert k in vmaas && u in vmaas[k] ==> u in AllUpdates(vmaas);
    }
    if k, u :| e != "" && k in r && k in yum && u in yum[k] && u.erratum == e {
      CombinedList(lc, yum, vmaas, r, k, u);
      assert u in AllUpdates(yum) && u in AllUpdates(r);
      assert CarriesInstallable(AllUpdates(r), e);
    }
  }

  /** Nothing is reported installable from a report whose updates are all applicable, as for image-mode systems. */
  lemma NothingInstallable(c: Content, e: string)
    requires AllStatus(c, Applicable) && e in Reported(c)
    ensures Reported(c)[e] == Applicable
  {
  }

  lemma RewrittenIn(us: seq<Update>, errata: set<string>, u: Update)
    requires u in us
    ensures TemplateUpdate(u, errata) in TemplateUpdates(us, errata)
  {
    var i :| 0 <= i < |us| && us[i] == u;
    assert TemplateUpdates(us, errata)[i] == TemplateUpdate(u, errata);
  }

  lemma RewrittenFrom(us: seq<Update>, errata: set<string>, v: Update) returns (u: Update)
    requires v in TemplateUpdates(us, errata)
    ensures u in us && v == TemplateUpdate(u, errata)
  {
    var i :| 0 <= i < |us| && TemplateUpdates(us, errata)[i] == v;
    u := us[i];
  }

  lemma TemplateRewritesEach(c: Content, errata: set<string>)
    ensures AllUpdates(WithTemplate(c, errata)) == set u | u in AllUpdates(c) :: TemplateUpdate(u, errata)
  {
    hide TemplateUpdates, TemplateUpdate;
    var c' := WithTemplate(c, errata);
    var rewritten := set u | u in AllUpdates(c) :: TemplateUpdate(u, errata);
    forall v | v in rewritten ensures v in AllUpdates(c') {
      var u :| u in AllUpdates(c) && v == TemplateUpdate(u, errata);
      var k :| k in c && u in c[k];
      RewrittenIn(c[k], errata, u);
      assert k in c' && v in c'[k];
    }
    forall v | v in AllUpdates(c') ensures v in rewritten {
      var k :| k in c' && v in c'[k];
      var u := RewrittenFrom(c[k], errata, v);
      assert u in AllUpdates(c);
    }
  }

  lemma TemplateRuleOnSet(us: set<Update>, errata: set<string>, e: string)
    ensures var m, m' := AdvisoriesOf(us), AdvisoriesOf(set u | u in us :: TemplateUpdate(u, errata));
            (e in m' <==> e in m) && (e in m ==> (m'[e] == Installable <==> e in errata))
  {
    var us' := set u | u in us :: TemplateUpdate(u, errata);
    forall u | u in us ensures TemplateUpdate(u, errata) in us' && TemplateUpdate(u, errata).erratum == u.erratum { }
    if e in AdvisoriesOf(us) {
      var u :| u in us && u.erratum == e;
      assert TemplateUpdate(u, errata) in us';
    }
  }

  /** Under the template rules an advisory is installable exactly when the template lists it. */
  lemma InstallableIffInTemplate(c: Content, errata: set<string>, e: string)
    ensures e in Reported(WithTemplate(c, errata)) <==> e in Reported(c)
    ensures e in Reported(c) ==>
              (Reported(WithTemplate(c, errata))[e] == Installable <==> e in errata)
  {
    TemplateRewritesEach(c, errata);
    TemplateRuleOnSet(AllUpdates(c), errata, e);
  }

  // ----- what one system is evaluated against

  /** The flags of a system and of the configuration that the installability rules look at. */
  datatype System = System(satelliteManaged: bool, templated: bool, bootc: bool)
  datatype Config = Config(templateEval: bool, yumEval: bool)

  predicate UsesTemplateEval(cfg: Config, sys: System)
  {
    cfg.templateEval && sys.templated && !sys.satelliteManaged
  }

  /** How a VMaaS request ended. An answer may come without an update list. */
  datatype Fetch = Answer(list: Option<Content>) | NoRequest | BadRequest | Failed

  datatype Verdict = Evaluate(updates: Option<Content>) | Fail | Hang

  /** An update from yum gets its name and EVRA, with the epoch, from its package string; it starts installable. */
  function YumUpdate(u: Update): Update
    requires Parses(u)
  {
    var n := Parse(GetPackage(u)).value;
    Update(u.repository, u.releasever, u.basearch, u.erratum, u.package, n.name, ShowEvra(n, true), Installable)
  }

  function YumUpdates(us: seq<Update>): seq<Update>
  {
    if us == [] then []
    else (if Parses(us[0]) then [YumUpdate(us[0])] else []) + YumUpdates(us[1..])
  }

  function YumContent(c: Content): Content
  {
    map k | k in c :: YumUpdates(c[k])
  }

  /** tryGetYumUpdates: nothing usable when there is no report or it lists no package. */
  function YumReport(cfg: Config, raw: Option<Content>): Option<Content>
  {
    if cfg.yumEval && raw.Some? && raw.value != map[] then Some(YumContent(raw.value)) else None
  }

  /** The VMaaS side of a merge, with the rule for Satellite and templates applied. */
  function VmaasSide(sys: System, got: Fetch): Option<Content>
  {
    match got
    case Answer(list) =>
      var c := if list.Some? then list.value else map[];
      Some(if sys.satelliteManaged || sys.templated then AllWithStatus(c, Applicable) else c)
    case _ => None
  }

  function BootcRule(sys: System, r: Option<Content>): Option<Content>
  {
    if sys.bootc && r.Some? then Some(AllWithStatus(r.value, Applicable)) else r
  }

  /** getUpdatesData: the verdicts it may reach for a system, given yum's report and what VMaaS delivered. */
  ghost predicate MayReach(lc: LabelOrder, cfg: Config, sys: System, errata: set<string>,
                           raw: Option<Content>, got: Fetch, v: Verdict)
  {
    if UsesTemplateEval(cfg, sys) then
      match got
      case Answer(list) => v == Evaluate(if list.Some? then Some(WithTemplate(list.value, errata)) else Some(map[]))
      case Failed => v == Fail
      case _ => v == Evaluate(None)
    else
      var yum, side := YumReport(cfg, raw), VmaasSide(sys, got);
      if got == BadRequest then v == Evaluate(None)
      else if got == Failed && yum.None? then v == Fail
      else if yum.Some? && side.Some? && MergeHangs(lc, yum.value, side.value) then v == Hang
      else
        v.Evaluate? && (exists r :: Combined(lc, yum, side, r) && v.updates == BootcRule(sys, r))
  }

  lemma {:induction false} YumUpdatesShape(us: seq<Update>, v: Update)
    requires v in YumUpdates(us)
    ensures v.status == Installable && Parses(v)
  {
    hide Show, ShowEvra;
    if Parses(us[0]) && v == YumUpdate(us[0]) {
      var n := Parse(GetPackage(us[0])).value;
      ParseAcceptsExactlyPrints(GetPackage(us[0]), n);
      YumPackage(us[0], n);
      RoundTrip(n, true);
    } else {
      YumUpdatesShape(us[1..], v);
    }
  }

  lemma YumPackage(u: Update, n: Nevra)
    requires Parse(GetPackage(u)) == Some(n) && WellFormed(n)
    ensures GetPackage(YumUpdate(u)) == Show(n, true)
  {
    hide Parse;
    assert ShowEvra(n, true) != "";
    assert n.name + "-" + ShowEvra(n, true) == Show(n, true);
  }

  /** What yum's report holds: the readable updates, named after their package, with epoch, and installable. */
  lemma {:induction false} YumListed(us: seq<Update>, v: Update)
    ensures v in YumUpdates(us) <==>
            exists u, n :: u in us && Parse(GetPackage(u)) == Some(n)
              && v.repository == u.repository && v.releasever == u.releasever && v.basearch == u.basearch
              && v.erratum == u.erratum && v.package == u.package && v.status == Installable && v.packageName == n.name
              && v.evra == IntText(n.epoch) + ":" + n.version + "-" + n.release + "." + n.arch
  {
    hide Parse, GetPackage, IntText;
    if us != [] {
      assert us == [us[0]] + us[1..];
      YumListed(us[1..], v);
    }
  }

  /** A readable report keeps its updates one by one, in order. */
  lemma {:induction false} YumKeepsOrder(us: seq<Update>, i: nat)
    requires AllParse(us) && i < |us|
    ensures |YumUpdates(us)| == |us| && YumUpdates(us)[i].erratum == us[i].erratum
    ensures YumUpdates(us)[i].package == us[i].package
  {
    hide Parse;
    assert Parses(us[0]) by { assert us[0] in us; }
    if |us| > 1 { YumKeepsOrder(us[1..], if i == 0 then 0 else i - 1); }
  }

  lemma YumContentIsInstallable(c: Content)
    ensures AllStatus(YumContent(c), Installable)
  {
    forall v | v in AllUpdates(YumContent(c)) ensures v.status == Installable {
      var k :| k in c && v in YumUpdates(c[k]);
      YumUpdatesShape(c[k], v);
    }
  }

  /** Yum reports a readable update for the erratum under a package key of c. */
  ghost predicate YumLists(cfg: Config, raw: Option<Content>, c: Content, e: string)
  {
    && cfg.yumEval && raw.Some?
    && exists k, u :: k in c && k in raw.value && u in raw.value[k] && Parse(GetPackage(u)).Some? && u.erratum == e
  }

  /** VMaaS delivered an update for the erratum under a package key of c, with one of the given statuses. */
  ghost predicate VmaasLists(got: Fetch, c: Content, e: string, statuses: set<Status>)
  {
    && got.Answer? && got.list.Some?
    && exists k, u :: k in c && k in got.list.value && u in got.list.value[k] && u.erratum == e && u.status in statuses
  }

  /**
   End to end, for every system, report and answer that lead to an evaluation with updates c. Which errata
   are reported: those that yum or VMaaS list under a surviving package key, under template evaluation
   those of VMaaS. And which of them are installable: under template evaluation those that the template
   lists; otherwise none for an image-mode system; otherwise, when Satellite or a template manages the
   system, those that yum lists; and for all other systems also those that VMaaS delivered installable.
   */
  lemma InstallabilityEndToEnd(lc: LabelOrder, cfg: Config, sys: System, errata: set<string>,
                               raw: Option<Content>, got: Fetch, c: Content, e: string)
    requires MayReach(lc, cfg, sys, errata, raw, got, Evaluate(Some(c)))
    ensures var template := cfg.templateEval && sys.templated && !sys.satelliteManaged;
            e in Reported(c) <==>
              e != "" && ((!template && YumLists(cfg, raw, c, e)) || VmaasLists(got, c, e, {Installable, Applicable}))
    ensures var template := cfg.templateEval && sys.templated && !sys.satelliteManaged;
            e in Reported(c) ==>
              (Reported(c)[e] == Installable <==>
               if template then e in errata
               else if sys.bootc then false
               else if sys.satelliteManaged || sys.templated then YumLists(cfg, raw, c, e)
               else YumLists(cfg, raw, c, e) || VmaasLists(got, c, e, {Installable}))
  {
    if UsesTemplateEval(cfg, sys) {
      TemplateCase(got, errata, c, e);
    } else {
      hide VmaasLists, YumLists, VmaasSide, YumReport;
      var yum, side := YumReport(cfg, raw), VmaasSide(sys, got);
      var r :| Combined(lc, yum, side, r) && Some(c) == BootcRule(sys, r);
      hide Combined, Reported;
      MergedReport(lc, cfg, sys, raw, got, r.value, e);
      if sys.bootc {
        RewrittenStatus(r.value, Applicable);
        RewrittenErrata(r.value, Applicable, e);
        if e in Reported(c) { NothingInstallable(c, e); }
        SameKeysList(cfg, raw, got, r.value, c, e);
      }
    }
  }

  /** Which evaluations fail and which skip the system: no other verdict is open then. */
  lemma VerdictIs(lc: LabelOrder, cfg: Config, sys: System, errata: set<string>, raw: Option<Content>, got: Fetch,
                  v: Verdict)
    requires MayReach(lc, cfg, sys, errata, raw, got, v)
    ensures var template := cfg.templateEval && sys.templated && !sys.satelliteManaged;
            var yum := !template && cfg.yumEval && raw.Some? && raw.value != map[];
            && (v == Fail <==> got == Failed && !yum)
            && (v == Evaluate(None) <==> got == BadRequest || (got == NoRequest && !yum))
  {
    hide MergeHangs, Filtered, YumContent, AllWithStatus, WithTemplate;
  }

  /** Which evaluations fail, which skip the system, and that each reaches some verdict. */
  lemma VerdictsReached(lc: LabelOrder, cfg: Config, sys: System, errata: set<string>, raw: Option<Content>, got: Fetch)
    ensures var template := cfg.templateEval && sys.templated && !sys.satelliteManaged;
            var yum := !template && cfg.yumEval && raw.Some? && raw.value != map[];
            && (MayReach(lc, cfg, sys, errata, raw, got, Fail) <==> got == Failed && !yum)
            && (MayReach(lc, cfg, sys, errata, raw, got, Evaluate(None)) <==>
                got == BadRequest || (got == NoRequest && !yum))
    ensures exists v :: MayReach(lc, cfg, sys, errata, raw, got, v)
  {
    hide MergeHangs, Filtered, YumContent, AllWithStatus, WithTemplate;
    var yum, side := YumReport(cfg, raw), VmaasSide(sys, got);
    if UsesTemplateEval(cfg, sys) {
      var v := match got
        case Answer(list) => Evaluate(if list.Some? then Some(WithTemplate(list.value, errata)) else Some(map[]))
        case Failed => Fail
        case _ => Evaluate(None);
      assert MayReach(lc, cfg, sys, errata, raw, got, v);
    } else if got == BadRequest {
      assert MayReach(lc, cfg, sys, errata, raw, got, Evaluate(None));
    } else if got == Failed && yum.None? {
      assert MayReach(lc, cfg, sys, errata, raw, got, Fail);
    } else if yum.Some? && side.Some? && MergeHangs(lc, yum.value, side.value) {
      assert MayReach(lc, cfg, sys, errata, raw, got, Hang);
    } else {
      var r := SomeCombination(lc, yum, side);
      assert MayReach(lc, cfg, sys, errata, raw, got, Evaluate(BootcRule(sys, r)));
    }
  }

  lemma SomeCombination(lc: LabelOrder, a: Option<Content>, b: Option<Content>) returns (r: Option<Content>)
    requires a.Some? && b.Some? ==> !MergeHangs(lc, a.value, b.value)
    ensures Combined(lc, a, b, r)
  {
    hide MergeHangs, MergeContents, Survivors;
    if a.None? {
      r := b;
    } else if b.None? {
      r := a;
    } else {
      var before := MergeContents(lc, a.value, b.value);
      var order := SomeOrder(before.Keys);
      r := Some(map k | k in before && k in Survivors(PackageReader(lc), order) :: before[k]);
    }
  }

  /** When VMaaS delivers everything installable, so is every erratum of a system that nothing else manages. */
  lemma AllInstallable(lc: LabelOrder, cfg: Config, sys: System, errata: set<string>,
                       raw: Option<Content>, list: Content, c: Content, e: string)
    requires MayReach(lc, cfg, sys, errata, raw, Answer(Some(list)), Evaluate(Some(c)))
    requires !sys.satelliteManaged && !sys.templated && !sys.bootc
    requires forall k, u :: k in list && u in list[k] ==> u.status == Installable
    requires e in Reported(c)
    ensures Reported(c)[e] == Installable
  {
    hide MayReach, Reported;
    InstallabilityEndToEnd(lc, cfg, sys, errata, raw, Answer(Some(list)), c, e);
  }

  /** Before the rule for image-mode systems. */
  lemma MergedReport(lc: LabelOrder, cfg: Config, sys: System, raw: Option<Content>, got: Fetch, r: Content, e: string)
    requires Combined(lc, YumReport(cfg, raw), VmaasSide(sys, got), Some(r))
    ensures e in Reported(r) <==>
            e != "" && (YumLists(cfg, raw, r, e) || VmaasLists(got, r, e, {Installable, Applicable}))
    ensures e in Reported(r) ==>
              (Reported(r)[e] == Installable <==>
               || YumLists(cfg, raw, r, e)
               || (!sys.satelliteManaged && !sys.templated && VmaasLists(got, r, e, {Installable})))
  {
    var yum, side := YumReport(cfg, raw), VmaasSide(sys, got);
    YumSide(cfg, raw, r, e);
    AnswerSide(sys, got, r, e);
    if raw.Some? { YumContentIsInstallable(raw.value); }
    hide Reported, Combined, YumLists, VmaasLists, VmaasSide, YumReport, Carries;
    EitherCarries(lc, yum, side, r, e);
  }

  /** An update of c for the erratum, with one of the given statuses, under a package key of r. */
  ghost predicate Carries(c: Option<Content>, r: Content, e: string, statuses: set<Status>)
  {
    c.Some? && exists k, u :: k in r && k in c.value && u in c.value[k] && u.erratum == e && u.status in statuses
  }

  lemma YumSide(cfg: Config, raw: Option<Content>, r: Content, e: string)
    ensures Carries(YumReport(cfg, raw), r, e, {Installable, Applicable}) <==> YumLists(cfg, raw, r, e)
    ensures YumReport(cfg, raw).Some? ==> AllStatus(YumReport(cfg, raw).value, Installable)
  {
    hide Parse, GetPackage, YumUpdates;
    var yum := YumReport(cfg, raw);
    if yum.Some? {
      YumContentIsInstallable(raw.value);
      if k, v :| k in r && k in yum.value && v in yum.value[k] && v.erratum == e {
        YumListed(raw.value[k], v);
        var u :| u in raw.value[k] && Parse(GetPackage(u)).Some? && v.erratum == u.erratum;
        assert YumLists(cfg, raw, r, e);
      }
      if k, u :| k in r && k in raw.value && u in raw.value[k] && Parse(GetPackage(u)).Some? && u.erratum == e {
        YumListed(raw.value[k], YumUpdate(u));
        assert YumUpdate(u) in yum.value[k];
      }
    }
  }

  lemma AnswerSide(sys: System, got: Fetch, r: Content, e: string)
    ensures Carries(VmaasSide(sys, got), r, e, {Installable, Applicable})
       <==> VmaasLists(got, r, e, {Installable, Applicable})
    ensures Carries(VmaasSide(sys, got), r, e, {Installable})
       <==> !sys.satelliteManaged && !sys.templated && VmaasLists(got, r, e, {Installable})
  {
    if got.Answer? && got.list.Some? && (sys.satelliteManaged || sys.templated) {
      hide AllWithStatus;
      RewrittenCarries(got.list.value, r, e);
    }
  }

  lemma RewrittenCarries(c: Content, r: Content, e: string)
    ensures Carries(Some(AllWithStatus(c, Applicable)), r, e, {Installable, Applicable})
       <==> Carries(Some(c), r, e, {Installable, Applicable})
    ensures !Carries(Some(AllWithStatus(c, Applicable)), r, e, {Installable})
  {
    var c' := AllWithStatus(c, Applicable);
    forall k, v: Update | k in r && k in c' && v in c'[k] && v.erratum == e
      ensures v.status == Applicable && Carries(Some(c), r, e, {Installable, Applicable}) {
      var i :| 0 <= i < |c'[k]| && c'[k][i] == v;
      EitherStatus(c[k][i].status);
      assert c[k][i] in c[k];
    }
    forall k, u: Update | k in r && k in c && u in c[k] && u.erratum == e
      ensures Carries(Some(c'), r, e, {Installable, Applicable}) {
      var i :| 0 <= i < |c[k]| && c[k][i] == u;
      assert c'[k][i] in c'[k];
    }
  }

  lemma EitherStatus(status: Status)
    ensures status in {Installable, Applicable}
  {
  }

  /** An erratum of a combined report comes from either side, and is installable if an installable update of it does. */
  lemma EitherCarries(lc: LabelOrder, yum: Option<Content>, side: Option<Content>, r: Content, e: string)
    requires Combined(lc, yum, side, Some(r)) && (yum.Some? ==> AllStatus(yum.value, Installable))
    ensures e in Reported(r) <==>
            && e != ""
            && (Carries(yum, r, e, {Installable, Applicable}) || Carries(side, r, e, {Installable, Applicable}))
    ensures e in Reported(r) ==>
              (Reported(r)[e] == Installable <==>
               Carries(yum, r, e, {Installable, Applicable}) || Carries(side, r, e, {Installable}))
  {
    hide Combined, Parse, GetPackage;
    if e in Reported(r) {
      var u :| u in AllUpdates(r) && u.erratum == e
          && (CarriesInstallable(AllUpdates(r), e) ==> u.status == Installable);
      var k :| k in r && u in r[k];
      FromEither(lc, yum, side, r, k, u);
    }
    forall k, u: Update | k in r && u.erratum == e && e != "" && yum.Some? && k in yum.value && u in yum.value[k]
      ensures e in Reported(r) && Reported(r)[e] == Installable {
      FromEither(lc, yum, side, r, k, u);
      assert u in AllUpdates(yum.value) && u in AllUpdates(r);
      assert CarriesInstallable(AllUpdates(r), e);
    }
    forall k, u: Update | k in r && u.erratum == e && e != "" && side.Some? && k in side.value && u in side.value[k]
      ensures e in Reported(r) && (u.status == Installable ==> Reported(r)[e] == Installable) {
      FromEither(lc, yum, side, r, k, u);
      if u in r[k] {
        assert u in AllUpdates(r);
        assert u.status == Installable ==> CarriesInstallable(AllUpdates(r), e);
      }
    }
  }

  lemma FromEither(lc: LabelOrder, yum: Option<Content>, side: Option<Content>, r: Content, k: string, u: Update)
    requires Combined(lc, yum, side, Some(r)) && k in r
    ensures yum.Some? && k in yum.value && u in yum.value[k] ==> u in r[k]
    ensures u in r[k] ==>
              || (yum.Some? && k in yum.value && u in yum.value[k])
              || (side.Some? && k in side.value && u in side.value[k])
    ensures side.Some? && k in side.value && u in side.value[k] ==>
              u in r[k] || exists v :: yum.Some? && k in yum.value && v in yum.value[k] && v.erratum == u.erratum
  {
    if yum.Some? && side.Some? {
      CombinedList(lc, yum.value, side.value, r, k, u);
    }
  }

  lemma RewrittenErrata(c: Content, status: Status, e: string)
    ensures AllWithStatus(c, status).Keys == c.Keys
    ensures e in Reported(AllWithStatus(c, status)) <==> e in Reported(c)
  {
    var c' := AllWithStatus(c, status);
    forall k, u | k in c && u in c[k] ensures u.(status := status) in AllUpdates(c') {
      var i :| 0 <= i < |c[k]| && c[k][i] == u;
      assert c'[k][i] == u.(status := status) && c'[k][i] in c'[k];
    }
    forall k, v: Update | k in c' && v in c'[k] ensures exists u :: u in AllUpdates(c) && u.erratum == v.erratum {
      var i :| 0 <= i < |c'[k]| && c'[k][i] == v;
      assert c[k][i] in c[k] && c[k][i] in AllUpdates(c);
    }
  }

  lemma SameKeysList(cfg: Config, raw: Option<Content>, got: Fetch, r: Content, c: Content, e: string)
    requires r.Keys == c.Keys
    ensures YumLists(cfg, raw, r, e) <==> YumLists(cfg, raw, c, e)
    ensures VmaasLists(got, r, e, {Installable, Applicable}) <==> VmaasLists(got, c, e, {Installable, Applicable})
  {
    hide Parse, GetPackage;
    assert forall k :: k in r <==> k in c;
  }

  lemma TemplateCase(got: Fetch, errata: set<string>, c: Content, e: string)
    requires got.Answer? && c == if got.list.Some? then WithTemplate(got.list.value, errata) else map[]
    ensures e in Reported(c) <==> e != "" && VmaasLists(got, c, e, {Installable, Applicable})
    ensures e in Reported(c) ==> (Reported(c)[e] == Installable <==> e in errata)
  {
    if got.list.Some? {
      ReportedErrata(got.list.value, e);
      assert c.Keys == got.list.value.Keys;
      assert VmaasLists(got, c, e, {Installable, Applicable}) <==>
             VmaasLists(got, got.list.value, e, {Installable, Applicable})
        by { assert forall k :: k in c <==> k in got.list.value; }
      hide WithTemplate, Reported;
      InstallableIffInTemplate(got.list.value, errata, e);
    }
  }

  lemma ReportedErrata(c: Content, e: string)
    ensures e in Reported(c) <==> e != "" && VmaasLists(Answer(Some(c)), c, e, {Installable, Applicable})
  {
    if e in Reported(c) {
      var u :| u in AllUpdates(c) && u.erratum == e;
      EitherStatus(u.status);
    }
    forall k, u: Update | k in c && u in c[k] && u.erratum == e ensures u in AllUpdates(c) { }
  }

  // ----- evaluations that never end

  /** VMaaS lists something unreadable under the key, and yum's list is not used up when the merge gets there. */
  ghost predicate BlocksAt(lc: LabelOrder, yum: Content, side: Content, k: string)
  {
    k in yum && k in side && Blocks(Parses, ListOrder(lc), side[k], yum[k])
  }

  lemma YumParses(cfg: Config, raw: Option<Content>, k: string)
    requires YumReport(cfg, raw).Some? && k in YumReport(cfg, raw).value
    ensures AllParse(YumReport(cfg, raw).value[k])
  {
    hide Parses, YumUpdate;
    forall u | u in YumReport(cfg, raw).value[k] ensures Parses(u) {
      YumUpdatesShape(raw.value[k], u);
    }
  }

  lemma HangsAtKeyIff(lc: LabelOrder, yum: Content, side: Content, k: string)
    requires k in yum && k in side && AllParse(yum[k])
    ensures MergeOutcome(lc, yum[k], side[k]).Stuck? <==> BlocksAt(lc, yum, side, k)
  {
    hide Parses, ListOrder, AllParse, MergeOutcome, Blocks;
    SecondListBlocksIff(lc, yum[k], side[k]);
  }

  /**
   When the evaluation of a system never ends: yum's report and an answer of VMaaS are merged, and under
   a key that both have VMaaS lists a package that cannot be parsed and that the merge reaches before
   yum's updates are used up. The lists need not be in order; yum's own unreadable packages never matter.
   */
  lemma HangsIff(lc: LabelOrder, cfg: Config, sys: System, errata: set<string>, raw: Option<Content>, got: Fetch)
    ensures var yum, side := YumReport(cfg, raw), VmaasSide(sys, got);
            MayReach(lc, cfg, sys, errata, raw, got, Hang)
            <==> && !UsesTemplateEval(cfg, sys) && yum.Some? && side.Some?
                 && exists k :: BlocksAt(lc, yum.value, side.value, k)
  {
    hide MergeOutcome, BlocksAt, YumReport, Combined, AllParse;
    var yum, side := YumReport(cfg, raw), VmaasSide(sys, got);
    if yum.Some? && side.Some? {
      forall k | k in yum.value && k in side.value
        ensures MergeOutcome(lc, yum.value[k], side.value[k]).Stuck? <==> BlocksAt(lc, yum.value, side.value, k) {
        YumParses(cfg, raw, k);
        HangsAtKeyIff(lc, yum.value, side.value, k);
      }
      forall k | BlocksAt(lc, yum.value, side.value, k) ensures k in yum.value && k in side.value {
        BlocksAtBoth(lc, yum.value, side.value, k);
      }
    }
  }

  lemma BlocksAtBoth(lc: LabelOrder, yum: Content, side: Content, k: string)
    requires BlocksAt(lc, yum, side, k)
    ensures k in yum && k in side
  {
  }

  /** Whatever the order of the lists, an answer of VMaaS whose packages all parse never hangs an evaluation. */
  lemma ReadableAnswersEnd(lc: LabelOrder, cfg: Config, sys: System, errata: set<string>, raw: Option<Content>,
                           got: Fetch)
    requires got.Answer? && got.list.Some? ==> forall k :: k in got.list.value ==> AllParse(got.list.value[k])
    ensures !MayReach(lc, cfg, sys, errata, raw, got, Hang)
  {
    hide MergeOutcome, YumReport, Combined, AllParse;
    var yum, side := YumReport(cfg, raw), VmaasSide(sys, got);
    if yum.Some? && side.Some? {
      forall k | k in yum.value && k in side.value ensures MergeOutcome(lc, yum.value[k], side.value[k]).Merged? {
        YumParses(cfg, raw, k);
        SideParses(sys, got, k);
        ReadableListsMerge(lc, yum.value[k], side.value[k]);
      }
    }
  }

  lemma SideParses(sys: System, got: Fetch, k: string)
    requires VmaasSide(sys, got).Some? && k in VmaasSide(sys, got).value
    requires got.Answer? && got.list.Some? ==> forall j :: j in got.list.value ==> AllParse(got.list.value[j])
    ensures AllParse(VmaasSide(sys, got).value[k])
  {
    hide Parses;
    var us := got.list.value[k];
    if sys.satelliteManaged || sys.templated {
      var r := WithStatus(us, Applicable);
      forall i | 0 <= i < |r| ensures Parses(r[i]) {
        assert us[i] in us;
        StatusKeepsReading(us[i], Applicable);
      }
    }
  }

  lemma StatusKeepsReading(u: Update, status: Status)
    ensures Parses(u.(status := status)) <==> Parses(u)
  {
    assert GetPackage(u.(status := status)) == GetPackage(u);
    hide Parse;
  }

  const BASH := Nevra("bash", 0, "5", "1", "x86_64")

  function NamedOnly(package: string): Update { Update("", "", "", "", package, "", "", Installable) }

  /** It happens: yum and VMaaS each list one update for bash, and VMaaS names its package just "x". */
  lemma EvaluationHangs(lc: LabelOrder)
    ensures var key := Show(BASH, true);
            MayReach(lc, Config(false, true), System(false, false, false), {}, Some(map[key := [NamedOnly(key)]]),
                     Answer(Some(map[key := [NamedOnly("x")]])), Hang)
  {
    hide Parse, Show, MergeOutcome;
    var key, cfg := Show(BASH, true), Config(false, true);
    var raw, list: Content := map[key := [NamedOnly(key)]], map[key := [NamedOnly("x")]];
    BashParses();
    YumOfOne(NamedOnly(key));
    assert key in raw;
    assert YumReport(cfg, Some(raw)) == Some(YumContent(raw));
    assert key in YumContent(raw) && YumContent(raw)[key] == [YumUpdate(NamedOnly(key))];
    FrontHangs(lc, YumContent(raw)[key], list[key]);
    assert MergeHangs(lc, YumContent(raw), list);
  }

  lemma BashParses()
    ensures Parses(NamedOnly(Show(BASH, true)))
  {
    assert WellFormed(BASH);
    RoundTrip(BASH, true);
    assert GetPackage(NamedOnly(Show(BASH, true))) == Show(BASH, true);
    hide Parse, Show;
  }

  lemma YumOfOne(u: Update)
    requires Parses(u)
    ensures YumUpdates([u]) == [YumUpdate(u)]
  {
    hide Parses, YumUpdate;
    assert [u][1..] == [];
  }

  lemma FrontHangs(lc: LabelOrder, a: seq<Update>, b: seq<Update>)
    requires a != [] && b == [NamedOnly("x")]
    ensures MergeOutcome(lc, a, b).Stuck?
  {
    NameAloneDoesNotParse();
    assert GetPackage(b[0]) == "x";
    hide Parse;
  }
}
