/**
 Diffing and storing a system's packages (evaluator/evaluate_packages.go).
 */
module SystemPackages {
  import opened Sets
  import opened Wrappers
  import opened Text
  import opened Vmaas
  import opened LatestUpdates
  import A = AdvisoryChanges
  import Rpm
  import C = PackageCache

  datatype NamedPackage = NamedPackage(
    nameId: int, packageId: int, installableId: Option<int>, applicableId: Option<int>, change: A.Change)
  type Packages = map<string, NamedPackage>

  /** The rows of one system, by package ID. */
  datatype PackageRow = PackageRow(nameId: int, installableId: Option<int>, applicableId: Option<int>)
  type Rows = map<int, PackageRow>

  /** Reported packages and their available updates. */
  type Report = map<string, seq<Update>>

  // ----- what is reported

  predicate Phantom(nevra: string) { |nevra| >= 10 && nevra[..10] == "gpg-pubkey" }

  /** The known package a reported string stands for. */
  ghost function Resolved(db: C.Table, nevra: string): Option<C.Package>
  {
    if Phantom(nevra) then None else C.RowByNevra(db, nevra)
  }

  ghost function FreshPackage(db: C.Table, p: C.Package, updates: seq<Update>): NamedPackage
  {
    NamedPackage(p.nameId, p.id, LatestId(db, updates, Installable), LatestId(db, updates, Applicable), A.Add)
  }

  ghost function Fresh(db: C.Table, report: Report): Packages
  {
    map k | k in report && Resolved(db, k).Some? :: FreshPackage(db, Resolved(db, k).value, report[k])
  }

  predicate HasInstallable(p: NamedPackage) { p.installableId.Some? }

  predicate HasUpdate(p: NamedPackage) { p.installableId.Some? || p.applicableId.Some? }

  function Having(packages: Packages, f: NamedPackage -> bool): set<string>
  {
    set k | k in packages && f(packages[k])
  }

  lemma OneMore(packages: Packages, k: string, p: NamedPackage, f: NamedPackage -> bool)
    requires k !in packages
    ensures |Having(packages[k := p], f)| == |Having(packages, f)| + if f(p) then 1 else 0
  {
    assert Having(packages[k := p], f) == Having(packages, f) + if f(p) then {k} else {};
  }

  lemma OneMoreEntry(packages: Packages, k: string, p: NamedPackage)
    requires k !in packages
    ensures |packages[k := p]| == |packages| + 1
  {
    assert packages[k := p].Keys == packages.Keys + {k};
  }

  /** The three counters against the packages found so far. */
  ghost predicate Counted(packages: Packages, installed: int, installable: int, applicable: int)
  {
    installed == |packages| && installable == |Having(packages, HasInstallable)|
        && applicable == |Having(packages, HasUpdate)|
  }

  lemma NothingCounted()
    ensures Counted(map[], 0, 0, 0)
  {
    assert Having(map[], HasInstallable) == {} && Having(map[], HasUpdate) == {};
  }

  lemma CountOne(packages: Packages, installed: int, installable: int, applicable: int, k: string, p: NamedPackage)
    requires Counted(packages, installed, installable, applicable) && k !in packages
    ensures Counted(packages[k := p], installed + 1, installable + if HasInstallable(p) then 1 else 0,
                    applicable + if HasUpdate(p) then 1 else 0)
  {
    hide Having;
    OneMoreEntry(packages, k, p);
    OneMore(packages, k, p, HasInstallable);
    OneMore(packages, k, p, HasUpdate);
  }

  /** 0 <= installable <= applicable <= installed. */
  lemma CountsAreOrdered(packages: Packages, installed: int, installable: int, applicable: int)
    requires Counted(packages, installed, installable, applicable)
    ensures 0 <= installable <= applicable <= installed
  {
    SubsetSize(Having(packages, HasInstallable), Having(packages, HasUpdate));
    SubsetSize(Having(packages, HasUpdate), packages.Keys);
  }

  lemma CountedAll(packages: Packages, installed: int, installable: int, applicable: int)
    requires Counted(packages, installed, installable, applicable)
    ensures installed == |packages|
  {
  }

  /** The packages found once only `rest` is left to look at. */
  ghost predicate FoundBut(db: C.Table, report: Report, rest: set<string>, packages: Packages)
  {
    && packages.Keys == Fresh(db, report).Keys - rest
    && forall k :: k in packages ==> packages[k] == Fresh(db, report)[k]
  }

  lemma FoundOne(db: C.Table, report: Report, rest: set<string>, packages: Packages, k: string)
    requires FoundBut(db, report, rest, packages) && k in rest && k in report
    ensures k !in packages
    ensures Resolved(db, k).None? ==> FoundBut(db, report, rest - {k}, packages)
    ensures Resolved(db, k).Some? ==>
              FoundBut(db, report, rest - {k}, packages[k := FreshPackage(db, Resolved(db, k).value, report[k])])
  {
    hide Resolved, FreshPackage;
  }

  lemma FoundAll(db: C.Table, report: Report, packages: Packages)
    ensures FoundBut(db, report, report.Keys, map[])
    ensures FoundBut(db, report, {}, packages) ==> packages == Fresh(db, report)
  {
    hide Resolved, FreshPackage;
    assert Fresh(db, report).Keys - report.Keys == {};
  }

  /** packagesFromUpdateList, over the reported packages in any order. */
  method PackagesFromUpdateList(cache: C.Cache, db: C.Table, report: Report)
    returns (packages: Packages, installed: int, installable: int, applicable: int)
    requires C.TableOk(db) && cache.Valid(db)
    modifies cache
    ensures cache.Valid(db) && packages == Fresh(db, report)
    ensures Counted(packages, installed, installable, applicable)
  {
    hide C.TableOk, C.Cache.Valid, C.RowByNevra, LatestId, Counted, FoundBut, Fresh, FreshPackage, Resolved,
         HasInstallable, HasUpdate;
    packages, installed, installable, applicable := map[], 0, 0, 0;
    var rest := report.Keys;
    NothingCounted();
    FoundAll(db, report, packages);
    while rest != {}
      invariant cache.Valid(db) && rest <= report.Keys && FoundBut(db, report, rest, packages)
      invariant Counted(packages, installed, installable, applicable)
    {
      var nevra :| nevra in rest;
      FoundOne(db, report, rest, packages, nevra);
      rest := rest - {nevra};
      var valid := IsValidNevra(cache, db, nevra);
      if valid {
        var p := ReportedPackage(cache, db, nevra, report[nevra]);
        CountOne(packages, installed, installable, applicable, nevra, p);
        packages := packages[nevra := p];
        installed := installed + 1;
        if HasInstallable(p) {
          installable := installable + 1;
        }
        if HasUpdate(p) {
          applicable := applicable + 1;
        }
      }
    }
    FoundAll(db, report, packages);
  }

  /** The entry of one valid package; the second lookup finds what the first one found. */
  method ReportedPackage(cache: C.Cache, db: C.Table, nevra: string, updates: seq<Update>)
    returns (p: NamedPackage)
    requires C.TableOk(db) && cache.Valid(db) && Resolved(db, nevra).Some?
    modifies cache
    ensures cache.Valid(db) && p == FreshPackage(db, Resolved(db, nevra).value, updates)
  {
    hide C.TableOk, C.Cache.Valid, C.RowByNevra, LatestId;
    var pkgMeta := cache.GetByNevra(db, nevra);
    var installableId, applicableId := LatestPackagesFromUpdatesList(cache, db, updates);
    p := NamedPackage(pkgMeta.value.nameId, pkgMeta.value.id, installableId, applicableId, A.Add);
  }

  method IsValidNevra(cache: C.Cache, db: C.Table, nevra: string) returns (valid: bool)
    requires C.TableOk(db) && cache.Valid(db)
    modifies cache
    ensures cache.Valid(db) && (valid <==> Resolved(db, nevra).Some?)
  {
    hide C.TableOk, C.Cache.Valid, C.RowByNevra;
    if Phantom(nevra) {
      return false;
    }
    var p := cache.GetByNevra(db, nevra);
    valid := p.Some?;
  }

  // ----- the difference to what is stored

  predicate LatestPkgsChanged(current: NamedPackage, stored: PackageRow)
  {
    current.installableId != stored.installableId || current.applicableId != stored.applicableId
  }

  ghost function StoredKey(db: C.Table, id: int): string
    requires id in db
  {
    C.Key(db[id])
  }

  /** The entry of a stored row's key once the row has been seen. */
  function Diffed(reported: Packages, k: string, id: int, stored: PackageRow): NamedPackage
  {
    if k in reported then
      reported[k].(change := if LatestPkgsChanged(reported[k], stored) then A.Change.Update else A.Keep)
    else NamedPackage(stored.nameId, id, stored.installableId, stored.applicableId, A.Remove)
  }

  /** The packages after the stored rows `seen` have been compared. */
  ghost predicate Compared(db: C.Table, reported: Packages, rows: Rows, seen: set<int>, packages: Packages)
    requires seen <= rows.Keys && seen <= db.Keys
  {
    && (forall k :: k in reported ==> k in packages)
    && (forall id :: id in seen ==>
          StoredKey(db, id) in packages
              && packages[StoredKey(db, id)] == Diffed(reported, StoredKey(db, id), id, rows[id]))
    && (forall k :: k in packages ==>
        (exists id :: id in seen && StoredKey(db, id) == k) || (k in reported && packages[k] == reported[k]))
  }

  lemma KeysDiffer(db: C.Table, i: int, j: int)
    requires C.TableOk(db) && i in db && j in db && StoredKey(db, i) == StoredKey(db, j)
    ensures i == j
  {
    hide C.Key, C.RowByNevra, C.Canonical;
    C.OneRow(db, db[i]);
    C.OneRow(db, db[j]);
  }

  lemma CompareOne(db: C.Table, reported: Packages, rows: Rows, seen: set<int>, packages: Packages, id: int)
    requires C.TableOk(db) && seen <= rows.Keys && seen <= db.Keys && Compared(db, reported, rows, seen, packages)
    requires id in rows && id in db && id !in seen
    ensures var k := StoredKey(db, id);
            && (k in packages <==> k in reported) && (k in reported ==> packages[k] == reported[k])
            && Compared(db, reported, rows, seen + {id}, packages[k := Diffed(reported, k, id, rows[id])])
  {
    hide C.Key, C.TableOk, Diffed, StoredKey;
    var k := StoredKey(db, id);
    forall j | j in seen ensures StoredKey(db, j) != k {
      if StoredKey(db, j) == k { KeysDiffer(db, j, id); }
    }
  }

  /** loadSystemNEVRAsFromDB, over the stored rows in any order; it fails when a stored package is unknown. */
  method LoadSystemNevras(cache: C.Cache, db: C.Table, rows: Rows, reported: Packages)
    returns (ok: bool, packages: Packages)
    requires C.TableOk(db) && cache.Valid(db)
    modifies cache
    ensures cache.Valid(db) && (ok <==> rows.Keys <= db.Keys)
    ensures ok ==> Compared(db, reported, rows, rows.Keys, packages)
  {
    hide C.TableOk, C.Cache.Valid, C.Key;
    packages := reported;
    var rest := rows.Keys;
    assert Compared(db, reported, rows, {}, packages);
    assert rows.Keys - rest == {};
    while rest != {}
      invariant cache.Valid(db) && rest <= rows.Keys && rows.Keys - rest <= db.Keys
      invariant Compared(db, reported, rows, rows.Keys - rest, packages)
    {
      hide Compared;
      SomeElement(rest);
      var id :| id in rest;
      var columns := rows[id];
      var pkgCache := cache.GetByID(db, id);
      if pkgCache.None? {
        return false, packages;
      }
      CompareOne(db, reported, rows, rows.Keys - rest, packages, id);
      var nevra := C.Key(pkgCache.value);
      if nevra in packages {
        var p := packages[nevra];
        packages := packages[nevra := p.(change := if LatestPkgsChanged(p, columns) then A.Change.Update else A.Keep)];
      } else {
        packages := packages[nevra :=
                             NamedPackage(columns.nameId, id, columns.installableId, columns.applicableId, A.Remove)];
      }
      assert rows.Keys - (rest - {id}) == (rows.Keys - rest) + {id};
      rest := rest - {id};
    }
    ok := true;
    assert rows.Keys - {} == rows.Keys;
  }

  // ----- storing

  datatype SystemPackage = SystemPackage(packageId: int, row: PackageRow)

  function CreateSystemPackage(p: NamedPackage): SystemPackage
  {
    SystemPackage(p.packageId, PackageRow(p.nameId, p.installableId, p.applicableId))
  }

  predicate Writes(p: NamedPackage) { p.change == A.Add || p.change == A.Change.Update }

  ghost predicate Writer(packages: Packages, k: string, id: int)
  {
    k in packages && packages[k].packageId == id && Writes(packages[k])
  }

  ghost predicate Remover(packages: Packages, k: string, id: int)
  {
    k in packages && packages[k].packageId == id && packages[k].change == A.Remove
  }

  /** The string that decides the row of a package when several write it: the smallest. */
  ghost predicate FirstWriter(packages: Packages, k: string, id: int)
  {
    Writer(packages, k, id) && forall j :: Writer(packages, j, id) ==> Compare(k, j) <= 0
  }

  /** sp is what the smallest string that writes its package calls for. */
  ghost predicate WrittenFirst(packages: Packages, k: string, sp: SystemPackage)
  {
    FirstWriter(packages, k, sp.packageId) && sp == CreateSystemPackage(packages[k])
  }

  /** Inserting adds a row; on conflict the update IDs are replaced and the name ID stays. */
  function UpsertOne(rows: Rows, sp: SystemPackage): Rows
  {
    rows[sp.packageId := if sp.packageId in rows then sp.row.(nameId := rows[sp.packageId].nameId) else sp.row]
  }

  function UpsertAll(rows: Rows, sps: seq<SystemPackage>): Rows
  {
    if sps == [] then rows else UpsertOne(UpsertAll(rows, sps[..|sps| - 1]), sps[|sps| - 1])
  }

  ghost predicate OnePerPackage(sps: seq<SystemPackage>)
  {
    forall i, j :: 0 <= i < j < |sps| ==> sps[i].packageId != sps[j].packageId
  }

  lemma {:induction false} UpsertedAt(rows: Rows, sps: seq<SystemPackage>, id: int)
    requires OnePerPackage(sps)
    ensures (forall sp :: sp in sps ==> sp.packageId != id) ==>
              (id in UpsertAll(rows, sps) <==> id in rows) && (id in rows ==> UpsertAll(rows, sps)[id] == rows[id])
    ensures forall sp :: sp in sps && sp.packageId == id ==>
              && id in UpsertAll(rows, sps)
              && UpsertAll(rows, sps)[id] == UpsertOne(rows, sp)[id]
  {
    if sps != [] {
      var init, last := sps[..|sps| - 1], sps[|sps| - 1];
      assert sps == init + [last];
      UpsertedAt(rows, init, id);
    }
  }

  // ----- the strings in sorted order

  ghost predicate SortedText(s: seq<string>)
  {
    forall i, j :: 0 <= i < j < |s| ==> Compare(s[i], s[j]) < 0
  }

  lemma InsertKeepsSorted(s: seq<string>, i: nat, t: string)
    requires SortedText(s) && i <= |s|
    requires forall j :: 0 <= j < i ==> Compare(s[j], t) < 0
    requires forall j :: i <= j < |s| ==> Compare(t, s[j]) < 0
    ensures SortedText(s[..i] + [t] + s[i..])
  {
    hide Compare;
    var r := s[..i] + [t] + s[i..];
    assert forall j :: 0 <= j < |r| ==> r[j] == if j < i then s[j] else if j == i then t else s[j - 1];
  }

  lemma AboveRest(s: seq<string>, i: nat, t: string)
    requires SortedText(s) && i <= |s| && t !in s && (i < |s| ==> Compare(s[i], t) >= 0)
    ensures forall j :: i <= j < |s| ==> Compare(t, s[j]) < 0
  {
    forall j | i <= j < |s| ensures Compare(t, s[j]) < 0 {
      CompareIsAntisymmetric(t, s[i]);
      CompareIsAntisymmetric(t, s[j]);
      if j > i { CompareIsTransitive(t, s[i], s[j]); }
    }
  }

  /** slices.Sort of the keys. */
  method SortedKeys(keys: set<string>) returns (nevras: seq<string>)
    ensures SortedText(nevras) && forall k :: k in nevras <==> k in keys
  {
    nevras := [];
    var rest := keys;
    while rest != {}
      invariant rest <= keys && SortedText(nevras)
      invariant forall k :: k in nevras <==> k in keys && k !in rest
    {
      hide Compare;
      var k :| k in rest;
      var i := 0;
      while i < |nevras| && Compare(nevras[i], k) < 0
        invariant i <= |nevras| && forall j :: 0 <= j < i ==> Compare(nevras[j], k) < 0
      {
        i := i + 1;
      }
      AboveRest(nevras, i, k);
      InsertKeepsSorted(nevras, i, k);
      assert nevras == nevras[..i] + nevras[i..];
      nevras := nevras[..i] + [k] + nevras[i..];
      rest := rest - {k};
    }
  }

  // ----- updateSystemPackages

  /** What the loop has listed after the first i strings. */
  ghost predicate Listed(packages: Packages, nevras: seq<string>, i: int, removed: seq<int>,
                         updated: seq<SystemPackage>)
    requires 0 <= i <= |nevras|
  {
    && (forall id :: id in removed <==> exists j :: 0 <= j < i && Remover(packages, nevras[j], id))
    && OnePerPackage(updated)
    && (forall sp :: sp in updated ==> exists j :: 0 <= j < i && FirstOf(packages, nevras, j, sp))
    && (forall j, id :: 0 <= j < i && Writer(packages, nevras[j], id) ==>
        exists sp :: sp in updated && sp.packageId == id)
  }

  /** nevras[j] is the first string to write its package, and sp is what it writes. */
  ghost predicate FirstOf(packages: Packages, nevras: seq<string>, j: int, sp: SystemPackage)
    requires 0 <= j < |nevras|
  {
    && Writer(packages, nevras[j], sp.packageId) && sp == CreateSystemPackage(packages[nevras[j]])
    && forall m :: 0 <= m < j ==> !Writer(packages, nevras[m], sp.packageId)
  }

  lemma ListKeep(packages: Packages, nevras: seq<string>, i: int, removed: seq<int>, updated: seq<SystemPackage>)
    requires 0 <= i < |nevras| && nevras[i] in packages && Listed(packages, nevras, i, removed, updated)
    requires packages[nevras[i]].change == A.Keep
    ensures Listed(packages, nevras, i + 1, removed, updated)
  {
    hide OnePerPackage, CreateSystemPackage;
  }

  lemma ListRemove(packages: Packages, nevras: seq<string>, i: int, removed: seq<int>, updated: seq<SystemPackage>)
    requires 0 <= i < |nevras| && nevras[i] in packages && Listed(packages, nevras, i, removed, updated)
    requires packages[nevras[i]].change == A.Remove
    ensures Listed(packages, nevras, i + 1, removed + [packages[nevras[i]].packageId], updated)
  {
    hide OnePerPackage, CreateSystemPackage;
  }

  lemma ListDuplicate(packages: Packages, nevras: seq<string>, i: int, removed: seq<int>, updated: seq<SystemPackage>)
    requires 0 <= i < |nevras| && nevras[i] in packages && Listed(packages, nevras, i, removed, updated)
    requires Writes(packages[nevras[i]]) && exists sp :: sp in updated && sp.packageId == packages[nevras[i]].packageId
    ensures Listed(packages, nevras, i + 1, removed, updated)
  {
    hide OnePerPackage, CreateSystemPackage;
  }

  lemma ListUpdate(packages: Packages, nevras: seq<string>, i: int, removed: seq<int>, updated: seq<SystemPackage>)
    requires 0 <= i < |nevras| && nevras[i] in packages && Listed(packages, nevras, i, removed, updated)
    requires Writes(packages[nevras[i]]) && !exists sp :: sp in updated && sp.packageId == packages[nevras[i]].packageId
    ensures Listed(packages, nevras, i + 1, removed, updated + [CreateSystemPackage(packages[nevras[i]])])
  {
    var sp := CreateSystemPackage(packages[nevras[i]]);
    assert FirstOf(packages, nevras, i, sp);
    assert OnePerPackage(updated + [sp]);
    hide OnePerPackage, CreateSystemPackage;
    forall j, id | 0 <= j < i + 1 && Writer(packages, nevras[j], id)
      ensures exists q :: q in updated + [sp] && q.packageId == id {
      if j < i {
        var q :| q in updated && q.packageId == id;
        assert q in updated + [sp];
      } else {
        assert sp in updated + [sp];
      }
    }
  }

  ghost function IdsOf(updated: seq<SystemPackage>): set<int>
  {
    set sp | sp in updated :: sp.packageId
  }

  lemma IdsAre(updated: seq<SystemPackage>)
    ensures forall id :: id in IdsOf(updated) <==> exists sp :: sp in updated && sp.packageId == id
  {
  }

  lemma IdsGrow(updated: seq<SystemPackage>, sp: SystemPackage)
    ensures IdsOf(updated + [sp]) == IdsOf(updated) + {sp.packageId}
  {
    var more := IdsOf(updated + [sp]);
    forall id | id in IdsOf(updated) + {sp.packageId} ensures id in more {
      if id == sp.packageId {
        assert sp in updated + [sp];
      } else {
        var q :| q in updated && q.packageId == id;
        assert q in updated + [sp];
      }
    }
  }

  /** The loop of updateSystemPackages: what to delete and what to upsert. */
  method ListChanges(packages: Packages) returns (removed: seq<int>, updated: seq<SystemPackage>)
    ensures forall id :: id in removed <==> exists k :: Remover(packages, k, id)
    ensures OnePerPackage(updated)
    ensures forall sp :: sp in updated ==> exists k :: WrittenFirst(packages, k, sp)
    ensures forall k, id :: Writer(packages, k, id) ==> exists sp :: sp in updated && sp.packageId == id
  {
    removed, updated := [], [];
    var sorted := SortedKeys(packages.Keys);
    var uniqPackageIDs: set<int> := {};
    for i := 0 to |sorted|
      invariant Listed(packages, sorted, i, removed, updated)
      invariant uniqPackageIDs == IdsOf(updated)
    {
      hide Listed, SortedText, IdsOf, CreateSystemPackage, Compare;
      IdsAre(updated);
      assert sorted[i] in sorted;
      var pkg := packages[sorted[i]];
      match pkg.change {
        case Remove =>
          ListRemove(packages, sorted, i, removed, updated);
          removed := removed + [pkg.packageId];
        case Keep =>
          ListKeep(packages, sorted, i, removed, updated);
        case _ =>
          if pkg.packageId in uniqPackageIDs {
            ListDuplicate(packages, sorted, i, removed, updated);
            continue;
          }
          ListUpdate(packages, sorted, i, removed, updated);
          IdsGrow(updated, CreateSystemPackage(pkg));
          uniqPackageIDs := uniqPackageIDs + {pkg.packageId};
          updated := updated + [CreateSystemPackage(pkg)];
      }
    }
    ListedMeans(packages, sorted, removed, updated);
  }

  /** What storing does to one package's row. */
  ghost predicate StoredAt(rows: Rows, packages: Packages, rows': Rows, id: int)
  {
    var kept := id in rows && !exists k :: Remover(packages, k, id);
    && (id in rows' <==> kept || exists k :: Writer(packages, k, id))
    && (id in rows' ==>
          if exists k :: Writer(packages, k, id) then
            exists k :: FirstWriter(packages, k, id)
              && rows'[id] == PackageRow(if kept then rows[id].nameId else packages[k].nameId,
                                         packages[k].installableId, packages[k].applicableId)
          else rows'[id] == rows[id])
  }

  lemma FirstIsFirst(packages: Packages, nevras: seq<string>, j: int, sp: SystemPackage)
    requires SortedText(nevras) && (forall k :: k in nevras <==> k in packages)
    requires 0 <= j < |nevras| && FirstOf(packages, nevras, j, sp)
    ensures FirstWriter(packages, nevras[j], sp.packageId)
  {
    hide CreateSystemPackage, Compare;
    forall k | Writer(packages, k, sp.packageId) ensures Compare(nevras[j], k) <= 0 {
      var m :| 0 <= m < |nevras| && nevras[m] == k;
      CompareIsAntisymmetric(k, nevras[j]);
    }
  }

  /** What the lists hold once all strings have been visited, whatever their order was. */
  lemma ListedMeans(packages: Packages, nevras: seq<string>, removed: seq<int>, updated: seq<SystemPackage>)
    requires SortedText(nevras) && (forall k :: k in nevras <==> k in packages)
             && Listed(packages, nevras, |nevras|, removed, updated)
    ensures forall id :: id in removed <==> exists k :: Remover(packages, k, id)
    ensures OnePerPackage(updated)
    ensures forall sp :: sp in updated ==> exists k :: WrittenFirst(packages, k, sp)
    ensures forall k, id :: Writer(packages, k, id) ==> exists sp :: sp in updated && sp.packageId == id
  {
    hide SortedText, Compare, FirstWriter, FirstOf, OnePerPackage, CreateSystemPackage, WrittenFirst;
    forall id ensures id in removed <==> exists k :: Remover(packages, k, id) {
      if k :| Remover(packages, k, id) {
        var j :| 0 <= j < |nevras| && nevras[j] == k;
      }
    }
    forall sp | sp in updated ensures exists k :: WrittenFirst(packages, k, sp) {
      var f :| 0 <= f < |nevras| && FirstOf(packages, nevras, f, sp);
      FirstIsFirst(packages, nevras, f, sp);
      FirstCreates(packages, nevras, f, sp);
    }
    forall k, id | Writer(packages, k, id) ensures exists sp :: sp in updated && sp.packageId == id {
      var j :| 0 <= j < |nevras| && nevras[j] == k;
    }
  }

  lemma FirstCreates(packages: Packages, nevras: seq<string>, f: int, sp: SystemPackage)
    requires 0 <= f < |nevras| && FirstOf(packages, nevras, f, sp)
    requires FirstWriter(packages, nevras[f], sp.packageId)
    ensures WrittenFirst(packages, nevras[f], sp)
  {
  }

  lemma StoringOne(packages: Packages, removed: seq<int>, updated: seq<SystemPackage>, rows: Rows, id: int)
    requires forall i :: i in removed <==> exists k :: Remover(packages, k, i)
    requires OnePerPackage(updated)
    requires forall sp :: sp in updated ==> exists k :: WrittenFirst(packages, k, sp)
    requires forall k, i :: Writer(packages, k, i) ==> exists sp :: sp in updated && sp.packageId == i
    ensures StoredAt(rows, packages, UpsertAll(rows - (set r | r in removed), updated), id)
  {
    hide Compare, FirstWriter, CreateSystemPackage, WrittenFirst;
    var kept := rows - (set r | r in removed);
    UpsertedAt(kept, updated, id);
    hide OnePerPackage;
    if w :| Writer(packages, w, id) {
      var sp :| sp in updated && sp.packageId == id;
      var k :| WrittenFirst(packages, k, sp);
      WrittenRow(packages, k, sp, kept);
    } else {
      forall sp | sp in updated ensures sp.packageId != id {
        var k :| WrittenFirst(packages, k, sp);
        WrittenRow(packages, k, sp, kept);
      }
    }
  }

  lemma WrittenRow(packages: Packages, k: string, sp: SystemPackage, kept: Rows)
    requires WrittenFirst(packages, k, sp)
    ensures FirstWriter(packages, k, sp.packageId) && Writer(packages, k, sp.packageId)
    ensures var p := packages[k];
            UpsertOne(kept, sp)[sp.packageId]
            == PackageRow(if sp.packageId in kept then kept[sp.packageId].nameId else p.nameId,
                          p.installableId, p.applicableId)
  {
  }

  /** updateSystemPackages: one delete and one upsert that touches no row twice. */
  method UpdateSystemPackages(rows: Rows, packages: Packages) returns (rows': Rows)
    ensures forall id :: StoredAt(rows, packages, rows', id)
  {
    hide StoredAt, WrittenFirst, Writer, Remover, OnePerPackage;
    var removed, updated := ListChanges(packages);
    rows' := UpsertAll(rows - (set id | id in removed), updated);
    forall id ensures StoredAt(rows, packages, rows', id) {
      StoringOne(packages, removed, updated, rows, id);
    }
  }

  // ----- the stored packages become the reported ones

  /** The reported string stands for the package. */
  ghost predicate Stands(db: C.Table, report: Report, k: string, id: int)
  {
    k in report && Resolved(db, k).Some? && Resolved(db, k).value.id == id
  }

  /** The row a reported string calls for. */
  ghost function RowFor(db: C.Table, report: Report, k: string): PackageRow
    requires k in report && Resolved(db, k).Some?
  {
    PackageRow(Resolved(db, k).value.nameId, LatestId(db, report[k], Installable), LatestId(db, report[k], Applicable))
  }

  /** Stored rows belong to known packages and carry their name IDs. */
  ghost predicate RowsKnown(db: C.Table, rows: Rows)
  {
    forall id :: id in rows ==> id in db && rows[id].nameId == db[id].nameId
  }

  lemma ResolvedIs(db: C.Table, k: string)
    requires C.TableOk(db)
    ensures Resolved(db, k).Some? ==> C.InTable(db, Resolved(db, k).value)
  {
    hide C.Asked, C.Canonical;
  }

  /** A reported string that is the key of a known package stands for it. */
  lemma KeyStands(db: C.Table, report: Report, id: int)
    requires C.TableOk(db) && id in db && StoredKey(db, id) in Fresh(db, report)
    ensures Stands(db, report, StoredKey(db, id), id)
  {
    hide C.Key, C.RowByNevra, C.Canonical;
    C.OneRow(db, db[id]);
  }

  lemma EntryOf(db: C.Table, report: Report, rows: Rows, packages: Packages, k: string)
    requires C.TableOk(db) && rows.Keys <= db.Keys && Compared(db, Fresh(db, report), rows, rows.Keys, packages)
    requires k in packages
    ensures k in Fresh(db, report) ==>
              && Stands(db, report, k, packages[k].packageId) && packages[k].change != A.Remove
              && packages[k].nameId == RowFor(db, report, k).nameId
              && packages[k].installableId == RowFor(db, report, k).installableId
              && packages[k].applicableId == RowFor(db, report, k).applicableId
    ensures k !in Fresh(db, report) ==>
              packages[k].change == A.Remove && packages[k].packageId in rows
                  && StoredKey(db, packages[k].packageId) == k
  {
    hide C.Key, C.RowByNevra, C.TableOk, LatestId;
  }

  /** A reported package with no writer was already stored as it is now. */
  lemma KeptAsReported(db: C.Table, report: Report, rows: Rows, packages: Packages, k: string, id: int)
    requires C.TableOk(db) && rows.Keys <= db.Keys && Compared(db, Fresh(db, report), rows, rows.Keys, packages)
    requires Stands(db, report, k, id) && !Writes(packages[k])
    ensures id in rows && StoredKey(db, id) == k
    ensures rows[id].installableId == RowFor(db, report, k).installableId
    ensures rows[id].applicableId == RowFor(db, report, k).applicableId
  {
    hide C.Key, C.RowByNevra, C.TableOk, LatestId;
    assert k in Fresh(db, report) && packages[k] != Fresh(db, report)[k];
    var j :| j in rows && StoredKey(db, j) == k;
    KeyStands(db, report, j);
  }

  /** Removing a package means its own key was not reported. */
  lemma RemovedKey(db: C.Table, report: Report, rows: Rows, packages: Packages, id: int)
    requires C.TableOk(db) && rows.Keys <= db.Keys && Compared(db, Fresh(db, report), rows, rows.Keys, packages)
             && id in rows
    ensures (exists k :: Remover(packages, k, id)) <==> StoredKey(db, id) !in Fresh(db, report)
  {
    hide C.Key, C.RowByNevra, C.TableOk, LatestId, Fresh, Stands;
    if k :| Remover(packages, k, id) {
      EntryOf(db, report, rows, packages, k);
    }
    if StoredKey(db, id) !in Fresh(db, report) {
      assert Remover(packages, StoredKey(db, id), id);
    }
  }

  lemma WriterStands(db: C.Table, report: Report, rows: Rows, packages: Packages, k: string, id: int)
    requires C.TableOk(db) && rows.Keys <= db.Keys && Compared(db, Fresh(db, report), rows, rows.Keys, packages)
    requires Writer(packages, k, id)
    ensures Stands(db, report, k, id) && packages[k].nameId == RowFor(db, report, k).nameId
    ensures packages[k].installableId == RowFor(db, report, k).installableId
    ensures packages[k].applicableId == RowFor(db, report, k).applicableId
  {
    hide C.Key, C.RowByNevra, C.TableOk, LatestId, Compared, Resolved;
    EntryOf(db, report, rows, packages, k);
  }

  ghost predicate BecomesReportedAt(db: C.Table, report: Report, rows': Rows, id: int)
  {
    && (id in rows' <==> exists k :: Stands(db, report, k, id))
    && (id in rows' ==> exists k :: Stands(db, report, k, id) && rows'[id] == RowFor(db, report, k))
  }

  /**
   Diff and store, at one package: whatever was stored, afterwards the package has a row exactly when a
   reported string stands for it, and the row is the one such a string calls for.
   */
  lemma BecomesReported(db: C.Table, report: Report, rows: Rows, packages: Packages, rows': Rows, id: int)
    requires C.TableOk(db) && RowsKnown(db, rows) && rows.Keys <= db.Keys
             && Compared(db, Fresh(db, report), rows, rows.Keys, packages)
    requires StoredAt(rows, packages, rows', id)
    ensures BecomesReportedAt(db, report, rows', id)
  {
    hide C.Key, C.RowByNevra, C.TableOk, LatestId, StoredKey;
    if id in rows { RemovedKey(db, report, rows, packages, id); }
    if w :| Writer(packages, w, id) {
      assert rows.Keys <= db.Keys;
      var k :| FirstWriter(packages, k, id)
        && rows'[id] == PackageRow(if id in rows && !exists k :: Remover(packages, k, id) then rows[id].nameId
                                   else packages[k].nameId,
                                   packages[k].installableId, packages[k].applicableId);
      WriterStands(db, report, rows, packages, k, id);
      ResolvedIs(db, k);
    } else {
      if k :| Stands(db, report, k, id) {
        EntryOf(db, report, rows, packages, k);
        assert !Writer(packages, k, id);
        KeptAsReported(db, report, rows, packages, k, id);
        ResolvedIs(db, k);
      } else if id in rows && StoredKey(db, id) in Fresh(db, report) {
        KeyStands(db, report, id);
      }
    }
  }

  /** No two valid reported strings stand for the same package. */
  ghost predicate Distinct(db: C.Table, report: Report)
  {
    forall j, k, id :: Stands(db, report, j, id) && Stands(db, report, k, id) ==> j == k
  }

  ghost predicate BecomesReportedAll(db: C.Table, report: Report, rows: Rows)
  {
    forall id :: BecomesReportedAt(db, report, rows, id)
  }

  /** Without two names for one package, each row is the one its string calls for. */
  lemma DistinctRows(db: C.Table, report: Report, rows: Rows, k: string, id: int)
    requires BecomesReportedAll(db, report, rows) && Distinct(db, report) && Stands(db, report, k, id)
    ensures id in rows && rows[id] == RowFor(db, report, k)
  {
    hide Resolved, LatestId, RowFor;
    assert BecomesReportedAt(db, report, rows, id);
  }

  lemma {:induction false} ImageSize(s: set<string>, f: string -> int, image: set<int>)
    requires forall x :: x in image <==> exists k :: k in s && f(k) == x
    ensures |image| <= |s|
    ensures |image| == |s| <==> forall j, k :: j in s && k in s && f(j) == f(k) ==> j == k
  {
    if s != {} {
      var k :| k in s;
      var rest := s - {k};
      assert s == rest + {k};
      if j :| j in rest && f(j) == f(k) {
        ImageSize(rest, f, image);
      } else {
        var others := image - {f(k)};
        assert image == others + {f(k)};
        ImageSize(rest, f, others);
      }
    } else {
      assert forall k :: k !in s;
      assert forall x :: x !in image;
      assert image == {};
    }
  }

  /** There are as many rows as valid reported strings exactly when these are distinct packages. */
  lemma RowCount(db: C.Table, report: Report, rows: Rows)
    requires BecomesReportedAll(db, report, rows)
    ensures |rows| <= |Fresh(db, report)|
    ensures |rows| == |Fresh(db, report)| <==> Distinct(db, report)
  {
    var valid := Fresh(db, report).Keys;
    var f := k => StandsFor(db, k);
    forall k, id ensures k in valid && f(k) == id <==> Stands(db, report, k, id) {}
    hide Stands, Fresh, RowFor, StandsFor;
    forall id ensures id in rows.Keys <==> exists k :: k in valid && f(k) == id {
      assert BecomesReportedAt(db, report, rows, id);
      if k :| k in valid && f(k) == id {
        assert Stands(db, report, k, id);
      }
    }
    ImageSize(valid, f, rows.Keys);
    DistinctIff(db, report, valid, f);
  }

  ghost function StandsFor(db: C.Table, k: string): int
  {
    if Resolved(db, k).Some? then Resolved(db, k).value.id else 0
  }

  lemma DistinctIff(db: C.Table, report: Report, valid: set<string>, f: string -> int)
    requires forall k, id :: k in valid && f(k) == id <==> Stands(db, report, k, id)
    ensures Distinct(db, report) <==> forall j, k :: j in valid && k in valid && f(j) == f(k) ==> j == k
  {
    hide Stands;
    if Distinct(db, report) {
      forall j, k | j in valid && k in valid && f(j) == f(k) ensures j == k {
        assert Stands(db, report, j, f(j)) && Stands(db, report, k, f(j));
      }
    }
  }

  /** A report under canonical keys that is already stored changes nothing. */
  lemma SecondEvaluationKeeps(db: C.Table, report: Report, rows: Rows, packages: Packages, k: string)
    requires C.TableOk(db) && rows.Keys <= db.Keys && Compared(db, Fresh(db, report), rows, rows.Keys, packages)
    requires BecomesReportedAll(db, report, rows) && k in packages
    requires forall j, id :: Stands(db, report, j, id) && id in db ==> j == StoredKey(db, id)
    ensures packages[k].change == A.Keep
  {
    hide C.Key, C.RowByNevra, C.TableOk, LatestId, StoredKey, Resolved;
    EntryOf(db, report, rows, packages, k);
    var id := packages[k].packageId;
    assert BecomesReportedAt(db, report, rows, id);
    assert k in Fresh(db, report) by {
      if k !in Fresh(db, report) { assert false; }
    }
    assert id in rows && id in db;
    var j :| Stands(db, report, j, id) && rows[id] == RowFor(db, report, j);
    assert StoredKey(db, id) == k == j;
  }

  /** A string whose entry is kept is the key of the package it stands for. */
  lemma KeptIsCanonical(db: C.Table, report: Report, rows: Rows, packages: Packages, j: string, id: int)
    requires C.TableOk(db) && rows.Keys <= db.Keys && Compared(db, Fresh(db, report), rows, rows.Keys, packages)
    requires Stands(db, report, j, id) && j in packages && packages[j].change == A.Keep
    ensures id in db && j == StoredKey(db, id)
  {
    hide C.Key, C.RowByNevra, C.TableOk, LatestId, StoredKey;
    assert packages[j] != Fresh(db, report)[j];
    var i :| i in rows && StoredKey(db, i) == j;
    KeyStands(db, report, i);
  }

  /**
   Evaluating a stored report again changes nothing exactly when each string that stands for a package is
   that package's own key, with its epoch shown.
   */
  lemma SecondEvaluationKeepsIff(db: C.Table, report: Report, rows: Rows, packages: Packages)
    requires C.TableOk(db) && rows.Keys <= db.Keys && Compared(db, Fresh(db, report), rows, rows.Keys, packages)
    requires BecomesReportedAll(db, report, rows)
    ensures (forall k :: k in packages ==> packages[k].change == A.Keep)
       <==> forall j, id :: Stands(db, report, j, id) ==> id in db && j == StoredKey(db, id)
  {
    hide C.Key, C.RowByNevra, C.TableOk, LatestId, StoredKey, Stands, Compared, BecomesReportedAll;
    if forall k :: k in packages ==> packages[k].change == A.Keep {
      forall j, id | Stands(db, report, j, id) ensures id in db && j == StoredKey(db, id) {
        StandingIsListed(db, report, rows, packages, j, id);
        KeptIsCanonical(db, report, rows, packages, j, id);
      }
    }
    if forall j, id :: Stands(db, report, j, id) ==> id in db && j == StoredKey(db, id) {
      forall k | k in packages ensures packages[k].change == A.Keep {
        SecondEvaluationKeeps(db, report, rows, packages, k);
      }
    }
  }

  lemma StandingIsListed(db: C.Table, report: Report, rows: Rows, packages: Packages, j: string, id: int)
    requires rows.Keys <= db.Keys && Compared(db, Fresh(db, report), rows, rows.Keys, packages)
             && Stands(db, report, j, id)
    ensures j in packages
  {
    hide C.Key, C.RowByNevra, LatestId;
  }

  /** What does happen otherwise: a stored package reported without its zero epoch is added and removed at once. */
  lemma EpochlessIsRewritten(db: C.Table, report: Report, rows: Rows, packages: Packages, n: Rpm.Nevra, id: int)
    requires C.TableOk(db) && rows.Keys <= db.Keys && Compared(db, Fresh(db, report), rows, rows.Keys, packages)
    requires Rpm.WellFormed(n) && n.epoch == 0 && id in rows && db[id].name == n.name
             && db[id].evra == Rpm.ShowEvra(n, false)
    requires Rpm.Show(n, false) in report && !Phantom(Rpm.Show(n, false)) && Rpm.Show(n, true) !in report
    ensures var k, key := Rpm.Show(n, false), Rpm.Show(n, true);
            && k in packages && packages[k].change == A.Add && packages[k].packageId == id
            && key in packages && packages[key].change == A.Remove && packages[key].packageId == id
  {
    var k, key := Rpm.Show(n, false), Rpm.Show(n, true);
    EpochlessAsks(db, n, id);
    hide Rpm.Show, C.Key, C.TableOk, LatestId, C.RowByNevra;
    assert key !in Fresh(db, report) && StoredKey(db, id) == key;
    assert k in Fresh(db, report);
    forall j | j in rows ensures StoredKey(db, j) != k {
      if StoredKey(db, j) == k { OwnKeyAsks(db, j, k, id); }
    }
  }

  /** Both prints ask for the one row, whose key is the longer of them. */
  lemma EpochlessAsks(db: C.Table, n: Rpm.Nevra, id: int)
    requires C.TableOk(db) && Rpm.WellFormed(n) && n.epoch == 0
    requires id in db && db[id].name == n.name && db[id].evra == Rpm.ShowEvra(n, false)
    ensures C.RowByNevra(db, Rpm.Show(n, false)) == Some(db[id])
    ensures C.Key(db[id]) == Rpm.Show(n, true) != Rpm.Show(n, false)
  {
    assert |Rpm.Show(n, true)| == |Rpm.Show(n, false)| + 2 by { ShowsAreDifferent(n); }
    hide Rpm.Show, Rpm.ShowEvra, Rpm.Join, Rpm.Parse, Rpm.WellFormed, C.Canonical;
    Rpm.RoundTrip(n, false);
    Rpm.JoinAgreesWithPrint(n, false);
    C.RowIff(db, Rpm.Show(n, false), db[id]);
  }

  lemma ShowsAreDifferent(n: Rpm.Nevra)
    requires n.epoch == 0
    ensures |Rpm.Show(n, true)| == |Rpm.Show(n, false)| + 2
  {
    assert |Text.IntText(0)| == 1;
  }

  lemma OwnKeyAsks(db: C.Table, j: int, k: string, id: int)
    requires C.TableOk(db) && j in db && id in db && C.Key(db[j]) == k && C.RowByNevra(db, k) == Some(db[id])
    ensures C.Key(db[id]) == k
  {
    hide C.Key, C.RowByNevra, C.Canonical;
    C.OneRow(db, db[j]);
  }

  /** One stored package, bash, reported by its name without the epoch. */
  const BASH := Rpm.Nevra("bash", 0, "5", "1", "x86_64")

  function BashTable(): C.Table { map[1 := C.Package(1, 7, "bash", Rpm.ShowEvra(BASH, false))] }

  function BashReport(): Report { map[Rpm.Show(BASH, false) := []] }

  function BashRows(): Rows { map[1 := PackageRow(7, None, None)] }

  /** The concrete case: the report is stored, and evaluating it again removes and adds the package. */
  lemma BashIsRewritten(packages: Packages)
    requires Compared(BashTable(), Fresh(BashTable(), BashReport()), BashRows(), {1}, packages)
    ensures C.TableOk(BashTable()) && BecomesReportedAll(BashTable(), BashReport(), BashRows())
    ensures Rpm.Show(BASH, false) in packages && packages[Rpm.Show(BASH, false)].change == A.Add
    ensures Rpm.Show(BASH, true) in packages && packages[Rpm.Show(BASH, true)].change == A.Remove
  {
    BashIsFine();
    hide Rpm.Show, Rpm.ShowEvra, C.TableOk, Fresh, Compared, BecomesReportedAll, Rpm.WellFormed;
    assert BashRows().Keys == {1};
    BashIsStored();
    BashKeys();
    EpochlessIsRewritten(BashTable(), BashReport(), BashRows(), packages, BASH, 1);
  }

  lemma BashIsFine()
    ensures Rpm.WellFormed(BASH) && C.TableOk(BashTable())
  {
    assert C.Canonical("bash", Rpm.ShowEvra(BASH, false)) by { assert Rpm.WellFormed(BASH); }
    hide Rpm.ShowEvra, C.Canonical;
  }

  lemma BashKeys()
    ensures !Phantom(Rpm.Show(BASH, false)) && Rpm.Show(BASH, true) !in BashReport()
  {
    ShowsAreDifferent(BASH);
    assert Rpm.Show(BASH, false)[0] == 'b';
    hide Rpm.Show;
    var s := Rpm.Show(BASH, false);
    assert |s| >= 10 ==> s[..10][0] == 'b';
  }

  lemma BashIsStored()
    ensures BecomesReportedAll(BashTable(), BashReport(), BashRows())
  {
    BashIsFine();
    BashKeys();
    hide Rpm.Show, Rpm.ShowEvra, C.TableOk, C.RowByNevra, Rpm.WellFormed;
    var db, report, k := BashTable(), BashReport(), Rpm.Show(BASH, false);
    EpochlessAsks(db, BASH, 1);
    assert Resolved(db, k) == Some(db[1]);
    assert LatestId(db, [], Installable) == None && LatestId(db, [], Applicable) == None;
    assert k in report && report[k] == [];
    assert RowFor(db, report, k) == PackageRow(7, None, None);
    assert Stands(db, report, k, 1);
  }

  // ----- in terms of the report and the table

  /** A reported string stands for a package unless it begins with gpg-pubkey or the table does not know it. */
  lemma StandsIff(db: C.Table, report: Report, k: string, id: int)
    ensures Stands(db, report, k, id) <==>
              && k in report && !("gpg-pubkey" <= k)
              && C.RowByNevra(db, k).Some? && C.RowByNevra(db, k).value.id == id
  {
    hide C.RowByNevra;
    PhantomIs(k);
  }

  lemma PhantomIs(k: string)
    ensures Phantom(k) <==> "gpg-pubkey" <= k
  {
    if "gpg-pubkey" <= k {
      assert k[..10] == "gpg-pubkey";
    }
  }

  /**
   A package has a row exactly when a reported string stands for it, with the IDs of the latest INSTALLABLE
   and of the latest APPLICABLE update that are reported under such a string.
   */
  lemma RowsAre(db: C.Table, report: Report, rows: Rows, id: int)
    requires BecomesReportedAt(db, report, rows, id)
    ensures id in rows <==>
              exists k :: k in report && !("gpg-pubkey" <= k)
                && C.RowByNevra(db, k).Some? && C.RowByNevra(db, k).value.id == id
    ensures id in rows ==>
              exists k :: k in report && !("gpg-pubkey" <= k)
                && C.RowByNevra(db, k).Some? && C.RowByNevra(db, k).value.id == id
                && rows[id].nameId == C.RowByNevra(db, k).value.nameId
                && rows[id].installableId == LatestId(db, report[k], Installable)
                && rows[id].applicableId == LatestId(db, report[k], Applicable)
  {
    hide C.RowByNevra, LatestId, Stands;
    forall k { StandsIff(db, report, k, id); }
    if id in rows {
      var k :| Stands(db, report, k, id) && rows[id] == RowFor(db, report, k);
      assert C.RowByNevra(db, k) == Resolved(db, k);
    }
  }

  /** The three counters: valid strings, those with an installable update, those with any update. */
  lemma CountersAre(db: C.Table, report: Report, installed: int, installable: int, applicable: int)
    requires Counted(Fresh(db, report), installed, installable, applicable)
    ensures installed == |set k | k in report && !("gpg-pubkey" <= k) && C.RowByNevra(db, k).Some?|
    ensures installable == |set k | k in report && !("gpg-pubkey" <= k) && C.RowByNevra(db, k).Some?
                              && LatestId(db, report[k], Installable).Some?|
    ensures applicable == |set k | k in report && !("gpg-pubkey" <= k) && C.RowByNevra(db, k).Some?
                             && (LatestId(db, report[k], Installable).Some?
                                 || LatestId(db, report[k], Applicable).Some?)|
  {
    hide C.RowByNevra, LatestId, Phantom;
    forall k { PhantomIs(k); }
    var fresh' := Fresh(db, report);
    assert fresh'.Keys == set k | k in report && !("gpg-pubkey" <= k) && C.RowByNevra(db, k).Some?;
    assert |fresh'| == |fresh'.Keys|;
    assert Having(fresh', HasInstallable)
        == set k | k in report && !("gpg-pubkey" <= k) && C.RowByNevra(db, k).Some?
             && LatestId(db, report[k], Installable).Some?;
    assert Having(fresh', HasUpdate)
        == set k | k in report && !("gpg-pubkey" <= k) && C.RowByNevra(db, k).Some?
             && (LatestId(db, report[k], Installable).Some? || LatestId(db, report[k], Applicable).Some?);
  }

  /** loadPackages and updateSystemPackages for one report. */
  method EvaluatePackages(cache: C.Cache, db: C.Table, report: Report, rows: Rows)
    returns (ok: bool, rows': Rows, installed: int, installable: int, applicable: int)
    requires C.TableOk(db) && cache.Valid(db)
    modifies cache
    ensures cache.Valid(db) && (ok <==> rows.Keys <= db.Keys)
    ensures 0 <= installable <= applicable <= installed == |Fresh(db, report)|
    ensures installed == |set k | k in report && !("gpg-pubkey" <= k) && C.RowByNevra(db, k).Some?|
    ensures installable == |set k | k in report && !("gpg-pubkey" <= k) && C.RowByNevra(db, k).Some?
                              && LatestId(db, report[k], Installable).Some?|
    ensures applicable == |set k | k in report && !("gpg-pubkey" <= k) && C.RowByNevra(db, k).Some?
                             && (LatestId(db, report[k], Installable).Some?
                                 || LatestId(db, report[k], Applicable).Some?)|
    ensures ok && (forall id :: id in rows ==> id in db && rows[id].nameId == db[id].nameId) ==>
              && BecomesReportedAll(db, report, rows')
              && |rows'| <= installed && (|rows'| == installed <==> Distinct(db, report))
    ensures ok && (forall id :: id in rows ==> id in db && rows[id].nameId == db[id].nameId) ==>
              forall id :: id in rows' <==>
                exists k :: k in report && !("gpg-pubkey" <= k)
                  && C.RowByNevra(db, k).Some? && C.RowByNevra(db, k).value.id == id
    ensures ok && (forall id :: id in rows ==> id in db && rows[id].nameId == db[id].nameId) ==>
              forall id :: id in rows' ==>
                exists k :: k in report && !("gpg-pubkey" <= k)
                  && C.RowByNevra(db, k).Some? && C.RowByNevra(db, k).value.id == id
                  && rows'[id].nameId == C.RowByNevra(db, k).value.nameId
                  && rows'[id].installableId == LatestId(db, report[k], Installable)
                  && rows'[id].applicableId == LatestId(db, report[k], Applicable)
    ensures !ok ==> rows' == rows
  {
    hide C.TableOk, C.Cache.Valid, C.RowByNevra, LatestId, Fresh, Compared, StoredAt, BecomesReportedAt, Distinct,
         Counted;
    var packages;
    packages, installed, installable, applicable := PackagesFromUpdateList(cache, db, report);
    CountsAreOrdered(packages, installed, installable, applicable);
    CountersAre(db, report, installed, installable, applicable);
    assert installed == |Fresh(db, report)| by { CountedAll(packages, installed, installable, applicable); }
    ok, packages := LoadSystemNevras(cache, db, rows, packages);
    if !ok {
      return false, rows, installed, installable, applicable;
    }
    rows' := UpdateSystemPackages(rows, packages);
    if RowsKnown(db, rows) {
      hide RowsKnown;
      forall id ensures BecomesReportedAt(db, report, rows', id) {
        BecomesReported(db, report, rows, packages, rows', id);
      }
      forall id { RowsAre(db, report, rows', id); }
      RowCount(db, report, rows');
    }
  }
}
