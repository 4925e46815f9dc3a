/**
 The tables as objects and the operations that change them (evaluator/evaluate_advisories.go,
 evaluator/evaluate.go, database_admin/schema/create_schema.sql). Each method performs one event of
 AccountCounts on the whole state.
 */
module Database {
  import opened Wrappers
  import opened Vmaas
  import opened AdvisoryChanges
  import opened AccountCounts
  import opened CountRuns
  import opened EvaluationSteps
  import opened CacheCheck

  // ----- storing what is reported

  /** storeMissingAdvisories: new IDs for the reported names that are not known and can be stored. */
  method NewIds(metadata: map<string, int>, nextId: int, reported: map<string, Status>)
    returns (newIds: map<string, int>, next: int)
    requires Injective(metadata) && IdsBelow(metadata, nextId)
    ensures FreshIds(metadata, reported, newIds) && IdsBelow(metadata + newIds, next)
    ensures newIds.Keys == set n | n in reported && n !in metadata && 1 <= |n| <= 99
  {
    newIds, next := map[], nextId;
    var rest := reported.Keys;
    while rest != {}
      invariant rest <= reported.Keys && nextId <= next
      invariant newIds.Keys == (set n | n in reported && n !in rest && n !in metadata && Storable(n))
      invariant forall n :: n in newIds ==> nextId <= newIds[n] < next
      invariant Injective(newIds)
    {
      var name :| name in rest;
      if name !in metadata && 0 < |name| < 100 {
        newIds := newIds[name := next];
        next := next + 1;
      }
      rest := rest - {name};
    }
  }

  /** Deleting and upserting gives each row what its change says. */
  lemma ApplyIsRowsAfter(metadata: map<string, int>, rows: Rows, ext: ExtendedMap, deleteIDs: seq<int>,
                         objs: seq<SystemAdvisory>)
    requires Injective(metadata) && IdsAreMetadata(metadata, ext) && Lists(ext, deleteIDs, objs)
    ensures RowsAfter(rows, ext, ApplyToRows(rows, deleteIDs, objs))
  {
    hide Lists, Injective, IdsAreMetadata, ApplyToRows, RowAfter, ChangeAt, StatusAt;
    forall id
      ensures StatusAt(ApplyToRows(rows, deleteIDs, objs), id) == RowAfter(ChangeAt(ext, id), StatusAt(rows, id)) {
      ApplyAt(metadata, rows, ext, deleteIDs, objs, id);
    }
  }

  lemma ApplyAt(metadata: map<string, int>, rows: Rows, ext: ExtendedMap, deleteIDs: seq<int>,
                objs: seq<SystemAdvisory>, id: int)
    requires Injective(metadata) && IdsAreMetadata(metadata, ext) && Lists(ext, deleteIDs, objs)
    ensures StatusAt(ApplyToRows(rows, deleteIDs, objs), id) == RowAfter(ChangeAt(ext, id), StatusAt(rows, id))
  {
    hide UpsertAll;
    ObjsAreDistinct(metadata, ext, deleteIDs, objs);
    UpsertedAt(rows - (set i | i in deleteIDs), objs, id);
    if n :| n in ext && ext[n].advisory.advisoryId == id {
      ListedAt(metadata, ext, deleteIDs, objs, n);
      OnlyChange(metadata, ext, n);
      hide Lists, Injective;
    } else {
      assert ChangeAt(ext, id) == None;
    }
  }

  lemma OnlyChange(metadata: map<string, int>, ext: ExtendedMap, n: string)
    requires Injective(metadata) && IdsAreMetadata(metadata, ext) && n in ext
    ensures ChangeAt(ext, ext[n].advisory.advisoryId) == Some(ext[n])
  {
    assert forall m :: m in ext && ext[m].advisory.advisoryId == ext[n].advisory.advisoryId ==> m == n;
  }

  // ----- adding deltas

  ghost function DeltaIn(deltas: seq<AccountDelta>, id: int): Counts
  {
    if d :| d in deltas && d.advisoryId == id then d.delta else ZERO
  }

  ghost predicate OnePerId(deltas: seq<AccountDelta>)
  {
    forall d, e :: d in deltas && e in deltas && d.advisoryId == e.advisoryId ==> d == e
  }

  lemma AscendingIsOnePerId(deltas: seq<AccountDelta>)
    requires Ascending(deltas)
    ensures OnePerId(deltas)
  {
  }

  lemma DeltaInNext(deltas: seq<AccountDelta>, i: nat, id: int)
    requires Ascending(deltas) && i < |deltas|
    ensures DeltaIn(deltas[..i + 1], id)
            == if id == deltas[i].advisoryId then deltas[i].delta else DeltaIn(deltas[..i], id)
    ensures DeltaIn(deltas[..i], deltas[i].advisoryId) == ZERO
  {
    var done, more := deltas[..i], deltas[..i + 1];
    assert more == done + [deltas[i]];
    AscendingIsOnePerId(deltas);
    assert forall d :: d in more ==> d in deltas;
    if d :| d in more && d.advisoryId == id {
      assert DeltaIn(more, id) == d.delta;
      assert d != deltas[i] ==> d in done && DeltaIn(done, id) == d.delta;
    } else {
      assert forall d :: d in done ==> d in more;
    }
    assert deltas[i] in more;
  }

  /** The upsert of updateAdvisoryAccountData: row by row, the delta is added onto the stored counts. */
  method AddDeltas(aad: CellCounts, account: int, deltas: seq<AccountDelta>) returns (r: CellCounts)
    requires Ascending(deltas)
    ensures forall c :: At(r, c) == if c.account == account then Plus(At(aad, c), DeltaIn(deltas, c.advisory))
                                   else At(aad, c)
  {
    hide Plus, DeltaIn, Ascending;
    r := aad;
    forall c ensures At(r, c) == Plus(At(aad, c), DeltaIn([], c.advisory)) {
      NoDeltas(c.advisory);
      PlusNothing(At(aad, c));
    }
    for i := 0 to |deltas|
      invariant forall c :: At(r, c) == if c.account == account then Plus(At(aad, c), DeltaIn(deltas[..i], c.advisory))
                                        else At(aad, c)
    {
      var cell := Cell(account, deltas[i].advisoryId);
      var sum := Plus(At(r, cell), deltas[i].delta);
      forall c ensures At(r[cell := sum], c) == if c.account == account
          then Plus(At(aad, c), DeltaIn(deltas[..i + 1], c.advisory))
                                                else At(aad, c) {
        DeltaInNext(deltas, i, c.advisory);
        PlusNothing(At(aad, c));
      }
      r := r[cell := sum];
    }
    assert deltas[..|deltas|] == deltas;
  }

  lemma NoDeltas(id: int)
    ensures DeltaIn([], id) == ZERO
  {
  }

  lemma DeltasMatch(metadata: map<string, int>, ext: ExtendedMap, deltas: seq<AccountDelta>, id: int)
    requires Injective(metadata) && IdsAreMetadata(metadata, ext) && OnePerId(deltas)
    requires forall d :: d in deltas <==>
                exists n :: n in ext && ext[n].advisory.advisoryId == d.advisoryId && DeltaOf(ext[n]) == Some(d.delta)
    ensures DeltaIn(deltas, id) == DeltaAt(ext, id)
  {
    if n :| n in ext && ext[n].advisory.advisoryId == id {
      assert forall m :: m in ext && ext[m].advisory.advisoryId == id ==> m == n;
      assert ChangeAt(ext, id) == Some(ext[n]);
      if DeltaOf(ext[n]).Some? {
        assert AccountDelta(id, DeltaOf(ext[n]).value) in deltas;
      }
    } else {
      assert ChangeAt(ext, id) == None;
    }
  }

  lemma DeltasMatchAll(stale: bool, metadata: map<string, int>, ext: ExtendedMap, deltas: seq<AccountDelta>)
    requires Injective(metadata) && IdsAreMetadata(metadata, ext) && Ascending(deltas)
    requires stale ==> deltas == []
    requires !stale ==>
               forall d :: d in deltas <==>
                 exists n :: n in ext && ext[n].advisory.advisoryId == d.advisoryId && DeltaOf(ext[n]) == Some(d.delta)
    ensures forall id :: DeltaIn(deltas, id) == if stale then ZERO else DeltaAt(ext, id)
  {
    hide DeltaIn, DeltaAt, Injective, IdsAreMetadata, Ascending, OnePerId;
    AscendingIsOnePerId(deltas);
    forall id ensures DeltaIn(deltas, id) == if stale then ZERO else DeltaAt(ext, id) {
      if stale { NoDeltas(id); } else { DeltasMatch(metadata, ext, deltas, id); }
    }
  }

  /** Deltas that are those of the changes move the counts as a store should. */
  lemma MoveByDeltas(db: Db, db': Db, account: int, stale: bool, ext: ExtendedMap, deltas: seq<AccountDelta>)
    requires forall id :: DeltaIn(deltas, id) == if stale then ZERO else DeltaAt(ext, id)
    requires forall c :: Cached(db', c) == if c.account == account then Plus(Cached(db, c), DeltaIn(deltas, c.advisory))
                                           else Cached(db, c)
    ensures CountsMove(db, db', account, id => if stale then ZERO else DeltaAt(ext, id))
  {
    hide Plus, Cached, DeltaIn, DeltaAt;
  }

  /** All reported names are known once the storable ones are saved. */
  lemma SavedOrKnown(metadata: map<string, int>, reported: map<string, Status>, newIds: map<string, int>, rows: Rows)
    requires FreshIds(metadata, reported, newIds)
    ensures var saved := metadata + newIds;
            && (AllKnown(reported, Stored(saved, rows), saved) <==> reported.Keys <= saved.Keys)
            && (reported.Keys <= saved.Keys <==> forall n :: n in reported ==> n in metadata || 1 <= |n| <= 99)
  {
    hide Injective;
  }

  lemma KnownIdsAreMetadata(reported: map<string, Status>, rows: Rows, metadata: map<string, int>, ext: ExtendedMap)
    requires Changes(reported, Stored(metadata, rows), metadata) == Some(ext)
    ensures IdsAreMetadata(metadata, ext)
  {
    ChangesUseMetadata(reported, rows, metadata);
  }

  lemma StoredReads(metadata: map<string, int>, reported: map<string, Status>)
    requires Injective(metadata) && reported.Keys <= metadata.Keys
    ensures Statuses(metadata, ReportedRows(metadata, reported)) == reported
    ensures HoldsReport(metadata, ReportedRows(metadata, reported), reported)
  {
    var rows := ReportedRows(metadata, reported);
    assert forall n :: n in metadata ==> (metadata[n] in rows <==> n in reported);
  }

  class Tables {
    var metadata: map<string, int>
    var nextId: int
    var systems: map<SystemKey, Inventory>
    var rows: map<SystemKey, Rows>
    var aad: CellCounts

    ghost function Now(): Db
      reads this
    {
      Db(metadata, systems, rows, aad)
    }

    ghost predicate Valid()
      reads this
    {
      WellFormed(Now()) && IdsBelow(metadata, nextId)
    }

    constructor ()
      ensures Valid() && Now() == Db(map[], map[], map[], map[])
    {
      metadata, nextId, systems, rows, aad := map[], 1, map[], map[], map[];
    }

    method Register(s: SystemKey)
      requires Valid()
      modifies this
      ensures Valid() && Step(old(Now()), Event.Register(s), Now())
      ensures systems == if s in old(systems) then old(systems) else old(systems)[s := Inventory(false, false)]
    {
      if s !in systems {
        systems := systems[s := Inventory(false, false)];
      }
    }

    /**
     One evaluation with the advisories reported for the system, loaded and stored without anything in
     between. It fails exactly when the system is unknown or a name is neither known nor storable; the
     saved metadata stays even then.
     */
    method Evaluate(s: SystemKey, reported: map<string, Status>) returns (ok: bool, newIds: map<string, int>)
      requires Valid()
      modifies this
      ensures Valid() && Step(old(Now()), Event.Evaluate(s, reported, newIds), Now())
      ensures ok <==> s in old(systems) && forall n :: n in reported ==> n in old(metadata) || 1 <= |n| <= 99
      ensures s in old(systems) ==> newIds.Keys == set n | n in reported && n !in old(metadata) && 1 <= |n| <= 99
      ensures ok ==> Statuses(metadata, RowsOf(Now(), s)) == reported
      ensures ok ==> s in rows && HoldsReport(metadata, rows[s], reported)
    {
      hide WellFormed, Changes, Stored, FreshIds, Injective, RowsNamed, EvaluateStep, StoreStep, Storable, IdsBelow,
           Statuses, HoldsReport;
      newIds := map[];
      if s !in systems {
        assert EvaluateStep(Now(), s, reported, newIds, Now()) by { NoSystem(Now(), s, reported); }
        return false, newIds;
      }
      ghost var before := Now();
      var changes;
      changes, newIds := LazySaveAndLoad(s, reported);
      if changes.None? {
        LoadFails(before, s, reported, newIds);
        return false, newIds;
      }
      Store(s, systems[s].stale, changes.value);
      LoadThenStoreIsEvaluate(before, s, reported, newIds, changes.value, Now());
      StepReads(before, s, reported, newIds, Now());
      ok := true;
    }

    /** lazySaveAndLoadAdvisories: saves the missing names, loads the stored rows, classifies. */
    method LazySaveAndLoad(s: SystemKey, reported: map<string, Status>)
      returns (changes: Option<ExtendedMap>, newIds: map<string, int>)
      requires Valid()
      modifies this`metadata, this`nextId
      ensures Valid() && FreshIds(old(metadata), reported, newIds) && metadata == old(metadata) + newIds
      ensures changes == Changes(reported, Stored(metadata, RowsOf(Now(), s)), metadata)
      ensures changes.Some? <==> forall n :: n in reported ==> n in old(metadata) || 1 <= |n| <= 99
      ensures newIds.Keys == set n | n in reported && n !in old(metadata) && 1 <= |n| <= 99
      ensures changes.Some? ==> IdsAreMetadata(metadata, changes.value)
    {
      hide WellFormed, Changes, Stored, FreshIds, Injective, Storable, IdsBelow, IdsAreMetadata;
      ghost var before := Now();
      WellFormedInjective(before);
      newIds := SaveMissing(reported);
      LoadKeepsWellFormed(before, reported, newIds);
      SavedOrKnown(before.metadata, reported, newIds, RowsOf(before, s));
      SomeChanges(reported, RowsOf(Now(), s), metadata);
      changes := EvaluateChanges(reported, Stored(metadata, if s in rows then rows[s] else map[]), metadata);
      if changes.Some? {
        KnownIdsAreMetadata(reported, RowsOf(Now(), s), metadata, changes.value);
      }
    }

    method SaveMissing(reported: map<string, Status>) returns (newIds: map<string, int>)
      requires Injective(metadata) && IdsBelow(metadata, nextId)
      modifies this`metadata, this`nextId
      ensures FreshIds(old(metadata), reported, newIds) && metadata == old(metadata) + newIds
      ensures newIds.Keys == set n | n in reported && n !in old(metadata) && 1 <= |n| <= 99
      ensures IdsBelow(metadata, nextId)
    {
      hide Injective, FreshIds;
      var next;
      newIds, next := NewIds(metadata, nextId, reported);
      metadata, nextId := metadata + newIds, next;
    }

    /**
     storeAdvisoryData and updateSystemPlatform, with the flag and the changes that were loaded earlier.
     If the system has been deleted since, no row is written, but the deltas are added.
     */
    method Store(s: SystemKey, stale: bool, ext: ExtendedMap)
      requires Valid() && IdsAreMetadata(metadata, ext)
      modifies this`systems, this`rows, this`aad
      ensures Valid() && StoreStep(old(Now()), s, stale, ext, Now())
    {
      hide ApplyToRows, CountsMove, IdsAreMetadata, Injective, Plus, DeltaIn, DeltaAt, Lists, WellFormed, RowsAfter;
      ghost var before := Now();
      WellFormedInjective(before);
      IdsAreDistinct(metadata, ext);
      var deleteIDs, objs := ProcessAdvisories(ext);
      var deltas := CalcAdvisoryChanges(stale, ext);
      aad := AddDeltas(aad, s.account, deltas);
      if s in systems {
        var stored: Rows := if s in rows then rows[s] else map[];
        ApplyIsRowsAfter(metadata, stored, ext, deleteIDs, objs);
        rows := rows[s := ApplyToRows(stored, deleteIDs, objs)];
        systems := systems[s := systems[s].(evaluated := true)];
      }
      DeltasMatchAll(stale, metadata, ext, deltas);
      MoveByDeltas(before, Now(), s.account, stale, ext, deltas);
      StoreKeepsWellFormed(before, s, stale, ext, Now());
    }

    /** An update of the stale flag, with the trigger on_system_update. */
    method SetStale(s: SystemKey, stale: bool)
      requires Valid()
      modifies this
      ensures Valid() && SetStaleStep(old(Now()), s, stale, Now())
      ensures systems == if s in old(systems) then old(systems)[s := old(systems)[s].(stale := stale)] else old(systems)
      ensures rows == old(rows) && metadata == old(metadata)
    {
      hide WellFormed, CountsMove, RowChange, TriggerAmount;
      if s !in systems {
        return;
      }
      ghost var before := Now();
      var was := systems[s];
      systems := systems[s := was.(stale := stale)];
      if was.evaluated && was.stale != stale {
        aad := AddRows(aad, s.account, if s in rows then rows[s] else map[], if stale then -1 else 1);
      }
      TriggerMoves(before, Now(), s, stale);
      SetStaleKeepsWellFormed(before, s, stale, Now());
    }

    /** delete_system: the flag first, so that the trigger takes the rows out of the counts. */
    method Delete(s: SystemKey)
      requires Valid()
      modifies this
      ensures Valid() && Step(old(Now()), Event.Delete(s), Now())
      ensures systems == old(systems) - {s} && rows == old(rows) - {s} && metadata == old(metadata)
    {
      hide SetStaleStep, WellFormed;
      ghost var before := Now();
      SetStale(s, true);
      ghost var mid := Now();
      rows := rows - {s};
      systems := systems - {s};
      assert DeleteStep(before, s, Now());
      DeleteKeepsWellFormed(mid, s, Now());
    }

    method Refresh(account: Option<int>, advisories: Option<set<int>>)
      requires Valid()
      modifies this
      ensures Valid() && Step(old(Now()), Event.Refresh(account, advisories), Now())
      ensures forall c :: At(aad, c)
                == if (account == None || account == Some(c.account))
                    && (advisories.None? || c.advisory in advisories.value)
                   then old(Recount(Now(), c)) else At(old(aad), c)
    {
      hide Recount, Matches;
      forall c { MatchesIff(account, advisories, c); }
      ghost var before := Now();
      aad := RefreshCaches(Db(metadata, systems, rows, aad), account, advisories);
      assert forall c :: Cached(Now(), c) == At(aad, c);
      assert forall c :: Cached(Now(), c)
                         == if Matches(account, advisories, c) then Recount(before, c) else Cached(before, c);
      assert Valid() by { hide Cached; }
    }
  }

  /** What the trigger adds to the counts of one cell. */
  lemma TriggerAt(db: Db, s: SystemKey, stale: bool, id: int)
    requires s in db.systems
    ensures TriggerAmount(db, s, stale, id)
            == if db.systems[s].evaluated && db.systems[s].stale != stale && id in RowsOf(db, s)
               then RowChange(Some(RowsOf(db, s)[id]), if stale then -1 else 1) else ZERO
  {
  }

  lemma TriggerMoves(db: Db, db': Db, s: SystemKey, stale: bool)
    requires s in db.systems
    requires forall c :: Cached(db', c)
                == if db.systems[s].evaluated && db.systems[s].stale != stale && c.account == s.account
                    && c.advisory in RowsOf(db, s)
                   then Plus(Cached(db, c), RowChange(Some(RowsOf(db, s)[c.advisory]), if stale then -1 else 1))
                   else Cached(db, c)
    ensures CountsMove(db, db', s.account, id => TriggerAmount(db, s, stale, id))
  {
    hide Cached, RowChange, TriggerAmount, Plus, RowsOf;
    forall c ensures Cached(db', c) == if c.account == s.account
        then Plus(Cached(db, c), TriggerAmount(db, s, stale, c.advisory))
                                       else Cached(db, c) {
      TriggerAt(db, s, stale, c.advisory);
      PlusNothing(Cached(db, c));
    }
  }

  lemma SetStaleKeepsWellFormed(db: Db, s: SystemKey, stale: bool, db': Db)
    requires WellFormed(db) && SetStaleStep(db, s, stale, db')
    ensures WellFormed(db')
  {
    hide CountsMove, Injective, RowsNamed;
  }

  lemma DeleteKeepsWellFormed(db: Db, s: SystemKey, db': Db)
    requires WellFormed(db) && db' == db.(systems := db.systems - {s}, rows := db.rows - {s})
    ensures WellFormed(db')
  {
    hide Injective, RowsNamed;
  }

  ghost predicate IdsBelow(metadata: map<string, int>, nextId: int)
  {
    forall n :: n in metadata ==> metadata[n] < nextId
  }

  lemma WellFormedInjective(db: Db)
    requires WellFormed(db)
    ensures Injective(db.metadata)
  {
  }

  /** After an evaluation that stores its report, the rows read back as the report. */
  lemma StepReads(db: Db, s: SystemKey, reported: map<string, Status>, newIds: map<string, int>, db': Db)
    requires WellFormed(db) && s in db.systems && EvaluateStep(db, s, reported, newIds, db')
    requires var metadata := db.metadata + newIds; Changes(reported, Stored(metadata, RowsOf(db, s)), metadata).Some?
    ensures Statuses(db'.metadata, RowsOf(db', s)) == reported
    ensures s in db'.rows && HoldsReport(db'.metadata, db'.rows[s], reported)
  {
    hide Changes, Stored, Injective, RowsNamed, ReportedRows, DeltaAt, FreshIds, WellFormed, CountsMove, Statuses;
    hide HoldsReport;
    FreshInjective(db.metadata, reported, newIds);
    StoredReads(db'.metadata, reported);
  }

  /** One row for each reported name, with its status, and no other. */
  ghost predicate HoldsReport(metadata: map<string, int>, rows: Rows, reported: map<string, Status>)
  {
    && (forall n :: n in reported ==> n in metadata && metadata[n] in rows && rows[metadata[n]] == reported[n])
    && forall id :: id in rows ==> exists n :: n in reported && n in metadata && metadata[n] == id
  }

  lemma NoSystem(db: Db, s: SystemKey, reported: map<string, Status>)
    requires s !in db.systems
    ensures EvaluateStep(db, s, reported, map[], db)
  {
  }

  lemma SomeChanges(reported: map<string, Status>, rows: Rows, metadata: map<string, int>)
    ensures Changes(reported, Stored(metadata, rows), metadata).Some? <==>
            AllKnown(reported, Stored(metadata, rows), metadata)
  {
  }

  lemma IdsAreDistinct(metadata: map<string, int>, ext: ExtendedMap)
    requires Injective(metadata) && IdsAreMetadata(metadata, ext)
    ensures IdsDistinct(ext)
  {
  }

  /**
   A new advisory from end to end: the first evaluation of a new system that reports a name not known
   before stores one row and counts one system.
   */
  method FirstAdvisory(s: SystemKey, name: string, status: Status) returns (t: Tables, ok: bool)
    requires 1 <= |name| <= 99
    ensures fresh(t) && t.Valid() && ok && t.metadata.Keys == {name}
    ensures t.systems == map[s := Inventory(false, true)] && t.rows == map[s := map[t.metadata[name] := status]]
    ensures forall c :: At(t.aad, c) == if c == Cell(s.account, t.metadata[name])
                                        then Counts(if status == Installable then 1 else 0, 1) else Counts(0, 0)
  {
    hide EvaluateStep, WellFormed, Recount, Statuses;
    t := new Tables();
    t.Register(s);
    ghost var before := t.Now();
    var newIds;
    ok, newIds := t.Evaluate(s, map[name := status]);
    FirstRows(before, s, name, status, newIds, t.Now());
    forall c ensures At(t.aad, c) == if c == Cell(s.account, t.metadata[name])
                                     then Counts(if status == Installable then 1 else 0, 1) else Counts(0, 0) {
      FirstCount(before, s, name, status, newIds, t.Now(), c);
    }
  }

  lemma FirstRows(db: Db, s: SystemKey, name: string, status: Status, newIds: map<string, int>, db': Db)
    requires db == Db(map[], map[s := Inventory(false, false)], map[], map[]) && newIds.Keys == {name}
    requires EvaluateStep(db, s, map[name := status], newIds, db')
    ensures db'.metadata == newIds && db'.systems == map[s := Inventory(false, true)]
    ensures db'.rows == map[s := map[newIds[name] := status]]
  {
    hide CountsMove, Injective, Changes;
    assert db.metadata + newIds == newIds;
    assert Changes(map[name := status], Stored(newIds, map[]), newIds).Some? by {
      SomeChanges(map[name := status], map[], newIds);
    }
    assert ReportedRows(newIds, map[name := status]) == map[newIds[name] := status] by { hide EvaluateStep; }
    SameKey<SystemKey, Inventory>(s, Inventory(false, false), Inventory(false, true));
  }

  lemma FirstCount(db: Db, s: SystemKey, name: string, status: Status, newIds: map<string, int>, db': Db, c: Cell)
    requires db == Db(map[], map[s := Inventory(false, false)], map[], map[]) && newIds.Keys == {name}
    requires EvaluateStep(db, s, map[name := status], newIds, db')
    ensures At(db'.aad, c) == if c == Cell(s.account, newIds[name])
                              then Counts(if status == Installable then 1 else 0, 1) else Counts(0, 0)
  {
    hide EvaluateStep;
    var ev := Event.Evaluate(s, map[name := status], newIds);
    FirstRows(db, s, name, status, newIds, db');
    assert Agree(db) by { NothingCounted(db); }
    CleanStepAgrees(db, ev, db');
    assert Cached(db', c) == Recount(db', c) == At(db'.aad, c);
    var carriers := if c == Cell(s.account, newIds[name]) then {s} else {};
    assert Carriers(db', c) == carriers;
    assert InstallableCarriers(db', c) == if status == Installable then carriers else {};
  }

  lemma NothingCounted(db: Db)
    requires db.rows == map[] && db.aad == map[]
    ensures Agree(db)
  {
    forall c ensures Cached(db, c) == Recount(db, c) {
      assert Carriers(db, c) == {} && InstallableCarriers(db, c) == {};
    }
  }

  // ----- any schedule

  datatype Job =
    | RegisterSystem(system: SystemKey)
    | EvaluateAtOnce(system: SystemKey, reported: map<string, Status>)
    | FlipStale(system: SystemKey, stale: bool)
    | DeleteSystem(system: SystemKey)
    | RefreshCounts(account: Option<int>, advisories: Option<set<int>>)
    | ReadSystem(worker: int, system: SystemKey)
    | LoadChanges(worker: int, reported: map<string, Status>)
    | StoreChanges(worker: int)
    | GiveUp(worker: int)

  /** The action is the one that the job asks for. */
  ghost predicate CarriesOut(job: Job, action: Action)
  {
    match job
    case RegisterSystem(s) => action == Other(Event.Register(s))
    case EvaluateAtOnce(s, reported) =>
      action.Other? && action.ev.Evaluate? && action.ev == Event.Evaluate(s, reported, action.ev.newIds)
    case FlipStale(s, stale) => action == Other(Event.SetStale(s, stale))
    case DeleteSystem(s) => action == Other(Event.Delete(s))
    case RefreshCounts(account, advisories) => action == Other(Event.Refresh(account, advisories))
    case ReadSystem(worker, s) => action == Fetch(worker, s)
    case LoadChanges(worker, reported) => action.Load? && action == Load(worker, reported, action.newIds)
    case StoreChanges(worker) => action == Action.Store(worker)
    case GiveUp(worker) => action == Abandon(worker)
  }

  /** One job of a worker, on the tables and on what the workers have read and loaded. */
  method Perform(t: Tables, fetches: map<int, Fetched>, loads: map<int, Loaded>, job: Job)
    returns (fetches': map<int, Fetched>, loads': map<int, Loaded>, ghost action: Action)
    requires t.Valid() && LoadsOk(t.metadata, loads)
    modifies t
    ensures t.Valid() && LoadsOk(t.metadata, loads') && CarriesOut(job, action)
    ensures ActionStep(World(old(t.Now()), fetches, loads), action, World(t.Now(), fetches', loads'))
  {
    hide WellFormed, Step, StoreStep, FreshIds, Changes, Stored, IdsBelow, IdsAreMetadata;
    ghost var before := World(t.Now(), fetches, loads);
    fetches', loads' := fetches, loads;
    match job {
      case RegisterSystem(s) =>
        t.Register(s);
        action := Other(Event.Register(s));
      case EvaluateAtOnce(s, reported) =>
        var _, newIds := t.Evaluate(s, reported);
        action := Other(Event.Evaluate(s, reported, newIds));
      case FlipStale(s, stale) =>
        t.SetStale(s, stale);
        action := Other(Event.SetStale(s, stale));
        assert Step(before.db, action.ev, t.Now()) by { StaleIsStep(before.db, s, stale, t.Now()); }
      case DeleteSystem(s) =>
        t.Delete(s);
        action := Other(Event.Delete(s));
      case RefreshCounts(account, advisories) =>
        t.Refresh(account, advisories);
        action := Other(Event.Refresh(account, advisories));
      case ReadSystem(worker, s) =>
        if worker !in fetches && worker !in loads && s in t.systems {
          fetches' := fetches[worker := Fetched(s, t.systems[s].stale)];
        }
        action := Fetch(worker, s);
      case LoadChanges(worker, reported) =>
        var newIds: map<string, int> := map[];
        if worker in fetches {
          var f, changes := fetches[worker], None;
          changes, newIds := t.LazySaveAndLoad(f.system, reported);
          fetches' := fetches - {worker};
          if changes.Some? {
            loads' := loads[worker := Loaded(f.system, f.stale, changes.value)];
          }
        }
        action := Load(worker, reported, newIds);
      case StoreChanges(worker) =>
        if worker in loads {
          t.Store(loads[worker].system, loads[worker].stale, loads[worker].ext);
          loads' := loads - {worker};
        }
        action := Action.Store(worker);
      case GiveUp(worker) =>
        fetches', loads' := fetches - {worker}, loads - {worker};
        action := Abandon(worker);
    }
    WorldStaysOk(before, action, World(t.Now(), fetches', loads'));
  }

  lemma StaleIsStep(db: Db, s: SystemKey, stale: bool, db': Db)
    requires SetStaleStep(db, s, stale, db')
    ensures Step(db, Event.SetStale(s, stale), db')
  {
  }

  ghost predicate LoadsOk(metadata: map<string, int>, loads: map<int, Loaded>)
  {
    forall k :: k in loads ==> IdsAreMetadata(metadata, loads[k].ext)
  }

  lemma WorldStaysOk(w: World, a: Action, w': World)
    requires WellFormed(w.db) && LoadsOk(w.db.metadata, w.loads) && ActionStep(w, a, w')
    ensures LoadsOk(w'.db.metadata, w'.loads)
  {
    hide WellFormed, ActionStep, IdsAreMetadata;
    ActionKeepsWorldOk(w, a, w');
  }

  /**
   Whatever jobs the workers do in whatever order, the tables go through an interleaving in the sense of
   the drift law, one action for each job, so from agreement a cell's counts end up right exactly when
   its marks cancel out.
   */
  method Interleave(t: Tables, schedule: seq<Job>) returns (ghost ws: seq<World>, ghost actions: seq<Action>)
    requires t.Valid()
    modifies t
    ensures t.Valid() && |actions| == |schedule| && Interleaving(ws, actions)
    ensures ws[0] == World(old(t.Now()), map[], map[]) && ws[|actions|].db == t.Now()
    ensures forall i :: 0 <= i < |schedule| ==> CarriesOut(schedule[i], actions[i])
    ensures forall c :: Drift(t.Now(), c) == Plus(StartDrift(ws[0], actions, c), MarksSince(ws, actions, c))
  {
    hide ActionStep, CarriesOut, Drift, WellFormed, IdsAreMetadata, Plus, MarksSince, StartDrift;
    var fetches: map<int, Fetched>, loads: map<int, Loaded> := map[], map[];
    ws, actions := [World(t.Now(), fetches, loads)], [];
    for i := 0 to |schedule|
      invariant t.Valid() && LoadsOk(t.metadata, loads)
      invariant |actions| == i && Interleaving(ws, actions)
      invariant ws[0] == World(old(t.Now()), map[], map[]) && ws[i] == World(t.Now(), fetches, loads)
      invariant forall j :: 0 <= j < i ==> CarriesOut(schedule[j], actions[j])
    {
      ghost var action;
      fetches, loads, action := Perform(t, fetches, loads, schedule[i]);
      OneMoreAction(ws, actions, action, World(t.Now(), fetches, loads));
      ws, actions := ws + [World(t.Now(), fetches, loads)], actions + [action];
    }
    forall c ensures Drift(t.Now(), c) == Plus(StartDrift(ws[0], actions, c), MarksSince(ws, actions, c)) {
      InterleavedDriftLaw(ws, actions, c);
    }
  }

  lemma OneMoreAction(ws: seq<World>, actions: seq<Action>, a: Action, w: World)
    requires Interleaving(ws, actions) && ActionStep(ws[|actions|], a, w)
    ensures Interleaving(ws + [w], actions + [a])
  {
    hide ActionStep, WorldOk;
  }
}
