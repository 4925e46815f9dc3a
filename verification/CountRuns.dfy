/**
 The cached counts over whole runs: any sequence of registrations, evaluations, stale flips,
 deletions and refreshes of any number of systems and accounts.
 */
module CountRuns {
  import opened Wrappers
  import opened Vmaas
  import opened AdvisoryChanges
  import opened AccountCounts

  ghost predicate Run(dbs: seq<Db>, evs: seq<Event>)
  {
    && |dbs| == |evs| + 1 && WellFormed(dbs[0])
    && forall i :: 0 <= i < |evs| ==> Step(dbs[i], evs[i], dbs[i + 1])
  }

  predicate Clears(ev: Event, c: Cell) { ev.Refresh? && Matches(ev.account, ev.advisories, c) }

  predicate Cleared(evs: seq<Event>, c: Cell)
  {
    exists i :: 0 <= i < |evs| && Clears(evs[i], c)
  }

  function AddMarks(a: Marks, b: Marks): Marks
  {
    Marks(a.updates + b.updates, a.toApplicable + b.toApplicable, a.removedApplicable + b.removedApplicable)
  }

  /** The marks of a cell since its last refresh, or since the start of the run. */
  ghost function Tally(dbs: seq<Db>, evs: seq<Event>, c: Cell): Marks
    requires |dbs| == |evs| + 1
  {
    if evs == [] then NoMarks()
    else
      var n := |evs| - 1;
      if Clears(evs[n], c) then NoMarks()
      else AddMarks(Tally(dbs[..n + 1], evs[..n], c), MarksAt(dbs[n], evs[n], c))
  }

  lemma {:induction false} RunsStayWellFormed(dbs: seq<Db>, evs: seq<Event>)
    requires Run(dbs, evs)
    ensures WellFormed(dbs[|evs|])
  {
    hide WellFormed, Step;
    if evs != [] {
      var n := |evs| - 1;
      RunsStayWellFormed(dbs[..n + 1], evs[..n]);
      assert Step(dbs[n], evs[n], dbs[n + 1]);
      StepKeepsWellFormed(dbs[n], evs[n], dbs[n + 1]);
    }
  }

  /** An initial drift, or none after a refresh. */
  ghost function BaseDrift(db: Db, evs: seq<Event>, c: Cell): Counts
  {
    if Cleared(evs, c) then ZERO else Drift(db, c)
  }

  /**
   The drift law: at the end of any run the cached counts are off by exactly the marks since the last
   refresh of the cell, on top of what they were off by at the start if it was never refreshed.
   */
  lemma {:induction false} DriftLaw(dbs: seq<Db>, evs: seq<Event>, c: Cell)
    requires Run(dbs, evs)
    ensures Drift(dbs[|evs|], c) == Plus(BaseDrift(dbs[0], evs, c), MarkDrift(Tally(dbs, evs, c)))
  {
    hide WellFormed, Step, Drift, MarksAt, Matches, Plus, MarkDrift, AddMarks, NoMarks;
    PlusNoMarks(BaseDrift(dbs[0], evs, c));
    if evs != [] {
      var n := |evs| - 1;
      var dbs0, evs0 := dbs[..n + 1], evs[..n];
      DriftLaw(dbs0, evs0, c);
      RunsStayWellFormed(dbs0, evs0);
      assert Step(dbs[n], evs[n], dbs[n + 1]);
      StepDrift(dbs[n], evs[n], dbs[n + 1], c);
      ClearedAtLast(evs, c);
      PlusMarks(BaseDrift(dbs[0], evs0, c), Tally(dbs0, evs0, c), MarksAt(dbs[n], evs[n], c));
    }
  }

  lemma PlusNoMarks(base: Counts)
    ensures Plus(base, MarkDrift(NoMarks())) == base
  {
    assert MarkDrift(NoMarks()) == ZERO;
    hide MarkDrift;
    assert Plus(base, ZERO) == base;
  }

  lemma PlusMarks(base: Counts, a: Marks, b: Marks)
    ensures Plus(Plus(base, MarkDrift(a)), MarkDrift(b)) == Plus(base, MarkDrift(AddMarks(a, b)))
  {
  }

  lemma ClearedAtLast(evs: seq<Event>, c: Cell)
    requires evs != []
    ensures Cleared(evs, c) <==> Clears(evs[|evs| - 1], c) || Cleared(evs[..|evs| - 1], c)
  {
    var init := evs[..|evs| - 1];
    if i :| 0 <= i < |evs| && Clears(evs[i], c) {
      assert i < |init| ==> Clears(init[i], c);
    }
    if i :| 0 <= i < |init| && Clears(init[i], c) {
      assert Clears(evs[i], c);
    }
  }

  ghost predicate Agree(db: Db) { forall c :: Cached(db, c) == Recount(db, c) }

  /** A status that becomes APPLICABLE is an updated one. */
  lemma {:induction false} TallyBound(dbs: seq<Db>, evs: seq<Event>, c: Cell)
    requires |dbs| == |evs| + 1
    ensures Tally(dbs, evs, c).toApplicable <= Tally(dbs, evs, c).updates
  {
    hide MarksAt;
    if evs != [] {
      var n := |evs| - 1;
      TallyBound(dbs[..n + 1], evs[..n], c);
      MarksBound(dbs[n], evs[n], c);
    }
  }

  lemma MarksBound(db: Db, ev: Event, c: Cell)
    ensures MarksAt(db, ev, c).toApplicable <= MarksAt(db, ev, c).updates
  {
    hide Changes, Stored, ChangeAt;
  }

  lemma AgreedDrift(db: Db, c: Cell)
    requires Agree(db)
    ensures Drift(db, c) == ZERO
  {
    hide Recount, Cached;
    assert Cached(db, c) == Recount(db, c);
  }

  lemma TallyIsDrift(dbs: seq<Db>, evs: seq<Event>, c: Cell)
    requires Run(dbs, evs) && Agree(dbs[0])
    ensures Drift(dbs[|evs|], c) == MarkDrift(Tally(dbs, evs, c))
  {
    hide Run, Drift, Tally, Agree, Cleared;
    assert |dbs| == |evs| + 1 by { UnfoldRun(dbs, evs); }
    DriftLaw(dbs, evs, c);
    AgreedDrift(dbs[0], c);
  }

  lemma UnfoldRun(dbs: seq<Db>, evs: seq<Event>)
    requires Run(dbs, evs)
    ensures |dbs| == |evs| + 1
  {
  }

  /** From agreement, the cached systems_applicable is never below the recount. */
  lemma ApplicableNeverTooLow(dbs: seq<Db>, evs: seq<Event>, c: Cell)
    requires Run(dbs, evs) && Agree(dbs[0])
    ensures Cached(dbs[|evs|], c).applicable >= Recount(dbs[|evs|], c).applicable
  {
    hide WellFormed, Step, Agree, Tally, Cached, Recount;
    TallyIsDrift(dbs, evs, c);
  }

  /**
   From agreement, exactly when each count of a cell is right: the applicable one if no status was
   updated and no APPLICABLE row was removed since the last refresh, the installable one if as many
   APPLICABLE rows were removed as statuses became APPLICABLE.
   */
  lemma CountsRightIff(dbs: seq<Db>, evs: seq<Event>, c: Cell)
    requires Run(dbs, evs) && Agree(dbs[0])
    ensures var db, t := dbs[|evs|], Tally(dbs, evs, c);
            && (Cached(db, c).applicable == Recount(db, c).applicable <==> t.updates == 0 && t.removedApplicable == 0)
            && (Cached(db, c).installable == Recount(db, c).installable <==> t.toApplicable == t.removedApplicable)
            && (Cached(db, c) == Recount(db, c) <==> t.updates == 0 && t.removedApplicable == 0)
  {
    hide WellFormed, Step, Agree, Tally, Cached, Recount;
    TallyIsDrift(dbs, evs, c);
    TallyBound(dbs, evs, c);
  }

  // ----- the marks, read off the tables

  /** An event that changes no status and removes no APPLICABLE row of a counted system's cell. */
  ghost predicate Clean(db: Db, ev: Event, db': Db)
  {
    ev.Evaluate? && ev.system in db.systems && !db.systems[ev.system].stale ==>
      forall id :: id in RowsOf(db, ev.system) ==>
        if id in RowsOf(db', ev.system) then RowsOf(db', ev.system)[id] == RowsOf(db, ev.system)[id]
        else RowsOf(db, ev.system)[id] == Installable
  }

  /** The marks of an evaluation say how the one row of the cell changed. */
  lemma MarksReadRows(db: Db, ev: Event, db': Db, c: Cell)
    requires WellFormed(db) && Step(db, ev, db') && ev.Evaluate? && ev.system in db.systems
    requires !db.systems[ev.system].stale && c.account == ev.system.account
    ensures var before, after := StatusAt(RowsOf(db, ev.system), c.advisory),
            StatusAt(RowsOf(db', ev.system), c.advisory);
            MarksAt(db, ev, c) == MarksOf(ChangeBetween(before, after, c.advisory))
  {
    hide WellFormed, Changes, Stored, ChangeAt, RowsNamed, Injective, CountsMove, ReportedRows, StatusAt;
    var metadata := db.metadata + ev.newIds;
    OldNamesStay(db, ev.system, metadata, ev.reported, ev.newIds);
    if Changes(ev.reported, Stored(metadata, RowsOf(db, ev.system)), metadata).Some? {
      ChangeAtIs(metadata, RowsOf(db, ev.system), ev.reported, c.advisory);
    } else {
      assert RowsOf(db', ev.system) == RowsOf(db, ev.system);
    }
  }

  lemma CleanLeavesNoMarks(db: Db, ev: Event, db': Db, c: Cell)
    requires WellFormed(db) && Step(db, ev, db') && Clean(db, ev, db')
    ensures MarkDrift(MarksAt(db, ev, c)) == ZERO
  {
    hide WellFormed, Step, Changes, Stored, ChangeAt;
    if ev.Evaluate? && ev.system in db.systems && !db.systems[ev.system].stale && c.account == ev.system.account {
      hide MarksAt;
      MarksReadRows(db, ev, db', c);
    }
  }

  /** Runs of clean events keep every cell right at every state. */
  lemma {:induction false} CleanRunsAgree(dbs: seq<Db>, evs: seq<Event>)
    requires Run(dbs, evs) && Agree(dbs[0])
    requires forall i :: 0 <= i < |evs| ==> Clean(dbs[i], evs[i], dbs[i + 1])
    ensures forall i :: 0 <= i <= |evs| ==> Agree(dbs[i])
  {
    hide WellFormed, Step, Clean, Agree;
    if evs != [] {
      var n := |evs| - 1;
      CleanRunsAgree(dbs[..n + 1], evs[..n]);
      RunsStayWellFormed(dbs[..n + 1], evs[..n]);
      assert Step(dbs[n], evs[n], dbs[n + 1]) && Clean(dbs[n], evs[n], dbs[n + 1]);
      assert Agree(dbs[n]);
      CleanStepAgrees(dbs[n], evs[n], dbs[n + 1]);
      forall i | 0 <= i <= |evs| ensures Agree(dbs[i]) {
        if i <= n { assert dbs[..n + 1][i] == dbs[i]; }
      }
    }
  }

  lemma CleanStepAgrees(db: Db, ev: Event, db': Db)
    requires WellFormed(db) && Step(db, ev, db') && Clean(db, ev, db') && Agree(db)
    ensures Agree(db')
  {
    hide WellFormed, Step, Clean, Recount, Cached;
    forall c ensures Cached(db', c) == Recount(db', c) {
      CleanStepAt(db, ev, db', c);
    }
  }

  lemma CleanStepAt(db: Db, ev: Event, db': Db, c: Cell)
    requires WellFormed(db) && Step(db, ev, db') && Clean(db, ev, db') && Agree(db)
    ensures Cached(db', c) == Recount(db', c)
  {
    hide WellFormed, Step, Clean, Recount, Cached, MarksAt, Matches, MarkDrift, Agree, Drift, Plus;
    AgreedDrift(db, c);
    StepDrift(db, ev, db', c);
    CleanLeavesNoMarks(db, ev, db', c);
    PlusZero();
    NoDriftIff(db', c);
  }

  lemma PlusZero()
    ensures Plus(ZERO, ZERO) == ZERO
  {
  }

  lemma NoDriftIff(db: Db, c: Cell)
    ensures Drift(db, c) == ZERO <==> Cached(db, c) == Recount(db, c)
  {
    hide Recount, Cached;
  }

  // ----- a run that goes wrong

  const SOME_SYSTEM := SystemKey(1, 1)

  /** One system whose only row, an APPLICABLE advisory, is counted. */
  function Before(): Db
  {
    Db(map["RHSA-1" := 1], map[SOME_SYSTEM := Inventory(false, true)],
       map[SOME_SYSTEM := map[1 := Applicable]], map[Cell(1, 1) := Counts(0, 1)])
  }

  /** The tables after an evaluation that reports nothing any more. */
  function After(): Db
  {
    Db(map["RHSA-1" := 1], map[SOME_SYSTEM := Inventory(false, true)],
       map[SOME_SYSTEM := map[]], map[Cell(1, 1) := Counts(-1, 1)])
  }

  lemma BeforeRecount(c: Cell)
    ensures Recount(Before(), c) == if c == Cell(1, 1) then Counts(0, 1) else ZERO
  {
    assert InstallableCarriers(Before(), c) == {};
    assert Carriers(Before(), c) == if c == Cell(1, 1) then {SOME_SYSTEM} else {};
  }

  lemma AfterRecount(c: Cell)
    ensures Recount(After(), c) == ZERO
  {
    assert InstallableCarriers(After(), c) == {};
    assert Carriers(After(), c) == {};
  }

  function Removal(): ExtendedMap { map["RHSA-1" := Extended(Remove, SystemAdvisory(1, Applicable))] }

  lemma RemovalChanges()
    ensures Changes(map[], Stored(Before().metadata, RowsOf(Before(), SOME_SYSTEM)), Before().metadata)
            == Some(Removal())
  {
    var stored := Stored(Before().metadata, RowsOf(Before(), SOME_SYSTEM));
    assert stored == map["RHSA-1" := SystemAdvisory(1, Applicable)];
    ChangesByName(map[], stored, Before().metadata, Removal());
  }

  lemma RemovalDelta(id: int)
    ensures DeltaAt(Removal(), id) == if id == 1 then Counts(-1, 0) else ZERO
  {
    var ext := Removal();
    assert ext["RHSA-1"].advisory.advisoryId == 1;
    assert ChangeAt(ext, id) == if id == 1 then Some(ext["RHSA-1"]) else None;
  }

  lemma RemovalCount(c: Cell)
    ensures Cached(After(), c)
            == if c.account == 1 then Plus(Cached(Before(), c), DeltaAt(Removal(), c.advisory)) else Cached(Before(), c)
  {
    hide DeltaAt, Removal;
    RemovalDelta(c.advisory);
    var before, delta := Cached(Before(), c), DeltaAt(Removal(), c.advisory);
    assert Cell(c.account, c.advisory) == c;
    assert before == if c == Cell(1, 1) then Counts(0, 1) else ZERO;
    assert Cached(After(), c) == if c == Cell(1, 1) then Counts(-1, 1) else ZERO;
  }

  lemma RemovalCounts()
    ensures CountsMove(Before(), After(), 1, id => DeltaAt(Removal(), id))
  {
    hide DeltaAt, Removal, Cached, Plus;
    forall c
      ensures Cached(After(), c)
              == if c.account == 1 then Plus(Cached(Before(), c), DeltaAt(Removal(), c.advisory))
                 else Cached(Before(), c)
    {
      RemovalCount(c);
    }
  }

  lemma NothingNew(metadata: map<string, int>)
    requires Injective(metadata)
    ensures metadata + map[] == metadata && FreshIds(metadata, map[], map[])
  {
    hide Injective;
    assert metadata + map[] == metadata;
  }

  lemma NothingReported(metadata: map<string, int>)
    requires Injective(metadata)
    ensures ReportedRows(metadata, map[]) == map[]
  {
  }

  lemma SameInventory(systems: map<SystemKey, Inventory>, s: SystemKey)
    requires s in systems && systems[s].evaluated
    ensures systems[s := systems[s].(evaluated := true)] == systems
  {
  }

  lemma SameKey<K, V>(k: K, v: V, w: V)
    ensures map[k := v][k := w] == map[k := w]
  {
  }

  lemma RemovalStep()
    ensures EvaluateStep(Before(), SOME_SYSTEM, map[], map[], After())
  {
    hide EvaluateStep, Changes, Stored, DeltaAt, CountsMove, Removal, ReportedRows, FreshIds;
    NothingNew(Before().metadata);
    NothingReported(Before().metadata);
    SameInventory(Before().systems, SOME_SYSTEM);
    SameKey<SystemKey, Rows>(SOME_SYSTEM, map[1 := Applicable], map[]);
    RemovalChanges();
    RemovalCounts();
    MoveForActive(Before(), After(), SOME_SYSTEM, Removal());
    StoringStep(Before(), SOME_SYSTEM, map[], map[], Removal(), After());
  }

  lemma BeforeIsFine()
    ensures WellFormed(Before()) && Agree(Before())
  {
    hide Cached, Recount;
    forall c ensures Cached(Before(), c) == Recount(Before(), c) { BeforeAgrees(c); }
    assert Before().metadata["RHSA-1"] == 1;
  }

  lemma BeforeAgrees(c: Cell)
    ensures Cached(Before(), c) == Recount(Before(), c)
  {
    hide Recount;
    BeforeRecount(c);
  }

  /**
   The counts do go wrong: from tables that agree, an evaluation that no longer reports a counted
   APPLICABLE advisory leaves one system too many applicable and one too few installable.
   */
  lemma RemovalMiscounts()
    ensures WellFormed(Before()) && Agree(Before())
    ensures Step(Before(), Evaluate(SOME_SYSTEM, map[], map[]), After())
    ensures Cached(After(), Cell(1, 1)) == Counts(-1, 1) && Recount(After(), Cell(1, 1)) == Counts(0, 0)
  {
    hide EvaluateStep, WellFormed, Agree, Recount;
    BeforeIsFine();
    AfterRecount(Cell(1, 1));
    RemovalStep();
  }

  lemma MoveForActive(db: Db, db': Db, s: SystemKey, ext: ExtendedMap)
    requires s in db.systems && !db.systems[s].stale && CountsMove(db, db', s.account, id => DeltaAt(ext, id))
    ensures CountsMove(db, db', s.account, id => if db.systems[s].stale then ZERO else DeltaAt(ext, id))
  {
    hide Cached, DeltaAt;
  }
}
