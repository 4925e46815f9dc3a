/**
 Evaluations in three steps (evaluator/evaluate.go, evaluator/evaluate_advisories.go): the system and its
 stale flag are read first; after the request to VMaaS the stored rows are loaded and the changes
 classified; they are stored in a transaction of their own. Between the steps the flag may flip, the
 system may be deleted, its rows may be stored by another evaluation.
 */
module EvaluationSteps {
  import opened Wrappers
  import opened Vmaas
  import opened AdvisoryChanges
  import opened AccountCounts
  import opened CountRuns

  // ----- storing changes that were classified earlier

  /** A row after the delete and the upsert for its change. */
  function RowAfter(e: Option<Extended>, row: Option<Status>): Option<Status>
  {
    if e.None? || e.value.change == Keep then row
    else if e.value.change == Remove then None
    else Some(e.value.advisory.status)
  }

  ghost predicate RowsAfter(rows: Rows, ext: ExtendedMap, rows': Rows)
  {
    forall id :: StatusAt(rows', id) == RowAfter(ChangeAt(ext, id), StatusAt(rows, id))
  }

  /**
   The transaction of an evaluation that loaded the given flag and classified the given changes: a system
   that is gone gets no rows, but the deltas are added all the same.
   */
  ghost predicate StoreStep(db: Db, s: SystemKey, stale: bool, ext: ExtendedMap, db': Db)
  {
    && db'.metadata == db.metadata
    && CountsMove(db, db', s.account, id => if stale then ZERO else DeltaAt(ext, id))
    && if s in db.systems then
         && db'.systems == db.systems[s := db.systems[s].(evaluated := true)]
         && s in db'.rows && db'.rows == db.rows[s := db'.rows[s]]
         && RowsAfter(RowsOf(db, s), ext, db'.rows[s])
       else
         db'.systems == db.systems && db'.rows == db.rows
  }

  predicate Active(db: Db, s: SystemKey) { s in db.systems && !db.systems[s].stale }

  /** How a store moves the drift of one cell. */
  ghost function StoreMark(db: Db, s: SystemKey, stale: bool, ext: ExtendedMap, c: Cell): Counts
  {
    var e, row := ChangeAt(ext, c.advisory), StatusAt(RowsOf(db, s), c.advisory);
    if c.account != s.account then ZERO
    else Minus(if stale then ZERO else Added(e),
               if Active(db, s) then Minus(Weight(RowAfter(e, row)), Weight(row)) else ZERO)
  }

  lemma StoreMoves(db: Db, s: SystemKey, stale: bool, ext: ExtendedMap, db': Db, c: Cell)
    requires StoreStep(db, s, stale, ext, db')
    ensures Cached(db', c)
            == Plus(Cached(db, c), if c.account == s.account && !stale then Added(ChangeAt(ext, c.advisory)) else ZERO)
    ensures OnlyTouches(db, db', s)
  {
    hide ChangeAt, Added, Cached, Plus, RowsAfter;
    MoveAt(db, db', s.account, id => if stale then ZERO else DeltaAt(ext, id), c);
  }

  lemma StoreShares(db: Db, s: SystemKey, stale: bool, ext: ExtendedMap, db': Db, c: Cell)
    requires WellFormed(db) && StoreStep(db, s, stale, ext, db')
    ensures var e, row := ChangeAt(ext, c.advisory), StatusAt(RowsOf(db, s), c.advisory);
            var on := c.account == s.account && Active(db, s);
            && Share(db, c, s) == (if on then Weight(row) else ZERO)
            && Share(db', c, s) == (if on then Weight(RowAfter(e, row)) else ZERO)
  {
    hide ChangeAt, DeltaAt, CountsMove, Injective, RowsNamed, Weight, RowAfter;
    assert Weight(None) == ZERO by { NoWeight(); }
    if s in db.systems {
      assert RowsOf(db', s) == db'.rows[s];
      assert StatusAt(RowsOf(db', s), c.advisory)
             == RowAfter(ChangeAt(ext, c.advisory), StatusAt(RowsOf(db, s), c.advisory));
    }
  }

  lemma NoWeight()
    ensures Weight(None) == ZERO
  {
  }

  lemma NothingMoves()
    ensures Minus(ZERO, ZERO) == ZERO && Minus(ZERO, Minus(ZERO, ZERO)) == ZERO
  {
  }

  lemma NothingToTake(a: Counts)
    ensures Minus(a, Minus(ZERO, ZERO)) == Minus(a, ZERO) == a
  {
  }

  /** The drift law for one store, whatever happened since the load. */
  lemma StoreDrift(db: Db, s: SystemKey, stale: bool, ext: ExtendedMap, db': Db, c: Cell)
    requires WellFormed(db) && StoreStep(db, s, stale, ext, db')
    ensures Drift(db', c) == Plus(Drift(db, c), StoreMark(db, s, stale, ext, c))
  {
    hide ChangeAt, Added, Drift, Cached, Plus, Minus, Weight, RowAfter, StatusAt, RowsOf, Share, OnlyTouches, StoreStep,
         WellFormed;
    var moved := if c.account == s.account && !stale then Added(ChangeAt(ext, c.advisory)) else ZERO;
    StoreMoves(db, s, stale, ext, db', c);
    StoreShares(db, s, stale, ext, db', c);
    DriftMoves(db, db', s, c, moved);
    NothingMoves();
    NothingToTake(moved);
  }

  // ----- what a store leaves behind

  /** The three ways a counted store of an active system meets its row. */
  lemma ActiveStoreMark(db: Db, s: SystemKey, ext: ExtendedMap, c: Cell)
    requires Active(db, s) && c.account == s.account
    ensures var e, row := ChangeAt(ext, c.advisory), StatusAt(RowsOf(db, s), c.advisory);
            StoreMark(db, s, false, ext, c)
            == if e.None? || e.value.change == Keep then ZERO
               else if Upserts(e.value) then Weight(row)
               else Plus(Weight(row), Counts(-1, if e.value.advisory.status == Applicable then 0 else -1))
  {
    hide ChangeAt, RowsOf;
    var e, row := ChangeAt(ext, c.advisory), StatusAt(RowsOf(db, s), c.advisory);
    MarkOfMeeting(e, row);
  }

  function Meeting(e: Option<Extended>, row: Option<Status>): Counts
  {
    Minus(Added(e), Minus(Weight(RowAfter(e, row)), Weight(row)))
  }

  lemma MarkOfMeeting(e: Option<Extended>, row: Option<Status>)
    ensures Meeting(e, row)
            == if e.None? || e.value.change == Keep then ZERO
               else if Upserts(e.value) then Weight(row)
               else Plus(Weight(row), Counts(-1, if e.value.advisory.status == Applicable then 0 else -1))
  {
    hide Weight;
    NoWeight();
    if e.Some? && Upserts(e.value) {
      AddedIsWeight(e.value);
      AddedCancels(Weight(Some(e.value.advisory.status)), Weight(row));
    } else if e.Some? && e.value.change == Remove {
      RemovedStays(Added(e), Weight(row));
    } else {
      SameCancels(Weight(row));
    }
  }

  lemma AddedIsWeight(e: Extended)
    requires Upserts(e)
    ensures Added(Some(e)) == Weight(Some(e.advisory.status))
  {
  }

  lemma AddedCancels(a: Counts, b: Counts)
    ensures Minus(a, Minus(a, b)) == b
  {
  }

  lemma RemovedStays(a: Counts, b: Counts)
    ensures Minus(a, Minus(ZERO, b)) == Plus(b, a)
  {
  }

  lemma SameCancels(b: Counts)
    ensures Minus(ZERO, Minus(b, b)) == ZERO
  {
  }

  /** The cell stays as right or as wrong as it was exactly when the delta fits the row that the store meets. */
  ghost predicate Fits(db: Db, s: SystemKey, stale: bool, e: Option<Extended>, row: Option<Status>)
  {
    if !Active(db, s) then stale || e.None? || e.value.change == Keep
    else if stale then RowAfter(e, row) == row
    else if e.None? || e.value.change == Keep then true
    else if Upserts(e.value) then row.None?
    else row == Some(Installable) && e.value.advisory.status == Installable
  }

  /** A store leaves the drift of a cell alone exactly when it fits there. */
  lemma StoreFitsIff(db: Db, s: SystemKey, stale: bool, ext: ExtendedMap, c: Cell)
    requires c.account == s.account
    ensures StoreMark(db, s, stale, ext, c) == ZERO
       <==> Fits(db, s, stale, ChangeAt(ext, c.advisory), StatusAt(RowsOf(db, s), c.advisory))
  {
    hide ChangeAt, RowsOf;
    var e, row := ChangeAt(ext, c.advisory), StatusAt(RowsOf(db, s), c.advisory);
    if Active(db, s) {
      if stale {
        ShareChangeFits(e, row);
      } else {
        ActiveStoreMark(db, s, ext, c);
        if e.Some? && e.value.change != Keep { MeetingFits(e, row); }
      }
    } else {
      DeltaFits(e);
      NothingToTake(if stale then ZERO else Added(e));
    }
  }

  lemma DeltaFits(e: Option<Extended>)
    ensures Added(e) == ZERO <==> e.None? || e.value.change == Keep
  {
  }

  lemma ShareChangeFits(e: Option<Extended>, row: Option<Status>)
    ensures Minus(ZERO, Minus(Weight(RowAfter(e, row)), Weight(row))) == ZERO <==> RowAfter(e, row) == row
  {
    hide RowAfter;
    WeightsDiffer(RowAfter(e, row), row);
  }

  lemma WeightsDiffer(a: Option<Status>, b: Option<Status>)
    ensures Minus(ZERO, Minus(Weight(a), Weight(b))) == ZERO <==> a == b
  {
    if a.None? || b.None? {
      assert Weight(a).applicable == Weight(b).applicable <==> a == b;
    } else {
      assert Weight(a).installable == Weight(b).installable <==> a == b;
    }
    hide Weight;
  }

  lemma MeetingFits(e: Option<Extended>, row: Option<Status>)
    requires e.Some? && e.value.change != Keep
    ensures Upserts(e.value) ==> (Weight(row) == ZERO <==> row.None?)
    ensures !Upserts(e.value) ==>
              (Plus(Weight(row), Counts(-1, if e.value.advisory.status == Applicable then 0 else -1)) == ZERO
               <==> row == Some(Installable) && e.value.advisory.status == Installable)
  {
    if row.None? {
      assert Weight(row) == ZERO;
    } else if row.value == Installable {
      assert Weight(row) == Counts(1, 1);
    } else {
      assert Weight(row) == Counts(0, 1);
    }
    hide Weight;
  }

  /** When nothing has happened since the load, the mark is that of an evaluation in one step. */
  lemma CalmStoreMark(db: Db, s: SystemKey, ext: ExtendedMap, c: Cell, after: Option<Status>)
    requires Active(db, s) && c.account == s.account
    requires ChangeAt(ext, c.advisory) == ChangeBetween(StatusAt(RowsOf(db, s), c.advisory), after, c.advisory)
    ensures StoreMark(db, s, false, ext, c) == MarkDrift(MarksOf(ChangeAt(ext, c.advisory)))
  {
    hide ChangeAt, RowsOf, Added, MarkDrift, MarksOf, Weight;
    var row := StatusAt(RowsOf(db, s), c.advisory);
    RowAfterIs(row, after, c.advisory);
    MarksFit(row, after, c.advisory);
  }

  lemma RowAfterIs(row: Option<Status>, after: Option<Status>, id: int)
    ensures RowAfter(ChangeBetween(row, after, id), row) == after
  {
  }

  /** A system deleted since the load: the whole delta is drift. */
  lemma LateStoreDrift(db: Db, s: SystemKey, stale: bool, ext: ExtendedMap, db': Db, c: Cell)
    requires WellFormed(db) && s !in db.systems && StoreStep(db, s, stale, ext, db')
    ensures Drift(db', c)
            == Plus(Drift(db, c), if c.account == s.account && !stale then DeltaAt(ext, c.advisory) else ZERO)
  {
    hide ChangeAt, Added, Drift, StoreStep, WellFormed, Plus, Minus, RowAfter, Weight;
    StoreDrift(db, s, stale, ext, db', c);
    NothingMoves();
    NothingToTake(Added(ChangeAt(ext, c.advisory)));
  }

  /** Two evaluations of one system that both loaded before either stored count a new advisory twice. */
  lemma SecondStoreCountsAgain(db: Db, s: SystemKey, ext: ExtendedMap, mid: Db, again: ExtendedMap, db': Db, c: Cell,
                               x: Status)
    requires WellFormed(db) && WellFormed(mid) && Active(db, s) && c.account == s.account
    requires c.advisory !in RowsOf(db, s)
    requires ChangeAt(ext, c.advisory) == ChangeAt(again, c.advisory)
             == Some(Extended(Add, SystemAdvisory(c.advisory, x)))
    requires StoreStep(db, s, false, ext, mid) && StoreStep(mid, s, false, again, db')
    ensures Drift(db', c) == Plus(Drift(db, c), Weight(Some(x)))
  {
    hide ChangeAt, Added, Drift, WellFormed, Plus, Minus, Weight, CountsMove;
    StoredRow(db, s, false, ext, mid, c.advisory);
    hide StoreStep;
    StoreDrift(db, s, false, ext, mid, c);
    StoreDrift(mid, s, false, again, db', c);
    ActiveStoreMark(db, s, ext, c);
    ActiveStoreMark(mid, s, again, c);
    NoWeight();
    PlusNothing(Drift(db, c));
  }

  lemma StoredRow(db: Db, s: SystemKey, stale: bool, ext: ExtendedMap, db': Db, id: int)
    requires s in db.systems && StoreStep(db, s, stale, ext, db')
    ensures StatusAt(RowsOf(db', s), id) == RowAfter(ChangeAt(ext, id), StatusAt(RowsOf(db, s), id))
    ensures Active(db', s) <==> Active(db, s)
  {
    hide ChangeAt, CountsMove, RowAfter;
    assert RowsOf(db', s) == db'.rows[s];
  }

  // ----- runs in which the steps interleave with everything else

  datatype Fetched = Fetched(system: SystemKey, stale: bool)
  datatype Loaded = Loaded(system: SystemKey, stale: bool, ext: ExtendedMap)

  /** The tables, the evaluations that have read their system, and those that have loaded but not stored yet. */
  datatype World = World(db: Db, fetches: map<int, Fetched>, loads: map<int, Loaded>)

  datatype Action =
    | Other(ev: Event)
    | Fetch(worker: int, system: SystemKey)
    | Load(worker: int, reported: map<string, Status>, newIds: map<string, int>)
    | Store(worker: int)
    | Abandon(worker: int)

  /** tryGetSystem: a free worker reads the system and its flag. */
  ghost predicate FetchStep(w: World, worker: int, s: SystemKey, w': World)
  {
    if worker in w.fetches || worker in w.loads || s !in w.db.systems then w' == w
    else w' == w.(fetches := w.fetches[worker := Fetched(s, w.db.systems[s].stale)])
  }

  /** lazySaveAndLoadAdvisories, on the rows there are by then; a failure ends the evaluation. */
  ghost predicate LoadStep(w: World, worker: int, reported: map<string, Status>, newIds: map<string, int>, w': World)
  {
    if worker !in w.fetches then w' == w
    else
      var f, metadata := w.fetches[worker], w.db.metadata + newIds;
      && FreshIds(w.db.metadata, reported, newIds) && w'.db == w.db.(metadata := metadata)
      && w'.fetches == w.fetches - {worker}
      && w'.loads == match Changes(reported, Stored(metadata, RowsOf(w.db, f.system)), metadata)
                     case None => w.loads
                     case Some(ext) => w.loads[worker := Loaded(f.system, f.stale, ext)]
  }

  ghost predicate ActionStep(w: World, a: Action, w': World)
  {
    match a
    case Other(ev) => Step(w.db, ev, w'.db) && w' == w.(db := w'.db)
    case Fetch(worker, s) => FetchStep(w, worker, s, w')
    case Load(worker, reported, newIds) => LoadStep(w, worker, reported, newIds, w')
    case Store(worker) =>
      if worker !in w.loads then w' == w
      else
        && StoreStep(w.db, w.loads[worker].system, w.loads[worker].stale, w.loads[worker].ext, w'.db)
        && w' == World(w'.db, w.fetches, w.loads - {worker})
    case Abandon(worker) => w' == World(w.db, w.fetches - {worker}, w.loads - {worker})
  }

  ghost predicate WorldOk(w: World)
  {
    WellFormed(w.db) && forall k :: k in w.loads ==> IdsAreMetadata(w.db.metadata, w.loads[k].ext)
  }

  ghost predicate Interleaving(ws: seq<World>, actions: seq<Action>)
  {
    && |ws| == |actions| + 1 && WorldOk(ws[0])
    && forall i :: 0 <= i < |actions| ==> ActionStep(ws[i], actions[i], ws[i + 1])
  }

  predicate Refreshed(a: Action, c: Cell) { a.Other? && Clears(a.ev, c) }

  /** What one action adds to the drift of a cell that it does not refresh. */
  ghost function ActionMark(w: World, a: Action, c: Cell): Counts
  {
    match a
    case Other(ev) => MarkDrift(MarksAt(w.db, ev, c))
    case Store(worker) =>
      if worker in w.loads then StoreMark(w.db, w.loads[worker].system, w.loads[worker].stale, w.loads[worker].ext, c)
      else ZERO
    case _ => ZERO
  }

  lemma ActionDrift(w: World, a: Action, w': World, c: Cell)
    requires WorldOk(w) && ActionStep(w, a, w')
    ensures Drift(w'.db, c) == if Refreshed(a, c) then ZERO else Plus(Drift(w.db, c), ActionMark(w, a, c))
  {
    hide Step, StoreStep, StoreMark, MarksAt, Drift, WellFormed, Matches, MarkDrift, Plus, FreshIds, Changes;
    PlusNothing(Drift(w.db, c));
    match a
    case Other(ev) => StepDrift(w.db, ev, w'.db, c);
    case Fetch(_, _) =>
    case Load(_, _, _) => SameTablesDrift(w.db, w'.db, c);
    case Store(worker) =>
      if worker in w.loads {
        StoreDrift(w.db, w.loads[worker].system, w.loads[worker].stale, w.loads[worker].ext, w'.db, c);
      }
    case Abandon(_) =>
  }

  // ----- invariants of a run

  lemma StoreKeepsWellFormed(db: Db, s: SystemKey, stale: bool, ext: ExtendedMap, db': Db)
    requires WellFormed(db) && IdsAreMetadata(db.metadata, ext) && StoreStep(db, s, stale, ext, db')
    ensures WellFormed(db')
  {
    hide CountsMove, Injective, RowsAfter;
    if s in db.systems {
      assert RowsNamed(db.metadata, RowsOf(db, s));
      StoredRowsNamed(db.metadata, RowsOf(db, s), ext, db'.rows[s]);
      hide RowsNamed, IdsAreMetadata;
    }
  }

  lemma StoredRowsNamed(metadata: map<string, int>, rows: Rows, ext: ExtendedMap, rows': Rows)
    requires RowsNamed(metadata, rows) && IdsAreMetadata(metadata, ext) && RowsAfter(rows, ext, rows')
    ensures RowsNamed(metadata, rows')
  {
    forall id | id in rows' ensures id in metadata.Values {
      assert StatusAt(rows', id) == RowAfter(ChangeAt(ext, id), StatusAt(rows, id));
      if id !in rows {
        assert ChangeAt(ext, id).Some?;
        var n :| n in ext && ext[n].advisory.advisoryId == id;
        assert metadata[n] == id;
      }
    }
  }

  lemma LoadKeepsWellFormed(db: Db, reported: map<string, Status>, newIds: map<string, int>)
    requires WellFormed(db) && FreshIds(db.metadata, reported, newIds)
    ensures WellFormed(db.(metadata := db.metadata + newIds))
  {
    hide Injective, RowsNamed;
    forall t | t in db.rows ensures RowsNamed(db.metadata + newIds, db.rows[t]) {
      StillNamed(db.metadata, reported, newIds, db.rows[t]);
    }
  }

  /** Names keep their IDs. */
  predicate Grows(metadata: map<string, int>, more: map<string, int>)
  {
    forall n :: n in metadata ==> n in more && more[n] == metadata[n]
  }

  lemma StepGrows(db: Db, ev: Event, db': Db)
    requires Step(db, ev, db')
    ensures Grows(db.metadata, db'.metadata)
  {
    hide CountsMove, Changes, Stored, Injective, TriggerAmount, Recount, Cached, ReportedRows;
  }

  lemma ActionKeepsWorldOk(w: World, a: Action, w': World)
    requires WorldOk(w) && ActionStep(w, a, w')
    ensures WorldOk(w')
  {
    hide WellFormed, Step, StoreStep, FreshIds, Changes, Stored;
    match a
    case Other(ev) =>
      StepKeepsWellFormed(w.db, ev, w'.db);
      StepGrows(w.db, ev, w'.db);
    case Fetch(_, _) =>
    case Load(worker, reported, newIds) =>
      if worker in w.fetches {
        LoadKeepsWellFormed(w.db, reported, newIds);
        FreshGrows(w.db.metadata, reported, newIds);
        LoadedIds(w.db.metadata + newIds, RowsOf(w.db, w.fetches[worker].system), reported);
      }
    case Store(worker) =>
      if worker in w.loads {
        StoreKeepsWellFormed(w.db, w.loads[worker].system, w.loads[worker].stale, w.loads[worker].ext, w'.db);
        StoreKeepsMetadata(w.db, w.loads[worker].system, w.loads[worker].stale, w.loads[worker].ext, w'.db);
      }
    case Abandon(_) =>
  }

  lemma FreshGrows(metadata: map<string, int>, reported: map<string, Status>, newIds: map<string, int>)
    requires FreshIds(metadata, reported, newIds)
    ensures Grows(metadata, metadata + newIds)
  {
    hide Injective;
  }

  lemma LoadedIds(metadata: map<string, int>, rows: Rows, reported: map<string, Status>)
    ensures match Changes(reported, Stored(metadata, rows), metadata)
            case None => true
            case Some(ext) => IdsAreMetadata(metadata, ext)
  {
    if AllKnown(reported, Stored(metadata, rows), metadata) { ChangesUseMetadata(reported, rows, metadata); }
  }

  lemma StoreKeepsMetadata(db: Db, s: SystemKey, stale: bool, ext: ExtendedMap, db': Db)
    requires StoreStep(db, s, stale, ext, db')
    ensures db'.metadata == db.metadata
  {
    hide CountsMove;
  }

  // ----- the law over whole runs

  predicate EverRefreshed(actions: seq<Action>, c: Cell)
  {
    exists i :: 0 <= i < |actions| && Refreshed(actions[i], c)
  }

  lemma EverRefreshedAtLast(actions: seq<Action>, c: Cell)
    requires actions != []
    ensures EverRefreshed(actions, c) <==>
            Refreshed(actions[|actions| - 1], c) || EverRefreshed(actions[..|actions| - 1], c)
  {
    var init := actions[..|actions| - 1];
    if i :| 0 <= i < |actions| && Refreshed(actions[i], c) {
      assert i < |init| ==> Refreshed(init[i], c);
    }
    if i :| 0 <= i < |init| && Refreshed(init[i], c) {
      assert Refreshed(actions[i], c);
    }
  }

  /** The marks of a cell since its last refresh, or since the start. */
  ghost function MarksSince(ws: seq<World>, actions: seq<Action>, c: Cell): Counts
    requires |ws| == |actions| + 1
  {
    if actions == [] then ZERO
    else
      var n := |actions| - 1;
      if Refreshed(actions[n], c) then ZERO
      else Plus(MarksSince(ws[..n + 1], actions[..n], c), ActionMark(ws[n], actions[n], c))
  }

  ghost function StartDrift(w: World, actions: seq<Action>, c: Cell): Counts
  {
    if EverRefreshed(actions, c) then ZERO else Drift(w.db, c)
  }

  lemma PlusAssociates(a: Counts, b: Counts, c: Counts)
    ensures Plus(Plus(a, b), c) == Plus(a, Plus(b, c))
  {
  }

  lemma {:induction false} InterleavingsStayOk(ws: seq<World>, actions: seq<Action>)
    requires Interleaving(ws, actions)
    ensures WorldOk(ws[|actions|])
  {
    hide WorldOk, ActionStep;
    if actions != [] {
      var n := |actions| - 1;
      InterleavingsStayOk(ws[..n + 1], actions[..n]);
      assert ActionStep(ws[n], actions[n], ws[n + 1]);
      ActionKeepsWorldOk(ws[n], actions[n], ws[n + 1]);
    }
  }

  /**
   The drift law over every interleaving of loads, stores, stale flips, deletions, refreshes and
   evaluations of any systems: the cached counts are off by exactly the marks since the last refresh.
   */
  lemma {:induction false} InterleavedDriftLaw(ws: seq<World>, actions: seq<Action>, c: Cell)
    requires Interleaving(ws, actions)
    ensures Drift(ws[|actions|].db, c) == Plus(StartDrift(ws[0], actions, c), MarksSince(ws, actions, c))
  {
    hide WorldOk, ActionStep, Drift, ActionMark, Refreshed, Plus;
    PlusNothing(StartDrift(ws[0], actions, c));
    if actions != [] {
      var n := |actions| - 1;
      var ws0, actions0 := ws[..n + 1], actions[..n];
      InterleavedDriftLaw(ws0, actions0, c);
      InterleavingsStayOk(ws0, actions0);
      assert ActionStep(ws[n], actions[n], ws[n + 1]);
      ActionDrift(ws[n], actions[n], ws[n + 1], c);
      EverRefreshedAtLast(actions, c);
      PlusAssociates(StartDrift(ws[0], actions0, c), MarksSince(ws0, actions0, c), ActionMark(ws[n], actions[n], c));
    }
  }

  /** From agreement a cell's counts are right at the end exactly when its marks since the last refresh cancel out. */
  lemma InterleavedCountsRightIff(ws: seq<World>, actions: seq<Action>, c: Cell)
    requires Interleaving(ws, actions) && Agree(ws[0].db)
    ensures var db := ws[|actions|].db;
            Cached(db, c) == Recount(db, c) <==> MarksSince(ws, actions, c) == ZERO
  {
    hide WorldOk, ActionStep, Agree, MarksSince, Cached, Recount, Drift, Plus, EverRefreshed;
    InterleavedDriftLaw(ws, actions, c);
    AgreedDrift(ws[0].db, c);
    NoDriftIff(ws[|actions|].db, c);
    PlusZeroLeft(MarksSince(ws, actions, c));
  }

  lemma PlusZeroLeft(a: Counts)
    ensures Plus(ZERO, a) == a
  {
  }

  // ----- runs that keep every cell right

  /** A clean event, or a store that fits in each cell of its account. */
  ghost predicate ActionFits(w: World, a: Action, w': World)
  {
    match a
    case Other(ev) => Clean(w.db, ev, w'.db)
    case Store(worker) => worker in w.loads ==> StoreFits(w.db, w.loads[worker])
    case _ => true
  }

  ghost predicate StoreFits(db: Db, l: Loaded)
  {
    forall id :: Fits(db, l.system, l.stale, ChangeAt(l.ext, id), StatusAt(RowsOf(db, l.system), id))
  }

  /** In the cells that are not refreshed, an action fits exactly when it marks none of them. */
  ghost predicate Unmarked(w: World, a: Action)
  {
    forall c :: !Refreshed(a, c) ==> ActionMark(w, a, c) == ZERO
  }

  lemma StoreUnmarkedIff(db: Db, l: Loaded)
    ensures StoreFits(db, l) <==> forall c :: StoreMark(db, l.system, l.stale, l.ext, c) == ZERO
  {
    hide StoreMark, Fits, ChangeAt, StatusAt, RowsOf;
    forall c: Cell ensures c.account == l.system.account ==>
        (StoreMark(db, l.system, l.stale, l.ext, c) == ZERO
         <==> Fits(db, l.system, l.stale, ChangeAt(l.ext, c.advisory), StatusAt(RowsOf(db, l.system), c.advisory))) {
      if c.account == l.system.account { StoreFitsIff(db, l.system, l.stale, l.ext, c); }
    }
    forall c: Cell ensures c.account != l.system.account ==> StoreMark(db, l.system, l.stale, l.ext, c) == ZERO {
      OtherAccountsUnmarked(db, l, c);
    }
    if forall c :: StoreMark(db, l.system, l.stale, l.ext, c) == ZERO {
      forall id ensures Fits(db, l.system, l.stale, ChangeAt(l.ext, id), StatusAt(RowsOf(db, l.system), id)) {
        assert StoreMark(db, l.system, l.stale, l.ext, Cell(l.system.account, id)) == ZERO;
      }
    }
  }

  lemma OtherAccountsUnmarked(db: Db, l: Loaded, c: Cell)
    ensures c.account != l.system.account ==> StoreMark(db, l.system, l.stale, l.ext, c) == ZERO
  {
  }

  lemma FitsIffUnmarked(w: World, a: Action, w': World)
    requires WorldOk(w) && ActionStep(w, a, w')
    ensures ActionFits(w, a, w') <==> Unmarked(w, a)
  {
    hide Step, StoreStep, WellFormed, Clean, StoreFits, StoreMark, MarksAt, MarkDrift, FreshIds, Changes, Matches;
    match a
    case Other(ev) =>
      CleanIffUnmarked(w.db, ev, w'.db);
      assert forall c :: ActionMark(w, a, c) == MarkDrift(MarksAt(w.db, ev, c)) && Refreshed(a, c) == Clears(ev, c);
    case Store(worker) =>
      if worker in w.loads {
        var l := w.loads[worker];
        StoreUnmarkedIff(w.db, l);
        assert forall c :: ActionMark(w, a, c) == StoreMark(w.db, l.system, l.stale, l.ext, c) && !Refreshed(a, c);
      }
    case _ =>
  }

  lemma CleanIffUnmarked(db: Db, ev: Event, db': Db)
    requires WellFormed(db) && Step(db, ev, db')
    ensures Clean(db, ev, db') <==> forall c :: !Clears(ev, c) ==> MarkDrift(MarksAt(db, ev, c)) == ZERO
  {
    hide WellFormed, Step, Clean, MarksAt, MarkDrift, Matches;
    if Clean(db, ev, db') {
      forall c ensures MarkDrift(MarksAt(db, ev, c)) == ZERO { CleanLeavesNoMarks(db, ev, db', c); }
    }
    if !Clean(db, ev, db') {
      var c := UncleanMark(db, ev, db');
    }
  }

  /** An event that is not clean marks some cell. */
  lemma UncleanMark(db: Db, ev: Event, db': Db) returns (c: Cell)
    requires WellFormed(db) && Step(db, ev, db') && !Clean(db, ev, db')
    ensures !Clears(ev, c) && MarkDrift(MarksAt(db, ev, c)) != ZERO
  {
    hide WellFormed, Step, MarksAt, RowsOf, StatusAt;
    var rows, rows' := RowsOf(db, ev.system), RowsOf(db', ev.system);
    var id :| id in rows && !(if id in rows' then rows'[id] == rows[id] else rows[id] == Installable);
    c := Cell(ev.system.account, id);
    MarksReadRows(db, ev, db', c);
    MarkedRow(rows, rows', id);
  }

  lemma MarkedRow(rows: Rows, rows': Rows, id: int)
    requires id in rows && !(if id in rows' then rows'[id] == rows[id] else rows[id] == Installable)
    ensures MarkDrift(MarksOf(ChangeBetween(StatusAt(rows, id), StatusAt(rows', id), id))) != ZERO
  {
    hide ChangeBetween, MarksOf;
    MarkedStatus(rows[id], StatusAt(rows', id), id);
  }

  lemma MarkedStatus(before: Status, after: Option<Status>, id: int)
    requires if after.Some? then after.value != before else before != Installable
    ensures var m := MarksOf(ChangeBetween(Some(before), after, id)); m.updates + m.removedApplicable == 1
  {
    if after.None? {
      assert before == Applicable;
    } else {
      assert ChangeBetween(Some(before), after, id).value.change == Change.Update;
    }
  }

  /** From agreement, an action leaves all cells right exactly when it fits. */
  lemma AgreesAfterIff(w: World, a: Action, w': World)
    requires WorldOk(w) && ActionStep(w, a, w') && Agree(w.db)
    ensures Agree(w'.db) <==> ActionFits(w, a, w')
  {
    hide WorldOk, ActionStep, ActionFits, ActionMark, Agree, Refreshed;
    FitsIffUnmarked(w, a, w');
    forall c ensures Drift(w'.db, c) == if Refreshed(a, c) then ZERO else ActionMark(w, a, c) {
      hide Drift;
      AgreedDrift(w.db, c);
      ActionDrift(w, a, w', c);
      PlusZeroLeft(ActionMark(w, a, c));
    }
    AgreeIffNoDrift(w'.db);
  }

  lemma AgreeIffNoDrift(db: Db)
    ensures Agree(db) <==> forall c :: Drift(db, c) == ZERO
  {
    hide Drift, Cached, Recount;
    forall c ensures Drift(db, c) == ZERO <==> Cached(db, c) == Recount(db, c) { NoDriftIff(db, c); }
  }

  /**
   From agreement, an interleaving keeps every cell right at every state exactly when each of its events
   is clean and each of its stores fits the rows and the flag that it meets.
   */
  lemma {:induction false} AlwaysAgreesIff(ws: seq<World>, actions: seq<Action>)
    requires Interleaving(ws, actions) && Agree(ws[0].db)
    ensures (forall i :: 0 <= i <= |actions| ==> Agree(ws[i].db))
       <==> forall i :: 0 <= i < |actions| ==> ActionFits(ws[i], actions[i], ws[i + 1])
  {
    hide WorldOk, ActionStep, ActionFits, Agree;
    if actions != [] {
      var n := |actions| - 1;
      var ws0, actions0 := ws[..n + 1], actions[..n];
      AlwaysAgreesIff(ws0, actions0);
      InterleavingsStayOk(ws0, actions0);
      assert ActionStep(ws[n], actions[n], ws[n + 1]);
      if Agree(ws[n].db) { AgreesAfterIff(ws[n], actions[n], ws[n + 1]); }
      assert (forall i :: 0 <= i <= n ==> Agree(ws[i].db)) <==> forall i :: 0 <= i <= n ==> Agree(ws0[i].db);
      assert (forall i :: 0 <= i < n ==> ActionFits(ws[i], actions[i], ws[i + 1]))
        <==> forall i :: 0 <= i < n ==> ActionFits(ws0[i], actions0[i], ws0[i + 1]);
    }
  }

  // ----- an interleaving that counts twice

  const REPORT: map<string, Status> := map["RHSA-1" := Installable]

  function Found(): ExtendedMap { map["RHSA-1" := Extended(Add, SystemAdvisory(1, Installable))] }

  function Unstored(): Db
  {
    Db(map["RHSA-1" := 1], map[SOME_SYSTEM := Inventory(false, true)], map[SOME_SYSTEM := map[]], map[])
  }

  /** The tables once the advisory is stored and has been counted so many times. */
  function StoredOnce(times: int): Db
  {
    Unstored().(rows := map[SOME_SYSTEM := map[1 := Installable]], aad := map[Cell(1, 1) := Counts(times, times)])
  }

  /** Both workers read, both load, both store. */
  const RACE: seq<Action> := [Fetch(1, SOME_SYSTEM), Fetch(2, SOME_SYSTEM), Load(1, REPORT, map[]),
                              Load(2, REPORT, map[]),
                              Store(1), Store(2)]

  function RaceWorlds(): seq<World>
  {
    var f, l := Fetched(SOME_SYSTEM, false), Loaded(SOME_SYSTEM, false, Found());
    [World(Unstored(), map[], map[]), World(Unstored(), map[1 := f], map[]),
     World(Unstored(), map[1 := f, 2 := f], map[]),
     World(Unstored(), map[2 := f], map[1 := l]), World(Unstored(), map[], map[1 := l, 2 := l]),
     World(StoredOnce(1), map[], map[2 := l]), World(StoredOnce(2), map[], map[])]
  }

  lemma FoundChanges()
    ensures Changes(REPORT, Stored(Unstored().metadata, RowsOf(Unstored(), SOME_SYSTEM)), Unstored().metadata)
            == Some(Found())
  {
    hide Changes, Stored, Found;
    NothingStored(Unstored().metadata);
    NewlyFound();
  }

  lemma NothingStored(metadata: map<string, int>)
    ensures Stored(metadata, map[]) == map[]
  {
  }

  lemma NewlyFound()
    ensures Changes(REPORT, map[], map["RHSA-1" := 1]) == Some(Found())
  {
    hide ChangeOf;
    FoundFor("RHSA-1");
    ChangesByName(REPORT, map[], map["RHSA-1" := 1], Found());
  }

  lemma FoundFor(name: string)
    ensures ChangeOf(map[name := Installable], map[], map[name := 1], name)
            == Extended(Add, SystemAdvisory(1, Installable))
  {
  }

  lemma NothingToSave()
    ensures Unstored().metadata + map[] == Unstored().metadata && FreshIds(Unstored().metadata, REPORT, map[])
  {
    assert Unstored().metadata + map[] == Unstored().metadata;
  }

  lemma FoundAt(id: int)
    ensures ChangeAt(Found(), id) == if id == 1 then Some(Extended(Add, SystemAdvisory(1, Installable))) else None
    ensures DeltaAt(Found(), id) == if id == 1 then Counts(1, 1) else ZERO
  {
    assert Found()["RHSA-1"].advisory.advisoryId == 1;
  }

  lemma FoundCount(db: Db, times: int, c: Cell)
    requires times >= 0 && if times == 0 then db == Unstored() else db == StoredOnce(times)
    ensures Cached(StoredOnce(times + 1), c)
            == if c.account == 1 then Plus(Cached(db, c), DeltaAt(Found(), c.advisory)) else Cached(db, c)
  {
    hide DeltaAt, Found;
    FoundAt(c.advisory);
    var before, delta := Cached(db, c), DeltaAt(Found(), c.advisory);
    assert Cell(c.account, c.advisory) == c;
    assert before == if c == Cell(1, 1) then Counts(times, times) else ZERO;
    assert Cached(StoredOnce(times + 1), c) == if c == Cell(1, 1) then Counts(times + 1, times + 1) else ZERO;
  }

  lemma FoundCounts(db: Db, times: int)
    requires times >= 0 && if times == 0 then db == Unstored() else db == StoredOnce(times)
    ensures CountsMove(db, StoredOnce(times + 1), 1, id => if false then ZERO else DeltaAt(Found(), id))
  {
    hide DeltaAt, Found, Cached, Plus, Unstored, StoredOnce;
    forall c ensures Cached(StoredOnce(times + 1), c)
              == if c.account == 1 then Plus(Cached(db, c), DeltaAt(Found(), c.advisory)) else Cached(db, c) {
      FoundCount(db, times, c);
    }
  }

  lemma FoundStep(db: Db, times: int)
    requires times >= 0 && if times == 0 then db == Unstored() else db == StoredOnce(times)
    ensures StoreStep(db, SOME_SYSTEM, false, Found(), StoredOnce(times + 1))
  {
    hide CountsMove, ChangeAt, DeltaAt, Found;
    FoundCounts(db, times);
    forall id { FoundAt(id); }
    SameInventory(db.systems, SOME_SYSTEM);
    SameKey<SystemKey, Rows>(SOME_SYSTEM, RowsOf(db, SOME_SYSTEM), map[1 := Installable]);
  }

  lemma RaceRecount(db: Db, times: int, c: Cell)
    requires times >= 0 && if times == 0 then db == Unstored() else db == StoredOnce(times)
    ensures Recount(db, c) == if times > 0 && c == Cell(1, 1) then Counts(1, 1) else ZERO
  {
    var carriers := if times > 0 && c == Cell(1, 1) then {SOME_SYSTEM} else {};
    assert InstallableCarriers(db, c) == carriers && Carriers(db, c) == carriers;
  }

  lemma UnstoredIsFine()
    ensures WorldOk(RaceWorlds()[0]) && Agree(Unstored())
  {
    hide Recount;
    forall c ensures Cached(Unstored(), c) == Recount(Unstored(), c) { RaceRecount(Unstored(), 0, c); }
  }

  lemma RaceLoads()
    ensures var ws := RaceWorlds(); ActionStep(ws[2], RACE[2], ws[3]) && ActionStep(ws[3], RACE[3], ws[4])
  {
    hide Changes, Stored, FreshIds, Found, RowsOf;
    FoundChanges();
    NothingToSave();
    hide Unstored;
    var ws, f := RaceWorlds(), Fetched(SOME_SYSTEM, false);
    assert ws[2].fetches - {1} == map[2 := f] && ws[3].fetches - {2} == map[];
  }

  lemma RaceStores()
    ensures var ws := RaceWorlds(); ActionStep(ws[4], RACE[4], ws[5]) && ActionStep(ws[5], RACE[5], ws[6])
  {
    hide StoreStep, Found;
    FoundStep(Unstored(), 0);
    FoundStep(StoredOnce(1), 1);
    hide Unstored, StoredOnce;
    var ws := RaceWorlds();
    assert ws[4].loads - {1} == ws[5].loads && ws[5].loads - {2} == map[];
  }

  /** It happens: two evaluations of one system that run side by side count its new advisory twice. */
  lemma RaceCountsTwice()
    ensures Interleaving(RaceWorlds(), RACE) && Agree(RaceWorlds()[0].db)
    ensures Cached(RaceWorlds()[6].db, Cell(1, 1)) == Counts(2, 2)
            && Recount(RaceWorlds()[6].db, Cell(1, 1)) == Counts(1, 1)
  {
    hide StoreStep, Found, Agree, WorldOk, LoadStep, Recount, WellFormed;
    UnstoredIsFine();
    RaceLoads();
    RaceStores();
    RaceRecount(StoredOnce(2), 2, Cell(1, 1));
  }

  // ----- the three steps without anything in between

  lemma RowsDetermined(rows: Rows, rows': Rows)
    requires forall id :: StatusAt(rows, id) == StatusAt(rows', id)
    ensures rows == rows'
  {
    forall id ensures (id in rows <==> id in rows') && (id in rows ==> rows[id] == rows'[id]) {
      assert StatusAt(rows, id) == StatusAt(rows', id);
    }
  }

  lemma StoredIsReported(metadata: map<string, int>, rows: Rows, reported: map<string, Status>, ext: ExtendedMap,
                         rows': Rows)
    requires Injective(metadata) && RowsNamed(metadata, rows) && reported.Keys <= metadata.Keys
    requires Changes(reported, Stored(metadata, rows), metadata) == Some(ext) && RowsAfter(rows, ext, rows')
    ensures rows' == ReportedRows(metadata, reported)
  {
    hide Changes, Stored, ChangeAt, RowsNamed, Injective, ReportedRows, StatusAt, RowAfter, ChangeBetween;
    forall id ensures StatusAt(rows', id) == StatusAt(ReportedRows(metadata, reported), id) {
      assert StatusAt(rows', id) == RowAfter(ChangeAt(ext, id), StatusAt(rows, id));
      ChangeAtIs(metadata, rows, reported, id);
      RowAfterIs(StatusAt(rows, id), StatusAt(ReportedRows(metadata, reported), id), id);
    }
    RowsDetermined(rows', ReportedRows(metadata, reported));
  }

  lemma SameCounts(db: Db, mid: Db, db': Db, s: SystemKey, stale: bool, ext: ExtendedMap)
    requires mid.aad == db.aad && s in db.systems && stale == db.systems[s].stale
    requires CountsMove(mid, db', s.account, id => if stale then ZERO else DeltaAt(ext, id))
    ensures CountsMove(db, db', s.account, id => if db.systems[s].stale then ZERO else DeltaAt(ext, id))
  {
    hide DeltaAt, Plus;
    forall c ensures Cached(mid, c) == Cached(db, c) {}
    hide Cached;
  }

  lemma AllNamesKnown(reported: map<string, Status>, rows: Rows, metadata: map<string, int>)
    requires Changes(reported, Stored(metadata, rows), metadata).Some?
    ensures reported.Keys <= metadata.Keys
  {
  }

  /** A load and its store with nothing in between are one evaluation event. */
  lemma LoadThenStoreIsEvaluate(db: Db, s: SystemKey, reported: map<string, Status>, newIds: map<string, int>,
                                ext: ExtendedMap, db': Db)
    requires WellFormed(db) && s in db.systems && FreshIds(db.metadata, reported, newIds)
    requires var metadata := db.metadata + newIds;
             && Changes(reported, Stored(metadata, RowsOf(db, s)), metadata) == Some(ext)
             && StoreStep(db.(metadata := metadata), s, db.systems[s].stale, ext, db')
    ensures EvaluateStep(db, s, reported, newIds, db')
  {
    hide Changes, Stored, Injective, RowsNamed, ReportedRows, DeltaAt, FreshIds, WellFormed, CountsMove, EvaluateStep,
         RowsAfter;
    var mid := db.(metadata := db.metadata + newIds);
    assert RowsOf(mid, s) == RowsOf(db, s);
    OldNamesStay(db, s, mid.metadata, reported, newIds);
    AllNamesKnown(reported, RowsOf(db, s), mid.metadata);
    FreshInjective(db.metadata, reported, newIds);
    StoredIsReported(mid.metadata, RowsOf(db, s), reported, ext, db'.rows[s]);
    SameCounts(db, mid, db', s, db.systems[s].stale, ext);
    StoringStep(db, s, reported, newIds, ext, db');
  }

  /** A worker that reads, loads and stores without being disturbed does one evaluation event. */
  lemma UndisturbedIsEvaluate(w: World, w1: World, w2: World, w3: World, worker: int, s: SystemKey,
                              reported: map<string, Status>, newIds: map<string, int>)
    requires WorldOk(w) && worker !in w.fetches && worker !in w.loads
    requires s in w.db.systems
    requires ActionStep(w, Fetch(worker, s), w1) && ActionStep(w1, Load(worker, reported, newIds), w2)
    requires ActionStep(w2, Store(worker), w3)
    ensures ActionStep(w, Other(Evaluate(s, reported, newIds)), w3)
  {
    hide Changes, Stored, FreshIds, StoreStep, WellFormed, EvaluateStep, IdsAreMetadata;
    var metadata := w.db.metadata + newIds;
    assert w1.fetches - {worker} == w.fetches;
    match Changes(reported, Stored(metadata, RowsOf(w.db, s)), metadata)
    case None => LoadFails(w.db, s, reported, newIds);
    case Some(ext) =>
      assert w2.loads - {worker} == w.loads;
      LoadThenStoreIsEvaluate(w.db, s, reported, newIds, ext, w3.db);
  }

  /** What is stored in the end goes by the flag that was read first and by the rows there are at the load. */
  lemma FlagIsReadFirst(w: World, w1: World, ev: Event, w2: World, w3: World, worker: int, s: SystemKey,
                        reported: map<string, Status>, newIds: map<string, int>)
    requires worker !in w.fetches && worker !in w.loads && s in w.db.systems
    requires ActionStep(w, Fetch(worker, s), w1) && ActionStep(w1, Other(ev), w2)
    requires ActionStep(w2, Load(worker, reported, newIds), w3)
    ensures worker in w3.loads ==>
              && w3.loads[worker].system == s && w3.loads[worker].stale == w.db.systems[s].stale
              && Changes(reported, Stored(w3.db.metadata, RowsOf(w2.db, s)), w3.db.metadata)
                 == Some(w3.loads[worker].ext)
  {
    hide Step, Changes, Stored, FreshIds;
  }

  lemma LoadFails(db: Db, s: SystemKey, reported: map<string, Status>, newIds: map<string, int>)
    requires s in db.systems && FreshIds(db.metadata, reported, newIds)
    requires var metadata := db.metadata + newIds; Changes(reported, Stored(metadata, RowsOf(db, s)), metadata).None?
    ensures EvaluateStep(db, s, reported, newIds, db.(metadata := db.metadata + newIds))
  {
    hide Changes, Stored, FreshIds;
  }

  lemma FreshInjective(metadata: map<string, int>, reported: map<string, Status>, newIds: map<string, int>)
    requires FreshIds(metadata, reported, newIds)
    ensures Injective(metadata + newIds)
  {
  }
}
