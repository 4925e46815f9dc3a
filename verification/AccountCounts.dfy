/**
 The cached counts of advisory_account_data against the recount they stand for.

 The tables are maps. Events are the operations that touch the counts: an evaluation
 (evaluator/evaluate_advisories.go, evaluator/evaluate.go), a change of the stale flag with the trigger
 on_system_update, delete_system and refresh_advisory_caches_multi (database_admin/schema/create_schema.sql).
 Each event is one committed transaction.
 */
module AccountCounts {
  import opened Wrappers
  import opened Vmaas
  import opened AdvisoryChanges

  datatype SystemKey = SystemKey(account: int, id: int)
  datatype Inventory = Inventory(stale: bool, evaluated: bool)
  /** Primary key of advisory_account_data. */
  datatype Cell = Cell(account: int, advisory: int)

  datatype Db = Db(
    metadata: map<string, int>,
    systems: map<SystemKey, Inventory>,
    rows: map<SystemKey, Rows>,
    aad: map<Cell, Counts>)

  function RowsOf(db: Db, s: SystemKey): Rows
  {
    if s in db.rows then db.rows[s] else map[]
  }

  const ZERO := Counts(0, 0)

  function Plus(a: Counts, b: Counts): Counts { Counts(a.installable + b.installable, a.applicable + b.applicable) }

  function Minus(a: Counts, b: Counts): Counts { Counts(a.installable - b.installable, a.applicable - b.applicable) }

  lemma PlusNothing(a: Counts)
    ensures Plus(a, ZERO) == a
  {
  }

  /** What a row of the given status adds to the counts of its cell. */
  function Weight(status: Option<Status>): Counts
  {
    if status.None? then ZERO else Counts(if status.value == Installable then 1 else 0, 1)
  }

  function StatusAt(rows: Rows, advisory: int): Option<Status>
  {
    if advisory in rows then Some(rows[advisory]) else None
  }

  predicate Counted(db: Db, s: SystemKey)
  {
    s in db.systems && !db.systems[s].stale && db.systems[s].evaluated
  }

  predicate Carries(db: Db, c: Cell, s: SystemKey)
  {
    s.account == c.account && Counted(db, s) && c.advisory in RowsOf(db, s)
  }

  ghost function Carriers(db: Db, c: Cell): set<SystemKey>
  {
    set s | s in db.systems && Carries(db, c, s)
  }

  ghost function InstallableCarriers(db: Db, c: Cell): set<SystemKey>
  {
    set s | s in db.systems && Carries(db, c, s) && RowsOf(db, s)[c.advisory] == Installable
  }

  /** The counts CheckCachesValidRet computes from the tables, 0 where there is no row. */
  ghost function Recount(db: Db, c: Cell): Counts
  {
    Counts(|InstallableCarriers(db, c)|, |Carriers(db, c)|)
  }

  /** Counted are the account's evaluated systems that are not stale, by the status of their row. */
  lemma RecountIs(db: Db, c: Cell)
    ensures Recount(db, c).applicable
            == |set s | s in db.systems && s.account == c.account && !db.systems[s].stale && db.systems[s].evaluated
                   && s in db.rows && c.advisory in db.rows[s]|
    ensures Recount(db, c).installable
            == |set s | s in db.systems && s.account == c.account && !db.systems[s].stale && db.systems[s].evaluated
                   && s in db.rows && c.advisory in db.rows[s] && db.rows[s][c.advisory] == Installable|
  {
    assert Carriers(db, c)
        == set s | s in db.systems && s.account == c.account && !db.systems[s].stale && db.systems[s].evaluated
             && s in db.rows && c.advisory in db.rows[s];
    assert InstallableCarriers(db, c)
        == set s | s in db.systems && s.account == c.account && !db.systems[s].stale && db.systems[s].evaluated
             && s in db.rows && c.advisory in db.rows[s] && db.rows[s][c.advisory] == Installable;
  }

  function Cached(db: Db, c: Cell): Counts
  {
    if c in db.aad then db.aad[c] else ZERO
  }

  /** How far the cached counts are off. */
  ghost function Drift(db: Db, c: Cell): Counts
  {
    Minus(Cached(db, c), Recount(db, c))
  }

  ghost predicate WellFormed(db: Db)
  {
    && Injective(db.metadata)
    && forall s :: s in db.rows ==>
         && s in db.systems && RowsNamed(db.metadata, db.rows[s])
         && (db.rows[s] != map[] ==> db.systems[s].evaluated)
  }

  // ----- events

  datatype Event =
    | Register(system: SystemKey)
    | Evaluate(system: SystemKey, reported: map<string, Status>, newIds: map<string, int>)
    | SetStale(system: SystemKey, stale: bool)
    | Delete(system: SystemKey)
    | Refresh(account: Option<int>, advisories: Option<set<int>>)

  /** Names that are lazily saved: storeMissingAdvisories skips empty and overlong ones. */
  predicate Storable(name: string) { 0 < |name| < 100 }

  /** The IDs the database hands out for the reported names it did not know. */
  ghost predicate FreshIds(metadata: map<string, int>, reported: map<string, Status>, newIds: map<string, int>)
  {
    && newIds.Keys == (set n | n in reported && n !in metadata && Storable(n))
    && Injective(metadata + newIds)
  }

  ghost function ReportedRows(metadata: map<string, int>, reported: map<string, Status>): Rows
    requires Injective(metadata) && reported.Keys <= metadata.Keys
  {
    map n | n in reported :: metadata[n] := reported[n]
  }

  ghost function ChangeAt(ext: ExtendedMap, id: int): Option<Extended>
  {
    if n :| n in ext && ext[n].advisory.advisoryId == id then Some(ext[n]) else None
  }

  /** What calcAdvisoryChanges adds to the counts for a change, if there is one. */
  function Added(e: Option<Extended>): Counts
  {
    if e.Some? && DeltaOf(e.value).Some? then DeltaOf(e.value).value else ZERO
  }

  ghost function DeltaAt(ext: ExtendedMap, id: int): Counts { Added(ChangeAt(ext, id)) }

  /** The counts move by amount(c) in every cell of the account, and nowhere else. */
  ghost predicate CountsMove(db: Db, db': Db, account: int, amount: int -> Counts)
  {
    forall c :: Cached(db', c) == if c.account == account then Plus(Cached(db, c), amount(c.advisory))
                                 else Cached(db, c)
  }

  ghost predicate EvaluateStep(db: Db, s: SystemKey, reported: map<string, Status>, newIds: map<string, int>, db': Db)
  {
    if s !in db.systems then db' == db
    else
      var metadata := db.metadata + newIds;
      && FreshIds(db.metadata, reported, newIds) && db'.metadata == metadata
      && match Changes(reported, Stored(metadata, RowsOf(db, s)), metadata)
         case None => db' == db.(metadata := metadata)
         case Some(ext) =>
           && reported.Keys <= metadata.Keys
           && db'.systems == db.systems[s := db.systems[s].(evaluated := true)]
           && db'.rows == db.rows[s := ReportedRows(metadata, reported)]
           && CountsMove(db, db', s.account, id => if db.systems[s].stale then ZERO else DeltaAt(ext, id))
  }

  /** An evaluation that stores its report, part by part. */
  lemma StoringStep(db: Db, s: SystemKey, reported: map<string, Status>, newIds: map<string, int>, ext: ExtendedMap,
                    db': Db)
    requires s in db.systems && FreshIds(db.metadata, reported, newIds) && db'.metadata == db.metadata + newIds
    requires reported.Keys <= db'.metadata.Keys
    requires Changes(reported, Stored(db'.metadata, RowsOf(db, s)), db'.metadata) == Some(ext)
    requires db'.systems == db.systems[s := db.systems[s].(evaluated := true)]
    requires db'.rows == db.rows[s := ReportedRows(db'.metadata, reported)]
    requires CountsMove(db, db', s.account, id => if db.systems[s].stale then ZERO else DeltaAt(ext, id))
    ensures EvaluateStep(db, s, reported, newIds, db')
  {
    hide Changes, Stored, RowsOf, Injective, DeltaAt, CountsMove, ReportedRows;
  }

  /** on_system_update: the system's rows enter or leave the counts when its flag flips. */
  ghost function TriggerAmount(db: Db, s: SystemKey, stale: bool, id: int): Counts
    requires s in db.systems
  {
    var w := Weight(StatusAt(RowsOf(db, s), id));
    if !db.systems[s].evaluated || db.systems[s].stale == stale then ZERO
    else if stale then Minus(ZERO, w) else w
  }

  ghost predicate SetStaleStep(db: Db, s: SystemKey, stale: bool, db': Db)
  {
    if s !in db.systems then db' == db
    else
      && db'.metadata == db.metadata && db'.rows == db.rows
      && db'.systems == db.systems[s := db.systems[s].(stale := stale)]
      && CountsMove(db, db', s.account, id => TriggerAmount(db, s, stale, id))
  }

  predicate Matches(account: Option<int>, advisories: Option<set<int>>, c: Cell)
  {
    (account.None? || account.value == c.account) && (advisories.None? || c.advisory in advisories.value)
  }

  ghost predicate DeleteStep(db: Db, s: SystemKey, db': Db)
  {
    exists mid :: SetStaleStep(db, s, true, mid)
      && db' == mid.(systems := mid.systems - {s}, rows := mid.rows - {s})
  }

  ghost predicate RefreshStep(db: Db, account: Option<int>, advisories: Option<set<int>>, db': Db)
  {
    && db'.metadata == db.metadata && db'.systems == db.systems && db'.rows == db.rows
    && forall c :: Cached(db', c) == if Matches(account, advisories, c) then Recount(db, c) else Cached(db, c)
  }

  ghost predicate Step(db: Db, ev: Event, db': Db)
  {
    match ev
    case Register(s) =>
      db' == if s in db.systems then db else db.(systems := db.systems[s := Inventory(false, false)])
    case Evaluate(s, reported, newIds) => EvaluateStep(db, s, reported, newIds, db')
    case SetStale(s, stale) => SetStaleStep(db, s, stale, db')
    case Delete(s) => DeleteStep(db, s, db')
    case Refresh(account, advisories) => RefreshStep(db, account, advisories, db')
  }

  /** Rows that refer to known advisories still do when more become known. */
  lemma StillNamed(metadata: map<string, int>, reported: map<string, Status>, newIds: map<string, int>, rows: Rows)
    requires FreshIds(metadata, reported, newIds) && RowsNamed(metadata, rows)
    ensures RowsNamed(metadata + newIds, rows)
  {
    hide Injective;
    var more := metadata + newIds;
    forall id | id in rows ensures id in more.Values {
      var n :| n in metadata && metadata[n] == id;
      assert n in more && more[n] == id;
    }
  }

  lemma ReportedRowsNamed(metadata: map<string, int>, reported: map<string, Status>)
    requires Injective(metadata) && reported.Keys <= metadata.Keys
    ensures RowsNamed(metadata, ReportedRows(metadata, reported))
  {
  }

  lemma EvaluateKeepsWellFormed(db: Db, s: SystemKey, reported: map<string, Status>, newIds: map<string, int>, db': Db)
    requires WellFormed(db) && EvaluateStep(db, s, reported, newIds, db')
    ensures WellFormed(db')
  {
    hide CountsMove, Changes, Stored, Injective, RowsNamed, ReportedRows, DeltaAt;
    if s in db.systems {
      forall t | t in db.rows ensures RowsNamed(db'.metadata, db.rows[t]) {
        StillNamed(db.metadata, reported, newIds, db.rows[t]);
      }
      if reported.Keys <= db'.metadata.Keys {
        ReportedRowsNamed(db'.metadata, reported);
      }
    }
  }

  /** Every event leaves rows only for systems that exist and, if there are any, have been evaluated. */
  lemma StepKeepsWellFormed(db: Db, ev: Event, db': Db)
    requires WellFormed(db) && Step(db, ev, db')
    ensures WellFormed(db')
  {
    hide EvaluateStep, CountsMove, TriggerAmount, Injective, RowsNamed, Recount, Cached;
    if ev.Evaluate? {
      EvaluateKeepsWellFormed(db, ev.system, ev.reported, ev.newIds, db');
    }
  }

  // ----- the law for one event

  lemma DifferAtOne<T>(a: set<T>, b: set<T>, x: T)
    requires a - {x} == b - {x}
    ensures |a| - (if x in a then 1 else 0) == |b| - (if x in b then 1 else 0)
  {
    assert if x in a then a == (a - {x}) + {x} else a == a - {x};
    assert if x in b then b == (b - {x}) + {x} else b == b - {x};
    assert |a - {x}| == |a| - (if x in a then 1 else 0) && |b - {x}| == |b| - (if x in b then 1 else 0);
  }

  /** One system's share of a cell. */
  ghost function Share(db: Db, c: Cell, s: SystemKey): Counts
  {
    if s.account == c.account && Counted(db, s) then Weight(StatusAt(RowsOf(db, s), c.advisory)) else ZERO
  }

  ghost predicate OnlyTouches(db: Db, db': Db, s: SystemKey)
  {
    forall t :: t != s ==>
      && (t in db'.systems <==> t in db.systems)
      && (t in db.systems ==> db'.systems[t] == db.systems[t] && RowsOf(db', t) == RowsOf(db, t))
  }

  lemma ApplicableMoves(db: Db, db': Db, s: SystemKey, c: Cell)
    requires OnlyTouches(db, db', s)
    ensures |Carriers(db', c)| == |Carriers(db, c)| + Share(db', c, s).applicable - Share(db, c, s).applicable
  {
    hide Share;
    DifferAtOne(Carriers(db, c), Carriers(db', c), s);
    ShareIsMembership(db, c, s);
    ShareIsMembership(db', c, s);
  }

  lemma InstallableMoves(db: Db, db': Db, s: SystemKey, c: Cell)
    requires OnlyTouches(db, db', s)
    ensures |InstallableCarriers(db', c)|
            == |InstallableCarriers(db, c)| + Share(db', c, s).installable - Share(db, c, s).installable
  {
    hide Share;
    DifferAtOne(InstallableCarriers(db, c), InstallableCarriers(db', c), s);
    ShareIsMembership(db, c, s);
    ShareIsMembership(db', c, s);
  }

  lemma ShareIsMembership(db: Db, c: Cell, s: SystemKey)
    ensures Share(db, c, s).applicable == if s in Carriers(db, c) then 1 else 0
    ensures Share(db, c, s).installable == if s in InstallableCarriers(db, c) then 1 else 0
  {
  }

  /** If only one system is touched, the recount moves by the change of its share. */
  lemma RecountMoves(db: Db, db': Db, s: SystemKey, c: Cell)
    requires OnlyTouches(db, db', s)
    ensures Recount(db', c) == Plus(Recount(db, c), Minus(Share(db', c, s), Share(db, c, s)))
  {
    hide OnlyTouches, Share, Carriers, InstallableCarriers;
    ApplicableMoves(db, db', s, c);
    InstallableMoves(db, db', s, c);
  }

  /** The change recorded for an advisory is determined by its row before and after. */
  ghost function ChangeBetween(before: Option<Status>, after: Option<Status>, id: int): Option<Extended>
  {
    if after.None? then
      if before.None? then None else Some(Extended(Remove, SystemAdvisory(id, before.value)))
    else
      var change := if before.None? then Add else if before != after then Change.Update else Keep;
      Some(Extended(change, SystemAdvisory(id, after.value)))
  }

  lemma ChangeAtIs(metadata: map<string, int>, rows: Rows, reported: map<string, Status>, id: int)
    requires Injective(metadata) && RowsNamed(metadata, rows) && reported.Keys <= metadata.Keys
    ensures var ext := Changes(reported, Stored(metadata, rows), metadata).value;
            ChangeAt(ext, id) == ChangeBetween(StatusAt(rows, id), StatusAt(ReportedRows(metadata, reported), id), id)
  {
    var stored := Stored(metadata, rows);
    var ext := Changes(reported, stored, metadata).value;
    ChangesUseMetadata(reported, rows, metadata);
    var rows' := ReportedRows(metadata, reported);
    if id in metadata.Values {
      var n :| n in metadata && metadata[n] == id;
      assert id in rows' <==> n in reported;
      assert n in stored <==> id in rows;
      assert forall m :: m in ext && ext[m].advisory.advisoryId == id ==> m == n;
    } else {
      assert id !in rows && id !in rows';
    }
  }

  /** What one evaluation adds to the drift of a cell of its account. */
  datatype Marks = Marks(updates: nat, toApplicable: nat, removedApplicable: nat)

  function MarksOf(e: Option<Extended>): Marks
  {
    if e.None? then NoMarks()
    else
      var applicable := if e.value.advisory.status == Applicable then 1 else 0;
      match e.value.change
      case Update => Marks(1, applicable, 0)
      case Remove => Marks(0, 0, applicable)
      case _ => NoMarks()
  }

  function MarkDrift(m: Marks): Counts
  {
    Counts(m.toApplicable - m.removedApplicable, m.updates + m.removedApplicable)
  }

  function NoMarks(): Marks { Marks(0, 0, 0) }

  /** The statuses updated and the applicable rows removed by an event, in one cell. */
  ghost function MarksAt(db: Db, ev: Event, c: Cell): Marks
  {
    if ev.Evaluate? && ev.system in db.systems && !db.systems[ev.system].stale && c.account == ev.system.account then
      var metadata := db.metadata + ev.newIds;
      match Changes(ev.reported, Stored(metadata, RowsOf(db, ev.system)), metadata)
      case None => NoMarks()
      case Some(ext) => MarksOf(ChangeAt(ext, c.advisory))
    else NoMarks()
  }

  lemma MoveAt(db: Db, db': Db, account: int, amount: int -> Counts, c: Cell)
    requires CountsMove(db, db', account, amount)
    ensures Cached(db', c) == Plus(Cached(db, c), if c.account == account then amount(c.advisory) else ZERO)
  {
  }

  /** The cached counts move by `moved`, the recount by the change of the one system's share. */
  lemma DriftMoves(db: Db, db': Db, s: SystemKey, c: Cell, moved: Counts)
    requires OnlyTouches(db, db', s)
    requires Cached(db', c) == Plus(Cached(db, c), moved)
    ensures Drift(db', c) == Plus(Drift(db, c), Minus(moved, Minus(Share(db', c, s), Share(db, c, s))))
  {
    hide OnlyTouches, Recount, Cached, Share;
    RecountMoves(db, db', s, c);
  }

  /** How an evaluation that stores its report moves the cached counts of a cell. */
  ghost function ReportMoves(db: Db, s: SystemKey, ext: ExtendedMap, c: Cell): Counts
    requires s in db.systems
  {
    if c.account == s.account && !db.systems[s].stale then DeltaAt(ext, c.advisory) else ZERO
  }

  ghost predicate Stores(db: Db, ev: Event, db': Db, metadata: map<string, int>, ext: ExtendedMap)
  {
    && ev.Evaluate? && ev.system in db.systems && Injective(metadata) && ev.reported.Keys <= metadata.Keys
    && RowsNamed(metadata, RowsOf(db, ev.system))
    && Changes(ev.reported, Stored(metadata, RowsOf(db, ev.system)), metadata) == Some(ext)
    && db'.systems == db.systems[ev.system := db.systems[ev.system].(evaluated := true)]
    && db'.rows == db.rows[ev.system := ReportedRows(metadata, ev.reported)]
    && CountsMove(db, db', ev.system.account, id => if db.systems[ev.system].stale then ZERO else DeltaAt(ext, id))
  }

  lemma StoresMoves(db: Db, ev: Event, db': Db, metadata: map<string, int>, ext: ExtendedMap, c: Cell)
    requires Stores(db, ev, db', metadata, ext)
    ensures Cached(db', c) == Plus(Cached(db, c), ReportMoves(db, ev.system, ext, c))
    ensures OnlyTouches(db, db', ev.system)
  {
    hide Changes, Stored, ReportedRows, DeltaAt, Cached, Injective, RowsNamed;
    MoveAt(db, db', ev.system.account, id => if db.systems[ev.system].stale then ZERO else DeltaAt(ext, id), c);
  }

  /** The share a system had and has is the weight of its row before and after. */
  lemma StoresShare(db: Db, ev: Event, db': Db, metadata: map<string, int>, ext: ExtendedMap, c: Cell)
    requires WellFormed(db) && Stores(db, ev, db', metadata, ext)
    ensures var s := ev.system;
            var on := c.account == s.account && !db.systems[s].stale;
            var after := StatusAt(ReportedRows(metadata, ev.reported), c.advisory);
            && Share(db, c, s) == (if on then Weight(StatusAt(RowsOf(db, s), c.advisory)) else ZERO)
            && Share(db', c, s) == (if on then Weight(after) else ZERO)
  {
    hide Changes, Stored, ReportedRows, DeltaAt, CountsMove, Injective, RowsNamed;
  }

  /** Delta, row weights and marks of one change fit together. */
  lemma MarksFit(before: Option<Status>, after: Option<Status>, id: int)
    ensures var e := ChangeBetween(before, after, id);
            Minus(Added(e), Minus(Weight(after), Weight(before))) == MarkDrift(MarksOf(e))
  {
    hide ChangeBetween, Added, MarksOf, Weight;
    var e := ChangeBetween(before, after, id);
    InstallableFits(before, after, id, e);
    ApplicableFits(before, after, id, e);
  }

  lemma InstallableFits(before: Option<Status>, after: Option<Status>, id: int, e: Option<Extended>)
    requires e == ChangeBetween(before, after, id)
    ensures Added(e).installable == Weight(after).installable - Weight(before).installable
                                    + MarksOf(e).toApplicable - MarksOf(e).removedApplicable
  {
  }

  lemma ApplicableFits(before: Option<Status>, after: Option<Status>, id: int, e: Option<Extended>)
    requires e == ChangeBetween(before, after, id)
    ensures Added(e).applicable == Weight(after).applicable - Weight(before).applicable
                                   + MarksOf(e).updates + MarksOf(e).removedApplicable
  {
  }

  lemma NothingFits()
    ensures Minus(ZERO, Minus(ZERO, ZERO)) == MarkDrift(NoMarks())
  {
  }

  lemma StoredReportDrift(db: Db, ev: Event, db': Db, metadata: map<string, int>, ext: ExtendedMap, c: Cell)
    requires WellFormed(db) && Stores(db, ev, db', metadata, ext)
    ensures var s := ev.system;
            var marks := if c.account == s.account && !db.systems[s].stale then MarksOf(ChangeAt(ext, c.advisory))
                         else NoMarks();
            Drift(db', c) == Plus(Drift(db, c), MarkDrift(marks))
  {
    hide Drift, OnlyTouches, Share, ReportedRows, RowsOf, Changes, Stored, CountsMove, Cached, Weight, MarksOf,
         ChangeBetween;
    hide Added, ChangeAt, StatusAt, WellFormed, Injective, RowsNamed, Plus, Minus, MarkDrift, NoMarks;
    var s := ev.system;
    var before, after := StatusAt(RowsOf(db, s), c.advisory), StatusAt(ReportedRows(metadata, ev.reported), c.advisory);
    StoresMoves(db, ev, db', metadata, ext, c);
    StoresShare(db, ev, db', metadata, ext, c);
    DriftMoves(db, db', s, c, ReportMoves(db, s, ext, c));
    ChangeAtIs(metadata, RowsOf(db, s), ev.reported, c.advisory);
    MarksFit(before, after, c.advisory);
    NothingFits();
  }

  lemma OldNamesStay(db: Db, s: SystemKey, metadata: map<string, int>, reported: map<string, Status>,
                     newIds: map<string, int>)
    requires WellFormed(db) && FreshIds(db.metadata, reported, newIds) && metadata == db.metadata + newIds
    ensures RowsNamed(metadata, RowsOf(db, s))
  {
    hide Injective;
    StillNamed(db.metadata, reported, newIds, RowsOf(db, s));
  }

  lemma EvaluateDrift(db: Db, ev: Event, db': Db, c: Cell)
    requires WellFormed(db) && ev.Evaluate? && EvaluateStep(db, ev.system, ev.reported, ev.newIds, db')
    ensures Drift(db', c) == Plus(Drift(db, c), MarkDrift(MarksAt(db, ev, c)))
  {
    hide Drift, ChangeAt, MarksOf, RowsOf, Changes, Stored, ReportedRows, CountsMove, WellFormed;
    var s := ev.system;
    if s in db.systems {
      var metadata := db.metadata + ev.newIds;
      OldNamesStay(db, s, metadata, ev.reported, ev.newIds);
      match Changes(ev.reported, Stored(metadata, RowsOf(db, s)), metadata)
      case None => SameTablesDrift(db, db', c);
      case Some(ext) => StoredReportDrift(db, ev, db', metadata, ext, c);
    }
  }

  lemma SameTablesDrift(db: Db, db': Db, c: Cell)
    requires db' == db.(metadata := db'.metadata)
    ensures Drift(db', c) == Drift(db, c) && Plus(Drift(db, c), ZERO) == Drift(db, c)
  {
    assert Carriers(db', c) == Carriers(db, c) && InstallableCarriers(db', c) == InstallableCarriers(db, c);
  }

  ghost function StaleMoves(db: Db, s: SystemKey, stale: bool, c: Cell): Counts
    requires s in db.systems
  {
    if c.account == s.account then TriggerAmount(db, s, stale, c.advisory) else ZERO
  }

  lemma SetStaleMoves(db: Db, s: SystemKey, stale: bool, db': Db, c: Cell)
    requires s in db.systems && SetStaleStep(db, s, stale, db')
    ensures Cached(db', c) == Plus(Cached(db, c), StaleMoves(db, s, stale, c)) && OnlyTouches(db, db', s)
  {
    hide TriggerAmount, Cached;
    MoveAt(db, db', s.account, id => TriggerAmount(db, s, stale, id), c);
  }

  lemma SetStaleShare(db: Db, s: SystemKey, stale: bool, db': Db, c: Cell)
    requires s in db.systems && SetStaleStep(db, s, stale, db')
    ensures Minus(Share(db', c, s), Share(db, c, s)) == StaleMoves(db, s, stale, c)
  {
    hide CountsMove, RowsNamed, Injective, Weight, StatusAt, Minus, TriggerAmount;
    var w := Weight(StatusAt(RowsOf(db, s), c.advisory));
    assert RowsOf(db', s) == RowsOf(db, s);
    FlipMoves(w);
    assert TriggerAmount(db, s, stale, c.advisory)
        == if !db.systems[s].evaluated || db.systems[s].stale == stale then ZERO
           else if stale then Minus(ZERO, w) else w by { TriggerBy(db, s, stale, c.advisory); }
  }

  lemma FlipMoves(w: Counts)
    ensures Minus(ZERO, ZERO) == Minus(w, w) == ZERO && Minus(w, ZERO) == w
  {
  }

  lemma TriggerBy(db: Db, s: SystemKey, stale: bool, id: int)
    requires s in db.systems
    ensures var w := Weight(StatusAt(RowsOf(db, s), id));
            TriggerAmount(db, s, stale, id)
            == if !db.systems[s].evaluated || db.systems[s].stale == stale then ZERO
               else if stale then Minus(ZERO, w) else w
  {
    hide Weight, StatusAt, Minus;
  }

  lemma SetStaleDrift(db: Db, s: SystemKey, stale: bool, db': Db, c: Cell)
    requires WellFormed(db) && SetStaleStep(db, s, stale, db')
    ensures Drift(db', c) == Drift(db, c)
  {
    hide Drift, OnlyTouches, Share, CountsMove, Cached, StaleMoves, WellFormed;
    if s in db.systems {
      SetStaleMoves(db, s, stale, db', c);
      SetStaleShare(db, s, stale, db', c);
      DriftMoves(db, db', s, c, StaleMoves(db, s, stale, c));
    }
  }

  /** Taking away a system that is not counted, or adding one, moves no count. */
  lemma UncountedDrift(db: Db, db': Db, s: SystemKey, c: Cell)
    requires OnlyTouches(db, db', s) && !Counted(db, s) && !Counted(db', s) && db'.aad == db.aad
    ensures Drift(db', c) == Drift(db, c)
  {
    hide Drift, OnlyTouches;
    DriftMoves(db, db', s, c, ZERO);
  }

  lemma DeleteDrift(db: Db, s: SystemKey, db': Db, c: Cell)
    requires WellFormed(db) && DeleteStep(db, s, db')
    ensures Drift(db', c) == Drift(db, c)
  {
    var mid :| SetStaleStep(db, s, true, mid)
      && db' == mid.(systems := mid.systems - {s}, rows := mid.rows - {s});
    assert !Counted(mid, s) by { hide CountsMove; }
    hide SetStaleStep, Drift, WellFormed;
    SetStaleDrift(db, s, true, mid, c);
    UncountedDrift(mid, db', s, c);
  }

  lemma MatchesIff(account: Option<int>, advisories: Option<set<int>>, c: Cell)
    ensures Matches(account, advisories, c) <==>
            (account == None || account == Some(c.account)) && (advisories.None? || c.advisory in advisories.value)
  {
  }

  lemma RefreshDrift(db: Db, account: Option<int>, advisories: Option<set<int>>, db': Db, c: Cell)
    requires RefreshStep(db, account, advisories, db')
    ensures Drift(db', c) == if Matches(account, advisories, c) then ZERO else Drift(db, c)
    ensures Matches(account, advisories, c) <==>
            (account == None || account == Some(c.account)) && (advisories.None? || c.advisory in advisories.value)
  {
    MatchesIff(account, advisories, c);
    hide Matches;
    assert Cached(db', c) == if Matches(account, advisories, c) then Recount(db, c) else Cached(db, c);
    assert Carriers(db', c) == Carriers(db, c) && InstallableCarriers(db', c) == InstallableCarriers(db, c);
  }

  /** The drift law for one event: a refresh clears the drift, evaluations add their marks, nothing else moves it. */
  lemma StepDrift(db: Db, ev: Event, db': Db, c: Cell)
    requires WellFormed(db) && Step(db, ev, db')
    ensures Drift(db', c) ==
              if ev.Refresh? && Matches(ev.account, ev.advisories, c) then ZERO
              else Plus(Drift(db, c), MarkDrift(MarksAt(db, ev, c)))
  {
    hide EvaluateStep, SetStaleStep, DeleteStep, RefreshStep, Drift, Matches, WellFormed, ChangeAt, Changes;
    assert MarkDrift(NoMarks()) == ZERO && Plus(Drift(db, c), ZERO) == Drift(db, c);
    match ev
    case Register(s) => if s !in db.systems { RegisterDrift(db, s, db', c); }
    case Evaluate(s, reported, newIds) => EvaluateDrift(db, ev, db', c);
    case SetStale(s, stale) => SetStaleDrift(db, s, stale, db', c);
    case Delete(s) => DeleteDrift(db, s, db', c);
    case Refresh(account, advisories) => RefreshDrift(db, account, advisories, db', c);
  }

  lemma RegisterDrift(db: Db, s: SystemKey, db': Db, c: Cell)
    requires WellFormed(db) && s !in db.systems && db' == db.(systems := db.systems[s := Inventory(false, false)])
    ensures Drift(db', c) == Drift(db, c)
  {
    hide Drift;
    UncountedDrift(db, db', s, c);
  }
}
