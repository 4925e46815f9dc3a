/**
 Counting the tables and checking the cached counts against them (base/database/testing.go,
 database_admin/schema/create_schema.sql).
 */
module CacheCheck {
  import opened Sets
  import opened Wrappers
  import opened Vmaas
  import opened AdvisoryChanges
  import opened AccountCounts
  import opened CountRuns

  type CellCounts = map<Cell, Counts>

  function At(counts: CellCounts, c: Cell): Counts
  {
    if c in counts then counts[c] else ZERO
  }

  /** What a row adds when its system enters the counts (change 1) or leaves them (change -1). */
  function RowChange(status: Option<Status>, change: int): Counts
  {
    if status.None? then ZERO else Counts(if status.value == Installable then change else 0, change)
  }

  /** Adds one system's rows to the counts of its account, in any order. */
  method AddRows(counts: CellCounts, account: int, rows: Rows, change: int) returns (r: CellCounts)
    ensures r.Keys == counts.Keys + (set id | id in rows :: Cell(account, id))
    ensures forall c :: At(r, c) == if c.account == account && c.advisory in rows
                                    then Plus(At(counts, c), RowChange(Some(rows[c.advisory]), change))
                                    else At(counts, c)
  {
    hide Plus, RowChange;
    r := counts;
    var rest := rows.Keys;
    while rest != {}
      invariant rest <= rows.Keys
      invariant r.Keys == counts.Keys + (set id | id in rows.Keys - rest :: Cell(account, id))
      invariant forall c :: At(r, c) == if c.account == account && c.advisory in rows && c.advisory !in rest
                                        then Plus(At(counts, c), RowChange(Some(rows[c.advisory]), change))
                                        else At(counts, c)
    {
      SomeElement(rest);
      var id :| id in rest;
      var cell := Cell(account, id);
      r := r[cell := Plus(At(r, cell), RowChange(Some(rows[id]), change))];
      rest := rest - {id};
    }
  }

  /** The counts of the systems seen so far. */
  ghost function CountIn(db: Db, c: Cell, done: set<SystemKey>): Counts
  {
    Counts(|InstallableCarriers(db, c) * done|, |Carriers(db, c) * done|)
  }

  lemma CountOneMore(db: Db, c: Cell, done: set<SystemKey>, s: SystemKey)
    requires s !in done && s in db.systems
    ensures CountIn(db, c, done + {s})
            == if Carries(db, c, s) then Plus(CountIn(db, c, done), RowChange(Some(RowsOf(db, s)[c.advisory]), 1))
               else CountIn(db, c, done)
  {
    ApplicableOneMore(db, c, done, s);
    InstallableOneMore(db, c, done, s);
    hide Carriers, InstallableCarriers;
  }

  lemma ApplicableOneMore(db: Db, c: Cell, done: set<SystemKey>, s: SystemKey)
    requires s !in done && s in db.systems
    ensures |Carriers(db, c) * (done + {s})| == |Carriers(db, c) * done| + if Carries(db, c, s) then 1 else 0
  {
    var all := Carriers(db, c);
    assert all * (done + {s}) == (all * done) + if s in all then {s} else {};
  }

  lemma InstallableOneMore(db: Db, c: Cell, done: set<SystemKey>, s: SystemKey)
    requires s !in done && s in db.systems
    ensures |InstallableCarriers(db, c) * (done + {s})|
            == |InstallableCarriers(db, c) * done|
               + if Carries(db, c, s) && RowsOf(db, s)[c.advisory] == Installable then 1 else 0
  {
    var all := InstallableCarriers(db, c);
    assert all * (done + {s}) == (all * done) + if s in all then {s} else {};
  }

  lemma CountAll(db: Db, c: Cell)
    ensures CountIn(db, c, db.systems.Keys) == Recount(db, c)
    ensures CountIn(db, c, {}) == ZERO
  {
    assert Carriers(db, c) * db.systems.Keys == Carriers(db, c);
    assert InstallableCarriers(db, c) * db.systems.Keys == InstallableCarriers(db, c);
  }

  /** The grouped count query: system_advisories joined with the counted systems. */
  method CountRows(db: Db) returns (counts: CellCounts)
    ensures forall c :: At(counts, c) == Recount(db, c)
  {
    hide Recount, CountIn, Carries;
    counts := map[];
    var rest := db.systems.Keys;
    forall c ensures CountIn(db, c, db.systems.Keys) == Recount(db, c) && CountIn(db, c, {}) == ZERO {
      CountAll(db, c);
    }
    assert db.systems.Keys - rest == {};
    while rest != {}
      invariant rest <= db.systems.Keys
      invariant forall c :: At(counts, c) == CountIn(db, c, db.systems.Keys - rest)
    {
      var s :| s in rest;
      counts := CountSystem(db, counts, s, db.systems.Keys - rest);
      assert db.systems.Keys - (rest - {s}) == (db.systems.Keys - rest) + {s};
      rest := rest - {s};
    }
    assert db.systems.Keys - {} == db.systems.Keys;
  }

  method CountSystem(db: Db, counts: CellCounts, s: SystemKey, ghost done: set<SystemKey>) returns (r: CellCounts)
    requires s in db.systems && s !in done
    requires forall c :: At(counts, c) == CountIn(db, c, done)
    ensures forall c :: At(r, c) == CountIn(db, c, done + {s})
  {
    hide CountIn, Plus, RowChange, At;
    r := counts;
    if !db.systems[s].stale && db.systems[s].evaluated {
      r := AddRows(counts, s.account, RowsOf(db, s), 1);
    }
    forall c ensures At(r, c) == CountIn(db, c, done + {s}) {
      CountOneMore(db, c, done, s);
    }
  }

  /** crossCheckCache: each entry of a equals b's entry, 0 where b has none. */
  method CrossCheck(a: CellCounts, b: CellCounts) returns (valid: bool)
    ensures valid <==> forall c :: c in a ==> a[c] == At(b, c)
  {
    valid := true;
    var rest := a.Keys;
    while rest != {}
      invariant rest <= a.Keys
      invariant valid <==> forall c :: c in a && c !in rest ==> a[c] == At(b, c)
    {
      var c :| c in rest;
      var counts := At(b, c);
      if a[c].installable != counts.installable {
        valid := false;
      }
      if a[c].applicable != counts.applicable {
        valid := false;
      }
      rest := rest - {c};
    }
  }

  /** CheckCachesValidRet: true exactly when the cached and the recounted numbers agree in every cell. */
  method CheckCachesValidRet(db: Db) returns (valid: bool)
    ensures valid <==> Agree(db)
  {
    hide Recount;
    var calculated := CountRows(db);
    valid := CrossCheck(db.aad, calculated);
    var back := CrossCheck(calculated, db.aad);
    valid := valid && back;
    assert forall c :: Cached(db, c) == At(db.aad, c);
  }

  /** refresh_advisory_caches_multi: the matching cells get the recount, or lose their row. */
  method RefreshCaches(db: Db, account: Option<int>, advisories: Option<set<int>>) returns (aad: CellCounts)
    ensures forall c :: At(aad, c) == if Matches(account, advisories, c) then Recount(db, c) else Cached(db, c)
  {
    hide Recount, Matches;
    var counts := CountRows(db);
    aad := map c | c in db.aad.Keys + counts.Keys
                     && if Matches(account, advisories, c) then c in counts else c in db.aad
             :: if Matches(account, advisories, c) then counts[c] else db.aad[c];
  }
}
