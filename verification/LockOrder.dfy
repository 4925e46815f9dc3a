/**
 Transactions that upsert advisory_account_data rows one after the other and hold each row's lock
 until they end. The deltas are sorted by account and advisory before the upsert
 (evaluator/evaluate_advisories.go, the trigger on_system_update in create_schema.sql), and that is
 what keeps them from waiting for each other in a circle.
 */
module LockOrder {
  import opened Sets
  import opened AdvisoryChanges
  import opened AccountCounts

  /** A transaction that has upserted its first `taken` rows. */
  datatype Tx = Tx(rows: seq<Cell>, taken: nat, ended: bool)

  type State = seq<Tx>

  predicate Below(a: Cell, b: Cell)
  {
    a.account < b.account || (a.account == b.account && a.advisory < b.advisory)
  }

  ghost predicate Sorted(rows: seq<Cell>)
  {
    forall i, j :: 0 <= i < j < |rows| ==> Below(rows[i], rows[j])
  }

  predicate Holds(tx: Tx, c: Cell)
  {
    !tx.ended && tx.taken <= |tx.rows| && c in tx.rows[..tx.taken]
  }

  /** Whether the transaction still has a row to upsert, which is then rows[taken]. */
  predicate Wants(tx: Tx) { !tx.ended && tx.taken < |tx.rows| }

  predicate Free(s: State, c: Cell)
  {
    forall t :: 0 <= t < |s| ==> !Holds(s[t], c)
  }

  predicate WaitsFor(s: State, t: int, u: int)
  {
    0 <= t < |s| && 0 <= u < |s| && Wants(s[t]) && Holds(s[u], s[t].rows[s[t].taken])
  }

  // ----- steps

  predicate Upsert(s: State, t: int, s': State)
  {
    && 0 <= t < |s| && Wants(s[t]) && Free(s, s[t].rows[s[t].taken])
    && s' == s[t := s[t].(taken := s[t].taken + 1)]
  }

  /** Commit after the last row. */
  predicate Commit(s: State, t: int, s': State)
  {
    && 0 <= t < |s| && !s[t].ended && s[t].taken == |s[t].rows|
    && s' == s[t := s[t].(ended := true)]
  }

  predicate Rollback(s: State, t: int, s': State)
  {
    0 <= t < |s| && !s[t].ended && s' == s[t := s[t].(ended := true)]
  }

  predicate Step(s: State, t: int, s': State)
  {
    Upsert(s, t, s') || Commit(s, t, s') || Rollback(s, t, s')
  }

  ghost predicate Next(s: State, s': State)
  {
    exists t :: Step(s, t, s')
  }

  ghost predicate Start(s: State)
  {
    forall t :: 0 <= t < |s| ==> Sorted(s[t].rows) && s[t].taken == 0 && !s[t].ended
  }

  ghost predicate Reachable(ss: seq<State>)
  {
    && |ss| > 0 && Start(ss[0])
    && forall i :: 0 <= i < |ss| - 1 ==> Next(ss[i], ss[i + 1])
  }

  ghost predicate Inv(s: State)
  {
    && (forall t :: 0 <= t < |s| ==> Sorted(s[t].rows) && s[t].taken <= |s[t].rows|)
    && forall t, u, c :: 0 <= t < |s| && 0 <= u < |s| && Holds(s[t], c) && Holds(s[u], c) ==> t == u
  }

  lemma StepKeepsInv(s: State, t: int, s': State)
    requires Inv(s) && Step(s, t, s')
    ensures Inv(s')
  {
    if Upsert(s, t, s') {
      var row := s[t].rows[s[t].taken];
      assert s'[t].rows[..s'[t].taken] == s[t].rows[..s[t].taken] + [row];
      assert forall u, c :: 0 <= u < |s| ==> (Holds(s'[u], c) <==> Holds(s[u], c) || (u == t && c == row));
    } else {
      assert forall u, c :: 0 <= u < |s| ==> (Holds(s'[u], c) ==> Holds(s[u], c));
    }
  }

  /** No two running transactions ever hold the same row. */
  lemma {:induction false} RowsAreLocked(ss: seq<State>)
    requires Reachable(ss)
    ensures Inv(ss[|ss| - 1])
  {
    hide Start, Next, Inv, Step;
    var n := |ss| - 1;
    if n == 0 {
      StartInv(ss[0]);
    } else {
      RowsAreLocked(ss[..n]);
      assert Next(ss[n - 1], ss[n]);
      NextKeepsInv(ss[n - 1], ss[n]);
    }
  }

  lemma StartInv(s: State)
    requires Start(s)
    ensures Inv(s)
  {
  }

  lemma NextKeepsInv(s: State, s': State)
    requires Inv(s) && Next(s, s')
    ensures Inv(s')
  {
    var t :| Step(s, t, s');
    StepKeepsInv(s, t, s');
  }

  // ----- no circle of waits

  /** Along a wait the wanted row grows. */
  lemma WaitAscends(s: State, t: int, u: int)
    requires Inv(s) && WaitsFor(s, t, u) && Wants(s[u])
    ensures Below(s[t].rows[s[t].taken], s[u].rows[s[u].taken])
  {
    var j :| 0 <= j < s[u].taken && s[u].rows[j] == s[t].rows[s[t].taken];
  }

  ghost predicate WaitChain(s: State, ts: seq<int>)
  {
    forall i :: 0 <= i < |ts| - 1 ==> WaitsFor(s, ts[i], ts[i + 1])
  }

  lemma {:induction false} ChainAscends(s: State, ts: seq<int>)
    requires Inv(s) && |ts| > 1 && WaitChain(s, ts)
    ensures 0 <= ts[0] < |s| && 0 <= ts[|ts| - 1] < |s| && Wants(s[ts[0]])
    ensures Wants(s[ts[|ts| - 1]]) ==>
              var a, b := s[ts[0]], s[ts[|ts| - 1]]; Below(a.rows[a.taken], b.rows[b.taken])
  {
    var n := |ts| - 1;
    assert WaitsFor(s, ts[n - 1], ts[n]) && WaitsFor(s, ts[0], ts[1]);
    if Wants(s[ts[n]]) {
      WaitAscends(s, ts[n - 1], ts[n]);
      if n > 1 {
        assert forall i :: 0 <= i < n ==> ts[..n][i] == ts[i];
        ChainAscends(s, ts[..n]);
      }
    }
  }

  /** No group of transactions waits in a circle, in any reachable state. */
  lemma NoDeadlock(ss: seq<State>, ts: seq<int>)
    requires Reachable(ss) && |ts| > 1 && WaitChain(ss[|ss| - 1], ts)
    ensures ts[0] != ts[|ts| - 1]
  {
    RowsAreLocked(ss);
    var s := ss[|ss| - 1];
    assert WaitsFor(s, ts[0], ts[1]);
    ChainAscends(s, ts);
  }

  // ----- progress

  ghost predicate CanMove(s: State, t: int)
  {
    exists s' :: Upsert(s, t, s') || Commit(s, t, s')
  }

  ghost function WantedAbove(s: State, c: Cell): set<int>
  {
    set t | 0 <= t < |s| && Wants(s[t]) && Below(c, s[t].rows[s[t].taken])
  }

  /** Following the waits from any running transaction leads to one that can move. */
  lemma {:induction false} FollowWaits(s: State, t: int) returns (u: int)
    requires Inv(s) && 0 <= t < |s| && !s[t].ended
    ensures 0 <= u < |s| && CanMove(s, u)
    decreases if Wants(s[t]) then 1 + |WantedAbove(s, s[t].rows[s[t].taken])| else 0
  {
    if !Wants(s[t]) {
      assert Commit(s, t, s[t := s[t].(ended := true)]);
      return t;
    }
    var row := s[t].rows[s[t].taken];
    if Free(s, row) {
      assert Upsert(s, t, s[t := s[t].(taken := s[t].taken + 1)]);
      return t;
    }
    var h :| 0 <= h < |s| && Holds(s[h], row);
    if Wants(s[h]) {
      WaitAscends(s, t, h);
      var next := s[h].rows[s[h].taken];
      assert WantedAbove(s, next) <= WantedAbove(s, row);
      assert h in WantedAbove(s, row) && h !in WantedAbove(s, next);
      Smaller(WantedAbove(s, next), WantedAbove(s, row), h);
    }
    u := FollowWaits(s, h);
  }

  lemma Smaller(a: set<int>, b: set<int>, x: int)
    requires a <= b && x in b && x !in a
    ensures |a| < |b|
  {
    assert a <= b - {x};
    SubsetSize(a, b - {x});
  }

  /** Rows still to upsert and transactions still to end. */
  function Work(s: State): nat
  {
    if s == [] then 0
    else
      (if s[0].ended then 0 else 1 + if s[0].taken <= |s[0].rows| then |s[0].rows| - s[0].taken else 0) + Work(s[1..])
  }

  lemma {:induction false} WorkFalls(s: State, t: int, tx: Tx)
    requires 0 <= t < |s| && !s[t].ended
    requires tx == s[t].(ended := true) || (s[t].taken < |s[t].rows| && tx == s[t].(taken := s[t].taken + 1))
    ensures Work(s[t := tx]) < Work(s)
  {
    if t == 0 {
      assert s[t := tx][1..] == s[1..];
    } else {
      WorkFalls(s[1..], t - 1, tx);
      assert s[t := tx][1..] == s[1..][t - 1 := tx];
    }
  }

  /**
   Progress: as long as a transaction is running, some transaction can upsert its next row or commit,
   and every step leaves less work. So no run stops before all transactions have ended, and each run does stop.
   */
  lemma Progress(ss: seq<State>)
    requires Reachable(ss)
    ensures var s := ss[|ss| - 1];
            && ((exists t :: 0 <= t < |s| && !s[t].ended) <==> exists t :: 0 <= t < |s| && CanMove(s, t))
            && forall t, s' :: Step(s, t, s') ==> Work(s') < Work(s)
  {
    RowsAreLocked(ss);
    var s := ss[|ss| - 1];
    if t :| 0 <= t < |s| && !s[t].ended {
      var u := FollowWaits(s, t);
    }
    forall t, s' | Step(s, t, s') ensures Work(s') < Work(s) {
      WorkFalls(s, t, s'[t]);
    }
  }

  // ----- the deltas of an evaluation are such lists, and the order is needed

  function CellsOf(account: int, deltas: seq<AccountDelta>): seq<Cell>
  {
    seq(|deltas|, i requires 0 <= i < |deltas| => Cell(account, deltas[i].advisoryId))
  }

  /** calcAdvisoryChanges delivers its deltas in ascending order, so its cells are sorted. */
  lemma DeltasAreSorted(account: int, deltas: seq<AccountDelta>)
    requires Ascending(deltas)
    ensures Sorted(CellsOf(account, deltas))
  {
    var cells := CellsOf(account, deltas);
    forall i, j | 0 <= i < j < |cells| ensures Below(cells[i], cells[j]) {
      assert deltas[i].advisoryId < deltas[j].advisoryId;
    }
  }

  /** Without the order two transactions can block each other for good. */
  lemma UnsortedDeadlocks(one: Cell, two: Cell)
    requires one != two
    ensures var s0 := [Tx([one, two], 0, false), Tx([two, one], 0, false)];
            var s1 := [Tx([one, two], 1, false), Tx([two, one], 0, false)];
            var s2 := [Tx([one, two], 1, false), Tx([two, one], 1, false)];
            Upsert(s0, 0, s1) && Upsert(s1, 1, s2) && WaitChain(s2, [0, 1, 0]) && !CanMove(s2, 0) && !CanMove(s2, 1)
  {
    var s1 := [Tx([one, two], 1, false), Tx([two, one], 0, false)];
    var s2 := [Tx([one, two], 1, false), Tx([two, one], 1, false)];
    assert [one, two][..1] == [one] && [two, one][..1] == [two];
    assert Holds(s2[0], one) && Holds(s2[1], two);
    assert !Free(s2, one) && !Free(s2, two);
    assert WaitsFor(s2, 0, 1) && WaitsFor(s2, 1, 0);
  }
}
