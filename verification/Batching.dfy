/**
 Splitting evaluation requests into bounded events per account, and reading them back
 (base/mqueue/platform_event.go, evaluator/evaluate.go).
 */
module Batching {
  import opened Wrappers

  datatype EvalData = EvalData(inventoryId: string, account: int, requestId: string, orgId: Option<string>)

  datatype PlatformEvent = PlatformEvent(
    account: int, systemIds: seq<string>, requestIds: seq<string>, orgId: Option<string>, skipNotifications: bool)

  // ----- grouping

  /** The requests of one account, in order. */
  function For(evals: seq<EvalData>, account: int): seq<EvalData>
  {
    if evals == [] then []
    else
      var last := evals[|evals| - 1];
      For(evals[..|evals| - 1], account) + if last.account == account then [last] else []
  }

  function Inventories(evals: seq<EvalData>): seq<string>
  {
    seq(|evals|, i requires 0 <= i < |evals| => evals[i].inventoryId)
  }

  function Requests(evals: seq<EvalData>): seq<string>
  {
    seq(|evals|, i requires 0 <= i < |evals| => evals[i].requestId)
  }

  lemma AppendOne(evals: seq<EvalData>, e: EvalData)
    ensures Inventories(evals + [e]) == Inventories(evals) + [e.inventoryId]
    ensures Requests(evals + [e]) == Requests(evals) + [e.requestId]
  {
  }

  /** The maps after grouping: one entry for each account that occurs, its systems and requests in order. */
  ghost predicate Grouped(evals: seq<EvalData>, invs: map<int, seq<string>>, reqs: map<int, seq<string>>,
                          orgs: map<int, Option<string>>)
  {
    && invs.Keys == reqs.Keys == orgs.Keys
    && (forall a :: a in invs <==> For(evals, a) != [])
    && (forall a :: a in invs ==> invs[a] == Inventories(For(evals, a)) && reqs[a] == Requests(For(evals, a)))
    && (forall a :: a in orgs ==> For(evals, a) != [] && orgs[a] == For(evals, a)[0].orgId)
  }

  /** What an account's list becomes when one more element comes in for it. */
  function Appended(m: map<int, seq<string>>, account: int, x: string): map<int, seq<string>>
  {
    m[account := (if account in m then m[account] else []) + [x]]
  }

  lemma ForMore(done: seq<EvalData>, e: EvalData, account: int)
    ensures For(done + [e], account) == For(done, account) + if e.account == account then [e] else []
  {
    assert (done + [e])[..|done|] == done;
  }

  lemma NothingRead()
    ensures Inventories([]) == [] && Requests([]) == []
  {
  }

  lemma GroupMore(done: seq<EvalData>, invs: map<int, seq<string>>, reqs: map<int, seq<string>>,
                  orgs: map<int, Option<string>>, e: EvalData)
    requires Grouped(done, invs, reqs, orgs)
    ensures Grouped(done + [e], Appended(invs, e.account, e.inventoryId), Appended(reqs, e.account, e.requestId),
                    if e.account in orgs then orgs else orgs[e.account := e.orgId])
  {
    hide Inventories, Requests, For;
    forall a ensures For(done + [e], a) == For(done, a) + if e.account == a then [e] else [] {
      ForMore(done, e, a);
    }
    AppendOne(For(done, e.account), e);
    NothingRead();
    var more, invs', reqs' := done + [e], Appended(invs, e.account, e.inventoryId),
        Appended(reqs, e.account, e.requestId);
    assert invs'[e.account] == Inventories(For(more, e.account)) && reqs'[e.account] == Requests(For(more, e.account));
    assert forall a :: a != e.account ==> For(more, a) == For(done, a);
    assert forall a :: For(done, a) != [] ==> For(more, a)[0] == For(done, a)[0];
    assert invs'.Keys == invs.Keys + {e.account} && reqs'.Keys == reqs.Keys + {e.account};
  }

  /** The grouping loop of getAccountEvalData. */
  method GroupByAccount(evals: seq<EvalData>)
    returns (invs: map<int, seq<string>>, reqs: map<int, seq<string>>, orgs: map<int, Option<string>>)
    ensures Grouped(evals, invs, reqs, orgs)
  {
    invs, reqs, orgs := map[], map[], map[];
    for i := 0 to |evals|
      invariant Grouped(evals[..i], invs, reqs, orgs)
    {
      hide Grouped;
      var e := evals[i];
      GroupMore(evals[..i], invs, reqs, orgs, e);
      assert evals[..i + 1] == evals[..i] + [e];
      invs := Appended(invs, e.account, e.inventoryId);
      reqs := Appended(reqs, e.account, e.requestId);
      if e.account !in orgs {
        orgs := orgs[e.account := e.orgId];
      }
    }
    assert evals[..|evals|] == evals;
  }

  // ----- batching

  /** What is set when no positive size is asked for. */
  function SizeOr(size: int, batchSize: int): int { if size <= 0 then batchSize else size }

  /** Batches of one account, by ceiling division. */
  function Batches(n: nat, size: int): nat
    requires size > 0
  {
    (n + size - 1) / size
  }

  /** Batches of all accounts. */
  ghost function AllBatches(grouped: map<int, seq<string>>, size: int): nat
    requires size > 0
  {
    if grouped == map[] then 0
    else
      SomeKey(grouped);
      var a :| a in grouped; Batches(|grouped[a]|, size) + AllBatches(grouped - {a}, size)
  }

  lemma {:induction false} AnyAccountFirst(grouped: map<int, seq<string>>, size: int, a: int)
    requires size > 0 && a in grouped
    ensures AllBatches(grouped, size) == Batches(|grouped[a]|, size) + AllBatches(grouped - {a}, size)
    decreases |grouped|
  {
    hide Batches;
    var b :| b in grouped && AllBatches(grouped, size) == Batches(|grouped[b]|, size) + AllBatches(grouped - {b}, size);
    if a != b {
      assert (grouped - {b}).Keys == grouped.Keys - {b} && (grouped - {a}).Keys == grouped.Keys - {a};
      AnyAccountFirst(grouped - {b}, size, a);
      AnyAccountFirst(grouped - {a}, size, b);
      assert grouped - {b} - {a} == grouped - {a} - {b};
    }
  }

  method BatchCount(grouped: map<int, seq<string>>, size: int, batchSize: int) returns (batches: int)
    requires batchSize > 0
    ensures batches == AllBatches(grouped, SizeOr(size, batchSize))
    ensures batches == AllBatches(grouped, if size > 0 then size else batchSize)
  {
    hide Batches, AllBatches;
    var s := if size <= 0 then batchSize else size;
    batches := 0;
    var rest := grouped;
    while rest != map[]
      invariant rest.Keys <= grouped.Keys && batches + AllBatches(rest, s) == AllBatches(grouped, s)
      decreases |rest|
    {
      SomeKey(rest);
      var a :| a in rest;
      AnyAccountFirst(rest, s, a);
      batches := batches + Batches(|rest[a]|, s);
      assert (rest - {a}).Keys == rest.Keys - {a};
      rest := rest - {a};
    }
    NoBatches(s);
  }

  lemma SomeKey(m: map<int, seq<string>>)
    requires m != map[]
    ensures exists k :: k in m
  {
    assert (forall k :: k !in m) ==> m == map[];
  }

  lemma NoBatches(size: int)
    requires size > 0
    ensures AllBatches(map[], size) == 0
  {
  }

  // ----- the events

  /** The systems of an account over all events, in order. */
  function SystemsOf(events: seq<PlatformEvent>, account: int): seq<string>
  {
    if events == [] then []
    else
      var last := events[|events| - 1];
      SystemsOf(events[..|events| - 1], account) + if last.account == account then last.systemIds else []
  }

  function RequestsOf(events: seq<PlatformEvent>, account: int): seq<string>
  {
    if events == [] then []
    else
      var last := events[|events| - 1];
      RequestsOf(events[..|events| - 1], account) + if last.account == account then last.requestIds else []
  }

  lemma OneEventMore(events: seq<PlatformEvent>, e: PlatformEvent, account: int)
    ensures SystemsOf(events + [e], account)
            == SystemsOf(events, account) + if e.account == account then e.systemIds else []
    ensures RequestsOf(events + [e], account)
            == RequestsOf(events, account) + if e.account == account then e.requestIds else []
  {
    assert (events + [e])[..|events|] == events;
  }

  /** Between 1 and size systems of one account, each with its request. */
  predicate Bounded(e: PlatformEvent, size: int, skipNotifications: bool)
  {
    1 <= |e.systemIds| <= size && |e.requestIds| == |e.systemIds| && e.skipNotifications == skipNotifications
  }

  lemma MulAtLeast(k: int, d: int)
    requires k >= 1 && d > 0
    ensures k * d >= d
  {
    assert k * d == (k - 1) * d + d;
  }

  lemma QuotientIs(m: int, d: int, q: int, r: int)
    requires 0 <= r < d && m == q * d + r
    ensures m / d == q
  {
    var k := q - m / d;
    assert m == (m / d) * d + m % d;
    assert k * d == q * d - (m / d) * d;
    assert -k * d == -(k * d);
    if k >= 1 { MulAtLeast(k, d); }
    if k <= -1 { MulAtLeast(-k, d); }
  }

  lemma CeilingStep(n: int, size: int)
    requires size > 0 && n > 0
    ensures n <= size ==> (n + size - 1) / size == 1
    ensures n > size ==> (n + size - 1) / size == 1 + (n - 1) / size
  {
    if n <= size {
      QuotientIs(n + size - 1, size, 1, n - 1);
    } else {
      var q, r := (n - 1) / size, (n - 1) % size;
      assert n - 1 == q * size + r;
      assert (q + 1) * size == q * size + size;
      QuotientIs(n + size - 1, size, q + 1, r);
    }
  }

  /** The events after an account's first `start` systems have been sent, on top of the earlier events. */
  ghost predicate SentUpTo(events: seq<PlatformEvent>, r: seq<PlatformEvent>, account: int, invs: seq<string>,
                           reqs: seq<string>,
                           org: Option<string>, size: int, skip: bool, start: int)
    requires |invs| == |reqs| && 0 <= start <= |invs|
  {
    && SystemsOf(r, account) == invs[..start] && RequestsOf(r, account) == reqs[..start]
    && (forall a :: a != account ==>
        SystemsOf(r, a) == SystemsOf(events, a) && RequestsOf(r, a) == RequestsOf(events, a))
    && forall e :: e in r ==> Bounded(e, size, skip) && (e in events || (e.account == account && e.orgId == org))
  }

  lemma SendOne(events: seq<PlatformEvent>, r: seq<PlatformEvent>, account: int, invs: seq<string>, reqs: seq<string>,
                org: Option<string>, size: int, skip: bool, start: int, end: int)
    requires |invs| == |reqs| && 0 <= start < end <= |invs| && end - start <= size
    requires SentUpTo(events, r, account, invs, reqs, org, size, skip, start)
    ensures SentUpTo(events, r + [PlatformEvent(account, invs[start..end], reqs[start..end], org, skip)],
                     account, invs, reqs, org, size, skip, end)
  {
    hide SystemsOf, RequestsOf;
    var e := PlatformEvent(account, invs[start..end], reqs[start..end], org, skip);
    forall a ensures SystemsOf(r + [e], a) == SystemsOf(r, a) + (if a == account then e.systemIds else [])
                  && RequestsOf(r + [e], a) == RequestsOf(r, a) + (if a == account then e.requestIds else []) {
      OneEventMore(r, e, a);
    }
    assert invs[..end] == invs[..start] + invs[start..end] && reqs[..end] == reqs[..start] + reqs[start..end];
    assert forall a :: SystemsOf(r, a) + [] == SystemsOf(r, a) && RequestsOf(r, a) + [] == RequestsOf(r, a);
  }

  /** The inner loop of writeEvents: the batches of one account. */
  method AppendBatches(events: seq<PlatformEvent>, account: int, invs: seq<string>, reqs: seq<string>,
                       org: Option<string>,
                       size: int, skip: bool)
    returns (r: seq<PlatformEvent>)
    requires size > 0 && |invs| == |reqs| && SystemsOf(events, account) == [] && RequestsOf(events, account) == []
    requires forall e :: e in events ==> Bounded(e, size, skip)
    ensures SentUpTo(events, r, account, invs, reqs, org, size, skip, |invs|)
    ensures |r| == |events| + Batches(|invs|, size)
  {
    r := events;
    var start := 0;
    LeftOver(|invs|, size);
    while start < |invs|
      invariant 0 <= start && SentUpTo(events, r, account, invs, reqs, org, size, skip, Min(start, |invs|))
      invariant |r| + Batches(Left(start, |invs|), size) == |events| + Batches(|invs|, size)
      decreases |invs| - start
    {
      hide SentUpTo, Batches;
      var end := start + size;
      if end > |invs| {
        end := |invs|;
      }
      SendOne(events, r, account, invs, reqs, org, size, skip, start, end);
      LeftOver(|invs| - start, size);
      r := r + [PlatformEvent(account, invs[start..end], reqs[start..end], org, skip)];
      start := start + size;
    }
  }

  function Min(a: int, b: int): int { if a < b then a else b }

  function Left(start: int, n: int): nat { if start < n then n - start else 0 }

  lemma LeftOver(n: int, size: int)
    requires size > 0
    ensures Batches(0, size) == 0
    ensures n > 0 ==> Batches(n, size) == 1 + Batches(Left(size, n), size)
  {
    if n > 0 { CeilingStep(n, size); }
    assert (size - 1) / size == 0;
  }

  /** All events so far belong to the accounts done, and hold exactly what was asked for there. */
  ghost predicate WrittenFor(evals: seq<EvalData>, events: seq<PlatformEvent>, done: set<int>, size: int, skip: bool)
  {
    && (forall a :: a in done ==>
        SystemsOf(events, a) == Inventories(For(evals, a)) && RequestsOf(events, a) == Requests(For(evals, a)))
    && (forall a :: a !in done ==> SystemsOf(events, a) == [] && RequestsOf(events, a) == [])
    && forall e :: e in events ==>
       Bounded(e, size, skip) && For(evals, e.account) != [] && e.orgId == For(evals, e.account)[0].orgId
  }

  lemma WriteOne(evals: seq<EvalData>, events: seq<PlatformEvent>, r: seq<PlatformEvent>, done: set<int>, account: int,
                 org: Option<string>, size: int, skip: bool)
    requires WrittenFor(evals, events, done, size, skip) && account !in done
    requires For(evals, account) != [] && org == For(evals, account)[0].orgId
    requires var invs, reqs := Inventories(For(evals, account)), Requests(For(evals, account));
             SentUpTo(events, r, account, invs, reqs, org, size, skip, |invs|)
    ensures WrittenFor(evals, r, done + {account}, size, skip)
  {
    hide For, SystemsOf, RequestsOf, Bounded;
    var invs, reqs := Inventories(For(evals, account)), Requests(For(evals, account));
    assert invs[..|invs|] == invs && reqs[..|invs|] == reqs;
    hide Inventories, Requests;
    assert SystemsOf(r, account) == invs && RequestsOf(r, account) == reqs;
    forall e | e in r
      ensures Bounded(e, size, skip) && For(evals, e.account) != [] && e.orgId == For(evals, e.account)[0].orgId {
      assert e in events || (e.account == account && e.orgId == org);
    }
  }

  lemma WrittenAll(evals: seq<EvalData>, events: seq<PlatformEvent>, done: set<int>, size: int, skip: bool)
    requires WrittenFor(evals, events, done, size, skip) && forall a :: a in done <==> For(evals, a) != []
    ensures forall a ::
              SystemsOf(events, a) == Inventories(For(evals, a)) && RequestsOf(events, a) == Requests(For(evals, a))
  {
    NothingRead();
    hide For, SystemsOf, RequestsOf, Inventories, Requests;
  }

  /**
   writeEvents: over all events, each account gets exactly its systems and requests, in order and index
   by index; each event holds between one and `size` systems of one account and that account's first
   organisation; and there are as many events as batchCount says.
   */
  method WriteEvents(evals: seq<EvalData>, size: int, batchSize: int, skip: bool)
    returns (events: seq<PlatformEvent>, ghost grouped: map<int, seq<string>>)
    requires batchSize > 0
    ensures forall a ::
              SystemsOf(events, a) == Inventories(For(evals, a)) && RequestsOf(events, a) == Requests(For(evals, a))
    ensures forall e :: e in events ==>
              && Bounded(e, SizeOr(size, batchSize), skip)
              && For(evals, e.account) != [] && e.orgId == For(evals, e.account)[0].orgId
    ensures forall a :: a in grouped <==> For(evals, a) != []
    ensures forall a :: a in grouped ==> grouped[a] == Inventories(For(evals, a))
    ensures |events| == AllBatches(grouped, SizeOr(size, batchSize))
    ensures forall e :: e in events ==>
              && 1 <= |e.systemIds| == |e.requestIds| <= (if size > 0 then size else batchSize)
              && e.skipNotifications == skip
  {
    hide For, SystemsOf, RequestsOf, AllBatches, Batches, WrittenFor, SentUpTo, Bounded, Grouped, Inventories, Requests;
    var s := SizeOr(size, batchSize);
    var invs, reqs, orgs := GroupByAccount(evals);
    grouped := invs;
    var batches := BatchCount(invs, s, batchSize);
    GroupedInvs(evals, invs, reqs, orgs);
    NothingWritten(evals, s, skip);
    events := [];
    var rest := invs;
    assert invs.Keys - rest.Keys == {};
    while rest != map[]
      invariant rest.Keys <= invs.Keys && (forall a :: a in rest ==> rest[a] == invs[a])
      invariant WrittenFor(evals, events, invs.Keys - rest.Keys, s, skip)
      invariant |events| + AllBatches(rest, s) == AllBatches(invs, s)
      decreases |rest|
    {
      SomeKey(rest);
      var a :| a in rest;
      AnyAccountFirst(rest, s, a);
      NotYetWritten(evals, events, invs.Keys - rest.Keys, a, s, skip);
      GroupedAt(evals, invs, reqs, orgs, a);
      var more := AppendBatches(events, a, invs[a], reqs[a], orgs[a], s, skip);
      WriteOne(evals, events, more, invs.Keys - rest.Keys, a, orgs[a], s, skip);
      OneAccountLess(invs, rest, a);
      rest := rest - {a};
      events := more;
    }
    NoBatches(s);
    assert invs.Keys - {} == invs.Keys;
    assert |events| == batches;
    WrittenAll(evals, events, invs.Keys, s, skip);
    WrittenEvents(evals, events, invs.Keys, s, skip);
    forall e { BoundedIs(e, s, skip); }
  }

  lemma BoundedIs(e: PlatformEvent, size: int, skip: bool)
    ensures Bounded(e, size, skip) ==> 1 <= |e.systemIds| == |e.requestIds| <= size && e.skipNotifications == skip
  {
  }

  lemma OneAccountLess(invs: map<int, seq<string>>, rest: map<int, seq<string>>, a: int)
    requires a in rest && rest.Keys <= invs.Keys
    ensures (rest - {a}).Keys <= invs.Keys && |rest - {a}| < |rest|
    ensures invs.Keys - (rest - {a}).Keys == (invs.Keys - rest.Keys) + {a}
  {
    assert (rest - {a}).Keys == rest.Keys - {a};
  }

  lemma GroupedInvs(evals: seq<EvalData>, invs: map<int, seq<string>>, reqs: map<int, seq<string>>,
                    orgs: map<int, Option<string>>)
    requires Grouped(evals, invs, reqs, orgs)
    ensures forall a :: a in invs <==> For(evals, a) != []
    ensures forall a :: a in invs ==> invs[a] == Inventories(For(evals, a))
  {
  }

  lemma GroupedAt(evals: seq<EvalData>, invs: map<int, seq<string>>, reqs: map<int, seq<string>>,
                  orgs: map<int, Option<string>>, a: int)
    requires Grouped(evals, invs, reqs, orgs) && a in invs
    ensures a in reqs && a in orgs && For(evals, a) != [] && orgs[a] == For(evals, a)[0].orgId
    ensures invs[a] == Inventories(For(evals, a)) && reqs[a] == Requests(For(evals, a)) && |invs[a]| == |reqs[a]|
  {
    hide For;
  }

  lemma NothingWritten(evals: seq<EvalData>, size: int, skip: bool)
    ensures WrittenFor(evals, [], {}, size, skip)
  {
  }

  lemma NotYetWritten(evals: seq<EvalData>, events: seq<PlatformEvent>, done: set<int>, account: int, size: int,
                      skip: bool)
    requires WrittenFor(evals, events, done, size, skip) && account !in done
    ensures SystemsOf(events, account) == [] && RequestsOf(events, account) == []
    ensures forall e :: e in events ==> Bounded(e, size, skip)
  {
  }

  lemma WrittenEvents(evals: seq<EvalData>, events: seq<PlatformEvent>, done: set<int>, size: int, skip: bool)
    requires WrittenFor(evals, events, done, size, skip)
    ensures forall e :: e in events ==>
              Bounded(e, size, skip) && For(evals, e.account) != [] && e.orgId == For(evals, e.account)[0].orgId
  {
  }

  // ----- reading the events

  /** A system to evaluate and the request it is reported under. */
  datatype Job = Job(inventoryId: string, requestId: Option<string>)

  /**
   The loop of evaluateHandler: the i-th system is paired with the i-th request. When there are fewer
   requests than systems, the last request stays in place for the systems that have none.
   */
  method ReadEvent(e: PlatformEvent) returns (jobs: seq<Job>)
    ensures |jobs| == |e.systemIds|
    ensures forall i :: 0 <= i < |jobs| ==>
              jobs[i] == Job(e.systemIds[i],
                             if i < |e.requestIds| then Some(e.requestIds[i])
                             else if e.requestIds == [] then None else Some(e.requestIds[|e.requestIds| - 1]))
    ensures |e.systemIds| == |e.requestIds| ==> jobs == Paired(e.systemIds, e.requestIds)
  {
    jobs := [];
    var requestId := None;
    for i := 0 to |e.systemIds|
      invariant |jobs| == i
      invariant requestId == if i <= |e.requestIds| && i > 0 then Some(e.requestIds[i - 1])
                             else if e.requestIds == [] || i == 0 then None else Some(e.requestIds[|e.requestIds| - 1])
      invariant forall j :: 0 <= j < i ==>
                  jobs[j] == Job(e.systemIds[j],
                                 if j < |e.requestIds| then Some(e.requestIds[j])
                                 else if e.requestIds == [] then None else Some(e.requestIds[|e.requestIds| - 1]))
    {
      if |e.requestIds| > i {
        requestId := Some(e.requestIds[i]);
      }
      jobs := jobs + [Job(e.systemIds[i], requestId)];
    }
  }

  function Paired(systems: seq<string>, requests: seq<string>): seq<Job>
    requires |systems| == |requests|
  {
    seq(|systems|, i requires 0 <= i < |systems| => Job(systems[i], Some(requests[i])))
  }

  ghost predicate SameLengths(events: seq<PlatformEvent>)
  {
    forall e :: e in events ==> |e.systemIds| == |e.requestIds|
  }

  /** The jobs an account's events give the evaluators, in order. */
  function JobsOf(events: seq<PlatformEvent>, account: int): seq<Job>
    requires SameLengths(events)
  {
    if events == [] then []
    else
      var last := events[|events| - 1];
      JobsOf(events[..|events| - 1], account)
      + if last.account == account then Paired(last.systemIds, last.requestIds) else []
  }

  lemma PairedConcat(s: seq<string>, r: seq<string>, s': seq<string>, r': seq<string>)
    requires |s| == |r| && |s'| == |r'|
    ensures Paired(s, r) + Paired(s', r') == Paired(s + s', r + r')
  {
  }

  lemma {:induction false} JobsArePaired(events: seq<PlatformEvent>, account: int)
    requires SameLengths(events)
    ensures |SystemsOf(events, account)| == |RequestsOf(events, account)|
    ensures JobsOf(events, account) == Paired(SystemsOf(events, account), RequestsOf(events, account))
  {
    if events != [] {
      var init, last := events[..|events| - 1], events[|events| - 1];
      JobsArePaired(init, account);
      if last.account == account {
        PairedConcat(SystemsOf(init, account), RequestsOf(init, account), last.systemIds, last.requestIds);
      }
    }
  }

  /** What was asked for, as the evaluators should see it. */
  function Asked(evals: seq<EvalData>): seq<Job>
  {
    seq(|evals|, i requires 0 <= i < |evals| => Job(evals[i].inventoryId, Some(evals[i].requestId)))
  }

  /** Written and read back, each account's (system, request) pairs are the original ones in the original order. */
  lemma JobsAreRecovered(evals: seq<EvalData>, events: seq<PlatformEvent>, account: int)
    requires SameLengths(events)
    requires SystemsOf(events, account) == Inventories(For(evals, account))
    requires RequestsOf(events, account) == Requests(For(evals, account))
    ensures JobsOf(events, account) == Asked(For(evals, account))
  {
    JobsArePaired(events, account);
  }
}
