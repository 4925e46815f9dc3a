/**
 The aggregator's buffer of advisory updates and the grouping of a flushed batch (aggregator/events.go).
 */
module Aggregator {
  import opened Sets
  import opened Wrappers
  import opened FlushBuffer

  datatype AdvisoryUpdate = AdvisoryUpdate(account: int, advisoryIds: seq<int>)

  type Groups = map<int, seq<int>>

  /** Some event of the log asks to refresh the advisory in the account. */
  predicate Mentions(log: seq<AdvisoryUpdate>, account: int, id: int)
  {
    exists e :: e in log && e.account == account && id in e.advisoryIds
  }

  predicate HasAccount(log: seq<AdvisoryUpdate>, account: int)
  {
    exists e :: e in log && e.account == account
  }

  predicate Refreshes(groups: Groups, account: int, id: int) { account in groups && id in groups[account] }

  ghost predicate NoRepeats(ids: seq<int>)
  {
    forall i, j :: 0 <= i < j < |ids| ==> ids[i] != ids[j]
  }

  /** The set of a key, empty when the map has none. */
  function SetAt(sets: map<int, set<int>>, account: int): set<int>
  {
    if account in sets then sets[account] else {}
  }

  /**
   groupAdvisoryUpdates: per account the mentioned advisories, each once. As sets they do not depend on
   the order of the events or of any map iteration.
   */
  method GroupAdvisoryUpdates(events: seq<AdvisoryUpdate>) returns (grouped: Groups)
    ensures forall a, id :: Refreshes(grouped, a, id) <==> Mentions(events, a, id)
    ensures forall a, id :: (a in grouped && id in grouped[a]) <==>
              exists e :: e in events && e.account == a && id in e.advisoryIds
    ensures forall a :: a in grouped <==> HasAccount(events, a)
    ensures forall a :: a in grouped ==> NoRepeats(grouped[a])
  {
    var sets := CollectSets(events);
    grouped := map[];
    var rest := sets.Keys;
    while rest != {}
      invariant rest <= sets.Keys && grouped.Keys == sets.Keys - rest
      invariant forall a :: a in grouped ==> NoRepeats(grouped[a]) && forall id :: id in grouped[a] <==> id in sets[a]
    {
      SomeElement(rest);
      var account :| account in rest;
      var ids := Listing(sets[account]);
      grouped := grouped[account := ids];
      rest := rest - {account};
    }
    assert forall a, id :: Refreshes(grouped, a, id) <==> id in SetAt(sets, a);
    forall a, id ensures (a in grouped && id in grouped[a]) <==>
                         exists e :: e in events && e.account == a && id in e.advisoryIds {
      assert Refreshes(grouped, a, id) <==> Mentions(events, a, id);
    }
  }

  ghost predicate SetsRight(sets: map<int, set<int>>, log: seq<AdvisoryUpdate>)
  {
    && (forall a, id :: id in SetAt(sets, a) <==> Mentions(log, a, id))
    && forall a :: a in sets <==> HasAccount(log, a)
  }

  lemma SetsMore(sets: map<int, set<int>>, log: seq<AdvisoryUpdate>, e: AdvisoryUpdate, ids: set<int>)
    requires SetsRight(sets, log) && forall id :: id in ids <==> id in e.advisoryIds
    ensures SetsRight(sets[e.account := SetAt(sets, e.account) + ids], log + [e])
  {
    hide Mentions, HasAccount;
    var sets', more := sets[e.account := SetAt(sets, e.account) + ids], log + [e];
    forall a, id ensures id in SetAt(sets', a) <==> Mentions(more, a, id) {
      MentionsMore(log, e, a, id);
      assert id in SetAt(sets, a) <==> Mentions(log, a, id);
    }
    forall a ensures a in sets' <==> HasAccount(more, a) {
      MentionsMore(log, e, a, 0);
      assert a in sets <==> HasAccount(log, a);
    }
  }

  method CollectSets(events: seq<AdvisoryUpdate>) returns (sets: map<int, set<int>>)
    ensures forall a, id :: id in SetAt(sets, a) <==> Mentions(events, a, id)
    ensures forall a :: a in sets <==> HasAccount(events, a)
  {
    sets := map[];
    for i := 0 to |events|
      invariant SetsRight(sets, events[..i])
    {
      hide SetsRight;
      var e := events[i];
      assert events[..i + 1] == events[..i] + [e];
      var ids := SetOf(e.advisoryIds);
      SetsMore(sets, events[..i], e, ids);
      sets := sets[e.account := SetAt(sets, e.account) + ids];
    }
    assert events[..|events|] == events;
  }

  lemma MentionsMore(log: seq<AdvisoryUpdate>, e: AdvisoryUpdate, account: int, id: int)
    ensures Mentions(log + [e], account, id) <==>
            Mentions(log, account, id) || (e.account == account && id in e.advisoryIds)
    ensures HasAccount(log + [e], account) <==> HasAccount(log, account) || e.account == account
  {
    var more := log + [e];
    assert e in more;
    if d :| d in log && d.account == account && id in d.advisoryIds { assert d in more; }
    if d :| d in log && d.account == account { assert d in more; }
  }

  method SetOf(ids: seq<int>) returns (s: set<int>)
    ensures forall id :: id in s <==> id in ids
  {
    s := {};
    for i := 0 to |ids|
      invariant forall id :: id in s <==> id in ids[..i]
    {
      s := s + {ids[i]};
      assert ids[..i + 1] == ids[..i] + [ids[i]];
    }
    assert ids[..|ids|] == ids;
  }

  method Listing(s: set<int>) returns (ids: seq<int>)
    ensures NoRepeats(ids) && forall id :: id in ids <==> id in s
  {
    ids := [];
    var rest := s;
    while rest != {}
      invariant rest <= s && NoRepeats(ids)
      invariant forall id :: id in ids <==> id in s && id !in rest
    {
      SomeElement(rest);
      var id :| id in rest;
      ids := ids + [id];
      rest := rest - {id};
    }
  }

  // ----- the buffer

  datatype Action =
    | Append(reader: int, event: AdvisoryUpdate)
    | FlushFull(reader: int)
    | FlushOnTimeout
    | Process(batch: int)

  /** What the schedule decides: all but how the batches are grouped. */
  datatype Flow = Flow(
    buffer: seq<AdvisoryUpdate>,
    waiting: set<int>,
    working: map<int, seq<AdvisoryUpdate>>,
    appended: seq<AdvisoryUpdate>,
    taken: seq<seq<AdvisoryUpdate>>)

  /** One action; a reader that still has to flush appends nothing, and only a waiting one flushes a full buffer. */
  function Go(f: Flow, batchSize: int, readers: nat, a: Action): Flow
  {
    match a
    case Append(reader, event) =>
      if !(0 <= reader < readers) || reader in f.waiting then f
      else
        var full := |f.buffer| + 1 >= batchSize;
        f.(buffer := f.buffer + [event], appended := f.appended + [event],
           waiting := if full then f.waiting + {reader} else f.waiting)
    case FlushFull(reader) => if reader in f.waiting then TakeAll(f.(waiting := f.waiting - {reader})) else f
    case FlushOnTimeout => TakeAll(f)
    case Process(batch) => f.(working := f.working - {batch})
  }

  function TakeAll(f: Flow): Flow
  {
    if f.buffer == [] then f
    else f.(buffer := [], working := f.working[|f.taken| := f.buffer], taken := f.taken + [f.buffer])
  }

  function GoAll(f: Flow, batchSize: int, readers: nat, schedule: seq<Action>): Flow
  {
    if schedule == [] then f
    else
      var n := |schedule| - 1;
      Go(GoAll(f, batchSize, readers, schedule[..n]), batchSize, readers, schedule[n])
  }

  class AdvisoryBuffer {
    const batchSize: int
    var buffer: seq<AdvisoryUpdate>
    /** Readers that saw the buffer full and have not flushed it yet. */
    var waiting: set<int>
    /** Batches taken from the buffer and not grouped yet, by the order in which they were taken. */
    var working: map<int, seq<AdvisoryUpdate>>
    /** The groups handed on for refreshing, by batch. */
    var refreshes: map<int, Groups>
    var batches: nat
    ghost var appended: seq<AdvisoryUpdate>
    ghost var taken: seq<seq<AdvisoryUpdate>>

    ghost predicate Valid()
      reads this
    {
      && Inv(batchSize, buffer, waiting, taken, appended)
      && |taken| == batches && Accounted(taken, working, refreshes)
    }

    ghost function Now(): Flow
      reads this
    {
      Flow(buffer, waiting, working, appended, taken)
    }

    constructor (batchSize: int)
      ensures Valid() && this.batchSize == batchSize && appended == [] && taken == []
    {
      this.batchSize := batchSize;
      buffer, waiting, working, refreshes, batches := [], {}, map[], map[], 0;
      appended, taken := [], [];
    }

    /** The locked part of advisoryUpdateHandler. */
    method Append(reader: int, event: AdvisoryUpdate)
      requires Valid() && reader !in waiting
      modifies this
      ensures Valid() && appended == old(appended) + [event] && buffer == old(buffer) + [event]
      ensures taken == old(taken) && refreshes == old(refreshes) && working == old(working)
      ensures waiting == if |buffer| >= batchSize then old(waiting) + {reader} else old(waiting)
    {
      AppendKeepsInv(batchSize, buffer, waiting, taken, appended, reader, event);
      hide Inv;
      buffer := buffer + [event];
      appended := appended + [event];
      var shouldFlush := |buffer| >= batchSize;
      if shouldFlush {
        waiting := waiting + {reader};
      }
    }

    /** The locked part of flushAdvisoryBuffer, by a waiting reader or by the timer: takes the whole buffer. */
    method Take(flusher: Option<int>)
      requires Valid()
      modifies this
      ensures Valid() && appended == old(appended) && buffer == [] && waiting == Without(old(waiting), flusher)
      ensures taken == if old(buffer) == [] then old(taken) else old(taken) + [old(buffer)]
      ensures working == if old(buffer) == [] then old(working) else old(working)[|old(taken)| := old(buffer)]
      ensures refreshes == old(refreshes)
    {
      waiting := Without(waiting, flusher);
      if |buffer| == 0 {
        EmptyKeepsInv(batchSize, old(waiting), taken, appended, waiting);
        return;
      }
      TakeKeepsInv(batchSize, buffer, old(waiting), taken, appended, waiting);
      BatchTaken(taken, working, refreshes, buffer);
      hide Inv, Accounted;
      working := working[batches := buffer];
      taken := taken + [buffer];
      batches := batches + 1;
      buffer := [];
    }

    /** The rest of flushAdvisoryBuffer, without the lock: groups a taken batch and hands the groups on. */
    method GroupBatch(batch: int)
      requires Valid() && batch in working
      modifies this`working, this`refreshes
      ensures Valid() && working == old(working) - {batch}
      ensures batch in refreshes && refreshes == old(refreshes)[batch := refreshes[batch]]
      ensures GroupedRight(old(working)[batch], refreshes[batch])
    {
      hide Inv, Accounted;
      var grouped := GroupAdvisoryUpdates(working[batch]);
      GroupsOf(working[batch], grouped);
      BatchGrouped(taken, working, refreshes, batch, grouped);
      working := working - {batch};
      refreshes := refreshes[batch := grouped];
    }
  }

  /** The groups say exactly what the batch mentions. */
  ghost predicate GroupedRight(batch: seq<AdvisoryUpdate>, groups: Groups)
  {
    forall a, id :: Refreshes(groups, a, id) <==> Mentions(batch, a, id)
  }

  /** Each batch taken, and no other, is either in work as it was taken or was grouped rightly. */
  ghost predicate Accounted(taken: seq<seq<AdvisoryUpdate>>, working: map<int, seq<AdvisoryUpdate>>,
                            refreshes: map<int, Groups>)
  {
    && (forall i :: i in working || i in refreshes ==> 0 <= i < |taken|)
    && (forall i :: 0 <= i < |taken| ==> taken[i] != [] && (i in working <==> i !in refreshes))
    && (forall i :: i in working ==> working[i] == taken[i])
    && forall i :: i in refreshes ==> GroupedRight(taken[i], refreshes[i])
  }

  lemma BatchTaken(taken: seq<seq<AdvisoryUpdate>>, working: map<int, seq<AdvisoryUpdate>>, refreshes: map<int, Groups>,
                   batch: seq<AdvisoryUpdate>)
    requires Accounted(taken, working, refreshes) && batch != []
    ensures Accounted(taken + [batch], working[|taken| := batch], refreshes)
  {
    hide GroupedRight;
  }

  lemma BatchGrouped(taken: seq<seq<AdvisoryUpdate>>, working: map<int, seq<AdvisoryUpdate>>,
                     refreshes: map<int, Groups>, i: int, groups: Groups)
    requires Accounted(taken, working, refreshes) && i in working && GroupedRight(working[i], groups)
    ensures Accounted(taken, working - {i}, refreshes[i := groups])
  {
    hide GroupedRight;
  }

  lemma GroupsOf(batch: seq<AdvisoryUpdate>, groups: Groups)
    requires forall a, id :: Refreshes(groups, a, id) <==> Mentions(batch, a, id)
    ensures GroupedRight(batch, groups)
  {
  }

  ghost predicate Refreshed(refreshes: map<int, Groups>, account: int, id: int)
  {
    exists i :: i in refreshes && Refreshes(refreshes[i], account, id)
  }

  ghost predicate InWork(working: map<int, seq<AdvisoryUpdate>>, account: int, id: int)
  {
    exists i :: i in working && Mentions(working[i], account, id)
  }

  /** What the events mention is what has been refreshed, what the batches in work mention and what is buffered. */
  lemma NothingForgotten(taken: seq<seq<AdvisoryUpdate>>, working: map<int, seq<AdvisoryUpdate>>,
                         refreshes: map<int, Groups>, buffer: seq<AdvisoryUpdate>, appended: seq<AdvisoryUpdate>,
                         account: int, id: int)
    requires Accounted(taken, working, refreshes) && Flatten(taken) + buffer == appended
    ensures Mentions(appended, account, id)
       <==> Refreshed(refreshes, account, id) || InWork(working, account, id) || Mentions(buffer, account, id)
  {
    hide Flatten;
    MentionedSomewhere(taken, buffer, appended, account, id);
    if i :| 0 <= i < |taken| && Mentions(taken[i], account, id) {
      if i in working {
        assert Mentions(working[i], account, id);
      } else {
        assert GroupedRight(taken[i], refreshes[i]) && Refreshes(refreshes[i], account, id);
      }
    }
    if i :| i in refreshes && Refreshes(refreshes[i], account, id) {
      assert GroupedRight(taken[i], refreshes[i]) && Mentions(taken[i], account, id);
    }
    if i :| i in working && Mentions(working[i], account, id) {
      assert Mentions(taken[i], account, id);
    }
  }

  lemma MentionedSomewhere(taken: seq<seq<AdvisoryUpdate>>, buffer: seq<AdvisoryUpdate>, appended: seq<AdvisoryUpdate>,
                           account: int, id: int)
    requires Flatten(taken) + buffer == appended
    ensures Mentions(appended, account, id)
       <==> (exists i :: 0 <= i < |taken| && Mentions(taken[i], account, id)) || Mentions(buffer, account, id)
  {
    hide Flatten;
    if e :| e in appended && e.account == account && id in e.advisoryIds {
      InFlatten(taken, e);
      if e !in buffer {
        var b :| b in taken && e in b;
        var i :| 0 <= i < |taken| && taken[i] == b;
        assert Mentions(taken[i], account, id);
      }
    }
    if i :| 0 <= i < |taken| && Mentions(taken[i], account, id) {
      var e :| e in taken[i] && e.account == account && id in e.advisoryIds;
      InFlatten(taken, e);
      assert e in appended;
    }
    if e :| e in buffer && e.account == account && id in e.advisoryIds {
      assert e in appended;
    }
  }

  method Perform(b: AdvisoryBuffer, readers: nat, action: Action)
    requires b.Valid()
    modifies b
    ensures b.Valid() && b.Now() == Go(old(b.Now()), b.batchSize, readers, action)
  {
    hide AdvisoryBuffer.Valid;
    match action {
      case Append(reader, event) =>
        if 0 <= reader < readers && reader !in b.waiting {
          b.Append(reader, event);
        }
      case FlushFull(reader) =>
        if reader in b.waiting {
          b.Take(Some(reader));
        }
      case FlushOnTimeout =>
        b.Take(None);
      case Process(batch) =>
        if batch in b.working {
          b.GroupBatch(batch);
        }
    }
  }

  lemma GoInRange(f: Flow, batchSize: int, readers: nat, a: Action)
    requires forall r :: r in f.waiting ==> 0 <= r < readers
    ensures forall r :: r in Go(f, batchSize, readers, a).waiting ==> 0 <= r < readers
    ensures f.appended <= Go(f, batchSize, readers, a).appended
  {
  }

  /**
   Any interleaving: readers append, readers and timers take the buffer, and taken batches are grouped
   later, in any order. Every action has its effect, and whatever the schedule, no event is lost, repeated
   or reordered, a full buffer has a flush coming, and all that is mentioned is refreshed, in work or
   still buffered.
   */
  method Interleave(b: AdvisoryBuffer, readers: nat, schedule: seq<Action>)
    requires b.Valid() && forall r :: r in b.waiting ==> 0 <= r < readers
    modifies b
    ensures b.Now() == GoAll(old(b.Now()), b.batchSize, readers, schedule)
    ensures b.Valid() && Flatten(b.taken) + b.buffer == b.appended && old(b.appended) <= b.appended
    ensures b.buffer != [] && |b.buffer| >= b.batchSize ==> b.waiting != {}
    ensures b.batchSize >= 1 ==> |b.buffer| <= b.batchSize - 1 + |b.waiting| <= b.batchSize - 1 + readers
    ensures forall a, id :: Mentions(b.appended, a, id)
              <==> Refreshed(b.refreshes, a, id) || InWork(b.working, a, id) || Mentions(b.buffer, a, id)
  {
    for i := 0 to |schedule|
      invariant b.Valid() && b.Now() == GoAll(old(b.Now()), b.batchSize, readers, schedule[..i])
      invariant old(b.appended) <= b.appended
      invariant forall r :: r in b.waiting ==> 0 <= r < readers
    {
      hide AdvisoryBuffer.Valid, Go;
      assert schedule[..i + 1][..i] == schedule[..i];
      GoInRange(b.Now(), b.batchSize, readers, schedule[i]);
      Perform(b, readers, schedule[i]);
    }
    assert schedule[..|schedule|] == schedule;
    SubsetSize(b.waiting, Readers(readers));
    forall a, id ensures Mentions(b.appended, a, id)
              <==> Refreshed(b.refreshes, a, id) || InWork(b.working, a, id) || Mentions(b.buffer, a, id) {
      NothingForgotten(b.taken, b.working, b.refreshes, b.buffer, b.appended, a, id);
    }
  }
}
