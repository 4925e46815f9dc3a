/**
 The listener's two parallel buffers: evaluation requests and payload tracker events
 (listener/event_buffers.go). Both are sent and emptied under one lock.
 */
module Listener {
  import opened Sets
  import opened Wrappers
  import opened FlushBuffer
  import opened Batching

  datatype TrackerEvent = TrackerEvent(orgId: Option<string>, requestId: string, inventoryId: string, status: string)

  /** One call of bufferEvalEvents. */
  datatype Upload = Upload(inventoryId: string, account: int, tracker: TrackerEvent)

  function EvalOf(u: Upload): EvalData
  {
    EvalData(u.inventoryId, u.account, u.tracker.requestId, u.tracker.orgId)
  }

  function Evals(us: seq<Upload>): seq<EvalData> { seq(|us|, i requires 0 <= i < |us| => EvalOf(us[i])) }

  function Trackers(us: seq<Upload>): seq<TrackerEvent> { seq(|us|, i requires 0 <= i < |us| => us[i].tracker) }

  /** What happened to one flush: the uploads it took and whether each of the two sends succeeded. */
  datatype Flushed = Flushed(uploads: seq<Upload>, evalSent: bool, trackerSent: bool)

  function TakenBy(flushes: seq<Flushed>): seq<seq<Upload>>
  {
    seq(|flushes|, i requires 0 <= i < |flushes| => flushes[i].uploads)
  }

  /** The uploads whose evaluation requests were sent, in order. */
  function EvalDelivered(flushes: seq<Flushed>): seq<Upload>
  {
    if flushes == [] then []
    else
      var last := flushes[|flushes| - 1];
      EvalDelivered(flushes[..|flushes| - 1]) + if last.evalSent then last.uploads else []
  }

  function TrackerDelivered(flushes: seq<Flushed>): seq<Upload>
  {
    if flushes == [] then []
    else
      var last := flushes[|flushes| - 1];
      TrackerDelivered(flushes[..|flushes| - 1]) + if last.trackerSent then last.uploads else []
  }

  lemma DeliveredMore(flushes: seq<Flushed>, f: Flushed)
    ensures EvalDelivered(flushes + [f])
            == if f.evalSent then EvalDelivered(flushes) + f.uploads else EvalDelivered(flushes)
    ensures TrackerDelivered(flushes + [f])
            == if f.trackerSent then TrackerDelivered(flushes) + f.uploads else TrackerDelivered(flushes)
    ensures TakenBy(flushes + [f]) == TakenBy(flushes) + [f.uploads]
  {
    assert (flushes + [f])[..|flushes|] == flushes;
  }

  /** When no send fails, everything flushed is delivered. */
  lemma {:induction false} AllDelivered(flushes: seq<Flushed>)
    ensures (forall f :: f in flushes ==> f.evalSent) ==> EvalDelivered(flushes) == Flatten(TakenBy(flushes))
    ensures (forall f :: f in flushes ==> f.trackerSent) ==> TrackerDelivered(flushes) == Flatten(TakenBy(flushes))
  {
    if flushes != [] {
      var init, last := flushes[..|flushes| - 1], flushes[|flushes| - 1];
      assert flushes == init + [last];
      AllDelivered(init);
      DeliveredMore(init, last);
      FlattenMore(TakenBy(init), last.uploads);
    }
  }

  // ----- the requests on the topic

  /** Every account's systems and requests on the topic are those of the uploads, in order. */
  ghost predicate Holds(topic: seq<PlatformEvent>, us: seq<Upload>)
  {
    && SameLengths(topic)
    && forall a ::
         && SystemsOf(topic, a) == Inventories(For(Evals(us), a))
         && RequestsOf(topic, a) == Requests(For(Evals(us), a))
  }

  lemma {:induction false} ForConcat(s: seq<EvalData>, t: seq<EvalData>, account: int)
    ensures For(s + t, account) == For(s, account) + For(t, account)
  {
    if t == [] {
      assert s + t == s;
    } else {
      var init, last := t[..|t| - 1], t[|t| - 1];
      ForConcat(s, init, account);
      assert (s + t)[..|s + t| - 1] == s + init;
    }
  }

  lemma NoEvents(account: int)
    ensures SystemsOf([], account) == [] && RequestsOf([], account) == []
  {
  }

  lemma {:induction false} EventsConcat(s: seq<PlatformEvent>, t: seq<PlatformEvent>, account: int)
    ensures SystemsOf(s + t, account) == SystemsOf(s, account) + SystemsOf(t, account)
    ensures RequestsOf(s + t, account) == RequestsOf(s, account) + RequestsOf(t, account)
  {
    hide SystemsOf, RequestsOf;
    if t == [] {
      assert s + t == s;
      NoEvents(account);
    } else {
      var init, last := t[..|t| - 1], t[|t| - 1];
      EventsConcat(s, init, account);
      assert s + t == (s + init) + [last] && t == init + [last];
      OneEventMore(s + init, last, account);
      OneEventMore(init, last, account);
    }
  }

  lemma ReadConcat(s: seq<EvalData>, t: seq<EvalData>)
    ensures Inventories(s + t) == Inventories(s) + Inventories(t) && Requests(s + t) == Requests(s) + Requests(t)
  {
  }

  lemma EvalsConcat(us: seq<Upload>, more: seq<Upload>)
    ensures Evals(us + more) == Evals(us) + Evals(more) && Trackers(us + more) == Trackers(us) + Trackers(more)
  {
  }

  lemma HoldsMore(topic: seq<PlatformEvent>, us: seq<Upload>, events: seq<PlatformEvent>, more: seq<Upload>)
    requires Holds(topic, us) && Holds(events, more)
    ensures Holds(topic + events, us + more)
  {
    hide SystemsOf, RequestsOf, For, Inventories, Requests, Evals;
    EvalsConcat(us, more);
    forall a ensures SystemsOf(topic + events, a) == Inventories(For(Evals(us + more), a))
                  && RequestsOf(topic + events, a) == Requests(For(Evals(us + more), a)) {
      ForConcat(Evals(us), Evals(more), a);
      EventsConcat(topic, events, a);
      ReadConcat(For(Evals(us), a), For(Evals(more), a));
    }
  }

  lemma NothingBuffered()
    ensures Evals([]) == [] && Trackers([]) == []
  {
  }

  lemma HoldsNothing()
    ensures Holds([], [])
  {
    assert Evals([]) == [];
  }

  // ----- the buffer

  datatype Action =
    | BufferEvent(worker: int, upload: Upload)
    | FlushFull(worker: int, evalOk: bool, trackerOk: bool)
    | FlushOnTimeout(evalOk: bool, trackerOk: bool)

  /** What the schedule decides; the topics follow from the flushes. */
  datatype Flow = Flow(pending: seq<Upload>, waiting: set<int>, buffered: seq<Upload>, flushes: seq<Flushed>)

  /** One action; a worker that still has to flush buffers nothing, and only a waiting one flushes a full buffer. */
  function Go(f: Flow, size: int, workers: nat, a: Action): Flow
  {
    match a
    case BufferEvent(worker, u) =>
      if !(0 <= worker < workers) || worker in f.waiting then f
      else
        var full := |f.pending| + 1 >= size;
        Flow(f.pending + [u], if full then f.waiting + {worker} else f.waiting, f.buffered + [u], f.flushes)
    case FlushFull(worker, evalOk, trackerOk) =>
      if worker !in f.waiting then f
      else Flow([], f.waiting - {worker}, f.buffered, f.flushes + [Flushed(f.pending, evalOk, trackerOk)])
    case FlushOnTimeout(evalOk, trackerOk) =>
      Flow([], f.waiting, f.buffered, f.flushes + [Flushed(f.pending, evalOk, trackerOk)])
  }

  function GoAll(f: Flow, size: int, workers: nat, schedule: seq<Action>): Flow
  {
    if schedule == [] then f
    else
      var n := |schedule| - 1;
      Go(GoAll(f, size, workers, schedule[..n]), size, workers, schedule[n])
  }

  class EventBuffer {
    const eventBufferSize: int
    const batchSize: int
    var evalBuffer: seq<EvalData>
    var ptBuffer: seq<TrackerEvent>
    /** Workers that saw the buffer full and have not flushed it yet. */
    var waiting: set<int>
    var evalTopic: seq<PlatformEvent>
    var trackerTopic: seq<TrackerEvent>
    ghost var pending: seq<Upload>
    ghost var buffered: seq<Upload>
    ghost var flushes: seq<Flushed>

    ghost predicate Valid()
      reads this
    {
      && batchSize > 0
      && Inv(eventBufferSize, pending, waiting, TakenBy(flushes), buffered)
      && evalBuffer == Evals(pending) && ptBuffer == Trackers(pending)
      && Holds(evalTopic, EvalDelivered(flushes))
      && trackerTopic == Trackers(TrackerDelivered(flushes))
    }

    ghost function Now(): Flow
      reads this
    {
      Flow(pending, waiting, buffered, flushes)
    }

    constructor (eventBufferSize: int, batchSize: int)
      requires batchSize > 0
      ensures Valid() && buffered == [] && flushes == []
      ensures this.eventBufferSize == eventBufferSize && this.batchSize == batchSize
    {
      this.eventBufferSize, this.batchSize := eventBufferSize, batchSize;
      evalBuffer, ptBuffer, waiting, evalTopic, trackerTopic := [], [], {}, [], [];
      pending, buffered, flushes := [], [], [];
      new;
      HoldsNothing();
    }

    /** The locked part of bufferEvalEvents. */
    method BufferEvalEvents(worker: int, inventoryId: string, account: int, ptEvent: TrackerEvent)
      requires Valid() && worker !in waiting
      modifies this`evalBuffer, this`ptBuffer, this`waiting, this`pending, this`buffered
      ensures Valid() && buffered == old(buffered) + [Upload(inventoryId, account, ptEvent)]
      ensures pending == old(pending) + [Upload(inventoryId, account, ptEvent)]
      ensures evalBuffer == old(evalBuffer) + [EvalData(inventoryId, account, ptEvent.requestId, ptEvent.orgId)]
      ensures ptBuffer == old(ptBuffer) + [ptEvent]
      ensures waiting == if |evalBuffer| >= eventBufferSize then old(waiting) + {worker} else old(waiting)
    {
      hide Holds, EvalDelivered, TrackerDelivered, Flatten;
      ghost var upload := Upload(inventoryId, account, ptEvent);
      AppendKeepsInv(eventBufferSize, pending, waiting, TakenBy(flushes), buffered, worker, upload);
      EvalsConcat(pending, [upload]);
      var evalData := EvalData(inventoryId, account, ptEvent.requestId, ptEvent.orgId);
      evalBuffer := evalBuffer + [evalData];
      ptBuffer := ptBuffer + [ptEvent];
      pending, buffered := pending + [upload], buffered + [upload];
      var shouldFlush := |evalBuffer| >= eventBufferSize;
      if shouldFlush {
        waiting := waiting + {worker};
      }
    }

    /** flushEvalEvents: both buffers are emptied whether or not the sends succeed. */
    method FlushEvalEvents(flusher: Option<int>, evalOk: bool, trackerOk: bool)
      requires Valid()
      modifies this
      ensures Valid() && evalBuffer == [] && ptBuffer == [] && buffered == old(buffered)
      ensures trackerTopic == if trackerOk then old(trackerTopic) + old(ptBuffer) else old(trackerTopic)
      ensures !evalOk ==> evalTopic == old(evalTopic)
      ensures waiting == Without(old(waiting), flusher)
      ensures flushes == old(flushes) + [Flushed(old(pending), evalOk, trackerOk)]
    {
      hide Holds, EvalDelivered, TrackerDelivered, Flatten, Bounded, SystemsOf, RequestsOf, Inv, Evals, Trackers,
           TakenBy, Without;
      ghost var flush := Flushed(pending, evalOk, trackerOk);
      DeliveredMore(flushes, flush);
      NothingBuffered();
      EvalsConcat(TrackerDelivered(flushes), pending);
      var events, _ := WriteEvents(evalBuffer, batchSize, batchSize, false);
      if evalOk {
        WrittenHolds(events, pending, batchSize);
        HoldsMore(evalTopic, EvalDelivered(flushes), events, pending);
        evalTopic := evalTopic + events;
      }
      if trackerOk {
        trackerTopic := trackerTopic + ptBuffer;
      }
      waiting := Without(waiting, flusher);
      TakeKeepsInv(eventBufferSize, pending, old(waiting), TakenBy(flushes), buffered, waiting);
      evalBuffer, ptBuffer := [], [];
      pending, flushes := [], flushes + [flush];
    }
  }

  lemma WrittenHolds(events: seq<PlatformEvent>, us: seq<Upload>, size: int)
    requires forall a ::
               && SystemsOf(events, a) == Inventories(For(Evals(us), a))
               && RequestsOf(events, a) == Requests(For(Evals(us), a))
    requires forall e :: e in events ==> Bounded(e, size, false)
    ensures Holds(events, us)
  {
  }

  method Perform(b: EventBuffer, workers: nat, action: Action)
    requires b.Valid()
    modifies b
    ensures b.Valid() && b.Now() == Go(old(b.Now()), b.eventBufferSize, workers, action)
  {
    SameSizes(b);
    hide EventBuffer.Valid;
    match action {
      case BufferEvent(worker, u) =>
        if 0 <= worker < workers && worker !in b.waiting {
          b.BufferEvalEvents(worker, u.inventoryId, u.account, u.tracker);
          SameSizes(b);
        }
      case FlushFull(worker, evalOk, trackerOk) =>
        if worker in b.waiting {
          b.FlushEvalEvents(Some(worker), evalOk, trackerOk);
        }
      case FlushOnTimeout(evalOk, trackerOk) =>
        b.FlushEvalEvents(None, evalOk, trackerOk);
    }
  }

  lemma SameSizes(b: EventBuffer)
    requires b.Valid()
    ensures |b.evalBuffer| == |b.pending|
  {
  }

  lemma GoInRange(f: Flow, size: int, workers: nat, a: Action)
    requires forall w :: w in f.waiting ==> 0 <= w < workers
    ensures forall w :: w in Go(f, size, workers, a).waiting ==> 0 <= w < workers
    ensures f.buffered <= Go(f, size, workers, a).buffered
  {
  }

  /**
   Any interleaving of workers, full-buffer flushes and timer flushes, with any sends failing: every action
   has its effect, the flushed
   batches followed by the pending uploads are all uploads in order, the two buffers stay aligned with
   them, and what the topics carry is what the successful flushes took.
   */
  method Interleave(b: EventBuffer, workers: nat, schedule: seq<Action>)
    requires b.Valid() && forall w :: w in b.waiting ==> 0 <= w < workers
    modifies b
    ensures b.Now() == GoAll(old(b.Now()), b.eventBufferSize, workers, schedule)
    ensures b.Valid() && Flatten(TakenBy(b.flushes)) + b.pending == b.buffered && old(b.buffered) <= b.buffered
    ensures b.evalBuffer == Evals(b.pending) && b.ptBuffer == Trackers(b.pending)
    ensures b.pending != [] && |b.pending| >= b.eventBufferSize ==> b.waiting != {}
    ensures b.eventBufferSize >= 1 ==> |b.evalBuffer| == |b.ptBuffer| <= b.eventBufferSize - 1 + workers
    ensures SameLengths(b.evalTopic) && b.trackerTopic == Trackers(TrackerDelivered(b.flushes))
    ensures forall a :: JobsOf(b.evalTopic, a) == Asked(For(Evals(EvalDelivered(b.flushes)), a))
  {
    for i := 0 to |schedule|
      invariant b.Valid() && b.Now() == GoAll(old(b.Now()), b.eventBufferSize, workers, schedule[..i])
      invariant old(b.buffered) <= b.buffered
      invariant forall w :: w in b.waiting ==> 0 <= w < workers
    {
      hide EventBuffer.Valid, Go;
      assert schedule[..i + 1][..i] == schedule[..i];
      GoInRange(b.Now(), b.eventBufferSize, workers, schedule[i]);
      Perform(b, workers, schedule[i]);
    }
    assert schedule[..|schedule|] == schedule;
    hide Flatten, EvalDelivered, TrackerDelivered, For, Inventories, Requests;
    SubsetSize(b.waiting, Readers(workers));
    forall a ensures JobsOf(b.evalTopic, a) == Asked(For(Evals(EvalDelivered(b.flushes)), a)) {
      JobsAreRecovered(Evals(EvalDelivered(b.flushes)), b.evalTopic, a);
    }
  }
}
