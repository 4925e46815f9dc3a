/**
 A buffer under a lock: readers append, a reader that sees the buffer full will flush it, and a timer
 may flush it at any time. Between a reader's append and its flush anything else may happen.
 Shared by the aggregator (aggregator/events.go) and the listener (listener/event_buffers.go).
 */
module FlushBuffer {
  import opened Sets
  import opened Wrappers

  function Flatten<T>(batches: seq<seq<T>>): seq<T>
  {
    if batches == [] then [] else Flatten(batches[..|batches| - 1]) + batches[|batches| - 1]
  }

  lemma FlattenMore<T>(batches: seq<seq<T>>, batch: seq<T>)
    ensures Flatten(batches + [batch]) == Flatten(batches) + batch
  {
    assert (batches + [batch])[..|batches|] == batches;
  }

  lemma {:induction false} InFlatten<T>(batches: seq<seq<T>>, x: T)
    ensures x in Flatten(batches) <==> exists b :: b in batches && x in b
  {
    if batches != [] {
      var init, last := batches[..|batches| - 1], batches[|batches| - 1];
      InFlatten(init, x);
      assert batches == init + [last];
    }
  }

  /**
   What every interleaving keeps: the batches taken, in the order of the lock, followed by the buffer are
   the appended elements in order; a full buffer has a reader on its way to flush it; and the buffer
   exceeds the threshold by less than the number of such readers.
   */
  ghost predicate Inv<T>(threshold: int, buffer: seq<T>, waiting: set<int>, taken: seq<seq<T>>, appended: seq<T>)
  {
    && Flatten(taken) + buffer == appended
    && (buffer != [] && |buffer| >= threshold ==> waiting != {})
    && |buffer| <= (if threshold > 1 then threshold - 1 else 0) + |waiting|
  }

  /** The readers still to flush once this one has, or once the timer has. */
  function Without(waiting: set<int>, flusher: Option<int>): set<int>
  {
    if flusher.Some? then waiting - {flusher.value} else waiting
  }

  lemma StartInv<T>(threshold: int)
    ensures Inv<T>(threshold, [], {}, [], [])
  {
  }

  lemma AppendKeepsInv<T>(threshold: int, buffer: seq<T>, waiting: set<int>, taken: seq<seq<T>>, appended: seq<T>,
                          reader: int, x: T)
    requires Inv(threshold, buffer, waiting, taken, appended) && reader !in waiting
    ensures Inv(threshold, buffer + [x], if |buffer| + 1 >= threshold then waiting + {reader} else waiting,
                taken, appended + [x])
  {
    assert Flatten(taken) + (buffer + [x]) == (Flatten(taken) + buffer) + [x];
  }

  lemma TakeKeepsInv<T>(threshold: int, buffer: seq<T>, waiting: set<int>, taken: seq<seq<T>>, appended: seq<T>,
                        waiting': set<int>)
    requires Inv(threshold, buffer, waiting, taken, appended)
    ensures Inv(threshold, [], waiting', taken + [buffer], appended)
  {
    FlattenMore(taken, buffer);
  }

  /** Finding the buffer empty, a reader has nothing left to do. */
  lemma EmptyKeepsInv<T>(threshold: int, waiting: set<int>, taken: seq<seq<T>>, appended: seq<T>, waiting': set<int>)
    requires Inv(threshold, [], waiting, taken, appended)
    ensures Inv(threshold, [], waiting', taken, appended)
  {
  }

  /** With n readers the buffer never holds more than threshold - 1 + n elements. */
  lemma BufferIsBounded<T>(threshold: int, buffer: seq<T>, waiting: set<int>, taken: seq<seq<T>>, appended: seq<T>,
                           n: nat)
    requires Inv(threshold, buffer, waiting, taken, appended)
    requires threshold >= 1 && forall r :: r in waiting ==> 0 <= r < n
    ensures |buffer| <= threshold - 1 + n
  {
    SubsetSize(waiting, Readers(n));
  }

  ghost function Readers(n: nat): (s: set<int>)
    ensures |s| == n && forall r :: r in s <==> 0 <= r < n
  {
    if n == 0 then {} else Readers(n - 1) + {n - 1}
  }
}
