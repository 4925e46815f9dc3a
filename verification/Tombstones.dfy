/**
 Delete tombstones over time: the delete message, the upload that looks at the tombstone and then writes
 the system, the culling job and the pruning of old tombstones (listener/events.go, listener/upload.go,
 tasks/system_culling/system_culling.go).

 The two statements of a delete, the look and the write of an upload, and the selection and the single
 deletions of the culling job are separate steps, so that anything else can happen between them.
 */
module Tombstones {
  import opened Sets
  import opened Wrappers

  type Id = string

  /**
   deleted_system with its time of deletion, system_inventory with its culled_timestamp, deletes that
   have not marked the system yet, uploads that passed the look, and systems the culling job selected.
   */
  datatype State = State(
    now: int,
    deleted: map<Id, int>,
    hosts: map<Id, Option<int>>,
    marking: multiset<Id>,
    uploads: map<int, Id>,
    selected: set<Id>)

  datatype Event =
    | Tick(d: nat)
    | Tombstone(id: Id)
    | Mark(id: Id)
    | Look(upload: int, id: Id)
    | Write(upload: int, culled: Option<int>)
    | Rollback(upload: int)
    | Select(ids: set<Id>)
    | Remove(id: Id)
    | Skip(id: Id)
    | Prune(ids: set<Id>)

  /** The look of processUpload: a system deleted less than the threshold ago is skipped. */
  predicate Accepts(s: State, threshold: int, id: Id)
  {
    !(id in s.deleted && s.deleted[id] > s.now - threshold)
  }

  function Expired(s: State, threshold: int): set<Id>
  {
    set id | id in s.deleted && s.deleted[id] < s.now - threshold
  }

  function Culled(hosts: map<Id, Option<int>>, now: int): set<Id>
  {
    set id | id in hosts && hosts[id].Some? && hosts[id].value < now
  }

  function Do(s: State, threshold: int, ev: Event): State
  {
    match ev
    case Tick(d) => s.(now := s.now + d)
    case Tombstone(id) => s.(deleted := s.deleted[id := s.now], marking := s.marking + multiset{id})
    case Mark(id) =>
      if id !in s.marking then s
      else s.(hosts := if id in s.hosts then s.hosts[id := Some(s.now)] else s.hosts,
              marking := s.marking - multiset{id})
    case Look(u, id) => if u in s.uploads || !Accepts(s, threshold, id) then s else s.(uploads := s.uploads[u := id])
    case Write(u, culled) =>
      if u !in s.uploads then s else s.(hosts := s.hosts[s.uploads[u] := culled], uploads := s.uploads - {u})
    case Rollback(u) => s.(uploads := s.uploads - {u})
    case Select(ids) => s.(selected := s.selected + ids * Culled(s.hosts, s.now))
    case Remove(id) => if id !in s.selected then s else s.(hosts := s.hosts - {id}, selected := s.selected - {id})
    case Skip(id) => s.(selected := s.selected - {id})
    case Prune(ids) => s.(deleted := s.deleted - (ids * Expired(s, threshold)))
  }

  /**
   What the tables do not keep: when each system was last deleted, the uploads whose look came before the
   last delete of their system, and what such an upload wrote to a system that nothing has marked,
   written or removed since.
   */
  datatype History = History(lastDelete: map<Id, int>, overtaken: set<int>, lateWrites: map<Id, Option<int>>)

  function Track(s: State, h: History, ev: Event): History
  {
    match ev
    case Tombstone(id) =>
      History(h.lastDelete[id := s.now], h.overtaken + (set u | u in s.uploads && s.uploads[u] == id),
              h.lateWrites - {id})
    case Mark(id) => if id in s.marking then h.(lateWrites := h.lateWrites - {id}) else h
    case Look(u, id) => if u in s.uploads then h else h.(overtaken := h.overtaken - {u})
    case Write(u, culled) =>
      if u !in s.uploads then h
      else if u in h.overtaken then h.(lateWrites := h.lateWrites[s.uploads[u] := culled])
      else h.(lateWrites := h.lateWrites - {s.uploads[u]})
    case Remove(id) => if id in s.selected then h.(lateWrites := h.lateWrites - {id}) else h
    case _ => h
  }

  function Start(now: int): State { State(now, map[], map[], multiset{}, map[], {}) }

  function NoHistory(): History { History(map[], {}, map[]) }

  /** The state after some events. */
  function DoAll(s: State, threshold: int, evs: seq<Event>): State
  {
    if evs == [] then s else Do(DoAll(s, threshold, evs[..|evs| - 1]), threshold, evs[|evs| - 1])
  }

  function TrackAll(s: State, h: History, threshold: int, evs: seq<Event>): History
  {
    if evs == [] then h
    else
      var init := evs[..|evs| - 1];
      Track(DoAll(s, threshold, init), TrackAll(s, h, threshold, init), evs[|evs| - 1])
  }

  function StateAfter(now: int, threshold: int, evs: seq<Event>): State { DoAll(Start(now), threshold, evs) }

  function HistoryAfter(now: int, threshold: int, evs: seq<Event>): History
  {
    TrackAll(Start(now), NoHistory(), threshold, evs)
  }

  lemma OneMoreEvent(s: State, h: History, threshold: int, evs: seq<Event>, ev: Event)
    ensures DoAll(s, threshold, evs + [ev]) == Do(DoAll(s, threshold, evs), threshold, ev)
    ensures TrackAll(s, h, threshold, evs + [ev]) == Track(DoAll(s, threshold, evs), TrackAll(s, h, threshold, evs), ev)
  {
    assert (evs + [ev])[..|evs|] == evs;
  }

  lemma NoEventYet(s: State, h: History, threshold: int)
    ensures DoAll(s, threshold, []) == s && TrackAll(s, h, threshold, []) == h
  {
  }

  /** Events after a first one. */
  lemma {:induction false} DoFirst(s: State, h: History, threshold: int, ev: Event, evs: seq<Event>)
    ensures DoAll(s, threshold, [ev] + evs) == DoAll(Do(s, threshold, ev), threshold, evs)
    ensures TrackAll(s, h, threshold, [ev] + evs) == TrackAll(Do(s, threshold, ev), Track(s, h, ev), threshold, evs)
  {
    hide Do, Track;
    var all := [ev] + evs;
    NoEventYet(s, h, threshold);
    if evs == [] {
      assert all[..0] == [];
    } else {
      assert all[..|all| - 1] == [ev] + evs[..|evs| - 1];
      DoFirst(s, h, threshold, ev, evs[..|evs| - 1]);
    }
  }

  // ----- safety

  /** The tombstone of the last delete is there, or the threshold has passed. */
  ghost predicate Remembered(s: State, h: History, threshold: int)
  {
    forall id :: id in h.lastDelete ==>
      h.lastDelete[id] <= s.now && (h.lastDelete[id] < s.now - threshold
                                    || (id in s.deleted && s.deleted[id] == h.lastDelete[id]))
  }

  /** An upload that looked after the last delete of its system did so when the threshold had passed. */
  ghost predicate LooksAreLate(s: State, h: History, threshold: int)
  {
    forall u :: u in s.uploads && u !in h.overtaken && s.uploads[u] in h.lastDelete ==>
      h.lastDelete[s.uploads[u]] <= s.now - threshold
  }

  ghost predicate InWindow(s: State, h: History, threshold: int, id: Id)
  {
    id in h.lastDelete && s.now - threshold < h.lastDelete[id]
  }

  ghost predicate MarkedOrGone(s: State, id: Id)
  {
    id in s.hosts ==> Due(s.hosts[id], s.now)
  }

  /** The system is as an overtaken upload left it, and that upload did not say that it is to be culled by now. */
  ghost predicate Revived(s: State, h: History, id: Id)
  {
    id in h.lateWrites && !Due(h.lateWrites[id], s.now)
  }

  predicate Due(culled: Option<int>, now: int) { culled.Some? && culled.value <= now }

  ghost predicate WindowsHold(s: State, h: History, threshold: int)
  {
    forall id :: InWindow(s, h, threshold, id) && id !in s.marking && id !in h.lateWrites ==> MarkedOrGone(s, id)
  }

  ghost predicate LateWritesStand(s: State, h: History)
  {
    forall id :: id in h.lateWrites ==> id in s.hosts && s.hosts[id] == h.lateWrites[id]
  }

  lemma RememberedStep(s: State, h: History, threshold: int, ev: Event)
    requires Remembered(s, h, threshold)
    ensures Remembered(Do(s, threshold, ev), Track(s, h, ev), threshold)
  {
  }

  lemma LooksStep(s: State, h: History, threshold: int, ev: Event)
    requires Remembered(s, h, threshold) && LooksAreLate(s, h, threshold)
    ensures LooksAreLate(Do(s, threshold, ev), Track(s, h, ev), threshold)
  {
  }

  /** Only a delete opens a window; only time and a later delete close it. */
  lemma WindowsOpen(s: State, h: History, threshold: int, ev: Event, id: Id)
    requires InWindow(Do(s, threshold, ev), Track(s, h, ev), threshold, id)
    ensures InWindow(s, h, threshold, id) || ev == Tombstone(id)
  {
  }

  /** A system that is marked or gone stays so, unless an upload writes it. */
  lemma StaysMarked(s: State, threshold: int, ev: Event, id: Id)
    requires MarkedOrGone(s, id) && !(ev.Write? && ev.upload in s.uploads && s.uploads[ev.upload] == id)
    ensures MarkedOrGone(Do(s, threshold, ev), id)
  {
    hide Culled, Expired, Accepts;
  }

  lemma WindowsStep(s: State, h: History, threshold: int, ev: Event)
    requires LooksAreLate(s, h, threshold) && WindowsHold(s, h, threshold)
    ensures WindowsHold(Do(s, threshold, ev), Track(s, h, ev), threshold)
  {
    var s', h' := Do(s, threshold, ev), Track(s, h, ev);
    forall id | InWindow(s', h', threshold, id) && id !in s'.marking && id !in h'.lateWrites
      ensures MarkedOrGone(s', id) {
      WindowAt(s, h, threshold, ev, id);
    }
  }

  lemma WindowAt(s: State, h: History, threshold: int, ev: Event, id: Id)
    requires LooksAreLate(s, h, threshold) && WindowsHold(s, h, threshold)
    requires var s', h' := Do(s, threshold, ev), Track(s, h, ev);
             InWindow(s', h', threshold, id) && id !in s'.marking && id !in h'.lateWrites
    ensures MarkedOrGone(Do(s, threshold, ev), id)
  {
    WindowsOpen(s, h, threshold, ev, id);
    if id !in h.lateWrites && (ev != Mark(id) || id !in s.marking) {
      assert MarkedOrGone(s, id);
      StaysMarked(s, threshold, ev, id);
    }
  }

  lemma LateWritesStep(s: State, h: History, threshold: int, ev: Event)
    requires LateWritesStand(s, h)
    ensures LateWritesStand(Do(s, threshold, ev), Track(s, h, ev))
  {
    hide Accepts, Culled, Expired;
  }

  /** A tombstone is always that of the last delete. */
  ghost predicate LastOnes(s: State, h: History)
  {
    forall id :: id in s.deleted ==> id in h.lastDelete && h.lastDelete[id] == s.deleted[id]
  }

  lemma LastOnesStep(s: State, h: History, threshold: int, ev: Event)
    requires LastOnes(s, h)
    ensures LastOnes(Do(s, threshold, ev), Track(s, h, ev))
  {
  }

  /** What every event keeps. */
  ghost predicate Sound(s: State, h: History, threshold: int)
  {
    && Remembered(s, h, threshold) && LooksAreLate(s, h, threshold) && WindowsHold(s, h, threshold)
    && LateWritesStand(s, h) && LastOnes(s, h)
  }

  lemma SoundStep(s: State, h: History, threshold: int, ev: Event)
    requires Sound(s, h, threshold)
    ensures Sound(Do(s, threshold, ev), Track(s, h, ev), threshold)
  {
    hide Do, Track, Remembered, LooksAreLate, WindowsHold, LateWritesStand, LastOnes;
    RememberedStep(s, h, threshold, ev);
    LooksStep(s, h, threshold, ev);
    WindowsStep(s, h, threshold, ev);
    LateWritesStep(s, h, threshold, ev);
    LastOnesStep(s, h, threshold, ev);
  }

  lemma SoundStart(now: int, threshold: int)
    ensures Sound(Start(now), NoHistory(), threshold)
  {
  }

  lemma {:induction false} Safe(now: int, threshold: int, evs: seq<Event>)
    ensures Sound(StateAfter(now, threshold, evs), HistoryAfter(now, threshold, evs), threshold)
  {
    hide Do, Track, Sound;
    if evs == [] {
      SoundStart(now, threshold);
    } else {
      var init, ev := evs[..|evs| - 1], evs[|evs| - 1];
      Safe(now, threshold, init);
      SoundStep(StateAfter(now, threshold, init), HistoryAfter(now, threshold, init), threshold, ev);
    }
  }

  /** An upload is accepted exactly when its system was not deleted in the last threshold. */
  lemma SoundAccepts(s: State, h: History, threshold: int, id: Id)
    requires Sound(s, h, threshold)
    ensures Accepts(s, threshold, id) <==> !InWindow(s, h, threshold, id)
  {
  }

  /** The same after any run. */
  lemma AcceptedIff(now: int, threshold: int, evs: seq<Event>, id: Id)
    ensures var s, h := StateAfter(now, threshold, evs), HistoryAfter(now, threshold, evs);
            Accepts(s, threshold, id) <==> id !in h.lastDelete || h.lastDelete[id] <= s.now - threshold
  {
    hide Sound, Accepts, StateAfter, HistoryAfter;
    Safe(now, threshold, evs);
    SoundAccepts(StateAfter(now, threshold, evs), HistoryAfter(now, threshold, evs), threshold, id);
  }

  /**
   An upload that writes less than the threshold after the latest delete of its system looked before
   that delete. Any other upload within that time is skipped.
   */
  lemma LateWritesLookedEarly(now: int, threshold: int, evs: seq<Event>, u: int)
    ensures var s, h := StateAfter(now, threshold, evs), HistoryAfter(now, threshold, evs);
            u in s.uploads && InWindow(s, h, threshold, s.uploads[u]) ==>
              && u in h.overtaken
              && exists i, j ::
                   0 <= i < j < |evs| && evs[i] == Look(u, s.uploads[u]) && evs[j] == Tombstone(s.uploads[u])
  {
    hide StateAfter, HistoryAfter, InWindow;
    var s, h := StateAfter(now, threshold, evs), HistoryAfter(now, threshold, evs);
    Safe(now, threshold, evs);
    if u in s.uploads && InWindow(s, h, threshold, s.uploads[u]) {
      assert u in h.overtaken by { SoundOvertakes(s, h, threshold, u); }
      var i := SomeLook(now, threshold, evs, u);
      OvertakenIff(now, threshold, evs, u, i);
      assert evs[..|evs|] == evs && OpenAt(now, threshold, evs, u, evs[i].id, |evs|);
      assert evs[i] == Look(u, s.uploads[u]);
    }
  }

  lemma SoundOvertakes(s: State, h: History, threshold: int, u: int)
    requires Sound(s, h, threshold) && u in s.uploads && InWindow(s, h, threshold, s.uploads[u])
    ensures u in h.overtaken
  {
  }

  // ----- what the history records

  /** The look at evs[i] was accepted, and the upload has been open for that system ever since. */
  ghost predicate OpenSince(now: int, threshold: int, evs: seq<Event>, u: int, i: int)
  {
    && 0 <= i < |evs| && evs[i].Look? && evs[i].upload == u && u !in StateAfter(now, threshold, evs[..i]).uploads
    && forall k :: i < k <= |evs| ==> OpenAt(now, threshold, evs, u, evs[i].id, k)
  }

  ghost predicate OpenAt(now: int, threshold: int, evs: seq<Event>, u: int, id: Id, k: nat)
    requires k <= |evs|
  {
    u in StateAfter(now, threshold, evs[..k]).uploads && StateAfter(now, threshold, evs[..k]).uploads[u] == id
  }

  lemma OpenSinceBefore(now: int, threshold: int, evs: seq<Event>, ev: Event, u: int, i: int)
    requires 0 <= i < |evs| && evs[i].Look?
    ensures OpenSince(now, threshold, evs + [ev], u, i)
       <==> OpenSince(now, threshold, evs, u, i) && OpenAt(now, threshold, evs + [ev], u, evs[i].id, |evs| + 1)
  {
    hide StateAfter;
    var all := evs + [ev];
    assert forall k :: 0 <= k <= |evs| ==> all[..k] == evs[..k];
    assert all[i] == evs[i];
    assert forall k :: i < k <= |evs| ==>
        (OpenAt(now, threshold, all, u, evs[i].id, k) <==> OpenAt(now, threshold, evs, u, evs[i].id, k));
  }

  lemma StaysOpen(s: State, h: History, threshold: int, ev: Event, u: int)
    requires u in Do(s, threshold, ev).uploads
    ensures var s', h' := Do(s, threshold, ev), Track(s, h, ev);
            if u in s.uploads then
              && s'.uploads[u] == s.uploads[u]
              && (u in h'.overtaken <==> u in h.overtaken || ev == Tombstone(s.uploads[u]))
            else
              ev.Look? && ev.upload == u && s'.uploads[u] == ev.id && u !in h'.overtaken
  {
    hide Accepts, Culled, Expired;
  }

  /** Every upload still to write was opened by an accepted look. */
  lemma {:induction false} SomeLook(now: int, threshold: int, evs: seq<Event>, u: int) returns (i: int)
    requires u in StateAfter(now, threshold, evs).uploads
    ensures OpenSince(now, threshold, evs, u, i)
  {
    hide Do, Track;
    NoEventYet(Start(now), NoHistory(), threshold);
    assert evs != [];
    var n := |evs| - 1;
    var init, ev := evs[..n], evs[n];
    assert evs == init + [ev] && evs[..n + 1] == evs && init[..n] == init;
    var s := StateAfter(now, threshold, init);
    StaysOpen(s, NoHistory(), threshold, ev, u);
    if u in s.uploads {
      i := SomeLook(now, threshold, init, u);
      OpenSinceBefore(now, threshold, init, ev, u, i);
      assert OpenAt(now, threshold, init, u, init[i].id, n);
      assert OpenAt(now, threshold, evs, u, init[i].id, n + 1);
    } else {
      i := n;
      assert OpenAt(now, threshold, evs, u, ev.id, n + 1);
    }
  }

  /** An upload is overtaken exactly when its system was deleted after it had looked. */
  lemma {:induction false} OvertakenIff(now: int, threshold: int, evs: seq<Event>, u: int, i: int)
    requires OpenSince(now, threshold, evs, u, i)
    ensures u in HistoryAfter(now, threshold, evs).overtaken <==>
            exists j :: i < j < |evs| && evs[j] == Tombstone(evs[i].id)
  {
    hide Do, Track;
    var n := |evs| - 1;
    var init, ev := evs[..n], evs[n];
    assert evs == init + [ev] && evs[..n + 1] == evs && init[..n] == init;
    assert OpenAt(now, threshold, evs, u, evs[i].id, n + 1);
    StaysOpen(StateAfter(now, threshold, init), HistoryAfter(now, threshold, init), threshold, ev, u);
    if i < n {
      OpenSinceBefore(now, threshold, init, ev, u, i);
      OvertakenIff(now, threshold, init, u, i);
      assert OpenAt(now, threshold, init, u, evs[i].id, n);
      if j :| i < j < |init| && init[j] == Tombstone(evs[i].id) { assert evs[j] == Tombstone(evs[i].id); }
      if j :| i < j < |evs| && evs[j] == Tombstone(evs[i].id) { assert j < n ==> init[j] == Tombstone(evs[i].id); }
    }
  }

  /** The recorded delete of a system is its last one, at the time it was written. */
  lemma {:induction false} LastDeleteIs(now: int, threshold: int, evs: seq<Event>, id: Id, at: int)
    ensures id in HistoryAfter(now, threshold, evs).lastDelete
            && HistoryAfter(now, threshold, evs).lastDelete[id] == at <==>
            exists k :: LastTombstone(evs, id, k) && StateAfter(now, threshold, evs[..k]).now == at
  {
    hide Accepts, Culled, Expired, Do;
    if evs != [] {
      var n := |evs| - 1;
      var init, ev := evs[..n], evs[n];
      LastDeleteIs(now, threshold, init, id, at);
      assert forall k :: 0 <= k <= n ==> init[..k] == evs[..k];
      if ev == Tombstone(id) {
        assert LastTombstone(evs, id, n);
        assert forall k :: LastTombstone(evs, id, k) ==> k == n;
      } else {
        assert forall k :: LastTombstone(evs, id, k) <==> LastTombstone(init, id, k);
      }
    }
  }

  predicate LastTombstone(evs: seq<Event>, id: Id, k: int)
  {
    0 <= k < |evs| && evs[k] == Tombstone(id) && forall j :: k < j < |evs| ==> evs[j] != Tombstone(id)
  }

  /** In a sound state, a system whose delete is done is alive within the window exactly when it was revived. */
  lemma SoundStays(s: State, h: History, threshold: int, id: Id)
    requires Sound(s, h, threshold) && InWindow(s, h, threshold, id) && id !in s.marking
    ensures MarkedOrGone(s, id) <==> !Revived(s, h, id)
  {
  }

  /**
   Once a delete is done, and for the time of the threshold, the system is gone or marked for culling,
   exactly unless an upload that had looked before the delete wrote it afterwards as not to be culled,
   and nothing has touched it since.
   */
  lemma DeletedStaysDeleted(now: int, threshold: int, evs: seq<Event>, id: Id)
    ensures var s, h := StateAfter(now, threshold, evs), HistoryAfter(now, threshold, evs);
            id in h.lastDelete && s.now - threshold < h.lastDelete[id] && id !in s.marking ==>
              (id !in s.hosts || (s.hosts[id].Some? && s.hosts[id].value <= s.now)
               <==> !(id in h.lateWrites && (h.lateWrites[id].None? || h.lateWrites[id].value > s.now)))
  {
    hide StateAfter, HistoryAfter, Sound;
    var s, h := StateAfter(now, threshold, evs), HistoryAfter(now, threshold, evs);
    Safe(now, threshold, evs);
    if InWindow(s, h, threshold, id) && id !in s.marking { SoundStays(s, h, threshold, id); }
  }

  // ----- the runs that keep every window

  /** All systems whose delete is done are gone or marked within the window. */
  ghost predicate KeepsAll(s: State, h: History, threshold: int)
  {
    forall id :: InWindow(s, h, threshold, id) && id !in s.marking ==> MarkedOrGone(s, id)
  }

  /** A write by an upload that looked before the delete, within the window, of a system not to be culled by now. */
  ghost predicate Reviving(s: State, h: History, threshold: int, ev: Event)
  {
    && ev.Write? && ev.upload in s.uploads && ev.upload in h.overtaken
    && InWindow(s, h, threshold, s.uploads[ev.upload]) && s.uploads[ev.upload] !in s.marking
    && !Due(ev.culled, s.now)
  }

  /** When such an upload writes, the system is there again, and marked only if the upload itself says so. */
  lemma OvertakenWriteRevives(s: State, h: History, threshold: int, u: int, culled: Option<int>)
    requires u in s.uploads && u in h.overtaken && InWindow(s, h, threshold, s.uploads[u]) && s.uploads[u] !in s.marking
    ensures var id, s', h' := s.uploads[u], Do(s, threshold, Write(u, culled)), Track(s, h, Write(u, culled));
            && InWindow(s', h', threshold, id) && id !in s'.marking && id in s'.hosts
            && (MarkedOrGone(s', id) <==> Due(culled, s.now))
  {
  }

  /** From a state that keeps all windows, an event breaks one exactly when it is reviving. */
  lemma KeepsAllAfterIff(s: State, h: History, threshold: int, ev: Event)
    requires LooksAreLate(s, h, threshold) && KeepsAll(s, h, threshold)
    ensures KeepsAll(Do(s, threshold, ev), Track(s, h, ev), threshold) <==> !Reviving(s, h, threshold, ev)
  {
    var s', h' := Do(s, threshold, ev), Track(s, h, ev);
    if Reviving(s, h, threshold, ev) {
      OvertakenWriteRevives(s, h, threshold, ev.upload, ev.culled);
    } else {
      forall id | InWindow(s', h', threshold, id) && id !in s'.marking ensures MarkedOrGone(s', id) {
        KeptAt(s, h, threshold, ev, id);
      }
    }
  }

  lemma KeptAt(s: State, h: History, threshold: int, ev: Event, id: Id)
    requires LooksAreLate(s, h, threshold) && KeepsAll(s, h, threshold) && !Reviving(s, h, threshold, ev)
    requires InWindow(Do(s, threshold, ev), Track(s, h, ev), threshold, id) && id !in Do(s, threshold, ev).marking
    ensures MarkedOrGone(Do(s, threshold, ev), id)
  {
    WindowsOpen(s, h, threshold, ev, id);
    if ev.Write? && ev.upload in s.uploads && s.uploads[ev.upload] == id {
      assert ev.upload in h.overtaken;
    } else if ev != Mark(id) || id !in s.marking {
      assert MarkedOrGone(s, id);
      StaysMarked(s, threshold, ev, id);
    }
  }

  /** Some event of the run is reviving where it happens. */
  ghost predicate Revives(now: int, threshold: int, evs: seq<Event>)
  {
    exists k :: 0 <= k < |evs| && RevivingAt(now, threshold, evs, k)
  }

  ghost predicate RevivingAt(now: int, threshold: int, evs: seq<Event>, k: nat)
    requires k < |evs|
  {
    Reviving(StateAfter(now, threshold, evs[..k]), HistoryAfter(now, threshold, evs[..k]), threshold, evs[k])
  }

  ghost predicate KeepsAllAt(now: int, threshold: int, evs: seq<Event>, k: nat)
    requires k <= |evs|
  {
    KeepsAll(StateAfter(now, threshold, evs[..k]), HistoryAfter(now, threshold, evs[..k]), threshold)
  }

  ghost predicate KeepsAllThroughout(now: int, threshold: int, evs: seq<Event>)
  {
    forall k :: 0 <= k <= |evs| ==> KeepsAllAt(now, threshold, evs, k)
  }

  /** All through a run the systems whose delete is done are gone or marked exactly when no event is reviving. */
  lemma {:induction false} KeepsAllThroughoutIff(now: int, threshold: int, evs: seq<Event>)
    ensures KeepsAllThroughout(now, threshold, evs) <==> !Revives(now, threshold, evs)
  {
    hide Do, Track, Sound, KeepsAll, Reviving, KeepsAllThroughout, Revives;
    KeepsAllAtLast(now, threshold, evs);
    if evs == [] {
      NothingDeleted(now, threshold);
      assert !Revives(now, threshold, evs) by { NothingRevives(now, threshold); }
    } else {
      var n := |evs| - 1;
      var init, ev := evs[..n], evs[n];
      KeepsAllThroughoutIff(now, threshold, init);
      KeepsAllAtLast(now, threshold, init);
      RevivesAtLast(now, threshold, evs);
      Safe(now, threshold, init);
      if KeepsAllThroughout(now, threshold, init) {
        var s, h := StateAfter(now, threshold, init), HistoryAfter(now, threshold, init);
        assert LooksAreLate(s, h, threshold) by { SoundLooks(s, h, threshold); }
        KeepsAllAfterIff(s, h, threshold, ev);
      }
    }
  }

  lemma SoundLooks(s: State, h: History, threshold: int)
    requires Sound(s, h, threshold)
    ensures LooksAreLate(s, h, threshold)
  {
  }

  lemma KeepsAllAtLast(now: int, threshold: int, evs: seq<Event>)
    ensures KeepsAllThroughout(now, threshold, evs)
       <==> && (evs != [] ==> KeepsAllThroughout(now, threshold, evs[..|evs| - 1]))
            && KeepsAll(StateAfter(now, threshold, evs), HistoryAfter(now, threshold, evs), threshold)
  {
    hide KeepsAll, StateAfter, HistoryAfter;
    assert evs[..|evs|] == evs;
    assert KeepsAllAt(now, threshold, evs, |evs|)
      <==> KeepsAll(StateAfter(now, threshold, evs), HistoryAfter(now, threshold, evs), threshold);
    if evs != [] {
      var init := evs[..|evs| - 1];
      assert forall k :: 0 <= k <= |init| ==> init[..k] == evs[..k];
      assert forall k :: 0 <= k <= |init| ==>
             (KeepsAllAt(now, threshold, evs, k) <==> KeepsAllAt(now, threshold, init, k));
    }
  }

  lemma NothingRevives(now: int, threshold: int)
    ensures !Revives(now, threshold, [])
  {
  }

  lemma RevivesAtLast(now: int, threshold: int, evs: seq<Event>)
    requires evs != []
    ensures Revives(now, threshold, evs)
       <==> || Revives(now, threshold, evs[..|evs| - 1])
            || Reviving(StateAfter(now, threshold, evs[..|evs| - 1]), HistoryAfter(now, threshold, evs[..|evs| - 1]),
                        threshold,
                        evs[|evs| - 1])
  {
    hide Reviving, StateAfter, HistoryAfter;
    var init := evs[..|evs| - 1];
    assert forall k :: 0 <= k <= |init| ==> init[..k] == evs[..k];
    if k :| 0 <= k < |evs| && RevivingAt(now, threshold, evs, k) {
      assert k < |init| ==> RevivingAt(now, threshold, init, k);
    }
    if k :| 0 <= k < |init| && RevivingAt(now, threshold, init, k) {
      assert RevivingAt(now, threshold, evs, k);
    }
    assert RevivingAt(now, threshold, evs, |init|)
      <==> Reviving(StateAfter(now, threshold, init), HistoryAfter(now, threshold, init), threshold, evs[|init|]);
  }

  lemma NothingDeleted(now: int, threshold: int)
    ensures KeepsAll(Start(now), NoHistory(), threshold)
  {
  }

  /** It happens: look, delete, mark, write leaves the system alive although it has just been deleted. */
  lemma LateUploadRevives(now: int, threshold: int, id: Id)
    requires threshold > 0
    ensures var evs := [Look(1, id), Tombstone(id), Mark(id), Write(1, None)];
            var s, h := StateAfter(now, threshold, evs), HistoryAfter(now, threshold, evs);
            InWindow(s, h, threshold, id) && id !in s.marking && !MarkedOrGone(s, id)
  {
    hide DoAll, TrackAll, Do, Track;
    var evs := [Look(1, id), Tombstone(id), Mark(id)];
    assert evs + [Write(1, None)] == [Look(1, id), Tombstone(id), Mark(id), Write(1, None)];
    OneMoreEvent(Start(now), NoHistory(), threshold, evs, Write(1, None));
    ThreeEvents(Start(now), NoHistory(), threshold, Look(1, id), Tombstone(id), Mark(id));
    BeforeTheWrite(now, threshold, id);
    OvertakenWriteRevives(Waiting(now, id), History(map[id := now], {1}, map[]), threshold, 1, None);
  }

  /** Just after the delete is done, an upload that looked before it still waits to write. */
  function Waiting(now: int, id: Id): State { State(now, map[id := now], map[], multiset{}, map[1 := id], {}) }

  lemma BeforeTheWrite(now: int, threshold: int, id: Id)
    ensures var s0, h0 := Start(now), NoHistory();
            var s1, h1 := Do(s0, threshold, Look(1, id)), Track(s0, h0, Look(1, id));
            var s2, h2 := Do(s1, threshold, Tombstone(id)), Track(s1, h1, Tombstone(id));
            && Do(s2, threshold, Mark(id)) == Waiting(now, id)
            && Track(s2, h2, Mark(id)) == History(map[id := now], {1}, map[])
  {
    var s0 := Start(now);
    var s1 := Do(s0, threshold, Look(1, id));
    assert s1 == s0.(uploads := map[1 := id]) && Track(s0, NoHistory(), Look(1, id)) == NoHistory();
    var s2 := Do(s1, threshold, Tombstone(id));
    assert s2 == s1.(deleted := map[id := now], marking := multiset{id});
    assert (set u | u in s1.uploads && s1.uploads[u] == id) == {1};
    assert s2.marking - multiset{id} == multiset{};
  }

  lemma ThreeEvents(s: State, h: History, threshold: int, e1: Event, e2: Event, e3: Event)
    ensures DoAll(s, threshold, [e1, e2, e3]) == Do(Do(Do(s, threshold, e1), threshold, e2), threshold, e3)
    ensures var s1, h1 := Do(s, threshold, e1), Track(s, h, e1);
            TrackAll(s, h, threshold, [e1, e2, e3]) == Track(Do(s1, threshold, e2), Track(s1, h1, e2), e3)
  {
    hide Do, Track;
    assert [] + [e1] == [e1] && [e1] + [e2] == [e1, e2] && [e1, e2] + [e3] == [e1, e2, e3];
    OneMoreEvent(s, h, threshold, [], e1);
    OneMoreEvent(s, h, threshold, [e1], e2);
    OneMoreEvent(s, h, threshold, [e1, e2], e3);
  }

  // ----- culling

  /** A system that is not due for culling at any selection of a run is never removed by it. */
  lemma {:induction false} NeverDueNeverRemoved(now: int, threshold: int, evs: seq<Event>, id: Id)
    requires forall k :: 0 <= k < |evs| && evs[k].Select? ==>
               var s := StateAfter(now, threshold, evs[..k]);
               id in s.hosts && s.hosts[id].Some? ==> s.hosts[id].value >= s.now
    ensures id !in StateAfter(now, threshold, evs).selected
    ensures forall k :: 0 <= k < |evs| && id in StateAfter(now, threshold, evs[..k]).hosts ==>
              id in StateAfter(now, threshold, evs[..k + 1]).hosts
  {
    hide Do, StateAfter;
    NothingYet(now, threshold);
    if evs != [] {
      var n := |evs| - 1;
      var init, ev := evs[..n], evs[n];
      assert forall k :: 0 <= k <= n ==> init[..k] == evs[..k];
      assert forall k :: 0 <= k < |init| ==> init[k] == evs[k];
      NeverDueNeverRemoved(now, threshold, init, id);
      assert evs[..n + 1] == evs && init + [ev] == evs;
      NotRemoved(StateAfter(now, threshold, init), threshold, ev, id);
      OneMoreState(now, threshold, init, ev);
    }
  }

  lemma OneMoreState(now: int, threshold: int, evs: seq<Event>, ev: Event)
    ensures StateAfter(now, threshold, evs + [ev]) == Do(StateAfter(now, threshold, evs), threshold, ev)
  {
    hide Do;
    OneMoreEvent(Start(now), NoHistory(), threshold, evs, ev);
  }

  lemma NotRemoved(s: State, threshold: int, ev: Event, id: Id)
    requires id !in s.selected
    requires ev.Select? && id in s.hosts && s.hosts[id].Some? ==> s.hosts[id].value >= s.now
    ensures id !in Do(s, threshold, ev).selected && (id in s.hosts ==> id in Do(s, threshold, ev).hosts)
  {
    hide Accepts, Expired;
  }

  // ----- pruning

  function WithoutPrunes(evs: seq<Event>): seq<Event>
  {
    if evs == [] then []
    else WithoutPrunes(evs[..|evs| - 1]) + if evs[|evs| - 1].Prune? then [] else [evs[|evs| - 1]]
  }

  /** What each look of the run decided, in order. */
  function Decisions(now: int, threshold: int, evs: seq<Event>): seq<bool>
  {
    if evs == [] then []
    else
      var init, ev := evs[..|evs| - 1], evs[|evs| - 1];
      Decisions(now, threshold, init)
      + if ev.Look? then [Accepts(StateAfter(now, threshold, init), threshold, ev.id)] else []
  }

  /** Equal but for tombstones that no longer matter. */
  ghost predicate SameButPruned(s: State, t: State, threshold: int)
  {
    && t == s.(deleted := t.deleted)
    && (forall id :: id in s.deleted ==> id in t.deleted && t.deleted[id] == s.deleted[id])
    && forall id :: id in t.deleted && id !in s.deleted ==> t.deleted[id] < s.now - threshold
  }

  lemma PruneOneSide(s: State, t: State, threshold: int, ids: set<Id>)
    requires SameButPruned(s, t, threshold)
    ensures SameButPruned(Do(s, threshold, Prune(ids)), t, threshold)
  {
  }

  lemma DecidesTheSame(s: State, t: State, threshold: int, id: Id)
    requires SameButPruned(s, t, threshold)
    ensures Accepts(s, threshold, id) <==> Accepts(t, threshold, id)
  {
  }

  /** Apart from the clock, new tombstones and looks, no step minds which tombstones there are. */
  lemma MindsNoTombstone(s: State, deleted: map<Id, int>, threshold: int, ev: Event)
    requires ev.Mark? || ev.Write? || ev.Rollback? || ev.Select? || ev.Remove? || ev.Skip?
    ensures Do(s.(deleted := deleted), threshold, ev) == Do(s, threshold, ev).(deleted := deleted)
    ensures Do(s, threshold, ev).deleted == s.deleted && Do(s, threshold, ev).now == s.now
  {
    hide Culled;
    if ev.Mark? {
      MarkMindsNoTombstone(s, deleted, threshold, ev.id);
    } else if ev.Write? {
      WriteMindsNoTombstone(s, deleted, threshold, ev.upload, ev.culled);
    }
  }

  lemma MarkMindsNoTombstone(s: State, deleted: map<Id, int>, threshold: int, id: Id)
    ensures Do(s.(deleted := deleted), threshold, Mark(id)) == Do(s, threshold, Mark(id)).(deleted := deleted)
  {
  }

  lemma WriteMindsNoTombstone(s: State, deleted: map<Id, int>, threshold: int, u: int, culled: Option<int>)
    ensures Do(s.(deleted := deleted), threshold, Write(u, culled))
            == Do(s, threshold, Write(u, culled)).(deleted := deleted)
  {
  }

  lemma StepBothSides(s: State, t: State, threshold: int, ev: Event)
    requires SameButPruned(s, t, threshold) && !ev.Prune?
    ensures SameButPruned(Do(s, threshold, ev), Do(t, threshold, ev), threshold)
  {
    hide Accepts, Culled, Expired;
    if ev.Look? {
      DecidesTheSame(s, t, threshold, ev.id);
    } else if !ev.Tick? && !ev.Tombstone? {
      assert t == s.(deleted := t.deleted);
      MindsNoTombstone(s, t.deleted, threshold, ev);
      hide Do;
    }
  }

  /**
   Pruning is invisible: the same run without it makes the same decision at every look and ends with the
   same systems.
   */
  lemma {:induction false} PruningIsInvisible(now: int, threshold: int, evs: seq<Event>)
    ensures Decisions(now, threshold, evs) == Decisions(now, threshold, WithoutPrunes(evs))
    ensures SameButPruned(StateAfter(now, threshold, evs), StateAfter(now, threshold, WithoutPrunes(evs)), threshold)
  {
    if evs != [] {
      hide Do, SameButPruned, Accepts;
      var init, ev := evs[..|evs| - 1], evs[|evs| - 1];
      PruningIsInvisible(now, threshold, init);
      var s, t := StateAfter(now, threshold, init), StateAfter(now, threshold, WithoutPrunes(init));
      if ev.Prune? {
        PruneOneSide(s, t, threshold, ev.ids);
        assert WithoutPrunes(evs) == WithoutPrunes(init);
      } else {
        StepBothSides(s, t, threshold, ev);
        if ev.Look? { DecidesTheSame(s, t, threshold, ev.id); }
        assert WithoutPrunes(evs)[..|WithoutPrunes(evs)| - 1] == WithoutPrunes(init);
      }
    }
  }

  // ----- the operations

  class Tables {
    const threshold: int
    var now: int
    var deleted: map<Id, int>
    var hosts: map<Id, Option<int>>
    var marking: multiset<Id>
    var uploads: map<int, Id>
    var selected: set<Id>
    ghost var history: History

    ghost function View(): State
      reads this
    {
      State(now, deleted, hosts, marking, uploads, selected)
    }

    ghost predicate Valid()
      reads this
    {
      Sound(View(), history, threshold)
    }

    constructor (threshold: int, now: int)
      ensures Valid() && View() == Start(now) && history == NoHistory() && this.threshold == threshold
    {
      this.threshold, this.now := threshold, now;
      deleted, hosts, marking, uploads, selected := map[], map[], multiset{}, map[], {};
      history := NoHistory();
    }

    /** What every operation promises besides its own effect: it is that event, and the rules still hold. */
    twostate predicate Does(ev: Event)
      reads this
    {
      View() == Do(old(View()), threshold, ev) && history == Track(old(View()), old(history), ev) && Valid()
    }

    /** Time passes. */
    method Wait(d: nat)
      requires Valid()
      modifies this
      ensures Does(Tick(d)) && now == old(now) + d && hosts == old(hosts)
    {
      SoundStep(View(), history, threshold, Tick(d));
      now := now + d;
    }

    /** HandleDelete, first statement: from here on, uploads of the system are refused for the time of the threshold. */
    method WriteTombstone(id: Id)
      requires Valid()
      modifies this
      ensures Does(Event.Tombstone(id))
      ensures threshold > 0 ==> InWindow(View(), history, threshold, id) && !Accepts(View(), threshold, id)
      ensures deleted == old(deleted)[id := now] && history.lastDelete == old(history.lastDelete)[id := now]
      ensures hosts == old(hosts) && now == old(now)
    {
      SoundStep(View(), history, threshold, Event.Tombstone(id));
      history := Track(View(), history, Event.Tombstone(id));
      deleted := deleted[id := now];
      marking := marking + multiset{id};
    }

    /** HandleDelete, second statement: the system is gone or marked now, whoever wrote it before. */
    method MarkCulled(id: Id) returns (rowsAffected: nat)
      requires Valid() && id in marking
      modifies this
      ensures Does(Event.Mark(id))
      ensures MarkedOrGone(View(), id) && id !in history.lateWrites
      ensures rowsAffected == (if id in hosts then 1 else 0) && now == old(now)
      ensures hosts == if id in old(hosts) then old(hosts)[id := Some(now)] else old(hosts)
    {
      hide Do, Track, Sound;
      SoundStep(View(), history, threshold, Event.Mark(id));
      MarkIs(View(), history, threshold, id);
      history := Track(View(), history, Event.Mark(id));
      rowsAffected := 0;
      if id in hosts {
        hosts := hosts[id := Some(now)];
        rowsAffected := 1;
      }
      marking := marking - multiset{id};
    }

    /** processUpload, the look: accepted exactly when the last delete of the system is at least the threshold ago. */
    method LookAtTombstone(upload: int, id: Id) returns (accepted: bool)
      requires Valid() && upload !in uploads
      modifies this
      ensures Does(Event.Look(upload, id))
      ensures accepted <==> old(Accepts(View(), threshold, id))
      ensures accepted <==> id !in history.lastDelete || history.lastDelete[id] <= now - threshold
      ensures uploads == if accepted then old(uploads)[upload := id] else old(uploads)
      ensures hosts == old(hosts) && now == old(now) && history.lastDelete == old(history.lastDelete)
    {
      SoundAccepts(View(), history, threshold, id);
      SoundStep(View(), history, threshold, Event.Look(upload, id));
      history := Track(View(), history, Event.Look(upload, id));
      if id in deleted && deleted[id] > now - threshold {
        return false;
      }
      uploads := uploads[upload := id];
      accepted := true;
    }

    /** processUpload, the write: within the window of a delete it can only be an upload that looked before it. */
    method WriteSystem(upload: int, culled: Option<int>)
      requires Valid() && upload in uploads
      modifies this
      ensures Does(Event.Write(upload, culled))
      ensures old(InWindow(View(), history, threshold, uploads[upload])) ==> upload in old(history.overtaken)
      ensures hosts == old(hosts)[old(uploads)[upload] := culled] && uploads == old(uploads) - {upload}
              && now == old(now)
    {
      SoundStep(View(), history, threshold, Event.Write(upload, culled));
      history := Track(View(), history, Event.Write(upload, culled));
      hosts := hosts[uploads[upload] := culled];
      uploads := uploads - {upload};
    }

    /** The upload's transaction is rolled back. */
    method RollbackUpload(upload: int)
      requires Valid()
      modifies this
      ensures Does(Event.Rollback(upload))
    {
      SoundStep(View(), history, threshold, Event.Rollback(upload));
      uploads := uploads - {upload};
    }

    /** deleteCulledSystems, the query. */
    method SelectCulled(limit: nat) returns (ids: set<Id>)
      requires Valid()
      modifies this
      ensures Does(Event.Select(ids)) && hosts == old(hosts) && now == old(now)
      ensures ids <= Culled(hosts, now) && |ids| <= limit && ids <= selected
      ensures |Culled(hosts, now)| <= limit ==> ids == Culled(hosts, now)
      ensures forall id :: id in ids ==> id in hosts && hosts[id].Some? && hosts[id].value < now
      ensures |set id | id in hosts && hosts[id].Some? && hosts[id].value < now| <= limit ==>
                forall id :: id in hosts && hosts[id].Some? && hosts[id].value < now ==> id in ids
    {
      hide Do, Track, Sound;
      ids := PickSome(Culled(hosts, now), limit);
      SoundStep(View(), history, threshold, Event.Select(ids));
      SelectIs(View(), history, threshold, ids);
      selected := selected + ids;
    }

    /** deleteCulledSystems, one selected system: its transaction deletes it or fails. */
    method DeleteSelected(id: Id, fails: bool) returns (rowsAffected: nat)
      requires Valid() && id in selected
      modifies this
      ensures Does(if fails then Event.Skip(id) else Event.Remove(id))
      ensures rowsAffected == if fails then 0 else 1
      ensures hosts == (if fails then old(hosts) else old(hosts) - {id}) && now == old(now)
              && selected == old(selected) - {id}
    {
      ghost var ev := if fails then Event.Skip(id) else Event.Remove(id);
      SoundStep(View(), history, threshold, ev);
      history := Track(View(), history, ev);
      selected := selected - {id};
      if fails {
        return 0;
      }
      hosts := hosts - {id};
      rowsAffected := 1;
    }

    /** The loop of deleteCulledSystems over the selected systems. */
    method DeleteEach(inventoryIDs: set<Id>, failing: set<Id>) returns (nDeleted: nat, ghost evs: seq<Event>)
      requires Valid() && inventoryIDs <= selected
      modifies this
      ensures Valid() && View() == DoAll(old(View()), threshold, evs)
              && history == TrackAll(old(View()), old(history), threshold, evs)
      ensures Deletions(evs) && nDeleted == |inventoryIDs - failing|
      ensures hosts == old(hosts) - (inventoryIDs - failing) && now == old(now)
    {
      hide Sound, Do, Track, DoAll, TrackAll, Done;
      ghost var s, h := View(), history;
      NoEventYet(s, h, threshold);
      DoneEnds(hosts, inventoryIDs, failing);
      evs, nDeleted := [], 0;
      var rest := inventoryIDs;
      while rest != {}
        invariant rest <= inventoryIDs && rest <= selected && Valid() && Deletions(evs)
        invariant View() == DoAll(s, threshold, evs) && history == TrackAll(s, h, threshold, evs)
        invariant nDeleted == |Done(inventoryIDs, rest, failing)|
        invariant hosts == old(hosts) - Done(inventoryIDs, rest, failing) && now == old(now)
      {
        var id :| id in rest;
        ghost var ev := if id in failing then Event.Skip(id) else Event.Remove(id);
        OneMoreEvent(s, h, threshold, evs, ev);
        DoneMore(old(hosts), inventoryIDs, rest, failing, id);
        var n := DeleteSelected(id, id in failing);
        evs := evs + [ev];
        rest := rest - {id};
        nDeleted := nDeleted + n;
      }
    }

    /**
     deleteCulledSystems without interruption: one selection and then one step for each selected system,
     so that exactly the selected systems that do not fail are gone, and they were all culled.
     */
    method DeleteCulledSystems(limit: nat, failing: set<Id>)
      returns (nDeleted: nat, ghost removed: set<Id>, ghost evs: seq<Event>)
      requires Valid()
      modifies this
      ensures Valid() && View() == DoAll(old(View()), threshold, evs)
              && history == TrackAll(old(View()), old(history), threshold, evs)
      ensures evs != [] && evs[0].Select? && Deletions(evs[1..])
      ensures removed <= Culled(old(hosts), now) && nDeleted == |removed| <= limit
      ensures removed !! failing && hosts == old(hosts) - removed && now == old(now)
      ensures |Culled(old(hosts), now)| <= limit ==> removed == Culled(old(hosts), now) - failing
      ensures forall id :: id in old(hosts) && id !in hosts ==>
                old(hosts)[id].Some? && old(hosts)[id].value < now && id !in failing
      ensures |set id | id in old(hosts) && old(hosts)[id].Some? && old(hosts)[id].value < now| <= limit ==>
                forall id :: id in old(hosts) - failing && old(hosts)[id].Some? && old(hosts)[id].value < now ==>
                  id !in hosts
    {
      hide Sound, Do, Track, Culled, DoAll, TrackAll;
      ghost var s, h := View(), history;
      var inventoryIDs := SelectCulled(limit);
      nDeleted, evs := DeleteEach(inventoryIDs, failing);
      DoFirst(s, h, threshold, Event.Select(inventoryIDs), evs);
      removed, evs := inventoryIDs - failing, [Event.Select(inventoryIDs)] + evs;
      SubsetSize(removed, inventoryIDs);
    }

    /** pruneDeletedSystems: deletes at most `limit` tombstones older than the threshold; no decision changes. */
    method PruneDeletedSystems(limit: nat) returns (rowsAffected: nat, ghost ids: set<Id>)
      requires Valid()
      modifies this
      ensures Does(Event.Prune(ids)) && ids <= Expired(old(View()), threshold) && |ids| == rowsAffected <= limit
      ensures var expired := Expired(old(View()), threshold); |expired| <= limit ==> ids == expired
      ensures forall id :: Accepts(View(), threshold, id) <==> old(Accepts(View(), threshold, id))
      ensures deleted == old(deleted) - ids
      ensures forall id :: id in ids ==> id in old(deleted) && old(deleted)[id] < now - threshold
      ensures |set id | id in old(deleted) && old(deleted)[id] < now - threshold| <= limit ==>
                forall id :: id in deleted ==> deleted[id] >= now - threshold
    {
      hide Do, Track, Sound;
      var expired := set id | id in deleted && deleted[id] < now - threshold;
      var picked := PickSome(expired, limit);
      ids := picked;
      assert expired == Expired(View(), threshold);
      SoundStep(View(), history, threshold, Event.Prune(ids));
      PruneIs(View(), history, threshold, ids);
      deleted := deleted - picked;
      rowsAffected := |picked|;
    }
  }

  lemma SelectIs(s: State, h: History, threshold: int, ids: set<Id>)
    requires ids <= Culled(s.hosts, s.now)
    ensures Do(s, threshold, Event.Select(ids)) == s.(selected := s.selected + ids)
            && Track(s, h, Event.Select(ids)) == h
  {
    assert ids * Culled(s.hosts, s.now) == ids;
  }

  lemma MarkIs(s: State, h: History, threshold: int, id: Id)
    requires id in s.marking
    ensures Do(s, threshold, Event.Mark(id))
            == s.(hosts := if id in s.hosts then s.hosts[id := Some(s.now)] else s.hosts,
                  marking := s.marking - multiset{id})
    ensures Track(s, h, Event.Mark(id)) == h.(lateWrites := h.lateWrites - {id})
  {
  }

  lemma PruneIs(s: State, h: History, threshold: int, ids: set<Id>)
    requires ids <= Expired(s, threshold)
    ensures Do(s, threshold, Event.Prune(ids)) == s.(deleted := s.deleted - ids) && Track(s, h, Event.Prune(ids)) == h
  {
    assert ids * Expired(s, threshold) == ids;
  }

  /** Single deletions, or failures of them. */
  predicate Deletions(evs: seq<Event>)
  {
    forall i :: 0 <= i < |evs| ==> evs[i].Remove? || evs[i].Skip?
  }

  /** The systems deleted while these are still to be tried. */
  function Done(all: set<Id>, rest: set<Id>, failing: set<Id>): set<Id> { (all - rest) - failing }

  lemma DoneEnds(m: map<Id, Option<int>>, all: set<Id>, failing: set<Id>)
    ensures Done(all, all, failing) == {} && m - Done(all, all, failing) == m
    ensures Done(all, {}, failing) == all - failing
  {
  }

  lemma DoneMore(m: map<Id, Option<int>>, all: set<Id>, rest: set<Id>, failing: set<Id>, id: Id)
    requires rest <= all && id in rest
    ensures var done, more := Done(all, rest, failing), Done(all, rest - {id}, failing);
            && m - more == (if id in failing then m - done else (m - done) - {id})
            && |more| == |done| + if id in failing then 0 else 1
  {
    var done, more := Done(all, rest, failing), Done(all, rest - {id}, failing);
    if id in failing {
      assert more == done;
    } else {
      assert more == done + {id} && id !in done;
    }
    hide Done;
  }

  /** A query with a limit: all that matches, or that many. */
  method PickSome(all: set<Id>, limit: nat) returns (some: set<Id>)
    ensures some <= all && |some| <= limit
    ensures |all| <= limit ==> some == all
    ensures |all| >= limit ==> |some| == limit
  {
    some := {};
    var rest := all;
    while rest != {} && |some| < limit
      invariant some + rest == all && some !! rest && |some| <= limit
      decreases |rest|
    {
      var id :| id in rest;
      some, rest := some + {id}, rest - {id};
    }
    assert |all| == |some| + |rest|;
    if rest == {} { assert some == all; }
  }

  // ----- any schedule

  datatype Op =
    | Pass(d: nat)
    | SendDelete(id: Id)
    | FinishDelete(id: Id)
    | StartUpload(upload: int, id: Id)
    | FinishUpload(upload: int, culled: Option<int>)
    | FailUpload(upload: int)
    | PickCulled(limit: nat)
    | CullOne(id: Id, fails: bool)
    | PruneOld(limit: nat)

  /** A delete can be finished once begun, an upload written once looked at, a system culled once selected. */
  predicate CanStart(s: State, op: Op)
  {
    match op
    case FinishDelete(id) => id in s.marking
    case StartUpload(upload, _) => upload !in s.uploads
    case FinishUpload(upload, _) => upload in s.uploads
    case CullOne(id, _) => id in s.selected
    case _ => true
  }

  /** The event is the operation's own. */
  predicate IsOf(s: State, threshold: int, op: Op, ev: Event)
  {
    match op
    case Pass(d) => ev == Tick(d)
    case SendDelete(id) => ev == Event.Tombstone(id)
    case FinishDelete(id) => ev == Event.Mark(id)
    case StartUpload(upload, id) => ev == Event.Look(upload, id)
    case FinishUpload(upload, culled) => ev == Event.Write(upload, culled)
    case FailUpload(upload) => ev == Event.Rollback(upload)
    case PickCulled(limit) =>
      && ev.Select? && ev.ids <= Culled(s.hosts, s.now) && |ev.ids| <= limit
      && (|Culled(s.hosts, s.now)| <= limit ==> ev.ids == Culled(s.hosts, s.now))
    case CullOne(id, fails) => ev == if fails then Event.Skip(id) else Event.Remove(id)
    case PruneOld(limit) =>
      && ev.Prune? && ev.ids <= Expired(s, threshold) && |ev.ids| <= limit
      && (|Expired(s, threshold)| <= limit ==> ev.ids == Expired(s, threshold))
  }

  /** The operations yield these events: each its own, or none exactly when it cannot start. */
  predicate Follows(s: State, threshold: int, ops: seq<Op>, evs: seq<Event>)
    decreases ops
  {
    if ops == [] then evs == []
    else if !CanStart(s, ops[0]) then Follows(s, threshold, ops[1..], evs)
    else
      && evs != [] && IsOf(s, threshold, ops[0], evs[0])
      && Follows(Do(s, threshold, evs[0]), threshold, ops[1..], evs[1..])
  }

  lemma {:induction false} FollowsMore(s: State, threshold: int, ops: seq<Op>, evs: seq<Event>, op: Op,
                                       more: seq<Event>)
    requires Follows(s, threshold, ops, evs)
    requires var s' := DoAll(s, threshold, evs);
             if CanStart(s', op) then |more| == 1 && IsOf(s', threshold, op, more[0]) else more == []
    ensures Follows(s, threshold, ops + [op], evs + more)
    decreases ops
  {
    hide Do, CanStart, IsOf;
    if ops == [] {
      assert [op][1..] == [] && evs + more == more && more[|more|..] == [];
      assert more != [] ==> more[1..] == [];
      assert DoAll(s, threshold, []) == s;
    } else {
      var all := ops + [op];
      assert all[0] == ops[0] && all[1..] == ops[1..] + [op];
      if CanStart(s, ops[0]) {
        DoFirst(s, NoHistory(), threshold, evs[0], evs[1..]);
        assert [evs[0]] + evs[1..] == evs && (evs + more)[1..] == evs[1..] + more;
        FollowsMore(Do(s, threshold, evs[0]), threshold, ops[1..], evs[1..], op, more);
      } else {
        FollowsMore(s, threshold, ops[1..], evs, op, more);
      }
    }
  }

  /** One operation; an operation that cannot start is no event. */
  method Perform(t: Tables, op: Op) returns (decided: seq<bool>, ghost evs: seq<Event>)
    requires t.Valid()
    modifies t
    ensures t.Valid() && |evs| == if CanStart(old(t.View()), op) then 1 else 0
    ensures evs != [] ==> IsOf(old(t.View()), t.threshold, op, evs[0])
    ensures evs == [] ==> t.View() == old(t.View()) && t.history == old(t.history) && decided == []
    ensures evs != [] ==>
              && t.View() == Do(old(t.View()), t.threshold, evs[0])
                 && t.history == Track(old(t.View()), old(t.history), evs[0])
              && decided == if evs[0].Look? then [Accepts(old(t.View()), t.threshold, evs[0].id)] else []
  {
    hide Do, Track, Sound, Culled, Expired, InWindow, MarkedOrGone;
    decided, evs := [], [];
    match op {
      case Pass(d) =>
        t.Wait(d);
        evs := [Tick(d)];
      case SendDelete(id) =>
        t.WriteTombstone(id);
        evs := [Event.Tombstone(id)];
      case FinishDelete(id) =>
        if id in t.marking {
          var _ := t.MarkCulled(id);
          evs := [Event.Mark(id)];
        }
      case StartUpload(upload, id) =>
        if upload !in t.uploads {
          SoundAccepts(t.View(), t.history, t.threshold, id);
          var accepted := t.LookAtTombstone(upload, id);
          decided, evs := [accepted], [Event.Look(upload, id)];
        }
      case FinishUpload(upload, culled) =>
        if upload in t.uploads {
          t.WriteSystem(upload, culled);
          evs := [Event.Write(upload, culled)];
        }
      case FailUpload(upload) =>
        t.RollbackUpload(upload);
        evs := [Event.Rollback(upload)];
      case PickCulled(limit) =>
        var ids := t.SelectCulled(limit);
        evs := [Event.Select(ids)];
      case CullOne(id, fails) =>
        if id in t.selected {
          var _ := t.DeleteSelected(id, fails);
          evs := [if fails then Event.Skip(id) else Event.Remove(id)];
        }
      case PruneOld(limit) =>
        var _, ids := t.PruneDeletedSystems(limit);
        evs := [Event.Prune(ids)];
    }
  }

  lemma OneMoreDecision(now: int, threshold: int, evs: seq<Event>, ev: Event)
    ensures Decisions(now, threshold, evs + [ev])
            == Decisions(now, threshold, evs)
               + if ev.Look? then [Accepts(StateAfter(now, threshold, evs), threshold, ev.id)] else []
  {
    assert (evs + [ev])[..|evs|] == evs;
  }

  /**
   Any interleaving of deletes, uploads, culling and pruning on the tables: each operation that can start
   is its event, the decisions are those of the same run without pruning, an upload is accepted exactly
   outside the window of the last delete, whoever may still write within a window looked before the
   delete, and a system whose delete is done stays marked or gone exactly unless such an upload revived it.
   */
  method Interleave(t: Tables, start: int, ops: seq<Op>) returns (decisions: seq<bool>, ghost evs: seq<Event>)
    requires t.Valid() && t.View() == Start(start) && t.history == NoHistory()
    modifies t
    ensures Follows(Start(start), t.threshold, ops, evs)
    ensures t.View() == StateAfter(start, t.threshold, evs) && t.history == HistoryAfter(start, t.threshold, evs)
    ensures decisions == Decisions(start, t.threshold, evs) == Decisions(start, t.threshold, WithoutPrunes(evs))
    ensures forall id :: Accepts(t.View(), t.threshold, id) <==> !InWindow(t.View(), t.history, t.threshold, id)
    ensures forall u :: u in t.uploads && InWindow(t.View(), t.history, t.threshold, t.uploads[u]) ==>
            u in t.history.overtaken
    ensures forall id :: InWindow(t.View(), t.history, t.threshold, id) && id !in t.marking ==>
              (MarkedOrGone(t.View(), id) <==> !Revived(t.View(), t.history, id))
    ensures KeepsAllThroughout(start, t.threshold, evs) <==> !Revives(start, t.threshold, evs)
  {
    hide Do, Track, Sound, DoAll, TrackAll, Decisions, Accepts, InWindow, MarkedOrGone, Revived, Revives,
         KeepsAllThroughout;
    hide CanStart, IsOf, Follows;
    decisions, evs := [], [];
    NothingYet(start, t.threshold);
    for i := 0 to |ops|
      invariant t.Valid() && Follows(Start(start), t.threshold, ops[..i], evs)
      invariant t.View() == StateAfter(start, t.threshold, evs) && t.history == HistoryAfter(start, t.threshold, evs)
      invariant decisions == Decisions(start, t.threshold, evs)
    {
      var decided, more := Perform(t, ops[i]);
      decisions := decisions + decided;
      FollowsMore(Start(start), t.threshold, ops[..i], evs, ops[i], more);
      assert ops[..i + 1] == ops[..i] + [ops[i]];
      if more != [] {
        assert more == [more[0]];
        OneMoreEvent(Start(start), NoHistory(), t.threshold, evs, more[0]);
        OneMoreDecision(start, t.threshold, evs, more[0]);
      }
      assert more == [] ==> evs + more == evs;
      evs := evs + more;
    }
    assert ops[..|ops|] == ops;
    PruningIsInvisible(start, t.threshold, evs);
    KeepsAllThroughoutIff(start, t.threshold, evs);
    forall id ensures Accepts(t.View(), t.threshold, id) <==> !InWindow(t.View(), t.history, t.threshold, id) {
      SoundAccepts(t.View(), t.history, t.threshold, id);
    }
    forall u | u in t.uploads && InWindow(t.View(), t.history, t.threshold, t.uploads[u])
      ensures u in t.history.overtaken {
      LateWritesLookedEarly(start, t.threshold, evs, u);
    }
    forall id | InWindow(t.View(), t.history, t.threshold, id) && id !in t.marking
      ensures MarkedOrGone(t.View(), id) <==> !Revived(t.View(), t.history, id) {
      SoundStays(t.View(), t.history, t.threshold, id);
    }
  }

  lemma NothingYet(start: int, threshold: int)
    ensures StateAfter(start, threshold, []) == Start(start) && HistoryAfter(start, threshold, []) == NoHistory()
    ensures Decisions(start, threshold, []) == [] && Follows(Start(start), threshold, [], [])
  {
  }
}
