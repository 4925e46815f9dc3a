/**
 The scan of RemoveNonLatestPackages (base/utils/vmaas.go) over keys in some order: which keys are
 marked for deletion. Keys are read into identities that carry a name and compare three ways.
 */
module LatestFilter {
  import opened Wrappers
  import opened Orders

  datatype Reader<!K, !T> = Reader(read: K -> Option<T>, name: T -> string, cmp: (T, T) -> int)

  datatype Best<K, T> = Best(key: K, id: T)
  datatype Scan<K, T> = Scan(best: map<string, Best<K, T>>, toDel: set<K>)

  function Step<K(==), T>(r: Reader<K, T>, st: Scan<K, T>, k: K): Scan<K, T>
  {
    match r.read(k)
    case None => st.(toDel := st.toDel + {k})
    case Some(id) =>
      var name := r.name(id);
      if name in st.best then
        var cmp := r.cmp(st.best[name].id, id);
        if cmp == -1 then
          Scan(st.best[name := Best(k, id)], st.toDel + {st.best[name].key})
        else if cmp == 1 then st.(toDel := st.toDel + {k})
        else st
      else
        st.(best := st.best[name := Best(k, id)])
  }

  function ScanAll<K(==), T>(r: Reader<K, T>, keys: seq<K>): Scan<K, T>
  {
    if keys == [] then Scan(map[], {})
    else Step(r, ScanAll(r, keys[..|keys| - 1]), keys[|keys| - 1])
  }

  ghost predicate Distinct<K>(keys: seq<K>)
  {
    forall i, j :: 0 <= i < j < |keys| ==> keys[i] != keys[j]
  }

  /** j is a readable key of k's name that sorts relative to k as `sign` says. */
  ghost predicate Related<K, T>(r: Reader<K, T>, k: K, j: K, sign: int)
  {
    && r.read(k).Some? && r.read(j).Some?
    && r.name(r.read(k).value) == r.name(r.read(j).value)
    && r.cmp(r.read(k).value, r.read(j).value) == sign
  }

  /** k is beaten by some other key of its name. */
  ghost predicate Beaten<K, T>(r: Reader<K, T>, keys: set<K>, k: K)
  {
    exists j :: j in keys && Related(r, k, j, -1)
  }

  ghost predicate Tied<K, T>(r: Reader<K, T>, keys: set<K>, k: K)
  {
    exists j :: j in keys && j != k && Related(r, k, j, 0)
  }

  ghost function Elements<K>(keys: seq<K>): set<K> { set k | k in keys }

  /** The keys the filter is for: readable, and beaten by no key of their name. */
  ghost function Latest<K, T>(r: Reader<K, T>, keys: set<K>): set<K>
  {
    set k | k in keys && r.read(k).Some? && !Beaten(r, keys, k)
  }

  ghost function Survivors<K, T>(r: Reader<K, T>, order: seq<K>): set<K>
  {
    Elements(order) - ScanAll(r, order).toDel
  }

  ghost predicate Lawful<K(!new), T(!new)>(r: Reader<K, T>)
  {
    IsPreorder(r.cmp)
  }

  // ----- what every scan order keeps

  /** A recorded entry is one of the keys seen, is not deleted, and no key of its name beats it. */
  ghost predicate BestEntry<K(!new), T(!new)>(r: Reader<K, T>, keys: seq<K>, toDel: set<K>, name: string, e: Best<K, T>)
  {
    && e.key in keys && e.key !in toDel
    && r.read(e.key) == Some(e.id) && r.name(e.id) == name
    && forall k :: k in keys && r.read(k).Some? && r.name(r.read(k).value) == name ==> r.cmp(r.read(k).value, e.id) <= 0
  }

  ghost predicate BestIsBest<K(!new), T(!new)>(r: Reader<K, T>, keys: seq<K>, st: Scan<K, T>)
  {
    && st.toDel <= Elements(keys)
    && (forall k :: k in keys && r.read(k).Some? ==> r.name(r.read(k).value) in st.best)
    && (forall name :: name in st.best ==> BestEntry(r, keys, st.toDel, name, st.best[name]))
  }

  lemma StepKeepsBest<K(!new), T(!new)>(r: Reader<K, T>, init: seq<K>, st: Scan<K, T>, k: K)
    requires Lawful(r) && BestIsBest(r, init, st) && k !in init
    ensures BestIsBest(r, init + [k], Step(r, st, k))
  {
    var keys, st' := init + [k], Step(r, st, k);
    if r.read(k).None? {
      forall name | name in st'.best ensures BestEntry(r, keys, st'.toDel, name, st'.best[name]) {
        assert BestEntry(r, init, st.toDel, name, st.best[name]);
      }
    } else {
      var id := r.read(k).value;
      var mine := r.name(id);
      Flip(r.cmp, id, id);
      forall name | name in st'.best ensures BestEntry(r, keys, st'.toDel, name, st'.best[name]) {
        if name in st.best { assert BestEntry(r, init, st.toDel, name, st.best[name]); }
        if mine in st.best { assert BestEntry(r, init, st.toDel, mine, st.best[mine]); }
        if name == mine {
          StepBestOfName(r, init, st, k);
        }
      }
    }
  }

  lemma StepBestOfName<K(!new), T(!new)>(r: Reader<K, T>, init: seq<K>, st: Scan<K, T>, k: K)
    requires Lawful(r) && k !in init && r.read(k).Some?
    requires var name := r.name(r.read(k).value);
             if name in st.best then BestEntry(r, init, st.toDel, name, st.best[name])
             else forall j :: j in init && r.read(j).Some? ==> r.name(r.read(j).value) != name
    requires k !in st.toDel
    ensures var name, st' := r.name(r.read(k).value), Step(r, st, k);
            name in st'.best && BestEntry(r, init + [k], st'.toDel, name, st'.best[name])
  {
    var id := r.read(k).value;
    var name := r.name(id);
    var st' := Step(r, st, k);
    Flip(r.cmp, id, id);
    if name in st.best {
      var prior := st.best[name];
      Flip(r.cmp, prior.id, id);
      assert -1 <= r.cmp(prior.id, id) <= 1;
      hide IsPreorder;
      forall j | j in init + [k] && r.read(j).Some? && r.name(r.read(j).value) == name
        ensures r.cmp(r.read(j).value, st'.best[name].id) <= 0
      {
        if j in init {
          assert r.cmp(r.read(j).value, prior.id) <= 0;
          if r.cmp(prior.id, id) == -1 { StrictlyBelow(r.cmp, r.read(j).value, prior.id, id); }
        }
      }
    }
  }

  lemma {:induction false} ScanKeepsBest<K(!new), T(!new)>(r: Reader<K, T>, keys: seq<K>)
    requires Lawful(r) && Distinct(keys)
    ensures BestIsBest(r, keys, ScanAll(r, keys))
  {
    if keys != [] {
      var init, k := keys[..|keys| - 1], keys[|keys| - 1];
      ScanKeepsBest(r, init);
      assert keys == init + [k] && k !in init;
      StepKeepsBest(r, init, ScanAll(r, init), k);
    }
  }

  /** A deleted key is unreadable or beaten. */
  ghost predicate DeletedRightly<K(!new), T(!new)>(r: Reader<K, T>, keys: set<K>, k: K)
  {
    r.read(k).Some? ==> Beaten(r, keys, k)
  }

  /** A key that stays is readable, and it is the recorded one of its name or ties with another key. */
  ghost predicate KeptRightly<K(!new), T(!new)>(r: Reader<K, T>, keys: set<K>, st: Scan<K, T>, k: K)
  {
    && r.read(k).Some? && r.name(r.read(k).value) in st.best
    && (st.best[r.name(r.read(k).value)].key == k || Tied(r, keys, k))
  }

  ghost predicate DeletionsAreSound<K(!new), T(!new)>(r: Reader<K, T>, keys: seq<K>, st: Scan<K, T>)
  {
    && (forall k :: k in st.toDel ==> DeletedRightly(r, Elements(keys), k))
    && (forall k :: k in keys && k !in st.toDel ==> KeptRightly(r, Elements(keys), st, k))
  }

  lemma MoreKeys<K(!new), T(!new)>(r: Reader<K, T>, fewer: set<K>, more: set<K>, k: K)
    requires fewer <= more
    ensures Beaten(r, fewer, k) ==> Beaten(r, more, k)
    ensures Tied(r, fewer, k) ==> Tied(r, more, k)
  {
    if Beaten(r, fewer, k) {
      var j :| j in fewer && Related(r, k, j, -1);
      assert j in more;
    }
    if Tied(r, fewer, k) {
      var j :| j in fewer && j != k && Related(r, k, j, 0);
      assert j in more;
    }
  }

  /** What one step does to the key it scans and to the entry that key displaces. */
  lemma StepVerdicts<K(!new), T(!new)>(r: Reader<K, T>, init: seq<K>, st: Scan<K, T>, k: K, more: set<K>)
    requires Lawful(r) && BestIsBest(r, init, st) && k !in init && more == Elements(init) + {k}
    ensures var st' := Step(r, st, k);
            && (forall j :: j in st'.toDel && j !in st.toDel ==> DeletedRightly(r, more, j))
            && (k !in st'.toDel ==> KeptRightly(r, more, st', k))
  {
    if r.read(k).Some? {
      var id := r.read(k).value;
      var name := r.name(id);
      if name in st.best {
        var prior := st.best[name];
        assert BestEntry(r, init, st.toDel, name, prior);
        Flip(r.cmp, prior.id, id);
        assert -1 <= r.cmp(prior.id, id) <= 1;
        hide IsPreorder, BestEntry;
        assert Related(r, prior.key, k, r.cmp(prior.id, id)) && Related(r, k, prior.key, -r.cmp(prior.id, id));
        assert prior.key in more && k in more && prior.key != k;
      }
    }
  }

  lemma StepIsSound<K(!new), T(!new)>(r: Reader<K, T>, init: seq<K>, st: Scan<K, T>, k: K)
    requires Lawful(r) && BestIsBest(r, init, st) && DeletionsAreSound(r, init, st) && k !in init
    ensures DeletionsAreSound(r, init + [k], Step(r, st, k))
  {
    var keys, st' := init + [k], Step(r, st, k);
    var fewer, more := Elements(init), Elements(keys);
    assert more == fewer + {k};
    StepVerdicts(r, init, st, k, more);
    hide IsPreorder, BestEntry, Beaten, Tied, Related, BestIsBest;
    forall j | j in st'.toDel ensures DeletedRightly(r, more, j) {
      MoreKeys(r, fewer, more, j);
      if j in st.toDel { assert DeletedRightly(r, fewer, j); }
    }
    forall j | j in keys && j !in st'.toDel ensures KeptRightly(r, more, st', j) {
      MoreKeys(r, fewer, more, j);
      if j in init { assert KeptRightly(r, fewer, st, j); }
    }
  }

  lemma {:induction false} ScanIsSound<K(!new), T(!new)>(r: Reader<K, T>, keys: seq<K>)
    requires Lawful(r) && Distinct(keys)
    ensures DeletionsAreSound(r, keys, ScanAll(r, keys))
  {
    if keys != [] {
      var init, k := keys[..|keys| - 1], keys[|keys| - 1];
      ScanIsSound(r, init);
      ScanKeepsBest(r, init);
      assert keys == init + [k] && k !in init;
      StepIsSound(r, init, ScanAll(r, init), k);
    }
  }

  /**
   In every order: every latest key survives, nothing unreadable does, and a survivor that is not
   latest ties with another key.
   */
  lemma EveryOrder<K(!new), T(!new)>(r: Reader<K, T>, order: seq<K>)
    requires Lawful(r) && Distinct(order)
    ensures var keys := Elements(order);
            && Latest(r, keys) <= Survivors(r, order) <= keys
            && forall k :: k in Survivors(r, order) ==> r.read(k).Some? && (k in Latest(r, keys) || Tied(r, keys, k))
  {
    ScanIsSound(r, order);
    ScanKeepsBest(r, order);
    var st := ScanAll(r, order);
    var keys := Elements(order);
    forall k | k in keys && k in st.toDel ensures k !in Latest(r, keys) {
      assert DeletedRightly(r, keys, k);
    }
    forall k | k in Survivors(r, order)
      ensures r.read(k).Some? && (k in Latest(r, keys) || Tied(r, keys, k))
    {
      assert KeptRightly(r, keys, st, k);
      var name := r.name(r.read(k).value);
      if st.best[name].key == k {
        assert BestEntry(r, order, st.toDel, name, st.best[name]);
        UnbeatenIfTop(r, keys, k);
      }
    }
  }

  lemma UnbeatenIfTop<K(!new), T(!new)>(r: Reader<K, T>, keys: set<K>, k: K)
    requires Lawful(r) && r.read(k).Some?
    requires forall j :: j in keys && r.read(j).Some? && r.name(r.read(j).value) == r.name(r.read(k).value) ==>
               r.cmp(r.read(j).value, r.read(k).value) <= 0
    ensures !Beaten(r, keys, k)
  {
    forall j | j in keys && r.read(j).Some? ensures !Related(r, k, j, -1) {
      Flip(r.cmp, r.read(k).value, r.read(j).value);
    }
  }

  // ----- exactly when the order does not matter

  /** Some key that is beaten ties with another key, as name-1-1.x and name-0:1-1.x do. */
  ghost predicate HasTiedLoser<K, T>(r: Reader<K, T>, keys: set<K>)
  {
    exists k :: k in keys && Beaten(r, keys, k) && Tied(r, keys, k)
  }

  ghost predicate IsOrderOf<K>(order: seq<K>, keys: set<K>)
  {
    Distinct(order) && Elements(order) == keys
  }

  lemma {:induction false} SomeOrder<K(!new)>(keys: set<K>) returns (order: seq<K>)
    ensures IsOrderOf(order, keys)
    decreases keys
  {
    if keys == {} {
      order := [];
    } else {
      var k :| k in keys;
      var rest := SomeOrder(keys - {k});
      order := [k] + rest;
      assert forall i :: 0 <= i < |rest| ==> rest[i] in Elements(rest);
      assert Elements(order) == {k} + Elements(rest);
    }
  }

  /** A key that arrives second in a tie is never recorded, so nothing later can delete it. */
  lemma {:induction false} SecondOfTieStays<K(!new), T(!new)>(r: Reader<K, T>, first: K, second: K, rest: seq<K>)
    requires Lawful(r) && Related(r, first, second, 0) && Distinct([first, second] + rest)
    ensures var st := ScanAll(r, [first, second] + rest);
            second !in st.toDel && (forall name :: name in st.best ==> st.best[name].key != second)
  {
    var keys := [first, second] + rest;
    if rest == [] {
      assert keys == [first, second];
      assert keys[..1] == [first] && [first][..0] == [];
      assert ScanAll(r, [first]) == Step(r, ScanAll(r, []), first);
      assert ScanAll(r, keys) == Step(r, ScanAll(r, [first]), second);
    } else {
      var k := keys[|keys| - 1];
      assert keys[..|keys| - 1] == [first, second] + rest[..|rest| - 1];
      SecondOfTieStays(r, first, second, rest[..|rest| - 1]);
      assert keys[1] == second && k != second;
    }
  }

  /**
   Every order leaves exactly the latest keys if and only if no beaten key ties with another key.
   (A tie among the latest keys of a name does no harm: they all stay.)
   */
  lemma OrderIndependentIff<K(!new), T(!new)>(r: Reader<K, T>, keys: set<K>)
    requires Lawful(r)
    ensures (forall order :: IsOrderOf(order, keys) ==> Survivors(r, order) == Latest(r, keys))
       <==> !HasTiedLoser(r, keys)
  {
    if HasTiedLoser(r, keys) {
      var k :| k in keys && Beaten(r, keys, k) && Tied(r, keys, k);
      TiedLoserCanStay(r, keys, k);
    } else {
      forall order | IsOrderOf(order, keys) ensures Survivors(r, order) == Latest(r, keys) {
        EveryOrder(r, order);
        forall k | k in Survivors(r, order) && Tied(r, keys, k) ensures k in Latest(r, keys) { }
      }
    }
  }

  lemma TiedLoserCanStay<K(!new), T(!new)>(r: Reader<K, T>, keys: set<K>, k: K)
    requires Lawful(r) && k in keys && Beaten(r, keys, k) && Tied(r, keys, k)
    ensures exists order :: IsOrderOf(order, keys) && Survivors(r, order) != Latest(r, keys)
  {
    var j :| j in keys && j != k && Related(r, k, j, 0);
    Flip(r.cmp, r.read(k).value, r.read(j).value);
    var rest := SomeOrder(keys - {j, k});
    var order := [j, k] + rest;
    assert forall i :: 0 <= i < |rest| ==> rest[i] in Elements(rest);
    assert order[0] == j && order[1] == k;
    assert Elements(order) == {j, k} + Elements(rest) == keys;
    hide IsPreorder;
    SecondOfTieStays(r, j, k, rest);
    hide ScanAll;
    assert k in Survivors(r, order) && k !in Latest(r, keys);
  }
}
