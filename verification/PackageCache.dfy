/**
 The package cache (evaluator/package_cache.go): four bounded maps over the package table, each of
 which may drop any entry when it is full. Only the identity columns of a package are modelled.
 */
module PackageCache {
  import opened Sets
  import opened Wrappers
  import opened Text
  import opened Orders
  import Rpm

  datatype Package = Package(id: int, nameId: int, name: string, evra: string)

  /** package joined with package_name, by package ID. */
  type Table = map<int, Package>

  /** How lazy saving and the synchronisation write a package: the EVRA without a zero epoch. */
  ghost predicate Canonical(name: string, evra: string)
  {
    exists n :: Rpm.WellFormed(n) && name == n.name && evra == Rpm.ShowEvra(n, false)
  }

  /** The uniqueness constraints of package and package_name, and the way EVRAs are written. */
  ghost predicate TableOk(db: Table)
  {
    && (forall id :: id in db ==> db[id].id == id && Canonical(db[id].name, db[id].evra))
    && (forall i, j :: i in db && j in db && db[i].name == db[j].name && db[i].evra == db[j].evra ==> i == j)
    && forall i, j :: i in db && j in db ==> (db[i].name == db[j].name <==> db[i].nameId == db[j].nameId)
  }

  /** Rows are added; the identity of a row never changes. */
  ghost predicate Extends(db: Table, db': Table)
  {
    forall id :: id in db ==> id in db' && db'[id] == db[id]
  }

  // ----- keys

  /** The key a package is cached under. */
  function Key(p: Package): string { Rpm.Join(p.name, p.evra, true) }

  /** The name and EVRA that a requested string asks the table for. */
  function Asked(nevra: string): Option<(string, string)>
  {
    match Rpm.Parse(nevra)
    case None => None
    case Some(n) => Some((n.name, Rpm.ShowEvra(n, false)))
  }

  /** The cache key of a row asks the table for that very row exactly when the row is written canonically. */
  lemma KeyAgreesIff(p: Package)
    ensures Asked(Key(p)) == Some((p.name, p.evra)) <==> Canonical(p.name, p.evra)
  {
    hide Rpm.Show, Rpm.ShowEvra, Rpm.Join, Rpm.Parse, Rpm.WellFormed;
    if Canonical(p.name, p.evra) {
      var n :| Rpm.WellFormed(n) && p.name == n.name && p.evra == Rpm.ShowEvra(n, false);
      Rpm.JoinAgreesWithPrint(n, false);
      Rpm.RoundTrip(n, true);
    }
    if Asked(Key(p)) == Some((p.name, p.evra)) {
      var n := Rpm.Parse(Key(p)).value;
      Rpm.ParseAcceptsExactlyPrints(Key(p), n);
    }
  }

  /** A string is the key of the row it asks for exactly when it shows the epoch. */
  lemma AskedByKeyIff(s: string, p: Package)
    requires Asked(s) == Some((p.name, p.evra))
    ensures s == Key(p) <==> s == Rpm.Show(Rpm.Parse(s).value, true)
  {
    hide Rpm.Show, Rpm.ShowEvra, Rpm.Join, Rpm.Parse, Rpm.WellFormed;
    var n := Rpm.Parse(s).value;
    Rpm.ParseAcceptsExactlyPrints(s, n);
    Rpm.JoinAgreesWithPrint(n, false);
  }

  // ----- what the table answers

  function RowById(db: Table, id: int): Option<Package>
  {
    if id in db then Some(db[id]) else None
  }

  ghost function RowByEvra(db: Table, name: string, evra: string): Option<Package>
  {
    if id :| id in db && db[id].name == name && db[id].evra == evra then Some(db[id]) else None
  }

  ghost function RowByNevra(db: Table, nevra: string): Option<Package>
  {
    match Asked(nevra)
    case None => None
    case Some((name, evra)) => RowByEvra(db, name, evra)
  }

  ghost function NameOf(db: Table, nameId: int): Option<string>
  {
    if id :| id in db && db[id].nameId == nameId then Some(db[id].name) else None
  }

  ghost predicate HasName(db: Table, name: string)
  {
    exists id :: id in db && db[id].name == name
  }

  ghost predicate InTable(db: Table, p: Package) { p.id in db && db[p.id] == p }

  lemma OneRow(db: Table, p: Package)
    requires TableOk(db) && InTable(db, p)
    ensures RowByEvra(db, p.name, p.evra) == Some(p) && NameOf(db, p.nameId) == Some(p.name)
    ensures RowByNevra(db, Key(p)) == Some(p)
  {
    hide Asked, Key, Canonical;
    KeyAgreesIff(p);
  }

  // ----- the maps

  function IdOf(p: Package): int { p.id }

  function NameKey(p: Package): string { p.name }

  function NameIdOf(p: Package): int { p.nameId }

  /** Each entry is a row of the table and its key is the row's. */
  ghost predicate Keyed<K>(db: Table, m: map<K, Package>, key: Package -> K)
  {
    forall k :: k in m ==> InTable(db, m[k]) && key(m[k]) == k
  }

  /** Add of a bounded cache: the row is stored under its key; if there was no room, some other entry goes. */
  method Put<K(==)>(ghost db: Table, m: map<K, Package>, size: nat, p: Package, key: Package -> K)
    returns (r: map<K, Package>)
    requires |m| <= size && size > 0 && Keyed(db, m, key) && InTable(db, p)
    ensures |r| <= size && Keyed(db, r, key) && key(p) in r && r[key(p)] == p
    ensures forall k :: k in r && k != key(p) ==> k in m && r[k] == m[k]
  {
    var k := key(p);
    r := m;
    if k !in m && |m| == size {
      assert m.Keys != {};
      var out :| out in m;
      r := m - {out};
      DropSize(m, out);
    }
    PutSize(r, k, p);
    r := r[k := p];
  }

  lemma DropSize<K, V>(m: map<K, V>, k: K)
    requires k in m
    ensures |m - {k}| == |m| - 1
  {
    assert (m - {k}).Keys == m.Keys - {k};
  }

  lemma PutSize<K, V>(m: map<K, V>, k: K, v: V)
    ensures |m[k := v]| == if k in m then |m| else |m| + 1
  {
    assert m[k := v].Keys == m.Keys + {k};
  }

  /** rpm.Vercmp and the text order of the database live elsewhere: some three-way total preorder. */
  type TextOrder = f: (string, string) -> int | IsPreorder(f) witness (a: string, b: string) => 0

  /**
   The row is the greatest one of its name among those added from the k-th on, which is where some row of
   the name was added.
   */
  ghost predicate LatestSince(vercmp: TextOrder, added: seq<Package>, k: nat, row: Package)
  {
    && k < |added| && added[k].name == row.name && row in added[k..]
    && forall j :: k <= j < |added| && added[j].name == row.name ==> vercmp(added[j].evra, row.evra) <= 0
  }

  /** The row of each name is the greatest one added since the name has been resident. */
  ghost predicate Dominates(vercmp: TextOrder, m: map<string, Package>, added: seq<Package>, from: map<string, nat>)
  {
    from.Keys == m.Keys && forall name :: name in m ==> LatestSince(vercmp, added, from[name], m[name])
  }

  /** addLatestByName: a resident row of the name stays unless the new one has a greater EVRA. */
  method PutLatest(ghost db: Table, m: map<string, Package>, size: nat, vercmp: TextOrder, p: Package,
                   ghost added: seq<Package>, ghost from: map<string, nat>)
    returns (r: map<string, Package>, ghost from': map<string, nat>)
    requires |m| <= size && size > 0 && Keyed(db, m, NameKey) && InTable(db, p) && Dominates(vercmp, m, added, from)
    ensures |r| <= size && Keyed(db, r, NameKey) && p.name in r && Dominates(vercmp, r, added + [p], from')
    ensures r[p.name] == if p.name in m && vercmp(p.evra, m[p.name].evra) <= 0 then m[p.name] else p
  {
    hide InTable, Keyed, Dominates, Started, IsPreorder;
    r := m;
    FromKeys(vercmp, m, added, from);
    KeyedNames(db, m);
    if p.name !in m || vercmp(p.evra, m[p.name].evra) > 0 {
      r := Put(db, m, size, p, NameKey);
    }
    from' := Started(from, r.Keys, p.name, |added|);
    StillDominates(vercmp, m, added, from, r, p);
  }

  lemma KeyedNames(db: Table, m: map<string, Package>)
    requires Keyed(db, m, NameKey)
    ensures forall n :: n in m ==> m[n].name == n
  {
    hide InTable;
  }

  /** Where the stay of each resident name began, after the n-th row was added. */
  ghost function Started(from: map<string, nat>, names: set<string>, name: string, n: nat): (r: map<string, nat>)
    requires name in names && names <= from.Keys + {name}
    ensures r.Keys == names && forall k :: k in names ==> r[k] == if k in from then from[k] else n
  {
    map k | k in names :: if k in from then from[k] else n
  }

  lemma FromKeys(vercmp: TextOrder, m: map<string, Package>, added: seq<Package>, from: map<string, nat>)
    requires Dominates(vercmp, m, added, from)
    ensures from.Keys == m.Keys
  {
  }

  /** One more row: the latest of its name is the old one or, if it is greater or the first, the new one. */
  lemma LatestMore(vercmp: TextOrder, added: seq<Package>, k: nat, row: Package, p: Package)
    requires LatestSince(vercmp, added, k, row)
    ensures var latest := if p.name == row.name && vercmp(p.evra, row.evra) > 0 then p else row;
            LatestSince(vercmp, added + [p], k, latest)
  {
    hide IsPreorder;
    var latest := if p.name == row.name && vercmp(p.evra, row.evra) > 0 then p else row;
    assert (added + [p])[k..] == added[k..] + [p];
    Flip(vercmp, p.evra, p.evra);
    Flip(vercmp, p.evra, row.evra);
    forall j | k <= j < |added + [p]| && (added + [p])[j].name == latest.name
      ensures vercmp((added + [p])[j].evra, latest.evra) <= 0 {
      if j < |added| && latest == p && p != row {
        StrictlyBelow(vercmp, added[j].evra, row.evra, p.evra);
      }
    }
  }

  lemma LatestFirst(vercmp: TextOrder, added: seq<Package>, p: Package)
    ensures LatestSince(vercmp, added + [p], |added|, p)
  {
    hide IsPreorder;
    Flip(vercmp, p.evra, p.evra);
  }

  lemma StillDominates(vercmp: TextOrder, m: map<string, Package>, added: seq<Package>, from: map<string, nat>,
                       r: map<string, Package>, p: Package)
    requires Dominates(vercmp, m, added, from) && p.name in r
    requires forall n :: n in m ==> m[n].name == n
    requires r[p.name] == if p.name in m && vercmp(p.evra, m[p.name].evra) <= 0 then m[p.name] else p
    requires forall n :: n in r && n != p.name ==> n in m && r[n] == m[n]
    ensures Dominates(vercmp, r, added + [p], Started(from, r.Keys, p.name, |added|))
  {
    hide LatestSince, IsPreorder;
    forall n | n in r ensures LatestSince(vercmp, added + [p], Started(from, r.Keys, p.name, |added|)[n], r[n]) {
      if n in m {
        LatestMore(vercmp, added, from[n], m[n], p);
      } else {
        LatestFirst(vercmp, added, p);
      }
    }
  }

  method PutById(ghost db: Table, m: map<int, Package>, size: nat, p: Package) returns (r: map<int, Package>)
    requires |m| <= size && size > 0 && Keyed(db, m, IdOf) && InTable(db, p)
    ensures |r| <= size && Keyed(db, r, IdOf) && p.id in r
  {
    hide InTable, Keyed;
    r := Put(db, m, size, p, IdOf);
  }

  method PutByNevra(ghost db: Table, m: map<string, Package>, size: nat, p: Package) returns (r: map<string, Package>)
    requires |m| <= size && size > 0 && Keyed(db, m, Key) && InTable(db, p)
    ensures |r| <= size && Keyed(db, r, Key) && Key(p) in r
  {
    hide InTable, Keyed;
    r := Put(db, m, size, p, Key);
  }

  /** addNameByID: a resident row of the name ID stays. */
  method PutName(ghost db: Table, m: map<int, Package>, size: nat, p: Package) returns (r: map<int, Package>)
    requires |m| <= size && size > 0 && Keyed(db, m, NameIdOf) && InTable(db, p)
    ensures |r| <= size && Keyed(db, r, NameIdOf) && p.nameId in r
  {
    hide InTable, Keyed;
    r := m;
    if p.nameId !in m {
      r := Put(db, m, size, p, NameIdOf);
    }
  }

  /** The rows found in the cache and the strings it does not hold. */
  method Resident(ghost db: Table, byNevra: map<string, Package>, nevras: seq<string>)
    returns (cached: seq<Package>, unknown: seq<string>)
    requires TableOk(db) && Keyed(db, byNevra, Key)
    ensures ResidentSplit(db, nevras, cached, unknown)
  {
    hide Key, Asked, RowByNevra, Rpm.Parse, TableOk, ResidentSplit;
    cached, unknown := [], [];
    assert ResidentSplit(db, [], [], []) by { NothingToSplit(db); }
    for i := 0 to |nevras|
      invariant ResidentSplit(db, nevras[..i], cached, unknown)
    {
      assert nevras[..i + 1] == nevras[..i] + [nevras[i]];
      if nevras[i] in byNevra {
        OneRow(db, byNevra[nevras[i]]);
        SplitCached(db, nevras[..i], cached, unknown, byNevra[nevras[i]]);
        cached := cached + [byNevra[nevras[i]]];
      } else {
        SplitUnknown(db, nevras[..i], cached, unknown, nevras[i]);
        unknown := unknown + [nevras[i]];
      }
    }
    assert nevras[..|nevras|] == nevras;
  }

  /** A row that was handed out was added, or nothing was. */
  ghost predicate AtMostOne(added: seq<Package>, more: seq<Package>, r: Option<Package>)
  {
    more == added || (r.Some? && more == added + [r.value])
  }

  /** Only rows that were handed out were added. */
  ghost predicate AllFrom(added: seq<Package>, more: seq<Package>, rows: seq<Package>)
  {
    added <= more && forall j :: |added| <= j < |more| ==> more[j] in rows
  }

  /** No map holds more than it may. */
  ghost predicate Bounded(size: nat, byId: map<int, Package>, byText: map<string, Package>)
  {
    size > 0 && |byId| <= size && |byText| <= size
  }

  class Cache {
    const size: nat
    const nameSize: nat
    var byID: map<int, Package>
    var byNevra: map<string, Package>
    var latestByName: map<string, Package>
    var nameByID: map<int, Package>
    const vercmp: TextOrder
    /** Every row added, and where in it the stay of each name in latestByName began. */
    ghost var added: seq<Package>
    ghost var from: map<string, nat>

    /** Each entry is a row of the table under the row's own key. */
    ghost predicate Valid(db: Table)
      reads this
    {
      && Bounded(size, byID, byNevra) && Bounded(nameSize, nameByID, latestByName)
      && Keyed(db, byID, IdOf) && Keyed(db, byNevra, Key) && Keyed(db, latestByName, NameKey)
         && Keyed(db, nameByID, NameIdOf)
      && Dominates(vercmp, latestByName, added, from)
    }

    constructor (size: nat, nameSize: nat, vercmp: TextOrder)
      requires size > 0 && nameSize > 0
      ensures (forall db :: Valid(db)) && added == []
      ensures this.size == size && this.nameSize == nameSize && this.vercmp == vercmp
    {
      this.size, this.nameSize, this.vercmp := size, nameSize, vercmp;
      byID, byNevra, latestByName, nameByID := map[], map[], map[], map[];
      added, from := [], map[];
    }

    /** Adds a row to all four maps; the latest one of a name is replaced only by a greater EVRA. */
    method Add(db: Table, p: Package)
      requires Valid(db) && InTable(db, p)
      modifies this
      ensures Valid(db)
      ensures p.id in byID && Key(p) in byNevra && p.name in latestByName && p.nameId in nameByID
      ensures latestByName[p.name]
              == if p.name in old(latestByName) && vercmp(p.evra, old(latestByName)[p.name].evra) <= 0
                 then old(latestByName)[p.name] else p
      ensures added == old(added) + [p]
    {
      hide InTable, Key, Keyed, Dominates, IsPreorder;
      var ids := PutById(db, byID, size, p);
      var nevras := PutByNevra(db, byNevra, size, p);
      var latest, more := PutLatest(db, latestByName, nameSize, vercmp, p, added, from);
      var names := PutName(db, nameByID, nameSize, p);
      byID, byNevra, latestByName, nameByID := ids, nevras, latest, names;
      added, from := added + [p], more;
    }

    method GetByID(db: Table, id: int) returns (r: Option<Package>)
      requires TableOk(db) && Valid(db)
      modifies this
      ensures Valid(db) && r == RowById(db, id) && AtMostOne(old(added), added, r)
      ensures r == if id in db then Some(db[id]) else None
    {
      if id in byID {
        return Some(byID[id]);
      }
      r := RowById(db, id);
      if r.Some? {
        Add(db, r.value);
      }
    }

    method GetByNevra(db: Table, nevra: string) returns (r: Option<Package>)
      requires TableOk(db) && Valid(db)
      modifies this
      ensures Valid(db) && r == RowByNevra(db, nevra) && AtMostOne(old(added), added, r)
    {
      hide Key, Asked, RowByNevra;
      if nevra in byNevra {
        OneRow(db, byNevra[nevra]);
        return Some(byNevra[nevra]);
      }
      r := ReadByNevra(db, nevra);
      if r.Some? {
        Add(db, r.value);
      }
    }

    /**
     A hit is the greatest by version of the rows of the name added since the name has been resident;
     otherwise the answer is the greatest row of the name in the text order of the table, and is added.
     */
    method GetLatestByName(db: Table, collate: TextOrder, name: string) returns (r: Option<Package>)
      requires TableOk(db) && Valid(db)
      modifies this
      ensures Valid(db) && (r.Some? <==> HasName(db, name))
      ensures r.Some? ==> InTable(db, r.value) && r.value.name == name
      ensures name in old(latestByName) ==>
                added == old(added) && name in from && r.Some? && LatestSince(vercmp, added, from[name], r.value)
      ensures name !in old(latestByName) ==>
                if r.Some? then TextLatest(db, collate, r.value) && added == old(added) + [r.value]
                else added == old(added)
      ensures name !in old(latestByName) && r.Some? ==>
                forall id :: id in db && db[id].name == name ==> collate(db[id].evra, r.value.evra) <= 0
      ensures r.None? ==> forall id :: id in db ==> db[id].name != name
    {
      hide Key;
      if name in latestByName {
        return Some(latestByName[name]);
      }
      r := ReadLatestByName(db, collate, name);
      hide TextLatest;
      if r.Some? {
        Add(db, r.value);
      }
    }

    method GetNameByID(db: Table, id: int) returns (r: Option<string>)
      requires TableOk(db) && Valid(db)
      modifies this
      ensures Valid(db) && r == NameOf(db, id)
      ensures forall name :: r == Some(name) <==>
              exists row :: row in db && db[row].nameId == id && db[row].name == name
      ensures added == old(added) || (|added| == |old(added)| + 1 && old(added) <= added
                                      && added[|old(added)|].nameId == id)
    {
      hide Key, RowByNevra;
      if id in nameByID {
        OneRow(db, nameByID[id]);
        return Some(nameByID[id].name);
      }
      if row :| row in db && db[row].nameId == id {
        OneRow(db, db[row]);
        Add(db, db[row]);
        return Some(db[row].name);
      }
      r := None;
    }

    /**
     Looks up many strings at once: the rows they ask for, and the ones reported as missing. A string
     is missing exactly when it parses and is not the key of the row it asks for.
     */
    method GetByNevras(db: Table, nevras: seq<string>)
      returns (found: seq<Package>, missing: map<string, Rpm.Nevra>, any: bool)
      requires TableOk(db) && Valid(db)
      modifies this
      ensures Valid(db)
      ensures forall p :: p in found <==> exists k :: k in nevras && RowByNevra(db, k) == Some(p)
      ensures forall k :: k in missing <==> k in nevras && Missing(db, k)
      ensures forall k :: k in missing ==> Rpm.Parse(k) == Some(missing[k])
      ensures any <==> found != [] || nevras == []
      ensures AllFrom(old(added), added, found)
    {
      hide Key, Asked, RowByNevra, Missing, Rpm.Parse, TableOk;
      var cached, unknown := Resident(db, byNevra, nevras);
      if unknown == [] {
        AllResident(db, nevras, cached);
        return cached, map[], true;
      }
      var rows;
      rows, missing := ReadByNevras(db, unknown);
      AddAll(db, rows);
      found := rows + cached;
      any := |found| > 0;
      SplitLookup(db, nevras, cached, unknown, rows);
      forall k | k in nevras && k !in unknown ensures !Missing(db, k) {
        ResidentIsThere(db, cached, k);
      }
    }

    method AddAll(db: Table, rows: seq<Package>)
      requires Valid(db) && forall p :: p in rows ==> InTable(db, p)
      modifies this
      ensures Valid(db) && added == old(added) + rows
    {
      hide Key, InTable, IsPreorder, Cache.Valid;
      for i := 0 to |rows|
        invariant Valid(db) && added == old(added) + rows[..i]
      {
        assert rows[i] in rows;
        assert rows[..i + 1] == rows[..i] + [rows[i]];
        Add(db, rows[i]);
      }
      assert rows[..|rows|] == rows;
    }
  }

  /** Each string was either resolved to a row under its key, or is left over. */
  ghost predicate ResidentSplit(db: Table, nevras: seq<string>, cached: seq<Package>, unknown: seq<string>)
  {
    && (forall k :: k in unknown ==> k in nevras)
    && (forall p :: p in cached ==> InTable(db, p) && RowByNevra(db, Key(p)) == Some(p) && Key(p) in nevras)
    && (forall k :: k in nevras && k !in unknown ==> exists p :: p in cached && Key(p) == k)
    && |nevras| == |cached| + |unknown|
  }

  lemma NothingToSplit(db: Table)
    ensures ResidentSplit(db, [], [], [])
  {
  }

  lemma SplitCached(db: Table, nevras: seq<string>, cached: seq<Package>, unknown: seq<string>, p: Package)
    requires ResidentSplit(db, nevras, cached, unknown) && InTable(db, p) && RowByNevra(db, Key(p)) == Some(p)
    ensures ResidentSplit(db, nevras + [Key(p)], cached + [p], unknown)
  {
    hide RowByNevra, Key, InTable;
    forall k | k in nevras + [Key(p)] && k !in unknown ensures exists q :: q in cached + [p] && Key(q) == k {
      assert p in cached + [p];
      if k in nevras {
        var q :| q in cached && Key(q) == k;
        assert q in cached + [p];
      }
    }
  }

  lemma SplitUnknown(db: Table, nevras: seq<string>, cached: seq<Package>, unknown: seq<string>, k: string)
    requires ResidentSplit(db, nevras, cached, unknown)
    ensures ResidentSplit(db, nevras + [k], cached, unknown + [k])
  {
    hide RowByNevra, Key, InTable;
  }

  ghost predicate Missing(db: Table, nevra: string)
  {
    Rpm.Parse(nevra).Some? && (RowByNevra(db, nevra).Some? ==> nevra != Key(RowByNevra(db, nevra).value))
  }

  lemma ResidentIsThere(db: Table, cached: seq<Package>, k: string)
    requires forall p :: p in cached ==> RowByNevra(db, Key(p)) == Some(p)
    requires exists p :: p in cached && Key(p) == k
    ensures !Missing(db, k)
  {
    hide Rpm.Parse, RowByNevra, Key;
  }

  lemma AllResident(db: Table, nevras: seq<string>, cached: seq<Package>)
    requires ResidentSplit(db, nevras, cached, [])
    ensures forall p :: p in cached <==> exists k :: k in nevras && RowByNevra(db, k) == Some(p)
    ensures forall k :: k in nevras ==> !Missing(db, k)
    ensures cached == [] ==> nevras == []
  {
    hide Rpm.Parse, RowByNevra, Key, Missing;
    forall k | k in nevras ensures !Missing(db, k) { ResidentIsThere(db, cached, k); }
    forall p | exists k :: k in nevras && RowByNevra(db, k) == Some(p) ensures p in cached {
      var k :| k in nevras && RowByNevra(db, k) == Some(p);
      var q :| q in cached && Key(q) == k;
    }
  }

  lemma SplitLookup(db: Table, nevras: seq<string>, cached: seq<Package>, unknown: seq<string>, rows: seq<Package>)
    requires ResidentSplit(db, nevras, cached, unknown)
    requires forall p :: p in rows <==> exists k :: k in unknown && RowByNevra(db, k) == Some(p)
    ensures forall p :: p in rows + cached <==> exists k :: k in nevras && RowByNevra(db, k) == Some(p)
  {
    hide RowByNevra, Key;
    forall p ensures p in rows + cached <==> exists k :: k in nevras && RowByNevra(db, k) == Some(p) {
      if k :| k in nevras && RowByNevra(db, k) == Some(p) {
        if k !in unknown {
          var q :| q in cached && Key(q) == k;
        }
      }
      if p in rows {
        var k :| k in unknown && RowByNevra(db, k) == Some(p);
      }
    }
  }

  /** A string that shows its epoch is missing exactly when the table has no row for it. */
  lemma MissingIffNoRow(db: Table, n: Rpm.Nevra)
    requires TableOk(db) && Rpm.WellFormed(n)
    ensures Missing(db, Rpm.Show(n, true)) <==> RowByEvra(db, n.name, Rpm.ShowEvra(n, false)).None?
  {
    hide Rpm.Show, Rpm.ShowEvra, Rpm.Join, Rpm.Parse, Rpm.WellFormed, Canonical;
    Rpm.RoundTrip(n, true);
    var s := Rpm.Show(n, true);
    if RowByNevra(db, s).Some? {
      AskedByKeyIff(s, RowByNevra(db, s).value);
    }
  }

  /** A string is missing exactly when it parses and either hides its epoch or has no row. */
  lemma MissingExactly(db: Table, s: string)
    requires TableOk(db)
    ensures Missing(db, s) <==>
            exists n :: Rpm.Parse(s) == Some(n)
              && (s != Rpm.Show(n, true)
                  || forall id :: id in db ==> !(db[id].name == n.name && db[id].evra == Rpm.ShowEvra(n, false)))
  {
    hide Rpm.Show, Rpm.ShowEvra, Rpm.Join, Rpm.Parse, Canonical, Key;
    if Rpm.Parse(s).Some? {
      var n := Rpm.Parse(s).value;
      if RowByNevra(db, s).Some? {
        AskedByKeyIff(s, RowByNevra(db, s).value);
      }
    }
  }

  method ReadByNevra(db: Table, nevra: string) returns (r: Option<Package>)
    requires TableOk(db)
    ensures r == RowByNevra(db, nevra) && (r.Some? ==> InTable(db, r.value))
  {
    hide Asked;
    var asked := Asked(nevra);
    if asked.None? {
      return None;
    }
    if id :| id in db && db[id].name == asked.value.0 && db[id].evra == asked.value.1 {
      return Some(db[id]);
    }
    r := None;
  }

  /** No row of the name comes after this one in the text order. */
  ghost predicate TextLatest(db: Table, collate: TextOrder, p: Package)
  {
    forall id :: id in db && db[id].name == p.name ==> collate(db[id].evra, p.evra) <= 0
  }

  /** The first row of the name by descending EVRA, as the table orders text. */
  method ReadLatestByName(db: Table, collate: TextOrder, name: string) returns (r: Option<Package>)
    requires TableOk(db)
    ensures r.Some? <==> HasName(db, name)
    ensures r.Some? ==> InTable(db, r.value) && r.value.name == name && TextLatest(db, collate, r.value)
    ensures r.None? ==> forall id :: id in db ==> db[id].name != name
    ensures r.Some? ==> forall id :: id in db && db[id].name == name ==> collate(db[id].evra, r.value.evra) <= 0
  {
    hide Canonical, IsPreorder;
    r := None;
    var rest := db.Keys;
    while rest != {}
      invariant rest <= db.Keys
      invariant r.Some? <==> exists id :: id in db && id !in rest && db[id].name == name
      invariant r.Some? ==> InTable(db, r.value) && r.value.name == name
      invariant r.Some? ==> forall id :: id in db && id !in rest && db[id].name == name ==>
                collate(db[id].evra, r.value.evra) <= 0
    {
      SomeElement(rest);
      var id :| id in rest;
      rest := rest - {id};
      if db[id].name == name {
        AtMostItself(collate, db[id].evra);
        if r.None? {
          r := Some(db[id]);
        } else if collate(db[id].evra, r.value.evra) > 0 {
          BelowTheGreater(db, collate, name, rest + {id}, r.value.evra, db[id].evra);
          r := Some(db[id]);
        }
      }
    }
  }

  lemma AtMostItself(collate: TextOrder, evra: string)
    ensures collate(evra, evra) == 0
  {
    Flip(collate, evra, evra);
  }

  lemma BelowTheGreater(db: Table, collate: TextOrder, name: string, rest: set<int>, was: string, now: string)
    requires collate(now, was) > 0
    requires forall id :: id in db && id !in rest && db[id].name == name ==> collate(db[id].evra, was) <= 0
    ensures forall id :: id in db && id !in rest && db[id].name == name ==> collate(db[id].evra, now) <= 0
  {
    Flip(collate, now, was);
    forall id | id in db && id !in rest && db[id].name == name ensures collate(db[id].evra, now) <= 0 {
      StrictlyBelow(collate, db[id].evra, was, now);
    }
  }

  lemma RowIff(db: Table, k: string, p: Package)
    requires TableOk(db)
    ensures RowByNevra(db, k) == Some(p) <==> InTable(db, p) && Asked(k) == Some((p.name, p.evra))
  {
    hide Asked, Canonical;
  }

  /** A string asks for the row with its name and its EVRA, which shows the epoch only if it is not zero. */
  lemma RowAskedFor(db: Table, k: string, p: Package)
    requires TableOk(db)
    ensures RowByNevra(db, k) == Some(p) <==>
            && p.id in db && db[p.id] == p
            && exists n :: Rpm.Parse(k) == Some(n) && p.name == n.name
                 && p.evra == (if n.epoch != 0 then IntText(n.epoch) + ":" else "")
                              + n.version + "-" + n.release + "." + n.arch
  {
    hide Rpm.Parse, Canonical;
    RowIff(db, k, p);
    if Rpm.Parse(k).Some? {
      var n := Rpm.Parse(k).value;
      assert Rpm.ShowEvra(n, false)
          == (if n.epoch != 0 then IntText(n.epoch) + ":" else "") + n.version + "-" + n.release + "." + n.arch;
    }
  }

  /** The rows whose name and EVRA one of the strings asks for, each of them once. */
  method SelectRows(db: Table, wanted: set<(string, string)>) returns (rows: seq<Package>)
    requires TableOk(db)
    ensures forall p :: p in rows <==> InTable(db, p) && (p.name, p.evra) in wanted
  {
    hide Canonical;
    rows := [];
    var rest := db.Keys;
    while rest != {}
      invariant rest <= db.Keys
      invariant forall p :: p in rows <==> InTable(db, p) && p.id !in rest && (p.name, p.evra) in wanted
    {
      SomeElement(rest);
      var id :| id in rest;
      if (db[id].name, db[id].evra) in wanted {
        rows := rows + [db[id]];
      }
      rest := rest - {id};
    }
  }

  /** The parsed strings that are not the key of any row found. */
  method NotFound(parsed: map<string, Rpm.Nevra>, rows: seq<Package>) returns (missing: map<string, Rpm.Nevra>)
    ensures forall k :: k in missing <==> k in parsed && forall p :: p in rows ==> Key(p) != k
    ensures forall k :: k in missing ==> missing[k] == parsed[k]
  {
    hide Key;
    var resNevras: set<string> := {};
    for i := 0 to |rows|
      invariant forall k :: k in resNevras <==> exists j :: 0 <= j < i && Key(rows[j]) == k
    {
      resNevras := resNevras + {Key(rows[i])};
    }
    missing := map k | k in parsed && k !in resNevras :: parsed[k];
  }

  lemma MissingIff(db: Table, nevras: seq<string>, rows: seq<Package>, k: string)
    requires TableOk(db) && k in nevras
    requires forall p :: p in rows <==> exists q :: q in nevras && RowByNevra(db, q) == Some(p)
    ensures Missing(db, k) <==> Rpm.Parse(k).Some? && forall p :: p in rows ==> Key(p) != k
  {
    hide Key, Asked, Rpm.Parse, RowByNevra, Canonical;
    forall p | p in rows && Key(p) == k ensures RowByNevra(db, k) == Some(p) {
      var q :| q in nevras && RowByNevra(db, q) == Some(p);
      RowIff(db, q, p);
      OneRow(db, p);
    }
  }

  lemma SelectedIff(db: Table, nevras: seq<string>, wanted: set<(string, string)>, p: Package)
    requires TableOk(db)
    requires forall w :: w in wanted <==> exists k :: k in nevras && Asked(k) == Some(w)
    ensures InTable(db, p) && (p.name, p.evra) in wanted <==> exists k :: k in nevras && RowByNevra(db, k) == Some(p)
  {
    hide Asked, RowByNevra, TableOk;
    if k :| k in nevras && RowByNevra(db, k) == Some(p) {
      RowIff(db, k, p);
    }
    if InTable(db, p) && (p.name, p.evra) in wanted {
      var k :| k in nevras && Asked(k) == Some((p.name, p.evra));
      RowIff(db, k, p);
    }
  }

  method ParseAll(nevras: seq<string>) returns (parsed: map<string, Rpm.Nevra>, wanted: set<(string, string)>)
    ensures forall k :: k in parsed <==> k in nevras && Rpm.Parse(k).Some?
    ensures forall k :: k in parsed ==> Rpm.Parse(k) == Some(parsed[k])
    ensures forall w :: w in wanted <==> exists k :: k in nevras && Asked(k) == Some(w)
  {
    parsed, wanted := map[], {};
    for i := 0 to |nevras|
      invariant forall k :: k in parsed <==> (exists j :: 0 <= j < i && nevras[j] == k) && Rpm.Parse(k).Some?
      invariant forall k :: k in parsed ==> Rpm.Parse(k) == Some(parsed[k])
      invariant forall w :: w in wanted <==> exists j :: 0 <= j < i && Asked(nevras[j]) == Some(w)
    {
      hide Rpm.Parse, Rpm.ShowEvra;
      var n := Rpm.Parse(nevras[i]);
      if n.Some? {
        parsed := parsed[nevras[i] := n.value];
        wanted := wanted + {(n.value.name, Rpm.ShowEvra(n.value, false))};
      }
    }
  }

  /** One query for many strings. */
  method ReadByNevras(db: Table, nevras: seq<string>) returns (rows: seq<Package>, missing: map<string, Rpm.Nevra>)
    requires TableOk(db)
    ensures forall p :: p in rows ==> InTable(db, p)
    ensures forall p :: p in rows <==> exists k :: k in nevras && RowByNevra(db, k) == Some(p)
    ensures forall k :: k in missing <==> k in nevras && Missing(db, k)
    ensures forall k :: k in missing ==> Rpm.Parse(k) == Some(missing[k])
  {
    hide Key, Asked, Rpm.Parse, RowByNevra, Missing, TableOk;
    var parsed, wanted := ParseAll(nevras);
    rows := SelectRows(db, wanted);
    forall p ensures InTable(db, p) && (p.name, p.evra) in wanted <==>
        exists k :: k in nevras && RowByNevra(db, k) == Some(p) {
      SelectedIff(db, nevras, wanted, p);
    }
    missing := NotFound(parsed, rows);
    forall k | k in nevras
      ensures Missing(db, k) <==> Rpm.Parse(k).Some? && forall p :: p in rows ==> Key(p) != k {
      MissingIff(db, nevras, rows, k);
    }
  }

  // ----- over time

  /** What is cached stays right when rows are added to the table. */
  lemma KeyedGrows<K>(db: Table, db': Table, m: map<K, Package>, key: Package -> K)
    requires Keyed(db, m, key) && Extends(db, db')
    ensures Keyed(db', m, key)
  {
  }

  datatype Request =
    | ById(id: int)
    | ByNevra(nevra: string)
    | ByNevras(nevras: seq<string>)
    | NameById(nameId: int)
    | LatestByName(name: string)
    | AddRow(id: int)

  datatype Answer =
    | Row(row: Option<Package>)
    | Rows(found: seq<Package>, missing: map<string, Rpm.Nevra>, any: bool)
    | Name(text: Option<string>)
    | Added

  /** The answer a direct read of the table gives; for the latest of a name, some row of that name. */
  ghost predicate Direct(db: Table, q: Request, a: Answer)
  {
    match q
    case ById(id) => a == Row(RowById(db, id))
    case ByNevra(s) => a == Row(RowByNevra(db, s))
    case NameById(id) => a == Name(NameOf(db, id))
    case LatestByName(name) =>
      && a.Row? && (a.row.Some? <==> HasName(db, name))
      && (a.row.Some? ==> InTable(db, a.row.value) && a.row.value.name == name)
    case ByNevras(nevras) => a.Rows? && DirectRows(db, nevras, a.found, a.missing, a.any)
    case AddRow(_) => a == Added
  }

  /**
   What the request adds, and which row it answers for the latest of a name: a resident one, the greatest
   by version of those added since some addition of the name, or the greatest in text order, now added.
   */
  ghost predicate Logged(vercmp: TextOrder, collate: TextOrder, db: Table, q: Request, a: Answer,
                         added: seq<Package>, more: seq<Package>)
    requires Direct(db, q, a)
  {
    match q
    case AddRow(id) => more == if id in db then added + [db[id]] else added
    case LatestByName(name) =>
      if a.row.None? then more == added
      else
        || (more == added && exists k :: LatestSince(vercmp, added, k, a.row.value))
        || (more == added + [a.row.value] && TextLatest(db, collate, a.row.value))
    case NameById(id) => more == added || (|more| == |added| + 1 && added <= more && more[|added|].nameId == id)
    case ByNevras(_) => AllFrom(added, more, a.found)
    case _ => AtMostOne(added, more, a.row)
  }

  ghost predicate DirectRows(db: Table, nevras: seq<string>, found: seq<Package>, missing: map<string, Rpm.Nevra>,
                             any: bool)
  {
    && (forall p :: p in found <==> exists k :: k in nevras && RowByNevra(db, k) == Some(p))
    && (forall k :: k in missing <==> k in nevras && Missing(db, k))
    && (forall k :: k in missing ==> Rpm.Parse(k) == Some(missing[k]))
    && (any <==> found != [] || nevras == [])
  }

  /**
   Transparency: over any sequence of requests against a growing table, with whatever is evicted in
   between, every answer is the one the table gives at that moment, and the latest row of a name is judged
   by the rows added so far.
   */
  method Session(cache: Cache, collate: TextOrder, dbs: seq<Table>, requests: seq<Request>)
    returns (answers: seq<Answer>, ghost logs: seq<seq<Package>>)
    requires |dbs| == |requests|
    requires forall i :: 0 <= i < |dbs| ==> TableOk(dbs[i])
    requires forall i :: 0 <= i < |dbs| - 1 ==> Extends(dbs[i], dbs[i + 1])
    requires dbs != [] ==> cache.Valid(dbs[0])
    modifies cache
    ensures |answers| == |requests|
    ensures forall i :: 0 <= i < |requests| ==> Direct(dbs[i], requests[i], answers[i])
    ensures |logs| == |requests| + 1 && logs[0] == old(cache.added)
    ensures forall i :: 0 <= i < |requests| ==>
              Logged(cache.vercmp, collate, dbs[i], requests[i], answers[i], logs[i], logs[i + 1])
  {
    hide TableOk, Extends, Direct, Logged, Cache.Valid, IsPreorder;
    answers, logs := [], [cache.added];
    for i := 0 to |requests|
      invariant |answers| == i
      invariant i < |requests| ==> cache.Valid(dbs[i])
      invariant forall j :: 0 <= j < i ==> Direct(dbs[j], requests[j], answers[j])
      invariant |logs| == i + 1 && logs[0] == old(cache.added) && logs[i] == cache.added
      invariant forall j :: 0 <= j < i ==>
                  Logged(cache.vercmp, collate, dbs[j], requests[j], answers[j], logs[j], logs[j + 1])
    {
      var a := AnswerOne(cache, collate, dbs[i], requests[i]);
      answers, logs := answers + [a], logs + [cache.added];
      if i + 1 < |requests| {
        assert Extends(dbs[i], dbs[i + 1]);
        ValidGrows(cache, dbs[i], dbs[i + 1]);
      }
    }
  }

  lemma ValidGrows(cache: Cache, db: Table, db': Table)
    requires cache.Valid(db) && Extends(db, db')
    ensures cache.Valid(db')
  {
    hide Keyed, Extends;
    KeyedGrows(db, db', cache.byID, IdOf);
    KeyedGrows(db, db', cache.byNevra, Key);
    KeyedGrows(db, db', cache.latestByName, NameKey);
    KeyedGrows(db, db', cache.nameByID, NameIdOf);
  }

  lemma RowOfTable(db: Table, id: int)
    requires TableOk(db) && id in db
    ensures InTable(db, db[id])
  {
  }

  method AnswerOne(cache: Cache, collate: TextOrder, db: Table, q: Request) returns (a: Answer)
    requires TableOk(db) && cache.Valid(db)
    modifies cache
    ensures cache.Valid(db) && Direct(db, q, a)
    ensures Logged(cache.vercmp, collate, db, q, a, old(cache.added), cache.added)
  {
    hide LatestSince, IsPreorder, AllFrom, AtMostOne, TableOk, Cache.Valid, RowByNevra, RowById, NameOf, HasName,
         InTable, Missing, TextLatest, Rpm.Parse;
    match q {
      case ById(id) => var r := cache.GetByID(db, id); a := Row(r);
      case ByNevra(s) => var r := cache.GetByNevra(db, s); a := Row(r);
      case NameById(id) => var t := cache.GetNameByID(db, id); a := Name(t);
      case LatestByName(name) => var r := cache.GetLatestByName(db, collate, name); a := Row(r);
      case ByNevras(nevras) =>
        var found, missing, any := cache.GetByNevras(db, nevras);
        a := Rows(found, missing, any);
      case AddRow(id) =>
        if id in db {
          RowOfTable(db, id);
          cache.Add(db, db[id]);
        }
        a := Added;
    }
  }
}
