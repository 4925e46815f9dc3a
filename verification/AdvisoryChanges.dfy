/**
 Classifying and storing a system's advisories, and the deltas for the account counts
 (evaluator/evaluate_advisories.go).
 */
module AdvisoryChanges {
  import opened Sets
  import opened Wrappers
  import opened Vmaas

  datatype Change = Keep | Add | Update | Remove

  datatype SystemAdvisory = SystemAdvisory(advisoryId: int, status: Status)
  datatype Extended = Extended(change: Change, advisory: SystemAdvisory)

  type StoredMap = map<string, SystemAdvisory>
  type ExtendedMap = map<string, Extended>

  // ----- classification

  predicate AllKnown(reported: map<string, Status>, stored: StoredMap, metadata: map<string, int>)
  {
    forall n :: n in reported && n !in stored ==> n in metadata
  }

  function ChangeOf(reported: map<string, Status>, stored: StoredMap, metadata: map<string, int>, n: string): Extended
    requires n in reported || n in stored
    requires n in reported && n !in stored ==> n in metadata
  {
    if n !in reported then Extended(Remove, stored[n])
    else if n !in stored then Extended(Add, SystemAdvisory(metadata[n], reported[n]))
    else Extended(if reported[n] != stored[n].status then Change.Update else Keep,
                  SystemAdvisory(stored[n].advisoryId, reported[n]))
  }

  function Changes(reported: map<string, Status>, stored: StoredMap, metadata: map<string, int>): Option<ExtendedMap>
  {
    if AllKnown(reported, stored, metadata) then
      Some(map n | n in reported.Keys + stored.Keys :: ChangeOf(reported, stored, metadata, n))
    else
      None
  }

  /** What the first loop of evaluateChanges records for a reported name: an added one still lacks its ID. */
  function Draft(reported: map<string, Status>, stored: StoredMap, n: string): Extended
    requires n in reported
  {
    if n in stored then ChangeOf(reported, stored, map[], n) else Extended(Add, SystemAdvisory(0, reported[n]))
  }

  method ClassifyReported(reported: map<string, Status>, stored: StoredMap)
    returns (extended: ExtendedMap, missingNames: seq<string>)
    ensures extended == map n | n in reported :: Draft(reported, stored, n)
    ensures forall n :: n in missingNames <==> n in reported && n !in stored
  {
    extended := map[];
    missingNames := [];
    var rest := reported.Keys;
    while rest != {}
      invariant rest <= reported.Keys && extended.Keys == reported.Keys - rest
      invariant forall n :: n in missingNames <==> n in extended && n !in stored
      invariant forall n :: n in extended ==> extended[n] == Draft(reported, stored, n)
    {
      var name :| name in rest;
      if name in stored {
        if reported[name] != stored[name].status {
          extended := extended[name := Extended(Change.Update, stored[name].(status := reported[name]))];
        } else {
          extended := extended[name := Extended(Keep, stored[name])];
        }
      } else {
        extended := extended[name := Extended(Add, SystemAdvisory(0, reported[name]))];
        missingNames := missingNames + [name];
      }
      rest := rest - {name};
    }
  }

  /** loadMissingNamesIDs; found is false when a name has no metadata. */
  method LoadMissingNamesIDs(missingNames: seq<string>, metadata: map<string, int>, drafts: ExtendedMap)
    returns (extended: ExtendedMap, found: bool)
    requires forall n :: n in missingNames ==> n in drafts
    ensures found <==> forall n :: n in missingNames ==> n in metadata
    ensures found ==> extended.Keys == drafts.Keys
    ensures found ==> forall n :: n in drafts ==>
              extended[n] == if n in missingNames
                             then drafts[n].(advisory := SystemAdvisory(metadata[n], drafts[n].advisory.status))
                             else drafts[n]
  {
    extended := drafts;
    for i := 0 to |missingNames|
      invariant extended.Keys == drafts.Keys
      invariant forall j :: 0 <= j < i ==> missingNames[j] in metadata
      invariant forall n :: n in drafts ==>
                  extended[n] == if n in missingNames[..i]
                                 then drafts[n].(advisory := SystemAdvisory(metadata[n], drafts[n].advisory.status))
                                 else drafts[n]
    {
      var name := missingNames[i];
      if name !in metadata {
        return extended, false;
      }
      extended := extended[name := extended[name].(advisory := extended[name].advisory.(advisoryId := metadata[name]))];
      assert missingNames[..i + 1] == missingNames[..i] + [name];
    }
    assert missingNames[..|missingNames|] == missingNames;
    found := true;
  }

  /** evaluateChanges; None stands for the error about an advisory that was not lazy saved. */
  method EvaluateChanges(reported: map<string, Status>, stored: StoredMap, metadata: map<string, int>)
    returns (r: Option<ExtendedMap>)
    ensures r == Changes(reported, stored, metadata)
  {
    var extended, missingNames := ClassifyReported(reported, stored);
    var found;
    extended, found := LoadMissingNamesIDs(missingNames, metadata, extended);
    if !found {
      return None;
    }
    assert AllKnown(reported, stored, metadata);
    hide Changes;
    var rest := stored.Keys;
    while rest != {}
      invariant rest <= stored.Keys && extended.Keys == reported.Keys + (stored.Keys - rest)
      invariant forall n :: n in extended ==> extended[n] == ChangeOf(reported, stored, metadata, n)
    {
      var name :| name in rest;
      if name !in reported {
        extended := extended[name := Extended(Remove, stored[name])];
      }
      rest := rest - {name};
    }
    ChangesByName(reported, stored, metadata, extended);
    r := Some(extended);
  }

  lemma ChangesByName(reported: map<string, Status>, stored: StoredMap, metadata: map<string, int>, ext: ExtendedMap)
    requires AllKnown(reported, stored, metadata) && ext.Keys == reported.Keys + stored.Keys
    requires forall n :: n in ext ==> ext[n] == ChangeOf(reported, stored, metadata, n)
    ensures Some(ext) == Changes(reported, stored, metadata)
  {
    hide ChangeOf;
    assert ext == Changes(reported, stored, metadata).value;
  }

  // ----- storing

  type Rows = map<int, Status>

  /** Whether a change deletes a row, or upserts one. */
  predicate Upserts(e: Extended) { e.change == Add || e.change == Change.Update }

  /** deleteIDs and advisoryObjs list exactly the rows to delete and to upsert, in some order. */
  ghost predicate Lists(ext: ExtendedMap, deleteIDs: seq<int>, objs: seq<SystemAdvisory>)
  {
    && (forall id :: id in deleteIDs <==>
        exists n :: n in ext && ext[n].change == Remove && ext[n].advisory.advisoryId == id)
    && (forall o :: o in objs <==> exists n :: n in ext && Upserts(ext[n]) && ext[n].advisory == o)
  }

  method ProcessAdvisories(ext: ExtendedMap) returns (deleteIDs: seq<int>, objs: seq<SystemAdvisory>)
    ensures Lists(ext, deleteIDs, objs)
  {
    deleteIDs, objs := [], [];
    var rest := ext.Keys;
    while rest != {}
      invariant rest <= ext.Keys
      invariant forall id :: id in deleteIDs <==>
                  exists n :: n in ext && n !in rest && ext[n].change == Remove && ext[n].advisory.advisoryId == id
      invariant forall o :: o in objs <==> exists n :: n in ext && n !in rest && Upserts(ext[n]) && ext[n].advisory == o
    {
      var n :| n in rest;
      ghost var ids, os := deleteIDs, objs;
      match ext[n].change {
        case Remove => deleteIDs := deleteIDs + [ext[n].advisory.advisoryId];
        case Update => objs := objs + [ext[n].advisory];
        case Add => objs := objs + [ext[n].advisory];
        case Keep =>
      }
      rest := rest - {n};
    }
  }

  function UpsertAll(rows: Rows, objs: seq<SystemAdvisory>): Rows
  {
    if objs == [] then rows
    else UpsertAll(rows, objs[..|objs| - 1])[objs[|objs| - 1].advisoryId := objs[|objs| - 1].status]
  }

  /** The two statements of updateSystemAdvisories, on the rows of one system. */
  function ApplyToRows(rows: Rows, deleteIDs: seq<int>, objs: seq<SystemAdvisory>): Rows
  {
    UpsertAll(rows - (set id | id in deleteIDs), objs)
  }

  lemma {:induction false} UpsertedAt(rows: Rows, objs: seq<SystemAdvisory>, id: int)
    requires forall o, p :: o in objs && p in objs && o.advisoryId == p.advisoryId ==> o == p
    ensures id in UpsertAll(rows, objs) <==> id in rows || exists o :: o in objs && o.advisoryId == id
    ensures forall o :: o in objs && o.advisoryId == id ==> UpsertAll(rows, objs)[id] == o.status
    ensures id in rows && (forall o :: o in objs ==> o.advisoryId != id) ==> UpsertAll(rows, objs)[id] == rows[id]
  {
    if objs != [] {
      var init, last := objs[..|objs| - 1], objs[|objs| - 1];
      assert objs == init + [last];
      UpsertedAt(rows, init, id);
    }
  }

  /** The names of the stored rows and their statuses, through the advisory metadata. */
  function Stored(metadata: map<string, int>, rows: Rows): StoredMap
  {
    map n | n in metadata && metadata[n] in rows :: SystemAdvisory(metadata[n], rows[metadata[n]])
  }

  function Statuses(metadata: map<string, int>, rows: Rows): map<string, Status>
  {
    map n | n in metadata && metadata[n] in rows :: rows[metadata[n]]
  }

  ghost predicate Injective(metadata: map<string, int>)
  {
    forall m, n :: m in metadata && n in metadata && metadata[m] == metadata[n] ==> m == n
  }

  /** Each row refers to an advisory that has metadata. */
  ghost predicate RowsNamed(metadata: map<string, int>, rows: Rows)
  {
    forall id :: id in rows ==> id in metadata.Values
  }

  ghost predicate IdsAreMetadata(metadata: map<string, int>, ext: ExtendedMap)
  {
    forall n :: n in ext ==> n in metadata && ext[n].advisory.advisoryId == metadata[n]
  }

  lemma ChangesUseMetadata(reported: map<string, Status>, rows: Rows, metadata: map<string, int>)
    requires AllKnown(reported, Stored(metadata, rows), metadata)
    ensures IdsAreMetadata(metadata, Changes(reported, Stored(metadata, rows), metadata).value)
  {
  }

  /** What one name's row is after the delete and the upsert. */
  lemma AppliedAt(metadata: map<string, int>, rows: Rows, reported: map<string, Status>,
                  deleteIDs: seq<int>, objs: seq<SystemAdvisory>, n: string)
    requires Injective(metadata) && n in metadata
    requires AllKnown(reported, Stored(metadata, rows), metadata)
    requires Lists(Changes(reported, Stored(metadata, rows), metadata).value, deleteIDs, objs)
    ensures var rows' := ApplyToRows(rows, deleteIDs, objs);
            && (metadata[n] in rows' <==> n in reported)
            && (n in reported ==> rows'[metadata[n]] == reported[n])
  {
    hide Stored, UpsertAll;
    var stored := Stored(metadata, rows);
    var ext := Changes(reported, stored, metadata).value;
    var id := metadata[n];
    StoredIs(metadata, rows, n);
    ChangesUseMetadata(reported, rows, metadata);
    ObjsAreDistinct(metadata, ext, deleteIDs, objs);
    ListedAt(metadata, ext, deleteIDs, objs, n);
    UpsertedAt(rows - (set i | i in deleteIDs), objs, id);
    hide Lists, Injective;
  }

  lemma StoredIs(metadata: map<string, int>, rows: Rows, n: string)
    requires n in metadata
    ensures n in Stored(metadata, rows) <==> metadata[n] in rows
    ensures n in Stored(metadata, rows) ==> Stored(metadata, rows)[n] == SystemAdvisory(metadata[n], rows[metadata[n]])
  {
  }

  /** What the two lists say about one name's row. */
  lemma ListedAt(metadata: map<string, int>, ext: ExtendedMap, deleteIDs: seq<int>, objs: seq<SystemAdvisory>,
                 n: string)
    requires Injective(metadata) && n in metadata && IdsAreMetadata(metadata, ext) && Lists(ext, deleteIDs, objs)
    ensures metadata[n] in deleteIDs <==> n in ext && ext[n].change == Remove
    ensures (exists o :: o in objs && o.advisoryId == metadata[n]) <==> n in ext && Upserts(ext[n])
    ensures n in ext && Upserts(ext[n]) ==> ext[n].advisory in objs
  {
    var id := metadata[n];
    assert forall m :: m in ext && ext[m].advisory.advisoryId == id ==> m == n;
    if n in ext && Upserts(ext[n]) { assert ext[n].advisory in objs; }
  }

  lemma ObjsAreDistinct(metadata: map<string, int>, ext: ExtendedMap, deleteIDs: seq<int>, objs: seq<SystemAdvisory>)
    requires Injective(metadata) && IdsAreMetadata(metadata, ext) && Lists(ext, deleteIDs, objs)
    ensures forall o, p :: o in objs && p in objs && o.advisoryId == p.advisoryId ==> o == p
  {
    forall o, p | o in objs && p in objs && o.advisoryId == p.advisoryId ensures o == p {
      var m :| m in ext && Upserts(ext[m]) && ext[m].advisory == o;
      var n :| n in ext && Upserts(ext[n]) && ext[n].advisory == p;
      assert m == n;
    }
  }

  /**
   Diff and apply: whatever was stored and in whatever order the changes are listed, afterwards the
   system's rows read back as exactly the reported advisories with their statuses.
   */
  lemma StoredBecomesReported(metadata: map<string, int>, rows: Rows, reported: map<string, Status>,
                              deleteIDs: seq<int>, objs: seq<SystemAdvisory>)
    requires Injective(metadata) && RowsNamed(metadata, rows) && reported.Keys <= metadata.Keys
    requires Lists(Changes(reported, Stored(metadata, rows), metadata).value, deleteIDs, objs)
    ensures var rows' := ApplyToRows(rows, deleteIDs, objs);
            RowsNamed(metadata, rows') && Statuses(metadata, rows') == reported
  {
    var ext := Changes(reported, Stored(metadata, rows), metadata).value;
    var rows' := ApplyToRows(rows, deleteIDs, objs);
    ChangesUseMetadata(reported, rows, metadata);
    ObjsAreDistinct(metadata, ext, deleteIDs, objs);
    forall n | n in metadata ensures (metadata[n] in rows' <==> n in reported)
                                  && (n in reported ==> rows'[metadata[n]] == reported[n]) {
      AppliedAt(metadata, rows, reported, deleteIDs, objs, n);
    }
    forall id | id in rows' ensures id in metadata.Values {
      UpsertedAt(rows - (set i | i in deleteIDs), objs, id);
      if o :| o in objs && o.advisoryId == id {
        var n :| n in ext && Upserts(ext[n]) && ext[n].advisory == o;
        assert metadata[n] == id;
      }
    }
    assert Statuses(metadata, rows').Keys == reported.Keys;
  }

  /** A report that is already stored changes nothing. */
  lemma SecondEvaluationKeeps(metadata: map<string, int>, rows: Rows, reported: map<string, Status>)
    requires Statuses(metadata, rows) == reported
    ensures AllKnown(reported, Stored(metadata, rows), metadata)
    ensures var ext := Changes(reported, Stored(metadata, rows), metadata).value;
            forall n :: n in ext ==> ext[n].change == Keep
  {
    assert Stored(metadata, rows).Keys == Statuses(metadata, rows).Keys;
  }

  // ----- deltas for the account counts

  datatype Counts = Counts(installable: int, applicable: int)

  /** The delta calcAdvisoryChanges records for one change, if it records one. */
  function DeltaOf(e: Extended): Option<Counts>
  {
    match e.change
    case Keep => None
    case Remove => Some(Counts(-1, if e.advisory.status != Applicable then -1 else 0))
    case _ => Some(if e.advisory.status == Installable then Counts(1, 1) else Counts(0, 1))
  }

  datatype AccountDelta = AccountDelta(advisoryId: int, delta: Counts)

  ghost predicate Ascending(s: seq<AccountDelta>)
  {
    forall i, j :: 0 <= i < j < |s| ==> s[i].advisoryId < s[j].advisoryId
  }

  /** Where an advisory belongs in the sorted list of deltas. */
  method Insert(s: seq<AccountDelta>, d: AccountDelta) returns (r: seq<AccountDelta>)
    requires Ascending(s) && forall e :: e in s ==> e.advisoryId != d.advisoryId
    ensures Ascending(r) && forall e :: e in r <==> e == d || e in s
  {
    var i := 0;
    while i < |s| && s[i].advisoryId < d.advisoryId
      invariant i <= |s|
      invariant forall j :: 0 <= j < i ==> s[j].advisoryId < d.advisoryId
    {
      i := i + 1;
    }
    r := s[..i] + [d] + s[i..];
    if i < |s| { assert s[i] in s; }
    assert forall e :: e in s <==> e in s[..i] || e in s[i..];
  }

  ghost predicate IdsDistinct(ext: ExtendedMap)
  {
    forall m, n :: m in ext && n in ext && ext[m].advisory.advisoryId == ext[n].advisory.advisoryId ==> m == n
  }

  /** The first loop of calcAdvisoryChanges, over the changes in any order. */
  method CollectDeltas(ext: ExtendedMap) returns (aadMap: map<int, Counts>)
    ensures IdsDistinct(ext) ==>
              && (forall n :: n in ext && DeltaOf(ext[n]).Some? ==>
                    ext[n].advisory.advisoryId in aadMap && DeltaOf(ext[n]) == Some(aadMap[ext[n].advisory.advisoryId]))
              && (forall id :: id in aadMap ==>
                    exists n :: n in ext && ext[n].advisory.advisoryId == id && DeltaOf(ext[n]) == Some(aadMap[id]))
  {
    aadMap := map[];
    var rest := ext.Keys;
    while rest != {}
      invariant rest <= ext.Keys
      invariant IdsDistinct(ext) ==>
                  && (forall n :: n in ext && n !in rest && DeltaOf(ext[n]).Some? ==>
                        ext[n].advisory.advisoryId in aadMap
                            && DeltaOf(ext[n]) == Some(aadMap[ext[n].advisory.advisoryId]))
                  && (forall id :: id in aadMap ==>
                        exists n :: n in ext && n !in rest && ext[n].advisory.advisoryId == id
                            && DeltaOf(ext[n]) == Some(aadMap[id]))
    {
      var n :| n in rest;
      var id, status := ext[n].advisory.advisoryId, ext[n].advisory.status;
      match ext[n].change {
        case Remove =>
          aadMap := aadMap[id := Counts(-1, 0)];
          if status != Applicable {
            aadMap := aadMap[id := aadMap[id].(applicable := -1)];
          }
        case Keep =>
        case _ =>
          if status == Installable {
            aadMap := aadMap[id := Counts(1, 1)];
          } else if id !in aadMap {
            aadMap := aadMap[id := Counts(0, 1)];
          }
      }
      rest := rest - {n};
    }
  }

  /**
   calcAdvisoryChanges: nothing for a stale system; otherwise, whatever the iteration order, one delta
   for each advisory that changed, in strictly ascending order of advisory ID.
   */
  method CalcAdvisoryChanges(stale: bool, ext: ExtendedMap) returns (aadSlice: seq<AccountDelta>)
    ensures stale ==> aadSlice == []
    ensures Ascending(aadSlice)
    ensures !stale && IdsDistinct(ext) ==>
              forall d :: d in aadSlice <==>
                exists n :: n in ext && ext[n].advisory.advisoryId == d.advisoryId && DeltaOf(ext[n]) == Some(d.delta)
  {
    if stale {
      return [];
    }
    var aadMap := CollectDeltas(ext);
    aadSlice := SortDeltas(aadMap);
    if IdsDistinct(ext) {
      forall d ensures d in aadSlice <==>
                exists n :: n in ext && ext[n].advisory.advisoryId == d.advisoryId && DeltaOf(ext[n]) == Some(d.delta) {
        if d in aadSlice {
          var n :| n in ext && ext[n].advisory.advisoryId == d.advisoryId
              && DeltaOf(ext[n]) == Some(aadMap[d.advisoryId]);
        }
      }
    }
  }

  method SortDeltas(aadMap: map<int, Counts>) returns (aadSlice: seq<AccountDelta>)
    ensures Ascending(aadSlice)
    ensures forall d :: d in aadSlice <==> d.advisoryId in aadMap && aadMap[d.advisoryId] == d.delta
  {
    aadSlice := [];
    var ids := aadMap.Keys;
    while ids != {}
      invariant ids <= aadMap.Keys && Ascending(aadSlice)
      invariant forall d :: d in aadSlice <==>
                d.advisoryId in aadMap && d.advisoryId !in ids && aadMap[d.advisoryId] == d.delta
    {
      SomeElement(ids);
      var id :| id in ids;
      aadSlice := Insert(aadSlice, AccountDelta(id, aadMap[id]));
      ids := ids - {id};
    }
  }
}
