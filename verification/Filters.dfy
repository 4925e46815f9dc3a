/** Filter values of the API: parsing, combining and printing them (manager/controllers/filter.go). */
module Filters {

  datatype FilterType = ColumnFilter | InventoryFilter | WorkloadFilter | TagFilter

  datatype FilterData = FilterData(ftype: FilterType, operator: string, values: seq<string>)

  // ----- the string functions used

  /** strings.Split by one character: always at least one part. */
  function Split(s: string, sep: char): (parts: seq<string>)
    ensures |parts| >= 1 && forall p :: p in parts ==> sep !in p
  {
    if s == "" then [""]
    else if s[0] == sep then [""] + Split(s[1..], sep)
    else
      var rest := Split(s[1..], sep);
      [[s[0]] + rest[0]] + rest[1..]
  }

  /** strings.Join */
  function Join(parts: seq<string>, sep: char): string
  {
    if parts == [] then ""
    else if |parts| == 1 then parts[0]
    else parts[0] + [sep] + Join(parts[1..], sep)
  }

  lemma {:induction false} JoinOfSplit(s: string, sep: char)
    ensures Join(Split(s, sep), sep) == s
  {
    if s != "" {
      JoinOfSplit(s[1..], sep);
      var rest := Split(s[1..], sep);
      if s[0] == sep {
        assert Split(s, sep)[1..] == rest;
      } else {
        assert Split(s, sep)[1..] == rest[1..];
      }
    }
  }

  lemma {:induction false} SplitFirst(p: string, s: string, sep: char)
    requires sep !in p
    ensures Split(p + [sep] + s, sep) == [p] + Split(s, sep)
    ensures Split(p, sep) == [p]
  {
    if p == "" {
      assert p + [sep] + s == [sep] + s;
    } else {
      SplitFirst(p[1..], s, sep);
      assert (p + [sep] + s)[1..] == p[1..] + [sep] + s;
      assert [p[0]] + p[1..] == p;
    }
  }

  lemma {:induction false} SplitOfJoin(parts: seq<string>, sep: char)
    ensures Split(Join(parts, sep), sep) == parts <==> parts != [] && forall p :: p in parts ==> sep !in p
  {
    hide Split;
    if parts != [] && forall p :: p in parts ==> sep !in p {
      if |parts| == 1 {
        SplitFirst(parts[0], "", sep);
      } else {
        SplitFirst(parts[0], Join(parts[1..], sep), sep);
        SplitOfJoin(parts[1..], sep);
        assert parts == [parts[0]] + parts[1..];
      }
    }
  }

  /** strings.Index of one character, the length when it does not occur. */
  function Index(s: string, c: char): (i: nat)
    ensures i <= |s| && (i < |s| <==> c in s) && (i < |s| ==> s[i] == c) && c !in s[..i]
  {
    if s == "" then 0
    else if s[0] == c then 0
    else
      var i := Index(s[1..], c) + 1;
      assert s[..i] == [s[0]] + s[1..][..i - 1];
      assert s == [s[0]] + s[1..];
      i
  }

  // ----- filters

  function ParseFilterValue(ftype: FilterType, val: string): FilterData
  {
    var idx := Index(val, ':');
    if idx == |val| then FilterData(ftype, "eq", Split(val, ','))
    else FilterData(ftype, val[..idx], Split(val[idx + 1..], ','))
  }

  /** How ToQueryParams writes a filter that is not a tag. */
  function Print(f: FilterData): string
  {
    f.operator + ":" + Join(f.values, ',')
  }

  /** Filters that can be written and read back. */
  predicate Printable(f: FilterData)
  {
    ':' !in f.operator && f.values != [] && forall v :: v in f.values ==> ',' !in v
  }

  /** A filter reads back as itself exactly when it is printable. */
  lemma ReadsBackIff(f: FilterData)
    ensures ParseFilterValue(f.ftype, Print(f)) == f <==> Printable(f)
  {
    hide Split, Join;
    var s, idx := Print(f), Index(Print(f), ':');
    assert s[|f.operator|] == ':';
    assert ':' in s;
    SplitOfJoin(f.values, ',');
    if ':' !in f.operator {
      assert s[..|f.operator|] == f.operator && s[|f.operator| + 1..] == Join(f.values, ',');
      FirstColon(s, |f.operator|);
    }
  }

  lemma FirstColon(s: string, i: nat)
    requires i < |s| && s[i] == ':' && ':' !in s[..i]
    ensures Index(s, ':') == i
  {
    var j := Index(s, ':');
    assert forall k :: 0 <= k < i ==> s[..i][k] == s[k];
    assert forall k :: 0 <= k < j ==> s[..j][k] == s[k];
  }

  /** Before the first colon stands the operator, "eq" if there is none; after it the values, between commas. */
  lemma ReadsAsWritten(ftype: FilterType, operator: string, values: seq<string>)
    requires values != [] && forall v :: v in values ==> ',' !in v
    ensures ':' !in operator ==>
              ParseFilterValue(ftype, operator + ":" + Join(values, ',')) == FilterData(ftype, operator, values)
    ensures ':' !in Join(values, ',') ==>
              ParseFilterValue(ftype, Join(values, ',')) == FilterData(ftype, "eq", values)
  {
    hide Split, Join;
    ReadsBackIff(FilterData(ftype, operator, values));
    SplitOfJoin(values, ',');
  }

  /** Commas stand between the values and nowhere else. */
  lemma {:induction false} JoinedAt(parts: seq<string>, sep: char, before: seq<string>, v: string)
    requires parts == before + [v]
    ensures Join(parts, sep) == if before == [] then v else Join(before, sep) + [sep] + v
  {
    if before != [] {
      JoinedAt(parts[1..], sep, before[1..], v);
      if |before| > 1 {
        assert Join(before, sep) == before[0] + [sep] + Join(before[1..], sep);
      }
    }
  }

  /** Everything parsed is printable, and prints as it was given once the operator is written out. */
  lemma ParsedIsPrintable(ftype: FilterType, val: string)
    ensures Printable(ParseFilterValue(ftype, val))
    ensures Print(ParseFilterValue(ftype, val)) == if ':' in val then val else "eq:" + val
  {
    hide Split, Join, Index;
    var idx := Index(val, ':');
    if ':' in val {
      JoinOfSplit(val[idx + 1..], ',');
      assert val == val[..idx] + ":" + val[idx + 1..];
    } else {
      JoinOfSplit(val, ',');
    }
  }

  datatype Request = Request(ftype: FilterType, key: string, value: string)

  class FilterMap {
    var filters: map<string, FilterData>

    ghost predicate Valid()
      reads this
    {
      forall k :: k in filters ==> Printable(filters[k])
    }

    constructor ()
      ensures Valid() && filters == map[]
    {
      filters := map[];
    }

    /** A repeated filter takes the new type and operator; the new values come first. */
    method Update(ftype: FilterType, key: string, value: string)
      requires Valid()
      modifies this
      ensures Valid()
      ensures var data := ParseFilterValue(ftype, value);
              filters == old(filters)[key := if key in old(filters)
                                      then data.(values := data.values + old(filters)[key].values)
                                             else data]
    {
      ParsedIsPrintable(ftype, value);
      var data := ParseFilterValue(ftype, value);
      hide ParseFilterValue;
      if key in filters {
        data := data.(values := data.values + filters[key].values);
      }
      filters := filters[key := data];
    }

    /**
     ToQueryParams: one part for each filter, in any order, joined. Each part carries a text from which the
     filter, or for a tag its values, reads back; and the query splits into the parts exactly when there
     are any and none of them contains the separator.
     */
    method ToQueryParams() returns (query: string, ghost names: seq<string>, ghost parts: seq<string>)
      requires Valid()
      ensures |names| == |parts| && query == Join(parts, '&')
      ensures (forall k :: k in names <==> k in filters) && forall i, j :: 0 <= i < j < |names| ==> names[i] != names[j]
      ensures forall i :: 0 <= i < |names| ==>
              parts[i] == Part(names[i], filters[names[i]]) && ReadsBack(filters[names[i]])
      ensures forall i :: 0 <= i < |names| ==>
              var f := filters[names[i]];
              parts[i] == if f.ftype == TagFilter then "tags=" + names[i] + "=" + Join(f.values, ',')
                          else "filter[" + names[i] + "]=" + f.operator + ":" + Join(f.values, ',')
      ensures Split(query, '&') == parts <==> parts != [] && forall p :: p in parts ==> '&' !in p
    {
      var texts: seq<string> := [];
      names := [];
      var rest := filters.Keys;
      while rest != {}
        invariant rest <= filters.Keys && |names| == |texts|
        invariant forall k :: k in names <==> k in filters && k !in rest
        invariant forall i, j :: 0 <= i < j < |names| ==> names[i] != names[j]
        invariant forall i :: 0 <= i < |names| ==>
                  texts[i] == Part(names[i], filters[names[i]]) && ReadsBack(filters[names[i]])
      {
        hide Part, ReadsBack, Printable;
        var name :| name in rest;
        PrintableReadsBack(filters[name]);
        texts := texts + [Part(name, filters[name])];
        names := names + [name];
        rest := rest - {name};
      }
      parts := texts;
      forall i | 0 <= i < |names| { PartIs(names[i], filters[names[i]]); }
      query := Join(texts, '&');
      SplitOfJoin(texts, '&');
    }
  }

  /** How one filter is written. */
  function Part(name: string, f: FilterData): string
  {
    if f.ftype == TagFilter then "tags=" + name + "=" + Join(f.values, ',') else "filter[" + name + "]=" + Print(f)
  }

  lemma PartIs(name: string, f: FilterData)
    ensures Part(name, f) == if f.ftype == TagFilter then "tags=" + name + "=" + Join(f.values, ',')
                             else "filter[" + name + "]=" + f.operator + ":" + Join(f.values, ',')
  {
    hide Join;
  }

  predicate ReadsBack(f: FilterData)
  {
    if f.ftype == TagFilter then Split(Join(f.values, ','), ',') == f.values
    else ParseFilterValue(f.ftype, Print(f)) == f
  }

  lemma PrintableReadsBack(f: FilterData)
    requires Printable(f)
    ensures ReadsBack(f)
  {
    hide ParseFilterValue, Print, Split, Join;
    ReadsBackIff(f);
    SplitOfJoin(f.values, ',');
  }

  /** Whatever sequence of updates built the filters, each of them reads back from its part of the query. */
  method BuildAndPrint(requests: seq<Request>) returns (m: FilterMap, query: string, ghost parts: seq<string>)
    ensures fresh(m) && m.filters.Keys == (set i | 0 <= i < |requests| :: requests[i].key)
    ensures query == Join(parts, '&') && |parts| == |m.filters|
    ensures forall k :: k in m.filters ==> Part(k, m.filters[k]) in parts && ReadsBack(m.filters[k])
  {
    m := new FilterMap();
    for i := 0 to |requests|
      invariant fresh(m) && m.Valid() && m.filters.Keys == (set j | 0 <= j < i :: requests[j].key)
    {
      hide ParseFilterValue;
      m.Update(requests[i].ftype, requests[i].key, requests[i].value);
    }
    hide Part, ReadsBack, Join, Split;
    ghost var names;
    query, names, parts := m.ToQueryParams();
    DistinctCount(names, m.filters.Keys);
    forall k | k in m.filters ensures Part(k, m.filters[k]) in parts && ReadsBack(m.filters[k]) {
      var i :| 0 <= i < |names| && names[i] == k;
      assert parts[i] in parts;
    }
  }

  lemma {:induction false} DistinctCount(names: seq<string>, keys: set<string>)
    requires (forall k :: k in names <==> k in keys) && forall i, j :: 0 <= i < j < |names| ==> names[i] != names[j]
    ensures |names| == |keys|
  {
    if names == [] {
      assert keys == {};
    } else {
      var last := names[|names| - 1];
      assert forall k :: k in names[..|names| - 1] <==> k in keys - {last};
      DistinctCount(names[..|names| - 1], keys - {last});
    }
  }
}
