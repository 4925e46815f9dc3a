/**
 mergeUpdates (base/utils/vmaas.go): merging two update lists without duplicates.

 When the package at either front cannot be parsed, the loop continues without advancing, so it sees
 the same two fronts again, forever. The outcome Stuck stands for that.
 */
module MergeUpdates {
  import opened OrderedMerge
  import opened Rpm
  import opened Vmaas

  function MergeOutcome(lc: LabelOrder, a: seq<Update>, b: seq<Update>): Outcome<Update>
  {
    Attempt(Parses, ListOrder(lc), a, b)
  }

  function After(done: seq<Update>, o: Outcome<Update>): Outcome<Update>
  {
    match o
    case Merged(s) => Merged(done + s)
    case Stuck => Stuck
  }

  lemma AfterPrepend(done: seq<Update>, u: Update, o: Outcome<Update>)
    ensures After(done, Prepend(u, o)) == After(done + [u], o)
  {
    if o.Merged? { assert done + ([u] + o.list) == done + [u] + o.list; }
  }

  /** The loop of the source, with the repeated state reported instead of repeated. */
  method Run(lc: LabelOrder, updatesA: seq<Update>, updatesB: seq<Update>) returns (r: Outcome<Update>)
    ensures r == MergeOutcome(lc, updatesA, updatesB)
  {
    hide Parses, ListOrder;
    var newUpdates: seq<Update> := [];
    var a, b := 0, 0;
    while a < |updatesA| && b < |updatesB|
      invariant a <= |updatesA| && b <= |updatesB|
      invariant MergeOutcome(lc, updatesA, updatesB)
             == After(newUpdates, MergeOutcome(lc, updatesA[a..], updatesB[b..]))
      decreases |updatesA| - a + |updatesB| - b
    {
      ghost var restA, restB := updatesA[a..], updatesB[b..];
      assert restA[1..] == updatesA[a + 1..] && restB[1..] == updatesB[b + 1..];
      if !Parses(updatesA[a]) || !Parses(updatesB[b]) {
        return Stuck;
      }
      var cmp := ListOrder(lc)(updatesA[a], updatesB[b]);
      if cmp < 0 {
        AfterPrepend(newUpdates, restA[0], MergeOutcome(lc, restA[1..], restB));
        newUpdates := newUpdates + [updatesA[a]];
        a := a + 1;
      } else if cmp > 0 {
        AfterPrepend(newUpdates, restB[0], MergeOutcome(lc, restA, restB[1..]));
        newUpdates := newUpdates + [updatesB[b]];
        b := b + 1;
      } else {
        AfterPrepend(newUpdates, restA[0], MergeOutcome(lc, restA[1..], restB[1..]));
        newUpdates := newUpdates + [updatesA[a]];
        a, b := a + 1, b + 1;
      }
    }
    ghost var was := newUpdates;
    if a + 1 <= |updatesA| {
      newUpdates := newUpdates + updatesA[a..];
    }
    if b + 1 <= |updatesB| {
      newUpdates := newUpdates + updatesB[b..];
    }
    assert newUpdates == was + (updatesA[a..] + updatesB[b..]);
    return Merged(newUpdates);
  }

  ghost predicate AllParse(s: seq<Update>)
  {
    forall u :: u in s ==> Parses(u)
  }

  /**
   For sorted lists of readable updates: the result is sorted, its updates are exactly those of the
   first list plus those of the second whose key the first lacks, so no key appears twice, every key
   of either list appears, and a shared key keeps the first list's update and status.
   */
  lemma MergeKeepsFirstList(lc: LabelOrder, a: seq<Update>, b: seq<Update>)
    requires AllParse(a) && AllParse(b)
    requires StrictlySorted(ListOrder(lc), a) && StrictlySorted(ListOrder(lc), b)
    ensures var o := MergeOutcome(lc, a, b);
            && o.Merged? && StrictlySorted(ListOrder(lc), o.list)
            && forall u :: u in o.list <==> u in a || (u in b && forall v :: v in a ==> Key(u) != Key(v))
  {
    hide Parses;
    AttemptAllReadable(Parses, ListOrder(lc), a, b);
    ListOrderIsPreorder(lc);
    MergeCorrect(ListOrder(lc), a, b);
  }

  /** Sorted or not, whenever the loop ends: the first list is all kept, nothing is invented, every key stays. */
  lemma MergeKeepsKeys(lc: LabelOrder, a: seq<Update>, b: seq<Update>, u: Update)
    requires MergeOutcome(lc, a, b).Merged?
    ensures var r := MergeOutcome(lc, a, b).list;
            && (u in a ==> u in r)
            && (u in r ==> u in a || u in b)
            && (u in b ==> exists v :: v in r && Key(v) == Key(u))
            && (u in b ==> u in r || exists v :: v in a && Key(v) == Key(u))
  {
    ListOrderIsPreorder(lc);
    hide Parses;
    AttemptMember(Parses, ListOrder(lc), a, b, u);
  }

  /** Whatever the lists, the loop never ends exactly when one blocks the other. */
  lemma LoopsForeverIff(lc: LabelOrder, a: seq<Update>, b: seq<Update>)
    ensures MergeOutcome(lc, a, b).Stuck? <==>
            Blocks(Parses, ListOrder(lc), a, b) || Blocks(Parses, ListOrder(lc), b, a)
  {
    hide Parses, ListOrder, Key;
    ListOrderIsPreorder(lc);
    StuckIff(Parses, ListOrder(lc), a, b);
  }

  /** With a readable first list, only the second can block. */
  lemma SecondListBlocksIff(lc: LabelOrder, a: seq<Update>, b: seq<Update>)
    requires AllParse(a)
    ensures MergeOutcome(lc, a, b).Stuck? <==> Blocks(Parses, ListOrder(lc), b, a)
  {
    hide Parses, ListOrder, Key;
    AllReadable(a);
    LoopsForeverIff(lc, a, b);
  }

  /**
   For lists in order, the second one up to its first unreadable package: the loop never ends exactly when
   there is such a package and the update before it sorts below the last one of the first list.
   */
  lemma SortedLoopsForeverIff(lc: LabelOrder, a: seq<Update>, b: seq<Update>)
    requires AllParse(a) && StrictlySorted(ListOrder(lc), a)
    requires StrictlySorted(ListOrder(lc), b[..Readable(Parses, b)])
    ensures var n := Readable(Parses, b);
            MergeOutcome(lc, a, b).Stuck?
            <==> n < |b| && a != [] && (n == 0 || ListOrder(lc)(b[n - 1], a[|a| - 1]) < 0)
  {
    hide Parses, ListOrder, Key, AllParse, Readable, Blocks, MergeOutcome, StrictlySorted;
    AllReadable(a);
    ListOrderIsPreorder(lc);
    SecondListBlocksIff(lc, a, b);
    SortedBlocksIff(Parses, ListOrder(lc), b, a);
  }

  lemma {:induction false} AllReadable(a: seq<Update>)
    requires AllParse(a)
    ensures Readable(Parses, a) == |a|
  {
    hide Parses;
    if a != [] {
      assert a[0] in a;
      AllReadable(a[1..]);
    }
  }

  /** Readable lists never block each other, sorted or not. */
  lemma ReadableListsMerge(lc: LabelOrder, a: seq<Update>, b: seq<Update>)
    requires AllParse(a) && AllParse(b)
    ensures MergeOutcome(lc, a, b).Merged?
  {
    hide Parses, ListOrder;
    AttemptAllReadable(Parses, ListOrder(lc), a, b);
  }

  /** The smallest input on which the loop never ends: one package, "x", in both lists. */
  lemma UnreadableFrontHangs(lc: LabelOrder)
    ensures var u := Update("", "", "", "", "x", "", "", Installable); MergeOutcome(lc, [u], [u]).Stuck?
  {
    NameAloneDoesNotParse();
    hide Parse;
  }

  lemma NameAloneDoesNotParse()
    ensures Parse("x").None?
  {
    hide Parse;
    if Parse("x").Some? {
      var n := Parse("x").value;
      ParseAcceptsExactlyPrints("x", n);
      PrintsAreLong(n);
    }
  }

  lemma PrintsAreLong(n: Nevra)
    ensures |Show(n, true)| >= 3 && |Show(n, false)| >= 3
  {
  }
}
