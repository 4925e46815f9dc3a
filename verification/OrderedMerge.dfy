/** Merging two lists by a three-way comparison, the left element winning ties. */
module OrderedMerge {
  import opened Orders

  ghost predicate StrictlySorted<T(!new)>(cmp: (T, T) -> int, s: seq<T>)
  {
    forall i, j :: 0 <= i < j < |s| ==> cmp(s[i], s[j]) < 0
  }

  function Merge<T>(cmp: (T, T) -> int, a: seq<T>, b: seq<T>): seq<T>
    decreases |a| + |b|
  {
    if a == [] || b == [] then a + b
    else if cmp(a[0], b[0]) < 0 then [a[0]] + Merge(cmp, a[1..], b)
    else if cmp(a[0], b[0]) > 0 then [b[0]] + Merge(cmp, a, b[1..])
    else [a[0]] + Merge(cmp, a[1..], b[1..])
  }

  /** Whatever the lists: all of a is kept, nothing is invented, and only ties with a are dropped from b. */
  lemma {:induction false} MergeMember<T(!new)>(cmp: (T, T) -> int, a: seq<T>, b: seq<T>, x: T)
    requires IsPreorder(cmp)
    ensures x in a ==> x in Merge(cmp, a, b)
    ensures x in Merge(cmp, a, b) ==> x in a || x in b
    ensures x in b && (forall y :: y in a ==> cmp(x, y) != 0) ==> x in Merge(cmp, a, b)
    decreases |a| + |b|
  {
    if a != [] && b != [] {
      Flip(cmp, a[0], b[0]);
      hide IsPreorder;
      assert a == [a[0]] + a[1..] && b == [b[0]] + b[1..];
      if cmp(a[0], b[0]) < 0 {
        MergeMember(cmp, a[1..], b, x);
      } else if cmp(a[0], b[0]) > 0 {
        MergeMember(cmp, a, b[1..], x);
      } else {
        MergeMember(cmp, a[1..], b[1..], x);
      }
    }
  }

  lemma HeadFirst<T(!new)>(cmp: (T, T) -> int, x: T, s: seq<T>)
    requires StrictlySorted(cmp, s) && forall y :: y in s ==> cmp(x, y) < 0
    ensures StrictlySorted(cmp, [x] + s)
  {
    forall i, j | 0 <= i < j < |[x] + s| ensures cmp(([x] + s)[i], ([x] + s)[j]) < 0 {
      assert ([x] + s)[j] == s[j - 1] && s[j - 1] in s;
    }
  }

  lemma {:induction false} MergeIsSorted<T(!new)>(cmp: (T, T) -> int, a: seq<T>, b: seq<T>)
    requires IsPreorder(cmp) && StrictlySorted(cmp, a) && StrictlySorted(cmp, b)
    ensures StrictlySorted(cmp, Merge(cmp, a, b))
    decreases |a| + |b|
  {
    if a == [] || b == [] {
      assert a + b == if a == [] then b else a;
    } else {
      var c := cmp(a[0], b[0]);
      Flip(cmp, a[0], b[0]);
      hide IsPreorder;
      var x := if c > 0 then b[0] else a[0];
      var a' := if c > 0 then a else a[1..];
      var b' := if c < 0 then b else b[1..];
      MergeIsSorted(cmp, a', b');
      forall y | y in Merge(cmp, a', b') ensures cmp(x, y) < 0 {
        MergeMember(cmp, a', b', y);
        if y in a' {
          StrictlyBelow(cmp, x, a[0], y);
        } else {
          StrictlyBelow(cmp, x, b[0], y);
        }
      }
      HeadFirst(cmp, x, Merge(cmp, a', b'));
    }
  }

  /**
   Merging strictly sorted lists gives the strictly sorted list of a's elements and of those elements
   of b that tie with none of a's. Sortedness and membership determine a list, so this pins the result.
   */
  lemma MergeCorrect<T(!new)>(cmp: (T, T) -> int, a: seq<T>, b: seq<T>)
    requires IsPreorder(cmp) && StrictlySorted(cmp, a) && StrictlySorted(cmp, b)
    ensures StrictlySorted(cmp, Merge(cmp, a, b))
    ensures forall x :: x in Merge(cmp, a, b) <==> x in a || (x in b && forall y :: y in a ==> cmp(x, y) != 0)
  {
    hide IsPreorder, Merge;
    var r := Merge(cmp, a, b);
    MergeIsSorted(cmp, a, b);
    forall x ensures x in r <==> x in a || (x in b && forall y :: y in a ==> cmp(x, y) != 0) {
      MergeMember(cmp, a, b, x);
      forall y | x in r && y in a && cmp(x, y) == 0 ensures x in a {
        MergeMember(cmp, a, b, y);
        var i :| 0 <= i < |r| && r[i] == x;
        var j :| 0 <= j < |r| && r[j] == y;
        Flip(cmp, x, y);
        assert i == j;
      }
    }
  }

  // ----- a merge that cannot get past an unreadable front

  datatype Outcome<T> = Merged(list: seq<T>) | Stuck

  function Prepend<T>(x: T, o: Outcome<T>): Outcome<T>
  {
    match o
    case Merged(s) => Merged([x] + s)
    case Stuck => Stuck
  }

  function Attempt<T>(readable: T -> bool, cmp: (T, T) -> int, a: seq<T>, b: seq<T>): Outcome<T>
    decreases |a| + |b|
  {
    if a == [] || b == [] then Merged(a + b)
    else if !readable(a[0]) || !readable(b[0]) then Stuck
    else if cmp(a[0], b[0]) < 0 then Prepend(a[0], Attempt(readable, cmp, a[1..], b))
    else if cmp(a[0], b[0]) > 0 then Prepend(b[0], Attempt(readable, cmp, a, b[1..]))
    else Prepend(a[0], Attempt(readable, cmp, a[1..], b[1..]))
  }

  lemma {:induction false} AttemptAllReadable<T(!new)>(readable: T -> bool, cmp: (T, T) -> int, a: seq<T>, b: seq<T>)
    requires forall x :: x in a || x in b ==> readable(x)
    ensures Attempt(readable, cmp, a, b) == Merged(Merge(cmp, a, b))
    decreases |a| + |b|
  {
    if a != [] && b != [] {
      if cmp(a[0], b[0]) < 0 { AttemptAllReadable(readable, cmp, a[1..], b); }
      else if cmp(a[0], b[0]) > 0 { AttemptAllReadable(readable, cmp, a, b[1..]); }
      else { AttemptAllReadable(readable, cmp, a[1..], b[1..]); }
    }
  }

  /**
   Whatever the lists, when the merge ends: all of a is kept, nothing is invented, and an element of b
   is missing only if a tying element is there.
   */
  lemma {:induction false} AttemptMember<T(!new)>(readable: T -> bool, cmp: (T, T) -> int, a: seq<T>, b: seq<T>, x: T)
    requires IsPreorder(cmp) && Attempt(readable, cmp, a, b).Merged?
    ensures var r := Attempt(readable, cmp, a, b).list;
            && (x in a ==> x in r)
            && (x in r ==> x in a || x in b)
            && (x in b ==> exists y :: y in r && cmp(x, y) == 0)
            && (x in b ==> x in r || exists y :: y in a && cmp(x, y) == 0)
    decreases |a| + |b|
  {
    Flip(cmp, x, x);
    if a != [] && b != [] {
      Flip(cmp, a[0], b[0]);
      hide IsPreorder;
      assert a == [a[0]] + a[1..] && b == [b[0]] + b[1..];
      var head := if cmp(a[0], b[0]) > 0 then b[0] else a[0];
      var a' := if cmp(a[0], b[0]) > 0 then a else a[1..];
      var b' := if cmp(a[0], b[0]) < 0 then b else b[1..];
      AttemptMember(readable, cmp, a', b', x);
      var r, r' := Attempt(readable, cmp, a, b).list, Attempt(readable, cmp, a', b').list;
      assert r == [head] + r';
      if x in b {
        if x in b' {
          var y :| y in r' && cmp(x, y) == 0;
          assert y in r;
          if z :| z in a' && cmp(x, z) == 0 { assert z in a; }
        } else {
          assert head in r && cmp(x, head) == 0;
        }
      }
    }
  }

  /** How many elements stand before the first unreadable one. */
  function Readable<T>(readable: T -> bool, s: seq<T>): (n: nat)
    ensures n <= |s| && (n < |s| ==> !readable(s[n]))
    ensures forall k :: 0 <= k < n ==> readable(s[k])
  {
    if s == [] || !readable(s[0]) then 0 else 1 + Readable(readable, s[1..])
  }

  /** The elements that no later one exceeds. In a sorted list that is the last one alone. */
  ghost function Records<T(!new)>(cmp: (T, T) -> int, s: seq<T>): seq<T>
  {
    if s == [] then []
    else
      var rest := Records(cmp, s[1..]);
      if rest == [] || cmp(rest[0], s[0]) <= 0 then [s[0]] + rest else rest
  }

  /** Element by element, a list that ends early being below. */
  ghost predicate Below<T(!new)>(cmp: (T, T) -> int, x: seq<T>, y: seq<T>)
  {
    y != [] && (x == [] || cmp(x[0], y[0]) < 0 || (cmp(x[0], y[0]) == 0 && Below(cmp, x[1..], y[1..])))
  }

  /**
   x has an unreadable element that the merge reaches while y still has something left: y has one too, or
   all that x has before its own is used up before y is.
   */
  ghost predicate Blocks<T(!new)>(readable: T -> bool, cmp: (T, T) -> int, x: seq<T>, y: seq<T>)
  {
    var n := Readable(readable, x);
    n < |x| && (Readable(readable, y) < |y| || Below(cmp, Records(cmp, x[..n]), Records(cmp, y)))
  }

  lemma {:induction false} FirstRecord<T(!new)>(cmp: (T, T) -> int, s: seq<T>, x: T)
    requires IsPreorder(cmp)
    ensures s != [] ==> Records(cmp, s) != [] && Records(cmp, s)[0] in s
    ensures x in s ==> cmp(x, Records(cmp, s)[0]) <= 0
  {
    if s != [] {
      var rest := Records(cmp, s[1..]);
      FirstRecord(cmp, s[1..], x);
      Flip(cmp, s[0], s[0]);
      if rest != [] {
        Flip(cmp, s[0], rest[0]);
        if x in s[1..] { StrictlyBelow(cmp, x, rest[0], Records(cmp, s)[0]); }
      }
    }
  }

  ghost predicate IsRecord<T(!new)>(cmp: (T, T) -> int, s: seq<T>, i: int)
  {
    0 <= i < |s| && forall j :: i < j < |s| ==> cmp(s[j], s[i]) <= 0
  }

  lemma {:induction false} RecordsAreRecords<T(!new)>(cmp: (T, T) -> int, s: seq<T>, x: T)
    requires IsPreorder(cmp)
    ensures x in Records(cmp, s) <==> exists i :: IsRecord(cmp, s, i) && s[i] == x
  {
    if s != [] {
      var tail := s[1..];
      RecordsAreRecords(cmp, tail, x);
      HeadRecordIff(cmp, s);
      hide IsPreorder;
      if i :| IsRecord(cmp, tail, i) && tail[i] == x {
        assert IsRecord(cmp, s, i + 1) && s[i + 1] == x;
      }
      if i :| IsRecord(cmp, s, i) && s[i] == x && i > 0 {
        assert forall j :: i - 1 < j < |tail| ==> tail[j] == s[j + 1];
        assert IsRecord(cmp, tail, i - 1) && tail[i - 1] == x;
      }
    }
  }

  lemma HeadRecordIff<T(!new)>(cmp: (T, T) -> int, s: seq<T>)
    requires IsPreorder(cmp) && s != []
    ensures IsRecord(cmp, s, 0) <==> Records(cmp, s) == [s[0]] + Records(cmp, s[1..])
    ensures IsRecord(cmp, s, 0) || Records(cmp, s) == Records(cmp, s[1..])
  {
    var tail := s[1..];
    var rest := Records(cmp, tail);
    if tail != [] {
      FirstRecord(cmp, tail, tail[0]);
      var m :| 0 <= m < |tail| && tail[m] == rest[0];
      assert s[m + 1] == rest[0];
      forall j | 0 < j < |s| && cmp(rest[0], s[0]) <= 0 ensures cmp(s[j], s[0]) <= 0 {
        assert s[j] == tail[j - 1];
        FirstRecord(cmp, tail, s[j]);
        StrictlyBelow(cmp, s[j], rest[0], s[0]);
      }
    }
  }

  lemma RecordsOfSorted<T(!new)>(cmp: (T, T) -> int, s: seq<T>)
    requires IsPreorder(cmp) && StrictlySorted(cmp, s) && s != []
    ensures Records(cmp, s) == [s[|s| - 1]]
    decreases |s|
  {
    if |s| > 1 {
      DropFirst(cmp, s);
      RecordsOfSorted(cmp, s[1..]);
      Flip(cmp, s[0], s[|s| - 1]);
    }
  }

  lemma DropFirst<T(!new)>(cmp: (T, T) -> int, s: seq<T>)
    requires s != [] && StrictlySorted(cmp, s)
    ensures StrictlySorted(cmp, s[1..])
  {
  }

  /** Using up the smaller of two fronts does not change which list is used up first. */
  lemma BelowAfterStep<T(!new)>(cmp: (T, T) -> int, p: seq<T>, q: seq<T>)
    requires IsPreorder(cmp) && p != [] && q != [] && cmp(p[0], q[0]) < 0
    ensures Below(cmp, Records(cmp, p[1..]), Records(cmp, q)) == Below(cmp, Records(cmp, p), Records(cmp, q))
    ensures Below(cmp, Records(cmp, q), Records(cmp, p[1..])) == Below(cmp, Records(cmp, q), Records(cmp, p))
  {
    var rp, rest, rq := Records(cmp, p), Records(cmp, p[1..]), Records(cmp, q);
    FirstRecord(cmp, q, q[0]);
    StrictlyBelow(cmp, p[0], q[0], rq[0]);
    Flip(cmp, p[0], rq[0]);
    if rp != rest && rest != [] {
      StrictlyBelow(cmp, rest[0], p[0], rq[0]);
      Flip(cmp, rest[0], rq[0]);
    }
  }

  lemma BelowAfterTie<T(!new)>(cmp: (T, T) -> int, p: seq<T>, q: seq<T>)
    requires IsPreorder(cmp) && p != [] && q != [] && cmp(p[0], q[0]) == 0
    ensures Below(cmp, Records(cmp, p[1..]), Records(cmp, q[1..])) == Below(cmp, Records(cmp, p), Records(cmp, q))
  {
    var rp, rp', rq, rq' := Records(cmp, p), Records(cmp, p[1..]), Records(cmp, q), Records(cmp, q[1..]);
    Flip(cmp, p[0], q[0]);
    if rp != rp' && rq == rq' {
      StaysBelow(cmp, p[0], q[0], rp', rq);
    } else if rp == rp' && rq != rq' {
      StaysAbove(cmp, p[0], q[0], rp, rq');
    }
  }

  /** A front that is no record sits below the first record of its list, and so does what is left of the other. */
  lemma StaysBelow<T(!new)>(cmp: (T, T) -> int, p0: T, q0: T, rest: seq<T>, rq: seq<T>)
    requires IsPreorder(cmp) && cmp(p0, q0) == 0 && rq != [] && cmp(rq[0], q0) > 0
             && (rest == [] || cmp(rest[0], p0) <= 0)
    ensures Below(cmp, rest, rq) && Below(cmp, [p0] + rest, rq)
  {
    Flip(cmp, q0, rq[0]);
    StrictlyBelow(cmp, p0, q0, rq[0]);
    if rest != [] { StrictlyBelow(cmp, rest[0], p0, rq[0]); }
  }

  lemma StaysAbove<T(!new)>(cmp: (T, T) -> int, p0: T, q0: T, rp: seq<T>, rest: seq<T>)
    requires IsPreorder(cmp) && cmp(p0, q0) == 0 && rp != [] && cmp(rp[0], p0) > 0
             && (rest == [] || cmp(rest[0], q0) <= 0)
    ensures !Below(cmp, rp, rest) && !Below(cmp, rp, [q0] + rest)
  {
    Flip(cmp, p0, rp[0]);
    Flip(cmp, p0, q0);
    StrictlyBelow(cmp, q0, p0, rp[0]);
    Flip(cmp, q0, rp[0]);
    if rest != [] {
      StrictlyBelow(cmp, rest[0], q0, rp[0]);
      Flip(cmp, rest[0], rp[0]);
    }
  }

  lemma ReadableTail<T>(readable: T -> bool, s: seq<T>)
    requires s != [] && readable(s[0])
    ensures var n := Readable(readable, s);
            n > 0 && Readable(readable, s[1..]) == n - 1 && s[1..][..n - 1] == s[..n][1..] && s[..n][0] == s[0]
  {
  }

  /** Consuming the smaller of two readable fronts does not change whether either list blocks the other. */
  lemma BlocksAfterStep<T(!new)>(readable: T -> bool, cmp: (T, T) -> int, x: seq<T>, y: seq<T>)
    requires IsPreorder(cmp) && x != [] && y != [] && readable(x[0]) && readable(y[0]) && cmp(x[0], y[0]) < 0
    ensures Blocks(readable, cmp, x[1..], y) == Blocks(readable, cmp, x, y)
    ensures Blocks(readable, cmp, y, x[1..]) == Blocks(readable, cmp, y, x)
  {
    hide IsPreorder, Below, Records;
    ReadableTail(readable, x);
    ReadableTail(readable, y);
    BelowAfterStep(cmp, x[..Readable(readable, x)], y);
    BelowAfterStep(cmp, x, y[..Readable(readable, y)]);
  }

  lemma BlocksAfterTie<T(!new)>(readable: T -> bool, cmp: (T, T) -> int, x: seq<T>, y: seq<T>)
    requires IsPreorder(cmp) && x != [] && y != [] && readable(x[0]) && readable(y[0]) && cmp(x[0], y[0]) == 0
    ensures Blocks(readable, cmp, x[1..], y[1..]) == Blocks(readable, cmp, x, y)
  {
    hide IsPreorder, Below, Records;
    ReadableTail(readable, x);
    ReadableTail(readable, y);
    BelowAfterTie(cmp, x[..Readable(readable, x)], y);
  }

  lemma UnreadableFrontBlocks<T(!new)>(readable: T -> bool, cmp: (T, T) -> int, x: seq<T>, y: seq<T>)
    requires IsPreorder(cmp) && x != [] && y != [] && !readable(x[0])
    ensures Blocks(readable, cmp, x, y)
  {
    FirstRecord(cmp, y, y[0]);
  }

  lemma NothingBlocks<T(!new)>(readable: T -> bool, cmp: (T, T) -> int, x: seq<T>)
    ensures !Blocks(readable, cmp, x, []) && !Blocks(readable, cmp, [], x)
  {
  }

  /** Whatever the lists, the merge gets stuck exactly when one blocks the other. */
  lemma {:induction false} StuckIff<T(!new)>(readable: T -> bool, cmp: (T, T) -> int, a: seq<T>, b: seq<T>)
    requires IsPreorder(cmp)
    ensures Attempt(readable, cmp, a, b).Stuck? <==> Blocks(readable, cmp, a, b) || Blocks(readable, cmp, b, a)
    decreases |a| + |b|
  {
    hide Blocks, IsPreorder;
    if a == [] {
      NothingBlocks(readable, cmp, b);
    } else if b == [] {
      NothingBlocks(readable, cmp, a);
    } else if !readable(a[0]) {
      UnreadableFrontBlocks(readable, cmp, a, b);
    } else if !readable(b[0]) {
      UnreadableFrontBlocks(readable, cmp, b, a);
    } else {
      Flip(cmp, a[0], b[0]);
      if cmp(a[0], b[0]) < 0 {
        BlocksAfterStep(readable, cmp, a, b);
        StuckIff(readable, cmp, a[1..], b);
      } else if cmp(a[0], b[0]) > 0 {
        BlocksAfterStep(readable, cmp, b, a);
        StuckIff(readable, cmp, a, b[1..]);
      } else {
        BlocksAfterTie(readable, cmp, a, b);
        BlocksAfterTie(readable, cmp, b, a);
        StuckIff(readable, cmp, a[1..], b[1..]);
      }
    }
  }

  /** For lists in order, the last element before the obstacle against the last element of the other list decides. */
  lemma SortedBlocksIff<T(!new)>(readable: T -> bool, cmp: (T, T) -> int, x: seq<T>, y: seq<T>)
    requires IsPreorder(cmp) && Readable(readable, y) == |y|
    requires StrictlySorted(cmp, x[..Readable(readable, x)]) && StrictlySorted(cmp, y)
    ensures var n := Readable(readable, x);
            Blocks(readable, cmp, x, y) <==> n < |x| && y != [] && (n == 0 || cmp(x[n - 1], y[|y| - 1]) < 0)
  {
    hide StrictlySorted, IsPreorder, Records, Readable, Below;
    var n := Readable(readable, x);
    if y == [] {
      NothingBlocks(readable, cmp, x);
    } else {
      RecordsOfSorted(cmp, y);
      if n > 0 {
        RecordsOfSorted(cmp, x[..n]);
        BelowOne(cmp, x[n - 1], y[|y| - 1]);
      } else {
        NoRecords(cmp, y[|y| - 1]);
      }
    }
  }

  lemma BelowOne<T(!new)>(cmp: (T, T) -> int, x: T, y: T)
    ensures Below(cmp, [x], [y]) <==> cmp(x, y) < 0
  {
  }

  lemma NoRecords<T(!new)>(cmp: (T, T) -> int, y: T)
    ensures Records(cmp, []) == [] && Below(cmp, [], [y])
  {
  }
}
