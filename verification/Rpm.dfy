/**
 Package identities (base/utils/rpm.go): parsing, printing and comparing name-epoch:version-release.arch.

 The regular expression is modelled by what its leftmost, greedy search finds. A greedy part whose
 class excludes the character that must follow it cannot give characters back, so it ends where its
 run of characters ends; only the package name and the release can back up, and they are searched
 from the right.
 */
module Rpm {
  import opened Wrappers
  import opened Text
  import opened Orders

  datatype Nevra = Nevra(name: string, epoch: int, version: string, release: string, arch: string)

  // ----- printing

  function ShowEvra(n: Nevra, showEpoch: bool): string
  {
    if n.epoch != 0 || showEpoch then
      IntText(n.epoch) + ":" + n.version + "-" + n.release + "." + n.arch
    else
      n.version + "-" + n.release + "." + n.arch
  }

  /** Nevra.StringE */
  function Show(n: Nevra, showEpoch: bool): string
  {
    if n.epoch != 0 || showEpoch then
      n.name + "-" + IntText(n.epoch) + ":" + n.version + "-" + n.release + "." + n.arch
    else
      n.name + "-" + n.version + "-" + n.release + "." + n.arch
  }

  /** NEVRAStringE: a name and an EVRA joined, the zero epoch supplied when asked for and missing. */
  function Join(name: string, evra: string, showEpoch: bool): string
  {
    name + "-" + if showEpoch && ':' !in evra then "0:" + evra else evra
  }

  // ----- the pattern

  datatype Vra = Vra(version: string, release: string, arch: string)
  datatype Evra = Evra(epoch: string, vra: Vra)
  datatype Captures = Captures(leadEpoch: string, name: string, epoch: string, vra: Vra)

  function LastDot(s: string, lo: nat, hi: nat): (r: Option<nat>)
    requires lo <= hi <= |s|
    ensures r.Some? ==> lo <= r.value < hi && s[r.value] == '.'
    ensures forall k :: lo <= k < hi && s[k] == '.' ==> r.Some? && k <= r.value
  {
    if lo == hi then None
    else if s[hi - 1] == '.' then Some(hi - 1)
    else LastDot(s, lo, hi - 1)
  }

  /** ver-rel.arch at position i */
  function MatchVra(s: string, i: nat): Option<Vra>
    requires i <= |s|
  {
    var j := RunEnd(s, i, NotDashColon);
    if j < |s| && s[j] == '-' then
      match LastDot(s, j + 1, RunEnd(s, j + 1, NotDashColon))
      case None => None
      case Some(d) => Some(Vra(s[i..j], s[j + 1..d], s[d + 1..RunEnd(s, d + 1, ArchChar)]))
    else
      None
  }

  /** An optional epoch, then ver-rel.arch; the epoch is tried first. */
  function MatchEvra(s: string, i: nat): Option<Evra>
    requires i <= |s|
  {
    var j := RunEnd(s, i, Digit);
    if i < j < |s| && s[j] == ':' && MatchVra(s, j + 1).Some? then
      Some(Evra(s[i..j], MatchVra(s, j + 1).value))
    else
      match MatchVra(s, i)
      case None => None
      case Some(v) => Some(Evra("", v))
  }

  /** The longest non-empty name starting at i and ending no later than p that lets the rest match. */
  function MatchName(s: string, i: nat, p: nat): Option<Captures>
    requires i <= p <= |s|
    decreases p
  {
    if p == i then None
    else if p < |s| && s[p] == '-' && MatchEvra(s, p + 1).Some? then
      var e := MatchEvra(s, p + 1).value;
      Some(Captures("", s[i..p], e.epoch, e.vra))
    else MatchName(s, i, p - 1)
  }

  function MatchAt(s: string, i: nat): Option<Captures>
    requires i <= |s|
  {
    var j := RunEnd(s, i, Digit);
    if i < j < |s| && s[j] == ':' && MatchName(s, j + 1, RunEnd(s, j + 1, NotColon)).Some? then
      Some(MatchName(s, j + 1, RunEnd(s, j + 1, NotColon)).value.(leadEpoch := s[i..j]))
    else
      MatchName(s, i, RunEnd(s, i, NotColon))
  }

  /** FindStringSubmatch: the first position at which the pattern matches. */
  function FindMatch(s: string, i: nat): Option<Captures>
    requires i <= |s|
    decreases |s| - i
  {
    if MatchAt(s, i).Some? then MatchAt(s, i)
    else if i == |s| then None
    else FindMatch(s, i + 1)
  }

  function EpochOf(c: Captures): Option<nat>
  {
    if c.leadEpoch != "" then
      if AllOf(c.leadEpoch, Digit) then Atoi(c.leadEpoch) else None
    else if c.epoch != "" then
      if AllOf(c.epoch, Digit) then Atoi(c.epoch) else None
    else
      Some(0)
  }

  /** ParseNevra: None stands for the returned error. */
  function Parse(s: string): Option<Nevra>
  {
    match FindMatch(s, 0)
    case None => None
    case Some(c) =>
      match EpochOf(c)
      case None => None
      case Some(epoch) =>
        var res := Nevra(c.name, epoch, c.vra.version, c.vra.release, c.vra.arch);
        if epoch == 0 && Show(res, false) == s then Some(res)
        else if Show(res, true) != s then None
        else Some(res)
  }

  // ----- what parsing accepts

  predicate WellFormed(n: Nevra)
  {
    && n.name != "" && AllOf(n.name, NotColon)
    && 0 <= n.epoch <= MAX_INT
    && AllOf(n.version, NotDashColon)
    && AllOf(n.release, NotDashColon)
    && AllOf(n.arch, ArchChar)
  }

  lemma VraMatches(s: string, i: nat, j: nat, d: nat)
    requires i <= j < d < |s| && s[j] == '-' && s[d] == '.'
    requires forall k :: i <= k < |s| && k != j ==> NotDashColon.Has(s[k])
    requires forall k :: d < k < |s| ==> ArchChar.Has(s[k])
    ensures MatchVra(s, i) == Some(Vra(s[i..j], s[j + 1..d], s[d + 1..]))
  {
    hide RunEnd, LastDot, AllOf;
    RunEndIs(s, i, NotDashColon, j);
    RunEndIs(s, j + 1, NotDashColon, |s|);
    RunEndIs(s, d + 1, ArchChar, |s|);
    LastDotIs(s, j + 1, |s|, d);
    assert s[d + 1..|s|] == s[d + 1..];
  }

  lemma LastDotIs(s: string, lo: nat, hi: nat, d: nat)
    requires lo <= d < hi <= |s| && s[d] == '.' && forall k :: d < k < hi ==> s[k] != '.'
    ensures LastDot(s, lo, hi) == Some(d)
  {
  }

  lemma {:induction false} NameMatchesAt(s: string, i: nat, at: nat, p: nat)
    requires i < at <= p <= |s| && at < |s| && s[at] == '-' && MatchEvra(s, at + 1).Some?
    requires forall q :: at < q <= p && q < |s| && s[q] == '-' ==> MatchEvra(s, q + 1).None?
    ensures var e := MatchEvra(s, at + 1).value;
            MatchName(s, i, p) == Some(Captures("", s[i..at], e.epoch, e.vra))
  {
    hide MatchEvra, MatchVra, RunEnd;
    if at < p { NameMatchesAt(s, i, at, p - 1); }
  }

  /** Where the version, the release and the arch of a print stand, whatever comes before them. */
  lemma VraAt(pre: string, n: Nevra)
    requires WellFormed(n)
    ensures var s := pre + n.version + "-" + n.release + "." + n.arch;
            && MatchVra(s, |pre|) == Some(Vra(n.version, n.release, n.arch))
            && s[..|pre|] == pre && s[|pre| + |n.version|] == '-'
            && forall k :: |pre| <= k < |s| && k != |pre| + |n.version| ==> NotDashColon.Has(s[k])
  {
    hide MatchVra, LastDot;
    var s := pre + n.version + "-" + n.release + "." + n.arch;
    var j := |pre| + |n.version|;
    var d := j + 1 + |n.release|;
    assert s[|pre|..j] == n.version && s[j + 1..d] == n.release && s[d + 1..] == n.arch;
    assert s[j] == '-' && s[d] == '.';
    forall k | |pre| <= k < |s| && k != j ensures NotDashColon.Has(s[k]) && (d < k ==> ArchChar.Has(s[k])) {
      if k < j { assert s[k] == n.version[k - |pre|]; }
      else if k < d { assert s[k] == n.release[k - j - 1]; }
      else if d < k { assert s[k] == n.arch[k - d - 1]; }
    }
    VraMatches(s, |pre|, j, d);
  }

  /** The characters of a name, a dash, digits and a colon. */
  lemma EpochPrefix(name: string, e: string)
    requires AllOf(name, NotColon) && AllOf(e, Digit)
    ensures var pre := name + "-" + e + ":"; var colon := |name| + 1 + |e|;
            && |pre| == colon + 1 && pre[..|name|] == name && pre[|name| + 1..colon] == e
            && pre[|name|] == '-' && pre[colon] == ':'
            && (forall k :: 0 <= k < |name| ==> NotColon.Has(pre[k]))
            && (forall k :: |name| < k < colon ==> Digit.Has(pre[k]))
  {
    var pre := name + "-" + e + ":";
    var colon := |name| + 1 + |e|;
    assert pre[..|name|] == name && pre[|name| + 1..colon] == e;
    forall k | |name| < k < colon ensures Digit.Has(pre[k]) { assert pre[k] == e[k - |name| - 1]; }
  }

  /** If the head of s reads name-digits: and the pattern matches what follows, that is what it finds. */
  lemma MatchWithEpoch(s: string, at: nat, colon: nat, v: Vra)
    requires 0 < at && at + 1 < colon < |s| && s[at] == '-' && s[colon] == ':'
    requires forall k :: 0 <= k < at ==> NotColon.Has(s[k])
    requires forall k :: at < k < colon ==> Digit.Has(s[k])
    requires MatchVra(s, colon + 1) == Some(v)
    ensures MatchAt(s, 0) == Some(Captures("", s[..at], s[at + 1..colon], v))
  {
    hide MatchVra, MatchName;
    RunEndIs(s, at + 1, Digit, colon);
    assert forall k :: at < k < colon ==> Digit.Has(s[k]) && s[k] != '-' && NotColon.Has(s[k]);
    RunEndIs(s, 0, NotColon, colon);
    hide RunEnd;
    NameMatchesAt(s, 0, at, colon);
    assert RunEnd(s, 0, Digit) <= at by { assert !Digit.Has(s[at]); }
    assert s[0..at] == s[..at];
  }

  /** With the epoch shown, the pattern finds the parts that were printed. */
  lemma FindsWithEpoch(n: Nevra)
    requires WellFormed(n)
    ensures FindMatch(Show(n, true), 0)
         == Some(Captures("", n.name, Decimal(n.epoch), Vra(n.version, n.release, n.arch)))
  {
    var e := Decimal(n.epoch);
    DecimalReadsBack(n.epoch);
    var pre := n.name + "-" + e + ":";
    VraAt(pre, n);
    EpochPrefix(n.name, e);
    FindsAfterPrefix(Show(n, true), pre, n.name, e, Vra(n.version, n.release, n.arch));
  }

  lemma FindsAfterPrefix(s: string, pre: string, name: string, e: string, v: Vra)
    requires name != "" && e != "" && |pre| == |name| + |e| + 2 < |s| && s[..|pre|] == pre
    requires pre[..|name|] == name && pre[|name| + 1..|pre| - 1] == e
    requires pre[|name|] == '-' && pre[|pre| - 1] == ':'
    requires forall k :: 0 <= k < |name| ==> NotColon.Has(pre[k])
    requires forall k :: |name| < k < |pre| - 1 ==> Digit.Has(pre[k])
    requires MatchVra(s, |pre|) == Some(v)
    ensures FindMatch(s, 0) == Some(Captures("", name, e, v))
  {
    hide MatchVra, MatchAt;
    assert forall k :: 0 <= k < |pre| ==> s[k] == s[..|pre|][k];
    MatchWithEpoch(s, |name|, |pre| - 1, v);
    assert s[..|name|] == s[..|pre|][..|name|];
    assert s[|name| + 1..|pre| - 1] == s[..|pre|][|name| + 1..|pre| - 1];
  }

  lemma NoDashNoVra(s: string, i: nat)
    requires i <= |s| && forall k :: i <= k < |s| ==> NotDashColon.Has(s[k])
    ensures MatchVra(s, i).None?
  {
    RunEndIs(s, i, NotDashColon, |s|);
  }

  lemma MatchWithoutEpoch(s: string, at: nat, dash: nat, v: Vra)
    requires 0 < at < dash < |s| && s[at] == '-' && s[dash] == '-'
    requires forall k :: 0 <= k < |s| ==> NotColon.Has(s[k])
    requires forall k :: at < k < |s| && k != dash ==> s[k] != '-'
    requires MatchVra(s, at + 1) == Some(v)
    ensures MatchAt(s, 0) == Some(Captures("", s[..at], "", v))
  {
    hide MatchVra, RunEnd, MatchName;
    RunEndIs(s, 0, NotColon, |s|);
    NoDashNoVra(s, dash + 1);
    NoColonNoEpoch(s, at + 1);
    NoColonNoEpoch(s, dash + 1);
    NameMatchesAt(s, 0, at, |s|);
    assert s[0..at] == s[..at];
  }

  /** With the zero epoch left out there is no colon at all, and the pattern still finds the parts. */
  lemma FindsWithoutEpoch(n: Nevra)
    requires WellFormed(n) && n.epoch == 0
    ensures FindMatch(Show(n, false), 0)
         == Some(Captures("", n.name, "", Vra(n.version, n.release, n.arch)))
  {
    var at := |n.name|;
    var pre := n.name + "-";
    var s := pre + n.version + "-" + n.release + "." + n.arch;
    assert s == Show(n, false);
    VraAt(pre, n);
    hide MatchVra, MatchAt, Show;
    assert forall k :: 0 <= k < |pre| ==> s[k] == s[..|pre|][k];
    assert s[..at] == s[..|pre|][..at] == n.name;
    assert s[at] == pre[at] == '-';
    MatchWithoutEpoch(s, at, at + 1 + |n.version|, Vra(n.version, n.release, n.arch));
  }

  lemma NoColonNoEpoch(s: string, i: nat)
    requires i <= |s| && forall k :: 0 <= k < |s| ==> NotColon.Has(s[k])
    ensures MatchEvra(s, i)
         == match MatchVra(s, i) case None => None case Some(v) => Some(Evra("", v))
  {
    hide MatchVra, RunEnd;
  }

  /** Every part the pattern captures is drawn from the class of its group. */
  ghost predicate Shaped(c: Captures)
  {
    && c.name != "" && AllOf(c.name, NotColon) && AllOf(c.epoch, Digit) && AllOf(c.leadEpoch, Digit)
    && AllOf(c.vra.version, NotDashColon) && AllOf(c.vra.release, NotDashColon)
    && AllOf(c.vra.arch, ArchChar)
  }

  lemma EvraShape(s: string, i: nat)
    requires i <= |s| && MatchEvra(s, i).Some?
    ensures var e := MatchEvra(s, i).value; Shaped(Captures("", "n", e.epoch, e.vra))
  {
    hide RunEnd, LastDot;
  }

  lemma {:induction false} NameShape(s: string, i: nat, p: nat)
    requires i <= p <= |s| && MatchName(s, i, p).Some?
    requires forall k :: i <= k < p ==> NotColon.Has(s[k])
    ensures Shaped(MatchName(s, i, p).value) && MatchName(s, i, p).value.leadEpoch == ""
    decreases p
  {
    hide MatchEvra;
    if p < |s| && s[p] == '-' && MatchEvra(s, p + 1).Some? {
      EvraShape(s, p + 1);
    } else {
      NameShape(s, i, p - 1);
    }
  }

  lemma {:induction false} FindShape(s: string, i: nat)
    requires i <= |s| && FindMatch(s, i).Some?
    ensures Shaped(FindMatch(s, i).value)
    decreases |s| - i
  {
    hide MatchName, RunEnd;
    if MatchAt(s, i).Some? {
      var j := RunEnd(s, i, Digit);
      if i < j < |s| && s[j] == ':' && MatchName(s, j + 1, RunEnd(s, j + 1, NotColon)).Some? {
        NameShape(s, j + 1, RunEnd(s, j + 1, NotColon));
      } else {
        NameShape(s, i, RunEnd(s, i, NotColon));
      }
    } else {
      FindShape(s, i + 1);
    }
  }

  /**
   Parsing accepts exactly the prints of well-formed identities, each yielding the identity printed:
   an independent description of ParseNevra that mentions no pattern.
   */
  lemma ParseAcceptsExactlyPrints(s: string, n: Nevra)
    ensures Parse(s) == Some(n) <==> WellFormed(n) && (s == Show(n, true) || s == Show(n, false))
  {
    if Parse(s) == Some(n) { FindShape(s, 0); }
    if WellFormed(n) {
      DecimalReadsBack(n.epoch);
      if s == Show(n, true) {
        FindsWithEpoch(n);
        assert Parse(s) == Some(n);
      } else if s == Show(n, false) {
        FindsWithoutEpoch(n);
        assert Parse(s) == Some(n);
      }
    }
  }

  lemma RoundTrip(n: Nevra, showEpoch: bool)
    requires WellFormed(n)
    ensures Parse(Show(n, showEpoch)) == Some(n)
  {
    ParseAcceptsExactlyPrints(Show(n, showEpoch), n);
  }

  /** The print with epoch is a key: two well-formed identities never share it. */
  lemma FullPrintIsInjective(m: Nevra, n: Nevra)
    requires WellFormed(m) && WellFormed(n) && Show(m, true) == Show(n, true)
    ensures m == n
  {
    RoundTrip(m, true);
    RoundTrip(n, true);
  }

  /** Joining a stored name and EVRA gives the print with epoch, whichever way the EVRA was stored. */
  lemma JoinAgreesWithPrint(n: Nevra, stored: bool)
    requires WellFormed(n)
    ensures Join(n.name, ShowEvra(n, stored), true) == Show(n, true)
  {
    var evra := ShowEvra(n, stored);
    if n.epoch != 0 || stored {
      assert evra[|IntText(n.epoch)|] == ':';
      assert n.name + "-" + evra == Show(n, true);
    } else {
      assert ':' !in evra by {
        assert forall k :: 0 <= k < |n.version| ==> NotDashColon.Has(n.version[k]);
        assert forall k :: 0 <= k < |n.release| ==> NotDashColon.Has(n.release[k]);
        assert forall k :: 0 <= k < |n.arch| ==> ArchChar.Has(n.arch[k]);
      }
      assert "0" == IntText(0);
      assert n.name + "-" + ("0:" + evra) == Show(n, true);
    }
  }

  /** Which texts read as a package, character by character; an epoch that is left out is 0. */
  lemma ReadsAsWritten(name: string, epoch: nat, version: string, release: string, arch: string)
    requires name != "" && ':' !in name && epoch <= 9223372036854775807
    requires forall c :: c in version || c in release ==> c != '-' && c != ':'
    requires forall c :: c in arch ==> 'a' <= c <= 'z' || '0' <= c <= '9' || c == '_'
    ensures Parse(name + "-" + version + "-" + release + "." + arch) == Some(Nevra(name, 0, version, release, arch))
    ensures Parse(name + "-" + IntText(epoch) + ":" + version + "-" + release + "." + arch)
            == Some(Nevra(name, epoch, version, release, arch))
  {
    var n := Nevra(name, epoch, version, release, arch);
    assert AllOf(name, NotColon) && AllOf(arch, ArchChar) by {
      assert forall k :: 0 <= k < |name| ==> name[k] in name;
      assert forall k :: 0 <= k < |arch| ==> arch[k] in arch;
    }
    assert AllOf(version, NotDashColon) && AllOf(release, NotDashColon) by {
      assert forall k :: 0 <= k < |version| ==> version[k] in version;
      assert forall k :: 0 <= k < |release| ==> release[k] in release;
    }
    hide Parse;
    RoundTrip(n, true);
    RoundTrip(n.(epoch := 0), false);
  }

  // ----- comparing

  datatype Evr = Evr(epoch: string, version: string, release: string)

  /** rpm.LabelCompare, which lives in another library: some three-way total preorder. */
  type LabelOrder = f: (Evr, Evr) -> int | IsPreorder(f) witness (a: Evr, b: Evr) => 0

  function Label(n: Nevra): Evr
  {
    Evr(IntText(n.epoch), n.version, n.release)
  }

  function EvraCmp(lc: LabelOrder, n: Nevra, m: Nevra): int
  {
    var ret := lc(Label(n), Label(m));
    if ret == 0 then Compare(n.arch, m.arch) else ret
  }

  function Cmp(lc: LabelOrder, n: Nevra, m: Nevra): int
  {
    var ret := Compare(n.name, m.name);
    if ret != 0 then ret else EvraCmp(lc, n, m)
  }

  /** The name decides first, then what LabelCompare says of epoch, version and release, then the arch. */
  lemma CmpDecides(lc: LabelOrder, n: Nevra, m: Nevra)
    ensures n.name != m.name ==> Cmp(lc, n, m) == Compare(n.name, m.name) != 0
    ensures n.name == m.name ==>
              var byLabel := lc(Evr(IntText(n.epoch), n.version, n.release),
                                Evr(IntText(m.epoch), m.version, m.release));
              Cmp(lc, n, m) == if byLabel != 0 then byLabel else Compare(n.arch, m.arch)
  {
    CompareIsAntisymmetric(n.name, m.name);
  }

  lemma TextPreorder<T(!new)>(key: T -> string, cmp: (T, T) -> int)
    requires forall a, b :: cmp(a, b) == Compare(key(a), key(b))
    ensures IsPreorder(cmp)
  {
    forall a, b ensures -1 <= cmp(a, b) <= 1 && cmp(a, b) == -cmp(b, a) {
      CompareIsAntisymmetric(key(a), key(b));
    }
    forall a, b, c | cmp(a, b) <= 0 && cmp(b, c) <= 0 ensures cmp(a, c) <= 0 {
      CompareIsTransitive(key(a), key(b), key(c));
    }
  }

  function CmpOrder(lc: LabelOrder): (Nevra, Nevra) -> int
  {
    (n, m) => Cmp(lc, n, m)
  }

  /** Comparison of identities is a total preorder that never ties across names. */
  lemma CmpIsPreorder(lc: LabelOrder)
    ensures IsPreorder(CmpOrder(lc))
    ensures forall n, m :: Cmp(lc, n, m) == 0 ==> n.name == m.name && n.arch == m.arch
  {
    var byName := (n: Nevra, m: Nevra) => Compare(n.name, m.name);
    var byArch := (n: Nevra, m: Nevra) => Compare(n.arch, m.arch);
    var byLabel := (n: Nevra, m: Nevra) => lc(Label(n), Label(m));
    var byEvra := (n: Nevra, m: Nevra) => EvraCmp(lc, n, m);
    TextPreorder((n: Nevra) => n.name, byName);
    TextPreorder((n: Nevra) => n.arch, byArch);
    assert IsPreorder(byLabel) by {
      forall a, b ensures -1 <= byLabel(a, b) <= 1 && byLabel(a, b) == -byLabel(b, a) {
        assert lc(Label(a), Label(b)) == -lc(Label(b), Label(a));
      }
      forall a, b, c | byLabel(a, b) <= 0 && byLabel(b, c) <= 0 ensures byLabel(a, c) <= 0 {
        assert lc(Label(a), Label(b)) <= 0 && lc(Label(b), Label(c)) <= 0;
      }
    }
    ChainIsPreorder(byLabel, byArch, byEvra);
    ChainIsPreorder(byName, byEvra, CmpOrder(lc));
    forall n, m | Cmp(lc, n, m) == 0 ensures n.name == m.name && n.arch == m.arch {
      CompareIsAntisymmetric(n.name, m.name);
      CompareIsAntisymmetric(n.arch, m.arch);
    }
  }
}
