/** String facts the Go standard library supplies: comparison, decimal text, runs of characters. */
module Text {
  import opened Wrappers

  /** strings.Compare: -1, 0 or 1, byte by byte, a proper prefix being smaller. */
  function Compare(a: string, b: string): int
  {
    if a == "" || b == "" then
      if a == b then 0 else if a == "" then -1 else 1
    else if a[0] != b[0] then
      if a[0] < b[0] then -1 else 1
    else
      Compare(a[1..], b[1..])
  }

  lemma {:induction false} CompareIsAntisymmetric(a: string, b: string)
    ensures -1 <= Compare(a, b) <= 1
    ensures Compare(a, b) == -Compare(b, a)
    ensures Compare(a, b) == 0 <==> a == b
  {
    if a != "" && b != "" && a[0] == b[0] {
      CompareIsAntisymmetric(a[1..], b[1..]);
      assert a == [a[0]] + a[1..] && b == [b[0]] + b[1..];
    }
  }

  lemma {:induction false} CompareIsTransitive(a: string, b: string, c: string)
    requires Compare(a, b) <= 0 && Compare(b, c) <= 0
    ensures Compare(a, c) <= 0
  {
    if a != "" && b != "" && c != "" && a[0] == b[0] == c[0] {
      CompareIsTransitive(a[1..], b[1..], c[1..]);
    }
  }

  /** a comes before b at position k: they agree up to there, and a ends or has the smaller character. */
  predicate BeforeAt(a: string, b: string, k: nat)
  {
    && k <= |a| && k < |b| && (forall i :: 0 <= i < k ==> a[i] == b[i])
    && (k == |a| || a[k] < b[k])
  }

  /** The first difference decides, the smaller character or the end of the string coming first. */
  lemma {:induction false} CompareDecides(a: string, b: string)
    ensures Compare(a, b) == -1 <==> exists k: nat :: BeforeAt(a, b, k)
    ensures Compare(a, b) == 1 <==> exists k: nat :: BeforeAt(b, a, k)
  {
    CompareIsAntisymmetric(a, b);
    if a == "" || b == "" {
      assert a == "" && b != "" ==> BeforeAt(a, b, 0);
      assert b == "" && a != "" ==> BeforeAt(b, a, 0);
    } else if a[0] != b[0] {
      assert BeforeAt(a, b, 0) || BeforeAt(b, a, 0);
    } else {
      CompareDecides(a[1..], b[1..]);
      LaterAt(a, b);
      LaterAt(b, a);
    }
  }

  lemma LaterAt(a: string, b: string)
    requires a != "" && b != "" && a[0] == b[0]
    ensures (exists k: nat :: BeforeAt(a, b, k)) <==> exists k: nat :: BeforeAt(a[1..], b[1..], k)
  {
    if k: nat :| BeforeAt(a, b, k) {
      assert k > 0 && BeforeAt(a[1..], b[1..], k - 1);
    }
    if k: nat :| BeforeAt(a[1..], b[1..], k) {
      assert forall i :: 0 < i <= k ==> a[i] == a[1..][i - 1] && b[i] == b[1..][i - 1];
      assert BeforeAt(a, b, k + 1);
    }
  }

  /** The character classes of the package pattern: [0-9], [^:], [^-:] and [a-z0-9_]. */
  datatype CharClass = Digit | NotColon | NotDashColon | ArchChar {
    predicate Has(c: char)
    {
      match this
      case Digit => '0' <= c <= '9'
      case NotColon => c != ':'
      case NotDashColon => c != '-' && c != ':'
      case ArchChar => 'a' <= c <= 'z' || '0' <= c <= '9' || c == '_'
    }
  }

  predicate AllOf(s: string, cls: CharClass) { forall k :: 0 <= k < |s| ==> cls.Has(s[k]) }

  function DigitChar(d: nat): (c: char)
    requires d < 10
    ensures Digit.Has(c)
  {
    ('0' as int + d) as char
  }

  /** fmt %d on a non-negative number. */
  function Decimal(n: nat): string
  {
    if n < 10 then [DigitChar(n)] else Decimal(n / 10) + [DigitChar(n % 10)]
  }

  /** fmt %d on any number. */
  function IntText(i: int): string
  {
    if i < 0 then "-" + Decimal(-i) else Decimal(i)
  }

  function DigitsValue(s: string): nat
    requires AllOf(s, Digit)
  {
    if s == "" then 0
    else DigitsValue(s[..|s| - 1]) * 10 + (s[|s| - 1] as int - '0' as int)
  }

  const MAX_INT: nat := 0x7FFF_FFFF_FFFF_FFFF

  /** strconv.Atoi on the digit strings the pattern captures; out of range is an error. */
  function Atoi(s: string): Option<nat>
    requires AllOf(s, Digit)
  {
    if DigitsValue(s) <= MAX_INT then Some(DigitsValue(s)) else None
  }

  lemma {:induction false} DecimalReadsBack(n: nat)
    ensures Decimal(n) != "" && AllOf(Decimal(n), Digit) && DigitsValue(Decimal(n)) == n
  {
    if n < 10 {
      assert Decimal(n)[..0] == "";
    } else {
      DecimalReadsBack(n / 10);
      assert Decimal(n)[..|Decimal(n)| - 1] == Decimal(n / 10);
    }
  }

  lemma DigitsInOrder()
    ensures IntText(0) == "0" && IntText(7) == "7" && IntText(120) == "120"
  {
    assert Decimal(120) == Decimal(12) + [DigitChar(0)] && Decimal(12) == Decimal(1) + [DigitChar(2)];
  }

  /** End of the longest run of characters of a class that starts at i. */
  function RunEnd(s: string, i: nat, cls: CharClass): (e: nat)
    requires i <= |s|
    ensures i <= e <= |s|
    ensures forall k :: i <= k < e ==> cls.Has(s[k])
    ensures e < |s| ==> !cls.Has(s[e])
    decreases |s| - i
  {
    if i < |s| && cls.Has(s[i]) then RunEnd(s, i + 1, cls) else i
  }

  /** The end of a run is determined by what stops it. */
  lemma RunEndIs(s: string, i: nat, cls: CharClass, e: nat)
    requires i <= e <= |s|
    requires forall k :: i <= k < e ==> cls.Has(s[k])
    requires e == |s| || !cls.Has(s[e])
    ensures RunEnd(s, i, cls) == e
  {
  }
}
