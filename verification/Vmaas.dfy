/** Update records as VMaaS and yum report them (base/vmaas/vmaas.go), and their order. */
module Vmaas {
  import opened Wrappers
  import opened Text
  import opened Orders
  import opened Rpm

  datatype Status = Installable | Applicable

  /** One available update. A field the report leaves out reads as the empty string. */
  datatype Update = Update(
    repository: string,
    releasever: string,
    basearch: string,
    erratum: string,
    package: string,
    packageName: string,
    evra: string,
    status: Status)

  function GetPackage(u: Update): string
  {
    if u.packageName != "" && u.evra != "" then u.packageName + "-" + u.evra else u.package
  }

  /** The fields that identify an update. */
  datatype UpdateKey = UpdateKey(package: string, erratum: string, repository: string, basearch: string,
                                 releasever: string)

  function Key(u: Update): UpdateKey
  {
    UpdateKey(GetPackage(u), u.erratum, u.repository, u.basearch, u.releasever)
  }

  /** UpdatesV3ResponseAvailableUpdates.Cmp */
  function UpdateCmp(u: Update, v: Update): int
  {
    if Compare(GetPackage(u), GetPackage(v)) != 0 then Compare(GetPackage(u), GetPackage(v))
    else if Compare(u.erratum, v.erratum) != 0 then Compare(u.erratum, v.erratum)
    else if Compare(u.repository, v.repository) != 0 then Compare(u.repository, v.repository)
    else if Compare(u.basearch, v.basearch) != 0 then Compare(u.basearch, v.basearch)
    else Compare(u.releasever, v.releasever)
  }

  predicate Parses(u: Update)
  {
    Parse(GetPackage(u)).Some?
  }

  function PackageCmp(lc: LabelOrder, u: Update, v: Update): int
  {
    match (Parse(GetPackage(u)), Parse(GetPackage(v)))
    case (Some(n), Some(m)) => Cmp(lc, n, m)
    case (None, Some(_)) => -1
    case (Some(_), None) => 1
    case (None, None) => 0
  }

  /**
   The order update lists are sorted by: package identity first, then the rest of the update.
   (Unreadable packages come first only to make the order total; mergeUpdates never compares one.)
   */
  function ListOrder(lc: LabelOrder): (Update, Update) -> int
  {
    (u, v) => if PackageCmp(lc, u, v) != 0 then PackageCmp(lc, u, v) else UpdateCmp(u, v)
  }

  lemma UpdateCmpIsPreorder(byRest: (Update, Update) -> int)
    requires forall u, v :: byRest(u, v) == UpdateCmp(u, v)
    ensures IsPreorder(byRest)
  {
    var c0 := (u: Update, v: Update) => Compare(GetPackage(u), GetPackage(v));
    var c1 := (u: Update, v: Update) => Compare(u.erratum, v.erratum);
    var c2 := (u: Update, v: Update) => Compare(u.repository, v.repository);
    var c3 := (u: Update, v: Update) => Compare(u.basearch, v.basearch);
    var c4 := (u: Update, v: Update) => Compare(u.releasever, v.releasever);
    TextPreorder(GetPackage, c0);
    TextPreorder((u: Update) => u.erratum, c1);
    TextPreorder((u: Update) => u.repository, c2);
    TextPreorder((u: Update) => u.basearch, c3);
    TextPreorder((u: Update) => u.releasever, c4);
    var d3 := (u: Update, v: Update) => if c3(u, v) != 0 then c3(u, v) else c4(u, v);
    var d2 := (u: Update, v: Update) => if c2(u, v) != 0 then c2(u, v) else d3(u, v);
    var d1 := (u: Update, v: Update) => if c1(u, v) != 0 then c1(u, v) else d2(u, v);
    ChainIsPreorder(c3, c4, d3);
    ChainIsPreorder(c2, d3, d2);
    ChainIsPreorder(c1, d2, d1);
    hide Compare, GetPackage, IsPreorder;
    ChainIsPreorder(c0, d1, byRest);
  }

  lemma PackageCmpIsPreorder(lc: LabelOrder, byPackage: (Update, Update) -> int)
    requires forall u, v :: byPackage(u, v) == PackageCmp(lc, u, v)
    ensures IsPreorder(byPackage)
  {
    CmpIsPreorder(lc);
    hide Parse, Cmp;
    assert forall n, m :: CmpOrder(lc)(n, m) == Cmp(lc, n, m);
    forall u, v ensures -1 <= byPackage(u, v) <= 1 && byPackage(u, v) == -byPackage(v, u) {
      if Parses(u) && Parses(v) {
        assert CmpOrder(lc)(Parse(GetPackage(u)).value, Parse(GetPackage(v)).value)
            == -CmpOrder(lc)(Parse(GetPackage(v)).value, Parse(GetPackage(u)).value);
      }
    }
    forall u, v, w | byPackage(u, v) <= 0 && byPackage(v, w) <= 0 ensures byPackage(u, w) <= 0 {
      if Parses(u) && Parses(v) && Parses(w) {
        assert CmpOrder(lc)(Parse(GetPackage(u)).value, Parse(GetPackage(v)).value) <= 0;
      }
    }
  }

  /** The list order is a total preorder, and it ties exactly on equal keys. */
  lemma ListOrderIsPreorder(lc: LabelOrder)
    ensures IsPreorder(ListOrder(lc))
    ensures forall u, v :: ListOrder(lc)(u, v) == 0 <==> Key(u) == Key(v)
  {
    var byPackage := (u: Update, v: Update) => PackageCmp(lc, u, v);
    var byRest := (u: Update, v: Update) => UpdateCmp(u, v);
    PackageCmpIsPreorder(lc, byPackage);
    UpdateCmpIsPreorder(byRest);
    ChainIsPreorder(byPackage, byRest, ListOrder(lc));
    forall u, v ensures ListOrder(lc)(u, v) == 0 <==> Key(u) == Key(v) {
      TieIsSameKey(u, v);
      if Key(u) == Key(v) {
        assert byPackage(u, v) == -byPackage(v, u);
      }
    }
  }

  /** The first of package, erratum, repository, basearch and releasever in which two updates differ decides. */
  lemma FirstDifferenceDecides(u: Update, v: Update)
    ensures UpdateCmp(u, v)
            == if GetPackage(u) != GetPackage(v) then Compare(GetPackage(u), GetPackage(v))
               else if u.erratum != v.erratum then Compare(u.erratum, v.erratum)
               else if u.repository != v.repository then Compare(u.repository, v.repository)
               else if u.basearch != v.basearch then Compare(u.basearch, v.basearch)
               else Compare(u.releasever, v.releasever)
  {
    CompareIsAntisymmetric(GetPackage(u), GetPackage(v));
    CompareIsAntisymmetric(u.erratum, v.erratum);
    CompareIsAntisymmetric(u.repository, v.repository);
    CompareIsAntisymmetric(u.basearch, v.basearch);
  }

  /** Of two readable updates the package decides: its name, its label, its arch; then the rest of the update. */
  lemma ListOrderDecides(lc: LabelOrder, u: Update, v: Update, n: Nevra, m: Nevra)
    requires Parse(GetPackage(u)) == Some(n) && Parse(GetPackage(v)) == Some(m)
    ensures var byLabel := lc(Evr(IntText(n.epoch), n.version, n.release), Evr(IntText(m.epoch), m.version, m.release));
            ListOrder(lc)(u, v)
            == if n.name != m.name then Compare(n.name, m.name)
               else if byLabel != 0 then byLabel
               else if n.arch != m.arch then Compare(n.arch, m.arch)
               else UpdateCmp(u, v)
  {
    hide Parse, UpdateCmp;
    CmpDecides(lc, n, m);
    CompareIsAntisymmetric(n.arch, m.arch);
  }

  lemma TieIsSameKey(u: Update, v: Update)
    ensures UpdateCmp(u, v) == 0 <==> Key(u) == Key(v)
    ensures Key(u) == Key(v) <==>
              && GetPackage(u) == GetPackage(v) && u.erratum == v.erratum && u.repository == v.repository
              && u.basearch == v.basearch && u.releasever == v.releasever
  {
    CompareIsAntisymmetric(GetPackage(u), GetPackage(v));
    CompareIsAntisymmetric(u.erratum, v.erratum);
    CompareIsAntisymmetric(u.repository, v.repository);
    CompareIsAntisymmetric(u.basearch, v.basearch);
    CompareIsAntisymmetric(u.releasever, v.releasever);
  }
}
