/** The cross-reference analyzer (`CveRhsaAnalyzer`): a reverse index from
    CVE id to the advisories listing it, one fixed/unfixed verdict per CVE
    of the CVE table with the advisories and the union of their packages,
    and the inverted map from package to fixed CVE ids.

    The analyzer object only holds references to the loaded tables, and
    reads them; here the tables are passed as values, so that nothing the
    analyzer does can change them. */
module Analysis {
  import opened Wrappers
  import opened Text
  import opened AdvisoryMaps
  import CveLists

  /** One report tuple `(cve_id, fixed, advisories, packages)`; an unfixed
      CVE carries an empty advisory list and an empty package set. */
  datatype ReportEntry = ReportEntry(id: string, fixed: bool, advisories: seq<string>, packages: set<string>)

  /** How many times advisory `a` lists CVE `c`. */
  function Occurrences(adv: map<string, Advisory>, a: string, c: string): nat {
    if a in adv then multiset(adv[a].cves)[c] else 0
  }

  /** Some stored advisory lists `c`. */
  ghost predicate Fixed(adv: map<string, Advisory>, c: string) {
    exists a :: a in adv && c in adv[a].cves
  }

  /** Some CPE descriptor of advisory `a` names package `p`. */
  ghost predicate Ships(a: Advisory, p: string) {
    exists d :: d in a.cpes && d.package == p
  }

  /** `p` is shipped by an advisory that lists `c`. */
  ghost predicate FixedIn(adv: map<string, Advisory>, c: string, p: string) {
    exists a :: a in adv && c in adv[a].cves && Ships(adv[a], p)
  }

  /** The verdict for one CVE: fixed iff an advisory lists it; its
      advisory list holds each advisory once per time that advisory lists
      the CVE; its package set is the union of the packages of those
      advisories. */
  ghost predicate IsVerdict(e: ReportEntry, adv: map<string, Advisory>) {
    && (e.fixed <==> Fixed(adv, e.id))
    && (forall a :: multiset(e.advisories)[a] == Occurrences(adv, a, e.id))
    && (forall p :: p in e.packages <==> FixedIn(adv, e.id, p))
  }

  /** A report for the CVE ids `ids`: one entry per id, no other entry,
      and each entry the verdict for its id. */
  ghost predicate IsComplianceReport(report: seq<ReportEntry>, ids: set<string>, adv: map<string, Advisory>) {
    && Covers(report, ids)
    && (forall i :: 0 <= i < |report| ==> IsVerdict(report[i], adv))
  }

  /** The entries' ids are distinct and are exactly `ids`. */
  ghost predicate Covers(report: seq<ReportEntry>, ids: set<string>) {
    && (forall i, j :: 0 <= i < j < |report| ==> report[i].id != report[j].id)
    && (forall c :: c in ids <==> exists i :: 0 <= i < |report| && report[i].id == c)
  }

  // ---------------------------------------------------------------------
  // Reverse index

  ghost predicate MentionedIn(adv: map<string, Advisory>, names: set<string>, c: string) {
    exists a :: a in names && a in adv && c in adv[a].cves
  }

  function OccurrencesIn(adv: map<string, Advisory>, names: set<string>, a: string, c: string): nat {
    if a in names then Occurrences(adv, a, c) else 0
  }

  /** `rev` indexes the advisories `done` completely and the first CVEs
      `seen` of advisory `rhsa`. */
  ghost predicate IndexOf(rev: map<string, seq<string>>, adv: map<string, Advisory>, done: set<string>,
                          rhsa: string, seen: seq<string>) {
    && (forall c :: c in rev <==> MentionedIn(adv, done, c) || c in seen)
    && (forall c, a :: c in rev ==>
          multiset(rev[c])[a] == OccurrencesIn(adv, done, a, c) + (if a == rhsa then multiset(seen)[c] else 0))
  }

  /** Appending `rhsa` to the entry of `c`, creating it if missing. */
  lemma {:induction false} IndexStep(rev: map<string, seq<string>>, adv: map<string, Advisory>, done: set<string>,
                  rhsa: string, seen: seq<string>, c: string)
    requires IndexOf(rev, adv, done, rhsa, seen) && rhsa !in done
    ensures var rev' := if c in rev then rev[c := rev[c] + [rhsa]] else rev[c := [rhsa]];
      IndexOf(rev', adv, done, rhsa, seen + [c])
  {
    var rev' := if c in rev then rev[c := rev[c] + [rhsa]] else rev[c := [rhsa]];
    assert multiset(seen + [c]) == multiset(seen) + multiset{c};
    if c !in rev {
      assert forall a :: a in done ==> Occurrences(adv, a, c) == 0;
      assert c !in seen;
    }
    forall c', a | c' in rev'
      ensures multiset(rev'[c'])[a] == OccurrencesIn(adv, done, a, c') + (if a == rhsa then multiset(seen + [c])[c'] else 0)
    {
      if c' == c && c in rev {
        assert multiset(rev[c] + [rhsa]) == multiset(rev[c]) + multiset{rhsa};
      }
    }
  }

  /** Having seen all CVEs of `rhsa`, it counts as done. */
  lemma {:induction false} IndexDone(rev: map<string, seq<string>>, adv: map<string, Advisory>, done: set<string>, rhsa: string)
    requires rhsa in adv && rhsa !in done
    requires IndexOf(rev, adv, done, rhsa, adv[rhsa].cves)
    ensures IndexOf(rev, adv, done + {rhsa}, rhsa, [])
  {
    forall c ensures c in rev <==> MentionedIn(adv, done + {rhsa}, c) {
      if c in rev && c !in adv[rhsa].cves {
        var a :| a in done && a in adv && c in adv[a].cves;
        assert a in done + {rhsa};
      }
    }
  }

  /** `rev_map`: CVE id to the advisories that list it, an advisory
      appearing once per time it lists the CVE. Advisories are visited in
      the table's (unspecified) key order. */
  method ReverseIndex(adv: map<string, Advisory>) returns (rev: map<string, seq<string>>)
    ensures forall c :: c in rev <==> Fixed(adv, c)
    ensures forall c, a :: c in rev ==> multiset(rev[c])[a] == Occurrences(adv, a, c)
  {
    rev := map[];
    var todo := adv.Keys;
    ghost var done: set<string> := {};
    ghost var last := "";
    while todo != {}
      invariant todo == adv.Keys - done && done <= adv.Keys
      invariant IndexOf(rev, adv, done, last, [])
      decreases todo
    {
      var rhsa :| rhsa in todo;
      var cveList := adv[rhsa].cves;
      var j := 0;
      while j < |cveList|
        invariant 0 <= j <= |cveList|
        invariant IndexOf(rev, adv, done, rhsa, cveList[..j])
      {
        var c := cveList[j];
        assert cveList[..j + 1] == cveList[..j] + [c];
        IndexStep(rev, adv, done, rhsa, cveList[..j], c);
        if c in rev {
          rev := rev[c := rev[c] + [rhsa]];
        } else {
          rev := rev[c := [rhsa]];
        }
        j := j + 1;
      }
      assert cveList[..j] == cveList;
      IndexDone(rev, adv, done, rhsa);
      todo := todo - {rhsa};
      done := done + {rhsa};
      last := rhsa;
    }
    assert done == adv.Keys;
    forall c | Fixed(adv, c) ensures MentionedIn(adv, done, c) {
    }
  }

  // ---------------------------------------------------------------------
  // Compliance report

  /** `pkg_set` for one CVE: the packages of every CPE descriptor of every
      advisory in `names`. */
  method UnionPackages(adv: map<string, Advisory>, names: seq<string>) returns (pkgSet: set<string>)
    requires forall a :: a in names ==> a in adv
    ensures forall p :: p in pkgSet <==> exists a :: a in names && Ships(adv[a], p)
  {
    pkgSet := {};
    var i := 0;
    while i < |names|
      invariant 0 <= i <= |names|
      invariant forall p :: p in pkgSet <==> exists a :: a in names[..i] && Ships(adv[a], p)
    {
      var cpeList := adv[names[i]].cpes;
      var k := 0;
      while k < |cpeList|
        invariant 0 <= k <= |cpeList|
        invariant forall p :: p in pkgSet <==>
          (exists a :: a in names[..i] && Ships(adv[a], p)) || (exists d :: d in cpeList[..k] && d.package == p)
      {
        assert cpeList[..k + 1] == cpeList[..k] + [cpeList[k]];
        pkgSet := pkgSet + {cpeList[k].package};
        k := k + 1;
      }
      assert cpeList[..k] == cpeList;
      assert names[..i + 1] == names[..i] + [names[i]];
      i := i + 1;
    }
    assert names[..i] == names;
  }

  /** The body of the report loop for one CVE: with an entry in the
      reverse index it is fixed by those advisories, in the union of their
      packages; without one it is unfixed with nothing attached. */
  method Verdict(rev: map<string, seq<string>>, adv: map<string, Advisory>, cveName: string)
    returns (entry: ReportEntry)
    requires forall c :: c in rev <==> Fixed(adv, c)
    requires forall c, a :: c in rev ==> multiset(rev[c])[a] == Occurrences(adv, a, c)
    ensures entry.id == cveName && IsVerdict(entry, adv)
  {
    if cveName in rev {
      var revLookup := rev[cveName];
      forall a | a in revLookup ensures a in adv && cveName in adv[a].cves {
        assert multiset(revLookup)[a] > 0;
      }
      var pkgSet := UnionPackages(adv, revLookup);
      entry := ReportEntry(cveName, true, revLookup, pkgSet);
      forall p | FixedIn(adv, cveName, p) ensures p in pkgSet {
        var a :| a in adv && cveName in adv[a].cves && Ships(adv[a], p);
        assert multiset(revLookup)[a] > 0;
      }
    } else {
      entry := ReportEntry(cveName, false, [], {});
      forall a ensures multiset(entry.advisories)[a] == Occurrences(adv, a, cveName) {
        if a in adv { assert cveName !in adv[a].cves; }
      }
    }
  }

  /** Appending an entry for a new id keeps the ids distinct and covering. */
  lemma {:induction false} CoversSnoc(report: seq<ReportEntry>, done: set<string>, e: ReportEntry)
    requires Covers(report, done) && e.id !in done
    ensures Covers(report + [e], done + {e.id})
  {
    var r := report + [e];
    forall c | exists i :: 0 <= i < |r| && r[i].id == c
      ensures c in done + {e.id}
    {
      var i :| 0 <= i < |r| && r[i].id == c;
      if i < |report| {
        assert report[i].id == c;
      }
    }
    forall c | c in done + {e.id}
      ensures exists i :: 0 <= i < |r| && r[i].id == c
    {
      if c == e.id {
        assert r[|report|].id == c;
      } else {
        var i :| 0 <= i < |report| && report[i].id == c;
        assert r[i].id == c;
      }
    }
    forall i, j | 0 <= i < j < |r| ensures r[i].id != r[j].id {
      if j == |report| {
        assert r[i].id == report[i].id;
      }
    }
  }

  /** `get_cve_compliance_report`: one entry per key of the CVE table, in
      the table's (unspecified) key order. */
  method ComplianceReport(cveTable: map<string, CveLists.Record>, adv: map<string, Advisory>)
    returns (report: seq<ReportEntry>)
    ensures IsComplianceReport(report, cveTable.Keys, adv)
  {
    var rev := ReverseIndex(adv);
    report := [];
    var todo := cveTable.Keys;
    while todo != {}
      invariant todo <= cveTable.Keys
      invariant Covers(report, cveTable.Keys - todo)
      invariant forall i :: 0 <= i < |report| ==> IsVerdict(report[i], adv)
      decreases todo
    {
      var cveName :| cveName in todo;
      var entry := Verdict(rev, adv, cveName);
      CoversSnoc(report, cveTable.Keys - todo, entry);
      assert (cveTable.Keys - todo) + {cveName} == cveTable.Keys - (todo - {cveName});
      report := report + [entry];
      todo := todo - {cveName};
    }
    assert cveTable.Keys - todo == cveTable.Keys;
  }

  /** A CVE without an advisory is reported as unfixed with nothing
      attached; a fixed one has at least one advisory. */
  lemma {:induction false} VerdictShape(e: ReportEntry, adv: map<string, Advisory>)
    requires IsVerdict(e, adv)
    ensures !e.fixed ==> e.advisories == [] && e.packages == {}
    ensures e.fixed ==> e.advisories != []
  {
    if e.fixed {
      var a :| a in adv && e.id in adv[a].cves;
      assert Occurrences(adv, a, e.id) > 0;
    }
  }

  /** Distinct ids that cover `ids` exactly: the report has one entry per id. */
  lemma {:induction false} ReportSize(report: seq<ReportEntry>, ids: set<string>)
    requires forall i, j :: 0 <= i < j < |report| ==> report[i].id != report[j].id
    requires forall c :: c in ids <==> exists i :: 0 <= i < |report| && report[i].id == c
    ensures |report| == |ids|
  {
    if report != [] {
      var n := |report|;
      var last := report[n - 1].id;
      var front := report[..n - 1];
      forall c ensures c in ids - {last} <==> exists i :: 0 <= i < |front| && front[i].id == c {
        if c in ids - {last} {
          var i :| 0 <= i < n && report[i].id == c;
          assert i < n - 1 && front[i].id == c;
        }
        if exists i :: 0 <= i < |front| && front[i].id == c {
          var i :| 0 <= i < |front| && front[i].id == c;
          assert report[i].id == c;
        }
      }
      ReportSize(front, ids - {last});
    }
  }

  /** The report is determined by the tables up to order: two compliance
      reports for the same tables have the same size and, id by id, the
      same verdict, the same advisories counted with multiplicity and the
      same packages. */
  lemma {:induction false} ReportDeterminism(r1: seq<ReportEntry>, r2: seq<ReportEntry>, ids: set<string>, adv: map<string, Advisory>)
    requires IsComplianceReport(r1, ids, adv) && IsComplianceReport(r2, ids, adv)
    ensures |r1| == |r2| == |ids|
    ensures forall i :: 0 <= i < |r1| ==>
      exists j :: && 0 <= j < |r2| && r2[j].id == r1[i].id && r2[j].fixed == r1[i].fixed
                  && multiset(r2[j].advisories) == multiset(r1[i].advisories)
                  && r2[j].packages == r1[i].packages
  {
    ReportSize(r1, ids);
    ReportSize(r2, ids);
    forall i | 0 <= i < |r1|
      ensures exists j :: && 0 <= j < |r2| && r2[j].id == r1[i].id && r2[j].fixed == r1[i].fixed
                          && multiset(r2[j].advisories) == multiset(r1[i].advisories)
                          && r2[j].packages == r1[i].packages
    {
      assert r1[i].id in ids;
      var j :| 0 <= j < |r2| && r2[j].id == r1[i].id;
      SameVerdict(r1[i], r2[j], adv);
    }
  }

  /** Two verdicts on the same CVE under the same advisories agree. */
  lemma {:induction false} SameVerdict(e1: ReportEntry, e2: ReportEntry, adv: map<string, Advisory>)
    requires IsVerdict(e1, adv) && IsVerdict(e2, adv) && e1.id == e2.id
    ensures e1.fixed == e2.fixed
    ensures multiset(e1.advisories) == multiset(e2.advisories)
    ensures e1.packages == e2.packages
  {
    assert multiset(e1.advisories) == multiset(e2.advisories);
  }

  // ---------------------------------------------------------------------
  // Package map

  /** The ids of the fixed entries of `report` whose package set holds
      `p`, in report order. */
  function CvesFor(report: seq<ReportEntry>, p: string): (ids: seq<string>)
    ensures |ids| <= |report|
  {
    if report == [] then []
    else
      var e := report[|report| - 1];
      CvesFor(report[..|report| - 1], p) + (if e.fixed && p in e.packages then [e.id] else [])
  }

  function Lookup(pkgDict: map<string, seq<string>>, p: string): seq<string> {
    if p in pkgDict then pkgDict[p] else []
  }

  /** `pkg_dict` for `report`: a package is a key iff some fixed entry
      holds it, and its list is the ids of those entries in report order. */
  ghost predicate IsPackageIndex(pkgDict: map<string, seq<string>>, report: seq<ReportEntry>) {
    && (forall p :: p in pkgDict ==> pkgDict[p] != [])
    && (forall p :: Lookup(pkgDict, p) == CvesFor(report, p))
  }

  lemma {:induction false} CvesForSnoc(report: seq<ReportEntry>, e: ReportEntry, p: string)
    ensures CvesFor(report + [e], p) == CvesFor(report, p) + (if e.fixed && p in e.packages then [e.id] else [])
  {
    assert (report + [e])[..|report|] == report;
  }

  /** Adding one report entry to a package index. */
  lemma {:induction false} PackageIndexStep(pkgDict: map<string, seq<string>>, prefix: seq<ReportEntry>, e: ReportEntry)
    requires forall p :: p in pkgDict ==> pkgDict[p] != []
    requires forall p :: Lookup(pkgDict, p) == CvesFor(prefix, p) + (if e.fixed && p in e.packages then [e.id] else [])
    ensures IsPackageIndex(pkgDict, prefix + [e])
  {
    forall p ensures Lookup(pkgDict, p) == CvesFor(prefix + [e], p) {
      CvesForSnoc(prefix, e, p);
    }
  }

  /** The inner loop of `get_package_cve_map`: append `id` to the list
      of each package in `packages`, creating the lists that are missing. */
  method AppendToPackages(pkgDict: map<string, seq<string>>, packages: set<string>, id: string)
    returns (pkgDict': map<string, seq<string>>)
    requires forall p :: p in pkgDict ==> pkgDict[p] != []
    ensures forall p :: p in pkgDict' ==> pkgDict'[p] != []
    ensures forall p :: Lookup(pkgDict', p) == Lookup(pkgDict, p) + (if p in packages then [id] else [])
  {
    pkgDict' := pkgDict;
    var todo := packages;
    while todo != {}
      invariant todo <= packages
      invariant forall p :: p in pkgDict' ==> pkgDict'[p] != []
      invariant forall p :: Lookup(pkgDict', p) == Lookup(pkgDict, p) + (if p in packages - todo then [id] else [])
      decreases todo
    {
      var p :| p in todo;
      if p !in pkgDict' {
        pkgDict' := pkgDict'[p := []];
      }
      pkgDict' := pkgDict'[p := pkgDict'[p] + [id]];
      todo := todo - {p};
    }
    assert packages - todo == packages;
  }

  /** The loop of `get_package_cve_map`: for each fixed entry and each of
      its packages, append the entry's id to that package's list. */
  method InvertReport(report: seq<ReportEntry>) returns (pkgDict: map<string, seq<string>>)
    ensures IsPackageIndex(pkgDict, report)
  {
    pkgDict := map[];
    var i := 0;
    while i < |report|
      invariant 0 <= i <= |report|
      invariant IsPackageIndex(pkgDict, report[..i])
    {
      var e := report[i];
      ghost var prefix := report[..i];
      if e.fixed {
        pkgDict := AppendToPackages(pkgDict, e.packages, e.id);
      }
      PackageIndexStep(pkgDict, prefix, e);
      assert report[..i + 1] == prefix + [e];
      i := i + 1;
    }
    assert report[..i] == report;
  }

  /** `get_package_cve_map`: a missing or empty report is computed afresh
      from the tables first. */
  method PackageCveMap(cveTable: map<string, CveLists.Record>, adv: map<string, Advisory>,
                       cveReport: seq<ReportEntry>) returns (pkgDict: map<string, seq<string>>)
    ensures cveReport != [] ==> IsPackageIndex(pkgDict, cveReport)
    ensures cveReport == [] ==>
      exists report :: IsComplianceReport(report, cveTable.Keys, adv) && IsPackageIndex(pkgDict, report)
  {
    var report := cveReport;
    if report == [] {
      report := ComplianceReport(cveTable, adv);
    }
    pkgDict := InvertReport(report);
  }

  /** An id is listed under `p` iff a fixed entry with that id holds `p`. */
  lemma {:induction false} CvesForMembers(report: seq<ReportEntry>, p: string, c: string)
    ensures c in CvesFor(report, p) <==>
      exists i :: 0 <= i < |report| && report[i].fixed && p in report[i].packages && report[i].id == c
  {
    if report != [] {
      var n := |report|;
      var front, e := report[..n - 1], report[n - 1];
      CvesForMembers(front, p, c);
      var added := if e.fixed && p in e.packages then [e.id] else [];
      assert CvesFor(report, p) == CvesFor(front, p) + added;
      if c in CvesFor(report, p) {
        if c in CvesFor(front, p) {
          var i :| 0 <= i < n - 1 && front[i].fixed && p in front[i].packages && front[i].id == c;
          assert report[i] == front[i];
        } else {
          assert c in added;
          assert report[n - 1].fixed && p in report[n - 1].packages && report[n - 1].id == c;
        }
      }
      if exists i :: 0 <= i < n && report[i].fixed && p in report[i].packages && report[i].id == c {
        var i :| 0 <= i < n && report[i].fixed && p in report[i].packages && report[i].id == c;
        if i < n - 1 {
          assert front[i] == report[i];
          assert c in CvesFor(front, p);
        } else {
          assert c in added;
        }
      }
    }
  }

  /** With distinct report ids, no id is listed twice under a package:
      each (fixed CVE, package) pair contributes exactly one append. */
  lemma {:induction false} CvesForNoDup(report: seq<ReportEntry>, p: string)
    requires forall i, j :: 0 <= i < j < |report| ==> report[i].id != report[j].id
    ensures NoDup(CvesFor(report, p))
  {
    if report != [] {
      var n := |report|;
      var front := report[..n - 1];
      CvesForNoDup(front, p);
      var e := report[n - 1];
      if e.fixed && p in e.packages {
        CvesForMembers(front, p, e.id);
      }
    }
  }

  /** For a compliance report, the package map lists under `p` exactly the
      CVE ids of the table that an advisory shipping `p` fixes, each once;
      packages no fixed CVE references are absent. */
  lemma {:induction false} PackageIndexOfReport(pkgDict: map<string, seq<string>>, report: seq<ReportEntry>,
                             ids: set<string>, adv: map<string, Advisory>, p: string, c: string)
    requires IsComplianceReport(report, ids, adv)
    requires IsPackageIndex(pkgDict, report)
    ensures p in pkgDict ==> NoDup(pkgDict[p])
    ensures (p in pkgDict && c in pkgDict[p]) <==> c in ids && FixedIn(adv, c, p)
  {
    CvesForNoDup(report, p);
    CvesForMembers(report, p, c);
    if c in ids && FixedIn(adv, c, p) {
      var i :| 0 <= i < |report| && report[i].id == c;
      var a :| a in adv && c in adv[a].cves && Ships(adv[a], p);
      assert report[i].fixed;
      assert c in CvesFor(report, p);
    }
  }
}
