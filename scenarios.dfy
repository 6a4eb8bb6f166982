/** Worked scenarios: a CPE string without a package, advisory lines under
    a CVE filter, and a two-CVE table against one advisory, with what the
    loaders and the analyzer make of them. */
module Scenarios {
  import opened Wrappers
  import opened Text
  import opened AdvisoryMaps
  import opened Analysis

  /** The last ':'-segment of a string ending in ':' and a segment free of ':'. */
  lemma {:induction false} LastPieceAfter(x: string, t: string, sep: char)
    requires sep !in t
    ensures LastPiece(x + [sep] + t, sep) == t
  {
    SplitAtSeparator(x, t, sep);
    SplitWhole(t, sep);
  }

  lemma {:induction false} SecondDiffers(s: seq<string>)
    requires NoDup(s) && 1 < |s|
    ensures s[0] != s[1]
  {
  }

  /** A duplicate-free list that holds `x` and nothing else is `[x]`. */
  lemma {:induction false} OnlyElement(s: seq<string>, x: string)
    requires NoDup(s) && x in s
    requires forall k :: 0 <= k < |s| ==> s[k] == x
    ensures s == [x]
  {
    if 1 < |s| {
      SecondDiffers(s);
      assert false;
    }
    assert s == [s[0]];
  }

  /** Without a package suffix the CPE string yields no descriptor. */
  lemma {:induction false} DecomposeNoPackage()
    ensures Decompose("cpe:/o:redhat:enterprise_linux:6") == None
  {
    assert "cpe:/o:redhat:enterprise_linux:6" == "cpe:/o:redhat:enterprise_linux" + [':'] + "6";
    LastPieceAfter("cpe:/o:redhat:enterprise_linux", "6", ':');
    assert Count("6", '/') == 0;
    DecomposeFails("cpe:/o:redhat:enterprise_linux:6");
  }

  /** With a package suffix the CPE string splits into the base before the
      last '/' and the package after it. */
  lemma {:induction false} DecomposeBash(ed: string, package: string)
    requires ed == "6" && package == "bash"
    ensures var base := "cpe:/o:redhat:enterprise_linux:" + ed;
      Decompose(base + "/" + package) == Some(Cpe(base, base + "/" + package, package))
  {
    var prefix := "cpe:/o:redhat:enterprise_linux";
    var base := "cpe:/o:redhat:enterprise_linux:" + ed;
    assert base == prefix + [':'] + ed;
    assert ':' !in ed && '/' !in ed && ':' !in package && '/' !in package;
    LastPieceAfter(prefix, ed, ':');
    DecomposeComplete(base, package);
  }

  /** Two whitespace-free strings around a non-whitespace character. */
  lemma {:induction false} NoSpaceAround(a: string, sep: char, b: string)
    requires NoSpace(a) && NoSpace(b) && !IsSpace(sep)
    ensures NoSpace(a + [sep] + b)
  {
    var s := a + [sep] + b;
    forall i | 0 <= i < |s| ensures !IsSpace(s[i]) {
      if i < |a| { assert s[i] == a[i]; }
      else if i > |a| { assert s[i] == b[i - |a| - 1]; }
    }
  }

  /** `c1,c2` splits on ',' into the two CVEs. */
  lemma {:induction false} TwoCves(c1: string, c2: string)
    requires ',' !in c1 && ',' !in c2
    ensures Split(c1 + "," + c2, ',') == [c1, c2]
  {
    assert c1 + "," + c2 == c1 + [','] + c2;
    SplitAtSeparator(c1, c2, ',');
    SplitWhole(c1, ',');
    SplitWhole(c2, ',');
  }

  /** A CPE field holding one well-formed CPE string yields its one
      descriptor when no prefix filter is set. */
  lemma {:induction false} OneCpe(base: string, package: string)
    requires ',' !in base && ',' !in package
    requires ':' !in package && '/' !in package && '/' !in LastPiece(base, ':')
    ensures var cpe := base + "/" + package;
      KeptCpes(Split(cpe, ','), []) == [Cpe(base, cpe, package)]
  {
    var cpe := base + "/" + package;
    assert cpe == base + ['/'] + package;
    SplitWhole(cpe, ',');
    DecomposeComplete(base, package);
    assert [cpe][..0] == [];
  }

  /** A line `id c1,c2 base/package` under the filter `[c2]`, where `c2`
      differs from `c1`: the advisory is recorded with both CVEs as read and
      the one descriptor, and the CVE list stored for it is exactly `[c2]`. */
  lemma {:induction false} FilteredLine(id: string, c1: string, c2: string, base: string, package: string,
                                        ending: char, stored: seq<string>)
    requires id != [] && NoSpace(id) && IsSpace(ending)
    requires c1 != [] && c2 != [] && c1 != c2
    requires NoSpace(c1) && NoSpace(c2) && ',' !in c1 && ',' !in c2
    requires base != [] && NoSpace(base) && NoSpace(package) && ',' !in base && ',' !in package
    requires ':' !in package && '/' !in package && '/' !in LastPiece(base, ':')
    requires StoredCves(stored, [c1, c2], [c2])
    ensures var cpe := base + "/" + package;
      ParseLine(id + " " + c1 + "," + c2 + " " + cpe + [ending], [c2], [])
        == Recorded(id, Advisory([c1, c2], [Cpe(base, cpe, package)]))
    ensures stored == [c2]
  {
    var cpe := base + "/" + package;
    var cveField := c1 + "," + c2;
    assert cveField == c1 + [','] + c2 && cpe == base + ['/'] + package;
    NoSpaceAround(c1, ',', c2);
    NoSpaceAround(base, '/', package);
    assert id + " " + c1 + "," + c2 + " " + cpe + [ending] == id + " " + cveField + " " + cpe + [ending];
    assert id + " " + cveField + " " + cpe + [ending] == "" + id + " " + cveField + " " + cpe + [ending];
    AdvisoryLine("", id, " ", cveField, " ", cpe, [ending], [c2], []);
    TwoCves(c1, c2);
    OneCpe(base, package);
    assert c2 in [c1, c2] && c2 in [c2];
    forall k | 0 <= k < |stored| ensures stored[k] == c2 {
      assert stored[k] in stored;
    }
    assert c2 in stored;
    OnlyElement(stored, c2);
  }

  /** A line whose only CVE `c` is not in a non-empty filter is not recorded. */
  lemma {:induction false} ExcludedLine(id: string, c: string, cpe: string, ending: char, filter: seq<string>)
    requires id != [] && NoSpace(id) && IsSpace(ending)
    requires c != [] && NoSpace(c) && ',' !in c
    requires cpe != [] && NoSpace(cpe)
    requires filter != [] && c !in filter
    ensures ParseLine(id + " " + c + " " + cpe + [ending], filter, []) == Skipped
  {
    assert id + " " + c + " " + cpe + [ending] == "" + id + " " + c + " " + cpe + [ending];
    AdvisoryLine("", id, " ", c, " ", cpe, [ending], filter, []);
    SplitWhole(c, ',');
  }

  function FooAdvisories(): map<string, Advisory> {
    map["RHSA-A" := Advisory(["CVE-1"], [Cpe("cpe:/o:v:p:1", "cpe:/o:v:p:1/foo", "foo")])]
  }

  /** The verdict on CVE-1 under `FooAdvisories`: fixed by RHSA-A alone, in package foo. */
  lemma {:induction false} FooVerdict(e: ReportEntry)
    requires e.id == "CVE-1" && IsVerdict(e, FooAdvisories())
    ensures e == ReportEntry("CVE-1", true, ["RHSA-A"], {"foo"})
  {
    var adv := FooAdvisories();
    assert adv["RHSA-A"].cves == ["CVE-1"];
    assert adv["RHSA-A"].cpes[0].package == "foo";
    assert Fixed(adv, "CVE-1");
    assert multiset(e.advisories) == multiset{"RHSA-A"} by {
      forall a ensures multiset(e.advisories)[a] == multiset{"RHSA-A"}[a] {
        assert multiset(e.advisories)[a] == Occurrences(adv, a, "CVE-1");
      }
    }
    assert |e.advisories| == 1;
    assert e.advisories[0] in multiset(e.advisories);
    assert e.advisories == ["RHSA-A"];
    forall p ensures p in e.packages <==> p in {"foo"} {
      if p == "foo" {
        assert Ships(adv["RHSA-A"], p);
      }
    }
    assert e.packages == {"foo"};
  }

  /** A package index of a compliance report under `FooAdvisories` maps
      foo to [CVE-1] and nothing else. */
  lemma {:induction false} FooPackageMap(pkgDict: map<string, seq<string>>, report: seq<ReportEntry>, ids: set<string>)
    requires "CVE-1" in ids
    requires IsComplianceReport(report, ids, FooAdvisories())
    requires IsPackageIndex(pkgDict, report)
    ensures pkgDict == map["foo" := ["CVE-1"]]
  {
    var adv := FooAdvisories();
    assert FixedIn(adv, "CVE-1", "foo") by {
      assert adv["RHSA-A"].cpes[0].package == "foo";
      assert Ships(adv["RHSA-A"], "foo");
    }
    PackageIndexOfReport(pkgDict, report, ids, adv, "foo", "CVE-1");
    var foo := pkgDict["foo"];
    forall k | 0 <= k < |foo| ensures foo[k] == "CVE-1" {
      PackageIndexOfReport(pkgDict, report, ids, adv, "foo", foo[k]);
    }
    OnlyElement(foo, "CVE-1");
    forall p | p in pkgDict ensures p == "foo" {
      var c := pkgDict[p][0];
      PackageIndexOfReport(pkgDict, report, ids, adv, p, c);
      var a :| a in adv && c in adv[a].cves && Ships(adv[a], p);
      assert a == "RHSA-A";
    }
  }

  /** The entry a compliance report holds for one of its ids. */
  lemma {:induction false} EntryFor(report: seq<ReportEntry>, ids: set<string>, adv: map<string, Advisory>, c: string)
    returns (e: ReportEntry)
    requires IsComplianceReport(report, ids, adv) && c in ids
    ensures e in report && e.id == c && IsVerdict(e, adv)
  {
    var i :| 0 <= i < |report| && report[i].id == c;
    e := report[i];
  }

  /** CVE table {CVE-1, CVE-2}, one advisory RHSA-A listing CVE-1 with
      package foo: every compliance report holds (CVE-1, fixed, [RHSA-A],
      {foo}) and (CVE-2, unfixed, [], {}) and nothing else, and the
      package map is {foo: [CVE-1]}. */
  lemma {:induction false} EndToEnd(report: seq<ReportEntry>, pkgDict: map<string, seq<string>>)
    requires IsComplianceReport(report, {"CVE-1", "CVE-2"}, FooAdvisories())
    requires IsPackageIndex(pkgDict, report)
    ensures |report| == 2
    ensures ReportEntry("CVE-1", true, ["RHSA-A"], {"foo"}) in report
    ensures ReportEntry("CVE-2", false, [], {}) in report
    ensures pkgDict == map["foo" := ["CVE-1"]]
  {
    var adv := FooAdvisories();
    var ids := {"CVE-1", "CVE-2"};
    ReportSize(report, ids);
    assert "CVE-1"[4] != "CVE-2"[4];
    var e1 := EntryFor(report, ids, adv, "CVE-1");
    FooVerdict(e1);
    var e2 := EntryFor(report, ids, adv, "CVE-2");
    assert !Fixed(adv, "CVE-2") by {
      assert adv.Keys == {"RHSA-A"} && adv["RHSA-A"].cves == ["CVE-1"];
    }
    VerdictShape(e2, adv);
    FooPackageMap(pkgDict, report, ids);
  }
}
