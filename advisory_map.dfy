/** The advisory-to-CVE/CPE map (`Rhsa2CveMap`): one line per advisory,
    `advisory cve_csv cpe_csv`, loaded into a table keyed by advisory id.
    An optional CVE filter restricts each line's CVE list (or drops the
    line), an optional prefix filter selects CPE strings, and every kept
    CPE string is decomposed into base, uri and package. */
module AdvisoryMaps {
  import opened Wrappers
  import opened Text

  /** One CPE descriptor of an advisory: the CPE name without its package
      suffix, the raw string as read, and the package name. */
  datatype Cpe = Cpe(base: string, uri: string, package: string)

  /** What the loader stores per advisory id: its CVE list and its CPE
      descriptors, in line order. */
  datatype Advisory = Advisory(cves: seq<string>, cpes: seq<Cpe>)

  predicate NoDup(s: seq<string>) {
    forall i, j :: 0 <= i < j < |s| ==> s[i] != s[j]
  }

  // ---------------------------------------------------------------------
  // CPE decomposition

  /** Cuts `c` on ':'; the last segment must split on '/' into exactly two
      parts, the text before the '/' becomes the last segment of `base`
      and the text after it is the package. Any other number of '/' in
      the last segment makes the string unusable. */
  function Decompose(c: string): (r: Option<Cpe>)
    ensures r.Some? <==> |Split(LastPiece(c, ':'), '/')| == 2
    ensures r.Some? ==> r.value.uri == c
  {
    var elements := Split(c, ':');
    var halves := Split(elements[|elements| - 1], '/');
    if |halves| != 2 then None
    else Some(Cpe(Join(elements[..|elements| - 1] + [halves[0]], ':'), c, halves[1]))
  }

  /** A CPE string is dropped exactly when its last ':'-segment does not
      hold exactly one '/'. */
  lemma {:induction false} DecomposeFails(c: string)
    ensures Decompose(c).None? <==> Count(LastPiece(c, ':'), '/') != 1
  {
    SplitPieces(LastPiece(c, ':'), '/');
  }

  /** A segment that splits on '/' into two halves is those halves around
      a '/', and neither half holds a '/' or anything the segment lacks. */
  lemma {:induction false} TwoHalves(last: string)
    requires |Split(last, '/')| == 2
    ensures var h := Split(last, '/');
      && last == h[0] + "/" + h[1]
      && '/' !in h[0] && '/' !in h[1]
  {
    var h := Split(last, '/');
    SplitPieces(last, '/');
    JoinSplit(last, '/');
    assert h[1..] == [h[1]];
  }

  /** A kept descriptor keeps the raw string as `uri`, and `base`, a '/'
      and `package` put together give that string back; the package holds
      neither ':' nor '/', and the last ':'-segment of `base` holds no '/'. */
  lemma {:induction false} DecomposeSound(c: string)
    requires Decompose(c).Some?
    ensures var d := Decompose(c).value;
      && d.uri == c
      && d.base + "/" + d.package == c
      && ':' !in d.package && '/' !in d.package
      && '/' !in LastPiece(d.base, ':')
  {
    var elements := Split(c, ':');
    var last := elements[|elements| - 1];
    var h := Split(last, '/');
    SplitPieces(c, ':');
    assert ':' !in last;
    TwoHalves(last);
    assert ':' !in h[0] && ':' !in h[1];
    JoinSplit(c, ':');
    RebuiltBase(elements, h[0], h[1]);
  }

  /** The base rebuilt from the ':'-segments and the text before the '/'
      gives the string back once the package is appended, and its last
      segment is that text. */
  lemma {:induction false} RebuiltBase(elements: seq<string>, ed: string, package: string)
    requires |elements| >= 1 && elements[|elements| - 1] == ed + "/" + package
    requires forall i :: 0 <= i < |elements| ==> ':' !in elements[i]
    requires ':' !in ed
    ensures var base := Join(elements[..|elements| - 1] + [ed], ':');
      base + "/" + package == Join(elements, ':') && LastPiece(base, ':') == ed
  {
    var n := |elements|;
    var parts := elements[..n - 1] + [ed];
    BaseRejoins(elements, ed, package);
    forall i | 0 <= i < |parts|
      ensures ':' !in parts[i]
    {
      if i < n - 1 { assert parts[i] == elements[i]; }
    }
    SplitJoin(parts, ':');
  }

  /** Putting the package back onto the base rebuilds the joined segments. */
  lemma {:induction false} BaseRejoins(elements: seq<string>, ed: string, package: string)
    requires |elements| >= 1 && elements[|elements| - 1] == ed + "/" + package
    ensures Join(elements[..|elements| - 1] + [ed], ':') + "/" + package == Join(elements, ':')
  {
    var n := |elements|;
    var front := elements[..n - 1];
    var tail := ed + "/" + package;
    assert front + [tail] == elements;
    if n == 1 {
      assert front + [ed] == [ed];
    } else {
      var j := Join(front, ':');
      JoinSnoc(front, ed, ':');
      JoinSnoc(front, tail, ':');
      assert (j + [':'] + ed) + "/" + package == j + [':'] + tail;
    }
  }

  /** Conversely, a string made of a base whose last ':'-segment holds no
      '/', a '/', and a package free of ':' and '/' decomposes into
      exactly that base and package. */
  lemma {:induction false} DecomposeComplete(base: string, package: string)
    requires ':' !in package && '/' !in package
    requires '/' !in LastPiece(base, ':')
    ensures Decompose(base + "/" + package) == Some(Cpe(base, base + "/" + package, package))
  {
    var c := base + "/" + package;
    var pb := Split(base, ':');
    assert ':' !in "/" + package;
    SplitExtendLast(base, "/" + package, ':');
    assert base + ("/" + package) == c;
    ExtendedSegments(pb, Split(c, ':'), package);
    JoinSplit(base, ':');
  }

  /** The ':'-segments of `base + "/" + package`: the last one cuts on '/'
      into the base's last segment and the package, and putting the
      former back gives the base's segments. */
  lemma {:induction false} ExtendedSegments(pb: seq<string>, elements: seq<string>, package: string)
    requires |pb| >= 1 && '/' !in pb[|pb| - 1] && '/' !in package
    requires elements == pb[..|pb| - 1] + [pb[|pb| - 1] + ("/" + package)]
    ensures Split(elements[|elements| - 1], '/') == [pb[|pb| - 1], package]
    ensures elements[..|elements| - 1] + [pb[|pb| - 1]] == pb
  {
    var ed := pb[|pb| - 1];
    assert elements[|elements| - 1] == ed + ['/'] + package;
    SplitAtSeparator(ed, package, '/');
    SplitWhole(ed, '/');
    SplitWhole(package, '/');
    assert elements[..|elements| - 1] == pb[..|pb| - 1];
  }

  // ---------------------------------------------------------------------
  // CPE prefix filter

  /** The prefix filter keeps a CPE string iff the filter is unset (empty)
      or one of its strings is a prefix of the CPE string. */
  predicate Selects(cpeFilter: seq<string>, c: string) {
    cpeFilter == [] || exists cf :: cf in cpeFilter && cf <= c
  }

  /** The filter loop of the loader: compares the CPE string's leading
      characters with each filter string and stops at the first match. */
  method Selected(c: string, cpeFilter: seq<string>) returns (keep: bool)
    ensures keep <==> Selects(cpeFilter, c)
  {
    var filterOut := true;
    if cpeFilter != [] {
      var i := 0;
      while i < |cpeFilter|
        invariant 0 <= i <= |cpeFilter|
        invariant forall j :: 0 <= j < i ==> !(cpeFilter[j] <= c)
        invariant filterOut
      {
        var cf := cpeFilter[i];
        SliceIsPrefix(c, cf);
        if Slice(c, |cf|) == cf {
          assert cf in cpeFilter;
          filterOut := false;
          break;
        }
        i := i + 1;
      }
    } else {
      filterOut := false;
    }
    keep := !filterOut;
  }

  /** The descriptors a line contributes: its CPE strings in order, those
      the prefix filter selects and that decompose. */
  function KeptCpes(raw: seq<string>, cpeFilter: seq<string>): (kept: seq<Cpe>)
    ensures |kept| <= |raw|
    ensures forall k :: 0 <= k < |kept| ==> kept[k].uri in raw
  {
    if raw == [] then []
    else
      var c := raw[|raw| - 1];
      var front := KeptCpes(raw[..|raw| - 1], cpeFilter);
      if Selects(cpeFilter, c) && Decompose(c).Some? then front + [Decompose(c).value] else front
  }

  /** A descriptor is kept iff some CPE string of the line is selected and
      decomposes into it. */
  lemma {:induction false} KeptCpesMembers(raw: seq<string>, cpeFilter: seq<string>, d: Cpe)
    ensures d in KeptCpes(raw, cpeFilter) <==>
      exists j :: 0 <= j < |raw| && Selects(cpeFilter, raw[j]) && Decompose(raw[j]) == Some(d)
  {
    if raw != [] {
      var n := |raw|;
      KeptCpesMembers(raw[..n - 1], cpeFilter, d);
      if d in KeptCpes(raw, cpeFilter) {
        if d !in KeptCpes(raw[..n - 1], cpeFilter) {
          assert Selects(cpeFilter, raw[n - 1]) && Decompose(raw[n - 1]) == Some(d);
        } else {
          var j :| 0 <= j < n - 1 && Selects(cpeFilter, raw[..n - 1][j]) && Decompose(raw[..n - 1][j]) == Some(d);
          assert raw[j] == raw[..n - 1][j];
        }
      } else {
        forall j | 0 <= j < n && Selects(cpeFilter, raw[j])
          ensures Decompose(raw[j]) != Some(d)
        {
          if j < n - 1 { assert raw[..n - 1][j] == raw[j]; }
        }
      }
    }
  }

  // ---------------------------------------------------------------------
  // One line

  /** What a line means to the loader: a line that is not three
      whitespace-separated fields aborts the load; a line whose CVEs all
      miss a non-empty filter is skipped; otherwise the advisory is
      recorded with the raw comma-split CVE list (which the loader then
      intersects with the filter, if any) and the kept descriptors. */
  datatype LineOutcome = Malformed | Skipped | Recorded(id: string, advisory: Advisory)

  function ParseLine(line: string, filter: seq<string>, cpeFilter: seq<string>): (o: LineOutcome)
    ensures o.Malformed? <==> |Words(line)| != 3
    ensures o.Recorded? ==> o.id == Words(line)[0]
  {
    var fields := Words(line);
    if |fields| != 3 then Malformed
    else ParseFields(fields[0], fields[1], fields[2], filter, cpeFilter)
  }

  /** The outcome of a line with the three fields `rhsa`, `cveList` and `cpeList`. */
  function ParseFields(rhsa: string, cveList: string, cpeList: string,
                       filter: seq<string>, cpeFilter: seq<string>): (o: LineOutcome)
    ensures !o.Malformed?
    ensures o.Skipped? ==> filter != []
    ensures o.Recorded? ==> o.id == rhsa && o.advisory.cves == Split(cveList, ',')
  {
    var cves := Split(cveList, ',');
    if filter != [] && forall x :: x in cves ==> x !in filter then Skipped
    else Recorded(rhsa, Advisory(cves, KeptCpes(Split(cpeList, ','), cpeFilter)))
  }

  /** The CVE list stored for a recorded line: the comma-split list as it
      stands when there is no filter; otherwise the members of that list
      that are in the filter, each once, in no particular order. */
  ghost predicate StoredCves(stored: seq<string>, raw: seq<string>, filter: seq<string>) {
    if filter == [] then stored == raw
    else NoDup(stored) && forall x :: x in stored <==> x in raw && x in filter
  }

  ghost predicate Conforms(stored: Advisory, recorded: Advisory, filter: seq<string>) {
    stored.cpes == recorded.cpes && StoredCves(stored.cves, recorded.cves, filter)
  }

  /** Three whitespace-free tokens between runs of whitespace, with any
      leading and trailing whitespace (the newline included or not), are
      what `line.split()` returns. */
  lemma {:induction false} LineWords(lead: string, id: string, gap1: string, cveField: string,
                                     gap2: string, cpeField: string, trail: string)
    requires id != [] && cveField != [] && cpeField != []
    requires NoSpace(id) && NoSpace(cveField) && NoSpace(cpeField)
    requires AllSpace(lead) && AllSpace(trail) && gap1 != [] && AllSpace(gap1) && gap2 != [] && AllSpace(gap2)
    ensures Words(lead + id + gap1 + cveField + gap2 + cpeField + trail) == [id, cveField, cpeField]
  {
    var rest := cveField + gap2 + cpeField + trail;
    assert lead + id + gap1 + cveField + gap2 + cpeField + trail == lead + (id + gap1 + rest);
    WordsAfterSpaces(lead, id + gap1 + rest);
    WordsAtRun(id, gap1, rest);
    WordsOfWord(id);
    assert rest == cveField + gap2 + (cpeField + trail);
    WordsAtRun(cveField, gap2, cpeField + trail);
    WordsOfWord(cveField);
    WordsOfWord(cpeField);
    if trail != [] {
      assert cpeField + trail == cpeField + trail + "";
      WordsAtRun(cpeField, trail, "");
    } else {
      assert cpeField + trail == cpeField;
    }
  }

  /** A well-formed line `id cves cpes` (any whitespace around and between
      the tokens, with or without a final newline) records `id` with the
      comma-split CVE list and the kept descriptors, unless a non-empty
      filter misses every one of its CVEs. */
  lemma {:induction false} AdvisoryLine(lead: string, id: string, gap1: string, cveField: string,
                                        gap2: string, cpeField: string, trail: string,
                                        filter: seq<string>, cpeFilter: seq<string>)
    requires id != [] && cveField != [] && cpeField != []
    requires NoSpace(id) && NoSpace(cveField) && NoSpace(cpeField)
    requires AllSpace(lead) && AllSpace(trail) && gap1 != [] && AllSpace(gap1) && gap2 != [] && AllSpace(gap2)
    ensures var line := lead + id + gap1 + cveField + gap2 + cpeField + trail;
      var cves := Split(cveField, ',');
      ParseLine(line, filter, cpeFilter) ==
        if filter != [] && forall x :: x in cves ==> x !in filter then Skipped
        else Recorded(id, Advisory(cves, KeptCpes(Split(cpeField, ','), cpeFilter)))
  {
    LineWords(lead, id, gap1, cveField, gap2, cpeField, trail);
  }

  // ---------------------------------------------------------------------
  // The whole load

  predicate LineRecords(line: string, filter: seq<string>, cpeFilter: seq<string>, id: string) {
    ParseLine(line, filter, cpeFilter).Recorded? && ParseLine(line, filter, cpeFilter).id == id
  }

  /** The advisories the lines record, later lines overwriting earlier
      ones with the same id. */
  function Recordings(lines: seq<string>, filter: seq<string>, cpeFilter: seq<string>): map<string, Advisory> {
    if lines == [] then map[]
    else
      var m := Recordings(lines[..|lines| - 1], filter, cpeFilter);
      match ParseLine(lines[|lines| - 1], filter, cpeFilter)
      case Recorded(id, a) => m[id := a]
      case _ => m
  }

  /** One more line updates the recordings as that line says. */
  lemma {:induction false} RecordingsSnoc(front: seq<string>, line: string, filter: seq<string>, cpeFilter: seq<string>)
    ensures var m := Recordings(front, filter, cpeFilter);
      Recordings(front + [line], filter, cpeFilter) ==
        match ParseLine(line, filter, cpeFilter)
        case Recorded(id, a) => m[id := a]
        case _ => m
  {
    assert (front + [line])[..|front|] == front;
  }

  /** An id is recorded iff some line records it. */
  lemma {:induction false} RecordedIds(lines: seq<string>, filter: seq<string>, cpeFilter: seq<string>, k: string)
    ensures k in Recordings(lines, filter, cpeFilter) <==>
      exists j :: 0 <= j < |lines| && LineRecords(lines[j], filter, cpeFilter, k)
  {
    if lines != [] {
      var n := |lines|;
      var front := lines[..n - 1];
      assert lines == front + [lines[n - 1]];
      RecordingsSnoc(front, lines[n - 1], filter, cpeFilter);
      RecordedIds(front, filter, cpeFilter, k);
      if exists j :: 0 <= j < n - 1 && LineRecords(front[j], filter, cpeFilter, k) {
        var j :| 0 <= j < n - 1 && LineRecords(front[j], filter, cpeFilter, k);
        assert lines[j] == front[j];
      }
      if exists j :: 0 <= j < n && LineRecords(lines[j], filter, cpeFilter, k) {
        var j :| 0 <= j < n && LineRecords(lines[j], filter, cpeFilter, k);
        if j < n - 1 { assert lines[j] == front[j]; }
      }
    }
  }

  /** What is recorded for an id is what the LAST line recording it records. */
  lemma {:induction false} LastRecordWins(lines: seq<string>, filter: seq<string>, cpeFilter: seq<string>, k: string)
    requires k in Recordings(lines, filter, cpeFilter)
    ensures exists j :: && 0 <= j < |lines|
                        && ParseLine(lines[j], filter, cpeFilter) == Recorded(k, Recordings(lines, filter, cpeFilter)[k])
                        && forall j' :: j < j' < |lines| ==> !LineRecords(lines[j'], filter, cpeFilter, k)
  {
    var n := |lines|;
    var front := lines[..n - 1];
    assert lines == front + [lines[n - 1]];
    RecordingsSnoc(front, lines[n - 1], filter, cpeFilter);
    var m := Recordings(lines, filter, cpeFilter);
    if LineRecords(lines[n - 1], filter, cpeFilter, k) {
      assert ParseLine(lines[n - 1], filter, cpeFilter) == Recorded(k, m[k]);
    } else {
      assert k in Recordings(front, filter, cpeFilter) && m[k] == Recordings(front, filter, cpeFilter)[k];
      LastRecordWins(front, filter, cpeFilter, k);
      var j :| && 0 <= j < n - 1
               && ParseLine(front[j], filter, cpeFilter) == Recorded(k, m[k])
               && forall j' :: j < j' < n - 1 ==> !LineRecords(front[j'], filter, cpeFilter, k);
      assert lines[j] == front[j];
      forall j' | j < j' < n ensures !LineRecords(lines[j'], filter, cpeFilter, k) {
        if j' < n - 1 { assert lines[j'] == front[j']; }
      }
    }
  }

  /** With a non-empty filter, every recorded advisory mentions at least
      one filtered CVE, so its stored CVE list is never empty. */
  lemma {:induction false} RecordingsMeetFilter(lines: seq<string>, filter: seq<string>, cpeFilter: seq<string>)
    requires filter != []
    ensures forall k :: k in Recordings(lines, filter, cpeFilter) ==>
      exists x :: x in Recordings(lines, filter, cpeFilter)[k].cves && x in filter
  {
    if lines != [] {
      RecordingsMeetFilter(lines[..|lines| - 1], filter, cpeFilter);
    }
  }

  /** The table after loading `recorded` over `before`: every recorded id
      holds what its last line records, every other id is untouched. */
  ghost predicate Describes(after: map<string, Advisory>, before: map<string, Advisory>,
                      recorded: map<string, Advisory>, filter: seq<string>) {
    && (forall k :: k in after <==> k in before || k in recorded)
    && (forall k :: k in after ==>
          if k in recorded then Conforms(after[k], recorded[k], filter) else after[k] == before[k])
  }

  lemma {:induction false} DescribesRecord(after: map<string, Advisory>, before: map<string, Advisory>,
                        recorded: map<string, Advisory>, filter: seq<string>,
                        id: string, stored: Advisory, raw: Advisory)
    requires Describes(after, before, recorded, filter)
    requires Conforms(stored, raw, filter)
    ensures Describes(after[id := stored], before, recorded[id := raw], filter)
  {
  }

  /** Python's `list(some_set)`: the members of the set, each once, in an
      order the set decides. */
  method ListOfSet(s: set<string>) returns (r: seq<string>)
    ensures NoDup(r)
    ensures forall x :: x in r <==> x in s
  {
    r := [];
    var rest := s;
    while rest != {}
      invariant rest <= s
      invariant NoDup(r)
      invariant forall x :: x in r <==> x in s - rest
      decreases rest
    {
      var x :| x in rest;
      assert x !in r;
      r := r + [x];
      rest := rest - {x};
    }
  }

  /** The CPE loop of the loader over one line's comma-split CPE strings:
      the selected strings that decompose, in order. */
  method LineCpes(cpeRaw: seq<string>, cpeFilter: seq<string>) returns (cpe: seq<Cpe>)
    ensures cpe == KeptCpes(cpeRaw, cpeFilter)
  {
    cpe := [];
    var j := 0;
    while j < |cpeRaw|
      invariant 0 <= j <= |cpeRaw|
      invariant cpe == KeptCpes(cpeRaw[..j], cpeFilter)
    {
      assert cpeRaw[..j + 1][..j] == cpeRaw[..j];
      var c := cpeRaw[j];
      var keep := Selected(c, cpeFilter);
      if keep {
        var d := Decompose(c);
        if d.Some? {
          cpe := cpe + [d.value];
        }
      }
      j := j + 1;
    }
    assert cpeRaw[..j] == cpeRaw;
  }

  /** The body of the loader's line loop after the whitespace split: the
      record to store for the line, or None when the CVE filter skips it.
      What is stored conforms to what the line records. */
  method LoadFields(rhsa: string, cveList: string, cpeList: string,
                    filter: seq<string>, filterSet: set<string>, cpeFilter: seq<string>)
    returns (stored: Option<Advisory>)
    requires filterSet == set x | x in filter
    ensures var o := ParseFields(rhsa, cveList, cpeList, filter, cpeFilter);
      && (stored.None? <==> o.Skipped?)
      && (stored.Some? ==> o == Recorded(rhsa, o.advisory) && Conforms(stored.value, o.advisory, filter))
  {
    var cve := Split(cveList, ',');
    ghost var rawCves := cve;
    if filter != [] {
      var cveSet := set x | x in cve;
      if filterSet !! cveSet {
        forall x | x in rawCves ensures x !in filter {
          assert x in cveSet;
        }
        return None;
      }
      assert exists x :: x in cveSet && x in filterSet;
      var x :| x in cveSet && x in filterSet;
      assert x in rawCves && x in filter;
      cve := ListOfSet(cveSet * filterSet);
    }
    var cpe := LineCpes(Split(cpeList, ','), cpeFilter);
    stored := Some(Advisory(cve, cpe));
  }

  /** One pass of the line loop keeps the table described by the
      recordings of the lines read so far. */
  lemma {:induction false} LoadStep(after: map<string, Advisory>, before: map<string, Advisory>,
                                    lines: seq<string>, i: nat, filter: seq<string>, cpeFilter: seq<string>,
                                    stored: Option<Advisory>, updated: map<string, Advisory>)
    requires i < |lines| && Describes(after, before, Recordings(lines[..i], filter, cpeFilter), filter)
    requires var fields := Words(lines[i]);
      && |fields| == 3
      && var o := ParseFields(fields[0], fields[1], fields[2], filter, cpeFilter);
      && (stored.None? <==> o.Skipped?)
      && (stored.Some? ==> o == Recorded(fields[0], o.advisory) && Conforms(stored.value, o.advisory, filter))
    requires updated == if stored.Some? then after[Words(lines[i])[0] := stored.value] else after
    ensures Describes(updated, before, Recordings(lines[..i + 1], filter, cpeFilter), filter)
  {
    assert lines[..i + 1] == lines[..i] + [lines[i]];
    RecordingsSnoc(lines[..i], lines[i], filter, cpeFilter);
    var fields := Words(lines[i]);
    if stored.Some? {
      var o := ParseFields(fields[0], fields[1], fields[2], filter, cpeFilter);
      DescribesRecord(after, before, Recordings(lines[..i], filter, cpeFilter), filter,
                      fields[0], stored.value, o.advisory);
    }
  }

  /** `Rhsa2CveMap`: the table from advisory id to its stored record. */
  class AdvisoryMap {
    var data: map<string, Advisory>

    constructor ()
      ensures data == map[]
    {
      data := map[];
    }

    /** `Rhsa2CveMap.load`, with the two filters passed explicitly (an
        empty filter is an unset one). On a line that is not three fields
        the load stops and reports that line's index; the lines before it
        stay loaded. */
    method Load(lines: seq<string>, filter: seq<string>, cpeFilter: seq<string>) returns (bad: Option<nat>)
      modifies this
      ensures bad.None? ==> forall j :: 0 <= j < |lines| ==> |Words(lines[j])| == 3
      ensures bad.Some? ==> && bad.value < |lines| && |Words(lines[bad.value])| != 3
                            && forall j :: 0 <= j < bad.value ==> |Words(lines[j])| == 3
      ensures var done := if bad.Some? then bad.value else |lines|;
        done <= |lines| && Describes(data, old(data), Recordings(lines[..done], filter, cpeFilter), filter)
    {
      var filterSet := set x | x in filter;
      var i := 0;
      while i < |lines|
        invariant 0 <= i <= |lines|
        invariant forall j :: 0 <= j < i ==> |Words(lines[j])| == 3
        invariant Describes(data, old(data), Recordings(lines[..i], filter, cpeFilter), filter)
      {
        var fields := Words(lines[i]);
        if |fields| != 3 {
          return Some(i);
        }
        var rhsa, cveList, cpeList := fields[0], fields[1], fields[2];
        var stored := LoadFields(rhsa, cveList, cpeList, filter, filterSet, cpeFilter);
        ghost var prev := data;
        if stored.Some? {
          data := data[rhsa := stored.value];
        }
        LoadStep(prev, old(data), lines, i, filter, cpeFilter, stored, data);
        i := i + 1;
      }
      assert lines[..i] == lines;
      bad := None;
    }
  }
}
