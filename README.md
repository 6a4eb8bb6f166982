# RHSA / CVE cross-reference: a Dafny model

This project models the core of `rhsa_cve_check.py`. The tool cross-references
the public CVE list with Red Hat's advisory map, and tells which CVEs a Red Hat
security advisory (RHSA) fixes and in which packages. Four parts are modelled:

- **The advisory map loader** (`Rhsa2CveMap.load`). Each line has the form
  `advisory cve_csv cpe_csv` and is split on whitespace.
  - An optional CVE filter either drops the line or narrows its CVE list to
    the intersection.
  - An optional prefix filter selects CPE strings.
  - Each selected CPE string is cut on `:` and then on `/` into a base name,
    the raw string and a package name. A CPE string that does not cut
    cleanly is dropped.
  - A line that is not exactly three fields aborts the load.
  - A later line for the same advisory overwrites the earlier one.
  - Module `AdvisoryMaps` in `advisory_map.dfy`, with class `AdvisoryMap`.
- **The CVE table loader** (`CVEList._load`, with `isEmpty`).
  - The header is the row at line 3.
  - Data rows start after the first all-empty row.
  - Rows are filtered by their first column, zipped against the header, and
    stored under their first column.
  - Module `CveLists` in `cve_list.dfy`, with class `CveList`.
- **The compliance report** (`get_cve_compliance_report`).
  - It builds a reverse index from CVE to advisories.
  - It gives one verdict per CVE of the table: fixed or not, the advisories
    that list the CVE, and the union of their packages.
  - Module `Analysis` in `analyzer.dfy`.
- **The package map** (`get_package_cve_map`). It inverts the report into a
  map from package to fixed CVE ids, and rebuilds the report first when none
  is given. Module `Analysis`.

Python's `str.split(sep)`, `str.split()`, `sep.join` and `s[:n]` are written
out as pure functions, with lemmas about them, in module `Text` (`text.dfy`).
The shared `Option` type is in module `Wrappers` (`wrappers.dfy`).

The model stays on the source's side of the imperative/functional line:

- The two loaders are classes. Their `data` field is updated line by line
  and row by row, and each `Load` is proved against a specification function
  over the input: `Recordings` for the advisory map, `LoadRows` for the CVE
  table.
- The analyzer's loops are methods over the tables passed as values. They
  are proved against the predicates `IsComplianceReport` and
  `IsPackageIndex`.

`scenarios.dfy` (module `Scenarios`) works through two CPE strings, one with a
package and one without, advisory lines under a CVE filter, and a two-CVE table checked
against one advisory.

Python does not fix the iteration order of a set or of a dict's keys. The
model chooses with `:|` wherever the source iterates over one. No contract
depends on that order: advisory lists are compared as multisets, package
sets as sets, and a filtered CVE list is "these members, each once".

A CVE row's `References` field is split into a list at line 177, but
line 179 then stores a fresh `zip`. The stored `References` is therefore
the raw string, and that is what the model stores, although a split list
was evidently meant.

## Model

| member | source | states |
|---|---|---|
| Text.Split | rhsa_cve/rhsa_cve_check.py:90 | `s.split(sep)` always yields at least one piece. `JoinSplit`, `SplitPieces`, `SplitJoin` and `SplitAtSeparator` characterise it; the same function models lines 99, 113 and 115. |
| Text.Join | rhsa_cve/rhsa_cve_check.py:121-122 | `sep.join(parts)` is at least one character per separator long. `JoinSplit` and `SplitJoin` make it the inverse of `Split`. |
| Text.JoinSplit | rhsa_cve/rhsa_cve_check.py:113-122 | Joining the pieces of `s.split(sep)` with `sep` gives `s` back. |
| Text.SplitPieces | rhsa_cve/rhsa_cve_check.py:113-115 | No piece of `s.split(sep)` contains `sep`, and there is one piece more than there are occurrences of `sep`. |
| Text.SplitJoin | rhsa_cve/rhsa_cve_check.py:121-122 | Splitting `sep.join(parts)` gives `parts` back when no part contains `sep`. |
| Text.SplitAtSeparator | rhsa_cve/rhsa_cve_check.py:90 | Splitting `x + sep + y` gives the pieces of `x` followed by the pieces of `y`. |
| Text.Slice | rhsa_cve/rhsa_cve_check.py:105 | `c[:n]` is a prefix of `c` of length `min(n, len(c))`. `SliceIsPrefix` characterises the filter test built on it. |
| Text.SliceIsPrefix | rhsa_cve/rhsa_cve_check.py:105 | `c[:len(p)] == p` holds exactly when `p` is a prefix of `c`. |
| Text.Words | rhsa_cve/rhsa_cve_check.py:88 | `line.split()` yields non-empty tokens that contain no whitespace. |
| Text.WordsJoin | rhsa_cve/rhsa_cve_check.py:88 | Whitespace-free tokens joined by single spaces split back into the same tokens. |
| Text.WordsAtSpace | rhsa_cve/rhsa_cve_check.py:88 | A whitespace character separates the tokens on its two sides. |
| Text.WordsAtRun | rhsa_cve/rhsa_cve_check.py:88 | A non-empty run of whitespace separates the tokens on its two sides. |
| Text.WordsAfterSpaces | rhsa_cve/rhsa_cve_check.py:88 | Leading whitespace does not change the tokens. |
| AdvisoryMaps.Decompose | rhsa_cve/rhsa_cve_check.py:113-123 | A CPE string yields a descriptor iff its last `:`-segment splits on `/` into exactly two pieces, and the descriptor's `uri` is the string itself. `DecomposeFails`, `DecomposeSound` and `DecomposeComplete` characterise it completely. |
| AdvisoryMaps.DecomposeFails | rhsa_cve/rhsa_cve_check.py:113-120 | A CPE string is dropped exactly when its last `:`-segment does not hold exactly one `/`. |
| AdvisoryMaps.DecomposeSound | rhsa_cve/rhsa_cve_check.py:113-123 | A kept descriptor has `uri` equal to the CPE string and `base + "/" + package` equal to it. Its package contains neither `:` nor `/`. The last `:`-segment of its base contains no `/`. |
| AdvisoryMaps.DecomposeComplete | rhsa_cve/rhsa_cve_check.py:113-123 | Conversely, every such base and package decompose from `base + "/" + package` into exactly that descriptor. |
| AdvisoryMaps.TwoHalves | rhsa_cve/rhsa_cve_check.py:115 | When the last `:`-segment splits on `/` into exactly two pieces, it is those pieces joined by `/`, and neither piece contains `/`. |
| AdvisoryMaps.Selected | rhsa_cve/rhsa_cve_check.py:102-112 | The filter loop keeps a CPE string iff the prefix filter is unset or empty, or some filter string is a prefix of it. |
| AdvisoryMaps.KeptCpes | rhsa_cve/rhsa_cve_check.py:98-124 | A line keeps at most one descriptor per CPE string, and each kept descriptor's `uri` is one of the line's strings. `KeptCpesMembers` characterises its members. |
| AdvisoryMaps.KeptCpesMembers | rhsa_cve/rhsa_cve_check.py:98-124 | A descriptor is in a line's CPE list iff some CPE string of the line is selected and decomposes into it. |
| AdvisoryMaps.LineCpes | rhsa_cve/rhsa_cve_check.py:98-124 | The loop over a line's CPE strings builds, in order, the descriptors of the strings that pass the prefix filter and decompose. |
| AdvisoryMaps.LoadFields | rhsa_cve/rhsa_cve_check.py:89-127 | For the three tokens of a line, nothing is stored exactly when a non-empty filter misses every CVE. Otherwise the advisory is stored with the kept descriptors and a CVE list that is the one read, or with a filter, the members it shares with the filter, each once. |
| AdvisoryMaps.ParseLine | rhsa_cve/rhsa_cve_check.py:88-97 | A line is malformed iff `line.split()` does not give three tokens, and a recorded line is recorded under its first token. `AdvisoryLine` gives the outcome of a well-formed line. |
| AdvisoryMaps.ParseFields | rhsa_cve/rhsa_cve_check.py:89-97 | For three tokens, the outcome is never malformed. A line is skipped only under a non-empty filter. A recorded line is recorded under the first token, with the comma-split CVE list. `LoadFields` is proved against it. |
| AdvisoryMaps.LineWords | rhsa_cve/rhsa_cve_check.py:88 | Three whitespace-free tokens, with runs of whitespace before, between and after them, are what `line.split()` returns. |
| AdvisoryMaps.AdvisoryLine | rhsa_cve/rhsa_cve_check.py:88-96 | A line `id cves cpes`, with any runs of whitespace before, between and after the tokens and with or without a final newline, is recorded under `id` with the comma-split CVE list and the kept descriptors. The exception is a non-empty filter that misses every one of its CVEs: then the line is skipped. |
| AdvisoryMaps.Recordings | rhsa_cve/rhsa_cve_check.py:86-128 | The line loop as a function: each line that records an advisory overwrites its id. It has no contract of its own. `RecordingsSnoc` gives one step, and `RecordedIds`, `LastRecordWins` and `RecordingsMeetFilter` characterise the result. |
| AdvisoryMaps.RecordedIds | rhsa_cve/rhsa_cve_check.py:86-128 | An advisory id is recorded iff some line records it. |
| AdvisoryMaps.LastRecordWins | rhsa_cve/rhsa_cve_check.py:128 | A recorded id holds what the last line that records it says. No later line records that id. |
| AdvisoryMaps.RecordingsMeetFilter | rhsa_cve/rhsa_cve_check.py:91-96 | With a non-empty filter, every recorded advisory lists at least one CVE of the filter. |
| AdvisoryMaps.ListOfSet | rhsa_cve/rhsa_cve_check.py:96 | `list(set)` holds the members of the set, each once. |
| AdvisoryMaps.AdvisoryMap.constructor | rhsa_cve/rhsa_cve_check.py:62-63 | A new map is empty. |
| AdvisoryMaps.AdvisoryMap.Load | rhsa_cve/rhsa_cve_check.py:79-128 | The load stops at the first line that is not three tokens and returns that line's index, or returns None when there is no such line. Up to that point, every id that some line records is in the table, and every earlier id that no line records stays unchanged. A recorded id stores its last line's descriptors and CVE list: the list as read without a filter, or its intersection with the filter, each member once. |
| CveLists.IsEmpty | rhsa_cve/rhsa_cve_check.py:45-49 | True iff every element of the row is the empty (falsy) string. |
| CveLists.ZipMap | rhsa_cve/rhsa_cve_check.py:176-179 | Every key of `dict(zip(header, row))` is a header name. `ZipMapFields`, `ZipMapKeys`, `ZipMapLast` and `ZipMapDistinct` characterise keys and values. |
| CveLists.ZipMapFields | rhsa_cve/rhsa_cve_check.py:176-179 | `dict(zip(header, row))` has a field iff one of the first `min(len)` header names is that field. Its value is the row's value at the last such column. |
| CveLists.ZipMapKeys | rhsa_cve/rhsa_cve_check.py:179 | A name is a key of `dict(zip(header, row))` iff it heads one of the first `min(len)` columns. |
| CveLists.ZipMapLast | rhsa_cve/rhsa_cve_check.py:179 | The value stored under a key is the row's value at a column headed by that key. |
| CveLists.ZipMapDistinct | rhsa_cve/rhsa_cve_check.py:179 | With distinct header names, each zipped column's value is stored under its own name. |
| CveLists.FirstEmpty | rhsa_cve/rhsa_cve_check.py:164-165 | The scan finds the first all-empty row at or after the header, or reports that there is none. |
| CveLists.ReadPreamble | rhsa_cve/rhsa_cve_check.py:158-167 | The two cursor loops fail with `NoHeader` iff there are fewer than three rows, and with `NoSeparator` iff no all-empty row is found at or after the header row. Otherwise the header is row 3, and data starts right after the first all-empty row. |
| CveLists.StoreRowsStep | rhsa_cve/rhsa_cve_check.py:169-179 | One more data row after an error-free prefix gives what that row gives on the table so far. A row that fails ends the whole load with that row's error. |
| CveLists.StoreRow | rhsa_cve/rhsa_cve_check.py:169-179 | One data row never removes an id. A row that fails leaves the table as it was, and the error is `EmptyRow` or `NoReferences` at that row's index. |
| CveLists.StoreRows | rhsa_cve/rhsa_cve_check.py:169-179 | The data rows never remove an id. A failure is `EmptyRow` or `NoReferences` at the index of one of the rows. `StoreRowsSnoc`, `StoreRowsStep`, `StoreRowsStops`, `StoreRowsKeys`, `StoreRowsUntouched` and `StoreRowsLastWins` characterise the result. |
| CveLists.LoadRows | rhsa_cve/rhsa_cve_check.py:153-179 | The load fails with `NoHeader` iff there are fewer than three rows, and it never removes an id. `ReadPreamble` and `CveList.Load` are proved against it. |
| CveLists.StoreRowsStops | rhsa_cve/rhsa_cve_check.py:169-179 | Once a row raises an error, later rows change nothing. |
| CveLists.StoreRowsFiltered | rhsa_cve/rhsa_cve_check.py:172-175 | With a non-empty filter, every id the rows add is in the filter, whether or not the load fails. |
| CveLists.StoreRowsKeys | rhsa_cve/rhsa_cve_check.py:169-179 | After an error-free load, an id is in the table iff it was before or some kept row carries it. |
| CveLists.StoreRowsUntouched | rhsa_cve/rhsa_cve_check.py:169-179 | An id that no kept row carries keeps its earlier record. |
| CveLists.StoreRowsLastWins | rhsa_cve/rhsa_cve_check.py:179 | A kept id holds the zip of the last kept row that carries it. |
| CveLists.CveList.constructor | rhsa_cve/rhsa_cve_check.py:132-133 | A new table is empty. |
| CveLists.CveList.Load | rhsa_cve/rhsa_cve_check.py:153-179 | The cursor loops end with the table and the error that `LoadRows` gives. The header is row 3. Data rows start after the first all-empty row. A missing header or separator stops the load. A data row without a first column stops the load, and so does a kept data row (one the filter lets through) without a `References` field. |
| Analysis.ReverseIndex | rhsa_cve/rhsa_cve_check.py:233-241 | A CVE is a key of `rev_map` iff some advisory lists it. Its list holds each advisory as often as that advisory lists the CVE. |
| Analysis.UnionPackages | rhsa_cve/rhsa_cve_check.py:247-251 | `pkg_set` holds exactly the packages of the descriptors of the given advisories. |
| Analysis.Verdict | rhsa_cve/rhsa_cve_check.py:243-256 | The entry for one CVE is a verdict: fixed iff some advisory lists it, the advisories counted by occurrence, and the union of their packages. |
| Analysis.ComplianceReport | rhsa_cve/rhsa_cve_check.py:225-257 | The report has one entry per key of the CVE table, no other entries and distinct ids. Each entry is fixed iff some advisory lists its CVE, with those advisories counted by occurrence and the union of their packages. |
| Analysis.VerdictShape | rhsa_cve/rhsa_cve_check.py:253-256 | An unfixed entry carries no advisories and no packages. A fixed entry carries at least one advisory. |
| Analysis.ReportSize | rhsa_cve/rhsa_cve_check.py:243-256 | A report with distinct ids covering the table's keys has exactly as many entries as the table has keys. |
| Analysis.ReportDeterminism | rhsa_cve/rhsa_cve_check.py:225-257 | Any two reports for the same tables agree id by id, up to order. |
| Analysis.SameVerdict | rhsa_cve/rhsa_cve_check.py:243-256 | Two verdicts on the same CVE agree on the status, the advisories as a multiset, and the package set. |
| Analysis.InvertReport | rhsa_cve/rhsa_cve_check.py:271-277 | `pkg_dict` lists under each package the ids of the fixed entries holding it, in report order. A package that no fixed entry holds is absent. |
| Analysis.AppendToPackages | rhsa_cve/rhsa_cve_check.py:273-276 | Appending one fixed CVE adds its id at the end of the list of each of its packages, creating lists as needed, and changes nothing else. |
| Analysis.PackageCveMap | rhsa_cve/rhsa_cve_check.py:259-277 | A non-empty report given as input is inverted as is. An empty or missing one is first recomputed as a compliance report of the tables. |
| Analysis.CvesFor | rhsa_cve/rhsa_cve_check.py:271-276 | A package's list has at most one id per report entry. `CvesForMembers` and `CvesForNoDup` characterise its members. `InvertReport` is proved against it. |
| Analysis.CvesForMembers | rhsa_cve/rhsa_cve_check.py:271-276 | An id is listed under a package iff a fixed entry with that id holds the package. |
| Analysis.CvesForNoDup | rhsa_cve/rhsa_cve_check.py:271-276 | With distinct report ids, no id is listed twice under a package, so each (fixed CVE, package) pair contributes one append. |
| Analysis.PackageIndexOfReport | rhsa_cve/rhsa_cve_check.py:259-277 | For a compliance report, each package's list has no duplicates. It holds exactly the table's CVEs that an advisory shipping that package lists. |
| Scenarios.DecomposeNoPackage | rhsa_cve/rhsa_cve_check.py:114-120 | `cpe:/o:redhat:enterprise_linux:6` has no package suffix and is dropped. |
| Scenarios.DecomposeBash | rhsa_cve/rhsa_cve_check.py:113-123 | `cpe:/o:redhat:enterprise_linux:6/bash` decomposes into base `cpe:/o:redhat:enterprise_linux:6` and package `bash`. |
| Scenarios.FilteredLine | rhsa_cve/rhsa_cve_check.py:88-128 | A line `id c1,c2 base/package` under the filter `[c2]` records both CVEs as read and the one descriptor. The stored CVE list is exactly `[c2]`. |
| Scenarios.ExcludedLine | rhsa_cve/rhsa_cve_check.py:91-94 | A line whose only CVE is outside a non-empty filter is skipped. |
| Scenarios.FooVerdict | rhsa_cve/rhsa_cve_check.py:243-253 | Advisory RHSA-A lists CVE-1 and ships package foo. CVE-1's verdict is fixed by `[RHSA-A]` in `{foo}`. |
| Scenarios.FooPackageMap | rhsa_cve/rhsa_cve_check.py:269-277 | With that advisory, the package map is exactly `{foo: [CVE-1]}`. |
| Scenarios.EndToEnd | rhsa_cve/rhsa_cve_check.py:225-277 | For a table {CVE-1, CVE-2} and that advisory, the report is the two entries: CVE-1 fixed by RHSA-A in foo, and CVE-2 unfixed with nothing. The package map is `{foo: [CVE-1]}`. |

## Left out

- `fetch` (lines 29-43): network and file I/O; the loaders take the file's lines or decoded rows as parameters.
- `CPEDict` (lines 181-203): a wrapper over an XML parser. The analyzer only binds its `cpe` table (lines 230, 266) and never reads it, so the analyzer methods take no CPE dictionary.
- CSV and gzip decoding (lines 144-154, 159, 165, 169): library code.
  - `CveList.Load` takes the reader's rows already decoded.
  - Records are assumed not to span lines, so the row of line 3 is row index 2.
- `CheckApplication` (lines 279-423): command-line parsing, file names, directories and report writing.
- The constructors' `filename` argument (lines 64-66, 134-138):
  - Filters are parameters of `Load`, and an empty filter means unset.
  - A constructor given a file name would load it before any filter is set.
  - The CVE table constructor would also load before `_ref_re` exists.
  - The application never does either (lines 340-346).
- The `References` regular-expression split (lines 138, 177-178): its result is discarded, since line 179 stores a fresh zip. Only its `KeyError` is modelled, as `NoReferences`.
- The diagnostic `print` calls (lines 107, 119): console output only.
- Analysis.ComplianceReport: Python represents an unfixed entry as `(id, False, (), ())`. The model uses an empty list and an empty set, because the empty tuple behaves the same as the empty list and the empty set where the package map reads it.
- Analysis.ComplianceReport, Analysis.ReverseIndex: Python's set and dict iteration order is left unspecified.
  - The report's order and each advisory list's order are not stated.
  - Their contents are stated: ids, multiplicities and package sets.
- AdvisoryMaps.AdvisoryMap.Load: the order of a filtered CVE list, which comes from `list(set)`, is left unspecified. Its members and the absence of duplicates are stated.
- AdvisoryMaps.AdvisoryMap.Load: the package `None` that Python assigns when it cannot decompose a CPE string is never stored, because the `continue` at line 120 skips the append. The model therefore has no optional package.
- Python 2 byte strings are modelled as `seq<char>`, and `str.split()` whitespace is space, tab, newline, carriage return, vertical tab and form feed.
