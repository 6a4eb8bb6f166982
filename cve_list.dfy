/** The CVE table (`CVEList`): rows of the decoded CSV file, with the
    header at line 3, metadata rows up to the first all-empty row, and
    one data row per CVE after it, keyed by its first column. */
module CveLists {
  import opened Wrappers
  import opened Text

  /** A stored CVE record: field name from the header to the row's value. */
  type Record = map<string, string>

  /** Why a load stops early: the reader ran out of rows before line 3
      or before an all-empty row (StopIteration), a data row had no first
      column (IndexError), or a stored row's fields had no References
      (KeyError). The indices are 0-based row positions. */
  datatype LoadError = NoHeader | NoSeparator | EmptyRow(index: nat) | NoReferences(index: nat)

  /** `isEmpty`: true iff every element is falsy, which for the reader's
      strings means empty. */
  function IsEmpty(row: seq<string>): (r: bool)
    ensures r <==> forall i :: 0 <= i < |row| ==> row[i] == ""
  {
    row == [] || (row[0] == "" && IsEmpty(row[1..]))
  }

  function Min(a: nat, b: nat): nat {
    if a < b then a else b
  }

  /** `dict(zip(header, row))`: pairs up to the shorter of the two, a
      later repeated field name overwriting an earlier one. */
  function ZipMap(header: seq<string>, row: seq<string>): (rec: Record)
    ensures forall k :: k in rec ==> k in header
    decreases |header|
  {
    var n := Min(|header|, |row|);
    if n == 0 then map[]
    else ZipMap(header[..n - 1], row[..n - 1])[header[n - 1] := row[n - 1]]
  }

  /** A field is present iff it names one of the zipped columns, and its
      value is that of the last zipped column with that name. */
  lemma {:induction false} ZipMapFields(header: seq<string>, row: seq<string>, k: string)
    ensures k in ZipMap(header, row) <==> exists i :: 0 <= i < Min(|header|, |row|) && header[i] == k
    ensures k in ZipMap(header, row) ==>
      exists i :: && 0 <= i < Min(|header|, |row|) && header[i] == k && ZipMap(header, row)[k] == row[i]
                  && forall i' :: i < i' < Min(|header|, |row|) ==> header[i'] != k
  {
    ZipMapKeys(header, row, k);
    if k in ZipMap(header, row) {
      ZipMapLast(header, row, k);
    }
  }

  lemma {:induction false} ZipMapKeys(header: seq<string>, row: seq<string>, k: string)
    ensures k in ZipMap(header, row) <==> exists i :: 0 <= i < Min(|header|, |row|) && header[i] == k
    decreases |header|
  {
    var n := Min(|header|, |row|);
    if n > 0 {
      var h, r := header[..n - 1], row[..n - 1];
      assert Min(|h|, |r|) == n - 1;
      ZipMapKeys(h, r, k);
      assert ZipMap(header, row) == ZipMap(h, r)[header[n - 1] := row[n - 1]];
      if k in ZipMap(h, r) {
        var i :| 0 <= i < n - 1 && h[i] == k;
        assert header[i] == k;
      }
      if exists i :: 0 <= i < n && header[i] == k {
        var i :| 0 <= i < n && header[i] == k;
        if i < n - 1 { assert h[i] == k; }
      }
    }
  }

  lemma {:induction false} ZipMapLast(header: seq<string>, row: seq<string>, k: string)
    requires k in ZipMap(header, row)
    ensures exists i :: && 0 <= i < Min(|header|, |row|) && header[i] == k && ZipMap(header, row)[k] == row[i]
                        && forall i' :: i < i' < Min(|header|, |row|) ==> header[i'] != k
    decreases |header|
  {
    var n := Min(|header|, |row|);
    var h, r := header[..n - 1], row[..n - 1];
    assert Min(|h|, |r|) == n - 1;
    assert ZipMap(header, row) == ZipMap(h, r)[header[n - 1] := row[n - 1]];
    if header[n - 1] == k {
      assert ZipMap(header, row)[k] == row[n - 1];
      assert LastColumn(header, row, k, n - 1);
    } else {
      ZipMapLast(h, r, k);
      var i :| && 0 <= i < n - 1 && h[i] == k && ZipMap(h, r)[k] == r[i]
               && forall i' :: i < i' < n - 1 ==> h[i'] != k;
      assert header[i] == k && row[i] == r[i];
      assert forall i' :: i < i' < n - 1 ==> header[i'] == h[i'];
      assert LastColumn(header, row, k, i);
    }
  }

  ghost predicate LastColumn(header: seq<string>, row: seq<string>, k: string, i: nat) {
    && i < Min(|header|, |row|) && header[i] == k && k in ZipMap(header, row) && ZipMap(header, row)[k] == row[i]
    && forall i' :: i < i' < Min(|header|, |row|) ==> header[i'] != k
  }

  /** With distinct field names, each zipped column's value is stored
      under its own name. */
  lemma {:induction false} ZipMapDistinct(header: seq<string>, row: seq<string>, i: nat)
    requires forall a, b :: 0 <= a < b < |header| ==> header[a] != header[b]
    requires i < Min(|header|, |row|)
    ensures header[i] in ZipMap(header, row) && ZipMap(header, row)[header[i]] == row[i]
  {
    ZipMapFields(header, row, header[i]);
  }

  /** Index of the first all-empty row at or after `from`. */
  function FirstEmpty(rows: seq<seq<string>>, from: nat): (r: Option<nat>)
    ensures r.Some? ==> && from <= r.value < |rows| && IsEmpty(rows[r.value])
                        && forall i :: from <= i < r.value ==> !IsEmpty(rows[i])
    ensures r.None? ==> forall i :: from <= i < |rows| ==> !IsEmpty(rows[i])
    decreases |rows| - from
  {
    if from >= |rows| then None
    else if IsEmpty(rows[from]) then Some(from)
    else FirstEmpty(rows, from + 1)
  }

  /** The table and the error, if any, after some rows. */
  datatype Outcome = Outcome(table: map<string, Record>, err: Option<LoadError>)

  /** A data row is stored when it has a first column and passes the
      filter (an empty filter passes everything). */
  predicate Kept(row: seq<string>, filter: seq<string>) {
    row != [] && (filter == [] || row[0] in filter)
  }

  /** One data row, at file position `at`. */
  function StoreRow(table: map<string, Record>, header: seq<string>, row: seq<string>,
                    filter: seq<string>, at: nat): (o: Outcome)
    ensures o.err.Some? ==> o.table == table && (o.err.value == EmptyRow(at) || o.err.value == NoReferences(at))
    ensures table.Keys <= o.table.Keys
  {
    if row == [] then Outcome(table, Some(EmptyRow(at)))
    else if !Kept(row, filter) then Outcome(table, None)
    else if "References" !in ZipMap(header, row) then Outcome(table, Some(NoReferences(at)))
    else Outcome(table[row[0] := ZipMap(header, row)], None)
  }

  /** The data rows in order, stopping at the first error; `first` is the
      file position of `rows[0]`. */
  function StoreRows(table: map<string, Record>, header: seq<string>, rows: seq<seq<string>>,
                     filter: seq<string>, first: nat): (o: Outcome)
    ensures o.err.Some? ==> (o.err.value.EmptyRow? || o.err.value.NoReferences?) && first <= o.err.value.index < first + |rows|
    ensures table.Keys <= o.table.Keys
  {
    if rows == [] then Outcome(table, None)
    else
      var prev := StoreRows(table, header, rows[..|rows| - 1], filter, first);
      if prev.err.Some? then prev
      else StoreRow(prev.table, header, rows[|rows| - 1], filter, first + |rows| - 1)
  }

  /** `CVEList._load` over the reader's rows: the header is the row of
      line 3; data begins after the first all-empty row, which may be the
      header row itself. */
  function LoadRows(before: map<string, Record>, rows: seq<seq<string>>, filter: seq<string>): (o: Outcome)
    ensures o.err == Some(NoHeader) <==> |rows| < 3
    ensures before.Keys <= o.table.Keys
  {
    if |rows| < 3 then Outcome(before, Some(NoHeader))
    else match FirstEmpty(rows, 2)
      case None => Outcome(before, Some(NoSeparator))
      case Some(sep) => StoreRows(before, rows[2], rows[sep + 1..], filter, sep + 1)
  }

  lemma {:induction false} StoreRowsSnoc(table: map<string, Record>, header: seq<string>, rows: seq<seq<string>>,
                      row: seq<string>, filter: seq<string>, first: nat)
    ensures var prev := StoreRows(table, header, rows, filter, first);
      StoreRows(table, header, rows + [row], filter, first) ==
        if prev.err.Some? then prev else StoreRow(prev.table, header, row, filter, first + |rows|)
  {
    assert (rows + [row])[..|rows|] == rows;
  }

  /** Once a row has failed, later rows change nothing. */
  lemma {:induction false} StoreRowsStops(table: map<string, Record>, header: seq<string>, rows: seq<seq<string>>,
                                          more: seq<seq<string>>, filter: seq<string>, first: nat)
    requires StoreRows(table, header, rows, filter, first).err.Some?
    ensures StoreRows(table, header, rows + more, filter, first) == StoreRows(table, header, rows, filter, first)
    decreases |more|
  {
    if more != [] {
      var m := |more|;
      StoreRowsStops(table, header, rows, more[..m - 1], filter, first);
      assert rows + more == (rows + more[..m - 1]) + [more[m - 1]];
      StoreRowsSnoc(table, header, rows + more[..m - 1], more[m - 1], filter, first);
    } else {
      assert rows + more == rows;
    }
  }

  /** The filter is a pure restriction: with a non-empty filter, every id
      the rows add is in the filter, whether or not the load fails. */
  lemma {:induction false} StoreRowsFiltered(table: map<string, Record>, header: seq<string>, rows: seq<seq<string>>,
                                             filter: seq<string>, first: nat)
    requires filter != []
    ensures forall k :: k in StoreRows(table, header, rows, filter, first).table ==> k in table || k in filter
  {
    if rows != [] {
      StoreRowsFiltered(table, header, rows[..|rows| - 1], filter, first);
    }
  }

  /** The last kept row among `rows` that carries id `k`. */
  ghost predicate LastKept(rows: seq<seq<string>>, filter: seq<string>, j: nat, k: string) {
    && j < |rows| && Kept(rows[j], filter) && rows[j][0] == k
    && forall j' :: j < j' < |rows| && Kept(rows[j'], filter) ==> rows[j'][0] != k
  }

  /** After rows that load without error, an id is in the table iff it
      was before or some kept row carries it. */
  lemma {:induction false} StoreRowsKeys(table: map<string, Record>, header: seq<string>, rows: seq<seq<string>>,
                                         filter: seq<string>, first: nat, k: string)
    requires StoreRows(table, header, rows, filter, first).err.None?
    ensures k in StoreRows(table, header, rows, filter, first).table <==>
      k in table || exists j :: 0 <= j < |rows| && Kept(rows[j], filter) && rows[j][0] == k
  {
    if rows != [] {
      var n := |rows|;
      var front := rows[..n - 1];
      assert rows == front + [rows[n - 1]];
      StoreRowsSnoc(table, header, front, rows[n - 1], filter, first);
      StoreRowsKeys(table, header, front, filter, first, k);
      assert forall j :: 0 <= j < n - 1 ==> rows[j] == front[j];
    }
  }

  /** An id that no kept row carries keeps the value it had before. */
  lemma {:induction false} StoreRowsUntouched(table: map<string, Record>, header: seq<string>, rows: seq<seq<string>>,
                                              filter: seq<string>, first: nat, k: string)
    requires StoreRows(table, header, rows, filter, first).err.None?
    requires k in table
    requires forall j :: 0 <= j < |rows| && Kept(rows[j], filter) ==> rows[j][0] != k
    ensures var t := StoreRows(table, header, rows, filter, first).table;
      k in t && t[k] == table[k]
  {
    if rows != [] {
      var n := |rows|;
      var front := rows[..n - 1];
      assert rows == front + [rows[n - 1]];
      StoreRowsSnoc(table, header, front, rows[n - 1], filter, first);
      assert forall j :: 0 <= j < n - 1 ==> rows[j] == front[j];
      StoreRowsUntouched(table, header, front, filter, first, k);
    }
  }

  /** A kept id holds the zip of the LAST kept row that carries it. */
  lemma {:induction false} StoreRowsLastWins(table: map<string, Record>, header: seq<string>, rows: seq<seq<string>>,
                                             filter: seq<string>, first: nat, k: string, j: nat)
    requires StoreRows(table, header, rows, filter, first).err.None?
    requires LastKept(rows, filter, j, k)
    ensures var t := StoreRows(table, header, rows, filter, first).table;
      k in t && t[k] == ZipMap(header, rows[j])
  {
    var n := |rows|;
    var front := rows[..n - 1];
    assert rows == front + [rows[n - 1]];
    StoreRowsSnoc(table, header, front, rows[n - 1], filter, first);
    if j < n - 1 {
      assert rows[n - 1] == rows[n - 1] && (Kept(rows[n - 1], filter) ==> rows[n - 1][0] != k);
      assert forall j' :: 0 <= j' < n - 1 ==> rows[j'] == front[j'];
      assert LastKept(front, filter, j, k);
      StoreRowsLastWins(table, header, front, filter, first, k, j);
    }
  }

  /** One more data row after an error-free prefix: the prefix plus the
      row gives what the row gives, and a row that fails ends the load. */
  lemma {:induction false} StoreRowsStep(table: map<string, Record>, header: seq<string>, rows: seq<seq<string>>,
                                         filter: seq<string>, start: nat, pos: nat, data: map<string, Record>)
    requires start <= pos < |rows|
    requires Outcome(data, None) == StoreRows(table, header, rows[start..pos], filter, start)
    ensures StoreRows(table, header, rows[start..pos + 1], filter, start) == StoreRow(data, header, rows[pos], filter, pos)
    ensures StoreRow(data, header, rows[pos], filter, pos).err.Some? ==>
      StoreRows(table, header, rows[start..], filter, start) == StoreRow(data, header, rows[pos], filter, pos)
  {
    assert rows[start..pos + 1] == rows[start..pos] + [rows[pos]];
    StoreRowsSnoc(table, header, rows[start..pos], rows[pos], filter, start);
    if StoreRow(data, header, rows[pos], filter, pos).err.Some? {
      StoreRowsStops(table, header, rows[start..pos + 1], rows[pos + 1..], filter, start);
      assert rows[start..pos + 1] + rows[pos + 1..] == rows[start..];
    }
  }

  /** The two cursor loops of `CVEList._load`: read up to line 3 for the
      header, then on to the first all-empty row. `start` is the index of
      the first data row. */
  method ReadPreamble(rows: seq<seq<string>>) returns (header: seq<string>, start: nat, err: Option<LoadError>)
    ensures err == Some(NoHeader) <==> |rows| < 3
    ensures err == Some(NoSeparator) <==> |rows| >= 3 && FirstEmpty(rows, 2).None?
    ensures err.None? ==> |rows| >= 3 && header == rows[2] && FirstEmpty(rows, 2) == Some(start - 1)
    ensures err.None? || err == Some(NoHeader) || err == Some(NoSeparator)
  {
    // the reader's cursor: rows read so far (`reader.line_num`)
    var pos := 0;
    var row: seq<string> := [];
    while pos < 3
      invariant 0 <= pos <= 3 && pos <= |rows|
      invariant pos > 0 ==> row == rows[pos - 1]
    {
      if pos >= |rows| {
        return [], 0, Some(NoHeader);
      }
      row := rows[pos];
      pos := pos + 1;
    }
    header := row;
    while !IsEmpty(row)
      invariant 3 <= pos <= |rows|
      invariant row == rows[pos - 1]
      invariant FirstEmpty(rows, 2) == FirstEmpty(rows, pos - 1)
      decreases |rows| - pos
    {
      if pos >= |rows| {
        return header, 0, Some(NoSeparator);
      }
      row := rows[pos];
      pos := pos + 1;
    }
    start, err := pos, None;
  }

  /** `CVEList`: the table from CVE id to its record. */
  class CveList {
    var data: map<string, Record>

    constructor ()
      ensures data == map[]
    {
      data := map[];
    }

    /** `CVEList._load`, with the filter passed explicitly (an empty
        filter is an unset one). On an error the rows stored before it
        stay stored. */
    method Load(rows: seq<seq<string>>, filter: seq<string>) returns (err: Option<LoadError>)
      modifies this
      ensures Outcome(data, err) == LoadRows(old(data), rows, filter)
    {
      var header, start;
      header, start, err := ReadPreamble(rows);
      if err.Some? {
        return;
      }
      assert LoadRows(old(data), rows, filter) == StoreRows(old(data), header, rows[start..], filter, start);
      var pos := start;
      while pos < |rows|
        invariant start <= pos <= |rows|
        invariant Outcome(data, None) == StoreRows(old(data), header, rows[start..pos], filter, start)
      {
        StoreRowsStep(old(data), header, rows, filter, start, pos, data);
        var row := rows[pos];
        if row == [] {
          return Some(EmptyRow(pos));
        }
        var cveId := row[0];
        if filter != [] && cveId !in filter {
          pos := pos + 1;
          continue;
        }
        var fields := ZipMap(header, row);
        if "References" !in fields {
          return Some(NoReferences(pos));
        }
        data := data[cveId := ZipMap(header, row)];
        pos := pos + 1;
      }
      assert rows[start..pos] == rows[start..];
      err := None;
    }
  }
}
