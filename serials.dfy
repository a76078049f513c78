/** extract_serials.py: the serials found in the `ecc_serial` column of a set
    of CSV files, each with the set of files it appears in; the distinct
    serials in sorted order (the lines of `sn.txt`), their count, and the
    serials that appear in more than one file, each with its files sorted.
    The files arrive already read: a name and the rows, each row a map from
    column name to value. */
module Serials {

  /** One row as `csv.DictReader` yields it. */
  type CsvRecord = map<string, string>

  datatype CsvFile = CsvFile(name: string, rows: seq<CsvRecord>)

  /** `"ecc_serial" in row and row["ecc_serial"]`, with value `s`. */
  predicate HasSerial(row: CsvRecord, s: string) {
    "ecc_serial" in row && row["ecc_serial"] == s && s != ""
  }

  /** Some row of `rows` carries serial `s`. */
  predicate InRows(rows: seq<CsvRecord>, s: string) {
    exists j :: 0 <= j < |rows| && HasSerial(rows[j], s)
  }

  /** Some file carries serial `s`. */
  predicate Collected(files: seq<CsvFile>, s: string) {
    exists i :: 0 <= i < |files| && InRows(files[i].rows, s)
  }

  /** The names of the files that carry serial `s`. */
  function FilesWith(files: seq<CsvFile>, s: string): set<string> {
    set i | 0 <= i < |files| && InRows(files[i].rows, s) :: files[i].name
  }

  /** `serial_files[row["ecc_serial"]].add(name)` for a row with a serial. */
  function AddRow(m: map<string, set<string>>, name: string, row: CsvRecord): map<string, set<string>> {
    if "ecc_serial" in row && row["ecc_serial"] != "" then
      var s := row["ecc_serial"];
      m[s := (if s in m then m[s] else {}) + {name}]
    else m
  }

  /** The inner loop over one file's rows, from the back. */
  function AddRows(m: map<string, set<string>>, name: string, rows: seq<CsvRecord>): map<string, set<string>> {
    if rows == [] then m else AddRow(AddRows(m, name, rows[..|rows| - 1]), name, rows[|rows| - 1])
  }

  /** The outer loop over the files, from the back. */
  function Gather(files: seq<CsvFile>): map<string, set<string>> {
    if files == [] then map[]
    else AddRows(Gather(files[..|files| - 1]), files[|files| - 1].name, files[|files| - 1].rows)
  }

  /** The nested loops of `main` filling `serial_files`. */
  method CollectSerials(files: seq<CsvFile>) returns (serialFiles: map<string, set<string>>)
    ensures serialFiles == Gather(files)
  {
    serialFiles := map[];
    for i := 0 to |files|
      invariant serialFiles == Gather(files[..i])
    {
      var f := files[i];
      ghost var before := serialFiles;
      for j := 0 to |f.rows|
        invariant serialFiles == AddRows(before, f.name, f.rows[..j])
      {
        var row := f.rows[j];
        assert f.rows[..j + 1][..j] == f.rows[..j];
        if "ecc_serial" in row && row["ecc_serial"] != "" {
          var s := row["ecc_serial"];
          var current := if s in serialFiles then serialFiles[s] else {};
          serialFiles := serialFiles[s := current + {f.name}];
        }
      }
      assert f.rows[..|f.rows|] == f.rows;
      assert files[..i + 1][..i] == files[..i];
    }
    assert files[..|files|] == files;
  }

  /** After one file's rows, a serial is present when it was before or some
      row carries it, and the file's name has joined its set exactly when a
      row carries it. */
  lemma {:induction false} AddRowsMeaning(m: map<string, set<string>>, name: string, rows: seq<CsvRecord>, s: string)
    ensures s in AddRows(m, name, rows) <==> s in m || InRows(rows, s)
    ensures s in AddRows(m, name, rows) ==>
      AddRows(m, name, rows)[s] == (if s in m then m[s] else {}) + (if InRows(rows, s) then {name} else {})
  {
    if rows != [] {
      var init := rows[..|rows| - 1];
      AddRowsMeaning(m, name, init, s);
      assert InRows(rows, s) <==> InRows(init, s) || HasSerial(rows[|rows| - 1], s) by {
        if InRows(rows, s) && !HasSerial(rows[|rows| - 1], s) {
          var j :| 0 <= j < |rows| && HasSerial(rows[j], s);
          assert init[j] == rows[j];
        }
        if InRows(init, s) {
          var j :| 0 <= j < |init| && HasSerial(init[j], s);
          assert rows[j] == init[j];
        }
      }
    }
  }

  /** The file sets over one more file. */
  lemma FilesWithSnoc(files: seq<CsvFile>, s: string)
    requires files != []
    ensures var init, last := files[..|files| - 1], files[|files| - 1];
      FilesWith(files, s) == FilesWith(init, s) + (if InRows(last.rows, s) then {last.name} else {})
      && (Collected(files, s) <==> Collected(init, s) || InRows(last.rows, s))
  {
    var init, last := files[..|files| - 1], files[|files| - 1];
    assert forall i :: 0 <= i < |init| ==> init[i] == files[i];
    if Collected(files, s) && !InRows(last.rows, s) {
      var i :| 0 <= i < |files| && InRows(files[i].rows, s);
      assert init[i] == files[i];
    }
  }

  /** A serial is collected exactly when some row of some file carries it as
      a non-empty `ecc_serial`, and its set is exactly the names of the files
      that carry it. */
  lemma {:induction false} GatherMeaning(files: seq<CsvFile>, s: string)
    ensures s in Gather(files) <==> Collected(files, s)
    ensures s in Gather(files) ==> Gather(files)[s] == FilesWith(files, s)
  {
    if files != [] {
      var init, last := files[..|files| - 1], files[|files| - 1];
      GatherMeaning(init, s);
      AddRowsMeaning(Gather(init), last.name, last.rows, s);
      FilesWithSnoc(files, s);
      if s !in Gather(init) {
        assert FilesWith(init, s) == {};
      }
    }
  }

  /** Python's `<` on strings: code point by code point, a proper prefix
      first. */
  predicate Below(a: string, b: string) {
    if a == [] then b != []
    else b != [] && (a[0] < b[0] || (a[0] == b[0] && Below(a[1..], b[1..])))
  }

  /** `Below` is a strict total order. */
  lemma {:induction false} BelowIrreflexive(a: string)
    ensures !Below(a, a)
  {
    if a != [] {
      BelowIrreflexive(a[1..]);
    }
  }

  lemma {:induction false} BelowTransitive(a: string, b: string, c: string)
    requires Below(a, b) && Below(b, c)
    ensures Below(a, c)
  {
    if a != [] && a[0] == b[0] && b[0] == c[0] {
      BelowTransitive(a[1..], b[1..], c[1..]);
    }
  }

  lemma {:induction false} BelowTotal(a: string, b: string)
    ensures a == b || Below(a, b) || Below(b, a)
  {
    if a != [] && b != [] && a[0] == b[0] {
      BelowTotal(a[1..], b[1..]);
      if a[1..] == b[1..] {
        assert a == [a[0]] + a[1..] && b == [b[0]] + b[1..];
      }
    }
  }

  lemma BelowAsymmetric(a: string, b: string)
    requires Below(a, b)
    ensures !Below(b, a)
  {
    if Below(b, a) {
      BelowTransitive(a, b, a);
      BelowIrreflexive(a);
    }
  }

  /** Strictly ascending, hence free of duplicates. */
  predicate Ascending(xs: seq<string>) {
    forall i, j :: 0 <= i < j < |xs| ==> Below(xs[i], xs[j])
  }

  /** An ascending sequence holds each element once. */
  lemma AscendingDistinct(xs: seq<string>, i: nat, j: nat)
    requires Ascending(xs) && i < j < |xs|
    ensures xs[i] != xs[j]
  {
    BelowIrreflexive(xs[i]);
  }

  /** Inserting `x` into an ascending sequence that lacks it: the loop finds
      the first element not below `x` and puts `x` before it. */
  method Insert(xs: seq<string>, x: string) returns (ys: seq<string>)
    requires Ascending(xs) && x !in xs
    ensures Ascending(ys) && |ys| == |xs| + 1
    ensures forall y :: y in ys <==> y in xs || y == x
  {
    var i := 0;
    while i < |xs| && Below(xs[i], x)
      invariant 0 <= i <= |xs|
      invariant forall k :: 0 <= k < i ==> Below(xs[k], x)
    {
      i := i + 1;
    }
    if i < |xs| {
      BelowTotal(xs[i], x);
      forall k | i <= k < |xs| ensures Below(x, xs[k]) {
        if k > i {
          BelowTransitive(x, xs[i], xs[k]);
        }
      }
    }
    ys := xs[..i] + [x] + xs[i..];
    forall p, q | 0 <= p < q < |ys| ensures Below(ys[p], ys[q]) {
      if q < i || p > i {
        assert ys[p] == xs[if p < i then p else p - 1] && ys[q] == xs[if q < i then q else q - 1];
      } else if p < i && q > i {
        BelowTransitive(ys[p], x, ys[q]);
      }
    }
    assert forall y :: y in ys <==> y in xs[..i] || y == x || y in xs[i..];
    assert xs == xs[..i] + xs[i..];
  }

  /** `sorted(keys)`: the set's elements, each once, in ascending order. */
  method Sorted(keys: set<string>) returns (r: seq<string>)
    ensures Ascending(r) && |r| == |keys|
    ensures forall x :: x in r <==> x in keys
  {
    r := [];
    var rest := keys;
    while rest != {}
      invariant rest <= keys && |r| + |rest| == |keys|
      invariant Ascending(r)
      invariant forall x :: x in r <==> x in keys && x !in rest
      decreases |rest|
    {
      var x :| x in rest;
      r := Insert(r, x);
      rest := rest - {x};
    }
  }

  /** `multi_file`: the serials found in more than one file. */
  function MultiFile(serialFiles: map<string, set<string>>): (multi: map<string, set<string>>)
    ensures forall s :: s in multi <==> s in serialFiles && |serialFiles[s]| > 1
    ensures forall s :: s in multi ==> multi[s] == serialFiles[s]
  {
    map s | s in serialFiles && |serialFiles[s]| > 1 :: serialFiles[s]
  }

  /** What `main` reports: the lines of `sn.txt`, the count it prints, and
      the multi-file listing. */
  datatype Report = Report(snLines: seq<string>, count: nat, multi: seq<(string, seq<string>)>)

  /** One entry of the multi-file listing: a serial and its files, sorted. */
  predicate ListsFiles(entry: (string, seq<string>), serialFiles: map<string, set<string>>) {
    entry.0 in serialFiles && Ascending(entry.1) && |entry.1| == |serialFiles[entry.0]|
    && (forall f :: f in entry.1 ==> f in serialFiles[entry.0])
    && (forall f :: f in serialFiles[entry.0] ==> f in entry.1)
  }

  /** The inner loop of the listing: each serial with its files sorted. */
  method ListFiles(serials: seq<string>, serialFiles: map<string, set<string>>)
    returns (multi: seq<(string, seq<string>)>)
    requires forall k :: 0 <= k < |serials| ==> serials[k] in serialFiles
    ensures |multi| == |serials|
    ensures forall k :: 0 <= k < |multi| ==> multi[k].0 == serials[k] && ListsFiles(multi[k], serialFiles)
  {
    multi := [];
    for k := 0 to |serials|
      invariant |multi| == k
      invariant forall l :: 0 <= l < k ==> multi[l].0 == serials[l] && ListsFiles(multi[l], serialFiles)
    {
      var files := Sorted(serialFiles[serials[k]]);
      multi := multi + [(serials[k], files)];
    }
  }

  /** The report on `serial_files`: the sorted serials, their number, and the
      serials in more than one file, sorted, each with its files sorted. */
  method Summarize(serialFiles: map<string, set<string>>) returns (report: Report)
    ensures report.count == |report.snLines| == |serialFiles|
    ensures Ascending(report.snLines)
    ensures forall s :: s in report.snLines <==> s in serialFiles
    ensures |report.multi| == |MultiFile(serialFiles)|
    ensures forall k :: 0 <= k < |report.multi| ==>
      report.multi[k].0 in MultiFile(serialFiles) && ListsFiles(report.multi[k], serialFiles)
    ensures forall s :: s in MultiFile(serialFiles) ==> exists k :: 0 <= k < |report.multi| && report.multi[k].0 == s
    ensures forall k, l :: 0 <= k < l < |report.multi| ==> Below(report.multi[k].0, report.multi[l].0)
  {
    var snLines := Sorted(serialFiles.Keys);
    var multiFile := MultiFile(serialFiles);
    var serials := Sorted(multiFile.Keys);
    var multi := ListFiles(serials, serialFiles);
    report := Report(snLines, |serialFiles|, multi);
    forall s | s in multiFile ensures exists k :: 0 <= k < |multi| && multi[k].0 == s {
      var k :| 0 <= k < |serials| && serials[k] == s;
      assert multi[k].0 == s;
    }
  }

  /** All of `main`: collect, then report. */
  method ExtractSerials(files: seq<CsvFile>) returns (report: Report)
    ensures report.count == |report.snLines|
    ensures Ascending(report.snLines)
    ensures forall s :: s in report.snLines <==> Collected(files, s)
    ensures forall k :: 0 <= k < |report.multi| ==>
      |FilesWith(files, report.multi[k].0)| > 1
      && forall f :: f in report.multi[k].1 <==> f in FilesWith(files, report.multi[k].0)
    ensures forall s :: Collected(files, s) && |FilesWith(files, s)| > 1 ==>
      exists k :: 0 <= k < |report.multi| && report.multi[k].0 == s
    ensures forall k :: 0 <= k < |report.multi| ==> Ascending(report.multi[k].1)
    ensures forall k, l :: 0 <= k < l < |report.multi| ==> Below(report.multi[k].0, report.multi[l].0)
  {
    var serialFiles := CollectSerials(files);
    report := Summarize(serialFiles);
    forall s ensures s in serialFiles <==> Collected(files, s) {
      GatherMeaning(files, s);
    }
    forall k | 0 <= k < |report.multi|
      ensures |FilesWith(files, report.multi[k].0)| > 1
      ensures forall f :: f in report.multi[k].1 <==> f in FilesWith(files, report.multi[k].0)
    {
      GatherMeaning(files, report.multi[k].0);
    }
    forall s | Collected(files, s) && |FilesWith(files, s)| > 1
      ensures exists k :: 0 <= k < |report.multi| && report.multi[k].0 == s
    {
      GatherMeaning(files, s);
    }
  }
}
