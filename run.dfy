/** The sequential run of `run_sequential_flashing` (flasher.py) and the CSV
    file it keeps: device after device is processed, the first successful
    device that reports a firmware version renames the output file once, and
    every successful device adds one CSV row.  The file system is a map from
    file name to CSV records; the devices are a finite sequence of cycles,
    its end standing for the operator's interrupt while waiting for the next
    device. */
module Run {
  import opened Common
  import opened Extractor
  import opened Device

  /** One CSV record. */
  type Row = seq<string>

  const Header: Row := ["ecc_serial", "mac_eth0", "mac_wlan0", "helium_public_key", "full_public_key"]

  /** The record `append_to_csv` writes for a result: the serial and the full
      key, the three other columns left empty. */
  function CsvRow(result: DeviceResult): (row: Row)
    ensures |row| == |Header|
    ensures row[0] == TextOf(result.serialNumber) && row[4] == TextOf(result.publicKey)
    ensures row[1] == "" && row[2] == "" && row[3] == ""
  {
    [TextOf(result.serialNumber), "", "", "", TextOf(result.publicKey)]
  }

  /** The files after `append_to_csv(result, path)`. */
  function AppendedCsv(files: map<string, seq<Row>>, result: DeviceResult, path: string): map<string, seq<Row>> {
    if !result.success then files
    else files[path := (if path in files then files[path] else [Header]) + [CsvRow(result)]]
  }

  /** The files after renaming `src` to `dst`, replacing any `dst`. */
  function Renamed(files: map<string, seq<Row>>, src: string, dst: string): map<string, seq<Row>>
    requires src in files
  {
    (files - {src})[dst := files[src]]
  }

  /** The file system the run writes to. */
  class Disk {
    var files: map<string, seq<Row>>

    constructor (initial: map<string, seq<Row>>)
      ensures files == initial
    {
      files := initial;
    }

    /** `append_to_csv`: nothing for a failed result; otherwise the header
        when the file does not exist yet, then the result's record. */
    method AppendToCsv(result: DeviceResult, path: string)
      modifies this
      ensures files == AppendedCsv(old(files), result, path)
    {
      if !result.success {
        return;
      }
      var fileExists := path in files;
      if !fileExists {
        files := files[path := [Header]];
      }
      files := files[path := files[path] + [CsvRow(result)]];
    }

    /** `Path(src).rename(dst)` on an existing file. */
    method Rename(src: string, dst: string)
      requires src in files
      modifies this
      ensures files == Renamed(old(files), src, dst)
    {
      var content := files[src];
      files := files - {src};
      files := files[dst := content];
    }
  }

  /** `s.replace('.', '_')` */
  function DotsToUnderscores(s: string): (r: string)
    ensures |r| == |s|
    ensures forall k :: 0 <= k < |s| ==> r[k] == (if s[k] == '.' then '_' else s[k])
  {
    if s == [] then [] else [if s[0] == '.' then '_' else s[0]] + DotsToUnderscores(s[1..])
  }

  /** The output base once a firmware version is known. */
  function VersionedBase(base: string, version: string): string {
    base + "_V_" + DotsToUnderscores(version)
  }

  /** The output base chosen at the start. */
  function InitialBase(outputBase: Option<string>, timestamp: string): string {
    if !Truthy(outputBase) then "flash_results_" + timestamp else outputBase.value + "_" + timestamp
  }

  /** The start base is the given base, or `flash_results` when none is
      given, followed by `_` and the start time either way. */
  lemma InitialBaseShape(outputBase: Option<string>, timestamp: string)
    ensures var base := InitialBase(outputBase, timestamp);
      |base| > |timestamp| && base[|base| - |timestamp| - 1..] == "_" + timestamp
      && base[..|base| - |timestamp| - 1] == if Truthy(outputBase) then outputBase.value else "flash_results"
  {
    var base := InitialBase(outputBase, timestamp);
    var front := if Truthy(outputBase) then outputBase.value else "flash_results";
    assert base == front + ("_" + timestamp);
  }

  /** Runs started at different times never share an output base, so a
      later run with the same base name does not overwrite an earlier one. */
  lemma DistinctStartsDistinctBases(outputBase: Option<string>, t1: string, t2: string)
    requires t1 != t2
    ensures InitialBase(outputBase, t1) != InitialBase(outputBase, t2)
  {
    var b1, b2 := InitialBase(outputBase, t1), InitialBase(outputBase, t2);
    InitialBaseShape(outputBase, t1);
    InitialBaseShape(outputBase, t2);
    if |t1| == |t2| {
      assert b1[|b1| - |t1|..] == t1 && b2[|b2| - |t2|..] == t2;
    } else {
      assert |b1| - |t1| == |b2| - |t2|;
    }
  }

  /** The loop's bookkeeping: the output base, the CSV file name, whether a
      version has been seen, and the files. */
  datatype RunState = RunState(base: string, csvFile: string, versionFound: bool, files: map<string, seq<Row>>)

  function Start(outputBase: Option<string>, timestamp: string, files: map<string, seq<Row>>): RunState {
    var base := InitialBase(outputBase, timestamp);
    RunState(base, base + ".csv", false, files)
  }

  /** A result that triggers the rename: successful, with a non-empty version. */
  predicate Qualifies(r: DeviceResult) {
    r.success && Truthy(r.firmwareVersion)
  }

  /** One result recorded: the rename on the first qualifying result (moving
      the CSV file when it exists), then the row for a successful result. */
  function Record(st: RunState, r: DeviceResult): RunState {
    var named :=
      if !st.versionFound && Qualifies(r) then
        var base := VersionedBase(st.base, r.firmwareVersion.value);
        var csv := base + ".csv";
        RunState(base, csv, true, if st.csvFile in st.files then Renamed(st.files, st.csvFile, csv) else st.files)
      else st;
    named.(files := AppendedCsv(named.files, r, named.csvFile))
  }

  /** The bookkeeping after recording the results in order. */
  function Replay(st: RunState, rs: seq<DeviceResult>): RunState {
    if rs == [] then st else Record(Replay(st, rs[..|rs| - 1]), rs[|rs| - 1])
  }

  /** What the hardware does for one device, and whether it is unplugged
      before the disconnection wait times out. */
  datatype Cycle = Cycle(hw: Hardware, disconnected: bool)

  /** How many devices are processed: up to and including the first whose
      disconnection times out, or all of them. */
  function RunLength(cycles: seq<Cycle>): (n: nat)
    ensures n <= |cycles| && (n == 0 <==> cycles == [])
    ensures forall k :: 0 <= k < n - 1 ==> cycles[k].disconnected
    ensures n < |cycles| ==> !cycles[n - 1].disconnected
  {
    if cycles == [] then 0
    else if !cycles[0].disconnected then 1
    else 1 + RunLength(cycles[1..])
  }

  /** The results of processing the given cycles in order, numbered from 1. */
  function Outcomes(port: string, eraseFirst: bool, cycles: seq<Cycle>): (rs: seq<DeviceResult>)
    ensures |rs| == |cycles|
  {
    if cycles == [] then []
    else Outcomes(port, eraseFirst, cycles[..|cycles| - 1]) + [Outcome(port, |cycles|, eraseFirst, cycles[|cycles| - 1].hw)]
  }

  /** The k-th result is the outcome of the k-th cycle, as device k + 1. */
  lemma {:induction false} OutcomesAt(port: string, eraseFirst: bool, cycles: seq<Cycle>, k: nat)
    requires k < |cycles|
    ensures Outcomes(port, eraseFirst, cycles)[k] == Outcome(port, k + 1, eraseFirst, cycles[k].hw)
  {
    if k < |cycles| - 1 {
      OutcomesAt(port, eraseFirst, cycles[..|cycles| - 1], k);
    }
  }

  /** One more cycle adds its outcome, as device `i + 1`, at the end. */
  lemma OutcomesSnoc(port: string, eraseFirst: bool, cycles: seq<Cycle>, i: nat)
    requires i < |cycles|
    ensures Outcomes(port, eraseFirst, cycles[..i + 1])
      == Outcomes(port, eraseFirst, cycles[..i]) + [Outcome(port, i + 1, eraseFirst, cycles[i].hw)]
  {
    assert cycles[..i + 1][..i] == cycles[..i];
  }

  /** Recording one more result is one more step of Replay. */
  lemma ReplayNext(st: RunState, rs: seq<DeviceResult>, r: DeviceResult)
    ensures Replay(st, rs + [r]) == Record(Replay(st, rs), r)
  {
    assert (rs + [r])[..|rs|] == rs;
  }

  /** The run length counted from cycle `i` on: one more device, and the
      rest only when this one was unplugged in time. */
  lemma RunLengthFrom(cycles: seq<Cycle>, i: nat)
    requires i < |cycles|
    ensures RunLength(cycles[i..]) == if cycles[i].disconnected then 1 + RunLength(cycles[i + 1..]) else 1
  {
    assert cycles[i..][1..] == cycles[i + 1..];
  }

  /** The part of the loop body that follows `process_device`: the one-time
      rename on the first successful result with a version, then the CSV row. */
  method RecordResult(disk: Disk, result: DeviceResult, outputFileBase: string, csvOutputFile: string,
                      firmwareVersionFound: bool)
    returns (newBase: string, newCsv: string, versionFound: bool)
    modifies disk
    ensures RunState(newBase, newCsv, versionFound, disk.files)
      == Record(RunState(outputFileBase, csvOutputFile, firmwareVersionFound, old(disk.files)), result)
  {
    newBase, newCsv, versionFound := outputFileBase, csvOutputFile, firmwareVersionFound;
    if result.success && !versionFound && Truthy(result.firmwareVersion) {
      var base := VersionedBase(newBase, result.firmwareVersion.value);
      var csv := base + ".csv";
      if newCsv in disk.files {
        disk.Rename(newCsv, csv);
      }
      newCsv := csv;
      newBase := base;
      versionFound := true;
    }
    if result.success {
      disk.AppendToCsv(result, newCsv);
    }
  }

  /** `run_sequential_flashing`: device numbers count from 1; each result is
      kept, may rename the CSV file, and is appended to it when successful;
      the run ends when a disconnection times out or the devices run out. */
  method RunSequentialFlashing(disk: Disk, port: string, eraseFirst: bool, outputBase: Option<string>,
                               timestamp: string, cycles: seq<Cycle>)
    returns (results: seq<DeviceResult>, outputFileBase: string, csvOutputFile: string)
    modifies disk
    ensures |results| == RunLength(cycles)
    ensures forall k :: 0 <= k < |results| ==> results[k] == Outcome(port, k + 1, eraseFirst, cycles[k].hw)
    ensures var st := Replay(Start(outputBase, timestamp, old(disk.files)), results);
      st.base == outputFileBase && st.csvFile == csvOutputFile && st.files == disk.files
  {
    var deviceNumber := 1;
    results := [];
    outputFileBase := InitialBase(outputBase, timestamp);
    csvOutputFile := outputFileBase + ".csv";
    var firmwareVersionFound := false;
    ghost var st0 := Start(outputBase, timestamp, disk.files);
    var i := 0;
    assert cycles[0..] == cycles;
    while i < |cycles|
      invariant 0 <= i <= |cycles| && |results| == i && deviceNumber == i + 1
      invariant results == Outcomes(port, eraseFirst, cycles[..i])
      invariant RunLength(cycles) == i + RunLength(cycles[i..])
      invariant RunState(outputFileBase, csvOutputFile, firmwareVersionFound, disk.files) == Replay(st0, results)
    {
      var result, _ := ProcessDevice(port, deviceNumber, eraseFirst, cycles[i].hw);
      ReplayNext(st0, results, result);
      OutcomesSnoc(port, eraseFirst, cycles, i);
      RunLengthFrom(cycles, i);
      results := results + [result];
      outputFileBase, csvOutputFile, firmwareVersionFound :=
        RecordResult(disk, result, outputFileBase, csvOutputFile, firmwareVersionFound);
      if !cycles[i].disconnected {
        break;
      }
      deviceNumber := deviceNumber + 1;
      i := i + 1;
    }
    forall k | 0 <= k < |results| ensures results[k] == Outcome(port, k + 1, eraseFirst, cycles[k].hw) {
      OutcomesAt(port, eraseFirst, cycles[..|results|], k);
    }
  }

  /** Replaying two runs of results one after the other. */
  lemma {:induction false} ReplayAppend(st: RunState, a: seq<DeviceResult>, b: seq<DeviceResult>)
    ensures Replay(st, a + b) == Replay(Replay(st, a), b)
    decreases |b|
  {
    if b == [] {
      assert a + b == a;
    } else {
      var init := b[..|b| - 1];
      ReplayAppend(st, a, init);
      assert (a + b)[..|a + b| - 1] == a + init;
    }
  }

  /** Until a version is found the base and the file name stay as they were. */
  lemma {:induction false} NamingBeforeVersion(st: RunState, rs: seq<DeviceResult>)
    requires forall k :: 0 <= k < |rs| ==> !Qualifies(rs[k])
    ensures Replay(st, rs).base == st.base && Replay(st, rs).csvFile == st.csvFile
    ensures Replay(st, rs).versionFound == st.versionFound
  {
    if rs != [] {
      NamingBeforeVersion(st, rs[..|rs| - 1]);
    }
  }

  /** Once a version is found the base and the file name never change again. */
  lemma {:induction false} NamingAfterVersion(st: RunState, rs: seq<DeviceResult>)
    requires st.versionFound
    ensures Replay(st, rs).base == st.base && Replay(st, rs).csvFile == st.csvFile
    ensures Replay(st, rs).versionFound
  {
    if rs != [] {
      NamingAfterVersion(st, rs[..|rs| - 1]);
    }
  }

  /** The output is renamed once, at the first successful result carrying a
      version: the final base is the starting base with `_V_` and that
      version (dots turned into underscores) appended. */
  lemma NamingAtFirstVersion(st: RunState, rs: seq<DeviceResult>, k: nat)
    requires !st.versionFound
    requires k < |rs| && Qualifies(rs[k]) && forall j :: 0 <= j < k ==> !Qualifies(rs[j])
    ensures Replay(st, rs).base == VersionedBase(st.base, rs[k].firmwareVersion.value)
    ensures Replay(st, rs).csvFile == Replay(st, rs).base + ".csv"
    ensures Replay(st, rs).versionFound
  {
    assert rs == rs[..k] + [rs[k]] + rs[k + 1..];
    ReplayAppend(st, rs[..k] + [rs[k]], rs[k + 1..]);
    ReplayAppend(st, rs[..k], [rs[k]]);
    NamingBeforeVersion(st, rs[..k]);
    assert [rs[k]][..0] == [];
    NamingAfterVersion(Replay(st, rs[..k] + [rs[k]]), rs[k + 1..]);
  }

  /** While no version has been found the name is the starting one. */
  lemma {:induction false} UnversionedName(st: RunState, rs: seq<DeviceResult>)
    requires !Replay(st, rs).versionFound
    ensures Replay(st, rs).csvFile == st.csvFile && !st.versionFound
  {
    if rs != [] {
      var mid := Replay(st, rs[..|rs| - 1]);
      assert Replay(st, rs) == Record(mid, rs[|rs| - 1]);
      assert !mid.versionFound;
      UnversionedName(st, rs[..|rs| - 1]);
    }
  }

  /** The records of the successful results, in order. */
  function SuccessRows(rs: seq<DeviceResult>): seq<Row> {
    if rs == [] then []
    else SuccessRows(rs[..|rs| - 1]) + (if rs[|rs| - 1].success then [CsvRow(rs[|rs| - 1])] else [])
  }

  /** Starting from files that hold neither the starting nor the final CSV
      name, the run leaves every other file alone and the final CSV file holds
      the header once, then one record per successful result in order; it
      exists only if some result succeeded. */
  lemma {:induction false} CsvHoldsSuccessRows(st: RunState, rs: seq<DeviceResult>)
    requires !st.versionFound && st.csvFile !in st.files && Replay(st, rs).csvFile !in st.files
    ensures Replay(st, rs).files ==
      if SuccessRows(rs) == [] then st.files else st.files[Replay(st, rs).csvFile := [Header] + SuccessRows(rs)]
  {
    if rs != [] {
      var prefix, r := rs[..|rs| - 1], rs[|rs| - 1];
      var mid := Replay(st, prefix);
      if mid.versionFound {
        NamingAfterVersion(mid, [r]);
        assert [r][..0] == [];
      } else {
        UnversionedName(st, prefix);
      }
      CsvHoldsSuccessRows(st, prefix);
      var fin := Replay(st, rs);
      assert fin == Record(mid, r);
      assert SuccessRows(rs) == SuccessRows(prefix) + (if r.success then [CsvRow(r)] else []);
      var rows := SuccessRows(prefix);
      if !r.success {
        assert fin.files == mid.files && fin.csvFile == mid.csvFile;
        assert SuccessRows(rs) == rows;
        assert mid.files == if rows == [] then st.files else st.files[mid.csvFile := [Header] + rows];
      } else if !mid.versionFound && Qualifies(r) && mid.csvFile in mid.files {
        assert rows != [];
        assert mid.files - {mid.csvFile} == st.files;
        assert fin.files == st.files[fin.csvFile := [Header] + rows + [CsvRow(r)]];
        assert [Header] + rows + [CsvRow(r)] == [Header] + SuccessRows(rs);
      } else if rows == [] {
        assert fin.csvFile !in mid.files;
        assert fin.files == st.files[fin.csvFile := [Header] + [CsvRow(r)]];
        assert SuccessRows(rs) == [CsvRow(r)];
      } else {
        assert mid.csvFile in mid.files;
        assert fin.csvFile == mid.csvFile;
        assert fin.files == st.files[fin.csvFile := [Header] + rows + [CsvRow(r)]];
        assert [Header] + rows + [CsvRow(r)] == [Header] + SuccessRows(rs);
      }
    }
  }

  /** The counts `print_summary` shows. */
  datatype Tally = Tally(total: nat, successful: nat, failed: int)

  function CountSuccessful(rs: seq<DeviceResult>): nat {
    if rs == [] then 0 else CountSuccessful(rs[..|rs| - 1]) + (if rs[|rs| - 1].success then 1 else 0)
  }

  /** The failed results, in order (the list the summary prints). */
  function FailedDevices(rs: seq<DeviceResult>): seq<DeviceResult> {
    if rs == [] then []
    else FailedDevices(rs[..|rs| - 1]) + (if rs[|rs| - 1].success then [] else [rs[|rs| - 1]])
  }

  function Summarize(rs: seq<DeviceResult>): Tally {
    Tally(|rs|, CountSuccessful(rs), |rs| - CountSuccessful(rs))
  }

  /** The summary's failed count is the number of failed results listed, the
      two counts add up to the total, and there is one CSV record per success. */
  lemma {:induction false} TallyAddsUp(rs: seq<DeviceResult>)
    ensures Summarize(rs).successful + |FailedDevices(rs)| == Summarize(rs).total
    ensures Summarize(rs).failed == |FailedDevices(rs)|
    ensures |SuccessRows(rs)| == Summarize(rs).successful
    ensures forall k :: 0 <= k < |FailedDevices(rs)| ==> !FailedDevices(rs)[k].success
  {
    if rs != [] {
      TallyAddsUp(rs[..|rs| - 1]);
    }
  }
}
