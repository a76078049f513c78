/** The line loop of `read_serial_output` (flasher.py): the serial port is a
    finite sequence of already-decoded lines and the wall-clock deadline is the
    end of that sequence.  Each line is stripped; empty lines are dropped;
    every kept line is recorded, checked for boot indicators, and searched for
    the three fields, each only until it is found.  Reading stops right after
    the first line on which all three fields are known. */
module Extractor {
  import opened Common
  import opened Text
  import opened Patterns

  /** The dictionary `read_serial_output` returns (port and timestamp aside). */
  datatype ReadResult = ReadResult(
    deviceId: Option<string>,
    publicKey: Option<string>,
    firmwareVersion: Option<string>,
    outputLines: seq<string>,
    bootSuccess: bool)

  const BootIndicators: seq<string> :=
    ["app_main", "hello world", "setup()", "ready", "starting", "boot", "esp32", "chip revision"]

  const BootIssueMarker: string := "invalid header"

  /** The lower-cased line contains one of the boot indicators. */
  predicate HasBootIndicator(line: string) {
    exists k :: 0 <= k < |BootIndicators| && Contains(LowerAll(line), BootIndicators[k])
  }

  /** The per-line boot-issue check, made on the lower-cased line. */
  predicate LineReportsBootIssue(line: string) {
    Contains(LowerAll(line), BootIssueMarker)
  }

  /** The end-of-read boot-issue check: no boot indicator was seen and the
      joined output, taken as it is (case-sensitively), holds the marker. */
  predicate BootIssueReported(r: ReadResult) {
    !r.bootSuccess && Contains(JoinLines(r.outputLines), BootIssueMarker)
  }

  const Initial: ReadResult := ReadResult(None, None, None, [], false)

  /** All three fields are known: the loop's exit condition. */
  predicate Complete(r: ReadResult) {
    r.deviceId.Some? && r.publicKey.Some? && r.firmwareVersion.Some?
  }

  /** One kept line processed.  A field already known is never searched for
      again.  (The source tests `not device_id`; a found value is never
      empty, so that is the same as the field being absent.) */
  function Step(r: ReadResult, line: string): ReadResult {
    ReadResult(
      if r.deviceId.None? then FindSerial(line) else r.deviceId,
      if r.publicKey.None? then FindKey(line) else r.publicKey,
      if r.firmwareVersion.None? then FindVersion(line) else r.firmwareVersion,
      r.outputLines + [line],
      r.bootSuccess || HasBootIndicator(line))
  }

  /** The stripped, non-empty lines, in arrival order. */
  function Kept(lines: seq<string>): (ks: seq<string>)
    ensures |ks| <= |lines|
    ensures forall k :: 0 <= k < |ks| ==> ks[k] != ""
  {
    if lines == [] then []
    else
      var line := Strip(lines[0]);
      (if line == "" then [] else [line]) + Kept(lines[1..])
  }

  /** The state after processing the given kept lines, with no early exit. */
  function Fold(ks: seq<string>): ReadResult {
    if ks == [] then Initial else Step(Fold(ks[..|ks| - 1]), ks[|ks| - 1])
  }

  /** Reading from state `r` through the kept lines `ks`, stopping right
      after the line that completes the three fields. */
  function Run(r: ReadResult, ks: seq<string>): ReadResult
    decreases |ks|
  {
    if ks == [] then r
    else
      var next := Step(r, ks[0]);
      if Complete(next) then next else Run(next, ks[1..])
  }

  /** The number of kept lines read, counting from `n`: the shortest prefix
      after which all three fields are known, or all of them. */
  function StopFrom(ks: seq<string>, n: nat): (m: nat)
    requires n <= |ks|
    ensures n <= m <= |ks|
    ensures forall j :: n <= j < m ==> !Complete(Fold(ks[..j]))
    ensures m == |ks| || Complete(Fold(ks[..m]))
    decreases |ks| - n
  {
    if n == |ks| || Complete(Fold(ks[..n])) then n else StopFrom(ks, n + 1)
  }

  function StopAt(ks: seq<string>): nat {
    StopFrom(ks, 0)
  }

  /** The field value found on the earliest line that yields one. */
  function FirstFound(ks: seq<string>, find: string -> Option<string>): Option<string> {
    if ks == [] then None else if find(ks[0]).Some? then find(ks[0]) else FirstFound(ks[1..], find)
  }

  /** The patterns tried in order on one line, stopping at the first that
      matches (the inner `for pattern in ...: ... break` loops). */
  method TryPatterns(line: string, ps: seq<Pattern>) returns (found: Option<string>)
    ensures found == FirstMatch(line, ps)
  {
    found := None;
    for k := 0 to |ps|
      invariant FirstMatch(line, ps) == FirstMatch(line, ps[k..])
    {
      assert ps[k..][1..] == ps[k + 1..];
      var m := Search(line, ps[k]);
      if m.Some? {
        found := m;
        return;
      }
    }
  }

  /** The body of the reading loop for one kept line: record it, look for a
      boot indicator, and search for each field still missing. */
  method ScanLine(st: ReadResult, line: string) returns (next: ReadResult)
    ensures next == Step(st, line)
  {
    next := st.(outputLines := st.outputLines + [line]);
    if HasBootIndicator(line) {
      next := next.(bootSuccess := true);
    }
    if next.deviceId.None? {
      var found := TryPatterns(line, SerialPatterns);
      next := next.(deviceId := found);
    }
    if next.publicKey.None? {
      var found := TryPatterns(line, KeyPatterns);
      next := next.(publicKey := found);
    }
    if next.firmwareVersion.None? {
      next := next.(firmwareVersion := FindVersion(line));
    }
  }

  /** The reading loop of `read_serial_output`: the fields found so far, the
      lines kept and the boot flag are carried in one record. */
  method ReadSerialOutput(lines: seq<string>) returns (r: ReadResult)
    ensures r == Run(Initial, Kept(lines))
  {
    var st := Initial;
    var i := 0;
    while i < |lines|
      invariant 0 <= i <= |lines|
      invariant !Complete(st)
      invariant Run(st, Kept(lines[i..])) == Run(Initial, Kept(lines))
    {
      var line := Strip(lines[i]);
      KeptFrom(lines, i);
      if line != "" {
        RunCons(st, line, Kept(lines[i + 1..]));
        st := ScanLine(st, line);
        if Complete(st) {
          return st;
        }
      } else {
        assert Kept(lines[i..]) == Kept(lines[i + 1..]);
      }
      i := i + 1;
    }
    r := st;
  }

  /** Reading one more line, then the rest unless the fields are complete. */
  lemma RunCons(r: ReadResult, line: string, rest: seq<string>)
    ensures Run(r, [line] + rest) == if Complete(Step(r, line)) then Step(r, line) else Run(Step(r, line), rest)
  {
    assert ([line] + rest)[1..] == rest;
  }

  /** The kept lines from index `i` on: line `i` stripped, when not empty, then the rest. */
  lemma KeptFrom(lines: seq<string>, i: nat)
    requires i < |lines|
    ensures Kept(lines[i..]) == (if Strip(lines[i]) == "" then [] else [Strip(lines[i])]) + Kept(lines[i + 1..])
  {
    assert lines[i..][0] == lines[i];
    assert lines[i..][1..] == lines[i + 1..];
  }

  /** Reading from the state after `n` kept lines ends with the state after
      the stopping prefix. */
  lemma {:induction false} RunFromFold(ks: seq<string>, n: nat)
    requires n <= |ks| && !Complete(Fold(ks[..n]))
    ensures Run(Fold(ks[..n]), ks[n..]) == Fold(ks[..StopFrom(ks, n)])
    decreases |ks| - n
  {
    if n < |ks| {
      assert ks[..n + 1][..n] == ks[..n];
      assert ks[n..][1..] == ks[n + 1..];
      if !Complete(Fold(ks[..n + 1])) {
        RunFromFold(ks, n + 1);
      }
    }
  }

  /** What is read is the fold over the shortest prefix of the kept lines
      that completes the fields (all of them when none does). */
  lemma RunIsStoppedFold(ks: seq<string>)
    ensures Run(Initial, ks) == Fold(ks[..StopAt(ks)])
  {
    assert ks[..0] == [];
    assert ks[0..] == ks;
    RunFromFold(ks, 0);
  }

  /** Looking further never changes a value already found. */
  lemma {:induction false} FirstFoundAppend(a: seq<string>, b: seq<string>, find: string -> Option<string>)
    ensures FirstFound(a + b, find) == if FirstFound(a, find).Some? then FirstFound(a, find) else FirstFound(b, find)
  {
    if a != [] {
      assert (a + b)[0] == a[0];
      assert (a + b)[1..] == a[1..] + b;
      FirstFoundAppend(a[1..], b, find);
    } else {
      assert a + b == b;
    }
  }

  /** The value found is one the finder yields on some line, and no earlier
      line yields any. */
  lemma {:induction false} FirstFoundEarliest(ks: seq<string>, find: string -> Option<string>)
    ensures FirstFound(ks, find).None? <==> forall k :: 0 <= k < |ks| ==> find(ks[k]).None?
    ensures FirstFound(ks, find).Some? ==>
      exists k :: 0 <= k < |ks| && find(ks[k]) == FirstFound(ks, find)
        && forall j :: 0 <= j < k ==> find(ks[j]).None?
  {
    if ks != [] && find(ks[0]).None? {
      FirstFoundEarliest(ks[1..], find);
      assert forall k :: 1 <= k < |ks| ==> ks[1..][k - 1] == ks[k];
      if FirstFound(ks, find).Some? {
        var k :| 0 <= k < |ks| - 1 && find(ks[1..][k]) == FirstFound(ks, find)
          && forall j :: 0 <= j < k ==> find(ks[1..][j]).None?;
        assert find(ks[k + 1]) == FirstFound(ks, find);
      }
    }
  }

  /** Without the early exit, the lines processed are recorded in order and
      the boot flag says whether some line carries a boot indicator. */
  lemma FoldLinesAndBoot(ks: seq<string>)
    ensures Fold(ks).outputLines == ks
    ensures Fold(ks).bootSuccess <==> exists k :: 0 <= k < |ks| && HasBootIndicator(ks[k])
  {
    FoldLines(ks);
    FoldBoot(ks);
  }

  lemma {:induction false} FoldLines(ks: seq<string>)
    ensures Fold(ks).outputLines == ks
  {
    if ks != [] {
      FoldLines(ks[..|ks| - 1]);
    }
  }

  lemma {:induction false} FoldBoot(ks: seq<string>)
    ensures Fold(ks).bootSuccess <==> exists k :: 0 <= k < |ks| && HasBootIndicator(ks[k])
  {
    if ks != [] {
      var init := ks[..|ks| - 1];
      FoldBoot(init);
      if exists k :: 0 <= k < |ks| && HasBootIndicator(ks[k]) {
        var k :| 0 <= k < |ks| && HasBootIndicator(ks[k]);
        if k < |ks| - 1 {
          assert init[k] == ks[k];
        }
      }
    }
  }

  /** Without the early exit, each field holds what its patterns find on the
      earliest line where they find anything. */
  lemma {:induction false} FoldFields(ks: seq<string>)
    ensures Fold(ks).deviceId == FirstFound(ks, FindSerial)
    ensures Fold(ks).publicKey == FirstFound(ks, FindKey)
    ensures Fold(ks).firmwareVersion == FirstFound(ks, FindVersion)
  {
    if ks != [] {
      var init, last := ks[..|ks| - 1], ks[|ks| - 1];
      FoldFields(init);
      assert init + [last] == ks;
      FirstFoundAppend(init, [last], FindSerial);
      FirstFoundAppend(init, [last], FindKey);
      FirstFoundAppend(init, [last], FindVersion);
    }
  }

  /** What `read_serial_output` returns for the lines that arrive before the
      deadline: the kept lines up to and including the first one after which
      serial, key and version are all known (all kept lines when that never
      happens), with each field taken from the earliest of those lines that
      yields it and the boot flag set when one of them shows an indicator. */
  lemma ReadOutcome(lines: seq<string>)
    ensures var r, ks := Run(Initial, Kept(lines)), Kept(lines);
      |r.outputLines| <= |ks| && r.outputLines == ks[..|r.outputLines|]
      && (Complete(r) || r.outputLines == ks)
      && (forall n :: 0 <= n < |r.outputLines| ==> !Complete(Fold(ks[..n])))
      && r.deviceId == FirstFound(r.outputLines, FindSerial)
      && r.publicKey == FirstFound(r.outputLines, FindKey)
      && r.firmwareVersion == FirstFound(r.outputLines, FindVersion)
      && (r.bootSuccess <==> exists k :: 0 <= k < |r.outputLines| && HasBootIndicator(r.outputLines[k]))
  {
    var ks := Kept(lines);
    RunIsStoppedFold(ks);
    FoldLinesAndBoot(ks[..StopAt(ks)]);
    FoldFields(ks[..StopAt(ks)]);
  }

  /** A field found on an earlier line is kept whatever later lines hold. */
  lemma FoundFieldLatched(ks: seq<string>, n: nat, find: string -> Option<string>)
    requires n <= |ks| && FirstFound(ks[..n], find).Some?
    ensures FirstFound(ks, find) == FirstFound(ks[..n], find)
  {
    assert ks[..n] + ks[n..] == ks;
    FirstFoundAppend(ks[..n], ks[n..], find);
  }

  /** The end-of-read boot-issue warning comes exactly when no boot indicator
      was seen and some recorded line holds the marker as written; every such
      line was also flagged on its own while it was read. */
  lemma BootIssueInSomeLine(r: ReadResult)
    ensures BootIssueReported(r) <==>
      !r.bootSuccess && exists k :: 0 <= k < |r.outputLines| && Contains(r.outputLines[k], BootIssueMarker)
    ensures BootIssueReported(r) ==>
      exists k :: 0 <= k < |r.outputLines| && LineReportsBootIssue(r.outputLines[k])
  {
    ContainsInJoin(r.outputLines, BootIssueMarker);
    if BootIssueReported(r) {
      var k :| 0 <= k < |r.outputLines| && Contains(r.outputLines[k], BootIssueMarker);
      ContainsLowered(r.outputLines[k], BootIssueMarker);
    }
  }

  /** What is printed once reading ends, before the boot-issue check: the
      last lines captured when the serial or the key is missing, or a warning
      that nothing was captured. */
  datatype ReadNotice = SampleOutput(shown: seq<string>, total: nat) | NoOutputWarning | NoNotice

  /** `lines[-5:]` */
  function LastFive(lines: seq<string>): (tail: seq<string>)
    ensures |tail| == if |lines| < 5 then |lines| else 5
    ensures lines[|lines| - |tail|..] == tail
  {
    if |lines| < 5 then lines else lines[|lines| - 5..]
  }

  /** The notice as flasher.py chooses it: the no-output warning sits in an
      `elif` behind the test for a missing serial or key. */
  function NoticeAsWritten(r: ReadResult): ReadNotice {
    if !Truthy(r.deviceId) || !Truthy(r.publicKey) then SampleOutput(LastFive(r.outputLines), |r.outputLines|)
    else if |r.outputLines| == 0 then NoOutputWarning
    else NoNotice
  }

  /** The notice with the empty-capture test made first. */
  function Notice(r: ReadResult): ReadNotice {
    if |r.outputLines| == 0 then NoOutputWarning
    else if !Truthy(r.deviceId) || !Truthy(r.publicKey) then SampleOutput(LastFive(r.outputLines), |r.outputLines|)
    else NoNotice
  }

  /** As written, the no-output warning is never printed after a read: a
      serial and a key can only come from captured lines. */
  lemma NoOutputWarningUnreachable(lines: seq<string>)
    ensures NoticeAsWritten(Run(Initial, Kept(lines))) != NoOutputWarning
  {
    var r := Run(Initial, Kept(lines));
    ReadOutcome(lines);
    if r.outputLines == [] {
      assert r.deviceId == FirstFound([], FindSerial);
    }
  }

  /** When no non-blank line arrives, flasher.py prints an empty sample
      instead of the warning; the corrected order warns. */
  lemma NoOutputShowsEmptySample(lines: seq<string>)
    requires Kept(lines) == []
    ensures NoticeAsWritten(Run(Initial, Kept(lines))) == SampleOutput([], 0)
    ensures Notice(Run(Initial, Kept(lines))) == NoOutputWarning
  {
  }

  /** After a read, the corrected notice warns exactly when no non-blank
      line arrived, and shows a sample exactly when lines arrived but the
      serial or the key is missing.  Such a read ran through every line, so
      the sample is the last one to five of all the lines that arrived, and
      the count is all of them. */
  lemma NoticeAfterRead(lines: seq<string>)
    ensures var r, ks := Run(Initial, Kept(lines)), Kept(lines);
      (Notice(r) == NoOutputWarning <==> ks == [])
      && (Notice(r).SampleOutput? <==> ks != [] && (!Truthy(r.deviceId) || !Truthy(r.publicKey)))
    ensures var r, ks := Run(Initial, Kept(lines)), Kept(lines);
      Notice(r).SampleOutput? ==>
        Notice(r).total == |ks| && 1 <= |Notice(r).shown| <= 5
        && Notice(r).shown == ks[|ks| - |Notice(r).shown|..]
  {
    var r, ks := Run(Initial, Kept(lines)), Kept(lines);
    ReadOutcome(lines);
    if r.outputLines == [] {
      assert r.deviceId == FirstFound([], FindSerial);
    }
    if Complete(r) && (!Truthy(r.deviceId) || !Truthy(r.publicKey)) {
      FirstFoundEarliest(r.outputLines, FindSerial);
      FirstFoundEarliest(r.outputLines, FindKey);
      var i :| 0 <= i < |r.outputLines| && FindSerial(r.outputLines[i]) == r.deviceId;
      var j :| 0 <= j < |r.outputLines| && FindKey(r.outputLines[j]) == r.publicKey;
      SerialShape(r.outputLines[i]);
      KeyShape(r.outputLines[j]);
    }
  }
}
