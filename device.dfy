/** One device cycle of `process_device` (flasher.py): optional erase, flash,
    wait for the port to come back, read the boot log, and classify.  The
    hardware is an input: the outcome of the erase and of the flash, the
    answer of each port-readiness probe, and the lines the serial port
    delivers (absent when the port cannot be opened). */
module Device {
  import opened Common
  import opened Text
  import opened Patterns
  import opened Extractor

  const EraseWarning: string := "Flash erase failed, but continuing with flashing (this is normal for fresh devices)"
  const FlashError: string := "Firmware flash failed"
  const PortError: string := "Port not available after flashing"
  const ReadError: string := "Failed to read serial output"
  const MissingDataError: string := "Could not extract serial number or public key from device output"

  /** Probes after the first one, one second apart. */
  const PortRetries: nat := 5

  /** What the hardware does during one cycle.  `portReady(k)` answers the
      k-th readiness probe after flashing (0 is the first check). */
  datatype Hardware = Hardware(
    eraseOk: bool,
    flashOk: bool,
    portReady: nat -> bool,
    serialLines: Option<seq<string>>)

  /** The result dictionary of `process_device` (timestamp aside). */
  datatype DeviceResult = DeviceResult(
    deviceNumber: int,
    port: string,
    success: bool,
    serialNumber: Option<string>,
    publicKey: Option<string>,
    firmwareVersion: Option<string>,
    outputLines: seq<string>,
    errors: seq<string>,
    warnings: seq<string>)

  /** The first probe from `k` up to the last retry that finds the port ready. */
  function FirstReady(ready: nat -> bool, k: nat): (r: Option<nat>)
    requires k <= PortRetries
    ensures r.Some? ==> k <= r.value <= PortRetries && ready(r.value)
    ensures r.Some? ==> forall j :: k <= j < r.value ==> !ready(j)
    ensures r.None? ==> forall j :: k <= j <= PortRetries ==> !ready(j)
    decreases PortRetries - k
  {
    if ready(k) then Some(k) else if k == PortRetries then None else FirstReady(ready, k + 1)
  }

  /** How many probes are made once the flash has succeeded. */
  function ProbesMade(ready: nat -> bool): nat {
    match FirstReady(ready, 0)
    case Some(k) => k + 1
    case None => PortRetries + 1
  }

  /** The result `process_device` returns, as a function of the hardware. */
  function Outcome(port: string, deviceNumber: int, eraseFirst: bool, hw: Hardware): DeviceResult {
    var warnings := if eraseFirst && !hw.eraseOk then [EraseWarning] else [];
    var base := DeviceResult(deviceNumber, port, false, None, None, None, [], [], warnings);
    if !hw.flashOk then base.(errors := [FlashError])
    else if FirstReady(hw.portReady, 0).None? then base.(errors := [PortError])
    else
      match hw.serialLines
      case None => base.(errors := [ReadError])
      case Some(lines) =>
        var r := Run(Initial, Kept(lines));
        var ok := Truthy(r.deviceId) && Truthy(r.publicKey);
        base.(success := ok, serialNumber := r.deviceId, publicKey := r.publicKey,
              firmwareVersion := r.firmwareVersion, outputLines := r.outputLines,
              errors := if ok then [] else [MissingDataError])
  }

  /** `process_device`: the result record is filled in step by step, its
      error and warning lists appended to in place.  Also returns the number
      of readiness probes made. */
  method ProcessDevice(port: string, deviceNumber: int, eraseFirst: bool, hw: Hardware)
    returns (result: DeviceResult, probes: nat)
    ensures result == Outcome(port, deviceNumber, eraseFirst, hw)
    ensures probes == if hw.flashOk then ProbesMade(hw.portReady) else 0
  {
    result := DeviceResult(deviceNumber, port, false, None, None, None, [], [], []);
    probes := 0;
    if eraseFirst {
      if !hw.eraseOk {
        result := result.(warnings := result.warnings + [EraseWarning]);
      }
    }
    if !hw.flashOk {
      result := result.(errors := result.errors + [FlashError]);
      return;
    }
    probes := 1;
    if !hw.portReady(0) {
      var back := false;
      for i := 0 to PortRetries
        invariant probes == 1 + i
        invariant forall j :: 0 <= j <= i ==> !hw.portReady(j)
      {
        probes := probes + 1;
        if hw.portReady(i + 1) {
          back := true;
          break;
        }
      }
      if !back {
        result := result.(errors := result.errors + [PortError]);
        return;
      }
    }
    var serialData: Option<ReadResult> := None;
    if hw.serialLines.Some? {
      var r := ReadSerialOutput(hw.serialLines.value);
      serialData := Some(r);
    }
    if serialData.Some? {
      var r := serialData.value;
      result := result.(serialNumber := r.deviceId, publicKey := r.publicKey,
                        firmwareVersion := r.firmwareVersion, outputLines := r.outputLines);
      if Truthy(result.serialNumber) && Truthy(result.publicKey) {
        result := result.(success := true);
      } else {
        result := result.(errors := result.errors + [MissingDataError]);
      }
    } else {
      result := result.(errors := result.errors + [ReadError]);
    }
  }

  /** The port counts as back exactly when one of the six probes finds it
      ready; no more than six probes are ever made. */
  lemma PortRecovery(ready: nat -> bool)
    ensures FirstReady(ready, 0).Some? <==> exists k :: 0 <= k <= PortRetries && ready(k)
    ensures 1 <= ProbesMade(ready) <= PortRetries + 1
    ensures ProbesMade(ready) <= PortRetries ==> ready(ProbesMade(ready) - 1)
  {
  }

  /** A device succeeds exactly when it ends with no error, and then both the
      serial and the key are non-empty; otherwise exactly one error names the
      step that failed: the flash, the port not back after the last retry,
      no read, or a read lacking the serial or the key.  The firmware version
      plays no part. */
  lemma SuccessIff(port: string, n: int, eraseFirst: bool, hw: Hardware)
    ensures var res := Outcome(port, n, eraseFirst, hw);
      (res.success <==> res.errors == [])
      && (res.success <==> Truthy(res.serialNumber) && Truthy(res.publicKey))
      && (!res.success ==>
            |res.errors| == 1 && res.errors[0] in {FlashError, PortError, ReadError, MissingDataError})
  ensures var res := Outcome(port, n, eraseFirst, hw);
      res.errors == [FlashError] <==> !hw.flashOk
  ensures var res := Outcome(port, n, eraseFirst, hw);
      res.errors == [PortError] <==> hw.flashOk && forall k :: 0 <= k <= PortRetries ==> !hw.portReady(k)
  ensures var res := Outcome(port, n, eraseFirst, hw);
      res.errors == [PortError] ==> res.serialNumber.None? && res.publicKey.None? && res.outputLines == []
  ensures var res := Outcome(port, n, eraseFirst, hw);
      res.errors == [ReadError] <==> hw.flashOk && FirstReady(hw.portReady, 0).Some? && hw.serialLines.None?
  ensures var res := Outcome(port, n, eraseFirst, hw);
      res.errors == [ReadError] ==> res.serialNumber.None? && res.publicKey.None? && res.outputLines == []
  ensures var res := Outcome(port, n, eraseFirst, hw);
      res.errors == [MissingDataError] <==>
        hw.flashOk && FirstReady(hw.portReady, 0).Some? && hw.serialLines.Some?
        && var r := Run(Initial, Kept(hw.serialLines.value));
           !Truthy(r.deviceId) || !Truthy(r.publicKey)
  {
    PortRecovery(hw.portReady);
  }

  /** A failed flash ends the cycle at once: no probe, no read, and the
      flash error alone. */
  lemma FlashFailureStops(port: string, n: int, eraseFirst: bool, hw: Hardware)
    requires !hw.flashOk
    ensures var res := Outcome(port, n, eraseFirst, hw);
      res.errors == [FlashError] && !res.success
      && res.serialNumber.None? && res.publicKey.None? && res.outputLines == []
  {
  }

  /** A failed erase changes nothing but the warning list. */
  lemma EraseOnlyWarns(port: string, n: int, hw: Hardware)
    ensures Outcome(port, n, true, hw.(eraseOk := false))
      == Outcome(port, n, true, hw.(eraseOk := true)).(warnings := [EraseWarning])
    ensures Outcome(port, n, false, hw.(eraseOk := false)) == Outcome(port, n, false, hw.(eraseOk := true))
  {
  }

  /** A successful device carries a serial of the form `zap-` plus hex digits
      and a key of at least 32 hex digits, both taken from the boot log. */
  lemma SuccessfulShapes(port: string, n: int, eraseFirst: bool, hw: Hardware)
    requires Outcome(port, n, eraseFirst, hw).success
    ensures var res := Outcome(port, n, eraseFirst, hw);
      Fits(ZapSerial, res.serialNumber.value)
      && |res.publicKey.value| >= 32
      && (forall k :: 0 <= k < |res.publicKey.value| ==> IsHex(res.publicKey.value[k]))
  {
    var lines := hw.serialLines.value;
    var r := Run(Initial, Kept(lines));
    ReadOutcome(lines);
    FirstFoundEarliest(r.outputLines, FindSerial);
    FirstFoundEarliest(r.outputLines, FindKey);
    var i :| 0 <= i < |r.outputLines| && FindSerial(r.outputLines[i]) == r.deviceId;
    var j :| 0 <= j < |r.outputLines| && FindKey(r.outputLines[j]) == r.publicKey;
    SerialShape(r.outputLines[i]);
    KeyShape(r.outputLines[j]);
  }
}
