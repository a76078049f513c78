# zap-flasher, modelled in Dafny

zap-flasher flashes ESP32 boards one after another on a single serial port.
For each board it may erase the flash, then writes the firmware, waits for
the port to come back and reads the boot log. From the log it takes three
fields: the board's serial number (`zap-` plus hex digits), its public key
(a long run of hex digits) and the firmware version. A board that yields a
serial and a key counts as a success. Each success is appended as one row
to a CSV file. The first success that reports a firmware version renames
that file once, to a name that carries the version. A companion script,
`extract_serials.py`, gathers the `ecc_serial` column of many such CSV
files into a sorted list of distinct serials. It also reports the serials
that appear in more than one file.

The model follows the program's structure, one module per concern:

- `common.dfy` (`Common`): `Option` and `Result`, and Python truthiness of an optional string.
- `text.dfy` (`Text`): `strip()`, `lower()`, substring tests, `"\n".join` and the regex character classes.
- `patterns.dfy` (`Patterns`): the serial, key and version regular expressions, written as matchers with `re.search` semantics.
- `extractor.dfy` (`Extractor`): the line-reading loop of `read_serial_output`.
- `device.dfy` (`Device`): `process_device`.
- `run.dfy` (`Run`): the loop of `run_sequential_flashing`, `append_to_csv` over a `Disk` class holding the file system, and the counts of `print_summary`.
- `cli.dfy` (`Cli`): the `addr:file` arguments and the default output base of `main`.
- `serials.dfy` (`Serials`): `extract_serials.py`.

The hardware is an input throughout. It supplies:

- whether the erase and the flash succeed;
- the answer of each port-readiness probe;
- the decoded lines the serial port delivers before the deadline;
- for each device, whether it is unplugged before the disconnection wait times out.

The end of the device sequence stands for the operator's Ctrl+C between devices.

## Model

| member | source | states |
|---|---|---|
| Text.LowerAll | flasher.py:386 | `line.lower()` keeps the length and lower-cases each character (ASCII letters only). |
| Text.StripTrims | flasher.py:378-379 | `strip()` is empty exactly when the line is all whitespace. Otherwise it is a middle slice that neither starts nor ends with whitespace, with only whitespace cut on either side. |
| Text.ContainsInJoin | flasher.py:468 | A needle without a line break occurs in `"\n".join(lines)` exactly when it occurs in one of the lines. |
| Text.ContainsLowered | flasher.py:391 | An occurrence of an all-lower-case needle survives lower-casing the text. |
| Patterns.ZapTokenAt | flasher.py:397-402 | `zap-[A-Fa-f0-9]+` matches at an index exactly when a case-insensitive `zap-` with a hex digit after it stands there. The capture stands in the line and takes the maximal hex run. |
| Patterns.TokenAt | flasher.py:397-433 | Every token shape (`zap-` serial, `{32,}`, `{64}` and `{32}` hex, version word) captures text of that shape, standing in the line at that index, greedy where the regex is greedy. Each shape matches exactly when its minimum stands there: `zap-` and a hex digit, m hex digits for `{m,}`, w for `{w}`, one version character for the version word. |
| Patterns.Leftmost | flasher.py:404 | The index found is one where the pattern matches, and it matches at no earlier index. With no result it matches nowhere. |
| Patterns.SearchLeftmost | flasher.py:404 | `re.search` finds something exactly when the pattern matches at some index, and then yields the capture of the leftmost match. |
| Patterns.FirstMatchFirst | flasher.py:403-409 | The pattern loop yields nothing exactly when no pattern matches, and otherwise the capture of the first pattern in the list that matches. |
| Patterns.FirstMatchAppend | flasher.py:403-409 | Trying list `a` then list `b` gives `a`'s result, or `b`'s when nothing in `a` matched. |
| Patterns.CaptureFromList | flasher.py:403-426 | Whatever a pattern list yields is a capture of one of its token shapes at some index of the line. |
| Patterns.SerialShape | flasher.py:397-409 | An extracted serial is `zap-` (any case) plus hex digits only. It stands in the line and takes the whole hex run after `zap-`. |
| Patterns.SerialFoundIff | flasher.py:397-409 | A serial is found exactly when some `zap-` on the line is followed by a hex digit. |
| Patterns.SerialLabelsFirst | flasher.py:397-409 | The labelled forms `serial number:`, `device id:` and `serial:` are tried before the bare `zap-` search. |
| Patterns.KeyShape | flasher.py:413-426 | An extracted key has at least 32 characters, all hex digits, and occurs in the line. |
| Patterns.HexWindowSearch | flasher.py:417-418 | A bare `([A-Fa-f0-9]{w})` search succeeds exactly when the line holds `w` hex digits in a row, and captures exactly `w` characters. |
| Patterns.KeyBareFallback | flasher.py:417-418 | The bare key forms find something exactly when a 32-hex window exists. The capture is 64 long exactly when a 64-hex window exists, and otherwise 32 long. |
| Patterns.KeyFoundIff | flasher.py:413-426 | A key is found exactly when the line holds 32 hex digits in a row. Without a labelled match the key is 64 long, or 32 long only when no 64-hex window exists. |
| Patterns.TagSuffixMatches | flasher.py:414-416 | Wherever a tag matches, a tag it ends with matches inside it and captures the same text. |
| Patterns.TagSuffixSearch | flasher.py:414-416 | A search with the longer tag succeeds only if the search with its suffix tag succeeds. |
| Patterns.KeyTagCoversOthers | flasher.py:414-416 | The three labelled key forms find something exactly when `key:` alone does. |
| Patterns.VersionNotAfterCoex | flasher.py:432-435 | A version is found exactly when some `firmware version:` not immediately preceded by `coex ` is followed by a version character. The capture comes from such an occurrence and holds only letters, digits, `.`, `_` and `-`. |
| Extractor.Kept | flasher.py:378-380 | The kept lines are no more than the lines read and are all non-empty. |
| Extractor.StopFrom | flasher.py:443-445 | Reading stops at the shortest prefix whose fold has all three fields, or at the end. |
| Extractor.TryPatterns | flasher.py:403-409 | The `for pattern ... break` loop returns the first pattern's capture. |
| Extractor.ScanLine | flasher.py:380-435 | One kept line is recorded, checked for boot indicators, and searched for each field still missing. |
| Extractor.ReadSerialOutput | flasher.py:376-445 | The reading loop returns the state of reading the stripped non-empty lines and stopping right after the line that completes the fields. |
| Extractor.RunIsStoppedFold | flasher.py:443-445 | What is read equals processing, without early exit, the shortest prefix of kept lines after which all three fields are known. |
| Extractor.FirstFoundAppend | flasher.py:396-435 | Looking at more lines never changes a value already found. |
| Extractor.FirstFoundEarliest | flasher.py:396-435 | A field comes from some line that yields it, and no earlier line yields one. Nothing is found only when no line yields anything. |
| Extractor.FoldLinesAndBoot | flasher.py:380-388 | The recorded lines are the processed lines in order. The boot flag is set exactly when some line, lower-cased, holds an indicator. |
| Extractor.FoldFields | flasher.py:396-435 | Each field holds what its patterns find on the earliest line where they find anything. |
| Extractor.ReadOutcome | flasher.py:376-445 | `output_lines` is a prefix of the kept lines, and is all of them unless the three fields are complete. No shorter prefix completes them. Each field comes from its earliest yielding line, and the boot flag is set exactly when some recorded line shows an indicator. |
| Extractor.FoundFieldLatched | flasher.py:396-435 | Each field, once found, is never overwritten by later lines. |
| Extractor.BootIssueInSomeLine | flasher.py:468-469 | The final boot-issue warning appears exactly when no indicator was seen and some recorded line holds `invalid header`. Each such line was also flagged on its own. |
| Extractor.LastFive | flasher.py:460 | `lines[-5:]` is the last `min(5, len)` lines. |
| Extractor.NoOutputWarningUnreachable | flasher.py:458-465 | As written, the "No output captured" warning is never chosen after a read. |
| Extractor.NoOutputShowsEmptySample | flasher.py:458-465 | For every read in which no non-blank line arrives, the code as written shows an empty sample, and the corrected order warns. |
| Extractor.NoticeAfterRead | flasher.py:458-465 | After a read, the corrected notice warns exactly when no non-blank line arrived. It shows a sample exactly when lines arrived but the serial or key is missing. That sample is the last one to five of all the lines that arrived, and the count is all of them. |
| Device.FirstReady | flasher.py:544-554 | The probe found is ready and no earlier probe in range is. With no result, none of the six probes is ready. |
| Device.ProcessDevice | flasher.py:504-598 | The in-place result record equals the specified outcome for the hardware, and the probe count is what the retry loop makes. |
| Device.PortRecovery | flasher.py:544-554 | The port counts as back exactly when one of the six probes finds it ready. Between one and six probes are made. |
| Device.SuccessIff | flasher.py:558-582 | `success` holds exactly when there is no error, and exactly when serial and key are both non-empty. Otherwise there is exactly one error, naming the failed step. The flash error comes exactly when the flash fails. The port error comes exactly when the flash succeeded and all six probes found the port not ready. The read error comes exactly when the port came back and no read happened. The missing-data error comes exactly when a read happened and lacks the serial or the key. After a port or read error there is no serial, no key and no line. |
| Device.FlashFailureStops | flasher.py:535-537 | A failed flash gives only the flash error, with nothing read. |
| Device.EraseOnlyWarns | flasher.py:525-533 | A failed erase changes nothing but the warning list. |
| Device.SuccessfulShapes | flasher.py:556-566 | A successful device has a `zap-` hex serial and a hex key of at least 32 digits. |
| Run.CsvRow | flasher.py:702-711 | A row has the five header columns: the serial, three empty columns, then the full key. |
| Run.Disk.AppendToCsv | flasher.py:686-716 | A failed result changes no file. Otherwise the header is written only when the file is new, then the result's row. |
| Run.Disk.Rename | flasher.py:653-655 | The file moves to the new name, replacing any file there. |
| Run.DotsToUnderscores | flasher.py:643 | `replace('.', '_')` keeps the length and turns exactly the dots into underscores. |
| Run.InitialBaseShape | flasher.py:613-622 | The start base ends in `_` and the start time. Before that comes the given base, or `flash_results` when none is given. |
| Run.DistinctStartsDistinctBases | flasher.py:618-620 | Runs started at different times get different output bases, so a later run does not overwrite an earlier one. |
| Run.RunLength | flasher.py:628-674 | The number of devices processed is at most the number of cycles. It is zero only without cycles, and the run stops at the first disconnection timeout. |
| Run.OutcomesAt | flasher.py:637-674 | The k-th recorded result is the outcome of the k-th cycle, processed as device number k + 1. |
| Run.RunLengthFrom | flasher.py:669-674 | Counting from any cycle, one more device is processed, and the later cycles only when this device was unplugged before the timeout. |
| Run.RecordResult | flasher.py:642-665 | The loop body after `process_device` moves the bookkeeping and the files by one `Record` step. |
| Run.RunSequentialFlashing | flasher.py:600-684 | Devices are numbered 1, 2, 3, and so on. The i-th result is the outcome of the i-th cycle, and the run stops at the first disconnection timeout. The final name and the files are the replay of all results. |
| Run.NamingBeforeVersion | flasher.py:642-662 | Until a qualifying result the base and the CSV name do not change. |
| Run.NamingAfterVersion | flasher.py:642-662 | Once a version is found the names never change again. |
| Run.NamingAtFirstVersion | flasher.py:642-662 | The final base is the start base plus `_V_` and the first qualifying version with dots turned into underscores. The CSV name is that base plus `.csv`. |
| Run.UnversionedName | flasher.py:622-625 | Without a version found, the CSV name is still the starting one. |
| Run.CsvHoldsSuccessRows | flasher.py:664-665 | From fresh names, other files are untouched. The final CSV file holds the header once, then one row per successful result in order, and exists only if some result succeeded. |
| Run.TallyAddsUp | flasher.py:728-750 | The successful and failed counts add up to the total. The failed count is the number of failed devices listed, and there is one CSV row per success. |
| Cli.AssignMeaning | flasher.py:904 | `d[k] = v` keeps keys distinct and binds `k` to `v`. It leaves other keys alone and never moves an existing key. |
| Cli.SplitSpec | flasher.py:900-903 | It is an error exactly when there is no colon. Otherwise address, `:` and path rebuild the argument, and the address has no colon. |
| Cli.SplitJoin | flasher.py:903 | Splitting `addr:path` with a colon-free address gives both back. |
| Cli.ParseFlashFiles | flasher.py:898-904 | The argument loop yields the specified dictionary or the first format error. |
| Cli.ParseAcceptsIff | flasher.py:899-902 | The arguments are accepted exactly when every one has a colon. |
| Cli.ParseFailsAt | flasher.py:899-902 | The error reported is for the first argument without a colon. |
| Cli.ParseShape | flasher.py:898-904 | A successful parse is a well-formed dictionary in which earlier keys keep their places. |
| Cli.ParseKeys | flasher.py:898-904 | The keys are exactly the earlier keys and the arguments' addresses. |
| Cli.ParseKeeps | flasher.py:904 | A key that no argument names keeps its value. |
| Cli.ParseLastWins | flasher.py:904 | The last argument for an address gives that address its path. |
| Cli.CleanLabel | flasher.py:947 | Cleaning keeps the label's length. |
| Cli.CleanLabelMeaning | flasher.py:947 | Word characters and `-` are kept and every other character becomes `_`. The result holds only those characters, and a clean label is unchanged. |
| Cli.CleanLabelIdempotent | flasher.py:947 | Cleaning twice is cleaning once. |
| Cli.OutputBaseChoice | flasher.py:935-948 | A given output base is kept. Otherwise a non-empty project label, or else a non-empty directory name, that is not `.` gives `CleanLabel` of that name followed by `_flash_results`. That base has the name's length before the suffix and only label characters, and an already clean name is kept as it is. With no usable name the argument stands. |
| Serials.CollectSerials | extract_serials.py:9-16 | The nested loops build the specified serial-to-files map. |
| Serials.AddRowsMeaning | extract_serials.py:14-16 | After a file's rows, a serial is present when it was before or some row carries it. The file's name is added exactly when a row carries it. |
| Serials.GatherMeaning | extract_serials.py:9-16 | A serial is collected exactly when some row of some file carries it as a non-empty `ecc_serial`. Its set is exactly the files that carry it. |
| Serials.BelowIrreflexive | extract_serials.py:19 | No string is below itself. |
| Serials.BelowTransitive | extract_serials.py:19 | String order is transitive. |
| Serials.BelowTotal | extract_serials.py:19 | Of two different strings one is below the other. |
| Serials.BelowAsymmetric | extract_serials.py:19 | Of two strings at most one is below the other. |
| Serials.AscendingDistinct | extract_serials.py:19 | A strictly ascending list holds no duplicates. |
| Serials.Insert | extract_serials.py:19 | Inserting a new element keeps the list strictly ascending, with exactly one element more. |
| Serials.Sorted | extract_serials.py:19 | `sorted(keys)` is strictly ascending and holds exactly the set's elements, each once. |
| Serials.MultiFile | extract_serials.py:25 | `multi_file` holds exactly the serials found in more than one file, with their file sets. |
| Serials.ListFiles | extract_serials.py:28-31 | Each listed serial comes with exactly its files, sorted. |
| Serials.Summarize | extract_serials.py:18-31 | The `sn.txt` lines are the serials, sorted, each once. The count equals the number of lines. The multi-file listing holds exactly the serials in more than one file, sorted, each with its files sorted. |
| Serials.ExtractSerials | extract_serials.py:8-33 | The same, stated on the input files: `sn.txt` lists exactly the non-empty `ecc_serial` values, sorted and distinct, and the count is their number. Each serial in more than one file is listed with exactly the files that carry it. The listing is in ascending serial order, each file list sorted. |

## Left out

- Serial I/O: opening and resetting the port, the DTR/RTS pulse, `in_waiting` and `readline`. Lines arrive as a finite sequence.
- The wall-clock deadline of the reading loop is the end of that sequence.
- UTF-8 decoding with `errors='ignore'` is not modelled. Lines arrive already decoded.
- Case folding (`lower()`, `re.IGNORECASE`) covers the ASCII letters only. `\w` is ASCII letters, digits and `_`. Python's Unicode extras are not modelled.
- esptool runs (`erase_flash`, `flash_firmware`) are foreign processes. Only their boolean outcome is an input.
- `check_port_ready` is an input: the answer of each probe. `wait_for_device_connection`, `wait_for_device_disconnection`, `find_esp32_port`, port listing and `time.sleep` are not modelled.
- An exception inside `read_serial_output` (a `None` return) is an absent line sequence.
- Device.ProcessDevice: the catch-all `Unexpected error` branch is not modelled, because the exceptions come from foreign calls.
- Device.ProcessDevice: `output_lines` is absent from the source's result when no read happened. It is modelled as the empty list.
- Device.ProcessDevice: `firmware_version` is likewise absent when no read happened. It is modelled as `None`.
- Run.RunSequentialFlashing: a Ctrl+C in the middle of a device cycle is not modelled. The run ends only between devices.
- Run.RunSequentialFlashing: a failing rename (only printed as a warning) is not modelled, nor an `IOError` while appending to the CSV file.
- The run's start time is a parameter of Run.InitialBaseShape. The `timestamp` fields of the read result and the device result are dropped: ReadResult and DeviceResult have no timestamp. `datetime.now()` is not modelled.
- `save_json_results`, all printing and colours, and the float success rate in `print_summary` are not modelled.
- `detect_flash_files`, `auto_detect_default` and the `Path(path).exists()` checks on flash files are not part of this model.
- argparse, `debug_flash_setup`, `test_device_connection` and `list_available_ports` are not part of this model.
- `Path(bin_dir).name` is not modelled. The project label and the directory name are inputs to Cli.OutputBaseChoice.
- extract_serials.py: `glob`, reading the CSV files and writing `sn.txt` are not modelled. The files arrive as rows, and `sn.txt` is its list of lines.

## Findings

| source | as written | input that shows it | evidently intended | confidence | as-written member | corrected member |
|---|---|---|---|---|---|---|
| flasher.py:458-465 | The "No output captured" warning is an `elif` behind `if not device_id or not public_key`. A read with no lines never yields a serial, so the first branch always wins. | A board whose port delivers no non-blank line: the code prints an empty "Sample output lines" block instead of the warning. | Warn when nothing was captured. Show the sample when lines were captured but the serial or key is missing. | not executed | Extractor.NoOutputWarningUnreachable | Extractor.NoticeAfterRead |
