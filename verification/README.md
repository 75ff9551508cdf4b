# CIS benchmark checks, modelled in Dafny

A functional model of the checking core of a Python CIS-benchmark scanner. The
scanner runs shell commands on a Linux host and turns their output into a
Compliant / Not Compliant verdict for each benchmark section. It then upserts
one row per (hostname, date, section) into a per-category results table.

The model covers four check modules:

- 1.1 filesystem configuration (`utils/unused_filesystems.py`);
- 1.2 package manager configuration (`utils/software_updates.py`);
- 1.3 filesystem integrity checking (`utils/filesystems_integrity.py`);
- 1.4 boot settings (`utils/bootloader_settings.py`).

The project has the following modules:

- `Text` (text.dfy) gives Python's string semantics:
  - `str.strip()`, using Python's whitespace set;
  - substring `in`;
  - `str.splitlines()`, with every Python line boundary and `\r\n` read as one break.
- `Evidence` (evidence.dfy) holds the captured output of a command and the evidence a check files for it. A Python dict assignment is modelled on an ordered sequence.
- `Rules` (rules.dfy) is a small rule language. One `Rule` value describes each check's compliance expression, and `Eval` decides it against the captured outputs. Each rule shape comes with an if-and-only-if lemma that restates it in the Python expression's own terms.
- `Rows` (rows.dfy) models `write_output_to_database`: the eight-column row built from a verdict.
- `Store` (store.dfy) models `create_table` and `upsert_data`:
  - each table is a sequence of rows under the `UNIQUE (hostname, date, section)` constraint;
  - upsert is proved to be a map update of the table's key-to-row contents.
- `Checks` (checks.dfy) turns each `ensure_*` function into data: section, name, scored flag, commands and rule. `RunAll` is a module's `run()`: the checks in order, each writing its row in its own transaction.
- `UnusedFilesystems`, `SoftwareUpdates`, `FilesystemsIntegrity` and `BootloaderSettings` each hold one module's checks, its check order, and what each check decides.

A kernel-module check accepts the expected `insmod` line anywhere in the **unstripped**
dry-run `modprobe` stdout, or a blank stdout (`utils/unused_filesystems.py`, lines 135 to 142).

## Model

| member | source | states |
|---|---|---|
| Text.Strip | utils/unused_filesystems.py:115-116 | the stripped text is no longer than the input and neither starts nor ends with Python whitespace |
| Text.StripEmptyIff | utils/unused_filesystems.py:137-138 | `not s.strip()` holds exactly when every character of `s` is Python whitespace |
| Text.StripPadded | utils/unused_filesystems.py:925-931 | stripping text that neither starts nor ends with whitespace, padded on both sides with whitespace, gives back that text |
| Text.StripIdempotent | utils/unused_filesystems.py:925-931 | stripping twice is the same as stripping once |
| Text.SplitLinesStep | utils/unused_filesystems.py:1222 | `splitlines()` of a break-free line, one terminator and a rest returns that line followed by the split of the rest; a terminator is any single line-boundary character or `\r\n`, and a lone `\r` before a `\n` is not one; with an empty rest, a trailing break opens no empty line |
| Text.SplitJoinLines | utils/unused_filesystems.py:1222 | `splitlines()` of single lines joined by newlines, the last one non-empty, returns those lines |
| Evidence.Record | utils/bootloader_settings.py:109-113 | a command's evidence is filed under its name with its command line and its stripped stdout and stderr; the stored text is empty exactly when the captured one is all whitespace |
| Evidence.Lookup | utils/bootloader_settings.py:120 | reading a name finds an entry with that name, and finds nothing exactly when the name was never filed |
| Evidence.Put | utils/bootloader_settings.py:109 | assigning under an existing name keeps the name order; a new name is appended at the end |
| Evidence.LookupPut | utils/bootloader_settings.py:109 | after `results[name] = e`, the name finds `e` and every other name finds what it found before |
| Evidence.Collect | utils/filesystems_integrity.py:147-175 | the evidence of a command loop never holds two entries under one name |
| Evidence.CollectDistinct | utils/filesystems_integrity.py:147-175 | with distinct command names, the evidence holds exactly one entry per command, in command order, each recording that command's stripped output |
| Rows.BuildRow | utils/unused_filesystems.py:56-73 | the row carries the host context, section and name; it is Scored iff scored, Compliant iff compliant, and Not Deviated iff compliant |
| Rows.WellLabelledIsBuilt | utils/unused_filesystems.py:67-73 | every row with valid labels, and deviation opposite to checklist, is the row built from its own decoded verdict |
| Rows.BuildRowInjective | utils/software_updates.py:65-69 | two results give the same row only if they agree on host context, section, name, scored flag and verdict |
| Store.Overwrite | utils/unused_filesystems.py:41-46 | the conflict update keeps the existing key and, for the same key, yields exactly the incoming row |
| Store.Upsert | utils/unused_filesystems.py:37-48 | a new key appends the row; an existing key replaces that row in place; rows with other keys are unchanged |
| Store.UpsertKeepsUnique | utils/unused_filesystems.py:20-48 | upsert keeps the unique key constraint, and afterwards the new row is the only row with its key |
| Store.UpsertKeys | utils/filesystems_integrity.py:34-45 | after an upsert the table has exactly its old keys plus the new row's key |
| Store.UpsertIdempotent | utils/software_updates.py:35-46 | repeating the same upsert leaves the table unchanged |
| Store.Contents | utils/unused_filesystems.py:31-32 | a table read as a map holds exactly its keys, each mapped to a row of the table with that key |
| Store.UpsertIsMapUpdate | utils/bootloader_settings.py:35-46 | an upsert is the map update `contents[key(r)] := r` of the table's contents |
| Store.ExecuteMany | utils/unused_filesystems.py:48 | `executemany` keeps keys unique and leaves the contents updated by the batch, later rows winning |
| Store.CreateTable | utils/unused_filesystems.py:20-35 | an absent table is created empty and an existing table is left alone |
| Store.WriteRow | utils/unused_filesystems.py:75-93 | a committed transaction leaves the row in the table, and the table's contents are its old contents (empty if it was absent) updated at the row's key, so rows with other keys stay; a failed one leaves the database unchanged; other tables are untouched either way |
| Checks.EvidenceOf | utils/bootloader_settings.py:105-118 | a check's evidence holds one entry per command, in order, with the command's name, line and stripped output |
| Checks.ResultRow | utils/unused_filesystems.py:56-73 | a check's row carries its section, name and host context; it is Scored iff the check is scored and Compliant iff the check's rule holds |
| Checks.RunAll | utils/bootloader_settings.py:195-205 | `run()` produces one row per check, in order, each built from the host context read for that check and that check's outputs, and touches no other table |
| Checks.RunAllContents | utils/unused_filesystems.py:75-93 | when every transaction commits, the table's contents after a run are its contents before, updated with the run's rows in order |
| Checks.RunAllPersists | utils/unused_filesystems.py:37-93 | after a fully committed run over distinct sections, every row produced is in the table and is the only row with its key |
| Checks.RunAllCommittedContents | utils/unused_filesystems.py:75-93 | whatever mix of transactions commits, the table's contents after a run are its contents before, updated in order with exactly the rows whose transactions committed: a failure loses only its own row, and earlier and later rows still land |
| Checks.RunAllNothingCommitted | utils/unused_filesystems.py:76-93 | when no transaction commits, the run leaves the database as it found it |
| Rules.ModuleDisabledIff | utils/unused_filesystems.py:135-142 | a module check passes iff the raw modprobe stdout contains the insmod line or is blank, and lsmod's stdout is blank |
| Rules.ModuleLoadedFails | utils/unused_filesystems.py:1502-1505 | any visible lsmod output fails a module check, whatever modprobe printed |
| Rules.SomeOutputHasIff | utils/bootloader_settings.py:120 | "some output contains text" holds iff some stripped stdout contains the text |
| Rules.AnyOutputHasAnyBlank | utils/unused_filesystems.py:733-738 | with non-empty expected texts and only blank outputs, the rule fails |
| Rules.AllNonBlankIff | utils/software_updates.py:121 | `all(stdout ...)` holds iff every output has something besides whitespace |
| Rules.AnyNonBlankIff | utils/bootloader_settings.py:158 | `any(stdout ...)` holds iff some output has something besides whitespace |
| Rules.EveryLineHasOptionMissing | utils/unused_filesystems.py:1221-1228 | a blank mount output, or one that never mentions the option, fails |
| Rules.EveryLineHasOptionSingleLine | utils/unused_filesystems.py:1221-1225 | for a single non-blank mount line, the rule holds iff the line contains the option |
| Rules.ReportsDisabledIff | utils/unused_filesystems.py:1434-1439 | the rule holds iff stderr is blank and the stripped stdout is exactly "disabled" |
| UnusedFilesystems.ModuleCheckIff | utils/unused_filesystems.py:104-142 | a kernel-module check built by `ModuleCheck` (the shape of 1.1.1.1 to 1.1.1.8 and 1.1.23) passes iff the raw modprobe stdout contains the insmod line or is blank, and lsmod's stdout is blank |
| UnusedFilesystems.LoadedModuleFails | utils/unused_filesystems.py:1502-1530 | a module that lsmod lists fails its check |
| UnusedFilesystems.SilentCheckIff | utils/unused_filesystems.py:773-787 | a check built by `SilentCheck` (the shape of the `grep -v` option checks and the sticky-bit search) passes iff the pipeline prints only whitespace |
| UnusedFilesystems.PartitionCheckIff | utils/unused_filesystems.py:916-931 | a check built by `PartitionCheck` (the shape of the /var and /home checks) passes iff the stripped output equals the expected mount line exactly |
| UnusedFilesystems.PartitionCheckPadded | utils/unused_filesystems.py:916-931 | the expected mount line passes however it is padded with whitespace |
| UnusedFilesystems.SourceVarLinePasses | utils/unused_filesystems.py:916-931 | the scanner machine's own /var line, ending in a newline, passes 1.1.6 |
| UnusedFilesystems.TmpConfiguredIff | utils/unused_filesystems.py:708-738 | 1.1.2 passes iff one of its three stripped outputs contains "tmpfs on /tmp type tmpfs", "tmpfs\t/tmp\ttmpfs" or "enabled" |
| UnusedFilesystems.ConfiguredLoopIff | utils/unused_filesystems.py:733-735 | the loop `configured = configured or any(op in output ...)` over the expected texts ends True iff it started True or some text occurs in some output |
| UnusedFilesystems.TmpConfiguredAsWritten | utils/unused_filesystems.py:708-738 | 1.1.2's verdict equals the source's loop over its expected texts, in order, started from `configured = False` on the stripped outputs |
| UnusedFilesystems.TmpSilentFails | utils/unused_filesystems.py:733-741 | with nothing visible from any of its three commands, 1.1.2 fails |
| UnusedFilesystems.RemovableMediaCheckIff | utils/unused_filesystems.py:1206-1228 | a check built by `RemovableMediaCheck` (the shape of 1.1.18 to 1.1.20) passes iff `mount` prints something visible and every line of the stripped output contains the option |
| UnusedFilesystems.RemovableMediaLineMissing | utils/unused_filesystems.py:1221-1223 | one mount line without the option fails the check |
| UnusedFilesystems.RemovableMediaOptionAbsent | utils/unused_filesystems.py:1275-1282 | an option absent from the whole stripped output fails the check |
| UnusedFilesystems.AutomountDisabledIff | utils/unused_filesystems.py:1422-1441 | 1.1.22 passes iff stderr is blank and the stripped stdout is exactly "disabled" |
| UnusedFilesystems.AutomountReportAgrees | utils/unused_filesystems.py:1434-1444 | the filed message says "Automounting is disabled." iff the check passes; with stderr present, it says automounting is disabled while the row is Not Compliant |
| UnusedFilesystems.Catalog | utils/unused_filesystems.py:1538-1559 | the 24 checks in the order of the module's `def ensure` lines; all well formed, and only 1.1.18 to 1.1.20 not scored |
| UnusedFilesystems.CatalogDistinctSections | utils/unused_filesystems.py:1549-1559 | no two checks of the module share a section, so no row of a run overwrites another |
| UnusedFilesystems.RunOrder | utils/unused_filesystems.py:1549-1559 | `run()` writes 24 rows, one per section in source order; only the three removable-media rows are Not Scored |
| UnusedFilesystems.RunPersists | utils/unused_filesystems.py:56-93 | when every transaction commits, each of the 24 rows is in the table afterwards and is the only row with its key |
| SoftwareUpdates.ReposConfiguredIff | utils/software_updates.py:100-121 | 1.2.1 passes iff all of the yum, apt and zypper listings show something besides whitespace |
| SoftwareUpdates.GpgKeysConfiguredIff | utils/software_updates.py:137-158 | 1.2.2 passes iff all of the rpm, apt and zypper listings show something besides whitespace |
| SoftwareUpdates.OneSilentManagerFails | utils/software_updates.py:121 | a single empty listing fails both checks |
| SoftwareUpdates.CatalogWellFormed | utils/software_updates.py:91-158 | both checks read only their own commands under distinct names, and their sections differ |
| SoftwareUpdates.RunOrder | utils/software_updates.py:165-174 | `run()` writes the rows of 1.2.1 and 1.2.2 in that order, both Not Scored |
| FilesystemsIntegrity.AideInstalledIff | utils/filesystems_integrity.py:99-119 | 1.3.1 passes iff the stripped rpm or dpkg output contains "aide" |
| FilesystemsIntegrity.IntegrityCheckedIff | utils/filesystems_integrity.py:135-177 | 1.3.2 passes iff one of the six stripped outputs contains "enabled" or "aide" |
| FilesystemsIntegrity.IntegrityCheckedSilentFails | utils/filesystems_integrity.py:177 | with nothing visible from any of the six commands, 1.3.2 fails |
| FilesystemsIntegrity.IntegrityCheckedEvidence | utils/filesystems_integrity.py:147-175 | the 1.3.2 evidence holds the four systemd entries, then the two cron entries, each with its command and stripped output |
| FilesystemsIntegrity.CatalogWellFormed | utils/filesystems_integrity.py:90-177 | both checks are well formed and their sections differ |
| FilesystemsIntegrity.RunOrder | utils/filesystems_integrity.py:184-193 | `run()` writes the rows of 1.3.1 and 1.3.2 in that order, both Scored |
| BootloaderSettings.PermissionsConfiguredIff | utils/bootloader_settings.py:100-120 | 1.4.1 passes iff one of the two stripped `stat` outputs contains "Access: (" |
| BootloaderSettings.PasswordSetIff | utils/bootloader_settings.py:136-158 | 1.4.2 passes iff one of the four greps prints something besides whitespace, so it fails when all four are silent |
| BootloaderSettings.SingleUserAuthenticationIff | utils/bootloader_settings.py:174-188 | 1.4.3 passes iff the stripped shadow grep output contains "root" |
| BootloaderSettings.CatalogWellFormed | utils/bootloader_settings.py:91-193 | every check reads only its own commands under distinct names, and sections are distinct |
| BootloaderSettings.PasswordSetEvidence | utils/bootloader_settings.py:136-151 | the 1.4.2 evidence holds one entry per grep, under its name and in order, each with its stripped output |
| BootloaderSettings.RunOrder | utils/bootloader_settings.py:195-205 | `run()` writes the rows of 1.4.1, 1.4.2 and 1.4.3 in that order, all Scored |

## Left out

- Running the commands (`subprocess.run`). Each command's decoded stdout and stderr are inputs (`Evidence.Output`). The commands' meaning on a real host is not modelled.
- Decoding. Every call passes `text=True`, so Python decodes the output and translates `\r\n` and `\r` to `\n` before any check reads it; the model takes the already-decoded text as input. Output that does not decode raises an uncaught `UnicodeDecodeError` that aborts `run()`; that failure is not modelled.
- `psycopg2`. The database is a map from table name to rows, and each transaction's outcome is an input (`Probe.committed`). A failed transaction is rolled back and the run goes on, as the source's `except` does. If `connect` itself raises, the source's `finally` reads an unbound `conn`; that crash is not modelled.
- `socket.gethostname`, `distro.*` and `datetime.now`. The host name, the OS footprint and the date are inputs (`Rows.HostContext`). They are read afresh for every check, so each check's `Probe` carries its own context. The footprint's string format is not modelled.
- The `id SERIAL` column. The model's rows carry only the eight written columns, and no row identity beyond the unique key.
- The kernel release in the insmod paths, and the expected /var and /home mount lines. These are the parameter `UnusedFilesystems.Site`; `SourceSite` holds the source's own values.
- The shape of the evidence dicts. The per-command dicts (module checks, 1.1.2, the single-command checks, the nested 1.4.3 dict) are modelled uniformly as one entry per command with its stripped stdout and stderr. Evidence is never persisted, because `write_output_to_database` ignores its `results` argument.
- The rewritten automount output text. It is modelled as `UnusedFilesystems.AutomountReport`, not stored in the evidence.
- All printing, and `utils/pretty.py`. These are console output only.
- The `inspect`-based discovery of `ensure*` functions, and the `run()` calls at import time. The resulting order is captured as each module's `Catalog`.
- `benchmark.py`: report rendering and database reads.
- Unicode beyond whitespace. Only Python's whitespace set and line-boundary characters are modelled. Strings are sequences of characters with no encoding or normalisation.
