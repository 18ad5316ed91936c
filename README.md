# SystemVariableManager core, modelled in Dafny

SystemVariableManager is a small Windows tool. It reads a YAML file with two
lists of environment variables: `user_variables` and `system_variables`. Each
entry is a name, a value and an operation (`set` or `delete`). The tool can:

- preview the changes a file would make;
- apply them to the user registry key `HKEY_CURRENT_USER\Environment`;
- apply the system list to the machine key, but only when the process runs
  as administrator;
- broadcast `WM_SETTINGCHANGE` after applying;
- export the current variables to a file;
- relaunch itself elevated.

This project models the decision logic under the GUI, all of it in `main.go`.
Platform answers become inputs to the model:

- whether a key opens;
- which registry calls fail;
- the order in which a key enumerates its names;
- whether the file reads and parses;
- whether the process is administrator;
- whether the broadcast succeeds.

Modules:

- `EnvConfig` (env_config.dfy): `Variable`, `Config`, `Option`, `Result`, the
  two store errors, and a key's contents. A key is a `Store` of `RegValue`s:
  a plain string (REG_SZ), an expandable string (REG_EXPAND_SZ), or a value
  of another registry type. Both string types are read; a set always writes
  a plain string, so setting an expandable value such as `Path` turns it into
  a plain one. The store is indexed by
  `NameKey`, the lower-cased name, because the registry matches value names
  without regard to case.
- `PathGuard` (path_guard.dfy): `isValidYAMLFile`, with `filepath.Ext` using
  Windows separators, and the suffix fix-up of the export path.
- `ApplySpec` (apply_spec.dfy): what applying a list does to one key, as
  functions on a `Store`. Also the per-entry outcomes, and
  lemmas on last-wins, untouched names, idempotence and outcome
  classification.
- `ReadSpec` (read_spec.dfy): what reading a key yields, and lemmas on order,
  completeness and subsequence.
- `Registry` (registry.dfy): class `EnvKey`, one opened key whose `vals` the
  methods `ApplyVariables` (`applyVariables`) and `ReadVariables`
  (`readVariablesFromRegistry`) update or read with loops. Their loops are
  proved against `ApplySpec` and `ReadSpec`.
- `Export` (export.dfy): `exportEnvironmentVariables`.
- `Workflow` (workflow.dfy): the body of the "Apply Variables" handler:
  - the path checks;
  - the user list, then the system list gated on administrator rights;
  - then the one broadcast.
- `Preview` (preview.dfy): the lines of the preview window, built by methods
  with loops and proved equal to `PreviewLines`. Lemmas state the layout and
  the marker lines.
- `Elevation` (elevation.dfy): `contains` and the arguments forwarded on
  relaunch.

Three facts about the program that a reader might not expect:

- No broadcast is sent when a non-empty system list is skipped for lack of
  rights: the handler returns first (`main.go:163-169`), even though the user
  list was applied. `Workflow.ApplyEnvVars` states this.
- Applying a list produces no summary with counts; each entry's outcome is
  only logged. The model records one `Outcome` per entry.
- A second application of the same list reports no failures when no set or
  delete call fails (`ApplySpec.NoFailedWithoutInjectedFailures`).

## Model

| member | source | states |
|---|---|---|
| PathGuard.IsValidYAMLFile | main.go:298-301 | The guard itself: the lower-cased extension is `.yaml` or `.yml`. It carries no contract of its own; `ValidIffYamlSuffix` and the lemmas below characterise it |
| PathGuard.Ext | main.go:299 | The extension is a suffix of the path that starts with `.` and has no further dot or separator; it is empty only when the final path element has no dot |
| PathGuard.ExtOfDottedSuffix | main.go:299 | A dot with no dot or separator after it starts the extension |
| PathGuard.ExtOfAppended | main.go:299 | Appending a dot-led suffix with no dot or separator makes that suffix the extension, whatever precedes it |
| PathGuard.ValidHasYamlSuffix | main.go:298-301 | An accepted path ends, ignoring ASCII case, in its lower-cased extension |
| PathGuard.YamlSuffixIsValid | main.go:298-301 | A path ending case-insensitively in `.yaml` or `.yml` is accepted |
| PathGuard.ValidIffYamlSuffix | main.go:298-301 | A path is accepted exactly when it ends, ignoring case, in `.yaml` or `.yml` |
| PathGuard.YamlExtensionAccepted | main.go:298-301 | Any stem followed by `.yaml` or `.yml` in any mix of case (`cfg.YML`) is accepted |
| PathGuard.OtherExtensionRejected | main.go:298-301 | `stem.txt` and `stem.yaml.txt` are rejected: only the last extension counts |
| PathGuard.NoExtensionRejected | main.go:298-301 | A path whose final element has no dot (`cfg`, `conf.yaml\cfg`) is rejected |
| PathGuard.FixSavePath | main.go:261-264 | The export path is the chosen path or the chosen path plus `.yaml`, and always ends case-insensitively in `.yaml` or `.yml` |
| PathGuard.FixSavePathUnchangedIffValid | main.go:261-264 | The fix-up leaves a path unchanged exactly when the file-type guard accepts it |
| PathGuard.FixSavePathIsValid | main.go:261-264 | Every export path passes the file-type guard |
| PathGuard.FixSavePathIdempotent | main.go:261-264 | Fixing an already fixed path changes nothing |
| ApplySpec.Step | main.go:405-424 | A successful set leaves a plain string under the entry's name, whatever type was there (an expandable string included); a successful delete leaves it absent; nothing else changes, whatever the case; a failing call or an unrecognised operation changes nothing |
| ApplySpec.StepOutcome | main.go:405-424 | Unknown exactly for an unrecognised operation; AlreadyAbsent exactly for deleting a name the key does not hold in any case; Failed only for a failing call |
| ApplySpec.Outcomes | main.go:404-425 | Exactly one outcome per entry |
| ApplySpec.RunResolves | main.go:404-425 | After the list runs, each value holds what the last successful set or delete of its name, in any case, decided, or its old contents when there was none |
| ApplySpec.UnmentionedUnchanged | main.go:404-425 | A value whose name no entry mentions, in any case, keeps its contents or stays absent |
| ApplySpec.ResolveAfterLast | main.go:404-425 | The last effective entry for a name, in any case, decides that value |
| ApplySpec.LastEffectiveWins | main.go:404-425 | For names repeated in any mix of case the last successful entry wins: set leaves its string, delete leaves the value absent; unknown operations and failed calls after it do not count |
| ApplySpec.CaseVariantsShareOneValue | main.go:406-420 | `Path` then `PATH` set one value, which keeps the second string; deleting `PATH` removes a value filed as `Path` and reports it applied |
| ApplySpec.RunKeepsKeysFolded | main.go:404-425 | A key whose values are all filed under lower-cased names stays so after any list is applied |
| ApplySpec.ResolveIdempotent | main.go:404-425 | Resolving a name twice over the same list gives what resolving once gives |
| ApplySpec.RunIdempotent | main.go:404-425 | Applying the same list twice, with the same calls failing, leaves the key as applying it once; in particular with no failing calls |
| ApplySpec.OutcomeAt | main.go:404-425 | Entry i's outcome is judged against the key as the entries before it left it |
| ApplySpec.OutcomeClassification | main.go:404-425 | Unknown exactly for an operation other than `set`/`delete` (matched exactly); AlreadyAbsent exactly for deleting a name the key does not hold in any case and of any type; Failed only for a failing call; Applied exactly for a successful set or a successful delete of a present value |
| ApplySpec.NoFailedWithoutInjectedFailures | main.go:404-425 | When no registry call fails, no entry reports Failed, so deleting an absent name is never a failure |
| ApplySpec.UnknownChangesNothing | main.go:423-424 | An entry with an unrecognised operation leaves the key as it was |
| ReadSpec.ReadableEntries | main.go:506-513 | No more entries than enumerated names; every entry is a `set` of a name holding a string value, with that string |
| ReadSpec.ReadNamesAreSubsequence | main.go:506-513 | The exported names are a subsequence of the enumerated names, in enumeration order |
| ReadSpec.ReadEntriesComplete | main.go:506-513 | Every enumerated name that holds a string value is exported with that string |
| ReadSpec.ReadKey | main.go:493-513 | The read is an error exactly when the key does not open or its names cannot be enumerated, and an open failure is reported as such |
| ReadSpec.ReadAllWhenReadable | main.go:506-513 | When every enumerated name holds a string value, all of them are exported, in order |
| Registry.EnvKey.constructor | main.go:397-401 | An opened key holds the given values, which are filed under lower-cased names (`Valid`), as the registry's case-blind matching leaves them |
| Registry.EnvKey.ApplyVariables | main.go:384-427 | Keeps `Valid`; an error only when the key cannot be opened, and then the key is untouched; otherwise one outcome per entry in list order and the key as the entries, applied in turn with names matched regardless of case, leave it |
| Registry.EnvKey.ReadVariables | main.go:479-515 | Open failure and enumeration failure are errors with no list; otherwise a `set` entry for each enumerated name holding a string value, in enumeration order, skipping missing and non-string values |
| Export.ExportEnvironmentVariables | main.go:455-476 | The user key is always read; the system key only when administrator; a read error ends the export with that error; without administrator rights the system list is empty |
| Workflow.ApplyEnvVars | main.go:111-182 | Empty path and wrong extension stop before any read; read and parse errors stop before any write; the user list first, and its error stops everything after it; the system list only as administrator, and its error stops before the broadcast; as standard user a non-empty system list leaves the system key untouched and ends without broadcast; at most one broadcast, and success only when it succeeds |
| Preview.EntryLine | main.go:314-322 | An entry line starts with its prefix followed by `S`, `D` or `U` according to the operation |
| Preview.AppendUserSection | main.go:311-325 | Appends the user section to the lines so far, and nothing else |
| Preview.AppendSystemSection | main.go:328-349 | Appends the system section to the lines so far, and nothing else |
| Preview.RenderPreview | main.go:308-357 | The lines built are exactly `PreviewLines` of the configuration and the privilege state |
| Preview.PreviewLength | main.go:308-357 | One line per entry, plus three fixed lines per shown section, one more with the warning, one when both lists are empty, and three closing lines |
| Preview.UserSectionLayout | main.go:311-325 | A non-empty user section is its header, a blank line, the entry lines in list order with a two-space prefix, and a blank line |
| Preview.SystemSectionLayout | main.go:328-349 | A non-empty system section is its header, the warning line only when not administrator, a blank line, the entry lines in order with the privilege-dependent prefix, and a blank line |
| Preview.PreviewSectionsInOrder | main.go:310-349 | The preview opens with the user section, followed directly by the system section |
| Preview.PreviewClosing | main.go:351-357 | The no-variables line comes first when both lists are empty, and the preview always ends with a blank line and the two note lines |
| Preview.IgnoredMarking | main.go:335-338 | A system entry line carries the `  [IGNORED] ` prefix exactly when not administrator; user entry lines never do |
| Preview.EntryLinesAreNotMarkers | main.go:314-347 | No entry line equals a header, the warning or the no-variables line |
| Preview.SectionMarkers | main.go:311-349 | Each section holds its header exactly when its list is non-empty, and the warning exactly when additionally not administrator |
| Preview.PreviewMarkers | main.go:308-357 | The user header appears iff the user list is non-empty; the system header iff the system list is non-empty; the warning iff that and not administrator; the no-variables line iff both lists are empty |
| Elevation.Contains | main.go:582-589 | True exactly when some element equals the string |
| Elevation.ForwardedArgs | main.go:215-218 | The current arguments form a prefix; the length grows by at most one; a non-empty selected path is always included and never added twice; no other argument's count changes |
| Elevation.RelaunchArgs | main.go:215-218 | The argument loop computes `ForwardedArgs` |
| Elevation.InitialSelection | main.go:66-68 | A starting instance selects its first argument after the program path, and nothing when there is none |
| Elevation.RelaunchDropsNewSelection | main.go:215-218 | Started with `launched` and then choosing `chosen`, the elevated instance is given `[launched, chosen]` and starts with `launched` selected, because startup reads only the first argument (main.go:66-68) |
| Elevation.CorrectedRelaunchPreservesSelection | main.go:66-68 | With the selected path forwarded as the only argument, the elevated instance starts with that path, or with the same file as before when nothing was selected |

## Left out

- Fyne windows, labels, buttons, dialogs and `Refresh` calls are not modelled. Statuses are an enumeration (`Workflow.ApplyStatus`), not widget text.
- File chooser and save dialogs, including the "cancelled" handling, are not modelled. They are user interface and I/O.
- Goroutines are not modelled. Each handler body is a sequential method, because the goroutines only keep the window responsive.
- Reading the configuration file, parsed YAML and `saveConfigToFile` are outside the model. The workflow takes the read-and-parse result as the input `load`. No parse or render round-trip is claimed.
- Registry calls are replaced by `EnvKey.vals` plus inputs. `WriteAccess` says whether the key opens and which entry positions fail. `ReadAccess` says whether the key opens and which names it enumerates, in which order. Which errors the registry raises, and their text, are not modelled.
- The spelling the registry keeps for a value name is not modelled. Values are filed by lower-cased name, and the names an export shows are the enumerated ones, which are an input.
- ReadSpec.ReadableEntries: a read fails only for a missing or non-string value. Other reasons `GetStringValue` can fail for a present string value are not modelled.
- EnvConfig.NameKey: folds ASCII letters only. The registry also matches non-ASCII letters without regard to case, so for names with non-ASCII letters that differ only in case the lemmas about names hold of the model but not of the program.
- `broadcastSettingChange`, `isRunningAsAdmin` and `elevateAsAdmin` are not modelled. They become the inputs `broadcastOk` and `isAdmin`. Relaunch is modelled only as far as its argument list. `elevateAsAdmin` joins the arguments with spaces and no quoting (main.go:556). The model takes the elevated instance's arguments to be the forwarded list, which holds only for arguments without spaces or quotes; a selected path such as `C:\Users\Ann Lee\env.yaml` arrives split in two.
- Console logging and the `hiveName` text in error messages are left out. Outcomes are data, not log lines.
- Error values carry no message. `exportEnvironmentVariables` returns an empty `Config` together with its error; the model returns `Err` alone.
- Preview opening is left out. `previewChanges` reads and parses the file before showing the preview (main.go:82-107); the model starts from an already parsed `Config`.
- Elevation.ForwardedArgs: requires a non-empty argument list. It models `os.Args[1:]`, which is always defined because the program path is present.
- PathGuard.IsValidYAMLFile: folds case for ASCII letters only. Go's `strings.ToLower` also maps non-ASCII letters, which never occur in `.yaml` or `.yml`.
- Registry.EnvKey.ApplyVariables: failing calls are named by entry position rather than by name. This is the more general choice: the same name may fail once and succeed later in the same list.

## Findings

| source | as written | input that shows it | evidently intended | confidence | as-written member | corrected member |
|---|---|---|---|---|---|---|
| main.go:215-218 | Relaunch forwards `os.Args[1:]` and appends the selected path after them. At startup the instance takes only `os.Args[1]` as its selection (main.go:66-68). | The program is started with `q.yaml`; the user selects `p.yaml` and relaunches as administrator. The elevated instance gets `q.yaml p.yaml` and starts with `q.yaml` selected. | The elevated instance starts with the file the user had selected (`p.yaml`). | medium, not executed | Elevation.RelaunchDropsNewSelection | Elevation.CorrectedRelaunchPreservesSelection |
