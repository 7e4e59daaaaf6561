# Latest Component Changed — a Dafny model

The Visual Studio extension "Latest Component Changed" shows, in the status bar
and on a toolbar button, the software component the developer last worked on.
It keeps this in the global git configuration:

- `variable.latest-component-changed` holds the current component.
- `variable.latest-components-recent-list` holds up to five recently used
  components, joined with commas, most recent first.

This project models the logic of the extension as pure Dafny functions over
strings and lists, and proves what that logic guarantees. Five areas are
covered:

- **Resolution** (`Resolver`): `GetLatestComponentChanged` asks git first. It
  falls back to the `[variable]` section of `~/.gitconfig`, and otherwise
  answers `</> No component changed`. `GetCurrentComponent` strips the `</>`
  icon off that answer.
- **Recent list** (`Recent`): reading the stored list, and the
  most-recently-used update that `UpdateComponentsRecentList` applies before
  writing the list back.
- **Labels** (`Labels`): the ` (current)` mark on the current component's
  entry in the toolbar dropdown and in the selector form, and the status-bar
  and toolbar texts.
- **Session** (`Session`): `SetCurrentComponent` against a store of the two
  git variables, and the dropdown and the form handing a picked entry to it.
- **Legacy** (`Legacy`): the first version's `GetGitConfigVariableValue`,
  which takes the first line of the file that mentions the name anywhere.

`Text` models the .NET string primitives the code relies on:

- `String.Trim` with the full `Char.IsWhiteSpace` set;
- `OrdinalIgnoreCase` comparison;
- `StartsWith`, `EndsWith`, `Contains` and `IndexOf`;
- `Split(char)` keeping empty pieces, and `String.Join`.

`Wrappers` holds `Option`.

Effects become inputs. A git invocation is a `ToolRun`: either `Failed` (the
process threw) or `Output(stdout)`. The `.gitconfig` file is an
`Option<seq<string>>` of its lines, where `None` means missing or unreadable.
In `Session` the store is a `Host`: the two git variables (`None` when git
cannot be started) and the file.

## Model

| member | source | states |
|---|---|---|
| `Text.Trim` | latest_component_changed_vsPackage_new.cs:896 | the result has no white space at either end; it is a slice of the input with only white space around it; it is empty exactly when the input is all white space |
| `Text.TrimFixedPoint` | latest_component_changed_vsPackage_new.cs:735 | trimming changes nothing exactly when the string neither starts nor ends with white space |
| `Text.IndexOf` | latest_component_changed_vsPackage_new.cs:908 | the position of the first occurrence of the character, or the length when it does not occur |
| `Text.Split` | latest_component_changed_vsPackage_new.cs:730 | the pieces hold no separator; there are at least two pieces exactly when the separator occurs |
| `Text.JoinSplit` | latest_component_changed_vsPackage_new.cs:730 | joining the pieces of a split with the separator gives back the original string |
| `Text.SplitJoin` | latest_component_changed_vsPackage_new.cs:825 | splitting a join of separator-free pieces gives back the pieces |
| `Resolver.KeyValue` | latest_component_changed_vsPackage_new.cs:906-917 | a line yields nothing unless it starts with `latest-component-changed` ignoring case and holds an `=`; a value it yields is non-blank and trimmed |
| `Resolver.KeyValueAfterFirstAssign` | latest_component_changed_vsPackage_new.cs:906-916 | for a line split at its first `=`, the value is the trimmed text after that `=`, given exactly when the line starts with the key name ignoring case and that text is not blank; otherwise the line gives nothing |
| `Resolver.Classify` | latest_component_changed_vsPackage_new.cs:896-924 | a trimmed line is the `[variable]` header (any case), a usable key line, another section's header, or plain, tested in the loop's order |
| `Resolver.ScanKinds` | latest_component_changed_vsPackage_new.cs:894-925 | a value the scan returns is the value of one of the key lines it was given |
| `Resolver.Scan` | latest_component_changed_vsPackage_new.cs:892-925 | a value the file scan returns is non-blank and trimmed |
| `Resolver.ScanKindsMeaning` | latest_component_changed_vsPackage_new.cs:894-925 | the scan answers `v` exactly when the first in-section line that is a usable key line or another section's header is a key line with value `v` |
| `Resolver.ScanMeaning` | latest_component_changed_vsPackage_new.cs:892-925 | the same, stated over the raw lines of the file |
| `Resolver.NoHeaderNoValue` | latest_component_changed_vsPackage_new.cs:899-906 | a file without a `[variable]` header never supplies a value |
| `Resolver.ToolValue` | latest_component_changed_vsPackage_new.cs:872 | git output is used trimmed; output already trimmed is used as printed; a failed process gives nothing |
| `Resolver.FileValue` | latest_component_changed_vsPackage_new.cs:887-929 | a missing file gives nothing; a value found in the file is non-blank and trimmed |
| `Resolver.ToolValueIsTrim` | latest_component_changed_vsPackage_new.cs:872 | git's output is used with the white space around it trimmed, whatever that white space is |
| `Resolver.FileValueIsScan` | latest_component_changed_vsPackage_new.cs:887-929 | a missing or unreadable file gives nothing; a file that was read gives what the `[variable]` scan of its lines finds |
| `Resolver.Resolve` | latest_component_changed_vsPackage_new.cs:852-935 | the answer is always `</> ` followed by a non-blank, trimmed name |
| `Resolver.ToolPreferred` | latest_component_changed_vsPackage_new.cs:872-879 | non-blank git output decides the answer whatever the file holds; a failed process and blank output lead to the same fallback |
| `Resolver.StripIcon` | latest_component_changed_vsPackage_new.cs:693-701 | stripping fails exactly on the bare icon, where `Substring(4)` throws; without the icon the result is empty; otherwise it is trimmed |
| `Resolver.StripIconAfterIcon` | latest_component_changed_vsPackage_new.cs:696-698 | after the icon and any one character, the component is the rest of the answer, trimmed |
| `Resolver.StripIconTagged` | latest_component_changed_vsPackage_new.cs:698 | stripping the icon off `</> v` gives back a trimmed `v` |
| `Resolver.CurrentComponent` | latest_component_changed_vsPackage_new.cs:693-701 | the current component is never empty, is trimmed, and tagged with the icon it is the resolver's answer |
| `Resolver.CurrentFromTool` | latest_component_changed_vsPackage_new.cs:875-879 | non-blank git output, trimmed, is the current component |
| `Resolver.CurrentFromFile` | latest_component_changed_vsPackage_new.cs:906-916 | without git output, the key line where the scan of `[variable]` stops supplies the current component |
| `Resolver.AbsentSentinel` | latest_component_changed_vsPackage_new.cs:934 | with no value from git or the file, the answer is `</> No component changed` and the current component is `No component changed` |
| `Resolver.CurrentAbsent` | latest_component_changed_vsPackage_new.cs:933-934 | without git output, a missing file or a scan that stops at no key line gives the current component `No component changed` |
| `Recent.KeepName` | latest_component_changed_vsPackage_new.cs:733-740 | a piece yields at most one entry, none exactly when it is blank; a comma-free piece yields a name |
| `Recent.KeepNameMeaning` | latest_component_changed_vsPackage_new.cs:735-738 | a piece yields its trimmed text, or nothing when that is blank |
| `Recent.KeepNamesAppend` | latest_component_changed_vsPackage_new.cs:733-740 | the pieces are read in order: the entries of two runs of pieces are those of the first run followed by those of the second |
| `Recent.KeepNamesAreNames` | latest_component_changed_vsPackage_new.cs:730-740 | the pieces of a split yield only non-empty, trimmed, comma-free names |
| `Recent.Parse` | latest_component_changed_vsPackage_new.cs:727-740 | a stored list yields only component names |
| `Recent.ParsedOutput` | latest_component_changed_vsPackage_new.cs:723-741 | a failed process yields no entries; whatever is read are component names |
| `Recent.RecentList` | latest_component_changed_vsPackage_new.cs:704-760 | a failed process gives the empty list; a non-empty stored list is used as read; otherwise the list is the current component, if there is one |
| `Recent.KeepNamesOfNames` | latest_component_changed_vsPackage_new.cs:735-738 | a list of names passes the reading filter unchanged |
| `Recent.SerializeIsTrimmed` | latest_component_changed_vsPackage_new.cs:825 | a joined list of names starts with its first name's first character and ends with its last name's last character |
| `Recent.ParseSerialize` | latest_component_changed_vsPackage_new.cs:730-740 | parsing the comma-joined list of names gives back the list |
| `Recent.RecentListRoundTrip` | latest_component_changed_vsPackage_new.cs:723-753 | a written list of names is read back unchanged whatever the current component |
| `Recent.RemoveMatches` | latest_component_changed_vsPackage_new.cs:813 | every entry equal to the component ignoring case is removed, and every other entry keeps its number of occurrences |
| `Recent.RemoveMatchesKeepsOrder` | latest_component_changed_vsPackage_new.cs:813 | the surviving entries keep their relative order |
| `Recent.MoveToFront` | latest_component_changed_vsPackage_new.cs:812-822 | the component comes first, followed by the old entries that do not match it, in order, cut so that at most five entries remain; the length is one more than the survivors, or five |
| `Recent.MoveToFrontKeepsOrder` | latest_component_changed_vsPackage_new.cs:812-822 | the entries after the front are a subsequence of the old list |
| `Recent.MoveToFrontKeepsEntries` | latest_component_changed_vsPackage_new.cs:819-822 | with fewer than five entries, no old entry other than the component is lost |
| `Recent.RemoveMatchesKeepsDistinct` | latest_component_changed_vsPackage_new.cs:813 | removing matches keeps a list free of case-insensitive duplicates |
| `Recent.MoveToFrontKeepsDistinct` | latest_component_changed_vsPackage_new.cs:812-822 | the update keeps the list free of case-insensitive duplicates |
| `Labels.StripMarkAsWritten` | latest_component_changed_vsPackage_new.cs:519-521 | as written, a marked entry loses only nine of the mark's ten characters and keeps its leading space |
| `Labels.StripMark` | latest_component_changed_vsPackage_new.cs:362-364 | the cut corrected as under Findings: a marked entry loses exactly the ten-character mark; an unmarked entry is left alone |
| `Labels.StripMarkUndoesDecorate` | latest_component_changed_vsPackage_new.cs:362-369 | stripping the mark, in any case, off a decorated name gives the name back |
| `Labels.StripMarkAsWrittenLeavesSpace` | latest_component_changed_vsPackage_new.cs:487-489 | as written, stripping a decorated name gives the name followed by a space |
| `Labels.MenuEntry` | latest_component_changed_vsPackage_new.cs:359-378 | with the corrected cut, an entry is checked exactly when its component equals the current one ignoring case, and then shows the mark; stripping the shown text gives the component back whenever that component carries no mark itself |
| `Labels.FormReturnsEntryComponent` | latest_component_changed_vsPackage_new.cs:515-524 | with the whole mark stripped, the form hands back exactly the list entry that was picked |
| `Labels.FormAsWrittenAppendsSpace` | latest_component_changed_vsPackage_new.cs:547-554 | as written, picking the current component's entry hands back the component with a space appended |
| `Labels.StatusShowsResolution` | latest_component_changed_vsPackage_new.cs:667-673 | the status bar and toolbar texts equal the resolver's answer, so their fallback texts never show |
| `Session.WriteCurrent` | latest_component_changed_vsPackage_new.cs:770-786 | after writing the current variable, reading it gives the written value and reading the list gives what it gave before |
| `Session.WriteRecent` | latest_component_changed_vsPackage_new.cs:825-841 | after writing the list variable, reading it gives the written text and reading the current variable gives what it gave before |
| `Session.ReadCurrent` | latest_component_changed_vsPackage_new.cs:693-701 | the component read is never empty and is trimmed; a stored value that is not blank is read back trimmed |
| `Session.ReadRecent` | latest_component_changed_vsPackage_new.cs:704-760 | the list read is empty exactly when git cannot be started; a stored list that yields names is used, and otherwise the list is the current component alone |
| `Session.UpdateRecent` | latest_component_changed_vsPackage_new.cs:800-849 | an empty component or an unavailable git writes nothing; the current variable is never touched |
| `Session.SetCurrent` | latest_component_changed_vsPackage_new.cs:763-797 | an empty component or an unavailable git changes nothing; otherwise the current variable holds the component |
| `Session.ReadAfterSet` | latest_component_changed_vsPackage_new.cs:763-789 | after setting a non-blank component, the extension reads back that component, trimmed |
| `Session.ListAfterWritingCurrent` | latest_component_changed_vsPackage_new.cs:743-751 | before the list is rewritten, the list read is the stored one, or the new component when none is stored |
| `Session.ListReadsBack` | latest_component_changed_vsPackage_new.cs:825-841 | a list of names written to the store is what the extension reads back |
| `Session.RecentAfterSet` | latest_component_changed_vsPackage_new.cs:810-825 | after setting a component name, the list read is the old list (or just the name) with the name moved to the front |
| `Session.SetCurrentKeepsRecentInvariant` | latest_component_changed_vsPackage_new.cs:812-822 | selections keep the list at most five long, led by the latest selection, and free of case-insensitive duplicates |
| `Session.ApiUiApi` | latest_component_changed_vsPackage_new.cs:810-825 | from an empty store, selecting `api`, `ui`, `api` leaves `api` current and the list `api, ui` |
| `Session.DropdownAndFormAgree` | latest_component_changed_vsPackage_new.cs:381-384 | for an unmarked entry, the dropdown and the form with the whole mark stripped both set exactly that entry |
| `Session.SelectFromDropdown` | latest_component_changed_vsPackage_new.cs:359-384 | clicking an unmarked entry of the dropdown sets exactly that entry |
| `Session.SelectFromForm` | latest_component_changed_vsPackage_new.cs:430-438 | with the whole mark stripped, picking an unmarked entry in the form sets exactly that entry |
| `Session.SelectFromFormAsWritten` | latest_component_changed_vsPackage_new.cs:515-524 | as written, picking the checked entry sets the component followed by a space; picking any other unmarked entry sets that entry |
| `Session.ReselectAsWritten` | latest_component_changed_vsPackage_new.cs:435-438 | as written, picking the current component's entry in the form sets the component with a trailing space |
| `Session.TrimTrailingSpace` | latest_component_changed_vsPackage_new.cs:735 | reading the list trims a stored trailing space off a name |
| `Session.KeepNamesTrailingSpace` | latest_component_changed_vsPackage_new.cs:733-740 | a name stored with a trailing space reads back as the bare name in front of the rest |
| `Session.ReselectingCurrentDuplicates` | latest_component_changed_vsPackage_new.cs:519-521 | as written, with `api` current and the list `api,ui`, picking the checked entry leaves the list `api, api, ui` |
| `Session.SelectFromFormKeepsDistinct` | latest_component_changed_vsPackage_new.cs:551-553 | with the whole mark stripped, picking any entry keeps the list at most five long, led by the pick, and free of duplicates |
| `Legacy.FirstContaining` | latest_component_changed_vsPackage.cs:155-158 | the position of the first line that contains the name, or the number of lines |
| `Legacy.Lookup` | latest_component_changed_vsPackage.cs:149-172 | a file that cannot be read answers `Error`; every answer is `Variable no encontrada`, `Error`, or `</> ` followed by a value |
| `Legacy.LeftmostIsFirst` | latest_component_changed_vsPackage.cs:155-161 | a line that contains the name, with no earlier such line, is the one found |
| `Legacy.AnswersDiffer` | latest_component_changed_vsPackage.cs:160-170 | a value, `Variable no encontrada` and `Error` are three distinct answers |
| `Legacy.NotFoundExactly` | latest_component_changed_vsPackage.cs:164 | the answer is `Variable no encontrada` exactly when the file was read and no line contains the name |
| `Legacy.FailureExactly` | latest_component_changed_vsPackage.cs:166-171 | the answer is `Error` exactly when the file cannot be read or the first line mentioning the name has no `=` |
| `Legacy.SecondPiece` | latest_component_changed_vsPackage.cs:160 | the second piece of a split is the text between the first two separators |
| `Legacy.ValueBetweenFirstTwoAssigns` | latest_component_changed_vsPackage.cs:155-161 | the value shown is `</> ` and the trimmed text between the first and second `=` of the first line that mentions the name |
| `Legacy.EarlierMentionWins` | latest_component_changed_vsPackage.cs:155-161 | lines after the first mention do not matter, whatever section they are in |
| `Legacy.StatusMessage` | latest_component_changed_vsPackage.cs:115-124 | the status text is the lookup of `latest-component-changed` followed by ` - D`; it reads `Variable no encontrada - D` exactly when no line mentions the key, and `Error - D` exactly when the file cannot be read or the first mention has no `=` |
| `Legacy.StatusShowsValue` | latest_component_changed_vsPackage.cs:115-161 | otherwise the status text is `</> `, the trimmed text between the first two `=` of the first line mentioning the key, and ` - D` |

## Left out

- Visual Studio itself is not modelled: the menus, the form's window, the status-bar service, the five-second timer and the file watcher. The model keeps only the strings these show and the components they pass on.
- Process spawning is not modelled. A git run is its captured output or a failure. Reading, writing and waiting on the process are not modelled. Neither is the shell quoting of `"{component}"` in `git config --global`, so a component containing a double quote is written as given.
- The `.gitconfig` file and the git store are independent inputs in `Session`. In reality `git config --global` writes the same file. The file is consulted only when git gives no value.
- Writes to git are assumed to succeed once git can be started. A write that fails after the process starts is not modelled.
- Resolver.Resolve: the outer `catch` of `GetLatestComponentChanged` answers `"Error: " + message`. Nothing modelled there can throw, so that answer is not produced. `StripIcon` still covers answers without the icon.
- Case-insensitive comparison folds ASCII letters only. `OrdinalIgnoreCase` also folds other scripts with simple case mappings.
- `StartsWith("</>")` and `StartsWith("[")` are culture-sensitive in .NET. They are modelled as ordinal prefix tests. The two differ on lines that begin with characters the culture comparison ignores, such as a soft hyphen (U+00AD): .NET treats `\u00AD[core]` as opening a section, `Resolver.OpensSection` does not.
- `SetCurrentComponent` and `UpdateComponentsRecentList` refuse only the empty string. A blank component is written as given. The model follows the code.
- The form's initial selection (the current component's entry, or else the first) is not modelled. `Session.SelectFromForm` takes the picked index as input.
- The selector's "no recent components" message box is not modelled. It changes nothing, and the selection functions require an index inside the list.
- `GetGitConfigVariableValue` reads a hard-coded path. In `Legacy` the file's lines are an input instead.
- Labels.MenuEntry: strips a mark already on a list item with the corrected cut. Stored items carry no mark unless a component's own name ends in ` (current)`.
- Labels.StatusText and Labels.ToolbarText carry no contract of their own. What they show is stated by `Labels.StatusShowsResolution`.
- Recent.Serialize carries no contract of its own. Its inverse is stated by `Text.SplitJoin` and `Recent.ParseSerialize`, and its first and last characters by `Recent.SerializeIsTrimmed`.
- Session.RunCurrent and Session.RunRecent stand for the two `git config --get` runs. What they read after a write is stated by `Session.WriteCurrent` and `Session.WriteRecent`.
- Recent.KeepNames carries no contract of its own. What it keeps is stated by `Recent.KeepNameMeaning` (one piece), `Recent.KeepNamesAppend` (pieces in order) and `Recent.KeepNamesAreNames` (only names come out).
- Resolver.Kinds only classifies each line on its own, by `Resolver.Classify`. What the scan makes of the kinds is stated by `Resolver.ScanKinds`, `Resolver.ScanKindsMeaning` and `Resolver.ScanMeaning`.
- Session.ReadAfterSet and Session.RecentAfterSet: `git config --get` reads every scope (system, global and repository-local), while the extension writes with `--global`. The store is modelled as one scope, so these two hold only when no repository-local `variable.*` entry shadows the global one.

## Findings

| source | as written | input that shows it | evidently intended | confidence | as-written member | corrected member |
|---|---|---|---|---|---|---|
| latest_component_changed_vsPackage_new.cs:519-521 | a selected entry ending in ` (current)` is cut with `Substring(0, Length - 9)`, but the mark has ten characters, so the leading space stays. The same cut is at lines 362-364, 487-489 and 551-553 | store `api` current with list `api,ui`, then pick the checked entry `api (current)` in the selector form. `api ` (trailing space) is set. `RemoveAll` does not match `api`, so `api ,api,ui` is stored, and it reads back as `api, api, ui` | cut all ten characters (`Length - 10`), so that the picked entry's component is set and the list stays free of duplicates | not executed | `Session.SelectFromFormAsWritten` with `Session.ReselectingCurrentDuplicates` | `Session.SelectFromForm` with `Session.SelectFromFormKeepsDistinct` |
