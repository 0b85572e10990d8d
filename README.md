# Gauge templates and project initialisation, in Dafny

This project models two packages of the Gauge test tool and proves properties of the models.

- `template/template.go` is the template registry (module `Template`, in `template.dfy`). A
  registry maps a template name to its property (key, download location, description) and
  keeps the names in a slice. It has six built-in entries, one per runtime language, and
  persisted overrides from `template.properties` are applied over them. It supports lookup
  with suggestions, validated updates, the text written back to `template.properties`, and
  the version-gated rewrite `Merge`.
  - `templates` is the class `Template.Templates`, with a map field `t` and a sequence field
    `names`.
  - Its invariant `Valid()` says that `names` is the sorted key set of `t` and that every
    property is stored under its own key.
- `projectInit/init.go` creates a project from a template (module `ProjectInit`, in
  `project_init.dfy`).
  - The working directory is checked first, then the location is checked.
  - The template is downloaded and unzipped, and its root directory is found.
  - The `.gitignore` is merged, the template is mirrored into the project, and
    `metadata.json` is read.
  - The post-install command runs, with a rollback when it cannot be launched.
  - Cleanup comes last.
  - The class `ProjectInit.Workspace` holds the project root (`config.ProjectRoot`) and a
    log of every call the package makes on the filesystem, the downloader and the process
    runner.
  - The answers of those collaborators are inputs: `Env` during a copy, `Host` for a whole
    invocation.
  - Each method is proved against a function. It computes that function's error, and it
    appends that function's calls to the log. `copyTemplateContents` becomes the function
    `Copy`, a state machine `Step` over the stages of the copy. The lemmas about `Copy` are
    the ordering, rollback and cleanup guarantees.

Supporting modules:

- `Strings` holds the string order of `sort.Strings`, sorting as an ascending permutation,
  `strings.Fields`, `strings.Join` and index search.
- `PropertiesFile` is a reader for the `key = value` text of `template.properties`. The
  tool's own reader is not part of this model, so the proof that the written text reads
  back is stated against this reader.
- `Versions` is a major/minor/patch order standing in for the `version` package.
- `Urls` gives the shape of `url.ParseRequestURI`.
- `Wrappers` holds `Option` and `Result`.

## Behaviour as the code has it

- Rollback: when the post-install command was launched but `Wait` reports a failure, the code
  returns the error. It does not roll back, and `metadata.json` stays (`init.go:94-96`).
  Only a launch failure rolls back.
- Template root: when no visited directory holds the manifest file, `getTemplateDir` returns
  `""` and no error. The copy then goes on from `""`; it is not a "malformed template" error.
- Template root: when several directories hold the manifest file, the last one visited wins.
- `.gitignore`: with the template root `""`, the template's `.gitignore` is
  `filepath.Join("", ".gitignore")`, which is `.gitignore` itself. An existing project
  `.gitignore` is then appended to itself (`ProjectInit.GitignoreAppendedToItself`).
- Post-install command: a command of white space only passes the `!= ""` test
  (`init.go:83`), but `strings.Fields` gives no words for it (`Strings.FieldsEmpty`). The
  model then records a launch of the empty argument list, like any other launch. What
  `common.ExecuteSystemCommand` does with no arguments is not part of this model.
- Rollback: `metadata.json` is read from the project root after mirroring, so it is
  normally one of the added files (`init.go:66-72`). A launch failure then removes it with
  the rest of the rollback.
- Temporary directory: it is not always removed. `FromZipFile` removes it with a deferred
  call, which does not run when `logger.Fatalf` ends the process (see Findings).

## Model

| member | source | states |
|---|---|---|
| Template.Message | template/template.go:66-70 | the not-found text is the bare "cannot find a Gauge template" sentence exactly when there are no suggestions, and always begins with it |
| Template.Header | template/template.go:32 | defined as the two header lines: `# Version <version>` and `# <comment>` |
| Template.Block | template/template.go:38 | defined as one property's block: a blank line, `# <description>`, then `<key> = <value>` |
| Template.Blocks | template/template.go:36-42 | defined as the blocks of the listed names, in order, one per loop iteration |
| Template.Render | template/template.go:30-44 | defined as the header followed by the blocks of the map's keys in ascending order |
| Template.Description | template/template.go:187 | defined as the standard description "Template download information for gauge <name> projects" |
| Template.DefaultsMap | template/template.go:150-157 | defined as the six `getProperty("template-L", "L")` entries |
| Template.MergedMap | template/template.go:170-182 | defined as the defaults when loading failed, otherwise the defaults overlaid with the loaded map |
| Template.Updated | template/template.go:52-56 | defined as the old entry with the new value when the key is present, otherwise a new entry with the standard description |
| Template.Put | template/template.go:52-57 | the key set gains `k`; `k` now holds `v`; an existing entry keeps its key and description; a new entry gets key `k` and the description "Template download information for gauge k projects"; every other entry is unchanged |
| Template.Overlay | template/template.go:170-182 | the keys are the defaults' plus the configured ones; each configured value wins; unconfigured defaults are unchanged; overridden defaults keep key and description; new keys get the standard description |
| Template.OverlayPut | template/template.go:176-180 | one more update of the merge loop is the merge of the configuration with that entry added |
| Template.GetProperty | template/template.go:184-189 | the entry is keyed by the template name and carries the standard description |
| Template.BuiltinProperty | template/template.go:184-189 | the entry for repository `template-L` points at `https://github.com/getgauge/template-L/releases/latest/download/L.zip` |
| Template.DefaultsAreBuiltins | template/template.go:149-157 | the defaults have exactly the six language keys, each with that language's release archive |
| Template.MergedRegistry | template/template.go:149-182 | the six built-in keys are always present and keep their release archive unless configured; every configured key has its configured value; a failed load gives exactly the defaults; every entry is keyed by its own key |
| Template.BuiltinOrLoaded | template/template.go:170-189 | a merged entry is built-in or configured; a configured value wins, otherwise the built-in location stays; every description is the standard one |
| Template.NonEmpty | template/template.go:76-80 | no empty name survives, the result is no longer than the input, and every non-empty name keeps its count |
| Template.Suggestions | template/template.go:73-83 | the suggestions are ascending, none is empty, there are no more than the matcher gave, and they are the matcher's non-empty answers with their counts |
| Template.SuggestionsAreKnownNames | template/template.go:75-76 | when the matcher gives at most `n` answers, each a known name or empty, the suggestions are at most `n` known names |
| Template.CommentOneLine | template/template.go:22 | the header comment is a single line |
| Template.BlocksSnoc | template/template.go:36-42 | one more name appends exactly its block |
| Template.BlocksPrefix | template/template.go:36-42 | the loop's next block extends the text of the names so far |
| Template.BlockAssignment | template/template.go:36-42 | a block on its own reads as its `key = value` line, whatever the key |
| Template.BlockParse | template/template.go:38 | a block written for a well-formed entry reads back as that one entry, then the rest |
| Template.BlocksParse | template/template.go:36-42 | the blocks read back as their entries, one per name in order |
| Template.BlockValuesAreValues | template/template.go:36-42 | the entries of the blocks are the values of the listed names |
| Template.HeaderParse | template/template.go:32 | the two header lines define nothing |
| Template.RenderParse | template/template.go:30-44 | the text of a map whose entries fit on one line reads back as exactly its values |
| Template.MergedWritable | template/template.go:149-189 | every registry merged from a well-formed configuration can be written and read back |
| Template.OverlayValues | template/template.go:176-180 | applying the values of a merged registry over the same defaults changes nothing |
| Template.ReloadStable | template/template.go:104-114 | merging what the written file holds gives back the registry that was written: no override is lost and no entry altered |
| Template.UpdatePersists | template/template.go:93-102 | for a `name` that is a well-formed key (no `=`, no line break, not starting with `#`) and a one-line `value`: after `Update`, the registry read from the written file is the old one with only `name` set to `value` |
| Template.NameWithEqualsSplits | template/template.go:93-101 | `Update` stores any name, but the block written for a new name `x=y` reads back as the key `x` with the value `y = value` |
| Template.PutNames | template/template.go:52-58 | re-sorting the names after an update lists exactly the new key set, and leaves the names unchanged for an existing key |
| Template.Templates.constructor | template/template.go:158 | the struct literal, given the sorted keys of a map whose properties sit under their own keys, establishes `Valid()` and holds exactly those fields |
| Template.Templates.String | template/template.go:30-44 | the text is the version header and comment, then one block per name in `names` order, that is, the map in ascending key order |
| Template.Templates.Update | template/template.go:46-60 | a rejected value under validation is an error naming `k` with map and names unchanged; otherwise the map is `Put(old, k, v)`; the invariant holds; the names are unchanged for an existing key |
| Template.Templates.Get | template/template.go:62-71 | a present key gives its value; a missing one gives a not-found error carrying the suggestions for it |
| Template.Templates.ClosestMatch | template/template.go:73-83 | the loop's result is the matcher's answers (it asks for at most five), filtered and sorted |
| Template.GetKeys | template/template.go:161-168 | the keys come out strictly ascending and are exactly the map's keys |
| Template.Defaults | template/template.go:149-159 | a fresh registry of the built-in map whose names are its sorted keys |
| Template.MergeTemplates | template/template.go:170-182 | the loop of unvalidated updates leaves a valid registry equal to the defaults overlaid with the loaded configuration, or the defaults when loading failed |
| Template.Update | template/template.go:93-102 | the update fails, before anything is written, exactly when the parser rejects the value, and the error names the template; otherwise the text written is that of the updated merged registry |
| Template.Merge | template/template.go:104-114 | the file is rewritten exactly when its version cannot be read or is older than the running one, and then with the merged registry |
| Template.Get | template/template.go:116-122 | a name of the merged registry gives its location; any other name gives a not-found error with suggestions drawn from the sorted names |
| Template.All | template/template.go:124-130 | the names of the merged registry, ascending, joined by line breaks |
| Strings.Le | template/template.go:58 | defined as Go's string `<=`: lexicographic by code point, a proper prefix first |
| Strings.LeTotal | template/template.go:58 | any two strings are ordered one way or the other |
| Strings.LeTransitive | template/template.go:58 | the string order is transitive |
| Strings.LeAntisymmetric | template/template.go:58 | strings ordered both ways are equal |
| Strings.Insert | template/template.go:58 | insertion adds exactly one occurrence of the element |
| Strings.InsertSorted | template/template.go:58 | insertion keeps a sequence ascending |
| Strings.InsertNoDup | template/template.go:58 | inserting a new element keeps a sequence free of duplicates |
| Strings.SortStrings | template/template.go:58 | `sort.Strings` yields an ascending permutation of its input |
| Strings.SortedUnique | template/template.go:58 | two ascending permutations of each other are equal |
| Strings.SortSorted | template/template.go:58 | sorting an ascending sequence leaves it unchanged |
| Strings.SortAppend | template/template.go:56-58 | sorting after appending to an ascending sequence inserts the new element |
| Strings.NoDupMultiset | template/template.go:161-168 | a permutation of a duplicate-free sequence is duplicate-free |
| Strings.SortedKeys | template/template.go:161-168 | the key list is strictly ascending and holds exactly the keys |
| Strings.StrictlySortedUnique | template/template.go:161-168 | two strictly ascending sequences with the same elements are equal |
| Strings.SortedKeysUnique | template/template.go:161-168 | any strictly ascending listing of a key set is its sorted key list |
| Strings.SortedKeysAppend | template/template.go:54-58 | appending a new key and sorting gives the sorted list of the enlarged key set |
| Strings.IsSpace | projectInit/init.go:85 | defined as `unicode.IsSpace`: tab to carriage return, space, U+0085, U+00A0 and the Unicode white-space code points |
| Strings.Fields | projectInit/init.go:85 | every field is non-empty and holds no white space |
| Strings.FieldsSeparated | projectInit/init.go:85 | the command is its fields in order with white space before, between and after them, and at least one white-space character between two fields, so the fields are its maximal non-space runs |
| Strings.FieldsConcat | projectInit/init.go:85 | the fields put together are the input's non-space characters in order (no quoting) |
| Strings.FieldsEmpty | projectInit/init.go:83-85 | there are no fields exactly when the command is all white space |
| Strings.Join | template/template.go:129 | defined as `strings.Join`: the parts with the separator between consecutive ones |
| Strings.IndexOf | projectInit/init.go:89 | the index of the first occurrence, or the length when there is none |
| PropertiesFile.ParseAssignment | template/template.go:38 | the line `key = value` written for an entry reads back as that entry |
| PropertiesFile.ParseAtFirstEquals | template/template.go:38 | a line is split at its first `=`, so a key holding `=` is cut short |
| PropertiesFile.SkipComment | template/template.go:32 | a `#` line defines nothing |
| PropertiesFile.ParseNextLine | template/template.go:30-44 | the text reads line by line, a later line overriding an earlier one |
| PropertiesFile.ParseWellFormed | template/template.go:93-102 | whatever the file yields can be written back unchanged |
| Versions.LesserThan | template/template.go:106 | defined as the lexicographic order on major, minor and patch |
| Versions.LesserThanStrictTotalOrder | template/template.go:106 | the version order is irreflexive, transitive and total |
| ProjectInit.PathJoin | projectInit/init.go:59 | joining drops an empty element and otherwise puts one separator between the two |
| ProjectInit.FirstSegment | projectInit/init.go:89 | the first segment has no separator, starts the path, and ends at a separator or at the end |
| ProjectInit.FailureAt | projectInit/init.go:105-110 | the walk stops at a failed visit or at the end |
| ProjectInit.FailureAtFirst | projectInit/init.go:105-110 | every visit before the stop succeeded |
| ProjectInit.LastManifest | projectInit/init.go:106-107 | the position found lies among the visits |
| ProjectInit.LastManifestIsLast | projectInit/init.go:106-107 | the position found holds a manifest directory and none follows it; nothing is found only when no visit is a manifest directory |
| ProjectInit.WalkedDirIsLast | projectInit/init.go:104-112 | the template directory is the last manifest directory before the first failure, or "" when there is none; the error is the first failure's, and there is one exactly when some visit failed |
| ProjectInit.WalkedDir | projectInit/init.go:104-112 | defined as the path of the last manifest directory among the visits before the first failure, or `""` |
| ProjectInit.WalkError | projectInit/init.go:104-112 | defined as the error of the first failed visit, if any |
| ProjectInit.GetTemplateDir | projectInit/init.go:104-112 | the walk loop returns exactly that directory and that error |
| ProjectInit.Step | projectInit/init.go:58-101 | defined as the copy from one stage on. The stages are appending `.gitignore`, mirroring, reading and decoding the metadata, launching, waiting and cleanup. Each failure returns its error, and only a launch failure rolls back |
| ProjectInit.Copy | projectInit/init.go:52-102 | defined as a walk error ending the copy at once, otherwise the stages from the `.gitignore` step on |
| ProjectInit.Rollback | projectInit/init.go:88-91 | the rollback makes one call per added file |
| ProjectInit.RollbackRemovals | projectInit/init.go:88-91 | the rollback's `i`th call removes the first segment of the `i`th added file inside the project root |
| ProjectInit.RollbackRemovesAdded | projectInit/init.go:88-91 | the rollback removes the first segment of every added file and nothing else |
| ProjectInit.RollbackStaysInside | projectInit/init.go:88-91 | with relative added paths, every removal is a top-level entry strictly inside the project root |
| ProjectInit.PreparedCalls | projectInit/init.go:58-75 | before the post-install step nothing is run, waited for or removed, and `.gitignore` is appended to only when it exists |
| ProjectInit.GitignoreAppended | projectInit/init.go:58-63 | a successful `.gitignore` step appends the template's file exactly when the project has one, then mirrors |
| ProjectInit.MirrorDecoded | projectInit/init.go:66-81 | when mirroring, reading and decoding succeed, the calls are the mirror and the read, then the post-install step |
| ProjectInit.CopyDecoded | projectInit/init.go:52-82 | a copy that decodes its metadata makes the preparing calls, then runs the post-install step |
| ProjectInit.CopyEarly | projectInit/init.go:54-81 | a copy that stops before decoding fails, having made only a first part of the preparing calls |
| ProjectInit.LaunchStep | projectInit/init.go:83-101 | the command step launches first; a launch failure rolls back; a wait failure stops; success removes `metadata.json` |
| ProjectInit.PostInstallCalls | projectInit/init.go:83-101 | after decoding, only the command (as the first call), the wait and removals happen |
| ProjectInit.GitignoreAppendedOnlyIfPresent | projectInit/init.go:58-63 | the template's `.gitignore` is appended only when the project has one and the walk reported no error; it is then the first call, and a failing append ends the copy before mirroring |
| ProjectInit.GitignoreAppendedToItself | projectInit/init.go:54-63 | when the walk succeeds but finds no manifest directory, the first call appends the project's `.gitignore` to itself |
| ProjectInit.CommandOnlyIfGiven | projectInit/init.go:83-86 | a command runs exactly when the copy got as far as the decoded metadata with a non-empty command; it is that command split on white space, run in the project root |
| ProjectInit.LaunchFailureRollsBack | projectInit/init.go:86-92 | a launch failure ends with that error after removing the first segment of every added file and nothing else, without waiting and without the success-path removal of `metadata.json` |
| ProjectInit.LaunchFailureRemovesMirroredMetadata | projectInit/init.go:66-92 | when the mirror added `metadata.json` to the project root, a launch failure removes it as part of the rollback |
| ProjectInit.WaitFailureKeepsFiles | projectInit/init.go:94-96 | a failing wait ends with its error and removes nothing |
| ProjectInit.SuccessRemovesMetadata | projectInit/init.go:66-101 | the copy succeeds exactly when every step does; then its last call, and its only removal, is that of `metadata.json` |
| ProjectInit.EarlyFailureRemovesNothing | projectInit/init.go:54-81 | a failure before the metadata is decoded runs nothing and removes nothing |
| ProjectInit.CheckUrl | projectInit/init.go:185-196 | an unparsable location aborts; a parsed one passes exactly when its scheme is `https` or insecure downloads are allowed, and otherwise aborts as insecure |
| ProjectInit.CheckUrlMonotone | projectInit/init.go:190 | an `https` location always passes; allowing insecure downloads rejects no more; with them allowed, only unparsable locations are rejected |
| ProjectInit.IsGaugeProject | projectInit/init.go:114-120 | defined as: the manifest loads and names a non-empty language; a load error means not a project |
| ProjectInit.Validation | projectInit/init.go:174-183 | no working directory aborts; otherwise the directory is refused exactly when its manifest loads with a non-empty language |
| ProjectInit.Initialize | projectInit/init.go:41-50 | defined as the download into the temporary directory, then the copy if the download succeeded, then the deferred removal of the temporary directory |
| ProjectInit.Download | projectInit/init.go:151-154 | defined as `checkURL` aborting before any call, otherwise `initializeTemplate` |
| ProjectInit.FromUrlRun | projectInit/init.go:149-156 | defined as validation aborting before any call, otherwise `Download` in the working directory |
| ProjectInit.Located | projectInit/init.go:137 | defined as what `template.Get` answers: the merged registry's location, or `NotFound` with suggestions |
| ProjectInit.FromTemplateRun | projectInit/init.go:135-146 | defined as validation, then the registry lookup (an unknown name aborts before any call), then `Download` of the location |
| ProjectInit.FromZipFileRun | projectInit/init.go:159-172 | defined as validation, then the unzip, then the copy; only a normal return removes the temporary directory |
| ProjectInit.ScopedFromZipFileRun | projectInit/init.go:159-172 | the corrected `FromZipFile`: the same sequence, with the temporary directory removed on every exit after validation |
| ProjectInit.InitializeCleansUp | projectInit/init.go:41-50 | the download is the first call and the removal of the temporary directory the last, whatever fails; the error is the download's or the copy's |
| ProjectInit.AlreadyProjectDoesNothing | projectInit/init.go:174-183 | in an existing project every entry point aborts before making any call |
| ProjectInit.UrlCheckedBeforeDownload | projectInit/init.go:149-156 | `FromURL` makes calls only when the directory and the location pass; it downloads first and removes the temporary directory last; success means the copy succeeded |
| ProjectInit.TemplateDownloadsLocated | projectInit/init.go:135-146 | an unknown name aborts before any call with the registry's not-found error, carrying its suggestions from the sorted names; otherwise the download is of the registry's location, and the temporary directory is removed last |
| ProjectInit.ZipAbortLeavesTempDir | projectInit/init.go:159-170 | in any directory that passes validation, a failed unzip ends after the unzip call alone, and a failed copy after the copy's own calls: neither adds the removal of the temporary directory |
| ProjectInit.BrokenArchiveLeavesTempDir | projectInit/init.go:159-166 | for an archive that does not unzip, in a fresh directory, `FromZipFile` aborts and never removes its temporary directory |
| ProjectInit.ScopedZipRemovesTempDir | projectInit/init.go:159-172 | with the removal scoped to the call, the temporary directory is removed last whenever it was used, with the same outcome as the code |
| ProjectInit.Workspace.ValidateDirectory | projectInit/init.go:174-183 | the project root becomes the working directory when there is one, the abort is `Validation`'s, and no call is made |
| ProjectInit.Workspace.CopyTemplateContents | projectInit/init.go:52-102 | the error is `Copy`'s and the calls logged are `Copy`'s, in order |
| ProjectInit.Workspace.MirrorStep | projectInit/init.go:65-69 | from the mirror on, the error and the calls are those of that stage |
| ProjectInit.Workspace.ReadStep | projectInit/init.go:71-75 | from the metadata read on, the error and the calls are those of that stage |
| ProjectInit.Workspace.DecodeStep | projectInit/init.go:77-81 | from the decoding on, the error and the calls are those of that stage |
| ProjectInit.Workspace.PostInstallStep | projectInit/init.go:83-101 | the post-install step and cleanup make exactly the calls of that stage |
| ProjectInit.Workspace.LaunchCommand | projectInit/init.go:84-97 | launching, rollback and waiting make exactly the calls of the command stage |
| ProjectInit.Workspace.RemoveAdded | projectInit/init.go:87-91 | the rollback loop logs exactly `Rollback` of the added files |
| ProjectInit.Workspace.InitializeTemplate | projectInit/init.go:41-50 | the error and the calls are `Initialize`'s |
| ProjectInit.Workspace.Fetch | projectInit/init.go:151-154 | the location check, then `initializeTemplate`, as `Download` states |
| ProjectInit.Workspace.FromUrl | projectInit/init.go:149-156 | the outcome and calls of `FromURL`, as `FromUrlRun` states |
| ProjectInit.Workspace.FromTemplate | projectInit/init.go:135-146 | the outcome and calls of `FromTemplate`, where the location comes from `Template.Get` |
| ProjectInit.Workspace.FromZipFile | projectInit/init.go:159-172 | the outcome and calls of `FromZipFile` as written |

## Left out

- Fuzzy matching: the `closestmatch` library is not part of this model. `ClosestN` is the
  parameter `closestN`, and its known-names contract is an assumption of
  `Template.SuggestionsAreKnownNames`.
- URL parsing: `url.ParseRequestURI` is the parameter `parse`. Only the scheme of a parsed URL
  is read.
- Versions: `version.CompareVersions` is `Versions.LesserThan` over major, minor and patch.
  `version.FullVersion` is the parameter `fullVersion`.
  `config.GaugeVersionInPropertiesFile` is the parameter `stored`, where `None` means it
  failed.
- Configuration I/O: `common.GetGaugeConfigurationFor` is the parameter `loaded`, where a
  failure is `None`. `config.Write` is left out: `Update` and `Merge` return the text they
  would write, and the error of a failing write is not modelled.
- Template.Templates.String: does not return an error, because `strings.Builder.WriteString`
  never fails.
- Template.MergeTemplates: does not return an error, because its only error source is a
  validated update and merging does not validate.
- `List` is left out. It is presentation only, and its order is Go's map iteration order,
  which is not deterministic.
- The properties reader `PropertiesFile` is a model of the format `String` writes, not the
  tool's own reader, which is not part of this model.
- Filesystem, download, unzip and process calls are recorded as `Effect`s in the workspace
  log, together with their answers (`Env`, `Host`). The files they create are not modelled.
  `common.GetTempDir` is the parameter `tempDir`.
- `json.Unmarshal` is the parameter `decode`.
- `installRunner`, logging, the `silent` flag and the output streams of the post-install
  command are left out. ProjectInit.Workspace.FromUrl and ProjectInit.Workspace.FromTemplate
  stop where `installRunner` would start. ProjectInit.Workspace.FromZipFile also records the
  deferred removal of the temporary directory, which in the code runs only after
  `installRunner` has returned (init.go:162 and 171).
- ProjectInit.FromZipFileRun, ProjectInit.Workspace.FromZipFile: the removal of `tempDir` on
  success assumes that `installRunner` returns normally. `installRunner` hands the plugin
  installation's result to `install.HandleInstallResult` (init.go:130), which is not part of
  this model and may end the process first, skipping that deferred removal as well.
- `logger.Fatalf` is an `Abort` that the entry point returns, after which nothing more
  happens.
- Error messages: the wording of ProjectInit's error messages is reduced to constructors
  that carry the collaborator's cause. Template's messages are modelled in `Template.Message`.
- Paths: `filepath.Join` is modelled for two elements and without `filepath.Clean`. The
  separator is `/`.
- ProjectInit.RollbackStaysInside: assumes that `common.MirrorDir` reports non-empty relative
  paths. `common.MirrorDir` is not part of this model.
- Template.UpdatePersists: holds only for names that are well-formed keys. `Update` checks
  the value and stores any name, and a name holding `=` or a line break, or starting with
  `#`, does not read back as written (`Template.NameWithEqualsSplits`). Whether the tool's
  own reader does the same is not part of this model. It also needs a value without a line
  break. `url.ParseRequestURI` rejects control characters, so a validated value has none,
  but the model's `parse` parameter is not constrained to do so.
- The order of a walk is the order of the `visits` input. `filepath.Walk` itself is not part
  of this model.

## Findings

| source | as written | input that shows it | evidently intended | confidence | as-written member | corrected member |
|---|---|---|---|---|---|---|
| projectInit/init.go:159-170 | the temporary directory is removed by `defer util.Remove(tempDir)`, but `logger.Fatalf` ends the process before deferred calls run, so an archive that fails to unzip, or a failing copy, leaves the directory behind | a fresh directory and an archive that does not unzip (`BrokenArchiveHost`, lemma `BrokenArchiveLeavesTempDir`): the calls are only the unzip | the temporary directory is removed whenever the invocation ends, as `initializeTemplate` does for downloads | not executed; relies on `logger.Fatalf` exiting the process, and the logger is not part of this model; a plugin installation that ends the process inside `installRunner` would skip the same deferred call | ProjectInit.ZipAbortLeavesTempDir | ProjectInit.ScopedZipRemovesTempDir |
