# Verification of the hostler CLI core

A Dafny model of the parts of `packages/hostler-cli` that carry algorithmic weight, with proofs about them.
`dafny verify dfyconfig.toml` checks everything. The model keeps the form of the Go code: loops that mutate maps,
slices, objects and files are methods over classes, sequences and arrays, each proved against a specification
function, and the specification functions are where the results below are proved.

| files | what they model |
|---|---|
| `RuleCascade`, `ExtendsWalks`, `RuleNames` | the rule-severity cascade over the `extends` graph (`pkg/rules/config.go`) |
| `BacklogSync`, `BacklogConvergence`, `BacklogOutcomes` | detection and repair over task files, database rows and BACKLOG.md (`pkg/backlog/backlog.go`) |
| `AuditCanonical`, `AuditDecoder`, `AuditChain`, `AuditExamples` | canonical event text, a decoder for it, and the hash chain (`pkg/audit/hashchain.go`) |
| `PresetMerge`, `PresetCompose`, `PresetExamples` | deep merge and composition of presets (`pkg/config/merge.go`, `preset_loader.go`, `yaml_loader.go`) |
| `StableOrder`, `YamlTree`, `YamlCanonical`, `YamlAliases`, `YamlBindings`, `YamlExamples` | the in-place YAML canonicaliser and what it does to aliases (`pkg/config/canonical.go`) |
| `Registry` | allocation of values and ranges on 64-bit integers (`pkg/registry/registry.go`) |
| `Frontmatter`, `BacklogTable`, `DocumentExamples` | document and table editing (`pkg/fileutil/fileutil.go`) |
| `BacklogRows`, `BacklogText` | the table of `BacklogTable` seen by the detector of `pkg/backlog/backlog.go`, row by row and over whole syncs |
| `KbRows`, `KbIndex`, `KbExamples` | the rows and the recount of the knowledge-base index (`pkg/kb/kb.go`) |
| `Ceremony`, `CeremonyExamples`, `SprintIds` | section templates and free sprint IDs (`pkg/sprint/`) |
| `Decimal`, `Lines`, `Text` | decimal text, 64-bit integers and the buffer of `itoa`; splitting into lines; string helpers |

Go maps yield their keys in an unspecified order. The methods take keys from a set in an arbitrary order, and their
postconditions fix the result, so every theorem about a method is also a proof of order-independence.

The specification functions share helpers with the methods: which severity a word means, which variable belongs to a
rule, which status comes first, what a row or a section looks like. What these helpers say is pinned down in words of
their own, without the helpers, in `RuleNames`, `BacklogOutcomes` and the modules named `...Examples`.

What the code does differently from its own documentation, with the exact condition proved:

- `pkg/rules/types.go:25` says that a hard block cannot be relaxed by config. Only the environment layer is guarded;
  a project rule or a later policy relaxes it (`ExtendsWalks.HardBlockSurvivesExactly`, `ExtendsWalks.ConfigRelaxesHardBlock`).
- One `backlog sync` does not always leave the stores settled, because repairs use snapshots taken before other repairs.
  `BacklogConvergence.OnePassExactly` says exactly when it does, and that two passes do as long as BACKLOG.md lists a
  task exactly when it was added and not removed (`BacklogConvergence.TwoPassesConverge`).
- The text of BACKLOG.md does not always behave like that set: the detector reads the first cell of a row, the editor
  writes in header order and removes by `| ID |`. It does behave so, over any run of edits, in a tidy file: every line
  carries a task's marker exactly when it is read as that task, and so do the rows that are added
  (`BacklogText.EditsKeepListing`, `BacklogText.FitsExactly`); two syncs then settle the text itself
  (`BacklogText.ThirdSyncLeavesText`). Elsewhere it need not: `BacklogRows.FirstColumnExactly` and
  `BacklogRows.RemovedTakesOneExactly` say exactly when a single edit agrees. With a header such as `| Title | ID |`
  and a title that is not the ID up to its first bar, every sync adds the task's row again, for ever
  (`BacklogRows.OverlookedForEver`, `BacklogRows.OtherFirstColumn`), and a row `|T1|` is never removed
  (`BacklogRows.NarrowRowStays`). A bar in a title is not escaped: it adds a cell to the row
  (`BacklogTable.RowLinesUp`, `BacklogTable.BarTitleAddsCells`) and can make a title read as an ID (`BacklogRows.BarTitleIsRead`).
- A sprint whose frontmatter title is its own ID with blanks around it, and whose dates are known, is rewritten by
  every sync from the third on, for ever: the title repair trims it to the ID, which the next run takes for a missing title
  (`BacklogConvergence.SprintsSettleExactly`, `BacklogConvergence.NeverSettles`, `BacklogConvergence.PaddedTitleNeverSettles`).
- `pkg/config/merge.go:13` and line 23 say that nil is ignored; a nil later value overwrites (`PresetMerge.NullOverwrites`).
  Merging keeps the values that nulls meet exactly when no null meets one (`PresetMerge.ValuesKeptExactly`), and nulls
  could be left out exactly when each meets a null (`PresetMerge.NullsIgnoredExactly`). Merging is also not associative
  when kinds differ (`PresetMerge.AssociativeExactly`), so that nested and flat composition differ
  (`PresetCompose.GroupingMatters`).
- The canonicaliser promises to lose nothing. Sorting can put an alias before its anchor, after which the text no longer
  parses and the leaf-key check refuses it (`YamlAliases.OrphaningFires`); or behind another anchor of the same name,
  after which the alias reads another value and the check passes (`YamlAliases.RebindingIsSilent`). Every reader reads
  what it read before exactly when no alias changes its binding (`YamlAliases.ReadingsKeptExactly`), which can be told from the input:
  where the paths of two nodes fork, the keys decide which is written first (`YamlBindings.AheadExactly`), and each
  target has to stay the last node of its name before the alias (`YamlBindings.BindingsKeptExactly`). Where every anchor
  name is given once and there is a leaf path, the check fires exactly when some reader does not (`YamlAliases.CheckIsExact`).
- Canonical event texts collide for floats, typed nil maps, nil slices and values of unlisted types
  (`AuditChain.CollidingValues`); no two other values of the model collide (`AuditChain.PlainTextUnique`), where the Go
  integer types count as one and strings are valid UTF-8.
- Suggested registry numbers wrap around at the largest 64-bit integer; a suggested range whose end overflows is
  granted and covers no number (`Registry.OpenUniqueExactly`, `Registry.OpenUniqueIsRefused`, `Registry.OpenRangeExactly`,
  `Registry.OpenRangeIsRefused`, `Registry.OpenRangeIsUsableExactly`, `Registry.OverflowingRangeIsGranted`).
- The search for a free sprint ID overflows in the same way: with one of the two largest 64-bit numbers in the base or
  in an occupied ID it panics, does not end, or answers wrongly for some order of the map; and it panics when an occupied
  ID is so far from the base that `make` does not grant the capacity (`SprintIds.RightExactly`).
- A knowledge-base file whose name cannot be read back from the row that is printed for it gets another row on
  every recount: names with `)` or a newline, and labels that are empty or hold `]` (`KbRows.RowReadsBackExactly`,
  `KbIndex.SecondRunIsIdleExactly`, `KbIndex.ClosingParenthesisIsAddedAgain`, `KbIndex.NewlineIsAddedAgain`).
- The pattern that rewrites a card count is not the one that reads it. A row gets its new count exactly when the scan
  reaches the row's own count (`KbRows.RowRewritten`); a row whose category looks like a link keeps the old one, and is
  reported as updated by every run (`KbRows.CrookedRowKeepsItsCount`).
- `itoa` prints the least 64-bit integer as a lone minus sign (`Decimal.Itoa`).

## Model

| member | source | states |
|---|---|---|
| RuleCascade.ResolveEffective | packages/hostler-cli/pkg/rules/config.go:187-319 | the call fails exactly as the unfolding of the `extends` graph does; otherwise, for every rule ID, PreviousChain followed by the final decision is, entry for entry, the post-order list of writes to that ID over the whole tree, each labelled with the URI that supplied it, followed by at most one environment write |
| RuleCascade.Cascade.ApplyCascade | packages/hostler-cli/pkg/rules/config.go:200-246 | one call appends exactly the log of its tree to every history, restores `visited`, leaves only the config's own rules under the label `rules.yaml`, and never makes the relabelling of a PreviousChain entry fire |
| RuleCascade.Cascade.ApplyUri | packages/hostler-cli/pkg/rules/config.go:205-230 | one turn of the loop: after the relabelling the child has contributed its log under the label of its URI and no own label is left |
| RuleCascade.Cascade.ApplyExtends | packages/hostler-cli/pkg/rules/config.go:205-230 | the whole loop over `extends`: the histories grow by the logs of the children in order, each under the label of its URI, and an error is the first child's |
| RuleCascade.Cascade.TagLastAs | packages/hostler-cli/pkg/rules/config.go:252-273 | relabels the last two writes of the child's rules only, and no PreviousChain entry when only last writes carry an own label |
| RuleCascade.TagStep | packages/hostler-cli/pkg/rules/config.go:214-229 | relabelling after the fact equals having written the child's log under the parent's label |
| RuleCascade.Cascade.SetEffective | packages/hostler-cli/pkg/rules/config.go:277-292 | a write appends one entry to one rule's history and touches no other rule |
| RuleCascade.Cascade.ApplyEnvOverrides | packages/hostler-cli/pkg/rules/config.go:297-319 | every history gets its environment write, or none |
| RuleNames.SeverityNames | packages/hostler-cli/pkg/rules/types.go:38-53 | which words mean which severity, in any letter case and with white space around them, and that all others are rejected |
| RuleNames.EnvKeyChars | packages/hostler-cli/pkg/rules/config.go:299-300 | the variable of a rule, character by character: `HSTL_RULE_`, then the ID with dots as underscores and letters as capitals; no dot and no lower-case letter is left |
| Text.LetterCase | packages/hostler-cli/pkg/rules/config.go:299 | letter by letter, which capital belongs to which small letter; no other character changes |
| RuleNames.SameKeyExactly | packages/hostler-cli/pkg/rules/config.go:299-300 | two rules share a variable iff their IDs have the same length and differ at most in letter case and in dots against underscores |
| RuleNames.DottedRuleIsOverridden | packages/hostler-cli/pkg/rules/config.go:297-319 | a concrete dotted rule, its variable written out, and the result |
| RuleNames.ProvenanceOfARule | packages/hostler-cli/pkg/rules/config.go:187-319 | the whole chain of a concrete rule over two levels of `extends`, with every label |
| RuleNames.Labels | packages/hostler-cli/pkg/rules/config.go:218-221 | a URI that starts with `preset://hostler/` is labelled as a preset, any other as extended |
| ExtendsWalks.SucceedsExactly | packages/hostler-cli/pkg/rules/config.go:200-246 | the walk succeeds iff every path through the graph repeats no URI, has at most 16 URIs and reaches only configs that load and parse; diamonds are accepted |
| ExtendsWalks.CycleDetectionExact | packages/hostler-cli/pkg/rules/config.go:200-246 | on a loadable graph of at most 16 URIs the cycle error is reported iff there is a cycle, and the call succeeds iff there is none |
| ExtendsWalks.GuardErrorsAreReal | packages/hostler-cli/pkg/rules/config.go:201-208 | a depth error exhibits a chain of 17 different URIs, a cycle error exhibits a cycle |
| ExtendsWalks.UnfoldIsTree | packages/hostler-cli/pkg/rules/config.go:205-230 | the tree whose log is taken is the complete unfolding of the graph |
| ExtendsWalks.TreeUnique | packages/hostler-cli/pkg/rules/config.go:205-230 | a graph has one complete tree, so the log depends on the graph alone |
| ExtendsWalks.PriorityDecides | packages/hostler-cli/pkg/rules/config.go:176-246 | the last write is the decision by priority: own rules, else the last policy, else the last extended config that decides |
| ExtendsWalks.EnvKeepsHardBlock | packages/hostler-cli/pkg/rules/config.go:309-312 | the environment leaves severity, origin and chain of a hard-block rule as they were, and otherwise only appends |
| ExtendsWalks.HardBlockSurvivesExactly | packages/hostler-cli/pkg/rules/config.go:277-319 | a rule that any layer decides, also one that some layer made hard-block, ends hard-block iff the decision by priority is hard-block or the environment variable of the rule is set to hard-block |
| ExtendsWalks.ConfigRelaxesHardBlock | packages/hostler-cli/pkg/rules/config.go:238-292 | a concrete graph that unfolds and in which a project rule relaxes a preset's hard block: the chain ends in off unless the environment names the rule |
| BacklogSync.Workspace.Sync | packages/hostler-cli/pkg/backlog/backlog.go:47-145 | what one run reports and leaves behind is, for each ID separately, a function of the state of that ID before the run; a dry run changes nothing |
| BacklogSync.Workspace.CheckFileLocations | packages/hostler-cli/pkg/backlog/backlog.go:307-353 | the issues found about each ID, in order, and none about others |
| BacklogSync.Workspace.CheckDBVsFrontmatter | packages/hostler-cli/pkg/backlog/backlog.go:356-543 | the issues found about each ID, in order, and none about others |
| BacklogSync.Workspace.CheckDBOrphanTasks | packages/hostler-cli/pkg/backlog/backlog.go:557-610 | the issues found about each ID, in order, and none about others |
| BacklogSync.Workspace.CheckBacklogMDVsFiles | packages/hostler-cli/pkg/backlog/backlog.go:639-737 | the issues found about each ID by the loop over rows and the loop over files |
| BacklogSync.Workspace.CheckFrontmatterParseErrors | packages/hostler-cli/pkg/backlog/backlog.go:740-756 | the issues found about each ID, in order, and none about others |
| BacklogSync.Workspace.CheckDBVsSprintFiles | packages/hostler-cli/pkg/backlog/backlog.go:1416-1565 | the issues found about each sprint, in order, and none about others |
| BacklogSync.Workspace.ApplyFixes | packages/hostler-cli/pkg/backlog/backlog.go:903-1177 | each ID gets exactly the repairs of its own auto-fixable issues, in issue order |
| BacklogSync.Workspace.FixSprintIssue | packages/hostler-cli/pkg/backlog/backlog.go:1569-1890 | one sprint repair changes its sprint's row as specified and no other |
| BacklogConvergence.SyncInClosedForm | packages/hostler-cli/pkg/backlog/backlog.go:307-1177 | detection on a snapshot followed by repair in issue order equals one closed-form update of file, row and listing |
| BacklogConvergence.QuietIsSettled | packages/hostler-cli/pkg/backlog/backlog.go:307-756 | no auto-fixable issue is reported iff the stores agree, said without reference to the detector |
| BacklogConvergence.OnePassExactly | packages/hostler-cli/pkg/backlog/backlog.go:356-1177 | one sync leaves nothing auto-fixable iff no row was inserted from frontmatter that the location repair had just cleared and no status became done after BACKLOG.md was checked |
| BacklogConvergence.TwoPassesConverge | packages/hostler-cli/pkg/backlog/backlog.go:47-1177 | on stores whose listing is the set of IDs that were added and not removed: two syncs leave nothing auto-fixable and a third changes nothing; `BacklogText` carries this over to the text |
| BacklogConvergence.SecondPassIsNeeded | packages/hostler-cli/pkg/backlog/backlog.go:356-1177 | concrete states that need the second pass, one for each stale snapshot |
| BacklogConvergence.ThirdSyncIsIdle | packages/hostler-cli/pkg/backlog/backlog.go:47-145 | on the stores themselves: the third run reports only issues for a human and changes no file, row or listing of any ID |
| BacklogConvergence.SyncKeepsFileStatus | packages/hostler-cli/pkg/backlog/backlog.go:903-1177 | a sync never moves a file and changes no frontmatter field but `sprint` |
| BacklogConvergence.StatusFollowsFile | packages/hostler-cli/pkg/backlog/backlog.go:486-513 | for a file outside the completed sprints the row keeps its status when the file's stands earlier in todo, in-progress, done, and otherwise takes the file's |
| BacklogConvergence.FallsBackExactly | packages/hostler-cli/pkg/backlog/backlog.go:440-517 | a sync makes a row fall back in the workflow, or out of it, iff the row was in the workflow, the file carries a status outside of it, and the file is not under a completed sprint |
| BacklogConvergence.NoStatusRegression | packages/hostler-cli/pkg/backlog/backlog.go:1326-1351 | over any run of syncs and edits with file statuses from the workflow todo, in-progress, done, the status of a row that stays never falls back |
| BacklogOutcomes.FileOutcome | packages/hostler-cli/pkg/backlog/backlog.go:307-353 | a file in works/tasks/ that names a sprint is made to name the backlog; no other file changes |
| BacklogOutcomes.RowIsInserted | packages/hostler-cli/pkg/backlog/backlog.go:356-420 | the row that is inserted for a file that has none, column by column |
| BacklogOutcomes.RowIsUpdated | packages/hostler-cli/pkg/backlog/backlog.go:356-543 | path and sprint of an existing row after a sync, for every place of the file and every way of naming no sprint |
| BacklogOutcomes.StatusUnderCompleted | packages/hostler-cli/pkg/backlog/backlog.go:440-485 | under a completed sprint a row becomes done when the file is, and otherwise keeps its status |
| BacklogOutcomes.RowWithoutFile | packages/hostler-cli/pkg/backlog/backlog.go:557-610 | a row without a readable file stays, unless there is no file, no line in BACKLOG.md and no such path in a worktree |
| BacklogOutcomes.ListingOutcome | packages/hostler-cli/pkg/backlog/backlog.go:639-737 | when a line of BACKLOG.md goes and when one is added |
| BacklogOutcomes.ReportExactly | packages/hostler-cli/pkg/backlog/backlog.go:307-756 | which issues are reported about a task, kind by kind, and which of them are left to a human |
| BacklogConvergence.SprintSyncInClosedForm | packages/hostler-cli/pkg/backlog/backlog.go:1416-1890 | sprint detection and repair equal one column-by-column update |
| BacklogConvergence.SprintNeverRegresses | packages/hostler-cli/pkg/backlog/backlog.go:1509-1608 | a sprint's row stays; its status stays when it is empty or ahead of the sprint's folder in backlog, active, completed, and otherwise becomes the folder's name |
| BacklogOutcomes.SprintIsInserted | packages/hostler-cli/pkg/backlog/backlog.go:1416-1608 | the row that is inserted for a sprint that has none, column by column |
| BacklogOutcomes.SprintIsUpdated | packages/hostler-cli/pkg/backlog/backlog.go:1416-1694 | title, dates and folder path of an existing sprint row after a sync |
| BacklogOutcomes.SprintReport | packages/hostler-cli/pkg/backlog/backlog.go:1509-1530 | the only issue about a sprint that is left to a human is a row ahead of its folder |
| BacklogConvergence.SprintsSettleExactly | packages/hostler-cli/pkg/backlog/backlog.go:1416-1694 | two syncs settle a sprint's row iff its title is not the ID with blanks around it (with the dates known) |
| BacklogConvergence.NeverSettles | packages/hostler-cli/pkg/backlog/backlog.go:1416-1694 | a title that oscillates does so for ever: from the third sync on, each one leaves another row than the one before |
| BacklogConvergence.PaddedTitleNeverSettles | packages/hostler-cli/pkg/backlog/backlog.go:1416-1694 | a concrete sprint that every sync from the third on changes |
| BacklogRows.FindIdFinds | packages/hostler-cli/pkg/backlog/backlog.go:40 | the ID of a line is where the pattern matches, and the match is unique |
| BacklogRows.AddedIsListedExactly | packages/hostler-cli/pkg/backlog/backlog.go:220-235 | after an add, with a table or without, the detector lists what it listed before and what it reads from the lines of the row |
| BacklogRows.DefaultRowIsRead | packages/hostler-cli/pkg/fileutil/fileutil.go:498-502 | without a table the detector finds the added row under its ID |
| BacklogRows.FirstColumnExactly | packages/hostler-cli/pkg/backlog/backlog.go:40 | for any values, with bars or without: the detector finds an added row under its ID iff the value in the first column is, up to its first bar, the ID with blanks around it; in particular when the header's first column is `id` |
| BacklogRows.BarTitleIsRead | packages/hostler-cli/pkg/backlog/backlog.go:40 | a concrete title with a bar in the first column that is read as the ID |
| BacklogRows.RemovedIsListedExactly | packages/hostler-cli/pkg/backlog/backlog.go:220-235 | after a removal the detector lists an ID iff it read it from a line without the marker |
| BacklogRows.RemovedTakesOneExactly | packages/hostler-cli/pkg/fileutil/fileutil.go:409-441 | a removal takes exactly this ID off the list iff no line read as the ID lacks the marker and every other ID keeps a line without it |
| BacklogRows.NarrowRowStays | packages/hostler-cli/pkg/fileutil/fileutil.go:409-441 | a concrete row without blanks that is listed and never removed |
| BacklogRows.OverlookedForEver | packages/hostler-cli/pkg/backlog/backlog.go:639-737 | a task whose row is not read as its ID is added by every run: n runs, n more lines, and still not listed |
| BacklogRows.OtherFirstColumn | packages/hostler-cli/pkg/fileutil/fileutil.go:482-527 | so it goes with every table whose first column holds a value that is not, up to its first bar, the ID with blanks around it |
| BacklogText.FreshIsTidy | packages/hostler-cli/pkg/fileutil/fileutil.go:458-470 | a file without digits, such as an empty table, is tidy and lists nothing |
| BacklogText.FitsExactly | packages/hostler-cli/pkg/fileutil/fileutil.go:503-527 | in a table that starts with the ID, the row of a task whose values hold no bar carries its own marker and no other iff no cell holds the ID of another task |
| BacklogText.TaskWritten | packages/hostler-cli/pkg/backlog/backlog.go:1132-1143 | which fields of the front matter stand where in the added row |
| BacklogText.AddKeepsTidy | packages/hostler-cli/pkg/fileutil/fileutil.go:450-553 | adding such a row leaves the file tidy and the columns as they are, and the detector lists this ID more |
| BacklogText.RemoveKeepsTidy | packages/hostler-cli/pkg/fileutil/fileutil.go:409-441 | a removal leaves the file tidy and the columns as they are, and the detector lists this ID less |
| BacklogText.EditsKeepListing | packages/hostler-cli/pkg/fileutil/fileutil.go:409-553 | over any run of adds and removals in a tidy file, what the detector reads from the text is the set of IDs whose last edit was an add |
| BacklogText.SyncOnText | packages/hostler-cli/pkg/backlog/backlog.go:903-1177 | a whole sync that edits the text of BACKLOG.md keeps the file tidy and the text in step with the engine's set of listed IDs |
| BacklogText.ThirdSyncLeavesText | packages/hostler-cli/pkg/backlog/backlog.go:47-1177 | after two syncs a third leaves BACKLOG.md as it is, byte for byte, and finds only issues for a human |
| AuditCanonical.CanonicalValue | packages/hostler-cli/pkg/audit/hashchain.go:111-142 | the text of a value is the text of the tree it denotes, whatever order its maps yield keys in |
| AuditCanonical.CanonicalMap | packages/hostler-cli/pkg/audit/hashchain.go:88-109 | an object's text lists its keys once each in ascending order; a nil map prints as null |
| AuditCanonical.Quote | packages/hostler-cli/pkg/audit/hashchain.go:61-86 | the quoted text escapes each character as specified |
| AuditDecoder.ReadStringEscaped | packages/hostler-cli/pkg/audit/hashchain.go:61-86 | reading a quoted string gives the string back and stops exactly behind it |
| AuditDecoder.ReadPrint | packages/hostler-cli/pkg/audit/hashchain.go:88-142 | decoding a printed tree gives the tree back and stops exactly behind it, for any nesting |
| AuditChain.CanonicalEventJSON | packages/hostler-cli/pkg/audit/hashchain.go:25-45 | the text built piece by piece is the text of the event |
| AuditChain.EventRoundTrip | packages/hostler-cli/pkg/audit/hashchain.go:25-45 | the decoder recovers the event from its text |
| AuditChain.PlainEventRoundTrip | packages/hostler-cli/pkg/audit/hashchain.go:25-142 | with plain details the decoder recovers the event itself, field by field and value by value |
| AuditChain.PlainExactly | packages/hostler-cli/pkg/audit/hashchain.go:111-142 | the plain values: null, strings, truth values, integers, and arrays and objects of them |
| AuditExamples.EventTextWritten | packages/hostler-cli/pkg/audit/hashchain.go:25-45 | the keys of the event text and their order, written out |
| AuditExamples.EscapesWritten | packages/hostler-cli/pkg/audit/hashchain.go:61-86 | the escapes of quotation mark, backslash, newline, return, tab and other control characters; all other characters stand for themselves |
| AuditExamples.TwoFieldsWritten | packages/hostler-cli/pkg/audit/hashchain.go:88-109 | of two keys the one that comes first in dictionary order is printed first |
| AuditExamples.DetailsWritten | packages/hostler-cli/pkg/audit/hashchain.go:88-142 | details with a value of every kind, written out |
| AuditChain.SameTextExactly | packages/hostler-cli/pkg/audit/hashchain.go:25-142 | two events have the same text iff they read the same |
| AuditChain.PlainTextUnique | packages/hostler-cli/pkg/audit/hashchain.go:25-142 | without floats, nil maps, nil slices and unlisted types, equal texts mean equal events |
| AuditChain.CollidingValues | packages/hostler-cli/pkg/audit/hashchain.go:111-142 | each excluded kind of value does collide with another value |
| AuditChain.CalculateHash | packages/hostler-cli/pkg/audit/hashchain.go:52-59 | hashes the previous hash followed by the event text |
| AuditChain.ChainWritten | packages/hostler-cli/pkg/audit/hashchain.go:52-59 | what each hash of a chain is taken of |
| AuditChain.PayloadSplits | packages/hostler-cli/pkg/audit/hashchain.go:52-59 | previous hash and event text can be told apart in the hashed bytes |
| AuditChain.HeadPinsHistory | packages/hostler-cli/pkg/audit/hashchain.go:52-59 | two chains with one head hash have the same length and event texts, or the proof returns two different inputs with the same hash |
| AuditChain.CollisionFreeChain | packages/hostler-cli/pkg/audit/hashchain.go:52-59 | with a collision-free hash and plain details, equal heads mean equal event lists |
| PresetMerge.MergeMaps | packages/hostler-cli/pkg/config/merge.go:24-55 | the loop over `src` in any order computes the merge of the two trees |
| PresetExamples.MergeByKey | packages/hostler-cli/pkg/config/merge.go:24-55 | the merge key by key: one-sided values stay, maps merge, arrays are concatenated with the earlier one first, otherwise the later value wins |
| PresetMerge.AbsorbsExactly | packages/hostler-cli/pkg/config/merge.go:24-55 | merging a value under another adds nothing iff the other already holds all of it |
| PresetMerge.ValuesKeptExactly | packages/hostler-cli/pkg/config/merge.go:10-55 | merging equals the merge that the comment describes, in which a null never replaces a value, iff no null of the later tree meets a value |
| PresetMerge.NullsIgnoredExactly | packages/hostler-cli/pkg/config/merge.go:10-55 | dropping the nulls of the later tree beforehand makes no difference iff each of them meets a null |
| PresetMerge.NullOverwrites | packages/hostler-cli/pkg/config/merge.go:10-55 | a concrete null that overwrites a value |
| PresetMerge.AssociativeExactly | packages/hostler-cli/pkg/config/merge.go:24-55 | three values may be merged in either grouping iff a stated condition on their kinds holds at every shared path |
| PresetCompose.Resolver.ResolveExtends | packages/hostler-cli/pkg/config/preset_loader.go:79-117 | the recursion computes the nested composition, with the depth and cycle errors, and restores `visited` |
| PresetExamples.ChainResolvesExactly | packages/hostler-cli/pkg/config/preset_loader.go:79-117 | a chain of presets, each extending the next, resolves iff it has at most six; a longer one exceeds the depth |
| PresetExamples.BadReferences | packages/hostler-cli/pkg/config/preset_loader.go:92-100 | a preset that extends itself is a cycle, and one that is not there fails to load |
| PresetExamples.ExtendsIsDropped | packages/hostler-cli/pkg/config/preset_loader.go:101-112 | a list of strings under `extends` is resolved and dropped, and nothing else is |
| PresetExamples.CompositionInOrder | packages/hostler-cli/pkg/config/preset_loader.go:79-117 | what a preset extends lies below it, and a later reference above it |
| PresetCompose.MergeStaysAlike | packages/hostler-cli/pkg/config/merge.go:24-55 | likeness of shape and absence of nulls survive merging |
| PresetCompose.FoldRegroups | packages/hostler-cli/pkg/config/merge.go:24-55 | on like layers the later part of a fold can be composed on its own first |
| PresetCompose.NestedIsFlat | packages/hostler-cli/pkg/config/preset_loader.go:79-117 | on like layers the nested composition is the left fold of all preset bodies in post-order; errors agree in any case |
| PresetCompose.FoldAt | packages/hostler-cli/pkg/config/merge.go:39-52 | at every path the composed array is the concatenation of all layers' arrays in order, the composed scalar is the last layer's |
| PresetCompose.ApplyExtendsAndMerge | packages/hostler-cli/pkg/config/yaml_loader.go:179-214 | the result is the composed presets with the project merged last and `extends` as the project wrote it; without `extends` it is the project alone |
| PresetCompose.ProjectIsLastLayer | packages/hostler-cli/pkg/config/yaml_loader.go:179-214 | on like layers presets and project are one flat fold with the project last |
| PresetCompose.ProjectScalarsWin | packages/hostler-cli/pkg/config/yaml_loader.go:179-214 | a scalar of the project wins, whatever the presets hold |
| PresetCompose.GroupingMatters | packages/hostler-cli/pkg/config/preset_loader.go:79-117 | concrete presets on which the nested composition and the flat fold of the same layers differ |
| YamlCanonical.YamlNode.SortMappings | packages/hostler-cli/pkg/config/canonical.go:128-163 | the recursive rewriting of the node graph in place turns the tree it represents into its sorted form |
| YamlCanonical.YamlNode.MovePairsByKey | packages/hostler-cli/pkg/config/canonical.go:137-154 | the pairs of one mapping are permuted stably by key, other nodes untouched |
| StableOrder.OrderUnique | packages/hostler-cli/pkg/config/canonical.go:147-149 | any stable sort lists the pairs in this one order |
| Text.LessExactly | packages/hostler-cli/pkg/config/canonical.go:147-149 | the order of keys is dictionary order: at the first difference the smaller character decides, or the shorter string |
| YamlExamples.PrefixComesFirst | packages/hostler-cli/pkg/config/canonical.go:128-163 | a pair whose key is a proper prefix of another key comes before it |
| StableOrder.SliceStable | packages/hostler-cli/pkg/config/canonical.go:147-149 | the sort lists every position once, ascending by key and among equal keys by position |
| YamlTree.SortTreeSorts | packages/hostler-cli/pkg/config/canonical.go:128-163 | afterwards every mapping at every level ascends by key |
| YamlTree.SortIdempotent | packages/hostler-cli/pkg/config/canonical.go:128-163 | a second run is the identity |
| YamlTree.LookupPreserved | packages/hostler-cli/pkg/config/canonical.go:128-163 | as far as aliases are not followed, every path finds the sorted form of what it found before, for readers that take the first and for readers that take the last of duplicate keys; sequences keep their order |
| YamlTree.WalkLeafKeys | packages/hostler-cli/pkg/config/canonical.go:95-124 | collects exactly the dotted leaf paths of the tree |
| YamlExamples.NestedPath | packages/hostler-cli/pkg/config/canonical.go:95-124 | keys of nested mappings are joined by dots |
| YamlExamples.ItemPath | packages/hostler-cli/pkg/config/canonical.go:95-124 | items of a sequence are numbered in brackets, and scalar items are no leaves |
| YamlTree.LeafKeysPreserved | packages/hostler-cli/pkg/config/canonical.go:60-163 | sorting the nodes loses and invents no leaf path of the tree in memory |
| YamlAliases.ReadingsKeptExactly | packages/hostler-cli/pkg/config/canonical.go:128-163 | every reader that follows aliases gets from every node along every path to the same node as before iff no alias changes its binding under the sort |
| YamlAliases.UniqueAnchorsExactly | packages/hostler-cli/pkg/config/canonical.go:128-163 | where every anchor name is given once, the bindings are kept iff the written text parses |
| YamlAliases.MissingLeafKeys | packages/hostler-cli/pkg/config/canonical.go:60-91 | the check lists exactly the leaf paths read from the original text and not from the written one, from which nothing is read when it does not parse |
| YamlAliases.CheckFiresExactly | packages/hostler-cli/pkg/config/canonical.go:60-91 | the check fires iff the sort orphaned an alias and there is a leaf path |
| YamlAliases.CheckIsExact | packages/hostler-cli/pkg/config/canonical.go:60-163 | where every anchor name is given once and there is a leaf path, the check fires iff some reader reads something else |
| YamlAliases.OrphaningFires | packages/hostler-cli/pkg/config/canonical.go:60-163 | a concrete document whose sorted text no longer parses, so that the check fires |
| YamlAliases.RebindingIsSilent | packages/hostler-cli/pkg/config/canonical.go:60-163 | a concrete document in which an alias gets another target and the check passes |
| YamlBindings.AheadExactly | packages/hostler-cli/pkg/config/canonical.go:128-163 | node b precedes node a in the sorted tree iff, in the input, b is above a or comes first where their paths fork: by key and position between pairs of a mapping, by position elsewhere and inside keys |
| YamlBindings.BindingsKeptExactly | packages/hostler-cli/pkg/config/canonical.go:128-163 | said about the input: no alias changes its binding iff every target stays ahead of its alias and no other node of its name comes in between |
| YamlBindings.UniqueBindingsKeptExactly | packages/hostler-cli/pkg/config/canonical.go:128-163 | where every anchor name is given once, iff every target stays ahead of its alias |
| YamlBindings.ParsesExactly | packages/hostler-cli/pkg/config/canonical.go:128-163 | the written text parses iff every alias of the input keeps a node of its name ahead |
| YamlBindings.CheckFiresOnInput | packages/hostler-cli/pkg/config/canonical.go:60-91 | the check fires iff some alias of the input loses all nodes of its name and there is a leaf path |
| Registry.FindConflictsUnique | packages/hostler-cli/pkg/registry/registry.go:273-286 | lists exactly the allocations that clash in value and environment |
| Registry.FindConflictsRange | packages/hostler-cli/pkg/registry/registry.go:290-303 | lists exactly the allocations whose range overlaps |
| Registry.SuggestNextUnique | packages/hostler-cli/pkg/registry/registry.go:312-338 | one above the greatest compatible value, with wrap-around; nothing when there is none |
| Registry.SuggestNextRange | packages/hostler-cli/pkg/registry/registry.go:343-362 | the range of the given size behind the greatest end, with wrap-around |
| Registry.Store.Allocate | packages/hostler-cli/pkg/registry/registry.go:376-462 | answers and updates the registry as decided: refuses exactly on a clash, else appends one allocation and changes nothing else |
| Registry.Store.Check | packages/hostler-cli/pkg/registry/registry.go:465-522 | answers without changing the registry |
| Registry.KindsExactly | packages/hostler-cli/pkg/registry/registry.go:376-462 | only requests for a unique value or a range are supported |
| Registry.ExplicitUniqueExactly | packages/hostler-cli/pkg/registry/registry.go:273-286 | a value that was asked for is refused iff it is taken in the same environment or where one of the two is empty; exactly those allocations are listed |
| Registry.ExplicitRangeExactly | packages/hostler-cli/pkg/registry/registry.go:290-303 | a range that was asked for is refused iff some range starts before its end and ends behind its start; exactly those allocations are listed |
| Registry.OpenUniqueNumber | packages/hostler-cli/pkg/registry/registry.go:312-338 | the value given to a request that leaves it open, on the allocations themselves |
| Registry.OpenRangeNumbers | packages/hostler-cli/pkg/registry/registry.go:343-362 | the bounds given to a request that leaves them open, on the allocations themselves |
| Registry.CheckSuggestsExactly | packages/hostler-cli/pkg/registry/registry.go:465-522 | when `Check` has a suggestion, and that it answers explicit requests as `Allocate` does |
| Registry.RefusedChangesNothing | packages/hostler-cli/pkg/registry/registry.go:376-462 | a request that is not granted leaves the registry as it was |
| Registry.GrantedAsAsked | packages/hostler-cli/pkg/registry/registry.go:395-461 | a granted request adds one allocation with its owner, environment, note and explicit numbers, and leaves other resources alone |
| Registry.RunKeepsApart | packages/hostler-cli/pkg/registry/registry.go:376-462 | any run keeps all allocations of every resource pairwise apart |
| Registry.NoOverlapEver | packages/hostler-cli/pkg/registry/registry.go:273-462 | from an empty registry, no run gives one value to two owners in the same environment or where one has none, or one number to two ranges, even for ranges given backwards |
| Registry.RunOnlyAppends | packages/hostler-cli/pkg/registry/registry.go:446-450 | allocations once made stay, in order |
| Registry.OpenUniqueExactly | packages/hostler-cli/pkg/registry/registry.go:312-338 | a request that leaves the value open is refused iff the greatest value is the largest 64-bit integer and the least one is taken |
| Registry.OpenUniqueIsRefused | packages/hostler-cli/pkg/registry/registry.go:312-338 | a concrete registry that refuses a request for any value |
| Registry.OpenRangeExactly | packages/hostler-cli/pkg/registry/registry.go:343-362 | a request that leaves the bounds open is refused iff the greatest end is the largest 64-bit integer and the wrapped-around range is taken |
| Registry.OpenRangeIsRefused | packages/hostler-cli/pkg/registry/registry.go:343-362 | a concrete registry that refuses a request for any range |
| Registry.OpenRangeIsUsableExactly | packages/hostler-cli/pkg/registry/registry.go:343-425 | a granted open range has the default size, unless its end overflows, and then covers no number |
| Registry.OverflowingRangeIsGranted | packages/hostler-cli/pkg/registry/registry.go:343-425 | a concrete registry that grants a range which runs backwards |
| Registry.CheckForetellsAllocate | packages/hostler-cli/pkg/registry/registry.go:376-522 | on an existing resource `Check` reports a conflict iff the numbers are explicit and `Allocate` would, with the same list; what it suggests is what `Allocate` takes |
| Frontmatter.ParseFrontmatter | packages/hostler-cli/pkg/fileutil/fileutil.go:316-340 | a document that is an opening fence, fenceless YAML, a closing fence, at most one newline and a body means what the YAML library makes of the YAML, with that body; one that cannot be taken apart like this is all body |
| Frontmatter.SplitExactly | packages/hostler-cli/pkg/fileutil/fileutil.go:316-340 | the split yields a YAML part and a body iff the document consists of them and the fences, with no earlier fence; so there is at most one such pair |
| DocumentExamples.SplitWritten | packages/hostler-cli/pkg/fileutil/fileutil.go:316-340 | the two lines of three dashes, the YAML between them and the body behind them |
| DocumentExamples.NoFrontMatter | packages/hostler-cli/pkg/fileutil/fileutil.go:316-329 | a text without these lines is all body |
| DocumentExamples.DatesExactly | packages/hostler-cli/pkg/fileutil/fileutil.go:353-364 | `created`, `started` and `completed` lose their time of day, and no other field |
| DocumentExamples.UpdateWritten | packages/hostler-cli/pkg/fileutil/fileutil.go:288-383 | the whole text of a document after an update |
| DocumentExamples.BrokenYamlStays | packages/hostler-cli/pkg/fileutil/fileutil.go:288-297 | a document whose YAML does not parse is left alone |
| Frontmatter.CoerceDateFields | packages/hostler-cli/pkg/fileutil/fileutil.go:353-364 | exactly the three date fields become plain days |
| Frontmatter.TaskFile.UpdateTaskFrontmatter | packages/hostler-cli/pkg/fileutil/fileutil.go:288-308 | merges the given fields into the document's and writes it back; a document that does not parse is left alone |
| Frontmatter.SplitAssembled | packages/hostler-cli/pkg/fileutil/fileutil.go:316-383 | a dumped document splits into the same YAML and the byte-identical body iff no YAML line starts with three dashes; else the body comes back longer |
| Frontmatter.RoundTripExactly | packages/hostler-cli/pkg/fileutil/fileutil.go:316-383 | fields and body both survive iff the YAML library reads its own output back and emits no such line |
| Frontmatter.UpdatesKeepBody | packages/hostler-cli/pkg/fileutil/fileutil.go:288-308 | any number of updates keeps the body byte for byte and leaves every key with the last value it was given |
| BacklogTable.BacklogFile.UpdateBacklogMD | packages/hostler-cli/pkg/fileutil/fileutil.go:450-553 | inserts one row, in the column order of the first table |
| BacklogTable.BacklogFile.RemoveFromBacklogMD | packages/hostler-cli/pkg/fileutil/fileutil.go:409-441 | drops every line with the marker and no other; without one the file stays as it was |
| BacklogTable.HeaderHasId | packages/hostler-cli/pkg/fileutil/fileutil.go:482-496 | a line taken for a header has an `id` column, in whatever position and letter case |
| BacklogTable.RowHasMarker | packages/hostler-cli/pkg/fileutil/fileutil.go:503-527 | whatever the column order, an added row carries the marker by which it is removed |
| BacklogTable.RowLinesUp | packages/hostler-cli/pkg/fileutil/fileutil.go:503-527 | an added row has at least one cell per column of the header, and exactly one iff no value that a column uses holds a bar; then each cell holds the value its column is named after |
| DocumentExamples.RowWritten | packages/hostler-cli/pkg/fileutil/fileutil.go:498-527 | the row under the columns of a new BACKLOG.md, and that the default row is the same |
| DocumentExamples.HeaderExactly | packages/hostler-cli/pkg/fileutil/fileutil.go:482-486 | a line is a header iff it has a cell `id` with one blank on either side, in any letter case |
| DocumentExamples.ColumnExactly | packages/hostler-cli/pkg/fileutil/fileutil.go:488-492 | a column is named by its cell in lower case, without the white space and asterisks around it |
| DocumentExamples.AddedWritten | packages/hostler-cli/pkg/fileutil/fileutil.go:450-553 | the whole file after an add: the row goes behind the lines of the table and before the next section |
| DocumentExamples.RemovedWritten | packages/hostler-cli/pkg/fileutil/fileutil.go:409-441 | the whole file after a removal |
| BacklogTable.BarTitleAddsCells | packages/hostler-cli/pkg/fileutil/fileutil.go:503-527 | a title with a bar gives the row more cells than the header has columns |
| BacklogTable.Place | packages/hostler-cli/pkg/fileutil/fileutil.go:529-541 | the row goes behind the header, before the next section heading, with no heading in between |
| BacklogTable.AddThenRemoveExactly | packages/hostler-cli/pkg/fileutil/fileutil.go:409-553 | with a table and no line naming the ID, adding then removing restores the lines iff none ends in a carriage return and every line of the row carries the marker |
| BacklogTable.RowRoundTrip | packages/hostler-cli/pkg/fileutil/fileutil.go:409-553 | in particular a row on one line comes out without a trace, for any column order |
| KbIndex.IndexFile.RecountIndex | packages/hostler-cli/pkg/kb/kb.go:421-594 | reads the text, rewrites stale counts by the count pattern, refreshes the first total line, adds the printed rows of the missing files in ascending order, and reports which |
| KbExamples.TotalExactly | packages/hostler-cli/pkg/kb/kb.go:61-63 | what a total line looks like |
| KbExamples.TotalWritten | packages/hostler-cli/pkg/kb/kb.go:493 | the total line that is written |
| KbExamples.TotalPlaced | packages/hostler-cli/pkg/kb/kb.go:492-508 | the first total line is replaced; without one the total comes last, behind an empty line |
| KbExamples.TotalAdds | packages/hostler-cli/pkg/kb/kb.go:456-459 | the total is the sum of all counts |
| KbExamples.PlaceWritten | packages/hostler-cli/pkg/kb/kb.go:518-575 | new rows go behind the last row, without rows behind the first divider, else to the end |
| KbRows.CellsOfPath | packages/hostler-cli/pkg/kb/kb.go:528-533 | a new row names the outermost folder as category, `uncategorized` when there is none, and shows the bare file name |
| KbExamples.NewRowWritten | packages/hostler-cli/pkg/kb/kb.go:528-544 | the row that is printed for a file in a folder, described by its first title or else by its name |
| KbRows.ReadRowFinds | packages/hostler-cli/pkg/kb/kb.go:56-58 | the row pattern has at most one match in a line, and the reader finds it |
| KbExamples.RowExactly | packages/hostler-cli/pkg/kb/kb.go:56-58 | a line is a row for a path with a count iff it is put together from a category, a link and a count with blanks between them |
| KbExamples.CountIsClamped | packages/hostler-cli/pkg/kb/kb.go:483 | a count beyond the 64-bit numbers reads as the largest of them |
| KbRows.RowRewritten | packages/hostler-cli/pkg/kb/kb.go:66 | rewriting keeps the path of every row; the row reads back with the new count iff the scan reaches its own count, and with the old one otherwise |
| KbRows.RowReadsBackExactly | packages/hostler-cli/pkg/kb/kb.go:544 | the printed row of a one-line path reads back with the path and count iff the path holds no `)` and (for a category without a bar) its label is not empty and holds no `]` |
| KbRows.CrookedRowKeepsItsCount | packages/hostler-cli/pkg/kb/kb.go:66 | a concrete row whose own count the scan does not reach |
| KbIndex.SortedStrings | packages/hostler-cli/pkg/kb/kb.go:702-714 | a sorted permutation of its argument, computed in place by exchanges |
| KbIndex.SortedIsListing | packages/hostler-cli/pkg/kb/kb.go:510-527 | the order in which the missing files were collected does not show |
| KbIndex.IndexAgrees | packages/hostler-cli/pkg/kb/kb.go:421-594 | read again when all added names read back: exactly the files that had a row or have cards have one, the first total line is the sum, and every row's count is the scanned count (0 when none) iff every wrong count was reached |
| KbIndex.ReadableHasCount | packages/hostler-cli/pkg/kb/kb.go:421-594 | whatever other names there are, a file whose row could be settled, or that had none and whose name reads back, has a row with the right count |
| KbIndex.SecondRunIsIdleExactly | packages/hostler-cli/pkg/kb/kb.go:421-594 | a second run on the same day changes, updates and adds nothing iff all added names read back and every wrong count was reached; if some name does not read back it changes the file |
| KbIndex.ClosingParenthesisIsAddedAgain | packages/hostler-cli/pkg/kb/kb.go:421-594 | a concrete file name with a closing parenthesis for which the second run adds a row again |
| KbIndex.NewlineIsAddedAgain | packages/hostler-cli/pkg/kb/kb.go:421-594 | a concrete file name with a newline for which the second run adds a row again |
| Ceremony.SprintDocument.EnsureCeremonySections | packages/hostler-cli/pkg/sprint/ceremony_template.go:118-140 | one block is inserted at one place, or nothing changes |
| Ceremony.InsertAt | packages/hostler-cli/pkg/sprint/ceremony_template.go:178-197 | the place is the end or a heading, and no heading lies between it and the anchor |
| CeremonyExamples.AnchorWritten | packages/hostler-cli/pkg/sprint/ceremony_template.go:106-197 | the sections go behind the text below `## Done Criteria` |
| CeremonyExamples.MatchNeedsWord | packages/hostler-cli/pkg/sprint/ceremony_template.go:145-149 | a section pattern matches only where one of its words stands |
| CeremonyExamples.WordMatches | packages/hostler-cli/pkg/sprint/ceremony_template.go:145-149 | each of its words in a heading line makes it match |
| CeremonyExamples.TheWords | packages/hostler-cli/pkg/sprint/ceremony_template.go:145-149 | the words of the three patterns |
| CeremonyExamples.SectionsWritten | packages/hostler-cli/pkg/sprint/ceremony_template.go:118-210 | the whole document that a text without headings becomes |
| CeremonyExamples.PaddingWritten | packages/hostler-cli/pkg/sprint/ceremony_template.go:199-210 | enough newlines for one empty line |
| Ceremony.StillMatches | packages/hostler-cli/pkg/sprint/ceremony_template.go:145-149 | inserting at a heading or at the end destroys no pattern match, even one that spans the place |
| Ceremony.AllSectionsPresent | packages/hostler-cli/pkg/sprint/ceremony_template.go:118-210 | afterwards all three section patterns match, with and without the anchor |
| Ceremony.EnsuredTwice | packages/hostler-cli/pkg/sprint/ceremony_template.go:118-140 | a second call changes nothing |
| Ceremony.InsertOnly | packages/hostler-cli/pkg/sprint/ceremony_template.go:118-210 | the original is the new text with one block taken out: at most two newlines and the missing templates |
| SprintIds.NextAvailableSprintID | packages/hostler-cli/pkg/sprint/multiworktree.go:124-155 | answers as computed on 64-bit integers for the order in which the map yields its keys and the largest capacity that `make` grants, including the panics and the endless loop |
| SprintIds.RightExactly | packages/hostler-cli/pkg/sprint/multiworktree.go:124-155 | for every order of the map the answer is the ID of the least number from the start on whose ID is free, iff neither the base nor an occupied ID carries one of the two largest 64-bit numbers and the candidates up to the farthest ID do not exceed the capacity that `make` grants |
| SprintIds.WrappedBaseHangs | packages/hostler-cli/pkg/sprint/multiworktree.go:124-155 | a base and an occupied ID for which the search never ends |
| SprintIds.NextIsUnique | packages/hostler-cli/pkg/sprint/multiworktree.go:124-155 | only the set of occupied IDs and the base decide the answer |
| SprintIds.NumberExactly | packages/hostler-cli/pkg/sprint/multiworktree.go:36 | which IDs carry a number, and which ID a number has |
| SprintIds.NextWritten | packages/hostler-cli/pkg/sprint/multiworktree.go:124-155 | where the search starts, and that an occupied ID is passed over |
| Decimal.Itoa | packages/hostler-cli/pkg/rules/samples_commit.go:274-295 | never indexes outside its 20 bytes and prints every 64-bit integer but the least as its decimal text |
| Decimal.IntRoundTrip | packages/hostler-cli/pkg/rules/samples_commit.go:274-295 | decimal text reads back as the number and has no leading zero |
| Decimal.DigitsWritten | packages/hostler-cli/pkg/rules/samples_commit.go:274-295 | decimal notation digit by digit |
| Decimal.WrapExactly | packages/hostler-cli/pkg/rules/samples_commit.go:274-295 | 64-bit arithmetic keeps the remainder by two to the 64th |

## Left out

- RuleCascade.ResolveEffective: a URI is a key of a map of configs; reading files, embedded presets and `baseDir` are not modelled. Letter case and white space are ASCII.
- BacklogSync.Workspace.Sync: task IDs are unique and a BACKLOG.md row names one of them; every write succeeds, and git, SQLite and the file system are maps; duplicate-ID issues, sprint goals and timestamps from git are not modelled.
- BacklogConvergence.TwoPassesConverge: the listing of BACKLOG.md is a set of IDs; `BacklogText` proves the same on the text for tidy files into which every task of works/tasks/ fits, and `BacklogRows` says what happens elsewhere.
- BacklogSync.Workspace.ApplyFixes: the rebuilding of the summary of BACKLOG.md (date, count, sprint table) and the repairs of that table are not modelled.
- BacklogSync.Workspace.FixSprintIssue: the repairs of `applySprintMetadataFix` and `applySprintInsert` on the columns that detection looks at.
- AuditCanonical.CanonicalValue: strings are sequences of valid Unicode characters; the `%v` texts of floats and of unlisted types are parameters.
- AuditChain.HeadPinsHistory: SHA-256 is any function into non-empty lower-case hex text.
- PresetMerge.MergeMaps: nested maps are values, so sharing of a nested map between the result and a source layer is not modelled.
- PresetCompose.Resolver.ResolveExtends: presets load from a map; a nil result is the empty layer.
- YamlTree.WalkLeafKeys: printing and parsing are not modelled; written text is taken to hold the nodes in document order with their anchors, and an alias to be bound to the last node before it that has its name. Comments and styles are left out.
- Registry.Store.Allocate: loading, saving, the mutex and the conflict message are not modelled.
- Frontmatter.ParseFrontmatter: the YAML library is a pair of functions; reading and writing the file always succeed.
- BacklogTable.BacklogFile.UpdateBacklogMD: creating a missing BACKLOG.md and the scanner's limit on the length of a line are not modelled; letter case and white space are ASCII.
- KbIndex.IndexFile.RecountIndex: scanning the cards is a parameter, with titles on one line; the sum of the counts is unbounded; the recount starts from an existing INDEX.md.
- Ceremony.SprintDocument.EnsureCeremonySections: the three template texts are parameters that end in a newline; their wording is not part of this model.
- SprintIds.NextAvailableSprintID: the largest capacity is a parameter; running out of memory below it is not modelled.
- Ports, adapters, renderers, hooks, secret scanners and SQL text: wrappers, patterns and external processes.
- `pkg/kb` card numbering, `pkg/sprint` status checks and `SchemaVersion`: settled by reading one function.
