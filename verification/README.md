# Decision engines of the flood-ensemble toolkit, modelled and proved

This project models the small decision engines of the repository: the layout-version gate that
walks commit histories, the coverage check of the HPC profile page, the generator of the type-checker
override table, the report scrubber, the documentation gate's line filters and line claims, the
per-scenario reclaim protocol, the status-flag grammar, the disk-usage call-site lint, and the
type closure behind the configuration reference. Git, YAML, pydantic and the file system are values
here: a commit graph, parsed rows, schema and document trees, a map of scenario directories.

Check everything with `dafny verify dfyconfig.toml`.

## Files

| file | what it models |
|---|---|
| `GlobRegex.dfy` | the glob compiler, its regular expressions and a direct glob semantics |
| `Allowlist.dfy` | the append-log of exemption rows and its fold |
| `LayoutGate.dfy` | the commit graph, the file scan, Check B's walk over a push, Check A's version step |
| `PendingVenue.dfy` | both checks on a change that is still in the worktree, against the push of that change |
| `Stamp.dfy`, `Lines.dfy` | the `--stamp` append as text, a reader of the manifest, Python's line splitting |
| `ProfileWalk.dfy`, `ProfileReport.dfy` | the recursive coverage walk, and the location language of validation errors |
| `OverrideTable.dfy`, `OverrideBuild.dfy`, `Text.dfy` | rendering, splicing and reading the table; the fixpoint loop; substring search |
| `Scrubber.dfy` | rule 1 as a leftmost substitution, its counter, and the line and manifest walks |
| `FencedPages.dfy` | fence-toggling line filters, exemption markers, the two scans |
| `LineClaims.dfy` | narrowest-claim painting of nested line ranges |
| `Reclaim.dfy` | reclaim, sentinel and flag as a state machine with crashes; the fallback loop; totals |
| `StatusFlags.dfy` | flag builders, the regular-expression inverse, the split-based parser |
| `SiteVisitor.dfy` | the syntax-tree visitor and the lint of its exemption comments |
| `TypeClosure.dfy` | the worklist over annotation trees |
| `Wrappers.dfy` | Option and Result |

Code that changes things step by step is a method or a class with a specification function beside
it; the theorems are lemmas about those functions. Lemmas named `…Exactly` say what such a function means
in terms of its arguments alone. Code made of expressions is functions.

## Where the code and its own text disagree

The model follows the code. These are the places found where the code does not do what a comment,
docstring or message says, each with a lemma that gives the input or the exact condition.

- A merge that takes its version from another parent is skipped by Check B's walk as "check-a covers
  this commit", and Check A answers "unchanged" for it, so an edit of a governed file made in that merge
  is neither signed nor migrated (`LayoutGate.UnsignedChangeRidesMerge`); `LayoutGate.GradedChangeIsAnswered`
  says that these merges are the only gap.
- The push hooks grade only the tip with Check A, while the walk leaves every bump in the range to it:
  a bump without its migration passes both when another commit is on top of it
  (`LayoutGate.BuriedBumpIsPushed`). Wherever a change stands in a pushed range, it is signed or shipped with
  its bump iff it is signed or its commit passes Check A without inheriting its version
  (`LayoutGate.PushCoversExactly`).
- Raising the version, the first remedy the slug message offers, stops the slug comparison for the
  pending change but not for its push, merges included (`PendingVenue.VenuesAgree`, `PendingVenue.BumpStopsAtPush`).
- `--stamp` records a justification as given only when its line breaks are all newlines
  (`Stamp.JustificationExactly`). When the manifest spells the allowlist key only in quotes it writes a second
  key, which replaces the old rows: the rows survive a stamp iff the key is spelled plainly or there were none
  (`Stamp.RowsKeptExactly`), and a stamp can go through and drop a path that resolved (`Stamp.QuotedKeyLosesRows`).
- A table regenerated from a stale file can hold pairs nothing needs, and the script's own `--check` then
  calls the fresh file stale (`OverrideBuild.StaleTableLeaks`, `OverrideBuild.CheckAfterWrite`). A write to a file
  with an end marker but no start marker leaves a file that the next run refuses (`OverrideBuild.CheckAfterWrite`).
- The profile check drops an unknown-key error when its location reads like that of an unknown key the walk
  reached. Without dots in keys and field names that is "only that key"; with a dot in a key an error is
  dropped for a place nothing else reports (`ProfileReport.DroppedExactly`, `ProfileReport.DottedKeyHidesError`).
- The builders accept a member id with the event delimiter in it, and then two sims share one flag
  (`StatusFlags.DelimiterInMemberCollides`); flags coincide iff the boundary between the ids is moved from one
  event delimiter to another (`StatusFlags.FlagsCoincideExactly`).
- A plain flag stops the listing of completed sims with an error iff its event id holds the member delimiter
  and no event delimiter after it (`StatusFlags.PlainFlagStopsParser`, `StatusFlags.StoppingEvent`).
- The reclaim fallback is a no-op iff every unflagged event with summaries is already down to what its
  elected classes keep, not on every multisim path (`Reclaim.FallbackNoOp`, `Reclaim.WaitingIsReclaimed`), and
  it leaves a sentinel that was exact off by the truncated bytes less the captured ones (`Reclaim.ReclaimDrift`,
  `Reclaim.TruncationDrifts`).
- A flag stands for an exact sentinel when no fallback deletion is still to be accounted at the sentinel's
  writing (`Reclaim.FlagMeansReclaimed`). When one is, and its accounting arrives later, the outcome depends on
  whether the fallback had read the sentinel by then: if not, the flag ends over a wrong total iff bytes were
  freed and some are left on disk (`Reclaim.LateAccounting`, `Reclaim.OvertakenArm`); if so, iff it read a
  total which less what it freed is not that on disk (`Reclaim.StaleReading`), and it can come out right
  (`Reclaim.ReadInTime`).
- Mutations directly in a class body, a match case, an `async for` or a `try*` are not checked, and the
  exempt comment on one is reported as orphaned (`SiteVisitor.EachSiteOnce`, `SiteVisitor.OrphanExactly`,
  `SiteVisitor.ClassBodyIsMissed`).
- A fenced example of a marker is masked iff the lines between its two fences hold an even number of
  fence lines and show nothing between them; an example that itself shows a fence grants what it shows
  (`FencedPages.BlockIsInvisible`, `FencedPages.NestedFenceGrants`).
- Only the first visible declaration of a marker is looked at; a later one may name anything
  (`FencedPages.ExemptExactly`).

## Model

| member | source | states |
|---|---|---|
| GlobRegex.GlobToRegex | scripts/check_layout_version.py:357-387 | the index loop returns the pattern text, and that text reads as the compiled glob |
| GlobRegex.PatternReadsBack | scripts/check_layout_version.py:357-387 | the emitted text, read as a regular expression, is the compiled one: escaping makes it unambiguous for every glob |
| GlobRegex.EscapedCharacters | scripts/check_layout_version.py:357-387 | the escaped characters, by their codes |
| GlobRegex.GlobMatchCorrect | scripts/check_layout_version.py:357-392 | for every glob and every path, full match of the compiled expression equals a direct recursive reading of the glob |
| GlobRegex.DepthIsFixed | scripts/check_layout_version.py:390-392 | a glob without `**` matches only paths with as many slashes as it has |
| GlobRegex.LiteralPrefix | scripts/check_layout_version.py:357-392 | literal text in front of a glob is matched by itself and nothing else |
| GlobRegex.AnyDepthBelow | scripts/check_layout_version.py:357-387 | `dir/**/tail` matches what `tail` matches directly under `dir` and any number of directories down |
| Allowlist.LoadAllowlist | scripts/check_layout_version.py:404-491 | the dictionary updated row by row gives the specified verdict, each bad row refused where it stands |
| Allowlist.LegalExactly | scripts/check_layout_version.py:424-462 | a row is taken iff it is a bare string, or a mapping of the three known keys with an indexable path, a written justification and a signature that is text, null or absent |
| Allowlist.RefusalExactly | scripts/check_layout_version.py:424-462 | which of its reasons a bad row is refused for, in their order |
| Allowlist.FoldIsLastSetter | scripts/check_layout_version.py:422-468 | a path holds the signature of its last signature row unless a bare-string row comes after it |
| Allowlist.UnscopedAreUnresolved | scripts/check_layout_version.py:477-491 | the paths a refusal lists are exactly the named paths that do not resolve |
| Allowlist.LoadCorrect | scripts/check_layout_version.py:404-491 | loading succeeds iff all rows are legal and every named path resolves; the table then is the last-setter reading |
| Allowlist.StampChangesOnePath | scripts/check_layout_version.py:465-468 | appending one signature row re-points its path and leaves every other entry alone |
| Allowlist.StampRepairs | scripts/check_layout_version.py:477-491 | one signature row makes a log of legal rows loadable iff no other path was unresolved |
| Allowlist.MappingRowInherits | scripts/check_layout_version.py:465-468 | a mapping row without a signature keeps the path's signature |
| Allowlist.BareStringClears | scripts/check_layout_version.py:424-426 | a bare-string row clears it and the log is refused, naming just that path |
| LayoutGate.ScanChangedFiles | scripts/check_layout_version.py:612-662 | refuses iff a changed path has a row without a signature, else returns, in order, the changed paths that the sentinel file lists or one of its globs reads and that no row signs with the hash they have |
| LayoutGate.HitsExactly | scripts/check_layout_version.py:612-662 | a path is reported iff it is changed, no row of it carries its hash, and it is listed or some glob matches it by the direct reading |
| LayoutGate.HitsInOrder | scripts/check_layout_version.py:612-662 | reports follow the change set, each path as often as it is in it |
| LayoutGate.ListChangedFiles | scripts/check_layout_version.py:243-291 | drops rename and copy lines and keeps the last field of the others |
| LayoutGate.ChangedFilesExactly | scripts/check_layout_version.py:243-291 | the change set is the last path of each line whose status starts with neither R nor C, line by line |
| LayoutGate.RevListExactly | scripts/check_layout_version.py:539-556 | the graded commits are what the new tip has and neither the old tip nor a remote has, ancestors first |
| LayoutGate.ReachExactly | scripts/check_layout_version.py:539-556 | a commit's ancestors are what the chains of parents from it lead to |
| LayoutGate.GradeCommit | scripts/check_layout_version.py:963-990 | on a table that loaded the tripwire cannot fire: the round returns the commit's hits |
| LayoutGate.WalkCommits | scripts/check_layout_version.py:963-990 | the walk collects the failing commits with their hits, oldest first |
| LayoutGate.FailuresExactly | scripts/check_layout_version.py:963-990 | the walk reports exactly the commits with a parent they do not outgrow and an unsigned listed change to a relevant path, each with just those paths |
| LayoutGate.FailuresInOrder | scripts/check_layout_version.py:963-990 | in the order of grading |
| LayoutGate.SlugDriftExactly | scripts/check_layout_version.py:992-1010 | the slug drifts iff no row has its very key and both ends have slug hashes that differ |
| LayoutGate.CheckBRange | scripts/check_layout_version.py:907-1022 | refused iff the rules do not load, else the failures of the range and the slug drift between its ends |
| LayoutGate.WalkPasses | scripts/check_layout_version.py:963-990 | the walk reports no file iff every graded commit that raises no version signs each governed path git lists |
| LayoutGate.CleanLink | scripts/check_layout_version.py:963-990 | under a clean walk a link of a chain without bumps keeps an unmoved path's entry or lands on its signed content |
| LayoutGate.PassingChainChangesOnce | scripts/check_layout_version.py:907-1022 | on a passing first-parent chain without bumps an unmoved governed path changes content at most once, to the content its last setter row signed, and is never deleted |
| LayoutGate.SignedStepsSettle | scripts/check_layout_version.py:640-658 | steps that keep the entry or land on the one signed content add up to at most one change |
| LayoutGate.PushesGradeOnce | scripts/check_layout_version.py:539-556 | of consecutive fast-forward pushes exactly one brings a given commit; that push and no other grades it, unless the remote it names had the commit already |
| LayoutGate.BranchIsAnswered | scripts/check_layout_version.py:907-1022 | when every push of a fast-forward history was clean under its own rules, each commit the branch gained answers for its changes under the rules of the push that brought it, unless the remote had it already |
| LayoutGate.HighestBase | scripts/check_layout_version.py:704-706 | the base is an upper bound of the parents' versions and is one of them or the given base |
| LayoutGate.CheckAExactly | scripts/check_layout_version.py:699-764 | each of Check A's verdicts by its own condition on the version, the highest base, the modules and the fixtures |
| LayoutGate.GatedStep | scripts/check_layout_version.py:699-764 | in a graph where every commit passes Check A, versions never fall along an edge and rise by at most one over the highest parent, and then the migration and both fixtures are there |
| LayoutGate.VersionsGrow | scripts/check_layout_version.py:699-764 | no ancestor has a higher version |
| LayoutGate.EveryVersionWasIntroduced | scripts/check_layout_version.py:699-764 | every version up to a commit's own and above its roots was introduced by an ancestor that carries the migration module and both fixtures |
| LayoutGate.SkippedBumpShips | scripts/check_layout_version.py:969-980 | a commit the walk skips for its bump ships the migration itself iff it outgrows every parent |
| LayoutGate.GradedChangeIsAnswered | scripts/check_layout_version.py:963-990 | a listed governed change that is not signed ships with its migration there iff the commit is no merge that took its version from another parent; in that case an ancestor outside the first parent introduced it |
| LayoutGate.UnsignedChangeRidesMerge | scripts/check_layout_version.py:665-706 | a gated history whose push passes both hooks although its merge changes a governed file unsigned and unmigrated |
| LayoutGate.ShippedExactly | scripts/check_layout_version.py:665-764 | a commit that outgrows its first parent ships its own bump of one iff it passes Check A and took its version from no other parent |
| LayoutGate.PushCoversExactly | scripts/check_layout_version.py:907-1022 | under a clean walk of a push a listed governed change, anywhere in the range, is signed or shipped with its bump iff it is signed or its commit passes Check A without inheriting its version |
| LayoutGate.TipIsCovered | scripts/check_layout_version.py:907-1022 | on the tip, which Check A grades, that leaves out only merges that inherit their version |
| LayoutGate.BuriedBumpIsPushed | scripts/check_layout_version.py:965-980 | a history whose unmigrated bump passes both push hooks under one more commit, and fails alone |
| PendingVenue.CheckB | scripts/check_layout_version.py:767-888 | the pending verdict, stand-down first; it passes iff the worktree is above HEAD and differs from the base, or the rules load, no listed governed change is unsigned and the slug has not drifted |
| PendingVenue.PendingExactly | scripts/check_layout_version.py:841-888 | the same of the verdict as a function, for every HEAD and base |
| PendingVenue.LandedBumpIsScanned | scripts/check_layout_version.py:832-846 | a worktree no higher than HEAD gets the scan's answer, whatever the base: a bump that has landed excuses nothing |
| PendingVenue.PendingStepExactly | scripts/check_layout_version.py:699-764 | Check A on a pending change against the highest version among the base and the merge heads |
| PendingVenue.DisarmHandsOver | scripts/check_layout_version.py:841-846 | when Check B stands down outside a merge Check A passes iff a bump of one ships; in a merge it answers "unchanged" iff the worktree holds the highest parent version |
| PendingVenue.SameStep | scripts/check_layout_version.py:699-764 | Check A answers for the commit made of a pending change, merge or not, what it answered for the change |
| PendingVenue.CommitHookGates | scripts/check_layout_version.py:699-764 | a graph is one in which every commit passes Check A iff each commit with a parent passed it while pending on its first parent |
| PendingVenue.VenuesAgree | scripts/check_layout_version.py:767-1022 | pushing a change, merge or not and with or without a remote, passes iff it passed while pending, a bump has a loadable allowlist and an undrifted or exempt slug, and the other commits it brings answer for themselves |
| PendingVenue.PlainCommitAgrees | scripts/check_layout_version.py:767-1022 | a change that is no merge brings no other commits, so the first two decide |
| PendingVenue.BumpStopsAtPush | scripts/check_layout_version.py:841-846 | a shipped bump that both checks pass while pending, and whose push fails on the slug |
| Lines.SplitAfterNewline | scripts/check_layout_version.py:1120-1143 | after a newline the lines start afresh, so appending to a terminated text leaves its lines alone |
| Lines.SplitTerminated | scripts/check_layout_version.py:1139 | ending a text with a newline adds no line unless it was empty or ended in a break of another kind |
| Lines.JoinSplitExactly | scripts/check_layout_version.py:1101-1106 | splitting into lines and joining with newlines gives a text back iff its only breaks are newlines |
| Lines.StripExactly | scripts/check_layout_version.py:1253 | stripping takes white space off both ends and leaves none there |
| Lines.WhiteSpace | scripts/check_layout_version.py:1253 | which characters are white space, code point by code point |
| Stamp.Repo.StampAllowlistRow | scripts/check_layout_version.py:1146-1275 | either the candidate is written or, for the first predicate that fails, its refusal is returned and nothing is written |
| Stamp.RefusalsExactly | scripts/check_layout_version.py:1146-1250 | each refusal that precedes the rendering by its own condition, in the order of the checks |
| Stamp.WrittenExactly | scripts/check_layout_version.py:1120-1143 | the text that is written: the old one ended by a newline, an empty line and a key line if none is spelled so, and the row |
| Stamp.RowTextExactly | scripts/check_layout_version.py:1076-1117 | the text of a row, field by field, with the justification's lines behind six spaces |
| Stamp.TopLevelKeyExactly | scripts/check_layout_version.py:1059-1073 | which lines open a key, and which key |
| Stamp.SectionIsLastKey | scripts/check_layout_version.py:1059-1073 | the reader is in the section of the last top-level key, and has rows only if some key names the allowlist |
| Stamp.StampLinesMakeARow | scripts/check_layout_version.py:1076-1117 | fed to the reader inside the allowlist, the rendered lines add exactly one row |
| Stamp.CandidateReads | scripts/check_layout_version.py:1120-1143 | the candidate reads as the ended old text, in the allowlist section, followed by the row |
| Stamp.StampAppends | scripts/check_layout_version.py:1239-1275 | a stamp that goes through keeps the old text as a prefix and adds one row behind the section's rows |
| Stamp.LiteralReadsBack | scripts/check_layout_version.py:1076-1117 | as a literal scalar with strip chomping (sections 8.1.2 and 8.1.1.2 of YAML 1.2.2) the written lines read back as what was recorded, for every stripped text YAML admits (section 5.1), and not at all otherwise |
| Stamp.JustificationExactly | scripts/check_layout_version.py:1101-1106 | what is recorded is the text given iff its only line breaks are newlines |
| Stamp.RowReadsBack | scripts/check_layout_version.py:1076-1117 | the row reads back with its path, signature and recorded justification if YAML admits the justification, and as no such row otherwise |
| Stamp.InadmissibleIsRefused | scripts/check_layout_version.py:1249-1258 | a stamp whose justification YAML does not admit writes nothing |
| Stamp.StampTakesEffect | scripts/check_layout_version.py:1239-1275 | after a stamp on a manifest that loads the target resolves to the recorded hash; every other entry is as it was iff some key spells the allowlist plainly or there was no other entry, and else all are gone |
| Stamp.RowsKeptExactly | scripts/check_layout_version.py:1138-1142 | the rows read from the written text are the old text's rows and the new one iff some key spells the allowlist plainly or the old text had none; else the new row is alone and a key spelled differently had named the allowlist |
| Stamp.QuotedKeyLosesRows | scripts/check_layout_version.py:1138-1142 | a manifest that loads and resolves a path, and a stamp of another path that goes through and leaves the first without an entry |
| ProfileWalk.InnerShrinks | scripts/check_hpc_profile_currency.py:185-212 | each descent through a carried field loses height, which is why the walk ends on every schema |
| ProfileWalk.NestedExactly | scripts/check_hpc_profile_currency.py:85-132 | an annotation is classified as a model behind containers iff its shape holds one there: dictionaries and lists step by step, a union only through its one member that is not `None` |
| ProfileWalk.OptionalIsTransparent | scripts/check_hpc_profile_currency.py:109-114 | an optional type is classified as the type itself, in either order, and a union of two other types as nothing |
| ProfileWalk.WalkModel | scripts/check_hpc_profile_currency.py:166-218 | the loops and the recursion produce the specified findings and count, which WalkExact, MissingBehindField and CheckedExactly characterise |
| ProfileWalk.MissingBehindField | scripts/check_hpc_profile_currency.py:166-218 | a field missing from a model behind another field's containers, `None` alternatives included, is reported there with a star for each |
| ProfileWalk.OptionalIsWalked | scripts/check_hpc_profile_currency.py:109-114 | a page that shows an optional model empty, the one finding, and the count of two |
| ProfileWalk.CheckedExactly | scripts/check_hpc_profile_currency.py:166-218 | the count is the number of fields at reached levels, each once however many instances there are |
| ProfileWalk.InnerExactly | scripts/check_hpc_profile_currency.py:198-210 | the mappings one level down are exactly those behind the containers of the field's values |
| ProfileWalk.ForeignKeys | scripts/check_hpc_profile_currency.py:212-217 | the keys outside the model, mapping by mapping |
| ProfileWalk.OpenLevels | scripts/check_hpc_profile_currency.py:198-205 | opens exactly the containers the annotation declares |
| ProfileWalk.WalkSound | scripts/check_hpc_profile_currency.py:166-218 | every finding is a missing field or a foreign key of some reached level |
| ProfileWalk.WalkComplete | scripts/check_hpc_profile_currency.py:166-218 | every missing field and every foreign key of a reached level is found |
| ProfileWalk.WalkExact | scripts/check_hpc_profile_currency.py:166-218 | the findings are exactly those, whatever the schema |
| ProfileWalk.CleanWalk | scripts/check_hpc_profile_currency.py:166-218 | no findings iff every unrolled schema path is carried and no reached mapping has a key outside its model |
| ProfileWalk.ReachedIsShort | scripts/check_hpc_profile_currency.py:166-218 | a path of carried fields is no longer than the document is tall |
| ProfileWalk.RecursiveNeverClean | scripts/check_hpc_profile_currency.py:166-218 | a recursive schema always yields an absent-field finding |
| ProfileReport.WalkLocation | scripts/check_hpc_profile_currency.py:134-163 | the loop renders a location as the dotted, starred parts |
| ProfileReport.RenderSegment | scripts/check_hpc_profile_currency.py:146-162 | one round uses up the segment and one more per container, as far as there are any |
| ProfileReport.FollowIsVisited | scripts/check_hpc_profile_currency.py:134-217 | along a concrete location the rendering equals the prefix the walk builds, and the mapping found there is one the walk visits |
| ProfileReport.PartsDescend | scripts/check_hpc_profile_currency.py:134-163 | rendering through a nested field is the walk's sub-prefix and the rendering of the rest |
| ProfileReport.PartsAlign | scripts/check_hpc_profile_currency.py:134-163 | every segment renders to one part, itself or a star; the first to itself |
| ProfileReport.PartsInside | scripts/check_hpc_profile_currency.py:134-163 | the segments behind a nested field's name are stars as far as its containers go |
| ProfileReport.PartsOutside | scripts/check_hpc_profile_currency.py:134-163 | from the first segment on that names no nested field a location renders as it is |
| ProfileReport.DecimalReads | scripts/check_hpc_profile_currency.py:134-163 | an index renders as its decimal digits |
| ProfileReport.CheckProfile | scripts/check_hpc_profile_currency.py:250-275 | the walk's findings, then one report per validation error that is not dropped |
| ProfileReport.NoErrorLost | scripts/check_hpc_profile_currency.py:250-275 | the location of every unknown-key error and every other error is in the report |
| ProfileReport.CurrentExactly | scripts/check_hpc_profile_currency.py:250-275 | the report is empty iff everything is shown, nothing is foreign and validation finds no error |
| ProfileReport.ReachedErrorDropped | scripts/check_hpc_profile_currency.py:259-266 | an unknown-key error at a level the walk reached is dropped |
| ProfileReport.DroppedExactly | scripts/check_hpc_profile_currency.py:250-275 | an unknown-key error is dropped iff its rendered location is that of an unknown key at a reached level, as text; without dots in keys and field names iff it is that place part by part |
| ProfileReport.DottedKeyHidesError | scripts/check_hpc_profile_currency.py:259-266 | a profile with a dotted unknown key at the top and an unknown key inside a field that holds no model: the second key's error is dropped although the walk reported nothing at its place |
| OverrideTable.SortedHolds | scripts/generate_ty_overrides.py:104-111 | sorting lists exactly the set, ascending, without repetition |
| OverrideTable.LessExactly | scripts/generate_ty_overrides.py:104-112 | the order is that of Python strings |
| OverrideTable.TwoFilesRendered | scripts/generate_ty_overrides.py:89-114 | two files in order, each with its block, literally |
| OverrideTable.TwoRulesRendered | scripts/generate_ty_overrides.py:104-112 | two rules of one file in one block, in order, literally |
| OverrideTable.RenderReadsBack | scripts/generate_ty_overrides.py:89-114 | the rendered region below any text without a marker reads back as exactly the table |
| OverrideTable.SpliceKeepsAbove | scripts/generate_ty_overrides.py:117-120 | everything above the first marker survives up to trailing line feeds |
| OverrideTable.SpliceExactly | scripts/generate_ty_overrides.py:117-120 | the text in front of the first marker less its line feeds, one empty line, and the region |
| OverrideTable.SpliceLastWins | scripts/generate_ty_overrides.py:117-120 | splicing a second region over a first is splicing the second directly |
| OverrideTable.SplicedTable | scripts/generate_ty_overrides.py:89-120 | after a splice the type checker reads exactly the spliced table |
| OverrideBuild.Project.Build | scripts/generate_ty_overrides.py:123-136 | for every checker and file: returns the rendered table of the loop on the file's text with its pass count, or gives up after ten passes, and puts the file's text back either way |
| OverrideBuild.Project.Generate | scripts/generate_ty_overrides.py:139-220 | for every checker and file: refuses iff something is written below the first end marker; else `--check` passes iff the file is the splice of the built table's rendering into itself, and a write leaves that splice; nothing else is changed |
| OverrideBuild.AnswerExactly | scripts/generate_ty_overrides.py:139-220 | each outcome of the command by its own condition on the file |
| OverrideBuild.CheckAfterWrite | scripts/generate_ty_overrides.py:204-220 | after a write `--check` answers current iff the first pass over the old file saw only pairs of the least closed table, unless an end marker above the region or in a path of it makes the file one the command refuses |
| OverrideBuild.BuiltOnIsBuilt | scripts/generate_ty_overrides.py:89-136 | rendering, splicing and running the type checker on the file is the same loop on tables |
| OverrideBuild.AccumulatedGrows | scripts/generate_ty_overrides.py:128-133 | the table grows strictly on every pass until it is closed |
| OverrideBuild.BuiltIsClosed | scripts/generate_ty_overrides.py:123-136 | when the build returns, nothing fires outside its table |
| OverrideBuild.BuiltIsLeast | scripts/generate_ty_overrides.py:123-136 | the result is the least closed table iff the first pass, over the file's old table, saw only pairs of it |
| OverrideBuild.GoodStarts | scripts/generate_ty_overrides.py:123-136 | a green start or one inside the least closed table gives that table |
| OverrideBuild.LeastTableExists | scripts/generate_ty_overrides.py:123-136 | if any table is closed there is a least closed one, and passes from nothing come to it |
| OverrideBuild.SecondRunIsLeast | scripts/generate_ty_overrides.py:123-136 | over the result of a build nothing fires, and a build that starts so gives the least closed table |
| OverrideBuild.FreshFileIsCurrent | scripts/generate_ty_overrides.py:204-220 | a freshly written file passes `--check` iff the first pass over the old file saw only pairs of the least closed table; a second write settles it |
| OverrideBuild.FailureNeedsManyPairs | scripts/generate_ty_overrides.py:123-136 | giving up needs closed tables with at least nine pairs beyond the first pass |
| OverrideBuild.StaleTableLeaks | scripts/generate_ty_overrides.py:123-136 | a checker and a stale table from which the result is closed but not least |
| Scrubber.Rules.Apply | scripts/prepare_example_report.py:104-110 | the left-to-right scan substitutes as specified and adds the count of rewritten segments |
| Scrubber.MatchExactly | scripts/prepare_example_report.py:46-48 | a match is one of the three roots and the longest nonempty run of segment characters behind it |
| Scrubber.SegmentCharExactly | scripts/prepare_example_report.py:46-48 | which characters end a segment |
| Scrubber.FirstMatchScrubbed | scripts/prepare_example_report.py:104-110 | the leftmost match is rewritten, counted unless generic, and the rule goes on behind it |
| Scrubber.NothingToScrub | scripts/prepare_example_report.py:104-110 | without a match nothing changes or counts |
| Scrubber.NoNewMatch | scripts/prepare_example_report.py:46-48 | rewriting creates no match where there was none |
| Scrubber.ScrubbedCountsZero | scripts/prepare_example_report.py:65-67 | after rule 1 the counter finds nothing, for every text, nested roots included |
| Scrubber.ScrubbedIsClean | scripts/prepare_example_report.py:104-110 | after rule 1 no position of the text starts a private segment |
| Scrubber.ScrubIsIdempotent | scripts/prepare_example_report.py:104-110 | rule 1 twice is rule 1 once |
| Scrubber.CountsZeroIffClean | scripts/prepare_example_report.py:65-67 | the non-overlapping count is zero iff no private segment follows a root anywhere, overlaps included |
| Scrubber.UntouchedIffClean | scripts/prepare_example_report.py:104-110 | rule 1 leaves a text as it is iff it is clean |
| Scrubber.FrameKept | scripts/prepare_example_report.py:104-110 | everything outside the matched segments is kept, in place |
| Scrubber.ScrubSplitsAtNewline | scripts/prepare_example_report.py:137-149 | scrubbing and counting distribute over a line feed |
| Scrubber.LineByLine | scripts/prepare_example_report.py:137-149 | line by line gives what the joined text gives |
| Scrubber.OnlyManifestLineCanRefuse | scripts/prepare_example_report.py:137-149 | the outer page is refused iff its re-assembled manifest line holds a private segment |
| Scrubber.Rules.Walk | scripts/prepare_example_report.py:116-123 | rebuilds a manifest value with the rule on every string, keys included, and adds its count |
| Scrubber.LastEntryWins | scripts/prepare_example_report.py:116-123 | under a key stands the walked value of the last entry whose key is scrubbed to it |
| Scrubber.EntriesInPlace | scripts/prepare_example_report.py:116-123 | an object whose scrubbed keys differ is walked entry by entry, in place |
| Scrubber.ItemsInPlace | scripts/prepare_example_report.py:116-123 | an array is walked item by item, in place |
| Scrubber.ValueZeroIffClean | scripts/prepare_example_report.py:116-123 | a value counts zero iff every string in it, keys included, is clean |
| Scrubber.Rules.ScrubLines | scripts/prepare_example_report.py:137-139 | every line but the manifest's is rewritten in place and counted |
| Scrubber.WalkedCountsZero | scripts/prepare_example_report.py:116-123 | a walked value counts zero, also when scrubbed keys collide |
| FencedPages.FilterLines | scripts/check_docs_content.py:489-530 | the three line filters yield their lines with numbers |
| FencedPages.KeptExactly | scripts/check_docs_content.py:489-530 | which lines each filter yields, by the number of fences in front of them |
| FencedPages.KeptInOrder | scripts/check_docs_content.py:489-530 | in page order |
| FencedPages.FirstDeclaredExactly | scripts/check_docs_content.py:332-393 | the declaration that counts is the first on a line that names the marker |
| FencedPages.RefusalExactly | scripts/check_docs_content.py:332-424 | why a page is refused: a misplaced declaration first, else the first bad marker in order |
| FencedPages.ForeignExactly | scripts/check_docs_content.py:396-424 | which declaration is the first misplaced one |
| FencedPages.BinaryExactly | scripts/check_docs_content.py:533-560 | the placeholder and citation findings of a page, read off its lines |
| FencedPages.ProseExactly | scripts/check_docs_content.py:575-592 | the punctuation findings on unfenced lines and fenced comments and the banned words on every line |
| FencedPages.AdvisoryExactly | scripts/check_docs_content.py:744-767 | the advisory findings, on unfenced lines |
| FencedPages.BlockIsInvisible | scripts/check_docs_content.py:517-530 | a block between two fences at an unfenced position changes nothing outside the fences, whatever follows, iff its interior holds an even number of fence lines and shows nothing between them |
| FencedPages.BlockInsideOut | scripts/check_docs_content.py:517-530 | inside a fence such a block is turned inside out: what its interior hides is shown, and the rest stays |
| FencedPages.DeclaredExemptions | scripts/check_docs_content.py:332-393 | the early-returning loops give the first visible declaration, validated, or the refusal |
| FencedPages.ExemptGroups | scripts/check_docs_content.py:396-424 | refuses the first misplaced declaration, else the first refusing marker, else the union |
| FencedPages.FencedExampleChangesNothing | scripts/check_docs_content.py:332-424 | an example that meets that condition neither grants an exemption nor aborts the scan |
| FencedPages.NestedFenceGrants | scripts/check_docs_content.py:517-530 | a fenced block that shows a fenced declaration, and the page that acquires the exemption from it |
| FencedPages.UnionMeaning | scripts/check_docs_content.py:396-424 | a group is exempt iff the first visible declaration of some marker names it |
| FencedPages.ExemptExactly | scripts/check_docs_content.py:332-424 | a page is refused iff a declaration is misplaced, or a named marker's first one is absent, empty or unknown |
| FencedPages.Scan | scripts/check_docs_content.py:727-767 | both scans give their specified findings or the first page's refusal |
| FencedPages.ScansRefuseTogether | scripts/check_docs_content.py:727-767 | both scans refuse the same page lists for the same reason |
| FencedPages.NothingDropped | scripts/check_docs_content.py:727-767 | together the scans report every finding exactly as often as it occurs |
| FencedPages.CodesAreDisjoint | scripts/check_docs_content.py:63-193 | no code stands in the pattern tables of two groups |
| FencedPages.ReportedBy | scripts/check_docs_content.py:727-767 | the group a gated finding's code belongs to is not exempt on its page, that of a routed one is |
| FencedPages.ScansAreDisjoint | scripts/check_docs_content.py:727-767 | on distinct pages no finding, told apart by code, page, line and text, is in both |
| LineClaims.Population.MakeClaim | scripts/check_docs_content.py:1283-1298 | after a claim every line holds what the whole list of claims gives it |
| LineClaims.Population.Record | scripts/check_docs_content.py:1300-1310 | a documented member met for the first time claims its span, then its docstring |
| LineClaims.NarrowestHolds | scripts/check_docs_content.py:1283-1298 | the claimed lines are the union of the ranges and each holds the earliest of its narrowest claims |
| LineClaims.HolderExactly | scripts/check_docs_content.py:1283-1298 | the holder of a line and its width, read off the bounds of the claims |
| LineClaims.MemberLines | scripts/check_docs_content.py:1300-1310 | a member claims its span, last line included, and its docstring's lines |
| LineClaims.HolderIsWinner | scripts/check_docs_content.py:1283-1298 | that claim is the only one: any claim that is narrowest and earliest on a line is the holder |
| LineClaims.OrderDoesNotMatter | scripts/check_docs_content.py:1283-1298 | where no two owners tie, any order of the same claims gives the same holder |
| LineClaims.InnermostHolds | scripts/check_docs_content.py:1283-1298 | with nested members a line goes to the innermost one |
| LineClaims.NestedHasNoTies | scripts/check_docs_content.py:1283-1298 | nested members never tie, so the visiting order is immaterial |
| LineClaims.MethodKeepsItsBody | scripts/check_docs_content.py:1283-1298 | an owner whose every claim on a line is wider than another's never holds it, however narrow it is elsewhere |
| Reclaim.ReclaimIsComplete | src/hhemt/process_simulation.py:2534-2700 | a reclaim covers every elected class and repeating it changes nothing |
| Reclaim.ReclaimExactly | src/hhemt/process_simulation.py:2534-2700 | what a reclaim leaves of each class, what captures it adds, and that it touches no mark |
| Reclaim.ReclaimDrift | src/hhemt/du_sentinels.py:379-418 | an exact sentinel the fallback does not rewrite ends off by the truncated bytes less the captured ones |
| Reclaim.TruncationDrifts | src/hhemt/du_sentinels.py:379-418 | a truncated report whose four lost bytes stay in the sentinel |
| Reclaim.ActKeepsOk | src/hhemt/consolidate_workflow.py:503-574 | every action, crash points inside a class and the three steps of a fallback deletion included, keeps the site invariant when no fallback accounting is pending at the sentinel's writing and new artifacts meet no flag |
| Reclaim.FlagMeansReclaimed | src/hhemt/consolidate_workflow.py:316-325 | over every such run a flag implies a complete reclaim and a sentinel equal to the total on disk |
| Reclaim.FlagHasItsArm | src/hhemt/consolidate_workflow.py:503-574 | a new flag was written by an arm that had recorded the sentinel after its whole reclaim |
| Reclaim.LateAccounting | src/hhemt/du_sentinels.py:379-459 | when the arm writes its sentinel before the fallback has read the old one, the flag stands over an exact one iff nothing was freed or nothing is left on disk |
| Reclaim.StaleReading | src/hhemt/du_sentinels.py:379-459 | when the fallback has read it already, iff there was none or what it read less what it freed is the total |
| Reclaim.FlagMayComeFirst | src/hhemt/du_sentinels.py:379-459 | in both cases the outcome is the same when the flag is written before the late steps |
| Reclaim.OvertakenArm | src/hhemt/du_sentinels.py:379-459 | such a schedule from an orderly state: the arm passes a class the fallback has just emptied |
| Reclaim.ReadInTime | src/hhemt/du_sentinels.py:379-459 | the same schedule with the reading in time ends with the flag over an exact sentinel, although it is not orderly |
| Reclaim.ArmRunsToResult | src/hhemt/consolidate_workflow.py:503-574 | the machine's uninterrupted steps leave what the program leaves |
| Reclaim.CrashRecovers | src/hhemt/consolidate_workflow.py:503-574 | an arm that crashes between two classes and runs again leaves what one without a crash leaves |
| Reclaim.CrashForgets | src/hhemt/du_sentinels.py:420-459 | a fallback that crashes behind a deletion leaves an exact sentinel off by what was deleted |
| Reclaim.RecountRepairs | src/hhemt/consolidate_workflow.py:760-787 | a recount puts the sentinel right and touches nothing else |
| Reclaim.RerunReopens | src/hhemt/consolidate_workflow.py:316-369 | without its flag an event with summaries is the fallback's again |
| Reclaim.Campaign.ConsolidateScenario | src/hhemt/consolidate_workflow.py:503-574 | declines with nothing written, or reclaims, records and flags one scenario |
| Reclaim.Campaign.ReclaimUnconsolidated | src/hhemt/consolidate_workflow.py:316-369 | the loop does what the two skips allow and returns the events acted on |
| Reclaim.FallbackExact | src/hhemt/consolidate_workflow.py:316-369 | exactly the events without a flag and with summaries are reclaimed |
| Reclaim.FallbackNoOp | src/hhemt/consolidate_workflow.py:700-712 | it does nothing iff every unflagged event with summaries holds no more of its elected classes than they keep; in particular once every event with summaries has its flag |
| Reclaim.WaitingIsReclaimed | src/hhemt/consolidate_workflow.py:700-712 | an event with summaries and no flag on which it acts |
| Reclaim.Campaign.ConsolidateMember | src/hhemt/consolidate_workflow.py:760-787 | every scenario's sentinel is re-derived and the total is their sum plus the member's own files |
| Reclaim.Campaign.SumChildSentinels | src/hhemt/du_sentinels.py:285-376 | sums the sentinels there are and counts the absent ones |
| Reclaim.TotalsAdd | src/hhemt/du_sentinels.py:285-376 | totals, sentinel sums and absences add up child by child |
| StatusFlags.FlagTexts | src/hhemt/constants.py:170-205 | the names of both shapes and families, letter by letter |
| StatusFlags.BuilderExactly | src/hhemt/constants.py:170-189 | the flag under its directory for two valid ids, else the refusal of the first bad one |
| StatusFlags.ValidIdExactly | src/hhemt/constants.py:157-167 | which ids are let through |
| StatusFlags.ReaderExact | src/hhemt/constants.py:230-261 | for every basename: the unique model iff it fits the grammar, an error iff it only has a family prefix, none iff it has no prefix |
| StatusFlags.ReaderInvertsBuilders | src/hhemt/constants.py:155-205 | the reader recovers the model from both shapes whatever the ids hold |
| StatusFlags.CompletedSims | scripts/experiments/analyze_compute_config_byte_identity.py:100-120 | the loop lists the parsed sims or stops at the first name that cannot be split |
| StatusFlags.ParseExactly | scripts/experiments/analyze_compute_config_byte_identity.py:112-119 | what the parser makes of any name between prefix and suffix |
| StatusFlags.SkippedExactly | scripts/experiments/analyze_compute_config_byte_identity.py:110-112 | which names it passes over |
| StatusFlags.SimsInOrder | scripts/experiments/analyze_compute_config_byte_identity.py:105-120 | names are read in order up to the first bad one |
| StatusFlags.ParserInvertsExactly | scripts/experiments/analyze_compute_config_byte_identity.py:112-117 | member and event are recovered iff the member id lacks the event delimiter |
| StatusFlags.NoDashRecovers | scripts/experiments/analyze_compute_config_byte_identity.py:112-117 | a member id without a dash is always recovered |
| StatusFlags.BuildersInjective | src/hhemt/constants.py:170-189 | equal flags come from equal family, model, member and event when no member id holds the delimiter |
| StatusFlags.FlagsCoincideExactly | src/hhemt/constants.py:170-189 | two member flags are equal iff family and model agree and the ids agree or differ by moving the boundary between them to another event delimiter |
| StatusFlags.DelimiterInMemberCollides | src/hhemt/constants.py:157-189 | two pairs of ids the validation lets through that share one flag |
| StatusFlags.PlainFlagParsed | scripts/experiments/analyze_compute_config_byte_identity.py:112-117 | what the parser makes of a plain flag, for every model and event id |
| StatusFlags.PlainFlagStopsParser | scripts/experiments/analyze_compute_config_byte_identity.py:112-117 | a plain flag stops the listing iff its event id holds the member delimiter and no event delimiter after it |
| StatusFlags.StoppingEvent | scripts/experiments/analyze_compute_config_byte_identity.py:112-117 | a valid event id that does |
| SiteVisitor.VocabularyCovered | scripts/check_du_sentinel_sites.py:71-107 | a call falls under a rule iff its name is in the declared mutator vocabulary, the tool's own primitive apart |
| SiteVisitor.RuleByName | scripts/check_du_sentinel_sites.py:240-324 | which rule each callee falls under |
| SiteVisitor.ExemptReach | scripts/check_du_sentinel_sites.py:219-237 | an exempt comment reaches a statement from the line above it or one of its own |
| SiteVisitor.SkippedExactly | scripts/check_du_sentinel_sites.py:334-342 | the two helpers that are never entered, by name and file |
| SiteVisitor.Visitor.CheckStmt | scripts/check_du_sentinel_sites.py:240-324 | a statement adds its one violation or uses its exempt comments |
| SiteVisitor.Visitor.Visit | scripts/check_du_sentinel_sites.py:334-370 | a node's visit collects what the checks of its listed sites collect, in order |
| SiteVisitor.EachSiteOnce | scripts/check_du_sentinel_sites.py:328-370 | a statement is checked once for every place whose owner scans its bodies outside a skipped helper, and nowhere else |
| SiteVisitor.CheckedByKind | scripts/check_du_sentinel_sites.py:328-370 | outside those helpers a statement in a body of a module, function, `if`, `try`, `for`, `while`, `with` or async `with` is checked exactly once; one in a class, match case, `async for` or `try*` never |
| SiteVisitor.ReportedExactly | scripts/check_du_sentinel_sites.py:240-370 | a visit reports exactly the calls under a rule in such a body that no exempt comment reaches, at their lines under their rules |
| SiteVisitor.FunctionBodyIsReported | scripts/check_du_sentinel_sites.py:334-342 | a deletion in a function and its report |
| SiteVisitor.NestedComesLater | scripts/check_du_sentinel_sites.py:328-370 | a body is reported before what is nested in it |
| SiteVisitor.CheckFile | scripts/check_du_sentinel_sites.py:373-408 | the report is the visit's violations and the lint of the comments the visit did not use |
| SiteVisitor.OrphanExactly | scripts/check_du_sentinel_sites.py:381-407 | a well-named exempt comment is reported once iff no checked mutation is in its reach |
| SiteVisitor.LintsExactly | scripts/check_du_sentinel_sites.py:381-407 | what the lint reports of each exempt comment |
| SiteVisitor.ClassBodyIsMissed | scripts/check_du_sentinel_sites.py:328-407 | a deletion in a class body that is checked nowhere while its exempt comment is reported as orphaned |
| SiteVisitor.LintsOnce | scripts/check_du_sentinel_sites.py:381-407 | the lint reports each comment at most once |
| SiteVisitor.OneReportPerOffender | scripts/check_du_sentinel_sites.py:240-324 | the visit reports its unexempted mutations one for one, at their lines under their rules |
| SiteVisitor.OffendersAreChecked | scripts/check_du_sentinel_sites.py:240-370 | those are exactly the unexempted mutations at checked places, each place once |
| TypeClosure.ScanAnnotation | hooks/config_reference.py:298-313 | the stack loop notes exactly the models that occur in the annotation, or stops iff a forward reference does |
| TypeClosure.ScanFields | hooks/config_reference.py:295-313 | one model's fields add exactly its edges |
| TypeClosure.ClosureModels | hooks/config_reference.py:264-314 | the worklist ends on cyclic graphs, returns exactly the reachable models, and refuses iff a reachable one still carries a forward reference |
| TypeClosure.EdgeExactly | hooks/config_reference.py:298-313 | an edge is a model anywhere inside a field annotation, whatever it is wrapped in |
| TypeClosure.UnresolvedExactly | hooks/config_reference.py:298-313 | a model is unresolved iff a forward reference is left anywhere in one of its annotations |
| TypeClosure.OccursExactly | hooks/config_reference.py:298-313 | what each shape of annotation holds |

## Left out

- Git, subprocess, SLURM, ssh, YAML and pydantic internals, and regular-expression engines beyond the fragments used: they are values or total functions here; SHA-256 is an abstract digest.
- `check_c`, the base-ref resolution with its fallbacks, the rename fallback of the version and slug reads, and all message text.
- LayoutGate.RevListExactly: commits are numbered parents first and graded in that order; `rev-list --reverse` goes by commit date, which skewed clocks can turn against the parent order between branches.
- LayoutGate.ListChangedFiles: paths are taken as git lists them; the quoting of paths with unusual characters in `--name-status`, which the scan does not undo, is left out.
- PendingVenue.VenuesAgree: takes HEAD as the base of the pending check; a wider base compares with another tree, whose diff is not the commit's own.
- LayoutGate.BuriedBumpIsPushed: takes the push hooks as .pre-commit-config.yaml:92-99 configures them, Check A on the tip and one walk over the range; a push whose intermediate commits passed the commit-time hook is not excluded by it.
- Stamp.StampAppends: assumes a path and a digest without line breaks, and reads the manifest's block style only; flow collections, anchors, tags and multi-line scalars at column 0 are outside the reader, and an item at two spaces inside a shallower row counts as unparseable.
- Stamp.RowReadsBack: how YAML reads the plain scalars of the path and the digest is a parameter; the command's own check of the last row decides.
- ProfileWalk.WalkModel: documents are finite trees, so a YAML alias that makes a document contain itself, on which the walk would not end, is outside the model; a repeated key reads its first entry.
- `extract_profile` and the reading of the page.
- OverrideTable.RenderReadsBack: the comment lines under the marker are one stand-in comment line, and the table reader is a line reader for the generated region rather than a TOML parser.
- OverrideBuild.Project.Generate: the certified-tier guard before the build is left out; the type checker is a base set and a revealing function, monotone where a theorem says so, and what it reports over a table with a quote, a backslash or a line feed in a path is arbitrary: the theorems about the fixpoint assume that no reported path holds one. `collect_pairs` and its canary filter are taken as done in the diagnostics.
- Rule 2 of the scrubber, the base64 pages and the JSON text of the manifest: top-level manifest keys are not scrubbed and encoded text may hold a root by chance, so nothing is said of the whole report never being refused.
- FencedPages.Scan: a line is its stripped text and what the patterns see of it, not its characters; findings come in page order, without the final sort, and the rendered-docstring half of the advisory scan is left out.
- LineClaims.Population.Record: the member tree walk, the filters and the alias resolution that decide which members are visited are left out; the claims hold for any sequence of members.
- Reclaim.FlagMeansReclaimed: assumes of a run that no fallback deletion is still to be accounted when an arm writes the sentinel, and that new artifacts come only while an event has neither a flag nor an arm at work; the program does not enforce either. The elected classes stay fixed over a run, an event has at most one arm at a time, and a capture is written in the same step as the removal it precedes; sentinel breakdowns, cleared-bytes counters and walk errors are left out.
- Reclaim.ReclaimDrift: a sentinel counts every byte of its scenario, as one without a breakdown does.
- `validate_resource_usage` and `count_examined_gpu_rows`: per-row comparisons with counters.
- StatusFlags.CompletedSims: the names are taken as listed; stripping of lines and the final sort are left out.
- SiteVisitor.CheckFile: import aliases, tokenizing and call-name resolution are values of the statements; `end_lineno` is taken as set.
- TypeClosure.ClosureModels: the result is a set; its sorted listing, `model_rebuild` itself and the root/nested split of `_nested_section` are left out.
- `_passes_filters`, the mkdocs option derivation, the citation ledger and the environment guards: easy set and prefix checks.
