# fab, modelled in Dafny

fab is TurnKey Linux's appliance build tool. An appliance is described by a
*plan*: a text of package declarations, preprocessed by the C preprocessor,
with `#`, `//` and `/* */` comments, where a declaration `!name` retracts an
earlier one. fab resolves a plan against a package pool into a *spec*, one
`name=version` per package, closing it under the packages' `Depends`
(and, for names marked with `*` or `**`, `Recommends` and `Suggests`). Around
that resolver sit the tools that annotate and lint plans, apply
*removelists* (paths to delete from, or move out of, a build root), read
bootstrap package lists, read Debian changelogs for version strings and
release packages, install packages into a chroot, copy images to USB
devices, and start the Python module through a setuid wrapper.

This project models that core as Dafny functions, methods and classes and
proves what each part promises. Every module follows one source file:

| module | source | what it holds |
|---|---|---|
| `FabDependency` | fablib/plan.py | the dependency clause parser (`Dependency`, `Restrict`), the version check, the pool request string |
| `FabPlan` | fablib/plan.py | `PackageOrigins` and `Spec` (classes), `Plan` with `_parse_plan_file`, `__ior__`/`add`, `_get_new_deps`, `_get_provided`, and the `resolve` fixed point |
| `PlanText` | fablib/plan.py, pylib/plan.py, pylib/cmd_plan_resolve.py | the add/retract reading of plan declarations shared by the three plan readers |
| `FabResolve` | fablib/resolve.py | `iter_packages` over the lines of a dpkg status file, the origins `resolve_plan` records, `annotate_spec` |
| `LintText` | fablib/annotate.py, pylib/cmd_plan_lint.py, pylib/cmd_plan_annotate.py | plan parsing without comments, block comments swapped for placeholders and back, the description column |
| `FabAnnotate` | fablib/annotate.py | fablib's `plan_lint` exactly as written (see Findings) |
| `FabRemovelist` | fablib/removelist.py | `parse_removelist`, the target paths and removals of `apply_removelist` |
| `CmdApplyRemovelist` | pylib/cmd_apply_removelist.py | `parse_list`, `_move`, `apply_removelist` over a file tree |
| `Installer` | fablib/installer.py | `RevertibleFile` (class), the apt environment, the priority split, `get_last_log`, `get_errors` and the error decision of `_install` |
| `PylibPlan` | pylib/plan.py | `Spec` (class), the name of a versioned declaration, the round-by-round `resolve` |
| `PylibFab` | pylib/fab.py | `parse_deb_filename`, `parse_package_name`, `PackagesSpec` (class), `get_package_spec` |
| `PylibDeb` | pylib/deb.py | `parse_depends`, `parse_filename`, `parse_name`, `is_preinstall`, the dependency set of `info` |
| `Query` | pylib/cmd_query.py | `generate_index` |
| `Cpp` | pylib/cpp.py | `getopt` and the argument list `cpp` hands to the preprocessor |
| `Bootstrap` | share/bootstrap/bootstrap_spec.py | `parse_bootstrap_spec` |
| `TurnkeyVersion` | share/turnkey-version.py | `parse_changelog` and `get_turnkey_version` |
| `ReleaseDeb` | share/make-release-deb.py | `parse_changelog` and the control template |
| `CdrootUsb` | contrib/cdroot2usb.py | `Partition.__init__`, `_read_partition_table`, `_get_bootable_partition`, the filesystem id check |
| `IsoUsb` | contrib/iso2usb.py | `Iso.is_hybrid`, `Iso.make_hybrid`'s check, `Usb.is_partition`, `Usb.name`, `Usb.is_usb_device`, the checks of `Usb.__init__` |
| `ExecProxy` | execproxy.c | `clean_environ`, `putenv` as far as it is used, the `argv_copy` vector and the owner check of `main` |
| `Wrappers`, `Text`, `Paths` | — | `Option`/`Result`, the Python string operations used, `os.path` and a file tree |

The model follows the code where the code does something its design does not
say, and proves it as it is; where a corrected version is proved beside it,
or used instead (only in `get_package_spec`, listed under "Left out"), the
item says so:

- `FabPlan.Plan.Resolve`: the second result is always the empty list, since
  `missing` is never added to; with a pool and an empty plan the loop never
  runs and `all_missing` is read before assignment, modelled as an error.
  With no pool the plan itself is returned.
- `FabPlan.Spec.Text` (`__str__`) joins the package names only, not `name=version`.
- A Python set of `Dependency` objects compares them by name only; such a
  set is a map from name to the instance first added.
- `FabRemovelist`: a line without `/` yields an error entry, and the unpack
  of the next statement then raises; the model ends the parse with that error.
- `FabResolve`: as written, `resolve_plan` hands `annotate_spec` the pair that
  `resolve` returns, so it always raises: TypeError with a pool, AttributeError
  without (`FabResolve.ResolvePlan`, `FabResolve.ResolvePlanAsWrittenFails`).
  `FabResolve.AnnotateSpecEntries` annotates the spec's `name=version` entries,
  the call evidently intended (see Findings).
- `CmdApplyRemovelist`: `_move` creates the parent of the entry's directory, not the directory; `ApplyRemovelist` uses it as written, and the loop lemmas hold for it and for the corrected move alike (see Findings).
- `Installer`: `get_last_log` reads term.log from its first line; `Install` and `InstallBatch` judge each run on that reading, and `Judge` is also proved with the log read from its end (see Findings).
- `PylibFab.PackagesSpec.Exists(name)` is a substring test over the stored
  entries, as written; `get_package_spec` is modelled with the exact test
  (see Findings).
- `TurnkeyVersion`: the parsed version is not used in the printed version.
- `IsoUsb.IsPartition` raises on an empty path (no last character).

## Model

| member | source | states |
|---|---|---|
| FabDependency.RelationOf | fablib/plan.py:82-88 | exactly the five relation strings of RELATIONS are relations, and each reads back as its own text; anything else is refused |
| FabDependency.ParseRestriction | fablib/plan.py:146-152 | a restriction body that parses yields a version of the allowed characters; a body of the wrong shape fails as an illegal restriction, an unknown operator as a bad relation |
| FabDependency.NamePart | fablib/plan.py:128-135 | the name group is a prefix of the clause and is a valid package name |
| FabDependency.Promotion | fablib/plan.py:129-136 | at most two promotion stars are taken, and what follows them is the rest of the clause |
| FabDependency.ParseTail | fablib/plan.py:129-152 | a restriction in the optional parenthesised tail carries a well-formed version; a tail error is never a whole-clause format error |
| FabDependency.ParseClause | fablib/plan.py:128-152 | a parsed clause's name is a name prefix of the text; its restriction version is well formed; a format error quotes the text |
| FabDependency.ParseDependency | fablib/plan.py:118-152 | the text is stripped before matching, and the parsed name starts the stripped text |
| FabDependency.DependencyText | fablib/plan.py:154-158 | the text starts with the name, and equals the name exactly when there is no restriction |
| FabDependency.FormatDep | fablib/plan.py:187-190 | the pool request starts with the name, and is the bare name unless the restriction is `=` |
| FabDependency.RestrictionParts | fablib/plan.py:147-152 | a relation-character run, a space and a version parse to that relation and version, or to a bad-relation error when the run is not one of the five |
| FabDependency.RestrictionOf | fablib/plan.py:147-152 | a restriction's text parses back to the same restriction |
| FabDependency.TailOf | fablib/plan.py:129-152 | the optional ` (REL VERSION)` suffix parses back to its restriction, and an empty tail to none |
| FabDependency.ClauseRender | fablib/plan.py:128-152 | a name, up to two stars and an optional restriction parse back into those parts with the promoted fields |
| FabDependency.ParseRender | fablib/plan.py:118-152 | the same round trip through the full constructor, stripping included |
| FabDependency.ParseText | fablib/plan.py:118-158 | `Dependency(str(dep))` gives back the dependency, with the base fields |
| FabDependency.RestrictNoStar | fablib/plan.py:147 | a restriction body that parses contains no `*` |
| FabDependency.ParsedFields | fablib/plan.py:139-143 | the fields of a parsed clause are Pre-Depends and Depends, plus Recommends for one star and also Suggests for two, counting the stars of the stripped text |
| FabDependency.TooManyStars | fablib/plan.py:129-133 | a name followed by more than two stars is an illegally formatted dependency |
| FabDependency.UnknownRelation | fablib/plan.py:86-88 | a well-formed restriction whose operator is not one of the five raises bad relation |
| FabDependency.BadFirstChar | fablib/plan.py:128-133 | stripped text that does not start with a name character raises illegally formatted dependency |
| FabDependency.RelationsComplement | fablib/plan.py:82-111 | for a comparator answering -1/0/1, `>=` accepts exactly what `<<` refuses, and `<=` exactly what `>>` refuses |
| FabDependency.RestrictAgainstItself | fablib/plan.py:82-111 | against its own version a restriction holds exactly for `<=`, `=` and `>=` |
| FabDependency.FormatDepName | fablib/plan.py:187-190 | the text before `=` in the pool request is the dependency's name |
| FabPlan.OriginKeyOfName | fablib/plan.py:36-37 | a plain package name is its own origins key (nothing after `=` or `*` to strip) |
| FabPlan.PackageOrigins.Add | fablib/plan.py:36-41 | the origin is appended to the list kept under the name with any `=version` and `*` removed, a new key starting an empty list; no other key changes |
| FabPlan.PackageOrigins.AddAll | fablib/plan.py:317-320 | every new dependency's name gets the declaring package appended as an origin |
| FabPlan.PackageOrigins.Get | fablib/plan.py:43-44 | a lookup succeeds exactly for recorded names and yields their origins list |
| FabPlan.OriginsInCallOrder | fablib/plan.py:36-41 | two adds under the same key leave their origins in call order after the earlier ones |
| FabPlan.Spec.Add | fablib/plan.py:53-55 | the version overwrites any earlier one; a new name is appended to the iteration order, an existing one keeps its place |
| FabPlan.Spec.Remove | fablib/plan.py:57-58 | the entry and its place in the order are deleted; a missing name is reported (the source's KeyError) and changes nothing |
| FabPlan.Spec.Entries | fablib/plan.py:60-63 | one `name=version` entry per name, in order |
| FabPlan.Spec.Exists | fablib/plan.py:68-69 | true exactly for the names held |
| FabPlan.EntryOf | fablib/plan.py:60-63 | each iterated entry is the name, `=` and its version, and its text before `=` is the name |
| FabPlan.FieldItems | fablib/plan.py:285-289 | a missing or blank field contributes no dependency strings |
| FabPlan.AddDep | fablib/plan.py:299-314 | adding a dependency to a name-keyed set adds its name and keeps every dependency already there (set.add keeps the existing equal element) |
| FabPlan.UnionDeps | fablib/plan.py:395-397 | the union holds both sides' names and keeps the left side's dependency for a name on both |
| FabPlan.ParseAllOk | fablib/plan.py:302 | when every alternative parses, each position holds that alternative's parse |
| FabPlan.ParseAllErr | fablib/plan.py:302 | the failure reported is that of the first alternative that does not parse |
| FabPlan.FirstKnown | fablib/plan.py:311-315 | the chosen alternative is the first whose name the pool knows; with none, no alternative is known |
| FabPlan.Parsed | fablib/plan.py:298-302 | a clause is a single dependency exactly when it holds no alternative bar |
| FabPlan.SingleAdded | fablib/plan.py:298-300 | a clause without an alternative bar is always added |
| FabPlan.SimpleClauseAdded | fablib/plan.py:297-300 | every raw clause without an alternative bar parses and its name is among the new dependencies |
| FabPlan.GroupWithOldAlternative | fablib/plan.py:304-307 | an alternative group with any member among the old dependencies adds nothing |
| FabPlan.GroupChoice | fablib/plan.py:309-315 | otherwise the group adds exactly its first alternative the pool knows |
| FabPlan.GroupNoneKnown | fablib/plan.py:309-315 | a group none of whose alternatives the pool knows adds nothing |
| FabPlan.BadClauseFails | fablib/plan.py:299-302 | a clause or alternative that does not parse makes the whole call raise |
| FabPlan.FailurePersists | fablib/plan.py:297-302 | once a clause has raised, later clauses make no difference |
| FabPlan.WithOrigins | fablib/plan.py:317-320 | recording origins adds exactly the new dependencies' names to the known keys |
| FabPlan.ReformatText | fablib/plan.py:364-369 | `name=version` is rewritten to `name (= version)` |
| FabPlan.ReformatPinned | fablib/plan.py:364-371 | the rewritten pin parses to an `=` restriction on that version, and the pool request for it is the original `name=version` |
| FabPlan.ReformatPlain | fablib/plan.py:365-366 | a token without `=` is left as it is |
| FabPlan.CollectRaw | fablib/plan.py:293-295 | the loop gathers the split clauses of the dependency fields, field after field |
| FabPlan.ChooseAlternative | fablib/plan.py:311-315 | the loop with its break picks the first alternative the pool knows |
| FabPlan.ParseClauses | fablib/plan.py:297-302 | every raw clause is parsed as a single dependency or an alternative group |
| FabPlan.AddClause | fablib/plan.py:297-315 | one clause's effect on the new dependencies is one step of the specification fold |
| FabPlan.SelectNewDeps | fablib/plan.py:297-315 | the clause loop computes the specification fold over all clauses |
| FabPlan.Fetch | fablib/plan.py:380-384 | a dependency is served exactly when the pool holds its request (name, or name=version for `=`) |
| FabPlan.SimpleNamesAdded | fablib/plan.py:298-300 | the names of all clauses without an alternative bar are in the result |
| FabPlan.ServedName | fablib/plan.py:195-201 | a dependency the pool serves is one of the pool's package names |
| FabPlan.RoundMiss | fablib/plan.py:380-382 | a dependency the pool cannot serve is skipped and recorded as missing |
| FabPlan.RoundServed | fablib/plan.py:386-398 | a served dependency sets its version in the spec, becomes resolved and contributes its new dependencies |
| FabPlan.RoundEnd | fablib/plan.py:400 | the next unresolved set is the new dependencies minus the resolved ones |
| FabPlan.DeclaredDeps | fablib/plan.py:371 | every plan token becomes a dependency (after the `=` rewrite) keyed by its name, the set is empty exactly for an empty plan, and a token that does not parse raises |
| FabPlan.NextPass | fablib/plan.py:372-400 | a pass keeps the resolution invariant, the group coverage and the reachability of every name and, while dependencies remain, strictly shrinks the pool names not yet resolved (so the loop ends) |
| FabPlan.PassShrinks | fablib/plan.py:393-400 | resolving a new pool name strictly decreases the count of pool names left |
| FabPlan.DeclaredCovered | fablib/plan.py:372-405 | when the loop ends every declared dependency is resolved or missing |
| FabPlan.Plan.constructor | fablib/plan.py:254-264 | a plan holds the given packages, the given pool and empty origins |
| FabPlan.Plan.UnionWith | fablib/plan.py:269-274 | `__ior__` adds the other plan's packages |
| FabPlan.Plan.Add | fablib/plan.py:276-277 | add inserts one package |
| FabPlan.Plan.GetNewDeps | fablib/plan.py:279-322 | the new dependencies are the specification fold over the parsed clauses; on success each gets the control's Package as origin, and a raise records no origin; they hold every clause without alternatives, cover each group the pool knows an alternative of (with the old dependencies), and are only names the clauses request |
| FabPlan.Plan.ResolveOne | fablib/plan.py:378-398 | an unserved dependency is skipped; a served one missing a Version raises; a version failing the restriction raises as incompatible; otherwise the spec gets the version and the step brings what `Brings` states |
| FabPlan.Plan.ServeOne | fablib/plan.py:392-398 | once the version passes: the spec gets it (even if `_get_new_deps` then raises), and the new dependencies hold every simple clause, only requested names, and cover every known group together with the resolved, unresolved and new ones; no incompatibility is raised here |
| FabPlan.Plan.ResolveRound | fablib/plan.py:376-400 | one pass over the unresolved set keeps the resolution invariant, keeps every known group covered, keeps what was resolved before, and yields next unresolved names that resolved packages request |
| FabPlan.Plan.Visit | fablib/plan.py:378-398 | one iteration of the loop over `unresolved` keeps the pass state: resolution invariant, groups covered, new names requested |
| FabPlan.Plan.Resolve | fablib/plan.py:350-405 | without a pool the plan comes back unresolved and the spec empty; an empty plan leaves `all_missing` unbound (error); on success the second result is empty, every plan package is resolved with a version meeting its restriction or missing, every simple dependency of a resolved package is resolved or missing, every alternative group of a resolved package that the pool knows an alternative of has an alternative resolved or missing, and every resolved name is declared or requested by a resolved package (a clause without alternatives, or its group's first alternative the pool knows) |
| FabPlan.Plan.ResolvePasses | fablib/plan.py:371-400 | the outer loop ends with nothing unresolved, every declared dependency resolved or missing, every known group covered, and every resolved name declared or requested by a resolved package |
| FabPlan.PackageOrigins.constructor | fablib/plan.py:33-34 | a new origins table records no package |
| FabPlan.Spec.constructor | fablib/plan.py:50-51 | a new spec holds no package and lists no name |
| FabPlan.ClauseStep | fablib/plan.py:297-315 | one clause only adds dependencies to those already chosen, each keyed by its own name |
| FabPlan.NewDepsOf | fablib/plan.py:297-315 | the dependencies chosen over all clauses are keyed by their names |
| FabPlan.NewDepsStep | fablib/plan.py:297-315 | handling one more clause extends the previous result by that clause, or keeps the earlier error |
| FabPlan.Spec.TextNamesOnly | fablib/plan.py:65-66 | the string of a spec holds its package names one per line and no versions: split at newlines it gives back exactly the names |
| FabPlan.AltNames | fablib/plan.py:302-306 | every alternative of a group is among the group's names |
| FabPlan.GroupsAdded | fablib/plan.py:302-315 | after all clauses, each group that the pool knows an alternative of has an alternative among the old dependencies or the new ones |
| FabPlan.NewDepsRequested | fablib/plan.py:297-315 | every new dependency is a clause without alternatives or a group's first alternative the pool knows |
| FabPlan.StepCovers | fablib/plan.py:384-398 | what a served package brings: the version the pool serves, which meets the restriction; every simple clause; only requested names; every known group covered with what the pass holds; its provided names |
| FabPlan.StepGroups | fablib/plan.py:395-397 | the old dependencies handed to `_get_new_deps` are the resolved, unresolved and new ones and the package itself |
| FabPlan.ChosenStart | fablib/plan.py:376-377 | a pass starts with no new dependencies, so group coverage carries over |
| FabPlan.ChosenMiss | fablib/plan.py:380-382 | recording a skipped dependency keeps every group covered |
| FabPlan.ChosenServed | fablib/plan.py:392-397 | resolving a package whose own groups are covered keeps every group covered |
| FabPlan.NewGroupCovered | fablib/plan.py:395-397 | a group of the package just resolved is covered by resolved, pending or missing names |
| FabPlan.OldGroupCovered | fablib/plan.py:393-397 | a group of an earlier resolved package stays covered as the pass grows |
| FabPlan.ChosenEnd | fablib/plan.py:400 | at the end of a pass every group is covered by resolved, next unresolved or missing names |
| FabPlan.AskedServed | fablib/plan.py:393-397 | resolving a package keeps earlier resolved dependencies and keeps every new dependency requested by a resolved package |
| FabPlan.StillAsked | fablib/plan.py:393 | a name requested by a resolved package stays requested as more are resolved |
| FabPlan.AskedByNew | fablib/plan.py:393-397 | a name the package just resolved requests is requested by a resolved package |
| FabPlan.ReachedNext | fablib/plan.py:393-400 | after a pass every resolved or unresolved name is declared or requested by a resolved package |
| FabPlan.VisitStart | fablib/plan.py:376-378 | a pass starts with every unresolved name to visit and the pass state holding |
| FabPlan.VisitMiss | fablib/plan.py:380-382 | a dependency the pool does not serve is recorded as missing and the pass state holds |
| FabPlan.VisitServed | fablib/plan.py:384-398 | a served dependency is resolved, its version set, its new dependencies and provided names added, and the pass state holds |
| FabPlan.CoveringServed | fablib/plan.py:393-397 | the groups and requests of a served package join the pass state |
| FabPlan.VisitEnd | fablib/plan.py:400 | the pass ends with the new dependencies not resolved as the next unresolved set, groups covered and names requested |
| PlanText.Apply | fablib/plan.py:229-237 | a blank declaration changes nothing, `!x` removes `x` (a no-op when absent), anything else is added |
| PlanText.Declarations | fablib/plan.py:223-225 | each line becomes its declaration: the text before any `#`, stripped |
| PlanText.CalculatePlan | pylib/cmd_plan_resolve.py:33-53 | the loop computes the fold of the declarations, and warns once for each retraction of a package not then declared |
| PlanText.CalculateDeclaration | pylib/cmd_plan_resolve.py:36-51 | one line's effect is one fold step and its warning |
| PlanText.ParsePlanFile | fablib/plan.py:222-239 | the loop computes the fold of the declarations of the preprocessed lines |
| PlanText.PlanStep | fablib/plan.py:223-237 | each line extends the packages and the warnings exactly by its own step |
| PlanText.PlanMembership | fablib/plan.py:222-239 | a package is in the result iff it is a non-retraction declared at some line not retracted later |
| PlanText.RetractionRemoves | fablib/plan.py:229-233 | a retraction removes its package and nothing else |
| PlanText.RetractionOfUndeclared | pylib/cmd_plan_resolve.py:41-47 | retracting an absent package changes nothing and produces the "retraction failed" warning |
| PlanText.BlankLine | fablib/plan.py:226-227 | a blank line changes nothing and warns nothing |
| PlanText.DeclarationOf | fablib/plan.py:224-225 | a comment after `#` is dropped |
| PlanText.RedeclareAfterRetraction | fablib/plan.py:229-237 | the later of a declaration and its retraction wins |
| PlanText.ReadDeclaration | pylib/plan.py:41-55 | the older reader applies the same step to each line: a comment is cut, a blank line is skipped, `!x` removes `x` when present, and anything else is added |
| Text.UnicodeOnlySpace | fablib/plan.py:225 | a character that is whitespace to a fablib `str` but not to a byte string is dropped by the `str`'s `strip()` and kept by the byte string's |
| Text.FileSeparatorFlavors | fablib/removelist.py:17 | a leading U+1C is stripped from a fablib line (`"\x1cfoo/bar"` strips to `"foo/bar"`), and kept by a byte string |
| FabResolve.Installed | fablib/resolve.py:12-14 | a paragraph yields its Package exactly when Status is `install ok installed`; a missing Status (or Package when installed) is the source's KeyError |
| FabResolve.ScanStep | fablib/resolve.py:10-17 | each line advances the scan by exactly one step |
| FabResolve.ScanErrorPersists | fablib/resolve.py:12-14 | once a paragraph raised, later lines do not change the outcome |
| FabResolve.IterPackages | fablib/resolve.py:7-17 | the line loop yields what the specification scan yields |
| FabResolve.Open | fablib/resolve.py:16-17 | the paragraph being collected holds only non-blank lines |
| FabResolve.ScanByParagraph | fablib/resolve.py:7-17 | the scan yields the installed packages of the blank-terminated paragraphs, in order, and holds the unfinished paragraph back |
| FabResolve.UnfinishedIgnored | fablib/resolve.py:11-17 | a paragraph with no blank line after it is never examined |
| FabResolve.YieldMembers | fablib/resolve.py:11-15 | a package is yielded iff some terminated paragraph is installed with that Package |
| FabResolve.AddEach | fablib/resolve.py:46-55 | origins are added for each name in order |
| FabResolve.AddSource | fablib/resolve.py:49-58 | an existing plan file (or `-`) adds its packages with the path as origin; any other token is added verbatim with origin `_` |
| FabResolve.RecordPlanSources | fablib/resolve.py:41-58 | the plan gets the bootstrap packages with origin `bootstrap`, then each source in order, and the origins record exactly that |
| FabResolve.RecordedAllKeeps | fablib/resolve.py:47-58 | recording only appends: earlier origins of every key are kept as a prefix |
| FabResolve.RecordedAllHas | fablib/resolve.py:47-55 | each recorded name gets the origin |
| FabResolve.SourcesKeep | fablib/resolve.py:49-58 | later sources never remove origins recorded earlier |
| FabResolve.SourceRecorded | fablib/resolve.py:49-58 | every package of every source has that source's origin |
| FabResolve.BootstrapOrigin | fablib/resolve.py:42-47 | every bootstrap package keeps the origin `bootstrap` after all sources are recorded |
| FabResolve.ColumnLen | fablib/resolve.py:25 | the column is one more than the longest entry |
| FabResolve.AnnotatedLines | fablib/resolve.py:26-29 | one line per entry in order, each the entry's annotation with its name's origins; an entry with unrecorded name raises, the first such one |
| FabResolve.AnnotateSpec | fablib/resolve.py:19-31 | an empty spec gives `""`; the call raises iff some entry's name has no origins |
| FabResolve.AnnotatedLayout | fablib/resolve.py:25-31 | the text splits on newlines into exactly one line per entry, each the entry left-justified to the column, ` # ` and the origins joined by spaces |
| FabResolve.AnnotatedLineLayout | fablib/resolve.py:28-29 | one annotated line has that layout and no newline |
| FabResolve.AddSources | fablib/resolve.py:49-58 | the sources add exactly their packages to the plan, and the origins are what recording each source in order gives |
| FabResolve.AnnotateSpecEntries | fablib/resolve.py:25-28 | on `name=version` entries whose names all have origins, each entry's text before `=` is its name and annotating succeeds |
| FabResolve.Returned | fablib/resolve.py:60 | what `resolve` returns is a pair whose first element is the `Spec` object exactly when there is a pool (otherwise the plan's list), and whose second is the list of broken dependencies |
| FabResolve.ColumnLenOf | fablib/resolve.py:25 | `max(len(s) + 1 for s in spec)` over the elements raises exactly when some element is a `Spec` object |
| FabResolve.AnnotateItems | fablib/resolve.py:19-28 | annotating a sequence of non-strings succeeds only when it is empty |
| FabResolve.ResolvePlanAsWrittenFails | fablib/resolve.py:60-61 | annotating the pair always raises: TypeError with a pool, AttributeError without |
| FabResolve.ResolvePlan | fablib/resolve.py:41-61 | `resolve_plan` as written always ends in an error, and an annotation error is TypeError with a pool, AttributeError without |
| FabAnnotate.PlanLintAsWritten | fablib/annotate.py:52-87 | plan_lint as written, where hashing a comment given as text raises TypeError |
| FabAnnotate.AsWrittenAgrees | fablib/annotate.py:64-72 | without a block comment the as-written lint is the intended one (md5 is never called) |
| FabAnnotate.AsWrittenRejectsComments | fablib/annotate.py:66-72 | with any block comment the as-written lint raises TypeError, where the intended one fails only on a missing description |
| FabAnnotate.EmptyCommentPlan | fablib/annotate.py:68-72 | the plan `/**/` raises as written, while the intended lint returns it unchanged with a newline |
| LintText.FindPair | fablib/annotate.py:12-13 | the first position from a start where the two-character marker occurs |
| LintText.FindPairAt | fablib/annotate.py:12 | the search finds the first occurrence |
| LintText.FindPairNone | fablib/annotate.py:12 | with no occurrence the search finds none |
| LintText.BlockCommentDropped | fablib/annotate.py:12 | the first `/*` up to the first `*/` after it is removed, non-greedily, and scanning continues after it |
| LintText.NoBlockComment | fablib/annotate.py:12 | text without `/*` is unchanged |
| LintText.LineCommentDropped | fablib/annotate.py:13 | `//` up to the end of its line is removed and the newline kept |
| LintText.ParsePlan | fablib/annotate.py:10-30 | the loop collects the packages of the comment-free lines |
| LintText.ReadEntry | fablib/annotate.py:16-28 | one line adds its package, if it has one |
| LintText.PackagesStep | fablib/annotate.py:16-28 | each line adds exactly its own package |
| LintText.PackagesMembership | fablib/annotate.py:16-30 | a package is in the result iff some line's entry, with `!` and (annotate) trailing `*` removed, is that package |
| LintText.NothingRetracted | fablib/annotate.py:23-28 | a `!` line never removes anything; its name is added |
| LintText.MaxLen | fablib/annotate.py:59-62 | no packages gives none (column 0), otherwise the greatest package length, attained by some package |
| LintText.LongestName | fablib/annotate.py:62 | the maximum package length bounds every package and is attained |
| LintText.SameLongest | fablib/annotate.py:62 | any attained upper bound is that maximum |
| LintText.SwapComments | fablib/annotate.py:64-72 | the loop replaces every block comment by `$` and its key, and records each comment under its key |
| LintText.BlockComment | fablib/annotate.py:72 | a found comment lies inside the text |
| LintText.SwapKeys | fablib/annotate.py:66-70 | every recorded comment is stored under its own key |
| LintText.SwapRestoreWith | fablib/annotate.py:72-86 | restoring placeholders with any table that agrees on the recorded keys gives the plan back |
| LintText.SwapAt | fablib/annotate.py:72 | the first comment becomes `$key` and the rest of the text is swapped in turn |
| LintText.RestoreKey | fablib/annotate.py:84-86 | `$key` followed by whitespace becomes the recorded comment |
| LintText.UnknownPlaceholder | fablib/annotate.py:84-86 | `$word` not recorded raises KeyError |
| LintText.Shown | fablib/annotate.py:75-82 | a copied line (holding `#`, `$`, `//`, or blank) is kept as it is; another line starts with its stripped expression, and fails exactly when its description key is missing |
| LintText.LintLines | fablib/annotate.py:75-82 | the line loop computes the specification fold |
| LintText.LintedErrorPersists | fablib/annotate.py:81 | once a description lookup raised, later lines do not matter |
| LintText.LintedFails | fablib/annotate.py:81 | the loop raises iff some line's lookup fails |
| LintText.LintedJoin | fablib/annotate.py:75-82 | on success the text is every shown line followed by a newline |
| LintText.LintedLines | fablib/annotate.py:75-82 | the text splits back into exactly the shown lines, one per plan line |
| LintText.LintedFree | fablib/annotate.py:75-82 | a character in neither the plan nor the descriptions (nor space, `#`, newline) is not in the output |
| LintText.ShownLayout | fablib/annotate.py:80-82 | a package line is the expression padded to the column, ` # `, and the description of the expression without `!` and trailing `*` |
| LintText.PlanLint | fablib/annotate.py:52-87 | the method computes the specification of the whole lint |
| LintText.PlanLintUnfold | fablib/annotate.py:54-62 | the lint is the formatting of the stripped plan at column width + 3 |
| LintText.Longest | fablib/annotate.py:59-62 | the column width is 3 for no packages, else the longest name + 3 |
| LintText.Linted | fablib/annotate.py:81-85 | formatting can fail only with a KeyError |
| LintText.KeyUnused | fablib/annotate.py:66-72 | without block comments the key function is never used |
| LintText.FormatPlan | fablib/annotate.py:72-87 | swap, line formatting and restoring as one method meet the specification |
| LintText.SwapRestore | fablib/annotate.py:72-86 | restoring the swapped text with its own table gives the plan back |
| LintText.CopiedPlanUnchanged | fablib/annotate.py:75-86 | a plan whose lines are all copied comes back unchanged plus a newline |
| LintText.AllCopied | fablib/annotate.py:75-78 | copied lines are emitted as they are, each with a newline |
| LintText.PlainPlan | fablib/annotate.py:72-87 | without comments and `$` the lint is the line formatting alone |
| LintText.BlankPlanFails | pylib/cmd_plan_lint.py:73-76 | for cmd_plan_lint, a plan with no packages raises ValueError from max of an empty list |
| LintText.CopiedPlanKept | fablib/annotate.py:52-87 | the whole lint returns a copied-only plan stripped and with a newline |
| LintText.PlainPlanLines | fablib/annotate.py:52-87 | without comments the lint fails iff some line's description is missing, and otherwise yields one shown line per plan line |
| FabRemovelist.LineEntries | fablib/removelist.py:22-32 | a declaration without a slash is refused (the split that follows the recorded error raises); otherwise the entries are well formed, and the first one is a target only if its prefix is known |
| FabRemovelist.LineTarget | fablib/removelist.py:25-32 | the line "a/b" ends with the target of prefix strip(a) and path "/b", and that target is the only entry exactly when the prefix is known |
| FabRemovelist.ReadLine | fablib/removelist.py:16-20 | an earlier failure is kept: no later line is read |
| FabRemovelist.RemovelistStep | fablib/removelist.py:16-32 | the list of the first i+1 lines is the list of the first i lines with line i read |
| FabRemovelist.RemovelistErrPersists | fablib/removelist.py:16-32 | once a line has failed, the lines after it make no difference |
| FabRemovelist.ParseRemovelist | fablib/removelist.py:13-33 | the loop returns exactly the list the line-by-line definition gives |
| FabRemovelist.RemovelistWellFormed | fablib/removelist.py:13-33 | every parsed list is well formed: each unknown prefix error is followed by its own target |
| FabRemovelist.SlashlessLineFails | fablib/removelist.py:17-25 | a non-empty declaration without a slash anywhere in the file makes the whole parse fail |
| FabRemovelist.LineListed | fablib/removelist.py:25-32 | every declaration "a/b" of a file that parses contributes its target |
| FabRemovelist.LastLineListed | fablib/removelist.py:25-32 | the last declaration of a file that parses contributes its target |
| FabRemovelist.ReadLineKeeps | fablib/removelist.py:14-32 | reading a line keeps every entry read before it |
| FabRemovelist.ReadLineAdds | fablib/removelist.py:17-32 | reading a declaration adds the entry its line ends with |
| FabRemovelist.Remove | fablib/removelist.py:35-44 | a missing path is reported and nothing changes; a file is unlinked; a directory is removed with everything inside it; nothing else is touched and the path is gone afterwards |
| FabRemovelist.Relative | fablib/removelist.py:50 | the path with its slashes stripped neither starts nor ends with a slash |
| FabRemovelist.TargetUnderRoot | fablib/removelist.py:50 | the joined target lies under the root path |
| FabRemovelist.RemoveAllOf | fablib/removelist.py:52-53 | each glob match is removed in turn, one log record per match |
| FabRemovelist.RemoveAll | fablib/removelist.py:52-53 | the loop over the glob matches gives the state and log of RemoveAllOf |
| FabRemovelist.ApplyTarget | fablib/removelist.py:50-55 | one target removes its glob matches under the `~` prefix and its path otherwise, as ApplyEntry says |
| FabRemovelist.ApplyStep | fablib/removelist.py:47-55 | applying i+1 entries is applying i entries and then entry i |
| FabRemovelist.ApplyRemovelist | fablib/removelist.py:46-55 | an unparsable list changes nothing; otherwise the entries are applied in order and the first error entry is fatal |
| FabRemovelist.ApplyStopped | fablib/removelist.py:48-49 | after a fatal error no later entry is applied |
| FabRemovelist.FatalAtFirstError | fablib/removelist.py:48-49 | the first error entry of the list is the one reported, and nothing after it runs |
| FabRemovelist.NoFatalBefore | fablib/removelist.py:48-49 | entries that are all targets raise no fatal error |
| FabRemovelist.ApplyOnlyRemoves | fablib/removelist.py:35-55 | applying a removelist only removes: every path that remains is unchanged, and every path that disappeared is accounted for by a removal in the log |
| FabRemovelist.OnlyRemovedStep | fablib/removelist.py:35-44 | one removal keeps the only-removes invariant |
| FabRemovelist.RemoveAllOnly | fablib/removelist.py:52-53 | removing all glob matches keeps the only-removes invariant |
| FabRemovelist.ApplyShrinks | fablib/removelist.py:47-55 | later entries never bring a path back |
| FabRemovelist.RemoveAllShrinks | fablib/removelist.py:52-53 | removing the glob matches never adds a path |
| FabRemovelist.PlainTargetGone | fablib/removelist.py:50-55 | a target without the `~` prefix, reached before any error, is absent afterwards |
| CmdApplyRemovelist.ListsStep | pylib/cmd_apply_removelist.py:34-46 | sorting i+1 lines is sorting i lines and then line i |
| CmdApplyRemovelist.ParseList | pylib/cmd_apply_removelist.py:30-48 | the loop returns exactly the remove and restore lists of the line-by-line definition |
| CmdApplyRemovelist.Declared | pylib/cmd_apply_removelist.py:35-38 | every declaration kept, once its comment is cut and it is stripped, is non-empty |
| CmdApplyRemovelist.ListsAreFilters | pylib/cmd_apply_removelist.py:30-48 | the remove list holds the declarations without a leading `!`, in file order; the restore list holds the others with the `!` dropped, in file order |
| CmdApplyRemovelist.SortLineFilters | pylib/cmd_apply_removelist.py:40-46 | one line appends its declaration to exactly one of the two lists |
| CmdApplyRemovelist.EachDeclarationOnce | pylib/cmd_apply_removelist.py:40-46 | each declaration lands in exactly one list |
| CmdApplyRemovelist.ListsCount | pylib/cmd_apply_removelist.py:30-48 | together the two lists are as long as the file has declarations |
| CmdApplyRemovelist.Unrooted | pylib/cmd_apply_removelist.py:51 | the entry with its leading slashes stripped does not start with a slash |
| CmdApplyRemovelist.MovePaths | pylib/cmd_apply_removelist.py:51-53 | the source is the entry under srcpath, and the target is the entry's directory under dstpath |
| CmdApplyRemovelist.NestedEntry | pylib/cmd_apply_removelist.py:51-53 | the entry "/d/b" is moved from srcpath/d/b into dstpath/d |
| CmdApplyRemovelist.RebaseInjective | pylib/cmd_apply_removelist.py:57 | moving a tree renames distinct paths under it to distinct paths |
| CmdApplyRemovelist.MissingOnlyWarns | pylib/cmd_apply_removelist.py:55-59 | in `_move` as written and corrected alike, an entry whose source is missing only warns, and the tree is left as it was; otherwise the entry is moved or the move fails |
| CmdApplyRemovelist.MoveRecords | pylib/cmd_apply_removelist.py:50-59 | a completed `_move`, as written or corrected, records the entry's source and target, or warns about the entry |
| CmdApplyRemovelist.MoversRecord | pylib/cmd_apply_removelist.py:50-59 | both versions of `_move` record every entry they complete, as the loop lemmas require of a mover |
| CmdApplyRemovelist.MovesStep | pylib/cmd_apply_removelist.py:70-75 | moving i+1 entries is moving i entries and then entry i |
| CmdApplyRemovelist.MoveAll | pylib/cmd_apply_removelist.py:70-75 | the loop, calling the `_move` it is given for each entry, gives the state and events of the entry-by-entry definition |
| CmdApplyRemovelist.MovesFailed | pylib/cmd_apply_removelist.py:70-75 | a failed move stops the loop: later entries make no difference |
| CmdApplyRemovelist.OneEventPerEntry | pylib/cmd_apply_removelist.py:70-75 | a completed loop records one event per entry, in order |
| CmdApplyRemovelist.ApplyRemovelist | pylib/cmd_apply_removelist.py:61-78 | the removelist is applied with `_move` as written, as ApplyOf says: the holding directory is dstpath or a fresh one that is deleted at the end, the remove list is moved out, and then the restore list is moved back |
| CmdApplyRemovelist.RemovalsFirst | pylib/cmd_apply_removelist.py:69-75 | with either version of `_move`, every removal comes before every restore, each entry once, in the order of its list |
| CmdApplyRemovelist.PhasesOrder | pylib/cmd_apply_removelist.py:69-75 | with any `_move` that records its entries, the two loops record their events in list order, removals first |
| CmdApplyRemovelist.TemporaryRemoved | pylib/cmd_apply_removelist.py:64-78 | whatever `_move` does, a holding directory the tool created itself is gone at the end, with everything in it |
| CmdApplyRemovelist.RenameFile | pylib/cmd_apply_removelist.py:57 | moving a file with nothing inside it renames exactly that one path |
| CmdApplyRemovelist.MkdirChild | pylib/cmd_apply_removelist.py:56 | creating a directory whose parents all exist adds just that directory |
| CmdApplyRemovelist.MoveOnto | pylib/cmd_apply_removelist.py:57 | moving onto a path that does not exist, in an existing directory, renames the source to that path |
| CmdApplyRemovelist.MoveInto | pylib/cmd_apply_removelist.py:57 | moving onto an existing directory puts the source inside it, under its own base name |
| CmdApplyRemovelist.MoveFound | pylib/cmd_apply_removelist.py:55-57 | an existing entry is moved to its target once the target directory is made |
| CmdApplyRemovelist.MoveFoundAsWritten | pylib/cmd_apply_removelist.py:55-57 | as written, only the target's parent is made before the move |
| CmdApplyRemovelist.AsWrittenLosesRestore | pylib/cmd_apply_removelist.py:53-59 | as written, the file root/a/b is renamed to holding/a itself; restoring the entry then looks for holding/a/b, finds nothing and only warns, so the file never comes back to root/a/b |
| CmdApplyRemovelist.MoveOut | pylib/cmd_apply_removelist.py:50-57 | the corrected move takes root/a/b to holding/a/b |
| CmdApplyRemovelist.MoveBack | pylib/cmd_apply_removelist.py:50-57 | the corrected move takes holding/a/b back to root/a/b |
| CmdApplyRemovelist.RestoreUndoesRemove | pylib/cmd_apply_removelist.py:61-75 | removing an entry and restoring it gives back the original tree, plus the directory made in the holding area |
| CmdApplyRemovelist.RemoveThenRestoreLists | pylib/cmd_apply_removelist.py:30-48 | the list `/a/b`, `!/a/b` removes the one path `/a/b` and restores the same path |
| CmdApplyRemovelist.PhasesOne | pylib/cmd_apply_removelist.py:69-75 | when the list moves one entry out and back, the two loops make exactly those two moves, in that order |
| CmdApplyRemovelist.ApplyFromPhases | pylib/cmd_apply_removelist.py:64-78 | the whole apply keeps the loops' events; it keeps every path outside a fresh holding directory as the loops left it, and adds none |
| CmdApplyRemovelist.PhasesRestore | pylib/cmd_apply_removelist.py:69-75 | with `_move` corrected, the loops move root/a/b to holding/a/b and back, leaving root/a/b a file |
| CmdApplyRemovelist.ApplyAsWrittenLosesFile | pylib/cmd_apply_removelist.py:61-78 | as written, applying `/a/b`, `!/a/b` moves the file out, only warns on the restore, and ends without root/a/b |
| CmdApplyRemovelist.ApplyRestoresFile | pylib/cmd_apply_removelist.py:61-78 | with `_move` corrected, applying `/a/b`, `!/a/b` moves the file out and back, and root/a/b is a file at the end |
| Installer.OrigPath | fablib/installer.py:38 | the i-th candidate is the path followed by ".orig." and the number |
| Installer.OrigNumberOf | fablib/installer.py:38 | the number can be read back from its candidate, so distinct numbers give distinct candidates |
| Installer.GetOrigPath | fablib/installer.py:35-42 | the result is the candidate with the smallest number from 1 up that does not exist |
| Installer.Disk.constructor | fablib/installer.py:44-51 | the disk holds the given files |
| Installer.Opened | fablib/installer.py:44-51 | opening a path moves an existing file to its backup path and leaves an empty file at the path; no other file changes |
| Installer.Written | fablib/installer.py:64-65 | writing appends the text to the open file and changes nothing else |
| Installer.Reverted | fablib/installer.py:53-62 | reverting moves the backup back over the path, or removes a file that had no backup; a closed file changes nothing; a missing file to move or remove is an error |
| Installer.RevertRestores | fablib/installer.py:44-65 | opening, writing and reverting gives back exactly the files there were before |
| Installer.RevertibleFile.constructor | fablib/installer.py:44-51 | the object is opened on the path, with a fresh backup path exactly when the path existed |
| Installer.RevertibleFile.Script | fablib/installer.py:75-82 | a revertible script holds its lines joined by newlines |
| Installer.RevertibleFile.Write | fablib/installer.py:64-65 | the disk changes as Written says |
| Installer.RevertibleFile.Revert | fablib/installer.py:53-62 | the disk changes as Reverted says, and afterwards the object holds neither a path nor a backup path; a failed revert changes nothing |
| Installer.Environment | fablib/installer.py:90-93 | the chroot environment holds every given variable and sets DEBIAN_FRONTEND and DEBIAN_PRIORITY to their defaults unless they are given |
| Installer.High | fablib/installer.py:102-111 | every package of the high priority list starts with "linux-image" |
| Installer.Regular | fablib/installer.py:102-111 | no package of the regular list starts with "linux-image" |
| Installer.GetPackagesPriority | fablib/installer.py:98-113 | the loop returns the High and Regular lists |
| Installer.PriorityPartition | fablib/installer.py:98-113 | together the two lists are a permutation of the packages |
| Installer.HighOrder | fablib/installer.py:107-111 | the high list keeps the packages' order |
| Installer.RegularOrder | fablib/installer.py:107-111 | the regular list keeps the packages' order |
| Installer.PrioritySingle | fablib/installer.py:108-111 | each package goes to exactly one of the lists |
| Installer.StartIsNotEnd | fablib/installer.py:156-159 | no line both starts and ends a session |
| Installer.Reverse | fablib/installer.py:162 | the reversed log holds the same lines in the opposite order |
| Installer.Kept | fablib/installer.py:156-160 | session end lines are dropped from the log |
| Installer.KeptAppend | fablib/installer.py:155-160 | dropping end lines works line by line |
| Installer.KeptReverse | fablib/installer.py:155-162 | dropping end lines commutes with reversing the log |
| Installer.SessionUntil | fablib/installer.py:155-160 | reading stops at the first session start line |
| Installer.SessionAll | fablib/installer.py:155-160 | a log without a start line is read to its end |
| Installer.ReadSession | fablib/installer.py:155-160 | the loop returns the lines before the first start line, stripped, without the end lines |
| Installer.GetLastLogAsWritten | fablib/installer.py:152-163 | the function as written returns the lines read from the top of the file, reversed |
| Installer.AsWrittenReadsFirstLines | fablib/installer.py:152-163 | as written, the log returned is the reversed text before the first session start, not the last session |
| Installer.GetLastLog | fablib/installer.py:152-163 | the corrected function returns the lines of the last session |
| Installer.LastSession | fablib/installer.py:152-163 | the corrected log is the part after the last session start, in file order, without end lines |
| Installer.NoSession | fablib/installer.py:152-163 | a log without a start line is returned whole |
| Installer.PackageOf | fablib/installer.py:171 | the package named by an error line is the start of its base name, before the first underscore |
| Installer.ErrorsOf | fablib/installer.py:165-172 | the error list is at most as long as the log |
| Installer.GetErrors | fablib/installer.py:165-172 | the loop returns the ErrorsOf list |
| Installer.ErrorsAfterHeader | fablib/installer.py:165-172 | the errors are the package names of the lines after the last error header, from the last line back |
| Installer.ErrorsCons | fablib/installer.py:167-171 | each line after the header adds its package name at the front |
| Installer.ErrorSet | fablib/installer.py:191-194 | the set of errors holds exactly the names of the error list |
| Installer.CheckRun | fablib/installer.py:174-205 | a failed run reports a non-empty set of errors that are not ignored, all from the log; a run that goes on reports only ignored errors; a failure without an error list arises only from exit code 100 |
| Installer.CheckRunRaises | fablib/installer.py:177-205 | a failed apt-get run goes on exactly when the log lists errors that are all ignored, or lists none and the exit code is not 100 |
| Installer.AptArgs | fablib/installer.py:146-149 | the apt-get arguments are the four fixed options, the extra arguments and the packages, in that order |
| Installer.NonEmpty | fablib/installer.py:145 | empty batches are skipped |
| Installer.InstallRuns | fablib/installer.py:144-205 | batches run in order, each one only after every earlier one went on, and the first that fails stops the install |
| Installer.RunsExtend | fablib/installer.py:144-205 | adding a batch at the end keeps the order of the runs |
| Installer.RunsStep | fablib/installer.py:144-205 | one batch runs after those before it, and fails exactly when its check does not go on |
| Installer.InstallStopped | fablib/installer.py:202-205 | after a failure no later batch runs |
| Installer.Install | fablib/installer.py:115-205 | the high priority batch runs before the regular one, each failed run judged on term.log as `get_last_log` as written reads it, as InstallOf says |
| Installer.InstallBatch | fablib/installer.py:145-205 | one batch is run and judged, on term.log as `get_last_log` as written reads it, as InstallStep says |
| Installer.HighBeforeRegular | fablib/installer.py:124-144 | the high priority packages run first, and only the non-empty batches run |
| Installer.AsWrittenMissesErrors | fablib/installer.py:152-191 | as written, a failed run whose last session lists errors is never judged by them: it goes on, or fails without a list on exit code 100 |
| Installer.LastSessionErrors | fablib/installer.py:152-205 | with the last session read, an error listed after the header that is not ignored fails the install with exactly that package |
| Installer.KeptErrorList | fablib/installer.py:155-160 | an error list is read as it stands, stripped |
| Installer.ErrorListSet | fablib/installer.py:165-194 | the error set of a header and one line is that line's package |
| Installer.JudgeAsWrittenGoesOn | fablib/installer.py:145-196 | as written, a run with exit code 1 whose term.log is one session listing a failed package is let through, and the loop goes on |
| Installer.JudgeFailsOnLastSession | fablib/installer.py:145-196 | reading term.log from its end, the same run raises, naming the failed package |
| PylibPlan.Spec.constructor | pylib/plan.py:15-16 | a new spec is empty |
| PylibPlan.Spec.Add | pylib/plan.py:18-20 | adding sets the package's version, replacing any earlier one, and changes nothing else |
| PylibPlan.Spec.Remove | pylib/plan.py:22-23 | removing a package in the spec deletes just that package; removing one that is absent raises and changes nothing |
| PylibPlan.Entries | pylib/plan.py:25-28 | the spec lists one "name=version" entry per package, in the dictionary's iteration order |
| PylibPlan.SpecTextLines | pylib/plan.py:25-31 | the text of a spec splits back into its entries, and each entry's name reads back as its package |
| PylibPlan.AddOverwrites | pylib/plan.py:18-28 | after an add, the package is listed once, with its new version |
| PylibPlan.FindSub | pylib/plan.py:96-97 | the first position where the relation occurs, or none when it does not occur |
| PylibPlan.BeforeSub | pylib/plan.py:97 | the text before the first occurrence of the relation, or the whole text when it does not occur |
| PylibPlan.NameAmong | pylib/plan.py:95-98 | the name is a prefix of the declaration |
| PylibPlan.PackageName | pylib/plan.py:94-98 | the loop over the relations computes the name NameOf gives, a prefix of the declaration |
| PylibPlan.FindSubAt | pylib/plan.py:96-97 | the first occurrence is found where it is |
| PylibPlan.NameAmongAt | pylib/plan.py:95-98 | the first relation of the list that occurs decides the name |
| PylibPlan.NameAmongNone | pylib/plan.py:94-98 | a declaration without a relation is its own name |
| PylibPlan.DeclarationName | pylib/plan.py:94-98 | a plain name followed by any relation and a plain version reads back as the name |
| PylibPlan.EntryNameOf | pylib/plan.py:94-98 | a spec entry "name=version" reads back as its name |
| PylibPlan.PlainDeclaration | pylib/plan.py:94 | a declaration without relation characters is its own name |
| PylibPlan.RelationOrderWins | pylib/plan.py:95-98 | relations are tried in list order, not by position: "a=1>=2" is split at ">=", not at the earlier "=" |
| PylibPlan.Versions | pylib/plan.py:100-106 | the versions recorded hold exactly the pool's version of each resolved name |
| PylibPlan.DepsWithin | pylib/plan.py:101-112 | every dependency collected is a dependency of some pool package |
| PylibPlan.MarksStep | pylib/plan.py:108-110 | resolving a package marks the declaration, its name and "name=version" |
| PylibPlan.DepsStep | pylib/plan.py:101-112 | resolving a package collects its dependencies |
| PylibPlan.VersionsStep | pylib/plan.py:106 | resolving a package adds its version to the spec |
| PylibPlan.ResolvePackage | pylib/plan.py:94-112 | a package missing from the pool or failing its version check raises and leaves the spec alone; otherwise its version is added to the spec and its marks and dependencies are collected |
| PylibPlan.RoundStep | pylib/plan.py:93-112 | each package resolved extends the round's running totals |
| PylibPlan.RoundPackage | pylib/plan.py:93-112 | one package of the round either raises or extends the running totals |
| PylibPlan.ResolveRound | pylib/plan.py:88-115 | a round succeeds exactly when every unresolved package is good; it adds their versions to the spec, marks them, and leaves as unresolved their dependencies that are not yet marked |
| PylibPlan.RoundExtends | pylib/plan.py:106 | a round only adds pool versions, keeping the earlier entries |
| PylibPlan.SettledGrows | pylib/plan.py:106 | what is settled stays settled as the spec grows |
| PylibPlan.RoundChecks | pylib/plan.py:103-106 | each package of a round passes its check against the version it records |
| PylibPlan.MarksSettled | pylib/plan.py:108-110 | everything a round marks is settled in the spec after it |
| PylibPlan.DepCollected | pylib/plan.py:101-112 | each dependency of a resolved name is collected |
| PylibPlan.RoundKeeps | pylib/plan.py:88-115 | a round keeps the resolver's invariant: the plan and everything marked are settled, and every dependency of a resolved name is marked or still unresolved |
| PylibPlan.RoundShrinks | pylib/plan.py:108-115 | every round marks something new, so the rounds end |
| PylibPlan.ResolvingDone | pylib/plan.py:88-119 | when nothing is left unresolved the spec is a resolution of the plan |
| PylibPlan.Resolve | pylib/plan.py:70-119 | a successful resolve returns a spec that satisfies every plan package and every dependency of a package in it, each version taken from the pool; a failure names a package missing from the pool or failing its version check |
| PylibDeb.ProvidersNotVirtual | pylib/deb.py:64-71 | no providing package of the virtuals table is itself virtual |
| PylibDeb.ParseNameRewrites | pylib/deb.py:62-76 | `parse_name` changes exactly the seven virtual names, and applying it twice is applying it once |
| PylibDeb.PreinstallKept | pylib/deb.py:62-82 | a kernel image, which `is_preinstall` singles out, is never rewritten by `parse_name` |
| PylibDeb.VirtualsThirdChar | pylib/deb.py:64-71 | no virtual name could start with "linux-image" |
| PylibDeb.ParseFilename | pylib/deb.py:54-60 | a file name not ending in ".deb" raises, and so does one without an underscore, whose split has too few fields; otherwise name and version carry no underscore |
| PylibDeb.FieldCount | pylib/deb.py:58 | a split has two fields or more exactly when the separator occurs |
| PylibDeb.FilenameRoundTrip | pylib/deb.py:54-60 | "name_version" followed by "_arch.deb" or by ".deb" alone reads back as the name and the version |
| PylibDeb.FieldsOf | pylib/deb.py:58 | the first two underscore fields of such a name are the name and the version |
| PylibDeb.LastPair | pylib/deb.py:46 | the last position of the two characters " (" in a row, or none |
| PylibDeb.MatchIsGreedy | pylib/deb.py:46 | the regular expression matches exactly when some positions fit, and its groups end at the greatest fitting positions, in the order the groups are tried |
| PylibDeb.FitBounds | pylib/deb.py:46 | every fit lies at or before the match found |
| PylibDeb.LastBefore | pylib/deb.py:46 | no occurrence of a character comes after its last one |
| PylibDeb.DependsOf | pylib/deb.py:42-52 | one parsed dependency per element |
| PylibDeb.ParseOne | pylib/deb.py:46-50 | an element is parsed by the regular expression's groups (1, 3, 2); an element without a closing parenthesis is its own stripped name, with no version or relation |
| PylibDeb.ParseDepends | pylib/deb.py:42-52 | the loop returns the element-by-element list |
| PylibDeb.DependsStep | pylib/deb.py:45-50 | each element appends its own parse |
| PylibDeb.DependRoundTrip | pylib/deb.py:46-48 | "name (relation version)" reads back as the name, the version and the relation |
| PylibDeb.ParseDeclaration | pylib/deb.py:46-48 | a text laid out as "name (relation version)" reads back as its pieces |
| PylibDeb.MatchGroups | pylib/deb.py:48 | the groups kept are the text before " (", the text after the last space, and the text between |
| PylibDeb.DeclaredLine | pylib/deb.py:46 | stripping such a text leaves it whole, and it has no newline for `.` to stop at |
| PylibDeb.DeclaredMatch | pylib/deb.py:46 | the match of such a text is at its own " (", space and ")" |
| PylibDeb.PlainDepend | pylib/deb.py:49-50 | an element without ")" is its own stripped name |
| PylibDeb.ChoiceFirst | pylib/deb.py:30-34 | the first alternative whose package exists is chosen |
| PylibDeb.ChoiceLast | pylib/deb.py:30-34 | when none exists, the last alternative is chosen, as the loop leaves it |
| PylibDeb.ChooseAlternative | pylib/deb.py:31-34 | the loop stops at the alternative Choice names |
| PylibDeb.DepSetMembers | pylib/deb.py:27-38 | a name is a dependency exactly when some element of the field asks for it |
| PylibDeb.DependName | pylib/deb.py:30-36 | an element with alternatives yields the alternative chosen, any other its name after `parse_name` |
| PylibDeb.DepSetStep | pylib/deb.py:38 | each element adds the name it asks for |
| PylibDeb.CollectDeps | pylib/deb.py:27-38 | the loop collects the names of DepSet |
| PylibDeb.Info | pylib/deb.py:20-40 | `info` returns the package's version and, when it has a Depends field, the names its elements ask for; without the field, no dependencies |
| PylibFab.PackageNameAgrees | pylib/fab.py:20-39 | `parse_package_name` agrees with `parse_name` of pylib/deb.py on every name except `awk`, which only the latter rewrites |
| PylibFab.PackageNameRewrites | pylib/fab.py:20-39 | exactly the six listed virtual names are rewritten, and rewriting twice is rewriting once |
| PylibFab.StrippedLinesMembers | pylib/fab.py:57-58 | the entries read from a text are exactly its stripped lines |
| PylibFab.PackagesSpec.constructor | pylib/fab.py:42-44 | a new spec holds no entries |
| PylibFab.PackagesSpec.Add | pylib/fab.py:46-48 | adding stores the entry "name=version" and keeps every other entry |
| PylibFab.PackagesSpec.Read | pylib/fab.py:52-58 | reading a text adds each of its stripped lines |
| PylibFab.PackagesSpec.Exists | pylib/fab.py:60-68 | with a non-empty version the exact entry is looked up; otherwise the name is searched for as a substring of each entry |
| PylibFab.PackagesSpec.Holds | pylib/fab.py:60-68 | the corrected search finds an entry for the name itself, the name alone or followed by `=` |
| PylibFab.AddedIsFound | pylib/fab.py:46-68 | an added entry is found by both forms of `exists` and lists its name |
| PylibFab.ListsAdded | pylib/fab.py:46-68 | after an add, another name is listed exactly when it was listed before or is the added name |
| PylibFab.SamePrefixName | pylib/fab.py:47 | an entry "name=version" starts with "other=" only when other is name |
| PylibFab.SubstringShadows | pylib/fab.py:65-67 | as written, the entry "perl-base=5.8.8" makes "perl" look resolved, though no entry for "perl" exists |
| PylibFab.ChoiceNormal | pylib/fab.py:136-142 | the alternative chosen from a group is already a normalised name |
| PylibFab.ListsGrows | pylib/fab.py:123-144 | a name once listed stays listed as the spec grows |
| PylibFab.PendingShrinks | pylib/fab.py:125-131 | each name added leaves fewer pool names to resolve, so the recursion ends |
| PylibFab.DepsListedGrows | pylib/fab.py:132-144 | a package whose dependencies are listed keeps them listed as the spec grows |
| PylibFab.EntriesUnion | pylib/fab.py:131 | the entries of two sets of names are the entries of each |
| PylibFab.EntriesAfter | pylib/fab.py:131-144 | the entries added by successive calls are the entries of all the names they resolved |
| PylibFab.WalkedDone | pylib/fab.py:132-144 | after the walk, every dependency group of every name resolved has its chosen alternative listed |
| PylibFab.WalkedStep | pylib/fab.py:133-144 | resolving one more group keeps the walk's invariant |
| PylibFab.WalkedStart | pylib/fab.py:131 | the walk starts with the name's own entry |
| PylibFab.GetPackageSpec | pylib/fab.py:123-144 | the spec only grows, by the entries of the names resolved; a name already listed changes nothing; an unlisted name missing from the pool fails with `NoPackage` of that name, the spec unchanged; on success the name is listed and so is the chosen alternative of every dependency group of every name resolved |
| PylibFab.PlannedStep | pylib/fab.py:152-153 | resolving one more plan name keeps every earlier one listed |
| PylibFab.ResolveNames | pylib/fab.py:152-153 | on success every plan name is listed, with its dependencies |
| PylibFab.PlanResolve | pylib/fab.py:146-153 | the spec starts from the excluded entries, when any, and grows by the entries of the names resolved; on success it lists every plan name and every dependency chosen |
| Query.FieldLines | pylib/cmd_query.py:50-53 | at most one line per field name, and none for a field the control lacks |
| Query.IndexLines | pylib/cmd_query.py:48-55 | the index holds at least one line per package |
| Query.EmitFields | pylib/cmd_query.py:50-53 | the inner loop emits the lines of BlockLines |
| Query.GenerateIndex | pylib/cmd_query.py:39-57 | the index is the packages' blocks, in the dictionary's iteration order, joined by newlines |
| Query.FieldLinesAppend | pylib/cmd_query.py:50-53 | the field loop works field by field |
| Query.FieldLinesSound | pylib/cmd_query.py:50-53 | every emitted line is "Field: value" for a listed field the control has |
| Query.FieldLinesComplete | pylib/cmd_query.py:50-53 | every listed field the control has is emitted |
| Query.FieldSkipped | pylib/cmd_query.py:51-52 | a field the control lacks emits nothing |
| Query.FieldOrder | pylib/cmd_query.py:50-53 | fields are emitted in the order of the field list |
| Query.FieldNamesColonFree | pylib/cmd_query.py:41-46 | no field name holds a colon |
| Query.FieldNamesNewlineFree | pylib/cmd_query.py:41-46 | no field name holds a newline |
| Query.BlockLineField | pylib/cmd_query.py:50-53 | the text before the colon of each emitted line is a listed field, and no emitted line is blank |
| Query.LineField | pylib/cmd_query.py:53 | a line "Field: value" reads back as its field |
| Query.Blanks | pylib/cmd_query.py:55 | there are no more blank lines than lines |
| Query.BlanksAppend | pylib/cmd_query.py:48-55 | counting blank lines works piece by piece |
| Query.BlockHasNoBlank | pylib/cmd_query.py:50-53 | a package's block holds no blank line |
| Query.OneBlankPerBlock | pylib/cmd_query.py:48-55 | the index holds exactly one blank line per package, so its blocks can be told apart |
| Query.IndexAppend | pylib/cmd_query.py:49-55 | one more package appends its block and a blank line |
| Query.BlockLinesFree | pylib/cmd_query.py:53 | with newline-free values, each emitted line is newline-free |
| Query.IndexLinesFree | pylib/cmd_query.py:48-55 | with newline-free values, every line of the index is newline-free |
| Query.IndexSplits | pylib/cmd_query.py:57 | the joined index splits back at its newlines into its lines |
| Cpp.FirstPrefix | pylib/cpp.py:32-33 | the first cpp option, in list order, that the argument starts with, or none when it starts with none |
| Cpp.MatchCppArg | pylib/cpp.py:32-52 | the loop over the options finds the option CppArgOf gives |
| Cpp.SplitCppArgs | pylib/cpp.py:22-54 | every option taken is a cpp option, no argument kept is one, nothing is invented, and a failure names a cpp option given without a value |
| Cpp.Getopt | pylib/cpp.py:22-54 | the loop, deleting what it takes from its copy of argv, returns what SplitCppArgs gives |
| Cpp.CombineCombine | pylib/cpp.py:29-54 | options and kept arguments accumulate in order |
| Cpp.StepKeep | pylib/cpp.py:51-52 | an argument that is not a cpp option is kept and the scan moves past it |
| Cpp.StepMissing | pylib/cpp.py:34-39 | a bare option as the last argument fails with "no value for option" |
| Cpp.StepOption | pylib/cpp.py:34-49 | a bare option takes the next argument as its value and both are deleted; an attached option is split after the option and deleted |
| Cpp.SplitAppend | pylib/cpp.py:22-54 | splitting two lists one after the other is splitting their concatenation |
| Cpp.MissingValue | pylib/cpp.py:34-39 | any list ending in a bare option fails |
| Cpp.Bare | pylib/cpp.py:34-42 | the bare form spends two arguments per option |
| Cpp.Attached | pylib/cpp.py:44-47 | the attached form spends one argument per option |
| Cpp.OptionOf | pylib/cpp.py:32-33 | an option followed by any text is read as that option |
| Cpp.BareRoundTrip | pylib/cpp.py:22-54 | options written bare, followed by other arguments, read back as the options and the arguments |
| Cpp.KeptAsIs | pylib/cpp.py:51-54 | arguments without cpp options come back untouched |
| Cpp.AttachedRoundTrip | pylib/cpp.py:22-54 | options written attached read back as themselves |
| Cpp.CommandArgs | pylib/cpp.py:71-77 | the cpp command line holds one argument per option, and one more for an include path |
| Cpp.CommandArgsRoundTrip | pylib/cpp.py:71-77 | the command line built by `cpp` reads back through `getopt` as the options, followed by `-I` with the include path when one is set and not empty |
| Bootstrap.SectionOf | share/bootstrap/bootstrap_spec.py:17-22 | exactly the lines "# REQUIRED" and "# BASE" select a list, each its own |
| Bootstrap.ErrorStops | share/bootstrap/bootstrap_spec.py:19-27 | a refused line stops the parse: the lines after it make no difference |
| Bootstrap.ParseBootstrapSpec | share/bootstrap/bootstrap_spec.py:14-29 | the loop returns the two lists of the line-by-line definition, or the error of the first refused line (one that does not split into exactly two parts at `=`, or a package before any header) |
| Bootstrap.StepGrows | share/bootstrap/bootstrap_spec.py:19-27 | a line never shortens either list |
| Bootstrap.ListsOnlyGrow | share/bootstrap/bootstrap_spec.py:19-27 | the lists of a parsed prefix are contained in the lists of the whole spec |
| Bootstrap.BlankSkipped | share/bootstrap/bootstrap_spec.py:20-25 | a blank line changes nothing |
| Bootstrap.HeaderSwitches | share/bootstrap/bootstrap_spec.py:21-23 | a header line, whitespace around it ignored, only switches the list names go to |
| Bootstrap.NoHeaderAllBlank | share/bootstrap/bootstrap_spec.py:19-27 | a spec without headers parses only when every line is blank, and then both lists are empty |
| Bootstrap.EntryLines | share/bootstrap/bootstrap_spec.py:26 | one spec line per package |
| Bootstrap.Names | share/bootstrap/bootstrap_spec.py:26-27 | one name per package |
| Bootstrap.EntryLine | share/bootstrap/bootstrap_spec.py:20-26 | a line "name=version" strips to itself, is no header and splits into the name and the version |
| Bootstrap.StepEntry | share/bootstrap/bootstrap_spec.py:25-27 | a package line appends its name to the list the last header selected |
| Bootstrap.EntriesAppend | share/bootstrap/bootstrap_spec.py:19-27 | package lines under a header append their names to that list, in order |
| Bootstrap.RenderRoundTrip | share/bootstrap/bootstrap_spec.py:14-29 | a spec written as the REQUIRED header, its packages, the BASE header and its packages reads back as the two lists of names |
| Bootstrap.HeaderLine | share/bootstrap/bootstrap_spec.py:20 | a header line with its newline strips to the header |
| TurnkeyVersion.DistOf | share/turnkey-version.py:40 | the distribution group is never empty |
| TurnkeyVersion.LazyEnd | share/turnkey-version.py:40 | the lazy version group ends at a position where ") dist;" follows |
| TurnkeyVersion.MatchEnds | share/turnkey-version.py:40 | the match puts a non-empty name before " (" and ") dist;" after the version |
| TurnkeyVersion.HeadingPieces | share/turnkey-version.py:40 | a line starting with a heading "name (version) dist;" holds each piece where the heading puts it |
| TurnkeyVersion.ClosesAt | share/turnkey-version.py:40 | ") dist;" with a non-empty run of word characters closes the version, and its distribution is dist |
| TurnkeyVersion.NameRun | share/turnkey-version.py:40 | the name group, `\S+`, runs up to the first space |
| TurnkeyVersion.LazyEndSound | share/turnkey-version.py:40 | the version group holds no newline, since `.` does not match one |
| TurnkeyVersion.LazyEndFirst | share/turnkey-version.py:40 | the lazy group stops at the first position that closes |
| TurnkeyVersion.HeadingAt | share/turnkey-version.py:40 | pieces at the right positions form a heading at the start of the line |
| TurnkeyVersion.ClosesPieces | share/turnkey-version.py:40 | a closing text holds its distribution and the `;` after it |
| TurnkeyVersion.NameNoSpace | share/turnkey-version.py:40 | the name group holds no whitespace |
| TurnkeyVersion.MatchSound | share/turnkey-version.py:40-44 | every match found fits the pattern |
| TurnkeyVersion.MatchEndsOfFit | share/turnkey-version.py:40 | whenever a heading fits, the match is found, with the same name and a version no longer than the fitting one |
| TurnkeyVersion.MatchLeftmostShortest | share/turnkey-version.py:40-44 | the match found is the one Python's lazy matching returns: the name up to the first space and the shortest version that fits |
| TurnkeyVersion.FitRoundTrip | share/turnkey-version.py:40-44 | a line the pattern accepts with a version free of `)` matches with exactly the name, version and dist it fits with |
| TurnkeyVersion.HeadingRoundTrip | share/turnkey-version.py:35-45 | a first line "name (version) dist;" reads back as name, version and dist, whatever follows |
| TurnkeyVersion.ChangelogErrors | share/turnkey-version.py:35-45 | a missing changelog and a first line that does not match are the two errors, each with its message; a result fits the first line |
| TurnkeyVersion.VersionFromHeading | share/turnkey-version.py:47-53 | the version is "name", the tag, "-", the distribution (the override when one is given and not empty) and "-x86" |
| TurnkeyVersion.NewlineFree | share/turnkey-version.py:39-40 | a heading holds no newline, so it fits on the first line |
| ReleaseDeb.NameEnd | share/make-release-deb.py:51 | the name group ends within the line |
| ReleaseDeb.MatchEnds | share/make-release-deb.py:51 | the match puts a non-empty name before " (" and a non-empty version before ")" |
| ReleaseDeb.HeadingPieces | share/make-release-deb.py:51 | a line starting with "name (version)" holds each piece where the heading puts it |
| ReleaseDeb.HeadingAt | share/make-release-deb.py:51 | pieces at the right positions form a heading at the start of the line |
| ReleaseDeb.NameEndOf | share/make-release-deb.py:51 | a valid package name followed by a space is matched whole by the name group |
| ReleaseDeb.NameEndIsName | share/make-release-deb.py:51 | the name group starts with a word character followed by lower-case letters, digits and `-+.` |
| ReleaseDeb.MatchSound | share/make-release-deb.py:51-55 | every match found fits the pattern |
| ReleaseDeb.GreedyClose | share/make-release-deb.py:51 | the greedy `\S+` group backtracks to the last `)` of the non-space run |
| ReleaseDeb.MatchGreedy | share/make-release-deb.py:51-55 | whenever a heading fits, the match has the same name and a version at least as long, as greedy matching gives |
| ReleaseDeb.FitRoundTrip | share/make-release-deb.py:51-55 | a line the pattern accepts whose `)` is followed by whitespace or the end matches with exactly the name and version it fits with |
| ReleaseDeb.HeadingRoundTrip | share/make-release-deb.py:49-56 | a first line "name (version)" followed by nothing or whitespace reads back as the name and the version |
| ReleaseDeb.LinesJoin | share/make-release-deb.py:26-35 | the control template is its lines, each ended by a newline |
| ReleaseDeb.LinesSplit | share/make-release-deb.py:26-35 | such a text splits back into its lines and an empty last piece |
| ReleaseDeb.ConcatFree | share/make-release-deb.py:26-35 | joining newline-free pieces adds no newline |
| ReleaseDeb.MaintainerFree | share/make-release-deb.py:30 | the maintainer line holds no newline |
| ReleaseDeb.FixedFree | share/make-release-deb.py:29-33 | the fixed fields hold no newline |
| ReleaseDeb.FieldsFree | share/make-release-deb.py:26-35 | with a newline-free name and version, every control line is newline-free |
| ReleaseDeb.ControlTextLines | share/make-release-deb.py:26-35 | the control file holds exactly the eight fields, one per line, in template order, with the name and version filled in |
| ReleaseDeb.ReleaseFromChangelog | share/make-release-deb.py:49-65 | a changelog whose first line is "name (version)" yields that name and version, and the control file built from them |
| ExecProxy.CleanAll | execproxy.c:23-36 | every entry of the environment is cleaned, in place, one for one |
| ExecProxy.CleanRules | execproxy.c:24-35 | an entry starting with LD_, _RLD or PYTHON has its first character replaced by X; IFS=, CDPATH= and ENV= entries are replaced by their defaults; any other entry is kept |
| ExecProxy.CleanSafe | execproxy.c:23-36 | no cleaned entry starts with a dangerous prefix, and the only IFS entry left is the default |
| ExecProxy.CleanIdempotent | execproxy.c:23-36 | cleaning a cleaned entry changes nothing |
| ExecProxy.CleanEntries | execproxy.c:23-36 | the loop over the environment array leaves in each slot the cleaned entry |
| ExecProxy.Getenv | execproxy.c:37 | a variable has no value exactly when no entry starts with its name and `=` |
| ExecProxy.PutEnv | execproxy.c:37 | setting a variable replaces one entry or appends one |
| ExecProxy.GetenvPut | execproxy.c:37 | after setting a variable, it reads back as the value set |
| ExecProxy.GetenvPutOther | execproxy.c:37 | setting a variable leaves every other variable as it was |
| ExecProxy.DangerousExtends | execproxy.c:24-29 | an entry for a dangerous name is itself dangerous |
| ExecProxy.DangerousHidden | execproxy.c:23-36 | after cleaning, no variable with a dangerous name has a value |
| ExecProxy.IfsDefault | execproxy.c:30-31 | after cleaning, IFS is unset or holds the default space, tab and newline |
| ExecProxy.ScrubbedEnvironment | execproxy.c:12-38 | after `clean_environ`, PATH holds the fixed safe path and no dangerous variable has a value |
| ExecProxy.CBasename | execproxy.c:48 | the program name is never empty for a non-empty path |
| ExecProxy.ProgramName | execproxy.c:48 | the program name of "dir/name" is name |
| ExecProxy.ExecArgs | execproxy.c:48-55 | the python command line is the program name, "-O", "-E", the module path, then the arguments after argv[0] |
| ExecProxy.ExecVector | execproxy.c:48-56 | the vector holds the command line and ends with a null pointer |
| ExecProxy.ArgumentsPassed | execproxy.c:53-55 | argument k is passed in slot k+3 |
| ExecProxy.ArgvCopy | execproxy.c:46-56 | a fresh array of argc+5 slots whose first argc+4 hold the vector |
| ExecProxy.Run | execproxy.c:40-81 | a caller whose real and effective ids agree runs python with the environment untouched; otherwise a module owned by neither root nor the effective user, or one that cannot be examined, ends with exit status 1 and nothing changed; a trusted module runs with the environment cleaned and PATH reset |
| CdrootUsb.ParsePartition | contrib/cdroot2usb.py:42-59 | a line is refused unless it splits into exactly eight whitespace separated fields; the first is the partition's path, and the partition is bootable exactly when the second is `*` |
| CdrootUsb.ErrorStops | contrib/cdroot2usb.py:88-95 | a refused line stops the reading of the table |
| CdrootUsb.ReadPartitionTable | contrib/cdroot2usb.py:88-95 | the loop returns the partitions of the lines starting with the device path, in order, or the first refusal |
| CdrootUsb.FirstBootable | contrib/cdroot2usb.py:97-102 | the index of the first bootable partition, or none when no partition is bootable |
| CdrootUsb.GetBootablePartition | contrib/cdroot2usb.py:97-102 | the first bootable partition of the table, or None; a table that cannot be read is an error |
| CdrootUsb.CheckBootPartition | contrib/cdroot2usb.py:72-75 | the device is accepted exactly when it has a bootable partition of an allowed type |
| CdrootUsb.CheckBootPartitionAsWritten | contrib/cdroot2usb.py:72-75 | as written, the type is accepted whenever it is a substring of the string "16" |
| CdrootUsb.AsWrittenAcceptsOtherTypes | contrib/cdroot2usb.py:165 | as written, types "1", "6" and the empty type pass, which the one-element list of Hidden FAT16 refuses |
| CdrootUsb.OnlyHiddenFat16 | contrib/cdroot2usb.py:72-75 | with the ids as a list, only a bootable Hidden FAT16 partition is accepted |
| CdrootUsb.BootableLine | contrib/cdroot2usb.py:42-59 | eight words whose second is `*` read as a bootable partition with the fields after the mark |
| CdrootUsb.PlainLine | contrib/cdroot2usb.py:42-59 | eight words whose second is not `*` read as a partition that is not bootable |
| CdrootUsb.SevenWordsRefused | contrib/cdroot2usb.py:46-47 | a line of seven words is refused |
| CdrootUsb.PartitionsOfLines | contrib/cdroot2usb.py:88-95 | every line starting with the device path is parsed, and its partition is in the table |
| CdrootUsb.OtherLineSkipped | contrib/cdroot2usb.py:92-93 | lines not starting with the device path contribute nothing |
| IsoUsb.IsHybrid | contrib/iso2usb.py:65-81 | the image is hybrid exactly when fdisk reports the hybrid partition type; without it, a zero disk identifier or a missing partition table means plain; anything else is an error |
| IsoUsb.ContainsMiddle | contrib/iso2usb.py:72-79 | a text contains every piece it is built around |
| IsoUsb.HybridMarkWins | contrib/iso2usb.py:72-73 | the hybrid mark decides wherever it appears |
| IsoUsb.ZeroIdentifierPlain | contrib/iso2usb.py:75-76 | a zero disk identifier, without the mark, means a plain image |
| IsoUsb.NoTablePlain | contrib/iso2usb.py:78-79 | a missing partition table, without the mark, means a plain image |
| IsoUsb.MakeHybrid | contrib/iso2usb.py:59-63 | conversion succeeds exactly when the image then reads as hybrid; a plain image is "iso not verified as hybrid mode" |
| IsoUsb.IsPartition | contrib/iso2usb.py:105-111 | a path is a partition exactly when its last character is a digit; an empty path raises |
| IsoUsb.PartitionSuffix | contrib/iso2usb.py:105-111 | a disk path followed by a digit reads as a partition, the disk path alone does not |
| IsoUsb.Name | contrib/iso2usb.py:119-123 | the name is the udevadm output up to its first space |
| IsoUsb.NameOfTokens | contrib/iso2usb.py:123 | the first token reads back, whatever follows it |
| IsoUsb.UsbInFirstToken | contrib/iso2usb.py:113-117 | a first token mentioning usb makes a usb device |
| IsoUsb.CheckUsb | contrib/iso2usb.py:85-98 | a device is accepted exactly when its path exists, is a block device, is not a partition and is named as a usb device; the first failing check gives the message |
| IsoUsb.Stdout | contrib/iso2usb.py:122 | the output is there only when it is captured |
| IsoUsb.NameAsWritten | contrib/iso2usb.py:119-123 | as written, a name, when there is one, is the intended name |
| IsoUsb.CheckUsbAsWritten | contrib/iso2usb.py:85-123 | as written, the path checks come first and agree with the intended ones |
| IsoUsb.UsbDiskAccepted | contrib/iso2usb.py:85-123 | a whole disk named as a usb device passes the intended checks |
| IsoUsb.AsWrittenRefusesEveryDevice | contrib/iso2usb.py:85-123 | as written, every device that passes the path checks fails on reading its name |

## Left out

- Pool access (`PackageGetter` fetching into temporary directories, the pool library): the pool is a parameter, a map from request string or name to the newest package's control fields, plus an `exists` predicate.
- Debian version ordering (`debian_support.version_compare`, section 5.6.12 of the Debian Policy Manual): an uninterpreted comparison parameter; pylib's `checkversion` likewise.
- Reading `.deb` files and control paragraphs (`debfile`, `apt_inst`, `Deb822`): control records are given maps, and the paragraph parser of `iter_packages` is a parameter.
- Python 2 dictionary and set iteration order: a parameter or a nondeterministic choice, so every property is proved for any order.
- The `cpp` binary and its invocation (`cpp`'s `_getoutput` in pylib/cpp.py, fablib/cpp.py, pylib/cpp_opts.py, pylib/cmd_cpp.py): only the option splitting and the argument list handed to the preprocessor are modelled.
- Running apt, debootstrap and initramfs in the chroot (fablib/installer.py:207-224), `_get_package_index` hashing, and `RevertibleFile.__del__`, `close` and `chmod`, which depend on the garbage collector and the file system.
- The MD5 keys of the plan linters: an injective key function given as a parameter; its hex digits are not modelled.
- `get_origins` (fablib/plan.py:407-415) is defined but never called, so it has no counterpart.
- Character classes: whitespace follows `Text.Flavor`: the six ASCII whitespace characters for the byte strings of pylib, share/ and contrib/cdroot2usb.py, and the Unicode whitespace of `str.isspace` for the `str` of fablib. The `\w` of `FabDependency.IsVersionChar` (fablib/plan.py:147) is its ASCII members only, and `int()` of Unicode digits is not modelled.
- `glob.glob` is a parameter of the removal loop; `os.path` normalisation of repeated or trailing `/` is reduced to the trailing-`/` case.
- `shutil.move` onto an existing path: a file replaces a file, and every other clash is an error, a simplification of its rename-into-directory rules.
- The temporary holding directory of `apply_removelist` is a parameter `tmp`, assumed fresh.
- Command-line mains, `getopt` use and usage texts of every command, and the file system work of `make_release_deb`.
- `udevadm`, `fdisk`, `mount`, `isohybrid`, `dd`, `is_mounted`, the path resolution of `Iso`, and the interactive confirmation of contrib/iso2usb.py and contrib/cdroot2usb.py: command outputs are given strings or lines, and the file tests are booleans.
- `stat` and `execv` in execproxy.c: the module's owner is a parameter and the hand-over is the method's result; a failing `execv` and the messages on stderr are not modelled.
- execproxy.c: C strings are values, so overwriting the first character of an environment entry in place, which other pointers to that entry would see, is modelled as replacing the entry; `putenv` follows glibc's rule (replace the first entry of that name, else append).
- `ExecProxy` requires at least one argument (`argc >= 1`): with `argc == 0` the source reads `argv[0]` as NULL, behaviour C leaves undefined.
- pylib/deb.py's pool check (`_package_exists` under `POOL_DIR`) and pylib/fab.py's `Packages` pool lookups are the `available` parameter and a given map.
- `PackagesSpec.print_spec` and the output written by the commands.
- FabDependency.ParseDependency: the error does not state the text it reports, only that parsing failed.
- PylibFab.GetPackageSpec: asks whether the name is listed with the corrected `Holds`, where `get_package_spec` calls the substring `exists`; where the code skips a name that another entry contains (`perl` beside `perl-base=5.8.8`), the model adds it (see Findings).
- PylibPlan.Resolve: the pool holds one package per name, the version `pool-get` fetches for the bare name, and every declaration is checked against it; `Pool.get` (pylib/pool.py:45-52) strips only `>>`, `>=`, `<=` and `<<`, so a pin `name=version` asks `pool-get` for that version, and a pin on an older version the pool holds resolves in the code but raises `VersionError` in the model. Two declarations of one name in a round, which the code resolves against whichever `.deb` the fetch directory keeps, are likewise read against the one version.
- PylibDeb.ParseFilename: does not state the field layout of an arbitrary name; the round trip `FilenameRoundTrip` states what it reads back.

## Findings

| source | as written | input that shows it | evidently intended | confidence | as-written member | corrected member |
|---|---|---|---|---|---|---|
| fablib/annotate.py:68 | each block comment is keyed by `hashlib.md5(comment)` on a `str`, which Python 3 refuses with `TypeError` | the plan `/**/`, or any plan holding a block comment | the comment is encoded before hashing, so that plans with block comments are linted | not executed | FabAnnotate.AsWrittenRejectsComments | LintText.CopiedPlanKept |
| pylib/cmd_apply_removelist.py:56 | `_move` creates `dirname(dst)` instead of `dst`, so when the entry's directory is missing from the holding tree the entry is renamed to that directory's path | the list `/a/b`, `!/a/b` with no `a` under the holding directory: the file becomes `holding/a`, the restore of `/a/b` finds nothing and only warns, and the file is lost | the entry's directory is created and the entry moved into it, so that restoring it brings it back | not executed | CmdApplyRemovelist.ApplyAsWrittenLosesFile | CmdApplyRemovelist.ApplyRestoresFile |
| fablib/installer.py:152-163 | `get_last_log` reads `term.log` from the start and stops at the first `Log started:`, so it returns what precedes the first session | a run with exit code 1 whose `term.log` is `Log started: …`, the error header and `/var/cache/apt/archives/foo_1.0_amd64.deb`: the log read is empty, so the install carries on instead of raising for `foo` | the log is read from its end back to the last `Log started:` | not executed | Installer.JudgeAsWrittenGoesOn | Installer.JudgeFailsOnLastSession |
| pylib/fab.py:60-68 | `exists(name)` tests whether `name` is a substring of a stored `name=version` entry | the spec `{"perl-base=5.8.8"}` answers that `perl` exists, so `perl` is never added | `name` is the name part of some stored entry | not executed | PylibFab.SubstringShadows | PylibFab.PackagesSpec.Holds |
| contrib/cdroot2usb.py:165 | `('16')` is the string `"16"`, so `id not in filesystem_ids` is a substring test | partition ids `1`, `6` and the empty id are accepted | only Hidden FAT16 (`16`) is accepted | not executed | CdrootUsb.AsWrittenAcceptsOtherTypes | CdrootUsb.OnlyHiddenFat16 |
| contrib/iso2usb.py:119-123 | `udevadm info` runs without capturing its output, so `stdout` is `None` and `.split` raises | any block device whose path ends in a letter, usb or not, is refused with `AttributeError` | the output is captured and its first token tested for `usb` | not executed | IsoUsb.AsWrittenRefusesEveryDevice | IsoUsb.UsbDiskAccepted |
| fablib/resolve.py:60-61 | `annotate_spec` is handed the `(spec, broken)` pair that `resolve` returns, not the spec's entries | any plan that `resolve` returns for (a non-empty one, when there is a pool): with a pool `len` of the `Spec` raises TypeError, without one `.split` of a list raises AttributeError | the spec's `name=version` entries are annotated with their origins | not executed | FabResolve.ResolvePlanAsWrittenFails | FabResolve.AnnotateSpecEntries |
