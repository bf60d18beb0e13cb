# SysDeck and klanker-gate: verified models

This project models the small text and state machines that SysDeck's bridge and
klanker-gate's scripts rest on, and proves what they promise. `dafny verify
dfyconfig.toml` checks it.

- **Theme engine** (`CockpitConf`, `ConfText`, `ConfLaws`, `ConfComments`,
  `Overrides`, `OverridesText`, `ThemeEngine`, `ThemeRuns`, `PresetLaws`):
  cockpit.conf and overrides.css are text files meant to behave as maps. The model
  has the parser, the serializer and the unanchored search, substitution and
  insertion, and proves over whole runs of commands when the text refines a map.
- **Package lists** (`PackageText`, `Archiso`, `Mkosi`, `MkosiText`, `MkosiLaws`,
  `LegacyMkosi`, `LegacyText`, `LegacyLaws`): the scanners that read names out of a
  file, the writers that put them back, and the migration of the old indented form.
  Read-back, frame and byte-level idempotence are stated with their exact conditions.
- **SBOM closure** (`Crawl`, `Sbom`, `SbomJsr`): the worklist crawl is graph
  reachability, and labels and edges of the components follow from it.
- **KV to PostgreSQL migration** (`KvMigration`, `NumberLaws`): runs cut off at any
  store call, then one full run, converge; for counters exactly where doubles hold
  the counts.
- **Load bench** (`LoadBench`, `Percentile`): the worker pool as a state machine over
  all interleavings, and the nearest-rank percentile.
- **Port editor** (`PortConfig`, `PortText`, `CaddyPort`, `PortLines`, `AtomicReplace`,
  `Listeners`): the port read back after an edit, the temporary file, sync and rename
  under errors and crashes, and the partition of listening sockets.
- **Supporting parsers** (`TomlLines`, `TomlText`, `TomlComments`, `QCrowsToml`,
  `Exposition`, `ZypperTable`, `AtomNames`): nested metadata sections, label escaping,
  header-driven tables and package atoms.

`Text`, `OrderedDict` and `Decimals` hold strings as Python sees them,
insertion-ordered dictionaries and decimal digits. Loops and objects of the source
are methods and classes here, each proved against a function; the laws are lemmas
about these functions. What a scanner accepts is said of the text as well, both
ways: every text of a given form is read as said, and only such texts are.

Strings are sequences of characters. `splitlines` ends lines at `\n` only and white
space is ASCII. Regular expressions are written out as scanners. Whether a write
succeeds is a parameter; a write that fails leaves the file as it was, except in
`AtomicReplace`, where every step may fail on its own.

## Where the code and its documentation differ

The model follows the code.

- Comments in cockpit.conf are dropped on every rewrite, although
  bridge/themes.py:170-175 says they are kept: `RewriteDropsComments`.
- An indented entry that looks like a header without its indent, such as `  [a=b]`,
  does not survive a rewrite, nor does an empty section survive set and unset:
  `RewriteKeepsParse`, `UnsetAfterFreshSet`.
- The mkosi rewriter knows a header only with its line break, the reader without:
  `OutsideSurvives` and `ReadBack` say exactly what this costs.
- The legacy migration joins the last name with the following line unless that is
  blank, indented or missing: `MigrationGlues`, `MigrationKeepsListExactly`.
- The port editor's comment that only the digits change (bridge/firewall.py:2540-2541)
  is false at the end of a file or before blank lines: `OnlyDigitsChange`. Its
  success reply is not durable: `CrashOutcomes`.
- Counters beyond 2^53 pass through a double, so a re-run may add again:
  `ConvergesExactly`, `RerunKeepsCounter`, `RerunOvercounts`.
- JSR edges are resolved after the key array was sorted in place, the crawl before:
  `JsrEdgesStayRequired`, `JsrEdgeToDev`.
- A request counts as two failures when its cancel throws: `FailuresCounted`.
- Comments after metadata values are stripped from quoted strings only:
  `CommentStays`.
- A one-digit version is not split off an atom: `SplitOfJoin`, `OneDigitStays`.
- Label line breaks become spaces, where the exposition format would escape them.

## Model

| member | source | states |
|---|---|---|
| `CockpitConf.ParseConf` | bridge/themes.py:177-202 | the line loop over `current` and `sections` computes the parse: comments and blank lines skipped, header pattern before key pattern, a section closed at the next header, keys before any header dropped |
| `CockpitConf.SerializeConf` | bridge/themes.py:205-218 | the loop appending lines builds the banner, each header, its `key = value` lines and a blank line, in order |
| `CockpitConf.ParseShape` | bridge/themes.py:177-202 | any text at all parses to distinct sections with distinct, well-formed keys and trimmed one-line values |
| `CockpitConf.WriteThenRead` | bridge/themes.py:181-218 | parse(serialize(S)) is S with values trimmed if and only if every section name and entry of S can be written |
| `CockpitConf.RewriteKeepsParse` | bridge/themes.py:177-218 | for every text t, parse(serialize(parse(t))) = parse(t) if and only if no parsed entry forms a header-like line |
| `ConfText.KeyValueReads` | bridge/themes.py:178 | any white space, a key, white space, `=`, white space and any text read as the key and the trimmed text |
| `ConfText.KeyValueOnly` | bridge/themes.py:178 | only such lines hold a key and a value |
| `ConfText.HeaderReads` | bridge/themes.py:177 | a name in brackets with white space behind it reads as that header |
| `ConfText.HeaderOnly` | bridge/themes.py:177 | only such lines are headers |
| `ConfText.CommentIgnored` | bridge/themes.py:191-192 | lines that start, behind white space, with `#` or `;` are ignored |
| `ConfText.EntrySets` | bridge/themes.py:181-202 | an entry line in any layout at the end of any file sets its key in the last section and changes nothing else, so the last value of a repeated key wins |
| `ConfText.HeaderOpens` | bridge/themes.py:181-202 | a header line at the end of any file opens an empty section, so a repeated section replaces the earlier one |
| `ConfText.OneMoreLine` | bridge/themes.py:181-202 | what each kind of line adds to the parse of the lines before it |
| `ConfText.SectionText` | bridge/themes.py:205-218 | one more section adds a blank line and its header to the text |
| `ConfText.EntryText` | bridge/themes.py:205-218 | one more entry adds its `key = value` line to the text |
| `ConfText.RefusedExactly` | bridge/themes.py:305-310 | set refuses line breaks and NULs in any argument, brackets in the section and `=` in the key, and nothing else |
| `ConfLaws.LookupSet` | bridge/themes.py:311-313 | set changes one key of one section and every other key of every section reads as before |
| `ConfLaws.LookupUnset` | bridge/themes.py:327-333 | unset removes one key and every other key of every section reads as before |
| `ConfLaws.SetThenRead` | bridge/themes.py:290-319 | after set on any file, parsing the new text gives exactly the edited dictionary with the value trimmed, if and only if the section is not empty, the entry can be written, and so can every other entry of the file |
| `ConfLaws.UnsetThenRead` | bridge/themes.py:322-338 | after unset of a present key of any file, parsing the new text gives exactly the dictionary without it, if and only if every other entry of the file can be written |
| `ConfLaws.UnsetAfterFreshSet` | bridge/themes.py:290-338 | unset after a fresh set restores the earlier dictionary if and only if the section was not present and empty |
| `ConfLaws.HeaderLikeTrimmed` | bridge/themes.py:177-178 | white space around a value never decides whether its line looks like a header |
| `ConfLaws.HeaderLikeIs` | bridge/themes.py:177-178 | an entry looks like a header if and only if its key opens a bracket without closing it and the first closing bracket of the value has only white space behind it |
| `ConfComments.RewriteDropsComments` | bridge/themes.py:170-218 | for every text, a rewrite leaves the banner as the only comment, so comments are kept if and only if the banner was the only one |
| `Overrides.SurfaceNoSuffix` | bridge/themes.py:152-166 | no variable name is a proper suffix of another, so an unanchored search finds only its own declaration |
| `Overrides.OwnLine` | bridge/themes.py:426-463 | in a line that declares the variable, the search yields its trimmed value and the substitution rewrites exactly that declaration |
| `Overrides.RenderReads` | bridge/themes.py:426-463 | on a canonical file, search and substitution act as lookup and replacement in the map of declarations |
| `Overrides.InsertNew` | bridge/themes.py:464-466 | inserting before the first closing brace adds the new declaration at the end of the map |
| `Overrides.SetOnAbsent` | bridge/themes.py:461-466 | with no file, variable-set writes the canonical file of one declaration |
| `Overrides.SetOnCanonical` | bridge/themes.py:434-470 | variable-set on a canonical file is assignment in the map, and the file stays canonical |
| `Overrides.GetOnCanonical` | bridge/themes.py:413-431 | variable-get on a canonical file is lookup in the map: trimmed value, the default when absent, an error off the surface |
| `OverridesText.DeclReads` | bridge/themes.py:426-428 | a name, white space, a colon, any text without a semicolon and a semicolon match as a declaration of the trimmed text |
| `OverridesText.DeclOnly` | bridge/themes.py:426-428 | only such texts match |
| `OverridesText.FirstRead` | bridge/themes.py:426-428 | in any file the first declaration of the name gives the value |
| `OverridesText.SetRewrites` | bridge/themes.py:461-463 | in any file with one declaration of the name, that declaration is rewritten in place and all other text stays |
| `OverridesText.SetInserts` | bridge/themes.py:464-466 | in any file without the name, the declaration goes before the first closing brace and all other text stays |
| `OverridesText.SetFresh` | bridge/themes.py:464-466 | without a brace the file is the one declaration |
| `OverridesText.PresetFile` | bridge/themes.py:393 | a preset writes one line a variable between the braces |
| `OverridesText.ValueOkIs` | bridge/themes.py:447 | the values accepted are one to 128 letters, digits and the characters of colors and numbers |
| `OverridesText.DefaultIs` | bridge/themes.py:152-166 | the default of each variable of the surface |
| `ThemeEngine.ThemeFiles.Get` | bridge/themes.py:269-287 | which of the four replies is given, with the names, entries or value of the parsed file it carries |
| `ThemeEngine.ThemeFiles.Set` | bridge/themes.py:290-319 | the new files and the reply; refused input and a failed write leave both files as they were |
| `ThemeEngine.ThemeFiles.Unset` | bridge/themes.py:322-338 | the new files and the reply; an absent section or key leaves the file as it was; an emptied section goes |
| `ThemeEngine.ThemeFiles.Reset` | bridge/themes.py:341-350 | cockpit.conf is removed, the overrides stay |
| `ThemeEngine.ThemeFiles.PresetApply` | bridge/themes.py:371-402 | the preset is merged into cockpit.conf and its variables replace overrides.css, in that order, so a failed second write leaves the first done; what the merge means is `PresetRead` |
| `PresetLaws.MergeLookup` | bridge/themes.py:383-384 | after the merge every key of every section has the value of the preset if the preset has one, and its old value otherwise |
| `PresetLaws.PresetRead` | bridge/themes.py:371-402 | after preset-apply on any file, parsing the new cockpit.conf gives for every section and key the value of the preset if it has one and the old value otherwise, if and only if every entry the preset leaves alone can be written |
| `PresetLaws.KeptIsWritable` | bridge/themes.py:381-386 | the merged dictionary can be written if and only if every entry the preset leaves alone can |
| `PresetLaws.Midnight` | bridge/themes.py:71-143 | midnight makes the style dark and the brand color danger, whatever they were |
| `ThemeEngine.ThemeFiles.VariableGet` | bridge/themes.py:413-431 | the value read from the file, the default, or nothing off the surface |
| `ThemeEngine.ThemeFiles.VariableSet` | bridge/themes.py:434-470 | the new overrides file and the reply; bad values and unknown names change nothing |
| `ThemeEngine.ThemeFiles.VariableReset` | bridge/themes.py:473-479 | overrides.css is removed, cockpit.conf stays |
| `ThemeRuns.PresetsOk` | bridge/themes.py:71-143 | every built-in preset writes a canonical overrides file and entries that can be read back |
| `ThemeRuns.OverridesRefineMap` | bridge/themes.py:371-479 | after any run of commands from no file, overrides.css is the canonical rendering of a map with each variable at most once, and variable-get returns the trimmed latest value or the default |
| `ThemeRuns.SetThenGet` | bridge/themes.py:413-470 | after any run, setting one variable changes what variable-get returns for it and for no other variable |
| `ThemeRuns.ConfRefinesMap` | bridge/themes.py:269-405 | over any run of commands from any file, parsing cockpit.conf keeps giving the dictionary the commands describe if and only if what each command writes can be read back; then it does so at the end |
| `ThemeRuns.ConfStep` | bridge/themes.py:290-402 | one command on any file: its effect on the parse is its effect on the dictionary if and only if what it writes can be read back |
| `ThemeRuns.AcceptedRuns` | bridge/themes.py:269-405 | from a file without header-like entries, runs of sets with a named section and a writable entry, of unsets, presets and resets meet that condition |
| `PackageText.ParsePackagesText` | bridge/builder.py:1056-1082 | the loop with `seen` and `out` computes the parse |
| `PackageText.ParseContents` | bridge/builder.py:1056-1082 | the names are distinct, trimmed and free of comments, and are exactly the non-empty names on the lines |
| `PackageText.ParseOrder` | bridge/builder.py:1056-1082 | the names come in the order of their first occurrences |
| `PackageText.ParseJoined` | bridge/builder.py:1056-1082 | parsing the newline-joined names again gives the same names |
| `PackageText.NameRead` | bridge/builder.py:1056-1082 | an indent, a name, white space and a comment read as the name |
| `PackageText.TextRead` | bridge/builder.py:1056-1082 | a list with indents, comments and blank lines reads as its names, each once, in order |
| `PackageText.MergeNames` | bridge/builder.py:1452-1459 | the merge loop appends the names not seen yet |
| `PackageText.AddAllContents` | bridge/builder.py:1452-1459 | the old list is a prefix of the merge, nothing is twice in it, and it holds exactly both lists |
| `PackageText.OneMoreName` | bridge/builder.py:1452-1459 | one more name goes to the end of the merge unless it is there already |
| `Archiso.ReadHeader` | bridge/builder.py:1594-1601 | the header is the leading run of comment lines, and its last line is not blank |
| `Archiso.CommentIs` | bridge/builder.py:1594-1601 | an indent, `#` and any text make a comment line |
| `Archiso.CommentOnly` | bridge/builder.py:1594-1601 | only such lines are comment lines |
| `Archiso.AppendedText` | bridge/builder.py:1578-1607 | the text after an append: the leading comment lines, a blank line if there are any, and the merged names |
| `Archiso.AppendNames` | bridge/builder.py:1578-1607 | the append branch builds the new text and reports the size of the merged list |
| `Archiso.ReplaceNames` | bridge/builder.py:1608-1611 | the replace branch writes the fixed header and one line a name |
| `Archiso.PackageFile.Write` | bridge/builder.py:1564-1618 | the new file and the count for both modes; a failed write leaves the file as it was |
| `Archiso.AppendReadsBack` | bridge/builder.py:1578-1607 | parse(new file) = merge(parse(old file), names), and the leading comment header is kept |
| `Archiso.AppendTwice` | bridge/builder.py:1578-1607 | appending the same names twice equals appending once, byte for byte |
| `Archiso.ReplaceReadsBack` | bridge/builder.py:1608-1611 | parse(new file) is exactly the names of a replace |
| `Mkosi.ReadPackages` | bridge/builder.py:1424-1450 | the scan with the flags `in_packages` and `in_packages_value` reads inline and continuation names |
| `MkosiText.SectionReads` | bridge/builder.py:1424-1450 | in a conf with one section in any layout, the names read are the words behind the key and the trimmed continuation lines, each once, in order |
| `Mkosi.RewriteSection` | bridge/builder.py:1471-1487 | the second scan, with line breaks kept, exchanges the section and drops its old body |
| `Mkosi.ConfFile.Write` | bridge/builder.py:1400-1496 | the new file and the count for both modes; a failed write leaves the file as it was |
| `MkosiLaws.HeadersAgree` | bridge/builder.py:1429-1430 | the reader's and the rewriter's header conditions agree on every line that has its line break |
| `MkosiLaws.ReadBack` | bridge/builder.py:1424-1490 | the section reads back as the names written if and only if the names can be stored and a section header was found or added, or there were no names |
| `MkosiLaws.WriteReadsBack` | bridge/builder.py:1424-1490 | the list read after a write is the new list, or the old list and the unseen names, under that same exact condition |
| `MkosiLaws.AppendKeepsOld` | bridge/builder.py:1452-1459 | append keeps the old names in place and holds exactly both lists without duplicates |
| `MkosiLaws.FinalStorable` | bridge/builder.py:1452-1466 | the final list can be stored if and only if the old names and all given names can |
| `MkosiLaws.OutsideSurvives` | bridge/builder.py:1468-1487 | every line outside `[Packages]` survives in order if and only if the text does not end in a foreign header without a line break after the section |
| `MkosiLaws.AddedAtEnd` | bridge/builder.py:1488-1490 | without a section the old lines up to the last line breaks stay, then come a blank line and the new section; said of the text in `AppendedText` and `AppendedLines` |
| `MkosiText.AppendedText` | bridge/builder.py:1488-1490 | a conf without the section: all its text up to its last line breaks, a blank line and the new section |
| `MkosiText.AppendedLines` | bridge/builder.py:1488-1490 | the same by lines: all lines of the conf but the empty ones at its end, a blank line and the new section |
| `MkosiText.ReplacedInPlace` | bridge/builder.py:1468-1487 | a conf with one section: the new section stands in its place and all lines before and after it are as they were |
| `MkosiLaws.AppendTwice` | bridge/builder.py:1400-1496 | appending the same storable names again leaves the file byte-identical |
| `LegacyMkosi.BlockList` | bridge/builder.py:610-615 | the loop collects the trimmed lines of the block, each once, at least one |
| `LegacyMkosi.LegacyConf.Migrate` | bridge/builder.py:592-630 | the new file and the reply in all cases; only the first block changes |
| `LegacyText.BlockFound` | bridge/builder.py:592-608 | the block found is the first bare key line above blank lines and indented items, and it ends with the items |
| `LegacyText.MigratedText` | bridge/builder.py:610-623 | the new text: what stands before the block, the key with the trimmed items, each once, and what stands behind it |
| `LegacyLaws.MigrationKeepsList` | bridge/builder.py:600-630 | the list the writer's reader extracts is the same before and after when the line behind the block is blank, indented or missing |
| `LegacyLaws.MigrationGlues` | bridge/builder.py:602-623 | the pattern takes the last line break of the block, so the next line becomes part of the last name in the list read |
| `LegacyLaws.MigrationKeepsListExactly` | bridge/builder.py:600-630 | for any block in the section, the list is kept if and only if the words of the glued line and of what follows add the same names in the same order as the block and what followed it |
| `LegacyLaws.MigrationKeepsFreshList` | bridge/builder.py:600-630 | where the glued word is no package of the list, that is the case if and only if the line behind the block is blank, indented or missing |
| `LegacyLaws.SecondRun` | bridge/builder.py:600-608 | a second run finds something to migrate if and only if a further block follows the one migrated |
| `Crawl.Enqueue` | klanker-gate/scripts/generate_sbom.ts:173-177 | queued are the old queue and the children not seen; duplicates may enter |
| `Crawl.VisitNew` | klanker-gate/scripts/generate_sbom.ts:167-178 | one turn of the loop keeps what is seen reachable, and what is reachable seen or behind the queue |
| `Crawl.Run` | klanker-gate/scripts/generate_sbom.ts:161-180 | on a finite graph with cycles and duplicates the crawl ends and returns exactly the nodes reachable from the roots |
| `Crawl.ClosedHoldsPath` | klanker-gate/scripts/generate_sbom.ts:161-180 | a set holding the roots and closed under next holds every path from them |
| `Sbom.ParseKey` | klanker-gate/scripts/generate_sbom.ts:74-88 | parsing name@version gives the name and the version back, scoped or not, with the npm peer suffix cut off |
| `Sbom.BuildIndex` | klanker-gate/scripts/generate_sbom.ts:221-227 | the index gives for every name exactly the keys of that name in file order |
| `Sbom.ResolveNpmSound` | klanker-gate/scripts/generate_sbom.ts:123-140 | a result for name and range is a lock key of the name, and of the version the lock pins for `npm:name@range` if any key of the name has it; there is none only when no key has the name |
| `Sbom.SpecifierRead` | klanker-gate/scripts/generate_sbom.ts:90-102 | a specifier with or without `jsr:` and with or without a range names its package |
| `Sbom.SpecifierOf` | klanker-gate/scripts/generate_sbom.ts:264-287 | a dependency with or without the scheme becomes a specifier with it |
| `Sbom.ResolveJsrSound` | klanker-gate/scripts/generate_sbom.ts:142-159 | a specifier with or without a range resolves to the first key of the name and the pinned version if some key has both, otherwise to the first key of the name, and to nothing only when no key has the name |
| `Sbom.NextIs` | klanker-gate/scripts/generate_sbom.ts:264-287 | a JSR key leads exactly to what its dependencies resolve to |
| `Sbom.FlatCandidatesContents` | klanker-gate/scripts/generate_sbom.ts:289-296 | an npm key leads exactly to the keys whose name is among its dependencies |
| `Sbom.DirectNpm` | klanker-gate/scripts/generate_sbom.ts:247-262 | the direct set is exactly the keys the declared dependencies resolve to |
| `Sbom.CrawlNpm` | klanker-gate/scripts/generate_sbom.ts:289-296 | the npm closure is exactly reachability over all candidate keys of each dependency |
| `Sbom.CrawlJsr` | klanker-gate/scripts/generate_sbom.ts:264-287 | the JSR closure is exactly reachability over resolved specifiers; what a specifier resolves to is `ResolveJsrSound` |
| `Sbom.Label` | klanker-gate/scripts/generate_sbom.ts:313-359 | one row a key in order: direct if and only if in the direct sets, required if and only if in the required closure |
| `Sbom.AddEdges` | klanker-gate/scripts/generate_sbom.ts:412-452 | the edges recorded are exactly those from each key to each key it depends on |
| `Sbom.NpmComponents` | klanker-gate/scripts/generate_sbom.ts:289-359 | direct and required labels are exactly the direct sets and reachability, and everything a required key depends on has a row that is labelled required as well |
| `SbomJsr.JsrEdgesStayRequired` | klanker-gate/scripts/generate_sbom.ts:264-441 | for any keys name@version and any other order of them: every lock on these keys has all edges of required keys lead to required keys, if and only if each package has the same first key in both orders |
| `SbomJsr.EdgesRequiredExactly` | klanker-gate/scripts/generate_sbom.ts:142-159 | the same for keys of any form: if and only if each dependency, under each pin, finds the same first key in both orders |
| `SbomJsr.JsrEdgeToDev` | klanker-gate/scripts/generate_sbom.ts:313-441 | the smallest failure: the crawl resolves in file order, the edges after `jsrKeys.sort()` has reordered the same array; an example lock file |
| `SbomJsr.DirectJsr` | klanker-gate/scripts/generate_sbom.ts:229-240 | the direct sets are exactly the keys the imports resolve to, the assertion package apart; what an import resolves to is `ResolveJsrSound` |
| `SbomJsr.JsrComponents` | klanker-gate/scripts/generate_sbom.ts:264-441 | labels, directness and edges of the JSR rows together; where the first keys agree, whatever a required key has an edge to is labelled required |
| `KvMigration.BuildPlan` | klanker-gate/scripts/migrate_kv_to_pg.ts:57-89 | each entry lands in one list by its type, in order; the namespace counts and the key-record flag are right |
| `KvMigration.RowsAre` | klanker-gate/scripts/migrate_kv_to_pg.ts:57-89 | the rows are the entries of their type, key and content unchanged |
| `KvMigration.Store.Put` | klanker-gate/packages/config/src/store_postgres.ts:63-71 | an upsert of one value; nothing else changes |
| `KvMigration.Store.GetCount` | klanker-gate/packages/config/src/store_postgres.ts:127-133 | the count as a double, zero when absent |
| `KvMigration.Store.Sum` | klanker-gate/packages/config/src/store_postgres.ts:116-125 | adds the delta to one counter; nothing else changes |
| `KvMigration.CommitRun` | klanker-gate/scripts/migrate_kv_to_pg.ts:155-174 | a run of the two commit loops cut off after any number of store calls leaves the state of the step-by-step specification |
| `KvMigration.CommitEffect` | klanker-gate/scripts/migrate_kv_to_pg.ts:155-174 | any cut-off run leaves foreign keys untouched; a full one leaves every source value, and every source counter where a double holds the counts |
| `KvMigration.Converges` | klanker-gate/scripts/migrate_kv_to_pg.ts:155-174 | any number of cut-off runs and then a full one leave every source value in the target and every other key as it was, and every counter right where a double holds the counts |
| `KvMigration.ConvergesExactly` | klanker-gate/scripts/migrate_kv_to_pg.ts:155-174 | with distinct keys: after any cut-off runs and a full one all counters are right, whatever the runs, if and only if a double holds every source count and every count already there |
| `KvMigration.NoAdds` | klanker-gate/scripts/migrate_kv_to_pg.ts:168-173 | a pass performs no add if and only if every counter reads back as its source value |
| `KvMigration.FurtherRunAddsNothing` | klanker-gate/scripts/migrate_kv_to_pg.ts:165-174 | with distinct keys: a further run never adds anything, whatever the runs before, if and only if each corrected count reads back as its source count; counts a double holds do |
| `KvMigration.FullRunExact` | klanker-gate/scripts/migrate_kv_to_pg.ts:168-173 | a full run leaves every counter at its source value if and only if every count already there is exact as a double |
| `KvMigration.RerunKeepsCounter` | klanker-gate/scripts/migrate_kv_to_pg.ts:165-173 | a re-run keeps a migrated counter if and only if a double holds its value exactly |
| `KvMigration.RerunOvercounts` | klanker-gate/scripts/migrate_kv_to_pg.ts:165-173 | the source's claim that a re-run converges fails for 2^53 + 1: the second run leaves one more |
| `KvMigration.SmallExact` | klanker-gate/packages/config/src/store_postgres.ts:127-133 | every integer up to 2^53 in size is exact as a double |
| `KvMigration.FirstInexact` | klanker-gate/packages/config/src/store_postgres.ts:127-133 | 2^53 + 1 is read as 2^53 |
| `NumberLaws.Nearest` | klanker-gate/packages/config/src/store_postgres.ts:127-133 | a count read as a double is the nearest number of fifty-three binary digits, and of two equally near ones the even one |
| `NumberLaws.ExactIs` | klanker-gate/packages/config/src/store_postgres.ts:127-133 | an integer passes through a double unchanged if and only if it has at most fifty-three binary digits before its zeros |
| `LoadBench.StepKeeps` | klanker-gate/scripts/load-bench.ts:128-168 | each step of a worker keeps the pool invariant |
| `LoadBench.NeverTwice` | klanker-gate/scripts/load-bench.ts:131-168 | under every interleaving each index below `next` is running or has ended exactly once, none other has started, and at most CONCURRENCY are in flight |
| `LoadBench.Complete` | klanker-gate/scripts/load-bench.ts:128-168 | at the end each index below TOTAL has ended once, there are TOTAL latencies, and failures is zero if and only if no request failed; which responses fail is `FailuresMean` |
| `LoadBench.FailuresCounted` | klanker-gate/scripts/load-bench.ts:128-168 | in every complete run the failure count is the number of failed requests and one for each cancel that threw, so it is right if and only if none did |
| `LoadBench.FailuresMean` | klanker-gate/scripts/load-bench.ts:131-156 | in every complete run the failed requests are the responses with another status than 200 and the errors of fetch and drain; failures is zero if and only if every response was a 200 and neither threw |
| `LoadBench.LatenciesAre` | klanker-gate/scripts/load-bench.ts:156 | the latencies are the times of the requests in the order they ended |
| `LoadBench.FailureCountedTwice` | klanker-gate/scripts/load-bench.ts:147-155 | the smallest run in which one rejected request counts two failures |
| `LoadBench.StepDecreases` | klanker-gate/scripts/load-bench.ts:161-168 | every step lowers the measure of the work left |
| `LoadBench.CanStep` | klanker-gate/scripts/load-bench.ts:161-168 | a worker that has not left can always go on |
| `LoadBench.EveryRunEnds` | klanker-gate/scripts/load-bench.ts:159-168 | every run is bounded in length, and one that cannot go on has all workers finished |
| `Percentile.PctHasRank` | klanker-gate/scripts/load-bench.ts:173-177 | pct(p) is the one value with at least ceil(p n / 100) samples at or below it and fewer strictly below |
| `Percentile.PctMonotone` | klanker-gate/scripts/load-bench.ts:173-189 | pct is monotone in p and never exceeds the maximum, which it reaches from 100 on |
| `PortConfig.ServiceConfig.SetPort` | bridge/firewall.py:2502-2571 | refusals, the old and new port of the reply, and the new text; without success the text is as it was |
| `PortConfig.RegistryOk` | bridge/firewall.py:1976-2104 | the six entries that are a word and white space before the digits have the shape the round trip needs; Caddy follows, the two unanchored ones are left out |
| `PortConfig.EarlierUnchanged` | bridge/firewall.py:2508-2531 | no earlier line starts to match through the edit |
| `PortConfig.ReadAfterWrite` | bridge/firewall.py:2150-2170 | extracting from the edited text returns the new port; the text before the digits and behind the match is kept and only white space is lost |
| `PortConfig.OnlyDigitsChange` | bridge/firewall.py:2528-2541 | the text differs by exactly the port number if and only if the digits end a line with no white space and no blank line behind them |
| `PortConfig.LineBreaksLost` | bridge/firewall.py:1976 | an example against the source's comment: two trailing line breaks are lost |
| `PortText.AssignmentFound` | bridge/firewall.py:1976-2104 | a key, `=` and digits on a line of their own, amid any white space, are matched and the digits found |
| `PortText.SpacedFound` | bridge/firewall.py:1976-2104 | the same for a word and digits with white space between |
| `PortText.RegistryFinds` | bridge/firewall.py:1976-2104 | the lines the six entries find, `port = 3306` and `Port 22` among them |
| `PortText.ExtractFirst` | bridge/firewall.py:2150-2170 | the port read is that of the first such line if it is one of 1 to 65535 |
| `PortText.ValidPortIs` | bridge/firewall.py:1911 | the arguments accepted are the decimal forms of 1 to 65535 |
| `PortLines.AssignmentOnly` | bridge/firewall.py:1976-2104 | a pattern with an equals sign matches such lines only |
| `PortLines.SpacedOnly` | bridge/firewall.py:1976-2104 | a pattern without one matches such lines only |
| `PortLines.RegistryOnly` | bridge/firewall.py:1976-2104 | the only lines each of the six entries matches |
| `CaddyPort.OnlyLastColon` | bridge/firewall.py:2004 | of all colons the pattern may try on a line, only the last can be followed by a port and the end of the line |
| `PortLines.CaddyFound` | bridge/firewall.py:2004 | a colon and digits at the end of a line without comment are matched and the digits found |
| `PortLines.CaddyOnly` | bridge/firewall.py:2004 | only such lines are matched |
| `PortLines.CaddyFirst` | bridge/firewall.py:2150-2170 | the port read is that of the first such line if it is one of 1 to 65535 |
| `CaddyPort.CaddyReadAfterWrite` | bridge/firewall.py:2508-2531 | for Caddy, whose entry is anchored on a line but not on a word, extracting from the edited text returns the new port with the same frame |
| `Decimals.DecimalValue` | bridge/firewall.py:2524-2530 | reading the digits of a number gives the number |
| `Decimals.DecimalOnly` | bridge/firewall.py:2524-2530 | digits without a zero in front are the decimal form of the number they read as |
| `AtomicReplace.StepKeeps` | bridge/firewall.py:2543-2571 | every step, failure and crash keeps the invariant on names, inodes and what is on disk |
| `AtomicReplace.AlwaysWhole` | bridge/firewall.py:2543-2571 | over any run of commands, partial writes, errors and crashes the config file holds one whole text |
| `AtomicReplace.OneEdit` | bridge/firewall.py:2543-2571 | in one edit the file holds the old or the new text at every point; an error reply means the old one, a success reply the new one |
| `AtomicReplace.ReplySays` | bridge/firewall.py:2543-2571 | without a crash: success is replied if and only if the rename was done, an error if and only if some step failed, and the temporary file is gone unless its removal failed |
| `AtomicReplace.UnsyncedWouldTear` | bridge/firewall.py:2557 | in any edit, a rename between flush and fsync would let a crash leave any content |
| `AtomicReplace.CrashAfterSuccess` | bridge/firewall.py:2558-2559 | a run of one edit to its success reply, after which a crash brings the old text back |
| `AtomicReplace.CrashOutcomes` | bridge/firewall.py:2558-2559 | after the success reply of any edit, the directory not being synced, a crash leaves the old text or the new one depending only on whether the rename reached the disk; both can happen |
| `Listeners.IndexByPort` | bridge/firewall.py:2316-2320 | the index holds for every port exactly its sockets in order |
| `Listeners.Details` | bridge/firewall.py:2335-2341 | the process names and pids of the sockets are added, each once, absent ones skipped |
| `Listeners.MatchService` | bridge/firewall.py:2328-2357 | the row lists each once exactly the configured or default ports that are listened on and the processes and pids found there |
| `Listeners.MatchServices` | bridge/firewall.py:2322-2357 | one such row a service, in order |
| `Listeners.MatchedPorts` | bridge/firewall.py:2359-2366 | the matched ports are those of the rows: listened on or configured |
| `Listeners.Unmapped` | bridge/firewall.py:2367-2377 | the sockets on other ports, all of them, by port and then in order of detection |
| `Listeners.Services` | bridge/firewall.py:2286-2383 | the whole reply: rows, sorted unmapped listeners and the count |
| `Listeners.EveryListenerOnce` | bridge/firewall.py:2316-2383 | every listener is on the configured or default port of a service that lists it, or in the unmapped list as often as detected, never both, and the two groups total the count |
| `TomlLines.ReadsHeader` | bridge/kata.py:662-667 | a rendered dotted header reads back as its parts |
| `TomlLines.ReadsKey` | bridge/kata.py:669-693 | a rendered key line reads back as its key and value |
| `TomlLines.ReadsInt` | bridge/kata.py:689-693 | the decimal form of any integer, signed or not, reads back as it |
| `TomlLines.ReadsArray` | bridge/kata.py:679-686 | a rendered list of plain strings reads back through the quote replacement and the JSON reader |
| `TomlLines.QuotedValue` | bridge/kata.py:674-678 | whatever follows the closing quote of a string, a comment for one, is dropped |
| `TomlText.SkipIs` | bridge/kata.py:659-670 | a line is skipped if and only if it is blank, a comment, or neither a header nor holds an equals sign |
| `TomlText.HeaderReads` | bridge/kata.py:662-667 | a header in any layout, with quotes around the whole or each part, gives its parts |
| `TomlText.KeyReads` | bridge/kata.py:669-693 | a key line in any layout, the key in quotes or not, is cut at its first equals sign into the key and the trimmed value |
| `TomlText.OpenQuote` | bridge/kata.py:674-678 | a string without closing quote goes to the end of the line |
| `TomlText.IntReads` | bridge/kata.py:689-693 | a sign and groups of digits joined by single underscores read as the integer |
| `TomlText.IntOnly` | bridge/kata.py:689-693 | only such texts read as integers |
| `TomlText.OtherValue` | bridge/kata.py:687-693 | what is no string, list, truth value or integer stays text |
| `TomlText.ListReads` | bridge/kata.py:679-681 | a list of strings in either quotes and with any JSON white space reads as its strings |
| `TomlText.ListOnly` | bridge/kata.py:679-681 | only such lists are read as strings; anything else is given to `json.loads` |
| `TomlText.BareList` | bridge/kata.py:682-686 | a list that is not JSON is cut at its commas into trimmed fields without their quotes |
| `TomlComments.CommentStays` | bridge/kata.py:674-693 | for every value that can be written, a comment behind it is dropped if and only if the value is a quoted string; a list that the JSON reader then rejects is cut at commas, any other value becomes a string |
| `TomlComments.LastTakesComment` | bridge/kata.py:682-686 | on a list of strings without commas the fallback keeps all but the last, which takes in its quote, the bracket and the comment |
| `QCrowsToml.ParseToml` | bridge/kata.py:645-694 | the line loop, with the inner walk of `current` over the header parts, computes the parse or raises |
| `QCrowsToml.LeavesKept` | bridge/kata.py:658-693 | on any text, a line keeps every leaf of the tree, except that a key line replaces what was under its key in the open section |
| `QCrowsToml.KeySet` | bridge/kata.py:671-693 | after a key line its value is found under the open section and the key |
| `QCrowsToml.OpenFrame` | bridge/kata.py:664-667 | opening a section overwrites nothing |
| `QCrowsToml.RoundTrip` | bridge/kata.py:645-694 | for plain distinct names and writable values: parsing the rendering gives a dictionary holding each key in its own section and nothing else, if and only if no key has the name of a sub-section beside it |
| `QCrowsToml.HoldsOnce` | bridge/kata.py:645-694 | there is only one dictionary that holds exactly a given document |
| `QCrowsToml.SkipAnywhere` | bridge/kata.py:659-661 | blank lines and comment lines may stand anywhere without effect |
| `QCrowsToml.SectionOverKey` | bridge/kata.py:662-693 | how a clash shows: a section named like a key fails at a deeper header or at its first key line |
| `Exposition.EscIsOnePass` | bridge/prometheus.py:385-386 | the successive replacements equal one pass over the characters |
| `Exposition.ReadEscaped` | bridge/prometheus.py:382-386 | a label reader gets the value back, line breaks as spaces, and stops at the closing quote |
| `Exposition.PayloadReadsBack` | bridge/prometheus.py:388-396 | for every module, level and message the payload reads as exactly three samples with these labels, the message cut to 128 characters |
| `Exposition.PayloadIs` | bridge/prometheus.py:382-396 | the six lines pushed for a message, character by character |
| `Exposition.FlatKeeps` | bridge/prometheus.py:386 | escaping and reading loses line breaks and nothing else |
| `ZypperTable.ReadTable` | bridge/packages.py:314-337 | the line loop with the mutable header computes header positions and data rows |
| `ZypperTable.ListUpdates` | bridge/packages.py:340-357 | the loop over the rows computes the update list |
| `ZypperTable.CellsOfJoin` | bridge/packages.py:325-328 | the cells of a printed row are its parts, trimmed |
| `ZypperTable.GoodRowsListed` | bridge/packages.py:331-356 | good rows give exactly their three named cells, in order |
| `ZypperTable.UpdatesExactly` | bridge/packages.py:314-357 | for any output: nothing without a header row; otherwise one update for each later line with a bar, a name, all three cells, none of them its header text, and no rule of dashes; all other lines change nothing |
| `ZypperTable.UpdatesAreNamedCells` | bridge/packages.py:314-357 | for any header and good rows the updates are the cells under Name, Current and Available, whatever stands before the header |
| `ZypperTable.LayoutDoesNotMatter` | bridge/packages.py:314-357 | two tables with the same three cells in each row give the same updates |
| `ZypperTable.ColumnsMayMove` | bridge/packages.py:314-357 | moving, dropping or adding other columns of the printed table changes no update |
| `AtomNames.SplitNameVer` | bridge/packages.py:257-272 | the loop returns the split at the earliest hyphen with a version-shaped tail, or the whole atom |
| `AtomNames.VersionIs` | bridge/packages.py:257 | a version is a digit, then letters, digits and `._+-`, with no hyphen at its end |
| `AtomNames.GccAtom` | bridge/packages.py:260-265 | the atom `gcc-13.2.1-r0` keeps its revision with the version |
| `AtomNames.SplitOfJoin` | bridge/packages.py:257-272 | any name and any version joined by a hyphen split back into the two if and only if the version has the shape of one and no hyphen of the name begins something that reads as one |
| `AtomNames.OneDigitStays` | bridge/packages.py:257-272 | a version of a single digit is never split off, and the atom stays whole if and only if no earlier hyphen splits |

## Left out

- ParseToml: `current` is the path of keys from the root instead of a pointer into shared dictionaries; a tree of dictionaries is a value. Key order inside a table is not kept, as Python's dictionary comparison ignores it.
- ReadsArray: `json.loads` on anything but a list of escape-free strings is a parameter of the reader; the limit on the number of digits that `int` accepts, and digits outside ASCII, are not modelled.
- RoundTrip: section names and keys are the plain ones of the documented shape, distinct at every level, as a dictionary's are.
- MigrationKeepsListExactly: blocks of whitespace-free names, in the section the reader reads.
- ResolveNpmSound: an empty lock key counts as no result in the source's truth tests and is set aside, here and in `DirectNpm`.
- EdgesRequiredExactly: an empty lock key is set aside here too.
- CommentStays: for a list, the JSON reader is taken to reject the text behind the closing bracket, as JSON demands.
- Converges: a single migrator.
- BuildPlan: keys come as lists of strings already; collisions of keys through `String` and `keyId`, bigint overflow in PostgreSQL and the check of the crypto record after the commit are not modelled.
- Complete: TOTAL and CONCURRENCY are natural numbers, and a worker is atomic between awaits.
- PctHasRank: exact reals; the rounding of floating-point division is not modelled, and the array is taken as sorted.
- Run: the order in which the crawl inserts into its result is not stated; nothing in the script uses it.
- Label: the dev closure has no effect on a label in the source and none here; rows for the root, browser packages and container images are constants.
- AddEdges: edges between package URLs; two keys with peer suffixes may share one URL, so uniqueness of references is not claimed.
- SetPort: newline translation on reading (CRLF becomes LF), permissions and the restart of units are not modelled; the varnish and ollama patterns are anchored neither to a line start nor to a line end and are left out.
- RegistryOk: covers ssh, cockpit, mariadb, open-webui, hermes and odysseus; caddy is `CaddyReadAfterWrite`.
- PayloadReadsBack: the time stamp is one-line text; appending to the log file, the push itself and the file-name check of the module are left out, the last one because the statement needs no such check.
- ReadTable: running zypper and the other readers of its tables are left out.
- Services: the parsing of `ss` and `/proc/net` output and the choice of the config file are inputs.
- OutsideSurvives: other keys inside `[Packages]` are dropped by the rewriter, so no claim is made there.
- The vmdb2 and live-build package writers: the first depends on white space that spans lines in its patterns, the second overwrites a file.
- Custom preset files, write-config, the list commands, the user interface panels, dispatch tables, the firewall templates and all subprocess and HTTP plumbing.
- The other parsers of bridge/packages.py, bridge/kata.py and bridge/prometheus.py: easy members that would add nothing.
