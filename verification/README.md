# Verified model of the ips packaging tools

This project models, in Dafny, the four parts of the repository that carry its logic, and proves
what they promise:

- **The makefile evaluator** (`userland/src/lib.rs`): assignments folded into variables, makefiles merged
  across an include tree, and `$(NAME)` references expanded recursively.
- **The manifest reader** (`libips/src/actions/manifest.pest`, `libips/src/actions/mod.rs`): a PEG with ordered
  choice, implicit blanks, line continuations, comments and quoting, followed by a stateful fold of actions
  into typed records.
- **The digest codec** (`libips/src/digest/mod.rs`).
- **The component differ** (`pkg6dev/src/main.rs`): an index-based comparison of manifests, a substitution driven
  by hash-map iteration order, and the manifest text written for missing files.

`dafny verify dfyconfig.toml` checks everything.

## Layout

| file | content |
|---|---|
| `Text.dfy` | the standard-library string operations used by the code |
| `Tokens.dfy` | text of literals and references, shared by the evaluator and the differ |
| `Reachability.dfy` | recursive walks over a finite graph; used for references and for includes |
| `Variables.dfy` | statements, merging, the regrouping laws, one-pass execution |
| `Expansion.dfy` | the reference scanner, the rewriting, and simultaneous substitution |
| `Literals.dfy` | which literals the expansion handles, exactly |
| `Includes.dfy` | runs of `parse_all`: when they end, when they succeed, when they equal a flat merge |
| `Makefile.dfy` | the `Makefile` object with its updating methods |
| `ManifestGrammar.dfy` | the manifest grammar as functions from text to pairs and leftover text |
| `ManifestLayout.dfy` | every layout of a list of actions, and when it fits the text that follows |
| `ManifestSoundness.dfy` | from text to layout: whatever the grammar reads is a layout that fits |
| `ManifestReading.dfy` | from layout to text: layouts that fit are read back; the accepted texts, exactly |
| `Digests.dfy` | digests and their text |
| `Properties.dfy`, `Actions.dfy` | properties, typed records, their conversion loops, facets |
| `Manifests.dfy` | the `Manifest` object, `parse_string`, the round trip, what every readable text yields |
| `PlainLines.dfy` | from the text of one line to its record, for each kind of action |
| `Differ.dfy` | replacements, missing and removed files, the written text |

## How the model reads

- Code that updates state is a class or a method with loops (`Makefile`, `Manifest`, `FacetedAction`, the record
  conversions, `ReplaceFunc`, the two searches of the differ); each is proved against a function, and the laws are
  proved about those functions.
- Iteration over a hash map is nondeterministic: `Makefile.Merge` picks the next variable arbitrarily, and a
  replacement map is a list of its entries in any order.
- `get` and `parse_all` recurse without a bound in the source. `get` takes a ghost depth here, which exists exactly
  when no cycle of references can be reached (`GetEndsExactlyWhenAcyclic`). `parse_all` is a run with fuel, its checks
  in the order of the code, that is out of fuel, finished or stopped by a missing include. It ends exactly when no
  cycle of *followed* includes can be reached: a missing direct include stops a file before any recursion, and a
  failing include stops the loop before the next (`ParseAllEndsExactlyWhenAcyclic`). In both cases the number of
  variables (files) suffices, and neither depth nor fuel influences the result (`DepthDoesNotMatter`,
  `FuelDoesNotMatter`). `Makefile.ParseAll` is proved for every run that ends.
- Statements are the pairs `parse_variable` consumes. The shipped grammar marks `=` and `+=` silent
  (`userland/src/makefile.pest:27-28`), so no mark reaches the reader and every statement replaces its variable:
  `SilentMarksAlwaysSet`. The Add mode is modelled as the Rust code is written.
- A panic is a result: unsupported action kinds (`todo!()`), unknown kinds, and `unwrap` on a malformed digest.
- `MakefileVariable.key` is never written by the code and is not modelled; of `Payload` only the two digest fields
  vary.

## Findings

- Merging is not associative. Merging a file that adds to a variable into one that sets it yields mode Add, so a
  later merge of the pair into an outer makefile appends where it should replace. `RegroupingLaw` and
  `ListRegroupingLaw` give the exact condition for makefiles and lists. For a whole include tree, `ParseAllFlattens`
  says when `parse_all` equals merging the files in post-order: no variable k is lost, that is, for no k does the
  last include whose files set k lose it inside, or end by adding to it after an earlier include mentioned it
  (`LostIn`). `NestedIncludeLosesSet` is a tree where the two differ.
  No mark of `+=` reaches the reader with the shipped grammar, so every variable read is in mode Set and `parse_all`
  always flattens (`UnmarkedFilesFlatten`); the difference appears once the grammar passes the marks on.
- Expansion rewrites the first occurrence of a reference's text in a copy. That is the right one as long as no
  literal ends in `$` or contains a live `$(`, one not cut off by a newline before its closing parenthesis; a `$`
  elsewhere, as in `${X}`, `$@` or `$$HOME`, is harmless. The condition (`SafeLiteral`) is exact
  (`LiteralHarmlessExactlyWhenSafe`): for every other literal there is a makefile with a variable, made of it and of
  references, for which `get` goes wrong (`UnsafeLiteralGoesWrong`). In `DanglingExample` A is `$(B))$(C)`, B is
  `$(C`, C is `x`, and `get` returns `x$(C)` for A instead of `$(C)x`.
- `remove_facet` removes whatever is stored under the name even when it returns false
  (`FacetedAction.RemoveFacet`); `RemoveMismatch` runs such a call. It changes nothing exactly when the name is free
  (`RemovalChangesExactlyWhenNamed`).
- An include cycle does not always make `parse_all` recurse for ever: behind a missing include it is never entered,
  and the error is reported at once (`MissingIncludeCutsCycle`).
- Replacing names in paths depends on the iteration order of the hash map. It never does exactly when no replacement
  text holds a reference to another replaced name or ends in the beginning of one
  (`OrderDoesNotMatterExactlyWhen`); with A for `$(B)` and B for `x`, the path `$(A)` becomes `x` or `$(B)`
  (`OrderMatters`).
- The differ writes paths without quotes: a line reads back exactly when the path is bare text
  (`LineReadsBackExactlyWhenBare`). An unquoted value that starts with `#` is a comment.
- A quoted payload that holds an equals sign is split into a property whose key keeps the opening quote, and whose
  value is whole exactly when it holds no second equals sign: `file "u/k=a=b"` stores `a` under `"u/k`
  (`QuotedPayloadExactlyWhen`). Unquoted `name=a=b` is a property to the grammar and loses nothing
  (`PropertyBeforePayload`).
- The manifest written for missing files gives only their paths. Reading it back leaves nothing missing exactly when
  the replaced key of every missing file is the path of a missing file (`DiffConvergesExactlyWhen`); a file with
  another original path stays missing (`OriginalPathStaysMissing`).
- The panic for unknown keywords cannot be reached from text; reading panics exactly for the keywords `driver`,
  `group`, `user` and `legacy` and for malformed digests (`ReadsExactlyWhen`).

## Model

| member | source | states |
|---|---|---|
| `Expansion.GetIsSimultaneousExpansion` | userland/src/lib.rs:118-125 | for every makefile of references and of literals that neither end in `$` nor contain a live `$(`, with no reference cycle reachable from the name, `get` returns the simultaneous token-level expansion, repeated and undefined references included |
| `Expansion.ExpandIsSubstitution` | userland/src/lib.rs:118-205 | the same at any sufficient depth, and every reference left in the result is to an undefined name; the induction that justifies each rewrite position |
| `Expansion.RewriteIsSubstitution` | userland/src/lib.rs:163-185 | the rewriting loop started on a copy that begins with already expanded tokens ends with the remaining tokens substituted |
| `Expansion.RewriteIsInPlace` | userland/src/lib.rs:172-180 | on well-formed text each `replacen(.., 1)` replaces exactly the occurrence the scan matched |
| `Expansion.DanglingLiteralMisplacesRewrite` | userland/src/lib.rs:172-180 | the family of values in which the expansion of one reference, `$(C`, opens another: the rewrite lands on the wrong occurrence, with both results |
| `Expansion.DanglingExample` | userland/src/lib.rs:118-185 | a makefile of that family: `get` of a variable returns the text with the wrong occurrence replaced, beside what expanding in place gives |
| `Literals.UnsafeLiteralGoesWrong` | userland/src/lib.rs:118-185 | for every literal that ends in `$` or contains a live `$(`, a makefile with a variable made of that literal and references, everything else well-formed, for which `get` does not return the simultaneous expansion |
| `Literals.LiteralHarmlessExactlyWhenSafe` | userland/src/lib.rs:118-185 | a literal neither ends in `$` nor contains a live `$(` if and only if `get` is right for every variable made of it and references, in every makefile whose other variables are well-formed |
| `Expansion.MatchesAreReferences` | userland/src/lib.rs:170-173 | the scan with `\$\(.+?\)` finds exactly the references of well-formed text, in order |
| `Expansion.MatchMeaning` | userland/src/lib.rs:170-173 | a match at the front of any text is `$(`, at least one character, and the first `)` after that one, without a newline; and only that is one |
| `Expansion.NameOfPattern` | userland/src/lib.rs:174 | stripping a reference gives back its name |
| `Expansion.NameSteps` | userland/src/lib.rs:174 | in the name looked up every `$(` is stripped, nested ones too, and every `)` |
| `Expansion.ValuesJoinLines` | userland/src/lib.rs:118-125 | several values come out one per line |
| `Expansion.GetEndsExactlyWhenAcyclic` | userland/src/lib.rs:118-185 | for arbitrary string values the recursion ends if and only if no cycle of looked-up names can be reached, and nests at most as deep as there are variables |
| `Expansion.DepthDoesNotMatter` | userland/src/lib.rs:118-125 | the result does not depend on the ghost depth |
| `Expansion.ExpandedTextIsFinal` | userland/src/lib.rs:118-185 | the returned text contains no reference to a defined name, and rewriting it again changes nothing |
| `Reachability.GroundedExactlyWhenAcyclic` | userland/src/lib.rs:118-185 | a recursive walk of a finite graph is bounded if and only if no walk repeats a node, and then by the number of nodes |
| `Variables.ReadingIsAssigning` | userland/src/lib.rs:285-317 | reading the pairs of a statement is executing it: set replaces, add appends and keeps the mode |
| `Variables.SilentMarksAlwaysSet` | userland/src/lib.rs:285-317 | without marks every statement replaces its variable |
| `Variables.UnmarkedFilesSet` | userland/src/lib.rs:264-317 | a file read from statements without marks and defines holds every variable in mode Set |
| `Variables.DefiningIsSetting` | userland/src/lib.rs:264-283 | a define block sets its variable to its body |
| `Variables.RegroupingLaw` | userland/src/lib.rs:94-116 | merge is associative, modes included, if and only if no variable has values in a, mode Set in b and mode Add in c |
| `Variables.ListRegroupingLaw` | userland/src/lib.rs:77-116 | merging a list first and then into a makefile equals merging file by file if and only if no variable with values in that makefile is set in the list and added to in its last mention |
| `Variables.LastDefinitionWins` | userland/src/lib.rs:94-116 | with modes Set only, the merge of a list holds the last definition of each variable |
| `Variables.MergingFilesIsOnePass` | userland/src/lib.rs:94-116 | executing each file and merging left to right gives every variable the values of one pass over all statements |
| `Variables.BuiltVariablesHaveValues` | userland/src/lib.rs:94-116 | every makefile built from statements, defines and merges has a value in every variable |
| `Includes.ParseAllFlattens` | userland/src/lib.rs:77-92 | for every run that succeeds, the result is the left-to-right merge of the files in post-order if no variable is lost in a nested include, and, when every variable has values, only then |
| `Includes.OneLevelFlattens` | userland/src/lib.rs:77-92 | when the included files include nothing themselves, it is that merge whatever the modes |
| `Includes.UnmarkedFilesFlatten` | userland/src/lib.rs:77-92 | for files read through the shipped grammar, which drops the marks, it always is, and each variable has its last definition |
| `Includes.ParseAllTakesLastDefinition` | userland/src/lib.rs:77-161 | with modes Set only, each variable has its last definition in post-order, and `parse_all` on the result changes nothing |
| `Includes.ParseAllSucceedsExactlyWhen` | userland/src/lib.rs:77-161 | a run succeeds if and only if every include is there and, with everything reachable from it, complete and without a cycle |
| `Includes.ParseAllEndsExactlyWhenAcyclic` | userland/src/lib.rs:77-161 | the run ends, in a result or an error, if and only if no cycle of followed includes can be reached: a file with a missing include follows none, any other follows its includes up to the first that is incomplete or cyclic; then it nests at most as deep as there are files |
| `Includes.MissingIncludeCutsCycle` | userland/src/lib.rs:77-161 | two files that include each other, one of them also a missing file: the run reports the missing file without recursing |
| `Includes.ErrorNamesMissing` | userland/src/lib.rs:148-153 | the path a run reports is missing |
| `Includes.FirstMissingMeaning` | userland/src/lib.rs:148-153 | of several missing includes the first in order is reported |
| `Includes.FirstFailureDecides` | userland/src/lib.rs:81-88 | the first include that fails decides what the run comes to |
| `Includes.FuelDoesNotMatter` | userland/src/lib.rs:77-92 | runs that end come to the same result or error, whatever the fuel |
| `Includes.LeafBranchAgrees` | userland/src/lib.rs:82-87 | the branch for files without includes agrees with the other one |
| `Includes.NestedIncludeLosesSet` | userland/src/lib.rs:77-116 | a three-file tree in which `parse_all` and merging in order give different values whenever the first file's value is not empty; both results |
| `Makefiles.Makefile.ParseVariable` | userland/src/lib.rs:285-317 | the loop over the pairs inserts the variable read from them |
| `Makefiles.Makefile.ParseStatement` | userland/src/lib.rs:285-317 | one statement is executed and keeps every variable non-empty |
| `Makefiles.Makefile.ParseDefine` | userland/src/lib.rs:264-283 | the loop over the pairs of a define block |
| `Makefiles.Makefile.ParseDefinition` | userland/src/lib.rs:264-283 | one define block sets its variable and keeps every variable non-empty |
| `Makefiles.Makefile.Merge` | userland/src/lib.rs:94-116 | for every enumeration order, the new map is the pointwise merge; non-empty variables stay so |
| `Makefiles.Makefile.RewriteMatches` | userland/src/lib.rs:172-182 | the inner loop is the rewriting function |
| `Makefiles.Makefile.ResolveNestedVariables` | userland/src/lib.rs:163-185 | every value is rewritten and the number of values kept |
| `Makefiles.Makefile.Get` | userland/src/lib.rs:118-125 | the expanded text, or nothing for an undefined name |
| `Makefiles.Makefile.GetFirstValue` | userland/src/lib.rs:187-194 | the first resolved value; `first().unwrap()` cannot fail |
| `Makefiles.Makefile.ParseIncludedMakefiles` | userland/src/lib.rs:139-161 | all direct includes in order, or the first missing path |
| `Makefiles.Makefile.MergeInclude` | userland/src/lib.rs:81-88 | merges an include or its own `parse_all`, or reports its error, for every run that ends |
| `Makefiles.Makefile.ParseAll` | userland/src/lib.rs:77-92 | for every run that ends: a new makefile without includes holding the merged variables, or the error of the first failing include |
| `ManifestReading.DocumentParses` | libips/src/actions/manifest.pest:31-72 | every document whose parts fit the text after them, whatever its gaps, quotes, comments, transforms and line endings, is read back as exactly its keywords, payloads, names and written values, in order |
| `ManifestReading.AcceptedExactlyWhen` | libips/src/actions/manifest.pest:31-72 | the grammar reads a text as these actions if and only if the text is that of a document that fits and has these actions |
| `ManifestReading.GoodDocumentFits` | libips/src/actions/manifest.pest:31-72 | a condition that does not look at what follows: tokens set apart by blanks, lines ended by a line feed, values without quotes and backslashes; such documents fit, so that they are read back |
| `ManifestReading.ActionParses` | libips/src/actions/manifest.pest:67-71 | every layout of one action that fits is read back, whatever follows its line |
| `ManifestLayout.PropertyParses` | libips/src/actions/manifest.pest:67-70 | a property with any gaps around its equals sign, quoted or bare, quotes and backslashes included, that fits what follows is read back |
| `ManifestSoundness.PropertyReadsExactlyWhen` | libips/src/actions/manifest.pest:67-70 | the property rule matches if and only if a layout of a property that fits begins the text |
| `ManifestReading.PropertyBeforePayload` | libips/src/actions/manifest.pest:67-71 | `name=value` after a keyword is read as a property with the whole bare value, further equals signs included, never as a payload |
| `ManifestReading.NamesAreRead` | libips/src/actions/manifest.pest:67-70 | every name of ASCII letters, digits, dots, underscores, dashes and slashes, written out character by character, is read as a property name |
| `ManifestReading.ReadNames` | libips/src/actions/manifest.pest:67-70 | no property is read under any other name |
| `ManifestReading.KeywordsAreRead` | libips/src/actions/manifest.pest:7-30 | each of the eleven keywords is read whole before any text |
| `ManifestLayout.SkipGap` | libips/src/actions/manifest.pest:42-62 | any mix of blanks, continued lines and comments is skipped |
| `ManifestReading.TransformParses` | libips/src/actions/manifest.pest:64-65 | every layout of a transform is recognised as one |
| `ManifestReading.TransformIsDropped` | libips/src/actions/mod.rs:575 | a transform between actions contributes nothing |
| `ManifestReading.ConcatenationParses` | libips/src/actions/manifest.pest:71-72 | lines followed by a document they fit give the actions of both |
| `ManifestSoundness.AcceptedIsDocument` | libips/src/actions/manifest.pest:31-72 | every text the grammar accepts is the text of a document that fits, with exactly the actions read |
| `ManifestSoundness.KeywordsAreKnown` | libips/src/actions/manifest.pest:7-30 | no accepted text yields a keyword outside the eleven of the grammar |
| `ManifestSoundness.ActionShape` | libips/src/actions/manifest.pest:67-71 | text the action rule reads is a layout of that action that fits, up to the newline or the end of the text |
| `ManifestSoundness.SkipShape` | libips/src/actions/manifest.pest:42-62 | skipped text is a sequence of blanks, continued lines and whole comments, and nothing more can be skipped after it |
| `Manifests.ManifestRoundTrip` | libips/src/actions/mod.rs:531-592 | every document that fits, and so every accepted text, reads as the manifest built by adding its actions, values without their quotes and backslashes |
| `Manifests.LayoutDoesNotMatter` | libips/src/actions/manifest.pest:42-72 | documents that fit and have the same actions read alike, however separators, comments, blank lines, transforms, line endings and quotes differ |
| `Manifests.ConcatenatedTexts` | libips/src/actions/mod.rs:531-592 | reading concatenated texts concatenates the six lists |
| `Manifests.CollectedConcat` | libips/src/actions/mod.rs:485-524 | adding two lists of actions concatenates their manifests, and fails exactly when either fails |
| `Manifests.ReadsExactlyWhen` | libips/src/actions/mod.rs:485-592 | for every text: a syntax error exactly when the grammar rejects it, a manifest exactly when besides no action is a driver, group, user or legacy and every file's digests parse, a panic otherwise |
| `Manifests.ReadingSorts` | libips/src/actions/mod.rs:485-592 | for every text that reads: each list holds, one for one and in order, the records of the actions of its kind, and the six lists together have one record for each action |
| `Manifests.CollectedSorts` | libips/src/actions/mod.rs:485-524 | adding actions one by one sorts them by kind, keeps their order and loses none |
| `Manifests.QuotedPayloadExactlyWhen` | libips/src/actions/mod.rs:186-198 | through grammar and conversion: a quoted payload of a file with an equals sign becomes its last property, the quote stays in the key, and the value is whole if and only if it holds no further equals sign |
| `PlainLines.PlainLineReads` | libips/src/actions/manifest.pest:67-71 | a line of keyword, bare payload and bare properties set apart by spaces comes to the record of exactly that keyword, payload and properties, or a panic |
| `PlainLines.FileLine` | libips/src/actions/mod.rs:180-246 | the file line of a published package: a bare hash as primary SHA-1 digest, `chash` and `pkg.content-hash=file:sha512t_256:...` as further digests in order, path and size in their places, all other fields empty |
| `PlainLines.LinkLineReads` | libips/src/actions/mod.rs:417-445 | text to record for link and hardlink, a payload becoming the last property |
| `PlainLines.LinkLine` | libips/src/actions/mod.rs:417-445 | `link path=P target=T` is the link at P with target T |
| `PlainLines.AttrLine` | libips/src/actions/mod.rs:346-374 | `set` with a name, two values and another property: the name, both values in order, the other by key |
| `PlainLines.DependencyLine` | libips/src/actions/mod.rs:278-306 | `depend` with fmri, type and a facet |
| `PlainLines.DirLine` | libips/src/actions/mod.rs:95-123 | `dir` with group, mode, owner and path, each in its field |
| `PlainLines.LicenseLine` | libips/src/actions/mod.rs:385-405 | `license` with a payload as written and a property by key |
| `Manifests.Manifest.AddAction` | libips/src/actions/mod.rs:485-524 | the lists grow by the contribution of the action, or nothing changes where the code panics |
| `Manifests.Manifest.AddFile` | libips/src/actions/mod.rs:481-483 | the file is appended and nothing else changes |
| `Manifests.ParseString` | libips/src/actions/mod.rs:531-592 | the nested loops build the manifest of the actions read, or report a syntax error or a panic |
| `Actions.ConvertFile` | libips/src/actions/mod.rs:180-246 | the loop computes the file specified field by field |
| `Actions.ReadFileProperties` | libips/src/actions/mod.rs:203-238 | fields and digests of the properties read, or a failure at a malformed digest |
| `Actions.UpdateFile` | libips/src/actions/mod.rs:204-237 | one property changes its own field only |
| `Actions.ConvertDir` | libips/src/actions/mod.rs:95-123 | each field is the last value of its key; facets by name; other keys dropped |
| `Actions.ConvertDependency` | libips/src/actions/mod.rs:278-306 | the same, with other properties kept in order |
| `Actions.ConvertAttr` | libips/src/actions/mod.rs:346-374 | all values in order, the last name, other properties by key |
| `Actions.ConvertLicense` | libips/src/actions/mod.rs:385-405 | the payload as written and the properties by key |
| `Actions.ConvertLink` | libips/src/actions/mod.rs:417-445 | path and target, other properties by key |
| `Actions.FileKeepsProperties` | libips/src/actions/mod.rs:180-246 | by literal keys: each scalar field is the last value of its key; facets with their last value; the other properties in order and as often as they occur, after the original path; a payload without a slash is the primary digest, hash properties the others one for one in order, all kept exactly when the primary hash is not empty |
| `Actions.FileExactlyWhen` | libips/src/actions/mod.rs:180-246 | a file action is converted if and only if a payload without a slash and all hash properties parse |
| `Actions.LinkMeaning` | libips/src/actions/mod.rs:417-445 | path and target are the last values of their keys, the other keys with their last values by key, of the properties and then the split payload |
| `Actions.DirMeaning` | libips/src/actions/mod.rs:95-123 | the six fields are the last values of their keys, the facets kept, all else dropped, of the properties and then the split payload |
| `Actions.DependencyMeaning` | libips/src/actions/mod.rs:278-306 | the four fields, the facets, and every other property in order and as often as it occurs |
| `Actions.AttrMeaning` | libips/src/actions/mod.rs:346-374 | the last name, all values in order, the other keys with their last values |
| `Actions.LicenseMeaning` | libips/src/actions/mod.rs:385-405 | the payload as written and every key with its last value |
| `Actions.PayloadIsOriginalPath` | libips/src/actions/mod.rs:186-198 | a slash payload without equals sign is the original path even if a property of that name is given |
| `Actions.OriginalPathWithoutPayload` | libips/src/actions/mod.rs:170-177 | otherwise the original path is the first property of that name |
| `Actions.GetOriginalPath` | libips/src/actions/mod.rs:170-177 | the value of the first property of that name, or none if there is no such property |
| `Actions.FacetedAction.AddFacet` | libips/src/actions/mod.rs:248-251 | stored under its own name; the result tells whether the name was free |
| `Actions.FacetedAction.RemoveFacet` | libips/src/actions/mod.rs:253-255 | the name is freed; the result tells whether exactly this facet was stored |
| `Actions.RemovalChangesExactlyWhenNamed` | libips/src/actions/mod.rs:253-255 | a removal leaves the facets as they are if and only if the name is free |
| `Actions.RemoveMismatch` | libips/src/actions/mod.rs:253-255 | removing a facet with another value returns false, and the stored facet is gone |
| `Actions.LastOperationDecides` | libips/src/actions/mod.rs:248-256 | after any run, the last operation on a name decides what it holds |
| `Actions.OnlyAddedFacets` | libips/src/actions/mod.rs:248-256 | whatever a run leaves was added in it, under its own name |
| `Properties.LastValueMeaning` | libips/src/actions/mod.rs:203-211 | a scalar field takes the last occurrence of its key, or stays empty |
| `Properties.FacetsMeaning` | libips/src/actions/mod.rs:228-229 | a facet is kept if and only if its property occurs, with its last value |
| `Properties.FacetKeyInjective` | libips/src/actions/mod.rs:654-663 | different facet properties never share a name |
| `Properties.OthersMeaning` | libips/src/actions/mod.rs:230-235 | unknown properties are kept in order and as often as they occur, known ones and facets never |
| `Properties.CollectedInOrder` | libips/src/actions/mod.rs:203-238 | values and hash texts of a list are those of any first part followed by those of the rest |
| `Properties.OneCollected` | libips/src/actions/mod.rs:224-226 | `chash` and `pkg.content-hash`, and no other key, hold digests |
| `Text.InOrderExactlyWhen` | libips/src/actions/mod.rs:230-235 | what the laws on lists mean by order: the kept elements stand at increasing positions |
| `Properties.BoolMeaning` | libips/src/actions/mod.rs:678-686 | a value is true if and only if it is `true` or `t`, in any mixture of cases, between white space |
| `Properties.CleanErases` | libips/src/actions/mod.rs:559-560 | every quote and backslash is dropped from a value, whatever stands around it, and nothing else |
| `Properties.ByKeyMeaning` | libips/src/actions/mod.rs:361-369 | properties by key hold exactly the unknown keys with their last values |
| `Properties.HashDigestsMeaning` | libips/src/actions/mod.rs:224-226 | the digests are the parses of the hash values in order, and exist exactly when all parse |
| `Properties.SplitPropertyReads` | libips/src/actions/mod.rs:665-676 | `key=value` splits into that property, a second equals sign ends the value whatever follows, and text without an equals sign is a key without value |
| `Properties.SplitKeepsValueExactlyWhen` | libips/src/actions/mod.rs:665-676 | splitting keeps the value if and only if it holds no equals sign |
| `Digests.DigestRoundTrip` | libips/src/digest/mod.rs:76-143 | a digest is read back from its text if and only if its hash holds no colon |
| `Digests.ParsePrintParse` | libips/src/digest/mod.rs:76-143 | parse, print, parse is stable for every text |
| `Digests.ParsesExactlyWhen` | libips/src/digest/mod.rs:76-103 | a text is a digest if and only if it has no colon, or two with a known algorithm between them |
| `Digests.BareHashMeaning` | libips/src/digest/mod.rs:78-84 | a text without a colon is a hash with algorithm SHA-1 and the source of primary payloads, and prints so |
| `Digests.ThreePartsMeaning` | libips/src/digest/mod.rs:86-102 | source and algorithm are those of the names written, an unknown source is `Unknown`, the hash ends at the third colon, an unknown algorithm is reported by its name |
| `Digests.OneColonFails` | libips/src/digest/mod.rs:86-92 | a text with one colon is rejected as badly formatted |
| `Digests.WrittenNames` | libips/src/digest/mod.rs:22-61 | each of the six source and seven algorithm names, written out, is read as its variant |
| `Digests.NamesRoundTrip` | libips/src/digest/mod.rs:22-61 | the name tables are read back |
| `Differ.ReplaceFunc` | pkg6dev/src/main.rs:259-274 | the loop applies the replacements in iteration order |
| `Differ.ReplacedMeaning` | pkg6dev/src/main.rs:259-274 | the result with a map is the text with all its names replaced at once, and without a map the text itself |
| `Differ.ReplacementIsSimultaneous` | pkg6dev/src/main.rs:259-274 | on literals and references, with independent replacement texts, replacing name by name is simultaneous substitution |
| `Differ.OrderDoesNotMatter` | pkg6dev/src/main.rs:262-269 | with texts that neither contain `$(` nor end in `$`, any two iteration orders of the map give the same text |
| `Differ.OrderDoesNotMatterExactlyWhen` | pkg6dev/src/main.rs:259-274 | all iteration orders give the same result for every text if and only if no replacement text contains, or ends in the beginning of, a reference to another name that is replaced by something else |
| `Differ.OrderMatters` | pkg6dev/src/main.rs:259-274 | two names for which the two orders give different texts, with both results |
| `Differ.FileMapKeys` | pkg6dev/src/main.rs:276-287 | the index has exactly the keys of the files |
| `Differ.KnownByKey` | pkg6dev/src/main.rs:276-287 | a file is known by the value of its first `original-path` property, or by its path if it has none |
| `Differ.AllFilesConcat` | pkg6dev/src/main.rs:205-206 | the files of all manifests are those of each, in order |
| `Differ.IsMissing` | pkg6dev/src/main.rs:242-253 | one lookup: whether no indexed file has the replaced key of the file |
| `Differ.IsRemoved` | pkg6dev/src/main.rs:211-224 | one lookup, which for a file with an original path also asks the disk |
| `Differ.FindFilesMissingInManifests` | pkg6dev/src/main.rs:231-257 | the search through the index equals the order-preserving linear scan |
| `Differ.FindRemovedFiles` | pkg6dev/src/main.rs:199-228 | the same for removed files, with the disk check for original paths |
| `Differ.MissingMeaning` | pkg6dev/src/main.rs:241-254 | the missing files are in the order of the sample and occur as often as there, exactly those whose replaced key is no key of the manifests |
| `Differ.MissingUnderReplacement` | pkg6dev/src/main.rs:231-257 | a sample file known (by original path or else path) as a text with references is missing if and only if no file of the manifests is known under the text with the names replaced |
| `Differ.RemovedMeaning` | pkg6dev/src/main.rs:210-225 | the same for removed files: no counterpart in the sample and no original file on disk |
| `Differ.RemovedUnderReplacement` | pkg6dev/src/main.rs:199-228 | the same for removed files; an original path is looked for on disk as it is written, without replacements |
| `Differ.SymmetricDifference` | pkg6dev/src/main.rs:199-257 | without replacements and files on disk the two lists are the symmetric difference of the keys |
| `Differ.EmittedReadsBack` | pkg6dev/src/main.rs:126-128 | the text written for bare paths reads as exactly those files |
| `Differ.DiffConverges` | pkg6dev/src/main.rs:120-129 | after adding the written manifest nothing is missing, for missing files known by bare paths that replacements leave alone |
| `Differ.DiffConvergesExactlyWhen` | pkg6dev/src/main.rs:120-129 | when the paths are bare: after adding the written manifest nothing is missing if and only if the replaced key of every missing file is the path of a missing file |
| `Differ.OriginalPathStaysMissing` | pkg6dev/src/main.rs:120-129 | a file with another original path is still missing after its path has been written and read back |
| `Differ.LineReadsBackExactlyWhenBare` | pkg6dev/src/main.rs:127 | a written line reads back as its path if and only if the path is bare text |

## Left out

- Reading files, `canonicalize`, `set_current_dir`: the file system is a finite map from resolved path to parsed makefile.
- The makefile grammar as text (targets, comments, defines): the model starts from the pairs the reader consumes.
- Includes.ParseAllFlattens: the direction from equality to no loss asks that every variable has a value, which all files read have (`Variables.BuiltVariablesHaveValues`).
- Expansion.GetIsSimultaneousExpansion: names in references are not empty and hold no parentheses, newlines or dollar signs; other names are outside the token view of a value.
- Differ.OrderDoesNotMatterExactlyWhen: names hold no parentheses or dollar signs, and the texts are made of references and of literals that neither contain `$(` nor end in `$`; within a half-written reference any replacement can complete another.
- Differ.DiffConvergesExactlyWhen: missing paths that are not bare text, for which `LineReadsBackExactlyWhenBare` shows that the line does not give the path back.
- Splitting the command line's `name:text` replacements into a map, a one-line loop.
- `string_to_bool` lower-cases ASCII letters only; no other character lowers to a letter of the accepted words.
- The remaining payload fields (compression, bitness, architecture), which stay at their defaults in everything read from text.
- Hash computation and ELF inspection (`Digest::from_bytes`, `Payload::compute_payload`): foreign library calls.
- Spec files, ports, repology, images, derived `Diff`, serialisation, error messages and the command line.
