# SASS variable strategy, modelled in Dafny

This project models the SASS strategy of the colour-highlighting extension's
variable extractor: the class `SassExtractor` in
`src/lib/variables/strategies/sass-strategy.ts`. The strategy does three
things with the lines of a document:

- **Declaration pass** (`extractDeclarations`). It first rewrites the
  arguments of every `rgb(...)`, `hsl(...)`, `rgba(...)` and `hsla(...)`
  call. Then it records every `$name: value` declaration of the line in the
  variable store, at the site `(fileName, line)`. The value is read as a
  literal colour, else as a reference to another variable, else as a
  placeholder that keeps only the raw text.
- **Usage pass** (`extractVariables`). For each line, it returns one entity
  for every `$name` usage whose name the store knows. The entity takes the
  colour of the closest declaration in the same file. When the file has
  none, it falls back to the global scope `"."`.
- **Store upkeep** (`variablesCount`, `deleteVariable`).

The model has these modules:

| module | file | contents |
|---|---|---|
| `Wrappers` | `wrappers.dfy` | `Option` |
| `JsText` | `js_text.dfy` | the JavaScript string operations the code relies on: `trim`, global removal of `;`, `indexOf`, `replace` with a string pattern including its `$`-patterns, and `join` |
| `SassPatterns` | `sass_patterns.dfy` | the four regular expressions as explicit scanners. Each has a declarative acceptance predicate and the match that the backtracking engine reports. |
| `Variables` | `variables.dfy` | `Color`, `Variable` with its declaration site, `DocumentLine`, `LineExtraction` |
| `VariableStore` | `variable_store.dfy` | the store: a sequence of declarations, with the queries the strategy makes of it and the invariant it keeps (one entry per site) |
| `SassPasses` | `sass_passes.dfy` | the three passes as functions over the store's entries, with their properties |
| `SassStrategy` | `sass_strategy.dfy` | the class `SassExtractor`, whose methods walk the matches with loops and are proved against `SassPasses` |
| `SubstitutionFindings` | `substitution_findings.dfy` | the argument substitution of `extractFunction` as it is written, with three inputs on which it misbehaves |

## Model

| member | source | states |
|---|---|---|
| JsText.Trim | src/lib/variables/strategies/sass-strategy.ts:29-30 | `trim` returns the slice of the text between its leading and its trailing white space: only white space lies outside the slice, and the result neither starts nor ends with white space. A text with no white space is unchanged; an all-white-space text becomes empty. |
| JsText.RemoveAll | src/lib/variables/strategies/sass-strategy.ts:32 | Removing every `;` leaves no `;` and keeps the count of every other character. A text without `;` is unchanged. |
| JsText.RemoveAllKeepsOrder | src/lib/variables/strategies/sass-strategy.ts:32 | Removal distributes over concatenation: the result for `a + b` is the result for `a` followed by the result for `b`, so the kept characters stay in their order. |
| JsText.IndexOf | src/lib/variables/strategies/sass-strategy.ts:94 | The index that `replace` uses for a string pattern: an occurrence of the pattern with no occurrence before it, or none at all. |
| JsText.Expand | src/lib/variables/strategies/sass-strategy.ts:94 | A replacement text with no `$$`, `$&`, `` $` `` or `$'` is inserted as it is. |
| JsText.ReplaceFirst | src/lib/variables/strategies/sass-strategy.ts:94 | `replace` with a string pattern leaves the text unchanged when the pattern is absent. Otherwise only the first occurrence is replaced, whatever the replacement holds: the text before it and the text after it are kept as they were. A pattern-free replacement is inserted literally. |
| JsText.Join | src/lib/variables/strategies/sass-strategy.ts:90-93 | Joining no parts gives the empty string; joining one part gives that part. |
| JsText.JoinSnoc | src/lib/variables/strategies/sass-strategy.ts:90-93 | Joining one more part appends the separator and then that part, so the parts appear in order with one separator between neighbours. |
| JsText.JoinLength | src/lib/variables/strategies/sass-strategy.ts:90-93 | A join is as long as all its parts together plus one separator for each pair of neighbours. |
| SassPatterns.IdentEnd | src/lib/variables/strategies/sass-strategy.ts:9-11 | `[\-_a-z\d]*` under the `i` flag takes the whole run of identifier characters. |
| SassPatterns.SpaceEnd | src/lib/variables/strategies/sass-strategy.ts:11 | `\s*` takes the whole run of white space. |
| SassPatterns.LongestNameEnd | src/lib/variables/strategies/sass-strategy.ts:9 | The greedy engine backtracks to the longest name end at which `(?!:)` and `EOL` hold, and there is no longer one. |
| SassPatterns.UsageAt | src/lib/variables/strategies/sass-strategy.ts:9-10 | The match reported at an index is accepted by the usage rule. Every match the rule accepts there is no longer than it. |
| SassPatterns.FindUsage | src/lib/variables/strategies/sass-strategy.ts:9 | `exec` on the global usage expression finds the leftmost match at or after the cursor. It skips no index where a match starts. |
| SassPatterns.DeclMatchUnique | src/lib/variables/strategies/sass-strategy.ts:11 | A declaration match takes the whole identifier and all the white space before the colon, so backtracking has no alternative. |
| SassPatterns.DeclAt | src/lib/variables/strategies/sass-strategy.ts:11 | The declaration match at an index is the unique one the rule accepts. Its name is group 1 trimmed. |
| SassPatterns.FindDecl | src/lib/variables/strategies/sass-strategy.ts:11 | `exec` on the declaration expression finds the leftmost declaration at or after the cursor. |
| SassPatterns.LineEnd | src/lib/variables/strategies/sass-strategy.ts:14 | `.*` reaches up to the first line terminator. |
| SassPatterns.LastClose | src/lib/variables/strategies/sass-strategy.ts:14 | The greedy `.*` ends on the last closing parenthesis followed by a terminator, and on no later one. |
| SassPatterns.CallAt | src/lib/variables/strategies/sass-strategy.ts:14 | The call reported at an index is accepted by the function rule. Every accepted call there closes no later than it does. |
| SassPatterns.FindCall | src/lib/variables/strategies/sass-strategy.ts:14 | `exec` on the function expression finds the leftmost call at or after the cursor. Its argument list lies inside the text. |
| Variables.Placeholder | src/lib/variables/strategies/sass-strategy.ts:32 | The fallback colour keeps only the raw text and has an empty channel list. |
| VariableStore.IndexAt | src/lib/variables/strategies/sass-strategy.ts:33-34 | `has(name, fileName, line)` and `findDeclaration` agree: an index is found iff a declaration sits at that site, and it is the first one there. |
| VariableStore.ClosestIndex | src/lib/variables/strategies/sass-strategy.ts:54-56 | `findClosestDeclaration` returns the most recent declaration of the name visible from the file. It returns none iff no such declaration is visible. |
| VariableStore.WithoutSite | src/lib/variables/strategies/sass-strategy.ts:105 | After `delete`, an entry remains iff it was there and was not declared at the deleted site. |
| VariableStore.WithoutSiteKeepsOrder | src/lib/variables/strategies/sass-strategy.ts:105 | Deletion distributes over concatenation, so the entries that remain keep their relative order and later "most recent" lookups see them as before. |
| VariableStore.CountIsDeclarations | src/lib/variables/strategies/sass-strategy.ts:101-103 | Under the store's invariant, the count of entries is the number of distinct `(name, site)` declarations. |
| VariableStore.WithoutSiteKeepsInvariant | src/lib/variables/strategies/sass-strategy.ts:104-106 | Deleting keeps one entry per site, each with its site. |
| VariableStore.VariablesStore.constructor | src/lib/variables/strategies/sass-strategy.ts:18 | A new store is empty. |
| VariableStore.VariablesStore.AddEntry | src/lib/variables/strategies/sass-strategy.ts:38 | `addEntry` appends the declaration. |
| VariableStore.VariablesStore.UpdateColor | src/lib/variables/strategies/sass-strategy.ts:35 | `decoration.update(color)` changes the colour of that one entry and nothing else. |
| VariableStore.VariablesStore.Delete | src/lib/variables/strategies/sass-strategy.ts:105 | `delete` removes exactly the entries at the site. It reports whether anything was removed. |
| SassPasses.ResolveUsage | src/lib/variables/strategies/sass-strategy.ts:53-63 | A usage resolves iff the store knows the name. The most recent declaration in the file wins. Only when the file has none does the most recent declaration in the global scope win. |
| SassPasses.UsageEntity | src/lib/variables/strategies/sass-strategy.ts:58-64 | The entity of a usage carries the name as its label and the match index as its position, and it is never a declaration. When the usage resolves, the entity copies the resolved colour's `rgb`, `alpha` and `raw`; otherwise it has none of them. |
| SassPasses.UsagesFromExact | src/lib/variables/strategies/sass-strategy.ts:50-66 | The `exec` loop from a cursor yields an entity for every usage match it reports whose name the store knows, and nothing else: each entity is built from such a match at or after the cursor. Positions strictly increase. |
| SassPasses.LineUsages | src/lib/variables/strategies/sass-strategy.ts:47-68 | The entities of one line are exactly those of the reported usage matches with known names, scanned from index 0, in increasing positions. |
| SassPasses.UsageLines | src/lib/variables/strategies/sass-strategy.ts:47-70 | The result has one entry per input line, in order, tagged with that line's number. Each entry holds exactly the entities of that line's reported usage matches with known names, in increasing positions. |
| SassPasses.SingleTokenColor | src/lib/variables/strategies/sass-strategy.ts:72-79 | `extractVariable` gives a colour only when a reference starts the text. It gives one iff a declaration of that name is visible from the file, namely the most recent one. There is no global fallback. |
| SassPasses.Raws | src/lib/variables/strategies/sass-strategy.ts:90-92 | One raw text per entity, in order: the i-th string is the i-th entity's raw text, and the empty string when it has none. |
| SassPasses.LoneReferenceValue | src/lib/variables/strategies/sass-strategy.ts:86-93 | An argument list that is exactly one variable reference is replaced by the raw text of the colour the reference resolves to, and by the empty string when the name is unknown. |
| SassPasses.Resume | src/lib/variables/strategies/sass-strategy.ts:85-94 | After the in-place rewrite of a call, the text before the resume index is the line up to the end of the call with the argument list replaced by its value, and the text from the resume index on is the rest of the original line. |
| SassPasses.SubstituteFrom | src/lib/variables/strategies/sass-strategy.ts:85-96 | The substitution from a cursor never changes the text before the cursor. |
| SassPasses.SubstituteCalls | src/lib/variables/strategies/sass-strategy.ts:81-98 | A line with no call is unchanged. Otherwise the result starts with the line up to the end of its first call, in which only that call's argument list is replaced by its value. |
| SassPasses.DeclaredColor | src/lib/variables/strategies/sass-strategy.ts:32 | The colour of a declared value is tried in order: literal colour, else variable reference, else a placeholder whose raw text has no `;`. |
| SassPasses.Declare | src/lib/variables/strategies/sass-strategy.ts:33-39 | A known site keeps its length and only its colour changes. A new site is appended with the colour. Every other entry is untouched, and afterwards the site holds the colour. The store's invariant is kept. |
| SassPasses.DeclareChangesOnlyAt | src/lib/variables/strategies/sass-strategy.ts:33-39 | One declaration changes or adds entries only at its own site. |
| SassPasses.DeclareFrom | src/lib/variables/strategies/sass-strategy.ts:28-40 | The declaration loop of a line changes or adds entries only at that line's site, and keeps one entry per site, each with its site. |
| SassPasses.ReportedDeclWithin | src/lib/variables/strategies/sass-strategy.ts:28-30 | A declaration match reported from a cursor lies in the text, at or after the cursor. |
| SassPasses.DeclareFromRecordsAll | src/lib/variables/strategies/sass-strategy.ts:28-40 | Every declaration the loop reaches is in the store afterwards, at the line's site. |
| SassPasses.DeclareFromKeepsName | src/lib/variables/strategies/sass-strategy.ts:28-40 | An entry of a name that the rest of the line does not declare again is left as it was. |
| SassPasses.DeclareFromLastWins | src/lib/variables/strategies/sass-strategy.ts:28-40 | The last declaration of a name on the line decides it: afterwards the entry of that name at the line's site holds the colour computed for that declaration's value, in the store as the loop held it then. |
| SassPasses.DeclareLine | src/lib/variables/strategies/sass-strategy.ts:23-41 | `__extractDeclarations` runs the declaration loop on the substituted line. It changes or adds entries only at the line's site and keeps the store's invariant. |
| SassPasses.DeclareLines | src/lib/variables/strategies/sass-strategy.ts:20-22 | Declaring the lines in order drops, renames and moves no entry. Entries of sites outside the lines are unchanged, every new entry belongs to one of the lines, and the store's invariant is kept. |
| SassStrategy.SassExtractor.constructor | src/lib/variables/strategies/sass-strategy.ts:17-18 | The strategy is named `SASS` and starts with a fresh, empty store. |
| SassStrategy.SassExtractor.ExtractDeclarations | src/lib/variables/strategies/sass-strategy.ts:20-22 | The lines are declared in order, each seeing the declarations of the lines before it. The number of lines is returned. |
| SassStrategy.SassExtractor.ExtractLineDeclarations | src/lib/variables/strategies/sass-strategy.ts:23-41 | The line is substituted first, then each declaration match is recorded at the line's site, and the store's invariant is kept. |
| SassStrategy.SassExtractor.ExtractVariables | src/lib/variables/strategies/sass-strategy.ts:42-45 | The substituted text is discarded: the result is the usage pass over the original lines. |
| SassStrategy.SassExtractor.ExtractLineVariables | src/lib/variables/strategies/sass-strategy.ts:46-71 | The loop over lines returns the usage pass's result for every line. |
| SassStrategy.SassExtractor.LineVariables | src/lib/variables/strategies/sass-strategy.ts:47-69 | The `exec` loop of one line yields exactly the entities of the usage pass. |
| SassStrategy.SassExtractor.ResolveVariable | src/lib/variables/strategies/sass-strategy.ts:51-65 | The entity built for a usage is the one `UsageEntity` specifies, with the closest-declaration and global-fallback lookups. |
| SassStrategy.SassExtractor.ExtractFunction | src/lib/variables/strategies/sass-strategy.ts:81-99 | One output line per input line, same line number, with the text after in-place argument substitution. |
| SassStrategy.SassExtractor.LineFunctions | src/lib/variables/strategies/sass-strategy.ts:82-97 | The `exec` loop of one line computes the in-place substitution of its calls. |
| SassStrategy.SassExtractor.VariablesCount | src/lib/variables/strategies/sass-strategy.ts:101-103 | The count is the number of distinct declarations recorded. |
| SassStrategy.SassExtractor.DeleteVariable | src/lib/variables/strategies/sass-strategy.ts:104-106 | Every declaration at `(fileName, line)` is removed, whatever its name, and nothing else is. The result says whether any was. Afterwards no name has a declaration at the site. |
| SubstitutionFindings.AsWrittenMoreFuel | src/lib/variables/strategies/sass-strategy.ts:85-96 | The iteration bound only cuts the loop as written short: a run that finishes within some number of iterations gives the same line under any larger bound. |
| SubstitutionFindings.AsWrittenAgreesInPlace | src/lib/variables/strategies/sass-strategy.ts:94 | When the argument text first occurs at the call's own argument list and its value holds no `$`-pattern, `text.replace(match[2], value)` is exactly the in-place rewrite. |
| SubstitutionFindings.SubstituteAtEnd | src/lib/variables/strategies/sass-strategy.ts:85 | A scan starting at the end of the line rewrites nothing. |
| SubstitutionFindings.AsWrittenRewritesEarlierOccurrence | src/lib/variables/strategies/sass-strategy.ts:94 | As written, `$w rgb($w)` with `$w` declared as `red` becomes `red rgb($w)`. |
| SubstitutionFindings.CorrectedRewritesInPlace | src/lib/variables/strategies/sass-strategy.ts:94 | In place, the same line becomes `$w rgb(red)`. |
| SubstitutionFindings.PatternPutsArgumentBack | src/lib/variables/strategies/sass-strategy.ts:94 | As written, the raw text `$&` expands back to the argument it replaces. |
| SubstitutionFindings.AsWrittenExpandsPatterns | src/lib/variables/strategies/sass-strategy.ts:94 | As written, `rgb($a)` with `$a` declared as `$&` is left unchanged. |
| SubstitutionFindings.CorrectedInsertsLiterally | src/lib/variables/strategies/sass-strategy.ts:94 | In place, the same line becomes `rgb($&)`. |
| SubstitutionFindings.GrownStep | src/lib/variables/strategies/sass-strategy.ts:85-96 | As written, with `$a` declared as `$a) rgb($a`, each iteration grows the line by one call. |
| SubstitutionFindings.NeverSettlesAlong | src/lib/variables/strategies/sass-strategy.ts:85-96 | A loop that steps from each line of a family to the next never finishes, whatever the iteration bound. |
| SubstitutionFindings.AsWrittenNeverTerminates | src/lib/variables/strategies/sass-strategy.ts:85-96 | As written, the loop over `rgb($a)` with `$a` declared as `$a) rgb($a` does not finish within any number of iterations. |
| SubstitutionFindings.CorrectedTerminates | src/lib/variables/strategies/sass-strategy.ts:85-96 | In place, the same line finishes as `rgb($a) rgb($a)`. |
| SubstitutionFindings.InPlaceDoubling | src/lib/variables/strategies/sass-strategy.ts:85-96 | In place, the raw text becomes the argument list and the scan resumes after the inserted text. |

## Left out

- The store's own code: `src/lib/variables/variable-store.ts` is not part of this model. The store is a sequence of declarations in discovery order, and its queries are taken to mean:
  - `findClosestDeclaration(name, file)` is the most recent declaration of the name in the file, and any file for `"."`;
  - `has(name)` asks whether any declaration of the name exists;
  - `count` is the number of entries;
  - `delete(null, file, line)` removes every entry at the site;
  - `has(name, fileName, line)` and `findDeclaration(name, fileName, line)` look for a declaration of the name at exactly that site, and the latter returns the first one there.
- `ColorExtractor.extractOneColor` is not part of this model. It is the constructor parameter `extractOneColor: string -> Option<Color>`, and colours are otherwise opaque values.
- The imported `EOL` pattern is not part of this model. It is the parameter `eol`: the end of the text, or one character of `eol`, which the match consumes.
- `flattenLineExtractionsFlatten` is not part of this model. It is taken to pass each line's `{line, colors}` through in order. As a result, `variables.length > 0` always holds in `extractFunction`, and a call with no known variable gets an empty argument list.
- The registration with `VariablesExtractor` (line 109) is a side effect on another module and is not modelled.
- Positions are indices into a sequence of Unicode scalar values, not UTF-16 code units.
- The `lastIndex` of the global expressions is shared state in the source. In the model each loop starts at index 0 and finishes its line, which is what happens when every `exec` loop runs to its `null`.
- Line 63, an entity with no colour, is not reached in the model. The usage is only looked up after `has(varName)` on line 53 holds, and in the model the global scope `"."` sees every declaration, so the lookup of line 56 always finds a colour. `SassPasses.ResolveUsage` therefore has no colour only for unknown names, which are never emitted.
- Arguments that are not variable references are dropped, as line 94 does: the whole argument list is replaced by the joined raw texts of its usages. With `$x` declared as `255,0,0`, `rgba($x, 0.5)` becomes `rgba(255,0,0)`.
- SassPasses.SingleTokenColor: the regular expression of line 10 is anchored only at the start, so a value that merely starts with a reference is looked up. The model follows the code in this.
- SassStrategy.SassExtractor.LineFunctions: computes the in-place substitution (`SassPasses.SubstituteFrom`), not the first-occurrence `replace` of line 94. The code as written is modelled by `SubstitutionFindings.SubstituteAsWritten` (see Findings).
- SassPasses.SubstituteFrom: its contract states only that the text before the cursor is kept. What happens to later calls is given by its definition (each call is rewritten in place and the scan resumes after it) but is not restated for the original line's indices.
- SassPasses.SubstituteCalls: its contract fixes the line only up to the end of its first call. The rewrites of later calls are not restated against the original line, for the same reason.
- SubstitutionFindings.SubstituteAsWritten: runs at most `fuel` iterations and gives no result when they run out, because the loop as written need not terminate. On all inputs only `AsWrittenMoreFuel` and `AsWrittenAgreesInPlace` are stated; the rest is shown on the inputs of the Findings.
- SassStrategy.SassExtractor.ExtractVariable: has no contract of its own. It is `SassPasses.SingleTokenColor` on the store's entries, and that function's contract states the lookup.
- Colours are not parsed or compared. Alpha values are reals that the model carries without reading.

## Findings

| source | as written | input that shows it | evidently intended | confidence | as-written member | corrected member |
|---|---|---|---|---|---|---|
| src/lib/variables/strategies/sass-strategy.ts:94 | `text.replace(match[2], value)` replaces the first occurrence of the argument text anywhere in the line | `$w rgb($w)` with `$w` declared as `red` gives `red rgb($w)` | the call's own argument list is rewritten: `$w rgb(red)` | not executed | SubstitutionFindings.AsWrittenRewritesEarlierOccurrence | SubstitutionFindings.CorrectedRewritesInPlace |
| src/lib/variables/strategies/sass-strategy.ts:94 | the value is a replacement string, so `$&`, `$$`, `` $` `` and `$'` in a raw text are expanded | `rgb($a)` with `$a` declared as `$&` stays `rgb($a)` | the raw text is inserted literally: `rgb($&)` | not executed | SubstitutionFindings.AsWrittenExpandsPatterns | SubstitutionFindings.CorrectedInsertsLiterally |
| src/lib/variables/strategies/sass-strategy.ts:85-96 | after the rewrite the global expression resumes at the end of the call in the old text, so a value that contains a call is scanned again | `rgb($a)` with `$a` declared as `$a) rgb($a` grows by one call per iteration and the loop never ends | the scan resumes after the rewritten call, and the line becomes `rgb($a) rgb($a)` | not executed | SubstitutionFindings.AsWrittenNeverTerminates | SubstitutionFindings.CorrectedTerminates |
