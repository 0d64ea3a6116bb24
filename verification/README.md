# mdd-go document binder, modelled in Dafny

mdd-go reads a Markdown document into a typed Go record. A `DocJig` is set up
with three things:

- a tree of layouts, one per heading level, each matching headings by a label
  pattern;
- an alias table of alternative and translated spellings for labels and table
  columns;
- fence, table and option slots that name the record fields things go into.

`ParseString` walks the document's blocks in order. A heading is matched
against the children of the layout bound one level up. Its label goes to the
layout's label field, and a parenthesised option clause at its end sets option
fields. A fenced code block fills the first fence slot of the current layout
that accepts its language tag. A table fills the current layout's table slot
in one of two ways: as one struct per row, with columns resolved through
aliases and required columns checked, or as one text map per row.

The model is written on immutable values:

- The output record is a `Value` tree (`Record`). Go's reflection reads and
  writes become `Get`/`Put` along a `Path`.
- The layout tree is a sequence of layouts that refer to their children by
  position (`Layouts.Schema`).
- Go panics are the error `Panic`, so that every path of the source stays
  visible.
- Type coercion (`fuzzyassign`), custom column converters and label
  translation are passed in as function parameters (`Coercer`, `Converter`,
  `tr`).

Modules:

- `Wrappers`: `Option`/`Result`.
- `Text`: the `strings` functions used.
- `Record`: the output record and the errors.
- `Aliases`: alias table, `matchLabel`, `translateToPrimaryKey`.
- `CodeFences`: `docjigcodefence.go`.
- `Fields`: `docjigfield.go`.
- `Tables`: `docjigtable.go`.
- `Layouts`: `docjiglayout.go`.
- `Binder`: the walk, `assignValue`, `parseCodeBlockType`, `parseTable`.

## Model

| member | source | states |
|---|---|---|
| `Aliases.Register` | docjig.go:44-62 | `Alias` stores the primary label first, then the aliases, under the lower-cased primary label. It extends an existing entry and touches no other key. It keeps the table well formed. |
| `Aliases.AddLang` | docjig.go:106-115 | `Alias.Lang` appends the spellings, tagged with the language, after those already stored under the key. It changes no other key. |
| `Aliases.MatchLabelSpec` | docjig.go:64-85 | Ignoring case, the pattern as a prefix wins first. Otherwise the first registered alias that is a prefix matches. The suffix is the rest of the heading without leading blanks, colons and tabs. An unmatched heading comes back whole. |
| `Aliases.MatchLabelIff` | docjig.go:64-85 | A heading matches exactly when, ignoring case, it starts with the pattern or with one of the pattern's aliases. |
| `Aliases.EmptyPatternMatchesAll` | docjig.go:64-85 | The empty pattern matches every heading and only strips the leading separators. |
| `Aliases.RegisteredAliasMatches` | docjig.go:44-85 | After `Alias` registers a spelling, any heading starting with it, in any case, matches the primary label. |
| `Aliases.TranslateToPrimaryKey` | docjig.go:87-99 | Returns the first target that has the variant among its lower-cased spellings, with that target's primary spelling. Otherwise no target has it. In a well-formed table, the primary spelling lower-cases to the target. |
| `Aliases.TranslationImpliesMatch` | docjig.go:64-99 | A header that translates into a target also matches that target as a heading pattern. |
| `Layouts.AddChild` | docjiglayout.go:61-75 | A child one level down is appended with the given instance field, pattern and repetition. The parent lists it, no other layout changes, and the tree stays level-consistent. A layout at level 6 panics. |
| `Layouts.Child` | docjiglayout.go:61-75 | The new layout does not repeat, is listed among the parent's children, and the tree stays valid. Panics exactly at level 6. |
| `Layouts.Children` | docjiglayout.go:77-81 | The same as `Child`, but the new layout repeats. |
| `Layouts.Update` | docjiglayout.go:38-117 | The builder methods change a layout in place through its pointer. Writing one reconfigured layout back keeps the tree valid and leaves every other layout as it was. |
| `Layouts.Layout.Label` | docjiglayout.go:53-59 | Sets the label field. The pattern changes only when one is given. Nothing else changes. |
| `Layouts.Layout.Sample` | docjiglayout.go:38-41 | Replaces the template's sample headings with the given ones, in order. Nothing else changes. |
| `Layouts.Layout.CodeFence` | docjiglayout.go:83-91 | Appends one fence slot after the existing ones. It has the given body field and language filter, and the layout's repetition. Nothing else changes. |
| `Layouts.OptionSlot.Sample` | docjiglayout.go:209-211 | Sets the option's template sample and nothing else. |
| `Layouts.Layout.Table` | docjiglayout.go:93-102 | The first call gives the layout a new, empty struct-mode table slot for the field. A second call panics. |
| `Layouts.Layout.Option` | docjiglayout.go:104-117 | Appends one option slot after the existing ones. Its pattern is the given one, or the field name when none is given. Nothing else changes. |
| `Layouts.FirstMatchingChild` | docjiglayout.go:119-122 | Returns the first child, in declaration order, whose pattern matches the heading. `None` means no child matches. |
| `Layouts.BindChild` | docjiglayout.go:123-148 | `"."` binds to the parent's own value. A named field must exist (`MissingChildField`). A nil pointer is allocated. A repeated child appends one zero element and writes through its address. Fields of a non-struct or of an element reached through its address panic. |
| `Layouts.BindChildFrame` | docjiglayout.go:123-148 | Binding a child changes nothing outside the child's own field. |
| `Layouts.FindMatchedChild` | docjiglayout.go:119-154 | No match means no error, and happens exactly when no child's pattern matches. Only the first child whose pattern matches is bound. An error is that child's binding error. When that child's binding succeeds, the result is that child, one level down, with its suffix and binding. |
| `Layouts.ExtractClause` | docjiglayout.go:165-171 | Finds the option clause at the last `(` before the last `)`, with the text before it and between them. There is no clause exactly when no `(` comes before a `)`. |
| `Layouts.ParseToken` | docjiglayout.go:172-183 | A token is trimmed and cut at its first `=`. The key is the trimmed left side and holds no `=`. The value is the trimmed right side, as text. A token without `=` is a flag named by the whole trimmed token. |
| `Layouts.ApplyOption` | docjiglayout.go:172-196 | The first option declared for a key writes the value, or a bare key as a flag, into the field named by the key. An unknown field is `MissingOptionField`, a pointer or non-struct target panics, and undeclared keys are skipped. |
| `Layouts.ApplyOptions` | docjiglayout.go:172-197 | With no declared key the record is unchanged. Nothing outside the target changes. An error names a declared key. What the options write is stated by the lemmas below. |
| `Layouts.ApplyOptionsAppend` | docjiglayout.go:172-197 | Options are applied left to right. Applying `a + b` is applying `a` and then `b` to its result, and an error in `a` ends the run. |
| `Layouts.ApplyOptionsKeeps` | docjiglayout.go:172-197 | After a successful run the target is still a struct with the same fields. Every field that no declared key names keeps its value. |
| `Layouts.OptionLastWins` | docjiglayout.go:172-197 | For a declared key, the field afterwards holds the key's last value, coerced onto what the field held just before that occurrence. |
| `Layouts.ProcessOption` | docjiglayout.go:167-199 | A heading without a clause comes back unchanged. Otherwise the trimmed text before the clause comes back. Options change nothing outside the target. |
| `Layouts.ProcessOptionWrites` | docjiglayout.go:167-199 | Each declared key of the heading's clause writes its field: the field ends up holding the key's last value in the clause, coerced. |
| `Layouts.ProcessOptionKeeps` | docjiglayout.go:167-199 | Fields of the target that no declared key of the clause names keep their value. |
| `Layouts.TemplateLabelMatches` | docjiglayout.go:251-296 | When the pattern is non-empty, a label field is set and the translation leaves the pattern unchanged (`tr(pattern) == pattern`), the template heading matches that pattern again. Its suffix is then the bracketed sample plus the option clause. A translated pattern is not promised to match. |
| `Layouts.TemplateOptionsParse` | docjiglayout.go:251-296 | Holds when at least one option is rendered, the base heading holds no `)`, and every rendered option is `TokenSafe`: no `(`, `)` or `,`, and trimmed on both sides of its first `=`. Then the template's option clause is found again as the clause of the template heading. Each option token parses back as its rendered text splits at its first `=`: the option name as key with the bracketed `[sample]` as text value, or the name alone as a flag. A sample holding a comma splits its token and is outside this promise. |
| `Layouts.TemplateLabel` | docjiglayout.go:251-296 | The template heading is the base label, followed by ` (` and the comma-joined rendered options and `)` when some option has a sample. It reads back only under the conditions of `TemplateLabelMatches` (untranslated pattern) and `TemplateOptionsParse` (no `)` in the base; no brackets or commas in a rendered option, which is trimmed). |
| `CodeFences.SettersIndependent` | docjigcodefence.go:18-26 | `Language` and `Info` commute, and the later call wins. Neither changes which tags the slot accepts. |
| `CodeFences.FindMatchedCodeFence` | docjiglayout.go:156-163 | Returns the first fence slot, in declaration order, that accepts the tag. `None` means no slot does. |
| `CodeFences.UnfilteredSlotTakesAnyTag` | docjigcodefence.go:38-48 | A slot with no language filter accepts every tag, including none, so some slot at or before it is chosen. |
| `CodeFences.FilteredSlotIsCaseSensitive` | docjigcodefence.go:38-48 | An instance of the exact comparison: `SQL` is not `sql`. |
| `CodeFences.FilteredSlotMatchesExactly` | docjigcodefence.go:38-48 | A slot with a language filter accepts a tag exactly when the tag is one of its listed languages, as written. |
| `CodeFences.NewFence` | docjiglayout.go:83-91 | A new fence slot has the body field, the language filter and the layout's repetition, and no language, info or sample. |
| `CodeFences.TemplateInfoLine` | docjigcodefence.go:50-60 | For a slot with a language filter, the template's first line is the fence, the first listed language and the sample info. |
| `CodeFences.Fence.Template` | docjigcodefence.go:50-60 | The template is an opening fence with the first listed language (or none) and the sample info, then the sample code with a newline when there is one, then a closing fence and a blank line. |
| `CodeFences.Fence.SampleCode` | docjigcodefence.go:28-31 | Sets the body the template shows and nothing else. |
| `CodeFences.Fence.SampleInfo` | docjigcodefence.go:33-36 | Sets the text the template writes after the language tag, and nothing else. |
| `Fields.ModifiersIndependent` | docjigfield.go:11-23 | `Required` and `As` commute and are idempotent. `Alias` changes nothing. None of them touches the field name or key. |
| `Fields.NewField` | docjigtable.go:30-34 | A new column has the given field name, key and original key. It is optional, uses the default coercion and has no samples. |
| `Fields.StructField.Required` | docjigfield.go:15-18 | Marks the column required and changes nothing else. |
| `Fields.StructField.As` | docjigfield.go:20-23 | Sets the column's converter and changes nothing else. |
| `Fields.StructField.Alias` | docjigfield.go:11-13 | Changes nothing: the alias spellings are not stored. |
| `Tables.NewTable` | docjiglayout.go:93-102 | A new table slot has no columns and is in struct mode. |
| `Tables.TableSlot.Field` | docjigtable.go:20-37 | Appends one column after the existing ones, in the same mode and for the same field. Its key is the lower-cased given key, or the field name when none is given, and its original key is that spelling as written. |
| `Tables.TableSlot.AsMap` | docjigtable.go:39-41 | Switches the slot to map mode and changes nothing else. |
| `Tables.ResolveHeaderSpec` | docjigtable.go:58-80 | A header that is a registered spelling of a column key fills that column, is read under its own text and marks the key present. Any other header fills the first column whose key it equals ignoring case, or none. |
| `Tables.ResolveAllSpec` | docjigtable.go:58-80 | After the header loop, a column is read under the cell key of the last header that resolves to it, or under `""`. |
| `Tables.UsedKeysSpec` | docjigtable.go:58-80 | The keys marked present are exactly those of the resolving headers. |
| `Tables.ResolutionIgnoresColumnOrder` | docjigtable.go:58-80 | When no two header texts compete for a column, the header loop's result is the same for any ordering of the header texts. |
| `Tables.MissingRequired` | docjigtable.go:82-93 | Lists exactly the `origKey` of each required column whose key was not found. It is empty exactly when every required column is present. |
| `Tables.MissingRequiredInOrder` | docjigtable.go:82-93 | The report is in declaration order. Declaring one more column adds its original key at the end, exactly when it is required and its key was not found. |
| `Tables.FillRow` | docjigtable.go:96-112 | A converter error aborts the row with the cell, the column's key and the section. The only other failures are a missing row field and a non-struct row. A filled row keeps the same field names. |
| `Tables.FillRowSpec` | docjigtable.go:96-112 | With distinct field names, each column's cell (converted if `As` was used) is coerced onto its row field's previous value. A coercion error is dropped and the field keeps its value. Fields no column names are untouched. |
| `Tables.BuildRows` | docjigtable.go:95-114 | Builds one row per body row, from a fresh zero row, in order. An error is the error of the first failing row: every earlier row fills without error. |
| `Tables.AssignCellsAsStruct` | docjigtable.go:51-118 | The target must be a list (`NotSlice`). Missing required columns are reported together, before any row. Otherwise a row error is the result. When every row builds, the bind succeeds and the built rows are appended after the list's existing rows. |
| `Tables.StructRowsAccumulate` | docjigtable.go:51-118 | A successful struct-mode bind keeps the old rows in place and adds one row per body row. |
| `Tables.StructBindingIgnoresColumnOrder` | docjigtable.go:51-118 | Struct-mode binding does not depend on header order, provided no two headers compete for a column. |
| `Tables.NormalizeHeadersSpec` | docjigtable.go:131-146 | In map mode, each column carries the cells of the last header filed under it. It is keyed by the primary label if a header translated into it, and by its own header text otherwise. |
| `Tables.TranslatedKeyIsPrimary` | docjigtable.go:131-146 | A column that some header translated into is keyed by the first spelling registered under its own lowered header. In a well-formed alias table, that key lower-cases back to the header. |
| `Tables.NormalizeWithoutAliases` | docjigtable.go:131-146 | Without translatable headers, each column is read under its own lowered header and keyed by its own text. |
| `Tables.RowMapDistinct` | docjigtable.go:148-155 | With distinct keys, each key of a map-mode row holds its own column's cell. |
| `Tables.AssignCellsAsMap` | docjigtable.go:120-165 | The target must be a list (`NotSlice`). Repeated header texts or non-map elements panic. Otherwise the list is replaced by one text map per body row. |
| `Tables.PlainHeadersKeepTheirCells` | docjigtable.go:120-165 | Without aliases, each row maps every header text, as written, to its cell. |
| `Tables.IndexedKeys` | docjigtable.go:148-155 | A helper of `PlainHeadersKeepTheirCells`: the set of a sequence's elements, collected by index, is the set of its texts. |
| `Tables.MapRowsReplace` | docjigtable.go:120-165 | A map-mode bind replaces the list with exactly one map per body row. |
| `Tables.TableBindFrame` | docjigtable.go:43-165 | A table bind, in either mode, writes only the destination list field. The target keeps its set of fields and their other values, and nothing outside the target changes. |
| `Tables.BindIsPut` | docjigtable.go:43-165 | A successful bind is a single write of the target struct with only the destination field replaced. |
| `Tables.SampleRows` | docjigtable.go:167-193 | The template has at least two body rows and as many as the longest sample list. |
| `Tables.TemplateGrid` | docjigtable.go:167-193 | The header row holds the translated field names. Each cell holds its column's sample for that row, or `...`. |
| `Tables.TemplateShowsAllSamples` | docjigtable.go:167-193 | Every sample given to a column appears in its column, in order. |
| `Tables.CapitalisedAliasHeaderIsIgnored` | docjigtable.go:58-80 | In struct mode the header is translated as written, so a header `Desc` misses the alias `Desc` of `Description`. |
| `Tables.ResolveHeaderFolded` | docjigtable.go:58-80 | The corrected header lookup lower-cases the header first. A resolved header names a declared column and is read under its lowered text. |
| `Tables.RegisteredSpellingResolves` | docjigtable.go:58-80 | With the header lower-cased first, any registered spelling of a column, in any case, resolves to that column or an earlier one. |
| `Tables.FoldedColumnsReadFiledCells` | docjigtable.go:58-80 | With lower-cased headers, every column the header loop binds is read under the lowered text of some header, which is the key its cells are stored under. |
| `Binder.AssignValue` | docjig.go:231-253 | No field name means no write. A missing field is `MissingField`. An already non-zero field is `AlreadyFilled`. A coercion failure is `CoerceFailed`. Otherwise the field receives the coerced value and nothing outside the target changes. |
| `Binder.FilledOnce` | docjig.go:231-245 | After a write leaves a non-zero value, a second write to the same field fails with `AlreadyFilled`. |
| `Binder.ParseCodeBlockType` | docjig.go:266-278 | The info string splits at its first colon into the trimmed language and the trimmed rest. Without a colon, the language is the whole trimmed info. |
| `Binder.FenceTemplateRoundTrip` | docjig.go:266-278 | Holds when the slot's first language is trimmed and holds no colon, and its sample info is a colon followed by a trimmed text. Then the info line the template writes parses back to that language and that text, without the colon, and the slot accepts the language. |
| `Binder.SampleInfoWithoutColonIsRejected` | docjigcodefence.go:50-60 | Outside that domain the round trip fails. A `sql` slot with sample info ` x` writes the info line `sql x`, which parses as the single language `sql x`, and the slot rejects that language. |
| `Binder.InfoParses` | docjig.go:266-278 | A trimmed tag without a colon, then a colon and a trimmed text, parses back into that tag and that text. |
| `Binder.ParseTable` | docjig.go:314-360 | One cell map per body row, and `key2column` of the header. Each row is stored by `RowCells`, so cells past the header are dropped (`RowCellsLast`). |
| `Binder.Key2Column` | docjig.go:323-336 | Maps each header text to the last column that has it, and has no other keys. |
| `Binder.RowCellsLast` | docjig.go:325-357 | A body row stores each cell under its header's lowered text. When two columns share that key, the later one wins. |
| `Binder.TemplateGridParses` | docjig.go:314-360 | The table template reads back. Parsing the grid a table slot's template lays out files each sample, or the `...` filler, under the lower-cased title of its column, when no later column's title lower-cases to the same key. |
| `Binder.DuplicateHeadersOverflow` | docjig.go:323-336 | With a repeated header text, the last column maps to an index at least the number of distinct texts. That index is where map mode goes out of range. |
| `Binder.DistinctHeadersMapToThemselves` | docjig.go:323-336 | With distinct header texts, each column maps to itself. |
| `Binder.BindHeading` | docjig.go:176-190 | Binding keeps the stack and the depth. An unmatched label keeps the section labels. A matched label, without its option clause, becomes the section label of this depth. |
| `Binder.BindHeadingSpec` | docjig.go:176-190 | An option error ends the step. Otherwise an unmatched label keeps the record the options left. A matched label is written to the layout's label field through `assignValue` with context `heading title`, whose error ends the step. |
| `Binder.HeadingLabelWritten` | docjig.go:176-190 | When the label field is declared, present and still zero, a matched heading leaves the coerced label, without its option clause, in that field. The section label of this depth becomes that text. |
| `Binder.HeadingStep` | docjig.go:153-190 | Depth 1 rebinds the root. A missing parent binding or a level outside 1..6 panics. Every step keeps the stack well formed, with each bound layout at its own depth. |
| `Binder.HeadingStepBinds` | docjig.go:153-190 | Depth 1 binds the root, and the root pattern decides whether the label is kept. A deeper heading binds the first matching child of the layout one level up, and its label is always kept. A lookup error ends the step. |
| `Binder.UnmatchedHeadingOnlyMovesLevel` | docjig.go:165-190 | A heading that matches no child changes only the current depth. |
| `Binder.MatchedHeadingBinds` | docjig.go:165-190 | A matched heading binds its depth to the matched child and to where that child writes. |
| `Binder.CodeStep` | docjig.go:191-198 | A fence with no layout bound at the current depth panics. A block no slot accepts leaves the state alone. Only the record changes. |
| `Binder.CodeStepWrites` | docjig.go:196-211 | Once a slot accepts the fence, its body with all surrounding newlines removed goes to the body field, then the language to the language field, then the info text to the info field, each through `assignValue`. The first failing write ends the step with its error. |
| `Binder.CodeFenceFills` | docjig.go:196-211 | When the three fields are declared, different, present and still zero, the step succeeds. The target then holds the coerced body, language and info text, with its other fields unchanged. |
| `Binder.ZeroFieldWritten` | docjig.go:231-245 | A write into a present, still-zero field succeeds and changes only that field of the target. |
| `Binder.TableStep` | docjig.go:213-223 | Without a table slot the table is ignored. Otherwise the result is exactly `assignCells` on the parsed cells under the current section label. Only the record changes. |
| `Binder.Step` | docjig.go:151-226 | Every block keeps the stack well formed. Other block kinds are no-ops. Fences and tables leave the stack, labels and depth alone. |
| `Binder.WalkAppend` | docjig.go:151-226 | Walking `a + b` equals walking `a` and then `b` from where it stopped, so the first error ends the parse. |
| `Binder.OtherBlocksAreIgnored` | docjig.go:151-226 | Inserting a block of another kind anywhere does not change the result. |
| `Binder.Parse` | docjig.go:133-229 | An empty document yields the zero record. A successful parse yields the record of the full walk started from the root binding. What the result means is stated by the two lemmas below. |
| `Binder.ParseIgnoresOtherBlocks` | docjig.go:151-226 | Removing a block of another kind from a document does not change the parse result. |
| `Binder.ParseStopsAtFirstError` | docjig.go:151-229 | When a prefix of the document fails, the parse of the whole document fails with that error, whatever follows. |
| `Binder.UnmatchedThenFence` | docjig.go:165-198 | As written, after a heading that matches no child at a depth with no bound layout, a fenced block panics. The skipping walk passes over both blocks and only moves the depth. |
| `Binder.UnmatchedThenStaleFence` | docjig.go:165-198 | As written, after a heading that matches no child at a depth still bound from an earlier sibling, a fenced block is bound through that earlier binding: the walk's result is the fence step at the new depth, with the old binding. |
| `Binder.WalkPair` | docjig.go:151-226 | A walk over two blocks runs the second step from where the first left off, or stops at the first step's error. |
| `Binder.UnmatchedSectionIsNotSkipped` | docjig.go:165-198 | As written, `## Notes` matching nothing followed by a fenced block makes the walk use an unbound layout and panic. The skipping walk yields the zero record. |
| `Binder.StepSkipping` | docjig.go:151-226 | The corrected step. Inside a skipped section, every block except a heading at or above the skip depth is a no-op. Any other heading that matches no child moves to its depth and starts skipping there. Every other block, including a matched heading, runs the source's step and ends skipping. |
| `Binder.SkippedSectionIsInert` | docjig.go:151-226 | In the corrected walk, a whole skipped section leaves the state unchanged. |
| `Binder.UnmatchedSectionSkipped` | docjig.go:165-198 | In the corrected walk, an unmatched heading followed by blocks that stay below its depth moves to that depth, starts skipping, and leaves everything else as it was. |
| `Binder.SkippingAgreesWithoutHeadings` | docjig.go:191-223 | With no heading in between, the corrected walk and the source's walk agree step for step. |
| `Binder.ParseSkipping` | docjig.go:133-229 | The corrected parse: an empty document yields the zero record. |
| `Binder.ParseSkippingAgrees` | docjig.go:133-229 | On a document without headings, the corrected parse and the source's parse give the same result. |

## Left out

- I/O and tokenizing: `Parse`, `ParseFile`, the `Must…` wrappers and the blackfriday tokenizer are not modelled. The walk receives the block sequence and the plain text of each heading, as `renderer.go`'s plain-text renderer would produce it.
- Headings that contain line breaks: the option-clause regular expression works line by line and this is not modelled. Headings are taken as one line.
- Coercion: `fuzzyassign` and custom `As` converters are parameters (`Coercer`, `Converter`). Their error messages are not modelled, only where each error goes:
  - a coercion error in `assignValue` or in an option ends the parse (`CoerceFailed`);
  - in struct-mode rows, a converter error is wrapped with the cell, the column's original key and the section (`ConvertFailed`, docjigtable.go:103-107);
  - in struct-mode rows, a default coercion error is dropped and the row field keeps its value (`Tables.Keep`, docjigtable.go:108-110).
- Label translation: `findTranslation` is not part of this model. The template functions take the translation as a parameter `tr`.
- `Layout.generateTemplate`, `DocJig.GenerateTemplate` and the table formatter: the recursive writer and the column alignment are not modelled. What they print is modelled as `TemplateLabel`, `CodeFences.Fence.Template` and `TemplateGrid`.
- `Layout.ID` and `Layout.SampleContent`: these only feed template text and are not modelled.
- Post-processing hooks are not modelled.
- Embedded structs: fields promoted from an embedded struct are not modelled. The record's structs list their fields directly.
- Pointer identity: Go writes through pointers and slice elements that may share storage. The record model is a tree addressed by paths, so aliasing between list elements after a slice grows is not modelled.
- Go map iteration order: struct mode walks `key2column`'s keys in an unspecified order. The model walks the header row in column order. `Tables.ResolutionIgnoresColumnOrder` shows the two agree whenever no two header texts compete for a column.
- Case folding covers ASCII letters only. Go's `strings.ToLower` also folds other scripts.
- Heading levels outside 1 to 6 are reported as a panic. The tokenizer never produces them.
- `Layouts.OptSample`: Go's `Option.Sample` takes a value of any type, which the template prints with `%v` unless it is `true` (docjiglayout.go:209-211, 283-288). The model takes the sample as already formatted text, or as the flag, since Go's value formatting is not modelled.
- `StructField` samples: `docjigtable.go` reads `samples` from each field, but `docjigfield.go` declares no such field or setter. The model keeps a `samples` list that nothing sets except the constructor.
- `Binder.AssignValue`: a field whose current value is non-zero is `AlreadyFilled`, whatever kind it is. Go's `IsZero` semantics for every kind are abstracted into `Record.IsZero`.

Where the code's behaviour looks unintended, the model follows the code and adds a corrected definition next to it. The two such places are listed under Findings:

- after a heading that matches no declared child, the code goes on binding the blocks that follow; the corrected walk (`Binder.ParseSkipping`) ignores them until a heading of the same or lower depth;
- struct mode looks up aliases with the header as written.

Three behaviours that may surprise a reader are modelled as the code has them:

- a map-mode table replaces the destination list, while struct mode appends to it (docjigtable.go:156-162);
- a fenced block's body loses every leading and trailing newline, not just one (docjig.go:200).
- a fence slot's template writes its sample info directly after the language tag, so a sample info that does not start with `:` yields an info line the slot itself rejects (docjigcodefence.go:50-60, docjig.go:266-278; `Binder.SampleInfoWithoutColonIsRejected`).

## Findings

| source | as written | input that shows it | evidently intended | confidence | as-written member | corrected member |
|---|---|---|---|---|---|---|
| docjig.go:165-198 | An unmatched heading at depth L only sets the current depth. Later fences and tables use `stack[L]`, which is either the previous sibling's binding or nil. | A root with no children and the document `## Notes`, then a fenced block: `stack[2]` is nil and `findMatchedCodeFence` dereferences it. | Blocks under an unmatched heading are ignored until a heading of the same or lower depth (`Binder.UnmatchedSectionSkipped`, `Binder.SkippedSectionIsInert`). When `stack[L]` is still bound from an earlier sibling, the code instead binds the fence through it (`Binder.UnmatchedThenStaleFence`). | high; not executed | `Binder.UnmatchedSectionIsNotSkipped` | `Binder.StepSkipping` |
| docjigtable.go:58-80 | Struct mode passes the header text as written to `translateToPrimaryKey`, which compares it against lower-cased spellings. | Column `Description` with alias `Desc`, and a table header `Desc`: the column is not bound. | The header is lower-cased first, as map mode does, so alias spellings match in any case (`Tables.RegisteredSpellingResolves`). | medium; not executed | `Tables.CapitalisedAliasHeaderIsIgnored` | `Tables.ResolveHeaderFolded` |
