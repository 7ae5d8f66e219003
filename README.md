# ICU MessageFormat to String Catalog converter, in Dafny

This project models the conversion core of a tool that turns ICU MessageFormat
messages (one template per locale, per key) into an Xcode String Catalog
(`.xcstrings`) document, and proves properties of that model.

- `results.dfy` (`Results`): `Option` and `Result`.
- `ordered_maps.dfy` (`OrderedMaps`): the `LinkedHashMap`s the tool uses
  everywhere, as sequences of key/value pairs. `Insert` replaces the entry
  for a key and moves it to the back. `Get` reads the last entry for a key.
- `ast.dfy` (`Ast`): the element tree the ICU parser produces. The parser
  is not modelled.
- `formatter.dfy` (`Formatter`): `XCStringFormatter`, a class whose
  `argumentPositions` and `nextPosition` fields change as elements are
  formatted. Its methods are proved against the pure functions `Position`,
  `Render` and `RenderAll` on a `Table`. Lemmas state what the numbering
  amounts to: positions 1, 2, 3, ... in first-occurrence order, stable once
  given, failing only at `usize::MAX`.
- `substitution_builder.dfy` (`SubstitutionBuilder`): the substitution
  builder and `KeyFormat`. One `Plural`-mode formatter is shared by the
  whole build.
- `catalog_types.dfy` (`CatalogTypes`) and `icu_message.dfy` (`IcuMessage`):
  the output and input records, with the labels and field names the JSON
  encoding uses.
- `converter.dfy` (`Converter`): `XCStringConverter`.
  - It checks that every locale of a message uses the same variables.
  - It detects a top-level select. It then splits the message into
    `<key>_<case>` messages, or fails when splitting is off.
  - It formats every locale with a fresh formatter.
  - It gathers the entries into one document, stopping at the first error.

The parser and the iteration order of a `HashSet` are parameters of the
converter: `parse` and `iterationOrder`. Lemmas that need the order to visit
exactly a set's members require `EnumeratesSets`.

Each imperative operation is a method. Its `ensures` ties its result and
new state to a specification function, and the properties are lemmas about
that function.

Where the live code and its description differ, the model follows the code:
- The formatted value is not trimmed.
- The document version is always `"1.0"`.
- In `Plural` mode an argument still takes a position.
- A split locale's new value is already-formatted text, which is parsed
  again when the split message is converted.
- The live converter calls a substitution builder whose `build` returns a
  `Result`. The builder modelled here formats with
  `src/converter/formatter.rs` in `Plural` mode. The first formatting error
  stops the build, and each panic of `KeyFormat::from_string` becomes a
  `LabelFailure` error.

## Model

| member | source | states |
|---|---|---|
| `Formatter.XCStringFormatter.constructor` | src/converter/formatter.rs:17-23 | the mode is kept; the position table is empty and the counter is 1 |
| `Formatter.Position` | src/converter/formatter.rs:50-60 | the name has a slot afterwards and the result is its slot; earlier slots never change; only the name is added; the counter stays within `usize`; a known name returns its slot and changes nothing; a new name is recorded at the counter, and the call fails exactly when the counter is `usize::MAX` (then the counter stays), otherwise the counter advances by one |
| `Formatter.XCStringFormatter.GetOrInsertPosition` | src/converter/formatter.rs:50-60 | the result and the new table and counter are `Position` of the old ones |
| `Formatter.PositionDense` | src/converter/formatter.rs:50-60 | on a dense table, a known name gets its rank and a new name is appended at the counter; the call fails exactly when the table would then hold `usize::MAX` names |
| `Formatter.DecimalString` | src/converter/formatter.rs:31 | a position's numeral is non-empty, all decimal digits, without a leading zero |
| `Formatter.DigitValue` | src/converter/formatter.rs:31 | each digit character reads back as its value |
| `Formatter.DecimalRoundTrip` | src/converter/formatter.rs:31 | the numeral of a position reads back as that position |
| `Formatter.Render` | src/converter/formatter.rs:25-48 | formatting one element adds at most its own variable to the table and changes no slot; an element with no numbered variable never fails and leaves the table alone |
| `Formatter.XCStringFormatter.Format` | src/converter/formatter.rs:25-48 | the result and the new table are `Render` of the old table |
| `Formatter.RenderAll` | src/converter/formatter.rs:63-84 | a batch keeps every slot; after success, the table holds exactly the earlier names plus those the elements number |
| `Formatter.Prefixed` | src/converter/formatter.rs:79-81 | an empty prefix changes nothing |
| `Formatter.PrefixedTwice` | src/converter/formatter.rs:79-81 | pushing two pieces is pushing their concatenation |
| `Formatter.RenderAllStep` | src/converter/formatter.rs:79-81 | formatting from element `i` is element `i`, then the rest from the table it leaves |
| `Formatter.XCStringFormatter.FormatBatch` | src/converter/formatter.rs:63-84 | the result and new table are `RenderAll`: the pieces concatenated in order, stopping at the first error |
| `Formatter.XCStringFormatter.FormatBatchOptimized` | src/converter/formatter.rs:95-147 | the same result and table as `FormatBatch`, and `""` on an empty input |
| `Formatter.FirstOccurrences` | src/converter/formatter.rs:53-55 | the names given, then each new name once, in first-occurrence order, with no repeats |
| `Formatter.RenderAllDense` | src/converter/formatter.rs:63-84 | from a dense table, the names met are appended in first-occurrence order; the batch fails exactly when that reaches `usize::MAX` names |
| `Formatter.RenderAllDenseNamed` | src/converter/formatter.rs:63-84 | the same when the first element numbers a variable |
| `Formatter.PositionsFollowFirstOccurrence` | src/converter/formatter.rs:50-84 | from a fresh formatter, the n distinct names get positions 1..n in first-occurrence order, a repeat keeps its first position, and it fails only at `usize::MAX` names |
| `Formatter.RenderAllInstantiates` | src/converter/formatter.rs:25-48 | a successful batch is the template with each literal verbatim, each plural or select as `%#@name@`, a pound as `#`, other kinds as nothing, and each argument, number and date as the placeholder for its position in the final table |
| `Formatter.RenderedInstantiates` | src/converter/formatter.rs:25-48 | one formatted element is that text (literal, `%#@name@`, `#`, nothing, or its placeholder), read against any table that keeps its slot |
| `Formatter.InstantiateAllStable` | src/converter/formatter.rs:51-52 | adding slots for other names does not change a text whose names already have slots |
| `Formatter.InstantiateAllAt` | src/converter/formatter.rs:79-81 | the text of a template is its elements' texts in order, element `i` between those before and after it |
| `Formatter.RenderAllSingle` | src/converter/formatter.rs:79-81 | a batch of one element is `format` |
| `Formatter.RenderAllAppend` | src/converter/formatter.rs:79-81 | formatting `a + b` is formatting `a`, then `b` from the table `a` left |
| `Formatter.LiteralsRenderVerbatim` | src/converter/formatter.rs:27 | a template of literals renders to their concatenation and leaves the table alone |
| `Formatter.ModesDifferOnlyOnArguments` | src/converter/formatter.rs:28-42 | the two modes leave the same table and fail on the same inputs; they give the same text when there is no argument |
| `SubstitutionBuilder.KeyFormatFromString` | src/xcstring_substitution_builder.rs:108-125 | `zero`/`=0` give Zero, `one`/`=1` give One, and `other` gives Other (each an iff); `two`/`few`/`many` exactly are refused as unsupported categories and any other `=` key exactly as an unsupported exact value; every refusal names the key |
| `SubstitutionBuilder.KeyFormatToString` | src/xcstring_substitution_builder.rs:127-133 | a category's name is `zero`, `one` or `other` |
| `SubstitutionBuilder.KeyFormatRoundTrip` | src/xcstring_substitution_builder.rs:108-133 | each category reads back as itself from its name |
| `SubstitutionBuilder.PluralLabels` | src/xcstring_substitution_builder.rs:44 | exactly `zero`, `=0`, `one`, `=1` and `other` are accepted as plural keys, stored as `zero`, `one` and `other`; normalising twice changes nothing |
| `SubstitutionBuilder.VariationsFrom` | src/xcstring_substitution_builder.rs:34-55 | the case fold keeps every slot of the shared formatter and keeps it well formed |
| `SubstitutionBuilder.BuildFrom` | src/xcstring_substitution_builder.rs:17-97 | the element fold keeps every slot of the shared formatter and keeps it well formed |
| `SubstitutionBuilder.BuildFromStep` | src/xcstring_substitution_builder.rs:21-93 | a plural or select builds its cases, then its entry is inserted under its name |
| `SubstitutionBuilder.BuildFromSkip` | src/xcstring_substitution_builder.rs:94 | every other element is skipped |
| `SubstitutionBuilder.BuildVariations` | src/xcstring_substitution_builder.rs:34-55 | the cases and the shared formatter's new state are those of `VariationsFrom` |
| `SubstitutionBuilder.Build` | src/xcstring_substitution_builder.rs:15-98 | the result is that of `BuildFrom` from a fresh `Plural` formatter |
| `SubstitutionBuilder.GetHeadersFromStep` | src/xcstring_substitution_builder.rs:29-33 | a later entry for a name wins over an earlier one |
| `SubstitutionBuilder.GetHeadersFrom` | src/xcstring_substitution_builder.rs:29-33 | a name has an entry iff some plural or select is on it, and the entry is that of the last one |
| `SubstitutionBuilder.BuildFromHeaders` | src/xcstring_substitution_builder.rs:19-33 | the fold's entries, cases aside, are the elements' headers inserted in element order |
| `SubstitutionBuilder.BuildHeaders` | src/xcstring_substitution_builder.rs:19-33 | a successful build's entries, cases aside, are the headers inserted in element order |
| `SubstitutionBuilder.BuildEntry` | src/xcstring_substitution_builder.rs:29-68 | a build has an entry for a name iff a plural or select is on it; the entry is that of the last such element, with `arg_num` its index + 1 and `lld` for a plural or `@` for a select |
| `SubstitutionBuilder.VariationsFromCases` | src/xcstring_substitution_builder.rs:37-50 | every case the fold adds is an option, under its checked key, with state `Translated` and the option's body rendered against the final table |
| `SubstitutionBuilder.BuildFromCases` | src/xcstring_substitution_builder.rs:37-85 | every case of every entry comes from an option of an element on the entry's name |
| `SubstitutionBuilder.VariationsFromEntries` | src/xcstring_substitution_builder.rs:34-55 | a successful case fold accepts every key and inserts EVERY option, in declared order, as its independent `CaseEntry` (normalised key, `Translated`, body rendered against the final table) |
| `SubstitutionBuilder.CaseEntriesHaveKey` | src/xcstring_substitution_builder.rs:43-52 | a key is among the options' cases iff some option's key normalises to it |
| `SubstitutionBuilder.CaseEntriesLastWins` | src/xcstring_substitution_builder.rs:43-52 | among the options' cases a key holds the case of the last option carrying it |
| `SubstitutionBuilder.CaseTable` | src/xcstring_substitution_builder.rs:34-55 | the case table is keyed by exactly the options' normalised keys, each holding the last such option's case |
| `SubstitutionBuilder.CaseEntriesDistinct` | src/xcstring_substitution_builder.rs:43-52 | options whose keys do not repeat give cases with distinct keys |
| `SubstitutionBuilder.CaseTableInOrder` | src/xcstring_substitution_builder.rs:34-55 | with no repeated key, the case table is the options' cases in declared order |
| `SubstitutionBuilder.BuildFromKeeps` | src/xcstring_substitution_builder.rs:17-20 | elements not on `name` leave its entry as it was |
| `SubstitutionBuilder.BuildFromLastCases` | src/xcstring_substitution_builder.rs:17-85 | after the fold, the entry on `name` is the last element on `name`'s, its cases every option of that element inserted in order |
| `SubstitutionBuilder.BuildCases` | src/xcstring_substitution_builder.rs:17-85 | every stored case is an option of an element on its entry's name, with the normalised key, `Translated`, and the body in `Plural` mode against the shared final table; conversely the entry on a name is the LAST element's on it (its `arg_num` and specifier) with every one of its options inserted in declared order |
| `SubstitutionBuilder.BuildCaseLookup` | src/xcstring_substitution_builder.rs:17-85 | the entry on `name` has a case for a key iff some option of the last element on `name` carries that key, and it holds the last such option's rendered body |
| `SubstitutionBuilder.RejectedKeyFails` | src/xcstring_substitution_builder.rs:112-123 | a plural option with a refused key makes the case fold fail |
| `SubstitutionBuilder.LabelFailureFromPluralKey` | src/xcstring_substitution_builder.rs:79 | a case fold that fails on a key is a plural fold with a refused key; select keys are never checked |
| `SubstitutionBuilder.BuildFromRejects` | src/xcstring_substitution_builder.rs:112-123 | a refused plural key at or after `i` makes the fold fail |
| `SubstitutionBuilder.BuildFromLabelFailure` | src/xcstring_substitution_builder.rs:112-123 | a fold that fails on a key has a plural with a refused key |
| `SubstitutionBuilder.BuildRejectsUnsupportedPluralKeys` | src/xcstring_substitution_builder.rs:108-125 | a build fails iff it has a refused plural key, when the failure is on a key (both directions) |
| `SubstitutionBuilder.VariationsFromTable` | src/xcstring_substitution_builder.rs:16 | the case fold leaves the formatter as formatting all its bodies in order does |
| `SubstitutionBuilder.BuildFromTable` | src/xcstring_substitution_builder.rs:16 | the element fold leaves the formatter as formatting every case body in order does |
| `SubstitutionBuilder.BuildSharesOneFormatter` | src/xcstring_substitution_builder.rs:16 | one formatter serves the whole build: positions run 1, 2, ... in first-occurrence order across all cases of all elements |
| `SubstitutionBuilder.SharedFormatterExample` | src/xcstring_substitution_builder.rs:15-98 | a concrete build: a later case and a later element continue the numbering; `=1` is stored as `one`; `x` takes position 1 though written `%arg` |
| `Ast.PluralsAndSelects` | src/converter/xcstring_converter.rs:224-228 | the filter keeps exactly the plural and select elements |
| `Ast.PluralsAndSelectsSingle` | src/converter/xcstring_converter.rs:224-228 | one element is kept iff it is a plural or a select |
| `Ast.PluralsAndSelectsAppend` | src/converter/xcstring_converter.rs:224-228 | the filter keeps order and multiplicity: filtering `a + b` is filtering `a`, then `b` |
| `Ast.PluralsAndSelectsAt` | src/converter/xcstring_converter.rs:224-228 | a plural or select at template index `i` is at index "number of plurals and selects before `i`" in the filtered list, and every later entry comes from after `i` |
| `Converter.CollectVariablesFromAst` | src/converter/xcstring_converter.rs:169-192 | the set grows by exactly the template's variables |
| `Converter.VariablesAppend` | src/converter/xcstring_converter.rs:170 | the variables of a concatenation are the union |
| `Converter.VariablesOfElements` | src/converter/xcstring_converter.rs:170-191 | a name is a variable iff some element has it |
| `Converter.OptionVariablesOfBodies` | src/converter/xcstring_converter.rs:179-187 | a plural or select contributes exactly the variables of its case bodies |
| `Converter.NumberedNamesAreVariables` | src/converter/xcstring_converter.rs:172-175 | every name the formatter numbers is a collected variable |
| `Converter.ExtractVariablesCached` | src/converter/xcstring_converter.rs:156-167 | the template's variables, or the parse error |
| `Converter.FirstOutside` | src/converter/xcstring_converter.rs:131-138 | the first name, in iteration order, outside the set; none iff all are in it |
| `Converter.ValidateVariableConsistency` | src/converter/xcstring_converter.rs:113-153 | the result is `Validate`: reference from the first locale, then a count, name or missing error, in that order |
| `Converter.SubsetOfEqualSize` | src/converter/xcstring_converter.rs:124-138 | a subset as large as its superset equals it |
| `Converter.SameVariables` | src/converter/xcstring_converter.rs:124-147 | for sets of equal size, no name outside the reference iff the sets are equal; then no reference name is missing |
| `Converter.ValidateFromStep` | src/converter/xcstring_converter.rs:123-147 | a locale passes iff its variables are the reference's; a missing-variable error is never its own |
| `Converter.ValidateFromPass` | src/converter/xcstring_converter.rs:123-147 | a locale with the reference's variables passes on to the next |
| `Converter.ValidateFromFirst` | src/converter/xcstring_converter.rs:116-122 | the first locale only sets the reference, or ends the check with its parse error |
| `Converter.ValidateFromConsistent` | src/converter/xcstring_converter.rs:116-150 | the locales from `i` on pass iff each has the reference's variables; a missing variable is never reported |
| `Converter.ValidateAcceptsConsistent` | src/converter/xcstring_converter.rs:113-153 | a message passes iff every locale parses with the first locale's variables; the missing-variable branch is unreachable |
| `Converter.ValidateReportsFirstDeviation` | src/converter/xcstring_converter.rs:116-138 | the first deviating locale is reported: a count mismatch, or a name mismatch naming one of its variables outside the reference |
| `Converter.ValidateFromFirstDeviation` | src/converter/xcstring_converter.rs:116-138 | the same from locale `k` on |
| `Converter.FirstSelect` | src/converter/xcstring_converter.rs:288 | the index of the first top-level select; none iff there is no select |
| `Converter.HasSelectElements` | src/converter/xcstring_converter.rs:266-275 | true iff some locale parses to a template with a top-level select |
| `Converter.FindCase` | src/converter/xcstring_converter.rs:329 | the first case with the key; none iff no case has it |
| `Converter.ExpandSnoc` | src/converter/xcstring_converter.rs:326-349 | replacing selects element by element |
| `Converter.LenientAllSnoc` | src/converter/xcstring_converter.rs:326-349 | formatting leniently element by element |
| `Converter.FormatOneLeniently` | src/converter/xcstring_converter.rs:343-347 | one element through the shared formatter; a failure adds nothing |
| `Converter.FormatLeniently` | src/converter/xcstring_converter.rs:331-339 | a case body through the shared formatter, each failing element adding `""` |
| `Converter.ReplaceSelectWithCaseOptimized` | src/converter/xcstring_converter.rs:320-354 | the result is `ReplaceSelectWithCase` |
| `Converter.LenientAgreesWithFormatBatch` | src/converter/xcstring_converter.rs:326-349 | where nothing fails, lenient formatting is `format_batch` |
| `Converter.ExpandWithoutSelect` | src/converter/xcstring_converter.rs:343-347 | a template without a top-level select is unchanged |
| `Converter.CaseBodyIsAnOption` | src/converter/xcstring_converter.rs:328-341 | the body chosen is that of a case of the select, or empty |
| `Converter.ExpandAddsNoVariables` | src/converter/xcstring_converter.rs:328-341 | replacing selects by case bodies adds no variable |
| `Converter.ReplaceSelectWithCaseFormats` | src/converter/xcstring_converter.rs:320-354 | an unparsable text comes back unchanged; otherwise the expanded template, freshly formatted when that succeeds, with no new variable |
| `Converter.SplitSelectMessageOptimized` | src/converter/xcstring_converter.rs:278-317 | the result is `SplitSelectMessage` |
| `Converter.ReplaceMessagesOptimized` | src/converter/xcstring_converter.rs:294-300 | the loop over locales gives `ReplaceMessages`: each locale's text replaced for the case, in the original order |
| `Converter.ReplaceMessagesPerLocale` | src/converter/xcstring_converter.rs:292-300 | the locales in order, each with its text replaced and its state kept |
| `Converter.SplitPartsPerCase` | src/converter/xcstring_converter.rs:290-307 | one message per case, in declared order |
| `Converter.SplitPartLocales` | src/converter/xcstring_converter.rs:290-307 | the message for one case is keyed `<key>_<case>`, keeps the comment, and has the original locales in order, each with its state and its text replaced |
| `Converter.SplitSelectMessageParts` | src/converter/xcstring_converter.rs:278-317 | fails iff there is no locale, with `NoMessages`; otherwise one `<key>_<case>` message per case with the same comment, locales and states and replaced texts, or the message itself when there is no case |
| `Converter.StateFromLabel` | src/converter/xcstring_converter.rs:246-250 | `NeedsReview` iff the label is `"needs_review"` |
| `Converter.StateLabels` | src/converter/xcstring_converter.rs:246-250 | the default label and both catalog labels read back as `Translated` |
| `Converter.FormatLocaleOptimized` | src/converter/xcstring_converter.rs:216-259 | the loop body's entry is `FormatLocale` |
| `Converter.FormatOptimized` | src/converter/xcstring_converter.rs:210-263 | the result is `FormatLocales` |
| `Converter.FormatLocaleText` | src/converter/xcstring_converter.rs:217-251 | a locale succeeds iff its substitutions build and it has fewer than `usize::MAX` names; a failed build is reported for the locale; the text numbers its names 1..n in first-occurrence order; the state is read from the label |
| `Converter.BuildEmptyExactly` | src/converter/xcstring_converter.rs:253-257 | a build of plurals and selects is empty iff there are none; it has a key for each name they use |
| `Converter.FormatLocaleSubstitutions` | src/converter/xcstring_converter.rs:224-257 | substitutions are absent iff the template has no top-level plural or select; otherwise they are the build's |
| `Converter.SubstitutionReferenced` | src/converter/xcstring_converter.rs:224-257 | a top-level plural or select shows in the locale's value as `%#@name@` in its place, and the locale's substitutions have an entry for that name |
| `Converter.SubstitutionCases` | src/converter/xcstring_converter.rs:224-257 | a locale's substitution for a name is the last top-level plural or select on it, holding every one of its options' cases in declared order, rendered by the build's one formatter |
| `Converter.SubstitutionAt` | src/converter/xcstring_converter.rs:224-235 | the last top-level plural or select on a name, at template index `i`, gives the locale's substitution for that name: `arg_num` is one more than the number of top-level plurals and selects before `i`, with every option's case in declared order |
| `Converter.FormatLocalesFromPerLocale` | src/converter/xcstring_converter.rs:214-262 | every locale gets its entry, in order; otherwise the first failing locale's error is returned |
| `Converter.FormatLocalesFromDistinct` | src/converter/xcstring_converter.rs:242-259 | the locales gathered stay distinct |
| `Converter.ConvertMessageOptimized` | src/converter/xcstring_converter.rs:195-207 | the result is `ConvertMessage` |
| `Converter.ConvertMessageLocales` | src/converter/xcstring_converter.rs:195-207 | a `Manual` entry with every locale's localization, in order, iff every locale formats; otherwise the first failing locale's error |
| `Converter.MessageEntriesPaths` | src/converter/xcstring_converter.rs:38-61 | a message's entries on each path: a validation error, a split, `SelectNotSupported`, or the message's own entry |
| `Converter.InsertResult` | src/converter/xcstring_converter.rs:48-59 | a message's entries are added to the catalog unless it failed; distinct keys are kept |
| `Converter.InsertParts` | src/converter/xcstring_converter.rs:48-51 | the split messages, converted and inserted in order; the first error is returned |
| `Converter.InsertMessage` | src/converter/xcstring_converter.rs:39-60 | one message, checked, converted and added to the catalog |
| `Converter.Convert` | src/converter/xcstring_converter.rs:31-64 | the result is `Converted` |
| `Converter.InsertEntriesFromAll` | src/converter/xcstring_converter.rs:38-61 | the loop succeeds iff every message does, and inserts all entries in order; otherwise it gives the first failing message's error |
| `Converter.ConvertedDocument` | src/converter/xcstring_converter.rs:31-64 | succeeds iff every message does; keeps the source language and version `"1.0"`; keys are distinct and each holds its last entry; an empty input gives an empty document; fail-fast on the first error |
| `Converter.SameKeyLaterWins` | src/converter/xcstring_converter.rs:56-60 | of two messages with the same key, the later one's entry is the only one kept |
| `Converter.PartEntriesFromAll` | src/converter/xcstring_converter.rs:48-51 | the split messages' entries, in order, iff each converts |
| `Converter.SplitEntriesPerCase` | src/converter/xcstring_converter.rs:47-51 | entry `c` is keyed `<key>_<case>` and is the conversion of case `c`'s message |
| `Converter.MessageEntriesSplit` | src/converter/xcstring_converter.rs:44-51 | a checked message with a select gives one entry per case in order, keyed `<key>_<case>`, or its own entry when the first locale has no case |
| `CatalogTypes.ExtractionStateLabel` | src/xcstrings/types.rs:19-23 | the only extraction state is labelled `manual` |
| `CatalogTypes.LocalizationStateLabel` | src/xcstrings/types.rs:40-45 | `translated` iff Translated, `needsReview` iff NeedsReview |
| `CatalogTypes.VariationTag` | src/xcstrings/types.rs:55-60 | `plural` iff Plural, `select` iff Select |
| `CatalogTypes.StringUnitFields` | src/xcstrings/types.rs:33-38 | a string unit is written as `state` and `value`, in that order |
| `CatalogTypes.LocalizationFieldNames` | src/xcstrings/types.rs:25-31 | `substitutions` is written iff present |
| `IcuMessage.ReadMessageValue` | src/models/icu_message.rs:11-20 | a missing state label becomes `"translated"`; the text is kept |
| `IcuMessage.FromIcuString` | src/models/icu_message.rs:22-30 | the key, the locales (order included) and the comment are moved over unchanged |
| `OrderedMaps.Insert` | src/converter/xcstring_converter.rs:50 | after `insert` the key holds the value, other keys are unchanged, keys stay distinct, and a new key is appended |
| `OrderedMaps.Get` | src/converter/xcstring_converter.rs:50 | a key has a value iff it is present, and the value is one of its entries |
| `OrderedMaps.Remove` | src/converter/xcstring_converter.rs:50 | the entries other than the key's, distinct keys kept |
| `OrderedMaps.GetLastEntry` | src/converter/xcstring_converter.rs:50 | a lookup finds the last entry for its key |
| `OrderedMaps.GetInsertAll` | src/converter/xcstring_converter.rs:48-51 | after successive inserts, a key holds its last value |
| `OrderedMaps.InsertAllDistinct` | src/converter/xcstring_converter.rs:202-204 | inserting distinct new keys appends them in order |

## Left out

- `convert_parallel` (src/converter/xcstring_converter.rs:67-110) is not modelled: its point is data parallelism.
- The ICU parser is not modelled. `parse` is a parameter of the converter. The parser options are part of it, and spans, plural offsets and plural types are dropped from the tree.
- The iteration order of a `HashSet` is a parameter (`iterationOrder`). The variable-name mismatch names the first variable outside the reference in that order.
- Error texts are not modelled: each error is a variant that carries its key, locale and variable.
- Capacity estimates, `with_capacity` calls and `format_with_capacity` are performance only and are not modelled.
- The serde JSON encoding is not modelled: only its labels and field names are, as functions.
- The delegating wrappers `validate_variable_consistency`, `extract_variables`, `convert_message`, `format`, `has_select_elements`, `split_select_message` and `replace_select_with_case` (src/converter/xcstring_converter.rs:356-396) are not modelled separately: each calls the optimised version.
- `ConverterOptions.extractionState` and `ConverterOptions.localizationState` are fields only: the converter never reads them.
- The other converter, formatter and model files of the repository and `main.rs` are not part of this model.
- `arg_num` is an unbounded `nat`: index + 1 cannot overflow `usize` for an element list held in memory.
- `Converter.ValidateAcceptsConsistent`, `Converter.ValidateReportsFirstDeviation`, `Converter.SameVariables`, `Converter.ValidateFromConsistent`, `Converter.ValidateFromFirstDeviation`, `Converter.ValidateFromStep` and `Converter.ValidateFromPass` hold only for an iteration order that visits exactly the set's members (`EnumeratesSets`).
- `Converter.ConvertMessageLocales`, `Converter.SplitSelectMessageParts` and `Converter.MessageEntriesSplit` require the locale keys to be distinct, as they are in a `LinkedHashMap`.
