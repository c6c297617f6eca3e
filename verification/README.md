# hashmoji, modelled in Dafny

hashmoji maps any hashable value to emoji. The mapping has two halves.

- **The build-time catalog builder** reads the Unicode `emoji-test.txt` data file. It keeps the fully-qualified emoji, with:
  - their group and subgroup,
  - their version, encoded as `major*100+minor`,
  - three modifier flags: skin tone, gender and hair style.

  It then selects the emoji that the crate's Cargo features ask for.
- **The run-time selector** picks emoji from the compiled table by a 64-bit XxHash of the value.

This project models both builders and the selector, and proves properties of them:

- `hashmoji_generator/src/lib.rs` is the current builder.
- `generator/src/lib.rs` is the older builder, which has `skip-` features.
- `src/lib.rs` is the selector.

## Layout

- `base.dfy`
  - `Results`: `Option` and `Result`.
  - `Seqs`: `Keep`, Rust's `Iterator::filter` on sequences, and the subsequence relation it produces.
- `text.dfy` (`Text`): the `str` operations the builders use: `trim`, `split`, `split(..).nth(..)`, `contains`, `replace`, ASCII case mapping.
- `decimal.dfy` (`Decimal`): `str::parse::<u16>`, and decimal formatting with zero padding.
- `features.dfy` (`Features`):
  - `to_feature_name`;
  - `has_env_feature`'s `CARGO_FEATURE_<NAME>` key;
  - `to_feature_version`;
  - how `filter` reads a version key back.
- `emojitest.dfy` (`EmojiTest`): how both builders recognise headers and data lines, and split a data line into glyph and version token.
- `catalog.dfy` (`Catalog`): the current `Collection::all`.
- `policy.dfy` (`Policy`): the current `filter` and `filterable`.
- `legacy.dfy` (`LegacyCatalog`): the older `Collection::all` and `filter`.
- `selector.dfy` (`Selector`): `hasher`, `one`, `fixed`, `variable` and `iter`.

## Modelling choices

- **The feature environment** is the set of environment variable names that are present. `has_env_feature(s)` holds when `EnvKey(s)` is in the set, where `EnvKey(s)` is:
  - `CARGO_FEATURE_`,
  - followed by `s` upper-cased,
  - with `-` turned into `_`.

  `filter`'s scan of `env::vars()` becomes a set comprehension over these names.
- **Each builder loop is a classify-then-fold.**
  - `Classify` reads one trimmed line into a `Line`: a skip, a group header, a subgroup header, or a data line.
  - `Step` is one loop iteration over a `Builder` accumulator.
  - `Scan` folds the lines.
  - A reference reading (`GroupAt`, `Emitted`, `RecordsOf`, ...) says what every output field is, as a function of the lines. `ScanMatchesReference` proves that the fold agrees with it.
- **Every `panic!` and `unwrap()` failure becomes an error value:**
  - the builders return `ParseError(line, problem)` for the first line that fails;
  - `filter` returns a `ConfigError`;
  - the selector returns a `SelectError`.
- **Versions.** The code encodes `E15.1` as 1501, following the comment at `hashmoji_generator/src/lib.rs:101`. The field comment at `hashmoji_generator/src/lib.rs:11` says `15.1 = 1510`, but the model follows the code.
- **The selector's hash.** XxHash64 with seed 0 is a parameter `digest` of every byte written into the hasher so far. A value is the byte string its `Hash` implementation writes. `fixed` writes the value into one hasher again before each pick, so pick `i` is the digest of the value written `i + 1` times.
- **The older builder's non-additive mode.** The comment at `generator/src/lib.rs:128-130` says the plain group and subgroup features "still work" outside additive mode, to skip a group but still include one of its subgroups. The code keeps `!skip` alone there (line 144), so those features change nothing. `LegacyCatalog.NonAdditiveIgnoresPlainFeatures` proves this behaviour. The model follows the code and does not guess which combination the comment meant.
- **The compiled table** (`EMOJIS`) is a parameter of the selector. `Selector.CompiledPickPasses` ties it to the current builder's `filter` output.

## Model

| member | source | states |
|---|---|---|
| Seqs.KeepIsSubsequence | hashmoji_generator/src/lib.rs:225-247 | a chain of `Iterator::filter` calls keeps the input's order: what it keeps is a subsequence of the input |
| Text.TrimStart | hashmoji_generator/src/lib.rs:36 | the result is a suffix of the input; everything dropped is whitespace; the result does not start with whitespace |
| Text.TrimEnd | hashmoji_generator/src/lib.rs:36 | the result is a prefix of the input; everything dropped is whitespace; the result does not end with whitespace |
| Text.Trim | hashmoji_generator/src/lib.rs:36 | the result is a contiguous piece of the input, everything around it is whitespace, and it neither starts nor ends with whitespace |
| Text.TrimUnchanged | hashmoji_generator/src/lib.rs:36 | a line that neither starts nor ends with whitespace is its own trim |
| Text.TrimIdempotent | hashmoji_generator/src/lib.rs:36 | trimming a trimmed line changes nothing |
| Text.IndexOf | hashmoji_generator/src/lib.rs:42 | the position found is an occurrence of the pattern, and no earlier position is one; `None` only when the pattern occurs nowhere |
| Text.Split | hashmoji_generator/src/lib.rs:102 | there is always at least one piece; Text.SplitJoin is its inverse |
| Text.SplitJoin | hashmoji_generator/src/lib.rs:102 | joining the pieces of a split with the separator gives back the original string |
| Text.SplitSingle | hashmoji_generator/src/lib.rs:102 | a split has a single piece exactly when the separator does not occur |
| Text.SplitPiecesFree | hashmoji_generator/src/lib.rs:102 | no piece of a split contains the separator |
| Text.SplitAt | hashmoji_generator/src/lib.rs:102 | the first separator after a stretch free of its first character ends the first piece |
| Text.ContainsChar | hashmoji_generator/src/lib.rs:81-96 | a one-character pattern is contained exactly when the character occurs in the string |
| Text.ReplaceAll | hashmoji_generator/src/lib.rs:216 | every character of the result comes from the input or the replacement; a one-character pattern absent from the replacement is gone afterwards |
| Text.ReplaceAbsent | hashmoji_generator/src/lib.rs:216 | replacing a pattern that never occurs changes nothing |
| Text.ReplaceChar | hashmoji_generator/src/lib.rs:194-195 | every character of the result comes from the input or the replacement, and the replaced character is gone unless the replacement has it |
| Text.ReplaceCharConcat | hashmoji_generator/src/lib.rs:194-195 | character replacement distributes over concatenation |
| Text.ReplaceCharAbsent | hashmoji_generator/src/lib.rs:194-195 | replacing a character that does not occur changes nothing |
| Text.ReplaceCharKeeps | hashmoji_generator/src/lib.rs:186 | any other character survives the replacement |
| Text.ReplaceCharLength | hashmoji_generator/src/lib.rs:186 | replacing by a single character keeps the length |
| Text.ReplaceAllOneChar | generator/src/lib.rs:118-119 | the older builder's one-character string patterns behave like the current builder's `char` patterns |
| Text.AsciiLower | hashmoji_generator/src/lib.rs:193 | the length is kept, exactly the ASCII capitals change, and each becomes the lower-case letter at the same place in the alphabet |
| Text.AsciiUpper | hashmoji_generator/src/lib.rs:185 | the length is kept, exactly the ASCII lower-case letters change, and each becomes the capital at the same place in the alphabet |
| Text.CaseRoundTrip | hashmoji_generator/src/lib.rs:185-193 | the two case mappings undo each other on letters and agree up to case on every character |
| Text.CaseMappingsForget | hashmoji_generator/src/lib.rs:185-193 | upper-casing a lower-cased string gives the upper-cased string, and the other way round |
| Decimal.ParseU16 | hashmoji_generator/src/lib.rs:103-104 | a string parses exactly when it is an optional `+` and then one or more digits spelling at most 65535, and the result is the value of those digits; any non-digit elsewhere fails |
| Decimal.ToDecimal | hashmoji_generator/src/lib.rs:200 | the decimal text is digits only, spells the number, and has no leading zero |
| Decimal.PadZeros | hashmoji_generator/src/lib.rs:200 | `{:04}` pads with zeros on the left up to the width and keeps the digits as the suffix |
| Decimal.ValueIgnoresLeadingZeros | hashmoji_generator/src/lib.rs:200 | leading zeros do not change the number a digit string spells |
| Decimal.PaddedDecimalRoundTrip | hashmoji_generator/src/lib.rs:199-201 | parsing the zero-padded decimal text of a `u16` gives the number back |
| Decimal.DecimalRoundTrip | hashmoji_generator/src/lib.rs:103-104 | parsing the decimal text of a `u16` gives the number back |
| Features.ToFeatureName | hashmoji_generator/src/lib.rs:192-197 | a normalised name has no space, no `&` and no ASCII capital |
| Features.FeatureNameFixed | hashmoji_generator/src/lib.rs:192-197 | a string that already is a feature name normalises to itself |
| Features.FeatureNameIdempotent | hashmoji_generator/src/lib.rs:192-197 | normalising twice gives the same name as normalising once |
| Features.AmpersandPhraseName | hashmoji_generator/src/lib.rs:192-197 | `A & B` normalises to `a-and-b` |
| Features.SmileysAndEmotionName | generator/src/lib.rs:116-121 | the label `Smileys & Emotion` becomes the feature `smileys-and-emotion` |
| Features.EnvKey | hashmoji_generator/src/lib.rs:184-189 | every feature key starts with `CARGO_FEATURE_` and has no `-` |
| Features.HasEnvFeatureIgnoresCase | hashmoji_generator/src/lib.rs:184-189 | `has_env_feature` ignores ASCII case: a name and its lower- or upper-cased form are the same feature |
| Features.EnvKeyLength | hashmoji_generator/src/lib.rs:184-189 | a key is as long as the prefix and the feature name together |
| Features.EnvKeyKeepsSpace | generator/src/lib.rs:108-113 | a space in the looked-up name survives into its key |
| Features.FeatureKeyHasNoSpace | hashmoji_generator/src/lib.rs:184-189 | the key of a normalised feature name has no space |
| Features.ToFeatureVersion | hashmoji_generator/src/lib.rs:199-201 | a version feature is `v` followed by at least four digits |
| Features.VersionFeatureKey | hashmoji_generator/src/lib.rs:184-189 | the key of `v<digits>` is `CARGO_FEATURE_V<digits>` |
| Features.StripVersionPrefix | hashmoji_generator/src/lib.rs:216 | removing `CARGO_FEATURE_V` from such a key leaves the digits |
| Features.VersionFeatureRoundTrip | hashmoji_generator/src/lib.rs:199-219 | the key of a version feature is read back by `filter` as the version it was written for |
| Features.VersionKeyValue | hashmoji_generator/src/lib.rs:216-217 | a value read from a version key is a `u16`; Features.VersionFeatureRoundTrip reads back every version feature |
| Features.FeatureVersion1501 | hashmoji_generator/src/lib.rs:199-201 | version 1501 becomes the feature `v1501` |
| Features.FeatureVersion100 | hashmoji_generator/src/lib.rs:199-201 | version 100 becomes `v0100`, padded to four digits |
| EmojiTest.HeadersAreComments | hashmoji_generator/src/lib.rs:41-63 | group and subgroup headers are comment lines, and no line is both |
| EmojiTest.HeaderLabelOf | hashmoji_generator/src/lib.rs:42 | `split(": ").nth(1)` of `<tag>: <label>` is the label when neither part has a colon |
| EmojiTest.SplitDataLine | hashmoji_generator/src/lib.rs:78-98 | glyph and version token have no space; a line without `# ` fails, and every failure is a missing field |
| EmojiTest.AnnotationOf | hashmoji_generator/src/lib.rs:78 | the text after `# ` is the annotation when the code-point part has no `#` |
| EmojiTest.TokensOf | hashmoji_generator/src/lib.rs:79-98 | the first two space-separated tokens of the annotation are the glyph and the version token |
| EmojiTest.DataLineFields | hashmoji_generator/src/lib.rs:77-98 | a data line laid out as the format describes yields its glyph and version token |
| EmojiTest.StripE | hashmoji_generator/src/lib.rs:99 | the stripped token has no `E` |
| EmojiTest.StripLeadingE | generator/src/lib.rs:59 | a token `E<rest>` without another `E` loses exactly its leading `E` |
| EmojiTest.DataLineShape | hashmoji_generator/src/lib.rs:36-80 | such a line survives trimming, is not a header, is a candidate, and splits into its glyph and version token |
| Catalog.SkinToneIsModifierRange | hashmoji_generator/src/lib.rs:86-91 | the skin-tone flag is set exactly when the glyph has a code point in U+1F3FB..U+1F3FF |
| Catalog.HairStyleIsComponentRange | hashmoji_generator/src/lib.rs:92-96 | the hair-style flag is set exactly when the glyph has a code point in U+1F9B0..U+1F9B3 |
| Catalog.DecodeVersion | hashmoji_generator/src/lib.rs:98-105 | a token whose first or second `.`-piece is not a number is `BadNumber`, one without a `.` fails, and a success is first piece*100 + second piece, any later pieces ignored, within a `u16` |
| Catalog.DecodeParts | hashmoji_generator/src/lib.rs:102-105 | succeeds exactly when there are two or more pieces, the first two parse and major*100+minor fits in a `u16`, and then yields major*100+minor; an unparsable first or second piece is `BadNumber` |
| Catalog.DecodeVersionOfParts | hashmoji_generator/src/lib.rs:102-105 | a token whose first two pieces parse as major and minor decodes to major*100+minor, however many pieces follow |
| Catalog.VersionRoundTrip | hashmoji_generator/src/lib.rs:98-105 | decoding `E<major>.<minor>` gives major*100+minor back |
| Catalog.VersionExamples | hashmoji_generator/src/lib.rs:101 | `E15.1` decodes to 1501 and `E1.0` to 100 |
| Catalog.VersionNeedsMinor | hashmoji_generator/src/lib.rs:102-104 | a token without `.` once its `E`s are gone is rejected |
| Catalog.VersionEncodingOrdered | hashmoji_generator/src/lib.rs:105 | for minor parts below 100, the encoding orders versions as (major, minor) pairs, which the ceiling comparison relies on |
| Catalog.Classify | hashmoji_generator/src/lib.rs:36-67 | a line is a group header, subgroup header or data candidate exactly as the trimmed text says; names and fields come from the trimmed line |
| Catalog.ClassifyIsProper | hashmoji_generator/src/lib.rs:41-105 | classified headers carry feature names and decoded data carries 16-bit versions |
| Catalog.AddRecordKeepsWellFormed | hashmoji_generator/src/lib.rs:106-116 | appending a record with normalised non-component labels keeps the collection well formed, versions included |
| Catalog.StepKeepsValid | hashmoji_generator/src/lib.rs:37-116 | one loop iteration keeps the builder valid |
| Catalog.Step | hashmoji_generator/src/lib.rs:37-116 | a skipped line changes nothing; a step only appends, at most one record and at most one name to each feature list, and only a data line adds a record |
| Catalog.Scan | hashmoji_generator/src/lib.rs:35-117 | a reported error names a line of the input |
| Catalog.ScanKeepsValid | hashmoji_generator/src/lib.rs:35-117 | the whole loop keeps the builder valid |
| Catalog.All | hashmoji_generator/src/lib.rs:26-125 | a returned collection is well formed: records have non-empty, normalised labels outside `component`, and the version set is exactly the records' versions |
| Catalog.StepAgrees | hashmoji_generator/src/lib.rs:37-116 | a step from a builder that agrees with the reference still agrees one line further |
| Catalog.ScanMatchesReference | hashmoji_generator/src/lib.rs:26-125 | on success, the group, subgroup, records and both feature lists are those of the reference reading |
| Catalog.StepFailsExactly | hashmoji_generator/src/lib.rs:41-105 | after a successful prefix, a line fails exactly when it breaks; a missing group or subgroup is reported as such |
| Catalog.ScanKeepsError | hashmoji_generator/src/lib.rs:35-117 | a failing prefix fails the whole file with the same error |
| Catalog.ScanErrorIsFirstFailure | hashmoji_generator/src/lib.rs:35-117 | the reported line is the first one that breaks |
| Catalog.MissingContextIsFatal | hashmoji_generator/src/lib.rs:69-75 | a data line outside `component` with no group or subgroup in force fails the file at that line |
| Catalog.ClassifyGroupHeader | hashmoji_generator/src/lib.rs:41-48 | `# group: <label>` is a group header naming the normalised label |
| Catalog.ClassifySubgroupHeader | hashmoji_generator/src/lib.rs:51-58 | `# subgroup: <label>` is a subgroup header naming the normalised label |
| Catalog.ClassifyDataLine | hashmoji_generator/src/lib.rs:65-105 | a fully-qualified data line decodes to its glyph, version and flags |
| Catalog.FirstRecordExample | hashmoji_generator/src/lib.rs:26-125 | the data file's first three lines give one grinning-face record with version 100, each label declared once |
| Policy.VersionKeys | hashmoji_generator/src/lib.rs:210-214 | the version keys are exactly the present keys that start with `CARGO_FEATURE_V`: all of them, and only them |
| Policy.VersionCeiling | hashmoji_generator/src/lib.rs:210-223 | an unparsable version key is fatal; otherwise more than one key conflicts, none means no ceiling, and exactly one gives its value |
| Policy.Filterable | hashmoji_generator/src/lib.rs:250-263 | a record passes a modifier rule when it lacks the modifier, or the feature's state matches the mode |
| Policy.Filter | hashmoji_generator/src/lib.rs:204-248 | `filter` fails exactly on a version error; otherwise it yields, in catalog order, the glyphs of the records that pass all five rules at once, and a glyph is in the output exactly when some catalog record with that glyph passes |
| Policy.ChainIsPasses | hashmoji_generator/src/lib.rs:228-246 | the five chained predicates hold together exactly when a record passes |
| Policy.SelectIsConjunction | hashmoji_generator/src/lib.rs:225-246 | the chain of five filters is one filter by their conjunction |
| Policy.Select | hashmoji_generator/src/lib.rs:225-246 | the chain never grows the catalog and keeps only catalog records that pass all five rules |
| Policy.SelectMembers | hashmoji_generator/src/lib.rs:225-246 | a record is selected exactly when it is in the catalog and passes all five rules |
| Policy.SelectIsSubsequence | hashmoji_generator/src/lib.rs:225-247 | the selection keeps catalog order |
| Policy.CeilingMonotone | hashmoji_generator/src/lib.rs:237-243 | a lower ceiling selects a subsequence of a higher one, and any ceiling a subsequence of none |
| Policy.SelectedWithinCeiling | hashmoji_generator/src/lib.rs:237-243 | every selected record is no newer than the ceiling |
| Policy.ModesDisagree | hashmoji_generator/src/lib.rs:228-236 | on a record without modifiers and without a ceiling, the two modes decide oppositely |
| Policy.ModesPartition | hashmoji_generator/src/lib.rs:228-236 | such records are selected in exactly one mode, and the two selections' sizes add up to the catalog's |
| Policy.EmptyEnvPolicy | hashmoji_generator/src/lib.rs:205-223 | with no feature: subtractive, no modifier feature, no ceiling |
| Policy.NothingEnabledPasses | hashmoji_generator/src/lib.rs:228-246 | under that policy every record passes |
| Policy.NothingEnabledSelectsAll | hashmoji_generator/src/lib.rs:225-246 | under that policy every record is selected, in order |
| Policy.EmptyEnvKeepsAll | hashmoji_generator/src/lib.rs:204-248 | with no feature at all, `filter` yields every glyph in catalog order |
| Policy.VersionFeatureSetsCeiling | hashmoji_generator/src/lib.rs:210-223 | enabling exactly one version feature sets the ceiling to its version |
| Policy.VersionFeatureKeysDiffer | hashmoji_generator/src/lib.rs:199-201 | different versions get different feature keys |
| Policy.TwoVersionKeysConflict | hashmoji_generator/src/lib.rs:221-223 | two parsable version keys are a conflict, whatever the catalog |
| Policy.TwoVersionFeaturesConflict | hashmoji_generator/src/lib.rs:221-223 | enabling the features of two different versions is a conflict |
| Policy.BadVersionKeyIsFatal | hashmoji_generator/src/lib.rs:216-217 | a version key whose rest is not a `u16` stops the build, whatever else is enabled |
| LegacyCatalog.Classify | generator/src/lib.rs:27-58 | line kinds as the trimmed text says; headers carry the raw label and data lines the split fields |
| LegacyCatalog.Scan | generator/src/lib.rs:26-67 | a reported error names a line of the input |
| LegacyCatalog.Step | generator/src/lib.rs:27-66 | a skipped line changes nothing; a step only appends, at most one record and at most one feature name, and only a data line adds a record |
| LegacyCatalog.All | generator/src/lib.rs:19-70 | a reported error names a line of the file |
| LegacyCatalog.StepAgrees | generator/src/lib.rs:27-66 | a step from an agreeing builder agrees one line further |
| LegacyCatalog.ScanMatchesReference | generator/src/lib.rs:19-70 | on success: records carry the raw labels in force and the `E`-less version; features are every header's normalised name in file order |
| LegacyCatalog.StepFailsExactly | generator/src/lib.rs:32-58 | a step fails exactly on a header without a label or a data line that does not split |
| LegacyCatalog.ScanFailsAtFirstBadLine | generator/src/lib.rs:26-67 | the loop succeeds exactly when no line is bad, and otherwise reports the first bad line |
| LegacyCatalog.NoHeaderNoLabels | generator/src/lib.rs:22-23 | without headers, every record has empty labels and there are no features |
| LegacyCatalog.SingleDataLine | generator/src/lib.rs:19-70 | a lone data line is not an error: one record with empty labels |
| LegacyCatalog.DataLineWithoutContext | generator/src/lib.rs:22-66 | the first data line read alone gives the grinning face with empty labels and version `1.0` |
| LegacyCatalog.SelectedMembers | generator/src/lib.rs:133-146 | a record is selected exactly when it is in the catalog and kept |
| LegacyCatalog.FilterAsWritten | generator/src/lib.rs:124-148 | the as-written `filter` never grows the catalog, and a glyph is in its output exactly when some catalog record with that glyph is kept under the raw-label lookup |
| LegacyCatalog.Filter | generator/src/lib.rs:124-148 | the corrected `filter` never grows the catalog, and a glyph is in its output exactly when some catalog record with that glyph is kept under the feature-name lookup |
| LegacyCatalog.SelectedIsSubsequence | generator/src/lib.rs:133-147 | the selection keeps catalog order |
| LegacyCatalog.SkipKey | generator/src/lib.rs:108-113 | the key of `skip-<name>` is `CARGO_FEATURE_SKIP_` followed by the rest of the name's key |
| LegacyCatalog.SkipKeyStarts | generator/src/lib.rs:138-139 | every skip key starts with `CARGO_FEATURE_SKIP_` |
| LegacyCatalog.PlainKeysIrrelevant | generator/src/lib.rs:141-145 | outside additive mode, keys other than `additive` and skip keys do not change whether a record is kept |
| LegacyCatalog.NonAdditiveIgnoresPlainFeatures | generator/src/lib.rs:125-146 | outside additive mode, enabling plain group or subgroup features changes nothing, although the comment at lines 128-130 says they still work there |
| LegacyCatalog.RawLabelWithSpaceNeverMatches | generator/src/lib.rs:137-139 | a raw label with a space is never found among keys without spaces, as a plain feature or as a skip feature |
| LegacyCatalog.SingleRecordFilter | generator/src/lib.rs:133-147 | a one-record catalog filters to its glyph when kept, and to nothing otherwise |
| LegacyCatalog.SpacedGroupNeverSkipped | generator/src/lib.rs:137-145 | outside additive mode, a record whose group label has a space is never skipped by its group |
| LegacyCatalog.SpacedRecordKept | generator/src/lib.rs:132-145 | with one space-free key enabled, a record whose group label has a space is kept, unless the key is `CARGO_FEATURE_ADDITIVE` (additive mode with nothing included) or its subgroup's skip key |
| LegacyCatalog.SkipFeatureName | generator/src/lib.rs:93-95 | `skip-` followed by a feature name is a feature name |
| LegacyCatalog.SmileysSkipKey | generator/src/lib.rs:93-95 | the key of the declared `skip-smileys-and-emotion` has no space |
| LegacyCatalog.SkipIgnoredAsWritten | generator/src/lib.rs:136-146 | as written, the first record is kept although its group's declared skip feature is the only one enabled |
| LegacyCatalog.SkipHonoured | generator/src/lib.rs:136-146 | with the corrected lookup, enabling the skip feature of a record's group or subgroup drops it |
| LegacyCatalog.SkipHonouredExample | generator/src/lib.rs:136-146 | with the corrected lookup, the same environment drops the first record |
| Selector.One | src/lib.rs:20-26 | `one` fails exactly on an empty table, and otherwise returns an entry of the table |
| Selector.FixedFrom | src/lib.rs:45-52 | the remaining rounds fail exactly when there is a round left and the table is empty; otherwise they add one entry per round |
| Selector.Fixed | src/lib.rs:42-55 | `fixed` fails exactly when it must pick from an empty table, and otherwise returns `count` entries |
| Selector.Pick | src/lib.rs:47-50 | the closed-form entry `i` is an entry of the table |
| Selector.FixedFromIsPicks | src/lib.rs:45-52 | after `k` rounds the hasher holds the value `k` times and the output holds the first `k` closed-form picks |
| Selector.FixedIsPicks | src/lib.rs:42-55 | `fixed` is the closed-form sequence of picks |
| Selector.FixedEntries | src/lib.rs:42-55 | entry `i` of `fixed` is the pick for the value written `i + 1` times, and is in the table |
| Selector.PicksPrefix | src/lib.rs:45-52 | fewer picks are a prefix of more picks |
| Selector.FixedPrefix | src/lib.rs:42-55 | a shorter `fixed` string is a prefix of a longer one for the same value |
| Selector.FixedStartsWithOne | src/lib.rs:20-55 | the first entry of `fixed` is what `one` picks for the same value |
| Selector.FixedLoop | src/lib.rs:42-55 | the loop fails exactly on an empty table with work to do, and otherwise returns `count` entries, entry `i` being the pick for the value written `i + 1` times |
| Selector.VariableCount | src/lib.rs:35 | the chosen length lies in `start..end` |
| Selector.Variable | src/lib.rs:30-38 | an empty or inverted range is an error, and a result's length lies in `start..end` |
| Selector.VariableIsFixedPrefix | src/lib.rs:30-38 | `variable` fails on an empty table exactly when the chosen length is not zero, and otherwise is a prefix of the longest string the range allows |
| Selector.SelectionsAreListed | src/lib.rs:58-60 | whatever `one`, `fixed` or `variable` produce is listed by `iter` |
| Selector.FixedTen | src/lib.rs:89-96 | `fixed(a, 10)` on a non-empty table gives ten entries |
| Selector.VariableOneToTen | src/lib.rs:79-87 | `variable(a, 1..10)` on a non-empty table gives between one and nine entries |
| Selector.CompiledPickPasses | src/lib.rs:20-26 | when the table is the builder's `filter` output, `one` picks the glyph of a record that passes the feature policy |

## Left out

- Writing the feature list into `Cargo.toml` (`write_features` in both builders) is file I/O and is left out, along with the binaries and build scripts that call the builders and write the generated table. The features it declares appear only as the names the lemmas enable.
- `include_str!` and `str::lines`: the data file is given as its sequence of lines.
- Environment variable values are ignored; only presence counts. `env::var` also fails on a value that is not valid Unicode, which is not modelled.
- `env::vars()` in the current `filter` (hashmoji_generator/src/lib.rs:210) panics when any environment variable's name or value is not valid Unicode, whatever features are set. The model's environment is a set of strings, so that abort is not modelled.
- XxHash64 itself is a parameter, `digest`. No property depends on its arithmetic.
- How a value's `Hash` implementation turns it into bytes is left out. A value is represented by those bytes.
- The output `String` of `fixed` and `variable` is modelled as the sequence of picked entries; their concatenation is not formed.
- Text.AsciiLower: only ASCII letters change case, whereas `str::to_lowercase` maps all of Unicode. The data file's labels are ASCII.
- Text.AsciiUpper: only ASCII letters change case, whereas `str::to_uppercase` maps all of Unicode.
- Catalog.DecodeParts: `major * 100 + minor` beyond 65535 is the error `VersionOverflow`, as in a debug build. A release build would wrap modulo 65536.
- Selector.Variable: an inverted range is the error `InvalidRange`, as in a debug build. A release build would wrap the subtraction instead.
- Selector.FixedTen: counts table entries, not grapheme clusters. Grapheme segmentation, which the tests use to measure length, is left out.
- Selector.VariableOneToTen: counts table entries, not grapheme clusters.
- The `component` group's records are passed over as the code does. Nothing checks that the data file actually has that group.
- Capacities, lifetimes and the crate's `std`/`alloc` feature gates have no behavioural content and are left out.

## Findings

| source | as written | input that shows it | evidently intended | confidence | as-written member | corrected member |
|---|---|---|---|---|---|---|
| generator/src/lib.rs:137-139 | `filter` looks up each record's raw group and subgroup labels (`has_env_feature(emoji.group)`, `format!("skip-{}", emoji.group)`). But the feature list declares the normalised names (`to_feature_name`, lines 34-35 and 93-95). | The record `😀` under group `Smileys & Emotion`, with only `skip-smileys-and-emotion` enabled: its key `CARGO_FEATURE_SKIP_SMILEYS_AND_EMOTION` is never looked up. The raw label gives `CARGO_FEATURE_SKIP_SMILEYS & EMOTION`, so the record is kept. Additive mode misses `smileys-and-emotion` the same way. | Look labels up under `to_feature_name(label)`, the names the features were declared with. | high (not executed) | LegacyCatalog.SkipIgnoredAsWritten | LegacyCatalog.SkipHonoured |

The corrected filter is `LegacyCatalog.Filter`, which looks labels up by feature name. The as-written one is `LegacyCatalog.FilterAsWritten`. Both share `Selected`, and `Lookup` chooses the lookup.
