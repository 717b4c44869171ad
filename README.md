# FieldMapperUtils in Dafny

A Dafny model of `FieldMapperUtils`, the value-mapping layer of the Jira to Azure DevOps work item
migrator. For one field of one Jira revision, a mapper decides whether the field is present and
which value to emit for the Azure DevOps field. The model covers:

- **Rule resolution** (`RuleResolution`, `FieldMapperUtils.MapValue`,
  `FieldMapperUtils.MapRenderedValue`). The target work item type is the `Target` of the first
  `TypeMap.Types` entry for the revision's type, or null. The rules of `FieldMap.Fields` are scanned
  in order. The first rule whose condition holds is used, and its `Mapping.Values` table is applied
  to the value's text. The condition is evaluated in C#'s short-circuit order. `For` and `NotFor`
  are plain strings, and they are tested with the substring test `string.Contains`. A null target
  work item type, or a null `For`, makes the condition throw once evaluation reaches `Contains`;
  the model returns that exception as a `Fault`. The rendered-field variant never compares the
  rule's `Target`.
- **Rendered HTML values** (`FieldMapperUtils.CorrectRenderedHtmlvalue`). The attachment loop
  replaces each added attachment's URL with itself, and it is proved to leave the text unchanged.
  The result is `RevisionUtility.ReplaceHtmlElements` applied to the text, behind a `<style>`
  block when the style sheet is not blank.
- **String mappers** (`MapTitle`, `MapTitleWithoutKey`, `MapTags`, `MapArray`, `MapSprint`). Each
  one is modelled on .NET's `Split`, `string.Join` and `Trim`, which are written out in module
  `Strings`.
- **LexoRank decoding and its cache** (`LexoRank`). A class holds the two dictionaries. The text
  is checked against the pattern `^[0-2]\|[0-9a-zA-Z]*(\:[0-9a-zA-Z]*)?$` and split on `|` and `:`
  with empty entries removed. The value is the decimal `"<rank>.<sub-rank>"`, modelled as the
  exact real `rank + sub / 10^digits(sub)`. As a consequence, the bucket digit is ignored. An
  empty rank lets the sub-rank take its place (`"0|:abc"` decodes like `"0|abc"`). `"0|"` and
  `"0|:"` throw `IndexOutOfRangeException`. Different sub-ranks can collide: `"0|a:1"` and
  `"0|a:a"` both decode to 10.1. On a collision `Dictionary.Add` throws after the warning, and
  neither dictionary changes. The two dictionaries stay inverse to each other, and every cached
  value is the decoding of its key.

Exceptions are the `Fault` constructors of a `Result`. Logged warnings are returned as a list of
`Warning` values. A .NET reference the code checks for null, or that may be null in the
configuration, is an `Option`. The string arguments listed under "## Left out" are taken to be
non-null.

Files: `wrappers.dfy` (Option, Result), `strings.dfy` (the System.String operations used),
`model.dfy` (revision, configuration, faults, warnings), `rule_resolution.dfy`,
`field_mapper.dfy`, `lexo_rank.dfy`.

## Model

| member | source | states |
|---|---|---|
| `FieldMapperUtils.MapTitle` | src/WorkItemMigrator/JiraExport/RevisionUtils/FieldMapperUtils.cs:28-37 | found exactly when `summary` is a field; then the value is `"[" + key + "] " + summary`, otherwise null |
| `FieldMapperUtils.MapTitleWithoutKey` | src/WorkItemMigrator/JiraExport/RevisionUtils/FieldMapperUtils.cs:38-47 | found exactly when `summary` is a field; then the value is the summary itself, otherwise null |
| `FieldMapperUtils.MapValue` | src/WorkItemMigrator/JiraExport/RevisionUtils/FieldMapperUtils.cs:57-62 | `(false, null)` with no warning whenever the source field is absent, before any rule is examined; found whenever the field is present and nothing throws |
| `FieldMapperUtils.MapValueUsesFirstApplicableRule` | src/WorkItemMigrator/JiraExport/RevisionUtils/FieldMapperUtils.cs:64-76 | when rule i is the first whose condition is not false and it holds, MapValue returns found with the first table target for the value's text (null if none), plus one warning exactly when that target is null or empty; later rules play no part |
| `FieldMapperUtils.MapValueThrowsFirstFault` | src/WorkItemMigrator/JiraExport/RevisionUtils/FieldMapperUtils.cs:64-68 | when the condition of the first rule that is not false throws, MapValue throws that exception, whatever the later rules say |
| `FieldMapperUtils.MapValueWithoutRuleIsIdentity` | src/WorkItemMigrator/JiraExport/RevisionUtils/FieldMapperUtils.cs:64-78 | when no rule's condition holds, MapValue returns `(true, value)` unchanged, with no warning |
| `RuleResolution.FirstTarget` | src/WorkItemMigrator/JiraExport/RevisionUtils/FieldMapperUtils.cs:57 | null exactly when no entry has the key as source; otherwise the target of the first entry with that source |
| `RuleResolution.ContainsOrThrow` | src/WorkItemMigrator/JiraExport/RevisionUtils/FieldMapperUtils.cs:66-67 | `string.Contains`: NullReferenceException on a null receiver, ArgumentNullException("value") on a null argument, otherwise true if and only if the argument occurs at some position of the receiver |
| `RuleResolution.RuleApplies` | src/WorkItemMigrator/JiraExport/RevisionUtils/FieldMapperUtils.cs:66-68 | false for a rule of another source field; true only for a rule with a value table; never throws when `For` and the target type are both non-null |
| `RuleResolution.FindRule` | src/WorkItemMigrator/JiraExport/RevisionUtils/FieldMapperUtils.cs:64-77 | a rule it returns is one of the configured rules, and its condition holds |
| `RuleResolution.FirstDecidingRuleWins` | src/WorkItemMigrator/JiraExport/RevisionUtils/FieldMapperUtils.cs:64-76 | the first rule whose condition does not evaluate to false decides the scan: it is used if the condition holds, and its exception is thrown if the condition throws |
| `RuleResolution.NoRuleApplies` | src/WorkItemMigrator/JiraExport/RevisionUtils/FieldMapperUtils.cs:64-78 | the scan finds no rule if and only if every rule's condition evaluates to false |
| `RuleResolution.LaterRulesIgnored` | src/WorkItemMigrator/JiraExport/RevisionUtils/FieldMapperUtils.cs:64-77 | appending rules changes nothing once the scan has decided; otherwise the scan continues with the appended rules |
| `RuleResolution.ForAllMatchesEveryType` | src/WorkItemMigrator/JiraExport/RevisionUtils/FieldMapperUtils.cs:66 | a rule for the field and target with `For == "All"` and a table applies to every non-null target work item type |
| `RuleResolution.NotForMatchesOtherTypes` | src/WorkItemMigrator/JiraExport/RevisionUtils/FieldMapperUtils.cs:67 | a rule for the field with a non-blank `NotFor` and a table applies to every type that is not a substring of `NotFor`, whatever its `Target` and `For` say |
| `RuleResolution.NotForExcludesListedTypes` | src/WorkItemMigrator/JiraExport/RevisionUtils/FieldMapperUtils.cs:66-67 | a type contained in `NotFor` is not matched unless `For` selects it |
| `RuleResolution.NotForIsSubstringTest` | src/WorkItemMigrator/JiraExport/RevisionUtils/FieldMapperUtils.cs:67 | with `NotFor == "Bug"`, both "Bug" and its substring "Bu" are excluded, and "Task" is matched |
| `RuleResolution.UnmappedTypeThrows` | src/WorkItemMigrator/JiraExport/RevisionUtils/FieldMapperUtils.cs:66 | with no mapped target work item type, a rule whose source and target match throws ArgumentNullException from `For.Contains` |
| `RuleResolution.RenderedConditionIgnoresTarget` | src/WorkItemMigrator/JiraExport/RevisionUtils/FieldMapperUtils.cs:102-104 | the rendered-field condition is the same whatever the rule's `Target` is |
| `RuleResolution.Substitute` | src/WorkItemMigrator/JiraExport/RevisionUtils/FieldMapperUtils.cs:70-75 | found; null exactly when no table entry has the text as source, otherwise the first such entry's target; one warning exactly when the result is null or empty |
| `FieldMapperUtils.SetCustomFieldName` | src/WorkItemMigrator/JiraExport/RevisionUtils/FieldMapperUtils.cs:247-255 | the custom field name when the field is custom, the source field name otherwise |
| `FieldMapperUtils.RenderedFieldName` | src/WorkItemMigrator/JiraExport/RevisionUtils/FieldMapperUtils.cs:90-92 | the custom field name when the field is custom, otherwise the source field, followed by `$Rendered` |
| `FieldMapperUtils.CorrectRenderedHtmlvalue` | src/WorkItemMigrator/JiraExport/RevisionUtils/FieldMapperUtils.cs:201-228 | throws on null; returns blank text unchanged; otherwise returns `ReplaceHtmlElements(text)` with `<style>css</style>` in front exactly when css is not blank (one warning when it is), since the attachment loop leaves the text unchanged |
| `FieldMapperUtils.MapRenderedValue` | src/WorkItemMigrator/JiraExport/RevisionUtils/FieldMapperUtils.cs:82-117 | `(false, null)` when the `$Rendered` field is absent; otherwise decided by the rendered-field rule scan (target never compared) or, with no rule, the corrected HTML of the value |
| `FieldMapperUtils.MapTags` | src/WorkItemMigrator/JiraExport/RevisionUtils/FieldMapperUtils.cs:121-134 | throws on null; `""` on blank input; otherwise the input with every `' '` replaced by `';'` |
| `FieldMapperUtils.MapArray` | src/WorkItemMigrator/JiraExport/RevisionUtils/FieldMapperUtils.cs:136-149 | throws on null; null on blank input; otherwise the input with every `','` replaced by `';'` |
| `FieldMapperUtils.MapSprint` | src/WorkItemMigrator/JiraExport/RevisionUtils/FieldMapperUtils.cs:151-162 | null exactly for null or blank input; otherwise the trimmed text after the last `','` (all of it when there is none), which never contains `','` |
| `Strings.Split` | src/WorkItemMigrator/JiraExport/RevisionUtils/FieldMapperUtils.cs:129 | at least one segment, so the `!tags.Any()` branches are dead; one segment means the whole text; no segment contains the separator |
| `Strings.ReplaceChar` | src/WorkItemMigrator/JiraExport/RevisionUtils/FieldMapperUtils.cs:133 | same length as the input, each separator replaced and every other character kept |
| `Strings.JoinSplit` | src/WorkItemMigrator/JiraExport/RevisionUtils/FieldMapperUtils.cs:129-133 | joining the segments of a split with another character is character replacement |
| `Strings.LastSegment` | src/WorkItemMigrator/JiraExport/RevisionUtils/FieldMapperUtils.cs:156-159 | the last segment of a split is a suffix preceded by the separator, or the whole text when there is one segment |
| `Strings.Trim` | src/WorkItemMigrator/JiraExport/RevisionUtils/FieldMapperUtils.cs:157 | an infix of the input, only white space cut on either side, neither starting nor ending with white space |
| `Strings.ContainsIsSubstring` | src/WorkItemMigrator/JiraExport/RevisionUtils/FieldMapperUtils.cs:66-67 | `Contains` holds if and only if the argument occurs at some position of the receiver |
| `Strings.ReplaceBySelf` | src/WorkItemMigrator/JiraExport/RevisionUtils/FieldMapperUtils.cs:215-216 | replacing a non-empty string by itself leaves any text unchanged |
| `LexoRank.PatternMatchesRegex` | src/WorkItemMigrator/JiraExport/RevisionUtils/FieldMapperUtils.cs:167-168 | the pattern holds exactly for a bucket digit 0-2, `'|'`, base-36 rank digits and optionally `':'` and base-36 sub-rank digits; RankText and SubRankText then recover those two parts |
| `LexoRank.LexoSplitShape` | src/WorkItemMigrator/JiraExport/RevisionUtils/FieldMapperUtils.cs:182 | on text matching the pattern, the split yields the bucket, then the rank and the sub-rank where they are non-empty |
| `LexoRank.DecodeLexoRank` | src/WorkItemMigrator/JiraExport/RevisionUtils/FieldMapperUtils.cs:182-191 | empty rank and sub-rank throw IndexOutOfRange; an empty rank makes the sub-rank the rank; otherwise the value is `"<rank>.<sub-rank>"` |
| `LexoRank.DecodeIgnoresBucket` | src/WorkItemMigrator/JiraExport/RevisionUtils/FieldMapperUtils.cs:182-185 | changing the bucket digit keeps the text valid and does not change the value |
| `LexoRank.SubRankCollision` | src/WorkItemMigrator/JiraExport/RevisionUtils/FieldMapperUtils.cs:186-194 | the different LexoRanks `"0|a:1"` and `"0|a:a"` both decode to 10.1 |
| `LexoRank.DigitCount` | src/WorkItemMigrator/JiraExport/RevisionUtils/FieldMapperUtils.cs:191 | the number of decimal digits of the sub-rank: exactly one below ten, otherwise the d with 10^(d-1) <= n < 10^d |
| `LexoRank.DecodedRankBelowSentinel` | src/WorkItemMigrator/JiraExport/RevisionUtils/FieldMapperUtils.cs:172-173 | every decodable LexoRank of up to 14 characters decodes below `decimal.MaxValue`, so rejected text sorts last |
| `LexoRank.LexoRankCache.constructor` | src/WorkItemMigrator/JiraExport/RevisionUtils/FieldMapperUtils.cs:164-165 | both dictionaries start empty, and the cache invariant holds |
| `LexoRank.LexoRankCache.MapLexoRank` | src/WorkItemMigrator/JiraExport/RevisionUtils/FieldMapperUtils.cs:170-199 | null, empty or rejected text: `decimal.MaxValue`, dictionaries untouched. Cached text: the cached value and a warning, dictionaries untouched. New text: the decoding, added to both dictionaries together; a value already cached gives a warning and a throw with neither dictionary changed. The dictionaries stay mutually inverse, and every Ok result on valid text is its decoding |

## Left out

- `MapRemainingWork` is not modelled, because it relies on culture-dependent `Convert.ToDouble` parsing and floating-point `TimeSpan.TotalHours`.
- `ReadEmbeddedFile` is not modelled, because it reads an assembly resource stream. `CorrectRenderedHtmlvalue` takes the style sheet text as the `css` parameter instead. That parameter is `""` when the resource cannot be read.
- `RevisionUtility.ReplaceHtmlElements` is not part of this model. It is the function parameter `replaceHtmlElements`.
- `Base36.Decode` is not part of this model. It is assumed to be the standard case-insensitive positional base-36 value.
- `LexoRank.DecodeLexoRank` computes exact rationals. It does not model overflow of the `long` that `Base36.Decode` returns, or rounding of `decimal` beyond 28 significant digits.
- `LexoRank.DecodedRankBelowSentinel` is stated only for text of up to 14 characters, because longer text reaches the `long` overflow and `decimal` rounding that are not modelled.
- `LexoRank.LexoRankCache.MapLexoRank` excludes a valid LexoRank followed by a final line feed. .NET's `$` accepts that text, but what `Base36.Decode` then does with the line feed is unknown.
- The `Logger` is a side channel. Each mapper returns the warnings it would log, as `Warning` values, instead of writing messages.
- Thread safety of the static dictionaries is not modelled, because concurrency is out of scope. The dictionaries are the fields of a `LexoRankCache` object, one per migration run.
- Null `JiraRevision` and `ConfigJson` arguments are not represented: they are datatype values. The `ArgumentNullException` guards on them therefore have no counterpart.
- `FieldMapperUtils.MapValue` and `FieldMapperUtils.MapRenderedValue` take `itemSource`, `itemTarget`, `sourceField` and `customFieldName` to be non-null strings. So the model leaves out three behaviours of a null argument: the ArgumentNullException of `TryGetValue` on a null key (lines 59 and 96), a null `itemTarget` matching rules whose `Target` is null (line 66), and a null custom name producing the field name `"$Rendered"`.
- `FieldMapperUtils.CorrectRenderedHtmlvalue` takes every added attachment action to carry a non-null `Value`. The NullReferenceException on a null `Value` (line 215) is not modelled. Its `Url` may be null.
- A revision's field values are their `ToString()` text and are never null. `Type`, `ParentItem.Key` and the `Source`/`Target` strings of type and value mappings are also taken to be non-null. `For` and `NotFor` may be null.
- The `ChangeType` of attachment actions has only `Added` and `Removed`. Only `Added` matters to the code.
