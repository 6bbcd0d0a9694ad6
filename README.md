# String helpers of the MyBatis code generator, in Dafny

The code generator of the `enhe-endpoint` IDE plugin derives Java names from
MySQL schema names with a handful of Kotlin string extensions in
`src/main/kotlin/com/enhe/endpoint/extend/_String.kt`:

- `replaceToEmpty(oldValue, ignoreCase)` removes every occurrence of `oldValue`;
- `replaceFirstToEmpty(oldValue, ignoreCase)` removes the leftmost occurrence;
- `firstCharLower()` lower-cases the first character;
- `lowerCamel()` turns a snake_case column name into a lowerCamel field name
  through Guava's `CaseFormat.LOWER_UNDERSCORE.to(LOWER_CAMEL, …)`;
- `String?.or(fallback)` substitutes a fallback for a null or empty string; the
  generate action uses it to pick the error text it shows when generation fails.

This project models each of them as a Dafny function on `string`
(`seq<char>`) and proves what they promise. A Kotlin `String?` is an
`Option<string>`. The library code the helpers delegate to is modelled too,
because it decides their behaviour:

- `Search` models Kotlin's `indexOf(other, startIndex, ignoreCase)` and
  `Char.equals(…, ignoreCase)`. With `ignoreCase` set, Kotlin tries each start
  index with `regionMatches`. Without it, a `String` receiver goes to
  `java.lang.String.indexOf`. Both give the leftmost occurrence at or after the
  start index, for every start index up to the length, and that is what
  `Search.IndexOf` returns.
- `StringExt.ReplaceToEmpty` follows the scan of Kotlin's `String.replace`. It
  finds the first occurrence and copies the text before it. It then searches
  again from `occurrence + max(|oldValue|, 1)` and stops once an occurrence
  sits at the end of the string. It is proved equal to a simple reference
  definition, `Removed`, for every non-empty pattern. `Removed` walks left to
  right and drops each occurrence that starts where the walk stands.
- `CaseFormat` models Guava's conversion. The input is cut into words at each
  `_`. The first word is lower-cased. Each later word has its first character
  upper-cased and the rest lower-cased, and an empty word stays empty. The
  words are joined without a separator. `CaseFormat.CamelFrom` is an
  independent character-by-character definition, proved equal to it.

One behaviour is worth knowing. The result of `lowerCamel` starts with a
lower-case character only when the input does not start with `_`. A leading
`_` makes an empty first word, so the next word is capitalised: `"_id"`
becomes `"Id"` (`StringExt.LowerCamelLeadingUnderscore`). Guava's Javadoc
leaves the result for input that is not lower_underscore undefined ("best
effort"). The leading, doubled or trailing `_` cases are therefore defined only
by Guava's implementation, and the model follows that implementation: `"_id"`
becomes `"Id"`, `"a__b"` becomes `"aB"` (`StringExt.LowerCamelDoubledUnderscore`),
`"id_"` becomes `"id"` (`StringExt.LowerCamelTrailingUnderscore`) and `"A_ID"`
becomes `"aId"` (`StringExt.LowerCamelUpperCaseInput`). The first-character property is proved in its
qualified form (`StringExt.LowerCamelFirstChar`).

## Model

| member | source | states |
|---|---|---|
| `Search.IndexOf` | src/main/kotlin/com/enhe/endpoint/extend/_String.kt:10-12 | a found index is the leftmost occurrence at or after the start index; `None` means no occurrence there at all |
| `Search.IndexOfFindsFirst` | src/main/kotlin/com/enhe/endpoint/extend/_String.kt:10-12 | `IndexOf` returns `i` exactly when `i` is the leftmost occurrence, in both directions |
| `Search.CharEquals` | src/main/kotlin/com/enhe/endpoint/extend/_String.kt:10-12 | characters are equal ignoring case exactly when their lower-case forms are equal, as when their upper-case forms are; without `ignoreCase` only identical characters are equal |
| `Search.MatchesAt` | src/main/kotlin/com/enhe/endpoint/extend/_String.kt:10-12 | a match needs room for the whole pattern; the empty pattern matches at every index up to and including the length |
| `Search.MatchesAtCharwise` | src/main/kotlin/com/enhe/endpoint/extend/_String.kt:10-12 | a match compares the region with the pattern one character at a time |
| `Search.MatchesAtCaseSensitive` | src/main/kotlin/com/enhe/endpoint/extend/_String.kt:10-12 | with `ignoreCase` false an occurrence is literal equality of the slice with `oldValue` |
| `Search.CaseSensitiveMatchIgnoresCase` | src/main/kotlin/com/enhe/endpoint/extend/_String.kt:10-12 | an occurrence found case-sensitively is also found with `ignoreCase` |
| `StringExt.ReplaceToEmpty` | src/main/kotlin/com/enhe/endpoint/extend/_String.kt:10 | removing occurrences never makes the receiver longer |
| `StringExt.NextOccurrence` | src/main/kotlin/com/enhe/endpoint/extend/_String.kt:10 | the scan's next occurrence lies past the current one and does not overlap it; for a non-empty pattern it is the first occurrence starting at or after the end of the current one, and `None` means there is none (an overlapping occurrence, such as the one at 1 in `"aaa"` after `"aa"` at 0, is skipped) |
| `StringExt.ScanFrom` | src/main/kotlin/com/enhe/endpoint/extend/_String.kt:10 | one round of the scan yields no more than the text left from where it starts |
| `StringExt.Removed` | src/main/kotlin/com/enhe/endpoint/extend/_String.kt:10 | reference removal is no longer than the text it walks |
| `StringExt.RemovedLength` | src/main/kotlin/com/enhe/endpoint/extend/_String.kt:10 | the reference removal is shorter than its input by exactly `|oldValue|` times the number of occurrences it drops |
| `StringExt.ScanIsRemoval` | src/main/kotlin/com/enhe/endpoint/extend/_String.kt:10 | the scan from any leftmost occurrence computes the reference removal |
| `StringExt.ScanEmptyPattern` | src/main/kotlin/com/enhe/endpoint/extend/_String.kt:10 | with an empty `oldValue` the scan copies the rest of the receiver unchanged |
| `StringExt.ReplaceToEmptyIsRemoval` | src/main/kotlin/com/enhe/endpoint/extend/_String.kt:10 | for a non-empty `oldValue`, `replaceToEmpty` equals the left-to-right non-overlapping removal |
| `StringExt.ReplaceToEmptyUnchanged` | src/main/kotlin/com/enhe/endpoint/extend/_String.kt:10 | an empty `oldValue`, or one that does not occur, leaves the receiver unchanged |
| `StringExt.ReplaceToEmptyLength` | src/main/kotlin/com/enhe/endpoint/extend/_String.kt:10 | the drop in length is `|oldValue|` times the occurrences removed; at least one is removed iff `oldValue` occurs; the receiver comes back unchanged iff it does not occur |
| `StringExt.ReplaceFirstToEmpty` | src/main/kotlin/com/enhe/endpoint/extend/_String.kt:12 | without an occurrence the receiver is returned; with one, the result is the text before the leftmost occurrence followed by the text after it, of length `|s| - |oldValue|` |
| `StringExt.ReplaceToEmptyAfterFirst` | src/main/kotlin/com/enhe/endpoint/extend/_String.kt:10-12 | removing all occurrences starts by cutting the same leftmost occurrence that `replaceFirstToEmpty` cuts |
| `StringExt.ReplaceFirstCutsAt` | src/main/kotlin/com/enhe/endpoint/extend/_String.kt:12 | given the leftmost occurrence, `replaceFirstToEmpty` returns the text before it followed by the text after it |
| `StringExt.ReplaceFirstAgreesOnSingleOccurrence` | src/main/kotlin/com/enhe/endpoint/extend/_String.kt:10-12 | when nothing occurs after the leftmost occurrence, both helpers give the same string |
| `StringExt.FirstCharLower` | src/main/kotlin/com/enhe/endpoint/extend/_String.kt:14-22 | empty input comes back unchanged; otherwise the length is kept, character 0 becomes its lower-case form and every later character is unchanged |
| `StringExt.FirstCharLowerSingleBranch` | src/main/kotlin/com/enhe/endpoint/extend/_String.kt:17-20 | the one-character branch gives what the general branch would |
| `StringExt.FirstCharLowerIdempotent` | src/main/kotlin/com/enhe/endpoint/extend/_String.kt:14-22 | applying `firstCharLower` twice gives the same as applying it once |
| `StringExt.FirstCharLowerKeepsLowerStart` | src/main/kotlin/com/enhe/endpoint/extend/_String.kt:14-22 | a string that does not start with an upper-case letter is returned unchanged |
| `StringExt.LowerCamel` | src/main/kotlin/com/enhe/endpoint/extend/_String.kt:24 | the output holds no `_`; input without `_` comes back lower-cased |
| `StringExt.LowerCamelLength` | src/main/kotlin/com/enhe/endpoint/extend/_String.kt:24 | the output is shorter than the input by the number of `_` |
| `StringExt.LowerCamelFirstChar` | src/main/kotlin/com/enhe/endpoint/extend/_String.kt:24 | if the input does not start with `_`, the output starts with the lower-case form of the input's first character |
| `StringExt.LowerCamelLeadingUnderscore` | src/main/kotlin/com/enhe/endpoint/extend/_String.kt:24 | `"_id"` becomes `"Id"`, whose first character is upper-case |
| `StringExt.LowerCamelDoubledUnderscore` | src/main/kotlin/com/enhe/endpoint/extend/_String.kt:24 | `"a__b"` becomes `"aB"`: a doubled `_` makes an empty word that stays empty |
| `StringExt.LowerCamelTrailingUnderscore` | src/main/kotlin/com/enhe/endpoint/extend/_String.kt:24 | `"id_"` becomes `"id"`: a trailing `_` makes an empty last word that disappears |
| `StringExt.LowerCamelUpperCaseInput` | src/main/kotlin/com/enhe/endpoint/extend/_String.kt:24 | `"A_ID"` becomes `"aId"`: upper-case input is lower-cased except the first character of a later word |
| `StringExt.LowerCamelTwoWords` | src/main/kotlin/com/enhe/endpoint/extend/_String.kt:24 | two words joined by `_` become the first lower-cased followed by the second capitalised |
| `StringExt.LowerCamelOfLowerWords` | src/main/kotlin/com/enhe/endpoint/extend/_String.kt:24 | for two lower-case words only the second word's first character changes |
| `StringExt.LowerCamelExamples` | src/main/kotlin/com/enhe/endpoint/extend/_String.kt:24 | `"user_id"` becomes `"userId"`, `"id"` stays `"id"`, `""` stays `""` |
| `StringExt.FirstCharLowerOfLowerCamel` | src/main/kotlin/com/enhe/endpoint/extend/_String.kt:14-24 | `firstCharLower` leaves a `lowerCamel` result unchanged when the input does not start with `_` |
| `StringExt.Or` | src/main/kotlin/com/enhe/endpoint/extend/_String.kt:26 | a null or empty receiver yields the fallback, any other receiver is returned; the result is empty iff both are |
| `StringExt.OrIdempotent` | src/main/kotlin/com/enhe/endpoint/extend/_String.kt:26 | `or(or(s, f), f) == or(s, f)` |
| `CaseFormat.Words` | src/main/kotlin/com/enhe/endpoint/extend/_String.kt:24 | splitting on `_` always gives at least one word |
| `CaseFormat.WordsShape` | src/main/kotlin/com/enhe/endpoint/extend/_String.kt:24 | `n` separators give `n + 1` words, and no word holds a `_` |
| `CaseFormat.JoinWordsOfWords` | src/main/kotlin/com/enhe/endpoint/extend/_String.kt:24 | joining the words with `_` restores the input |
| `CaseFormat.WordsOfJoinWords` | src/main/kotlin/com/enhe/endpoint/extend/_String.kt:24 | splitting joined words gives the words back when none holds a `_` |
| `CaseFormat.Capitalize` | src/main/kotlin/com/enhe/endpoint/extend/_String.kt:24 | a later word keeps its length, its first character is upper-cased and the rest lower-cased |
| `CaseFormat.CamelFromWords` | src/main/kotlin/com/enhe/endpoint/extend/_String.kt:24 | the character-wise definition equals the word-wise one, for either state of the "after `_`" flag |
| `CaseFormat.LowerUnderscoreToLowerCamel` | src/main/kotlin/com/enhe/endpoint/extend/_String.kt:24 | the word-based conversion equals the character-wise reference `CamelFrom` on every input: every `_` dropped, a character after `_` upper-cased, every other character lower-cased |
| `CaseFormat.CamelFromShape` | src/main/kotlin/com/enhe/endpoint/extend/_String.kt:24 | the character-wise conversion drops every `_` and nothing else, and lower-cases input without `_` |
| `Ascii.ToLowerChar` | src/main/kotlin/com/enhe/endpoint/extend/_String.kt:18-20 | the result is never an upper-case letter; an upper-case letter becomes a lower-case one, and nothing else changes |
| `Ascii.ToUpperChar` | src/main/kotlin/com/enhe/endpoint/extend/_String.kt:24 | the result is never a lower-case letter; a lower-case letter becomes an upper-case one, and nothing else changes |
| `Ascii.ToLower` | src/main/kotlin/com/enhe/endpoint/extend/_String.kt:18-20 | lower-casing keeps the length and maps each character through the ASCII lower-case mapping |
| `GenerateAction.FailureMessage` | src/main/kotlin/com/enhe/endpoint/action/MybatisGenerateAction.kt:62-65 | the text shown for a failed generation is never empty: the exception's message when it has one, otherwise "生成失败" |

## Left out

- Case mapping covers ASCII letters only. Kotlin's `lowercase()` and `Char.equals(…, ignoreCase = true)` follow Unicode, where a lower-case form can even change the length. Guava's `CaseFormat` is ASCII-only already, so `lowerCamel` is exact.
- Kotlin's `replace` and `replaceFirst` take any replacement text. The helpers always pass `""`, so only that case is modelled.
- The `ignoreCase` parameter has no default value in the model. Callers pass `false` where the Kotlin code relies on the default.
- The rest of `MybatisGenerateAction.kt` is host-IDE code and is not part of this model. That covers the MySQL dialect check, the column-flag derivation from the host's metadata objects, the dialog, source-root and directory lookup, write actions, navigation and notifications.
- `EFCodeGenerateService`, `MysqlColumnType`, `EFColumn`, `EFTable` (the plugin's `com.enhe.endpoint.database` packages) and `MybatisGeneratorDialog` (`com.enhe.endpoint.dialog`) are not part of this model. They lie outside the string helpers modelled here, so type mapping and template emission are not modelled.
- Guava's `CaseFormat` is modelled only for the LOWER_UNDERSCORE to LOWER_CAMEL pair, and its null checks are left out. For that pair the model follows what the implementation's `convert` loop produces, including input that is not lower_underscore, whose result Guava's Javadoc leaves undefined.
