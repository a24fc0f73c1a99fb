# validateMake package templates, modelled in Dafny

This project models the pure and the small imperative parts of the Python
package templates shipped in `inst/package_templates/` of validateMake:

- the category normalizers `NormSex` and `NormRace` (`sneetches/normalize.py`, and
  the copy of `NormSex` in `sneetches/doc_template/doc_test.py`);
- the SQL text builders of `ds/connect/database.py`: `as_sql_list`, the credential
  checks, the access-token encoding, the schema and row-insert queries, and
  password masking;
- the literal substitution toolkit of `ds/clean/sub.py`;
- the column-name case converters (`ds/clean/space_to_camel.py`,
  `sneetches/utils.py`) and headline casing (`ds/clean/title_case.py`);
- `flatten` and `unnest` (`ds/clean/flatten.py`), `make_batch`
  (`ds/clean/make_batch.py`) and `colo` (`ds/text/colo.py`).

pandas is replaced by plain sequences throughout:

- a series is a `seq` of cells;
- a cell is `Raw` (`Null`, `Text` or `Int`), or an `Option<string>` once rendered;
- a data frame is a list of column names with a list of rows.

Python exceptions become the `Err` case of a `Result`. Regular-expression
matching that the source delegates to `re` is written out for the fixed
patterns it uses. Where the pattern comes from the caller, a regex engine and
a validity predicate are passed in as parameters.

One Dafny module per source file:

| file | module |
|---|---|
| `text.dfy` | `Wrappers` (Option, Result) and `Text`: the Python string operations the others share |
| `norm_sex.dfy` | `NormSex` |
| `norm_race.dfy` | `NormRace`, with the test expectations in `NormRaceExamples` |
| `database.dfy` | `Database`: `as_sql_list`, credential checks, token bytes, masking |
| `sql_queries.dfy` | `SqlQueries`: schema and row-insert query builders |
| `sub.dfy` | `CleanSub` |
| `case_convert.dfy` | `CaseConvert` |
| `title_case.dfy` | `TitleCase` |
| `flatten.dfy` | `Flatten` |
| `make_batch.dfy` | `MakeBatch` |
| `colo.dfy` | `Colo` |

Source paths below are relative to the repository root. `ds-python-packages`
and `sneetches` both live under `inst/package_templates/`.

## Model

| member | source | states |
|---|---|---|
| Colo.Escape | inst/package_templates/ds-python-packages/ds/text/colo.py:76 | `replace("\\", "\\\\")` as written: the result is never shorter, and text without a backslash is unchanged |
| Colo.EscapeLiteral | inst/package_templates/ds-python-packages/ds/text/colo.py:96 | the corrected escaping also escapes the double quote; text with neither character is unchanged |
| Colo.EscapeLiteralRoundTrip | inst/package_templates/ds-python-packages/ds/text/colo.py:96 | reading the corrected escaping back as a Python literal body gives the original text, for every text |
| Colo.Clip | inst/package_templates/ds-python-packages/ds/text/colo.py:95-96 | the corrected clipboard text is a double-quoted literal whose value is exactly the pattern |
| Colo.EscapeAgrees | inst/package_templates/ds-python-packages/ds/text/colo.py:106-107 | for a pattern without a double quote, the as-written clipboard text equals the corrected one |
| Colo.UnescapeStops | inst/package_templates/ds-python-packages/ds/text/colo.py:107 | an unescaped double quote after plain characters ends the literal early, so the body does not read back |
| Colo.ClipAsWrittenBreaks | inst/package_templates/ds-python-packages/ds/text/colo.py:106-107 | for the pattern `say "hi"` the as-written clipboard text is not a valid literal |
| Colo.ClipAsWritten | inst/package_templates/ds-python-packages/ds/text/colo.py:76 | the as-written clipboard text starts and ends with a double quote and is at least two characters longer than the pattern |
| Colo.QuotedRegexBreaks | inst/package_templates/ds-python-packages/ds/text/colo.py:73-78 | `colo('say "hi"', copy2clip=True)` puts on the clipboard text that is not a valid string literal |
| Colo.ColoCall | inst/package_templates/ds-python-packages/ds/text/colo.py:69-85 | `copy2clip=None` counts as False; the clipboard is written exactly when `copy2clip` is True; it holds the as-written text, two quotes longer than the pattern at least, which reads back as the returned pattern when the pattern has no double quote |
| Colo.ClipKeepsPattern | inst/package_templates/ds-python-packages/ds/text/colo.py:75-78 | `copy2clip` never changes the returned pattern |
| Colo.JoinConcat | inst/package_templates/ds-python-packages/ds/text/colo.py:93 | joining the wrapped regexes of `a + b` is joining those of `a`, then those of `b` |
| Colo.JoinLength | inst/package_templates/ds-python-packages/ds/text/colo.py:93 | the join is as long as all regexes plus one opener and one closer per regex |
| Colo.JoinAt | inst/package_templates/ds-python-packages/ds/text/colo.py:93 | regex i appears verbatim between the opener and the closer, after the wrapped regexes before it and before those after it |
| Colo.WrappedAt | inst/package_templates/ds-python-packages/ds/text/colo.py:93 | regex i, with its opener and closer, sits at the offset given by the prefix, i openers and closers, and the regexes before it |
| Colo.LookaheadForm | inst/package_templates/ds-python-packages/ds/text/colo.py:92-93 | with no `fail` and other than one or two regexes: `^`, then one `(?=.*r)` per regex, in order, with each regex verbatim, and the total length |
| Colo.NoRegexes | inst/package_templates/ds-python-packages/ds/text/colo.py:92-93 | no regexes and no `fail` give `^` |
| Colo.SingleRegex | inst/package_templates/ds-python-packages/ds/text/colo.py:73-78 | one regex and no `fail` give the regex itself, and the clipboard receives its as-written quoted text |
| Colo.TwoRegexes | inst/package_templates/ds-python-packages/ds/text/colo.py:90-91 | two regexes give `((a.*b)\|(b.*a))`; swapping them swaps the alternatives; length `11 + 2(\|a\|+\|b\|)` |
| Colo.FailForm | inst/package_templates/ds-python-packages/ds/text/colo.py:103-105 | with `fail`, for any number of regexes: the pattern begins `^(?!.*(fail))` and has the stated length |
| Colo.FailRegexAt | inst/package_templates/ds-python-packages/ds/text/colo.py:103-105 | with `fail`, regex i appears verbatim inside `(?=.*(` and `))` at its offset |
| Colo.ThreeExample | inst/package_templates/ds-python-packages/tests/test_colo.py:21 | `colo('cat', 'dog', 'fish')` is `^(?=.*cat)(?=.*dog)(?=.*fish)` |
| Colo.ThreeFailExample | inst/package_templates/ds-python-packages/tests/test_colo.py:22 | with `fail='I Wish'` it is `^(?!.*(I Wish))(?=.*(cat))(?=.*(dog))(?=.*(fish))` |
| Colo.TwoExample | inst/package_templates/ds-python-packages/tests/test_colo.py:23-24 | `colo('cat', 'fish')`, with or without `fail=None`, is `((cat.*fish)\|(fish.*cat))` |
| Colo.TwoFailExample | inst/package_templates/ds-python-packages/tests/test_colo.py:25 | `colo('cat', 'fish', fail='I Wish')` |
| Colo.OneExamples | inst/package_templates/ds-python-packages/tests/test_colo.py:26-27 | `colo('cat')` is `cat`; with `fail='I Wish'` it is `^(?!.*(I Wish))(?=.*(cat))` |
| Colo.VerbatimExample | inst/package_templates/ds-python-packages/tests/test_colo.py:28 | backslashes in the regexes pass through unescaped |
| MakeBatch.PyRange | inst/package_templates/ds-python-packages/ds/clean/make_batch.py:41 | Python `range`: empty when the step points away from `stop`, and otherwise begins at `start` |
| MakeBatch.RangeUp | inst/package_templates/ds-python-packages/ds/clean/make_batch.py:41-42 | an ascending range holds exactly `start + i*step` for each i with that value below `stop` |
| MakeBatch.Indices | inst/package_templates/ds-python-packages/ds/clean/make_batch.py:43 | `range(n)` is 0, 1, ..., n-1 |
| MakeBatch.Zip3 | inst/package_templates/ds-python-packages/ds/clean/make_batch.py:43 | `zip` of three lists stops at the shortest and pairs elements by position |
| MakeBatch.Batches | inst/package_templates/ds-python-packages/ds/clean/make_batch.py:41-43 | `make_batch` raises exactly when `batch_size` is 0 |
| MakeBatch.BatchesShape | inst/package_templates/ds-python-packages/ds/clean/make_batch.py:41-43 | batch i starts at `i*b` with index i; each batch ends where the next starts; the last ends at `length`; no batches iff `length <= 0` |
| MakeBatch.BatchBounds | inst/package_templates/ds-python-packages/ds/clean/make_batch.py:41-43 | every batch is a valid slice `[start:end]` of `range(length)` |
| MakeBatch.BatchSizes | inst/package_templates/ds-python-packages/ds/clean/make_batch.py:41-43 | every batch is non-empty and holds at most `batch_size` items |
| MakeBatch.BatchCount | inst/package_templates/ds-python-packages/ds/clean/make_batch.py:41-43 | there are `ceil(length / batch_size)` batches, none for a non-positive length |
| MakeBatch.BatchOf | inst/package_templates/ds-python-packages/ds/clean/make_batch.py:41-43 | item x of `range(length)` lies in batch `x // batch_size` |
| MakeBatch.BatchUnique | inst/package_templates/ds-python-packages/ds/clean/make_batch.py:41-43 | batch i holds only items whose quotient by `batch_size` is i, so no item lies in two batches |
| MakeBatch.SlicesRejoin | inst/package_templates/ds-python-packages/ds/clean/make_batch.py:33-35 | slicing a list by every batch and joining the slices in order gives the list back |
| MakeBatch.FiftyBatches | inst/package_templates/ds-python-packages/ds/clean/make_batch.py:20 | 125 rows in batches of 50: (0,50,0), (50,100,1), (100,125,2) |
| MakeBatch.TwentyFiveBatches | inst/package_templates/ds-python-packages/ds/clean/make_batch.py:31 | 125 rows in batches of 25: five full batches |
| MakeBatch.FortyBatches | inst/package_templates/ds-python-packages/ds/clean/make_batch.py:35 | 125 items in batches of 40: the fourth batch holds the last five |
| MakeBatch.NegativeSize | inst/package_templates/ds-python-packages/ds/clean/make_batch.py:41-43 | a negative `batch_size` over a non-negative length yields no batches and no error |
| CleanSub.Get | inst/package_templates/ds-python-packages/ds/clean/sub.py:124 | `d.get(k)` finds a value exactly when `k` is a key of the dictionary |
| CleanSub.Keys | inst/package_templates/ds-python-packages/ds/clean/sub.py:245 | `list(d.keys())` lists every key once per entry, in order |
| CleanSub.DictSetPresent | inst/package_templates/ds-python-packages/ds/clean/sub.py:127 | `d[k] = v` on a present key keeps every key in its place |
| CleanSub.DictSetKeepsKeys | inst/package_templates/ds-python-packages/ds/clean/sub.py:127 | assigning to a present key keeps the keys and their order |
| CleanSub.DictSetAbsent | inst/package_templates/ds-python-packages/ds/clean/sub.py:364-406 | `d[k] = v` on a new key appends the entry, as each entry of a dict display does |
| CleanSub.DictSetGet | inst/package_templates/ds-python-packages/ds/clean/sub.py:127 | after `d[k] = v`, `d.get(k)` is `v` |
| CleanSub.DictSetOthers | inst/package_templates/ds-python-packages/ds/clean/sub.py:127 | `d[k] = v` leaves the value of every other key unchanged |
| CleanSub.DictLiteralKeys | inst/package_templates/ds-python-packages/ds/clean/sub.py:364-406 | a dict display has an entry for exactly the keys written in it |
| CleanSub.DictLiteralSingle | inst/package_templates/ds-python-packages/ds/clean/sub.py:364-406 | a key written once in a display maps to the value written with it |
| CleanSub.LastValueWins | inst/package_templates/ds-python-packages/ds/clean/sub.py:403-405 | a key written twice in a display keeps the value written last |
| CleanSub.IgnoreCaseWithoutCapitals | inst/package_templates/ds-python-packages/ds/clean/sub.py:227-230 | on texts and keys without capitals, `flags=re.IGNORECASE` changes nothing |
| CleanSub.IgnoreCasePattern | inst/package_templates/ds-python-packages/ds/clean/sub.py:249 | with case ignored, the capitals of the key do not matter |
| CleanSub.IgnoreCaseHit | inst/package_templates/ds-python-packages/ds/clean/sub.py:249 | with case ignored, a window equal to the key up to case is replaced and the scan resumes after it |
| CleanSub.ReplaceAllHit | inst/package_templates/ds-python-packages/ds/clean/sub.py:344 | literal replace-all replaces an occurrence at the front and resumes after it |
| CleanSub.ReplaceAllSkip | inst/package_templates/ds-python-packages/ds/clean/sub.py:344 | literal replace-all copies text before the first occurrence unchanged |
| CleanSub.SubstituteFirst | inst/package_templates/ds-python-packages/ds/clean/sub.py:343-344 | the first pair is applied to the original text, the rest to its output |
| CleanSub.SubstituteConcat | inst/package_templates/ds-python-packages/ds/clean/sub.py:343-344 | applying the pairs of `d1 + d2` is applying `d1`, then `d2` to its output |
| CleanSub.SubstituteAbsent | inst/package_templates/ds-python-packages/ds/clean/sub.py:343-344 | a text in which no key occurs comes back unchanged |
| CleanSub.OnlyOnePair | inst/package_templates/ds-python-packages/ds/clean/sub.py:343-344 | when no other key occurs at its turn, only one pair has an effect |
| CleanSub.SubstituteSeries | inst/package_templates/ds-python-packages/ds/clean/sub.py:248-249 | the loop over a series keeps its length, and a cell is missing after it exactly when it was missing before |
| CleanSub.ReplaceSeries | inst/package_templates/ds-python-packages/ds/clean/sub.py:249 | one `str.replace` over the series keeps its length |
| CleanSub.SeriesStep | inst/package_templates/ds-python-packages/ds/clean/sub.py:248-249 | applying pair k to the output of the first k pairs gives the output of the first k+1 pairs |
| CleanSub.ReplaceDict | inst/package_templates/ds-python-packages/ds/clean/sub.py:341-346 | `_replace_dict` applies each pair in order as a literal replace-all over the output of the previous pair |
| CleanSub.OrderByLength | inst/package_templates/ds-python-packages/ds/clean/sub.py:242-246 | `order_pattern` reorders the pairs longest key first, and keeps them as a permutation of the original pairs |
| CleanSub.InsertByLength | inst/package_templates/ds-python-packages/ds/clean/sub.py:242-246 | one step of the ordering keeps the keys longest first and adds exactly the new entry |
| CleanSub.FirstInvalid | inst/package_templates/ds-python-packages/ds/clean/sub.py:234 | the key check stops at the first key that does not compile; there is none exactly when every key compiles |
| CleanSub.ManyOrder | inst/package_templates/ds-python-packages/ds/clean/sub.py:242-246 | pairs are reordered by length only for literal keys with `order_pattern`; otherwise dictionary order is kept |
| CleanSub.ManyResult | inst/package_templates/ds-python-packages/ds/clean/sub.py:224-251 | `many` raises exactly when some key does not compile, naming the first such key; otherwise missing cells stay missing and every text gets the pairs applied one after another |
| CleanSub.Many | inst/package_templates/ds-python-packages/ds/clean/sub.py:224-251 | the method with its loop computes exactly `ManyResult` |
| CleanSub.ManyFixed | inst/package_templates/ds-python-packages/ds/clean/sub.py:253-291 | `many_fixed` is `many` with literal keys and case kept by default |
| CleanSub.ManyRegex | inst/package_templates/ds-python-packages/ds/clean/sub.py:293-333 | `many_regex` is `many` with regex keys and case ignored by default |
| CleanSub.IgnoreCaseDefault | inst/package_templates/ds-python-packages/ds/clean/sub.py:224-225 | `ignore_case=None` means: ignore case exactly when `regex` is set |
| CleanSub.NotSimultaneous | inst/package_templates/ds-python-packages/ds/clean/sub.py:248-249 | the replacements are sequential: "a" to "b" to "c" |
| CleanSub.ManyLiteralExample | inst/package_templates/ds-python-packages/ds/clean/sub.py:202-209 | "I see the dog over there the2" becomes "I see then dog over truck then2": a later key rewrites earlier output |
| CleanSub.HelloWorldExample | inst/package_templates/ds-python-packages/ds/clean/sub.py:208-209 | with case kept, "world" does not match "World" |
| CleanSub.ManyIgnoreCaseExample | inst/package_templates/ds-python-packages/ds/clean/sub.py:211 | with case ignored, "Hello World" becomes "Hello hello" |
| CleanSub.OrderExample | inst/package_templates/ds-python-packages/ds/clean/sub.py:192 | `order_pattern` puts "then" before "the" |
| CleanSub.LongerKeyFirstExample | inst/package_templates/ds-python-packages/ds/clean/sub.py:192 | tried first, "the" cuts "then" up; tried after "then", it finds nothing left |
| CleanSub.LdquoAsWritten | inst/package_templates/ds-python-packages/ds/clean/sub.py:368-369 | as written, "&ldquo;" maps to the source fragment swallowed by the triple-quoted string |
| CleanSub.RdquoAsWritten | inst/package_templates/ds-python-packages/ds/clean/sub.py:368-369 | as written, "&rdquo;" has no entry |
| CleanSub.TradeAsWritten | inst/package_templates/ds-python-packages/ds/clean/sub.py:405 | as written, the second "&trade;" entry wins and "&trade;" becomes "+/-" |
| CleanSub.EscapeKeysAreEntities | inst/package_templates/ds-python-packages/ds/clean/sub.py:364-406 | every key of the escape table starts with '&' |
| CleanSub.HtmlEscapeWithoutAmpersand | inst/package_templates/ds-python-packages/ds/clean/sub.py:88-91 | `html_escape` leaves text without '&' unchanged |
| CleanSub.LdquoDecoded | inst/package_templates/ds-python-packages/ds/clean/sub.py:368 | with the table corrected, "&ldquo;" decodes to a double quote |
| CleanSub.RdquoDecoded | inst/package_templates/ds-python-packages/ds/clean/sub.py:369 | with the table corrected, "&rdquo;" decodes to a double quote |
| CleanSub.TradeDecoded | inst/package_templates/ds-python-packages/ds/clean/sub.py:367 | with the table corrected, "&trade;" decodes to "tm" |
| CleanSub.EscapeOneLevelDeep | inst/package_templates/ds-python-packages/ds/clean/sub.py:391-395 | "&lt;" is replaced before "&amp;", so "&amp;lt;" becomes "&lt;" and not "<" |
| CleanSub.Sub.constructor | inst/package_templates/ds-python-packages/ds/clean/sub.py:62-71 | a new `Sub` holds the five default patterns and the corrected escape table (see Findings) |
| CleanSub.Sub.UpdateRegex | inst/package_templates/ds-python-packages/ds/clean/sub.py:121-128 | an unknown key raises and changes nothing; an invalid pattern raises and changes nothing; otherwise only that key's pattern changes |
| CleanSub.Sub.HtmlEscape | inst/package_templates/ds-python-packages/ds/clean/sub.py:88-91 | `html_escape` applies the escape table, corrected as under Findings, to every rendered cell of the series, entry by entry in table order |
| CaseConvert.Rename | inst/package_templates/ds-python-packages/ds/clean/space_to_camel.py:288-294 | renaming keeps the number and order of the columns and sends column `i` to `f(cols[i])` |
| CaseConvert.RenameOrFail | inst/package_templates/ds-python-packages/ds/clean/space_to_camel.py:120-128 | a renaming whose name function can raise succeeds exactly when it succeeds on every column, and then keeps number and order |
| CaseConvert.MarkedFacts | inst/package_templates/ds-python-packages/ds/clean/space_to_camel.py:290 | marking capitals adds one character per capital, adds only `_`, and changes nothing in a name without capitals |
| CaseConvert.MarkedCapitals | inst/package_templates/ds-python-packages/ds/clean/space_to_camel.py:290 | every capital in the marked name has an `_` directly before it |
| CaseConvert.InsertUnderscoresFacts | inst/package_templates/ds-python-packages/ds/clean/space_to_camel.py:290 | the look-behind/look-ahead substitution puts one `_` before every capital except at the start, keeps the first character and changes nothing else |
| CaseConvert.LowerStrRemoveUnderscores | inst/package_templates/ds-python-packages/ds/clean/space_to_camel.py:290 | lower-casing commutes with removing underscores |
| CaseConvert.CamelToSnakeFacts | inst/package_templates/ds-python-packages/ds/clean/space_to_camel.py:288-294 | `camel_to_snake` leaves no capital, adds exactly one character per inner capital, otherwise only lower-cases, and keeps a capital-free name as it is; the same code is in `sneetches/utils.py` at line 33 |
| CaseConvert.CamelToSnakeExample | inst/package_templates/ds-python-packages/ds/clean/space_to_camel.py:288-294 | `HelloWorld` becomes `hello_world` |
| CaseConvert.InsertHello | inst/package_templates/ds-python-packages/ds/clean/space_to_camel.py:290 | the substitution step turns `HelloWorld` into `Hello_World` |
| CaseConvert.LowerHello | inst/package_templates/ds-python-packages/ds/clean/space_to_camel.py:290 | lower-casing `Hello_World` gives `hello_world` |
| CaseConvert.HelloMarked | inst/package_templates/ds-python-packages/ds/clean/space_to_camel.py:290 | the marking of `elloWorld` is `ello_World` |
| CaseConvert.MarkedCons | inst/package_templates/ds-python-packages/ds/clean/space_to_camel.py:290 | marking one leading character: `_` is added before it exactly when it is a capital |
| CaseConvert.MarkedNoUpper | inst/package_templates/ds-python-packages/ds/clean/space_to_camel.py:290 | a capital-free prefix passes through the marking unchanged |
| CaseConvert.SpaceToSnakeName | inst/package_templates/ds-python-packages/ds/clean/space_to_camel.py:257-258 | `space_to_snake` leaves no space and no capital, and only lower-cases a name without spaces |
| CaseConvert.SnakeToSpaceName | inst/package_templates/ds-python-packages/ds/clean/space_to_camel.py:226-227 | `snake_to_space` leaves no `_` and keeps a name without `_` as it is |
| CaseConvert.CamelRunAsWritten | inst/package_templates/ds-python-packages/ds/clean/space_to_camel.py:192-196 | as written, a lower-case letter followed by a run of capitals keeps only the last capital of the run, after one space |
| CaseConvert.CamelToSpaceNameAsWritten | inst/package_templates/ds-python-packages/ds/clean/space_to_camel.py:194 | the as-written `camel_to_space` keeps the first character of a non-empty name |
| CaseConvert.CamelToSpaceAgrees | inst/package_templates/ds-python-packages/ds/clean/space_to_camel.py:194 | the as-written and the corrected rule give the same name when no lower-case letter is followed by two capitals |
| CaseConvert.CamelToSpaceDropsLetters | inst/package_templates/ds-python-packages/ds/clean/space_to_camel.py:194 | as written, `myID` becomes `my D`: the capital `I` is lost |
| CaseConvert.CamelToSpaceKeepsLetters | inst/package_templates/ds-python-packages/ds/clean/space_to_camel.py:192-196 | the corrected `camel_to_space` only adds spaces and keeps the first character |
| CaseConvert.CamelToSpaceSplitsWords | inst/package_templates/ds-python-packages/ds/clean/space_to_camel.py:194 | after `camel_to_space` as written no lower-case letter stands directly before a capital |
| CaseConvert.CamelToSpaceChars | inst/package_templates/ds-python-packages/ds/clean/space_to_camel.py:194 | every character of the as-written result is a space or a character of the name |
| CaseConvert.TitleScanChars | inst/package_templates/ds-python-packages/ds/clean/space_to_camel.py:298-303 | the `_to_title` scan keeps the length and upper-cases exactly the letters at the start or after whitespace |
| CaseConvert.TitleSpaceRun | inst/package_templates/ds-python-packages/ds/clean/space_to_camel.py:298-303 | the same, for a name that starts with whitespace |
| CaseConvert.TitleJoin | inst/package_templates/ds-python-packages/ds/clean/space_to_camel.py:298-303 | the same, for a scan split into a handled prefix and the rest |
| CaseConvert.TitleJoinAt | inst/package_templates/ds-python-packages/ds/clean/space_to_camel.py:298-303 | one character past the handled prefix comes from the scan of the rest |
| CaseConvert.TitleKeeps | inst/package_templates/ds-python-packages/ds/clean/space_to_camel.py:298-303 | `_to_title` keeps the length, changes only lower-case letters into capitals, and leaves no lower-case letter at the start of a word |
| CaseConvert.OneDown | inst/package_templates/ds-python-packages/ds/clean/space_to_camel.py:310-314 | `_onedown` lower-cases only the first character when asked, fails on an empty name when asked, and otherwise returns the name |
| CaseConvert.ToSnakeFacts | inst/package_templates/ds-python-packages/ds/clean/space_to_camel.py:25-26 | `to_snake` leaves no space, no capital and no doubled `_` |
| CaseConvert.ToSnakeIdempotent | inst/package_templates/ds-python-packages/ds/clean/space_to_camel.py:5-27 | applying `to_snake` twice is the same as once |
| CaseConvert.SpacedFacts | inst/package_templates/ds-python-packages/ds/clean/space_to_camel.py:88-89 | after `snake_to_space`, the as-written `camel_to_space` and collapsing whitespace there is no `_`, no doubled whitespace and only plain spaces |
| CaseConvert.ToSpaceFacts | inst/package_templates/ds-python-packages/ds/clean/space_to_camel.py:88-92 | `to_space`, built on the as-written `camel_to_space`, leaves no `_`, no doubled whitespace and only plain spaces; with `upper` every word starts with a non-lower-case character |
| CaseConvert.TitledHead | inst/package_templates/ds-python-packages/ds/clean/space_to_camel.py:306-307 | the first character left after `_to_title_camel` is not lower-case |
| CaseConvert.ToCamelFacts | inst/package_templates/ds-python-packages/ds/clean/space_to_camel.py:54-59 | `to_camel` leaves no whitespace and no `_`; its head is not lower-case with `upper` and not a capital without it; only an empty name without `upper` fails |
| CaseConvert.PyTitledHead | inst/package_templates/ds-python-packages/ds/clean/space_to_camel.py:123 | the first character left after `title()` and removing separators is not lower-case |
| CaseConvert.SpaceToCamelFacts | inst/package_templates/ds-python-packages/ds/clean/space_to_camel.py:120-128 | `space_to_camel` leaves no space, `_` or `-`; the head is lower-cased exactly when `upper` is unset; only an empty name without `upper` fails |
| CaseConvert.SnakeToCamelFacts | inst/package_templates/ds-python-packages/ds/clean/space_to_camel.py:156-164 | `snake_to_camel` leaves no `_`, space or `-`; the head is lower-cased exactly when `upper` is unset; only an empty name without `upper` fails |
| TitleCase.SmallWordsShape | inst/package_templates/ds-python-packages/ds/clean/title_case.py:18 | every small word of the pattern is one capital followed by at most three lower-case letters |
| TitleCase.TitleCaseSeries | inst/package_templates/ds-python-packages/ds/clean/title_case.py:15-21 | `title_case` keeps the length of the series, keeps missing entries missing and headline-cases every text entry |
| TitleCase.TitleCaseChars | inst/package_templates/ds-python-packages/ds/clean/title_case.py:16-21 | character by character: non-letters are kept, a letter after a letter is lower-case, a word start is a capital unless it starts a small word right after whitespace, and the first letter of the text is a capital |
| TitleCase.PyTitleOfRecased | inst/package_templates/ds-python-packages/ds/clean/title_case.py:16 | `title()` does not depend on the case of its input |
| TitleCase.PyTitleTwice | inst/package_templates/ds-python-packages/ds/clean/title_case.py:16 | `title()` applied twice is `title()` applied once |
| TitleCase.TitleCaseIdempotent | inst/package_templates/ds-python-packages/ds/clean/title_case.py:15-21 | headline-casing a headline changes nothing |
| TitleCase.PyTitleConcat | inst/package_templates/ds-python-packages/ds/clean/title_case.py:16 | `title()` works piece by piece where a letter does not touch a letter |
| TitleCase.WordIs | inst/package_templates/ds-python-packages/ds/clean/title_case.py:18 | the `\b` boundary: the word at a position ends where word characters end |
| TitleCase.TitleCaseConcat | inst/package_templates/ds-python-packages/ds/clean/title_case.py:15-21 | headline casing works piece by piece where the next piece does not begin with a word character |
| TitleCase.TitleCaseWithConcat | inst/package_templates/ds-python-packages/ds/clean/title_case.py:16-19 | the same, for any set of small words |
| TitleCase.LowerWordsConcat | inst/package_templates/ds-python-packages/ds/clean/title_case.py:17-19 | the substitution works piece by piece |
| TitleCase.FirstWord | inst/package_templates/ds-python-packages/ds/clean/title_case.py:18 | the look-behind needs whitespace, so a text without whitespace is only `title()`-cased |
| TitleCase.SpacedWordLowered | inst/package_templates/ds-python-packages/ds/clean/title_case.py:18-19 | a word after whitespace loses the capital of its first letter exactly when it is a small word |
| TitleCase.SpacedWord | inst/package_templates/ds-python-packages/ds/clean/title_case.py:16-19 | a word of letters after a space is title-cased, then lower-cased at its first letter exactly when it is a small word |
| TitleCase.SpacedLower | inst/package_templates/ds-python-packages/ds/clean/title_case.py:16-19 | a lower-case small word after a space comes out as it went in; any other word is capitalised |
| TitleCase.OftenKept | inst/package_templates/ds-python-packages/ds/clean/title_case.py:18 | "often" is not lowered although it begins with the small word "Of", because `\b` does not follow "Of" |
| TitleCase.FarmerWith | inst/package_templates/ds-python-packages/ds/clean/title_case.py:12-13 | "the farmer and the dell" becomes "The Farmer and the Dell" for any small-word set that sorts its words as the pattern does |
| TitleCase.SeeWith | inst/package_templates/ds-python-packages/ds/clean/title_case.py:12-13 | "I see to see him go After him" becomes "I See to See Him Go After Him" for any such set |
| TitleCase.FarmerKept | inst/package_templates/ds-python-packages/tests/test_title_case.py:11-14 | `title_case` gives the expected "The Farmer and the Dell" |
| TitleCase.SeeKept | inst/package_templates/ds-python-packages/tests/test_title_case.py:11-14 | `title_case` gives the expected "I See to See Him Go After Him" |
| TitleCase.PyTitleWord | inst/package_templates/ds-python-packages/ds/clean/title_case.py:16 | `title()` of a lower-case word capitalises only its first letter |
| Flatten.Kept | inst/package_templates/ds-python-packages/ds/clean/flatten.py:157 | the comprehension keeps only truthy entries, and no more entries than there were |
| Flatten.KeptConcat | inst/package_templates/ds-python-packages/ds/clean/flatten.py:157-158 | dropping the falsy entries before `sum(m, [])` does not change the concatenation |
| Flatten.ConcatEmpty | inst/package_templates/ds-python-packages/ds/clean/flatten.py:157-161 | the concatenation is empty exactly when every entry is falsy |
| Flatten.FirstIndex | inst/package_templates/ds-python-packages/ds/clean/flatten.py:164 | the index found holds the value and no earlier element does |
| Flatten.Dedup | inst/package_templates/ds-python-packages/ds/clean/flatten.py:164 | `dict.fromkeys` keeps exactly the values of the list, each once, and never lengthens it |
| Flatten.DedupOrder | inst/package_templates/ds-python-packages/ds/clean/flatten.py:164 | the kept values come in the order of their first occurrences |
| Flatten.Insert | inst/package_templates/ds-python-packages/ds/clean/flatten.py:167 | inserting adds one element, and the first element is the new one or the old first |
| Flatten.InsertPermutation | inst/package_templates/ds-python-packages/ds/clean/flatten.py:167 | one insertion step of the sort adds exactly the value inserted |
| Flatten.InsertSorted | inst/package_templates/ds-python-packages/ds/clean/flatten.py:167 | inserting into an ascending list keeps it ascending |
| Flatten.InsertDistinct | inst/package_templates/ds-python-packages/ds/clean/flatten.py:167 | inserting a new value into a list without duplicates leaves none |
| Flatten.Sort | inst/package_templates/ds-python-packages/ds/clean/flatten.py:167 | `sorted` keeps the length |
| Flatten.SortPermutation | inst/package_templates/ds-python-packages/ds/clean/flatten.py:167 | `sorted` returns a permutation of its argument |
| Flatten.SortSorted | inst/package_templates/ds-python-packages/ds/clean/flatten.py:167 | `sorted` returns its values in ascending order |
| Flatten.SortedDistinct | inst/package_templates/ds-python-packages/ds/clean/flatten.py:163-167 | sorting a list without duplicates leaves none |
| Flatten.FlattenFacts | inst/package_templates/ds-python-packages/ds/clean/flatten.py:157-169 | `flatten` returns `None` exactly when every entry is falsy; otherwise it holds exactly the elements of the entries, all of them with their multiplicities without `unique`, in column order without `sort`, without duplicates with `unique`, ascending with `sort` |
| Flatten.FlattenUniqueOrder | inst/package_templates/ds-python-packages/ds/clean/flatten.py:163-164 | with `unique` and without `sort`, each value stays where it first occurs |
| Flatten.FlattenGroups | inst/package_templates/ds-python-packages/tests/test_flatten_unnest.py:17-36 | `groupby(...).agg(flatten)` flattens every group on its own and keeps the groups in order |
| Flatten.ExplodeCell | inst/package_templates/ds-python-packages/tests/test_flatten_unnest.py:20 | `explode` turns a list into one row per element and `None` or `[]` into one missing row |
| Flatten.FlattenOf | inst/package_templates/ds-python-packages/ds/clean/flatten.py:157-169 | `flatten` once the concatenation is known and non-empty |
| Flatten.FlattenTestUniqueSorted | inst/package_templates/ds-python-packages/tests/test_flatten_unnest.py:38-40 | unique and sorted: the exploded column is 1, 2, missing, 1, 2, 3, 3, 4, 5, 5 |
| Flatten.FlattenTestDupedSorted | inst/package_templates/ds-python-packages/tests/test_flatten_unnest.py:42-44 | duplicates kept, sorted: 1, 1, 2, missing, 1, 2, 3, 3, 4, 5, 5 |
| Flatten.FlattenTestDupedUnsorted | inst/package_templates/ds-python-packages/tests/test_flatten_unnest.py:46-48 | duplicates kept, unsorted: 1, 2, 1, missing, 1, 2, 3, 4, 5, 3, 5 |
| Flatten.Rows | inst/package_templates/ds-python-packages/ds/clean/flatten.py:73-81 | a non-empty list stays as it is; an empty list gives one missing row, or none with `drop`; any other value gives one row |
| Flatten.Repeat | inst/package_templates/ds-python-packages/ds/clean/flatten.py:84 | `[k] * n` is `n` copies of `k` |
| Flatten.Unnest | inst/package_templates/ds-python-packages/ds/clean/flatten.py:82-87 | `unnest` fails exactly when fewer than two names are given; otherwise the value column is named `nms[1]`, and with two different names the key column `nms[0]` comes first |
| Flatten.ColumnsAligned | inst/package_templates/ds-python-packages/ds/clean/flatten.py:84-85 | the key and value columns have one entry per row |
| Flatten.ColumnsConcat | inst/package_templates/ds-python-packages/ds/clean/flatten.py:84-85 | rows follow dictionary order, entry after entry |
| Flatten.EntryRows | inst/package_templates/ds-python-packages/ds/clean/flatten.py:84-85 | one entry gives its key once for each row of its value |
| Flatten.DropRows | inst/package_templates/ds-python-packages/ds/clean/flatten.py:73 | `drop=True` loses exactly one row for each empty list |
| Flatten.UnnestTest | inst/package_templates/ds-python-packages/tests/test_flatten_unnest.py:50-56 | the test dictionary gives keys a, a, a, b, b, c, d and values 1, 2, 3, 3, 5, 1, missing |
| Flatten.UnnestKeepExample | inst/package_templates/ds-python-packages/ds/clean/flatten.py:143-144 | in the docstring example the empty list of `y` gives a missing row |
| Flatten.UnnestDropExample | inst/package_templates/ds-python-packages/ds/clean/flatten.py:143-145 | with `drop=True` the row of `y` is gone |
| NormSex.Normalize | inst/package_templates/sneetches/sneetches/normalize.py:145-152 | `normalize` keeps the length and order; a missing entry stays missing; every other entry gets the label of its lower-cased `str`, "Unknown" by default; the same code is in the documentation template (`doc_template/doc_test.py`) at lines 131-148 |
| NormSex.NormalizeCaseInsensitive | inst/package_templates/sneetches/sneetches/normalize.py:145-152 | only the lower-cased text matters, and every label is one of Male, Female and Unknown |
| NormSex.NormalizeUncommonLabels | inst/package_templates/sneetches/tests/test_normalize.py:23-39 | "man", "men", "women", "woman", "boy" give Male, Unknown, Unknown, Female, Unknown |
| NormSex.NormalizeOddLabels | inst/package_templates/sneetches/tests/test_normalize.py:23-39 | "girl", "♂", 3, "" and "-" all give Unknown |
| NormSex.TextAt | inst/package_templates/sneetches/sneetches/normalize.py:145-152 | an entry already in lower case is labelled by its own text |
| NormSex.DropNormed | inst/package_templates/sneetches/sneetches/normalize.py:170 | a requested "normed" is dropped and every other requested name kept |
| NormSex.Unavailable | inst/package_templates/sneetches/sneetches/normalize.py:172-173 | the names listed in the error are exactly the requested names that are not formats |
| NormSex.ColIndex | inst/package_templates/sneetches/sneetches/normalize.py:179 | each format names one column of the table after `normed` |
| NormSex.FindRow | inst/package_templates/sneetches/sneetches/normalize.py:181 | the join finds the table row whose key matches, or reports that none does |
| NormSex.JoinRow | inst/package_templates/sneetches/sneetches/normalize.py:181 | one row of the left join: the value, then each requested cell of the matching table row, or missing cells when no row matches |
| NormSex.MapTo | inst/package_templates/sneetches/sneetches/normalize.py:164-181 | `map_to` fails exactly when a requested name other than `normed` is not a format, with the message listing all of them; otherwise one row per input in input order, with `normed` and the requested columns (all with `to=None`); the same code is in the documentation template (`doc_template/doc_test.py`) at lines 161-182 |
| NormSex.ToFormat | inst/package_templates/sneetches/sneetches/normalize.py:184-187 | `to_<c>` is column `c` of `map_to(x, [c])`, one cell per input; the same code is in the documentation template (`doc_template/doc_test.py`) at lines 185-189 |
| NormSex.TableKeysDistinct | inst/package_templates/sneetches/sneetches/normalize.py:124-129 | the `normed` keys are distinct and every table row is complete, so the left join yields one row per value; the same code is in the documentation template (`doc_template/doc_test.py`) at lines 107-114 |
| NormSex.NormalizedValuesJoin | inst/package_templates/sneetches/sneetches/normalize.py:124-152 | every normalised, non-missing value finds its table row: its sign is never missing, and its strict label is missing exactly for Unknown |
| NormSex.ScalarToIsSplit | inst/package_templates/sneetches/sneetches/normalize.py:166-173 | a scalar `to` such as "sign" is split into characters and rejected as 's', 'i', 'g', 'n' |
| NormSex.AccessorNames | inst/package_templates/sneetches/sneetches/normalize.py:132-133 | the constructor names one accessor `to_<c>` for every column after the first; the same code is in the documentation template (`doc_template/doc_test.py`) at lines 117-118 |
| NormSex.AccessorNamesDistinct | inst/package_templates/sneetches/tests/test_normalize.py:14-21 | distinct columns give distinct accessor names |
| NormRace.NoiseAt | inst/package_templates/sneetches/sneetches/normalize.py:287 | the noise match at a position fits in the text, and a hyphen is always a match |
| NormRace.RemoveNoiseFrom | inst/package_templates/sneetches/sneetches/normalize.py:287 | one left-to-right pass of the noise substitution never lengthens the text |
| NormRace.NoHyphenLeft | inst/package_templates/sneetches/sneetches/normalize.py:287 | no hyphen survives the noise substitution |
| NormRace.CopyQuiet | inst/package_templates/sneetches/sneetches/normalize.py:287 | a stretch where no noise can start is copied unchanged |
| NormRace.StripEnd | inst/package_templates/sneetches/sneetches/normalize.py:287 | dropping trailing whitespace leaves a prefix that does not end in whitespace |
| NormRace.Strip | inst/package_templates/sneetches/sneetches/normalize.py:287 | `strip()` leaves no whitespace at either edge and never lengthens the text |
| NormRace.StripKeeps | inst/package_templates/sneetches/sneetches/normalize.py:287 | every character `strip()` keeps comes from its input |
| NormRace.Clean | inst/package_templates/sneetches/sneetches/normalize.py:287 | noise removal then `strip()` leaves no hyphen and no edge whitespace |
| NormRace.Lookup | inst/package_templates/sneetches/sneetches/normalize.py:266-288 | a value that is not a key of the table is kept as it is |
| NormRace.OrderedNeedsBoth | inst/package_templates/sneetches/sneetches/normalize.py:291 | a pattern such as `american.*indian` matches only text holding both words |
| NormRace.Count | inst/package_templates/sneetches/sneetches/normalize.py:290-294 | an entry passes at most five category tests |
| NormRace.LabelsAreKnown | inst/package_templates/sneetches/sneetches/normalize.py:308-313 | no category label contains "unknown", so the last write never overrides a relabelled entry |
| NormRace.NoU | inst/package_templates/sneetches/sneetches/normalize.py:313 | a text without the letter u does not contain "unknown" |
| NormRace.AmbiguousKeepsText | inst/package_templates/sneetches/sneetches/normalize.py:296-306 | an entry matching the multi test or two or more categories is never relabelled to a category: it keeps its cleaned text, or becomes "unknown" when that contains "unknown" |
| NormRace.SingleCategoryRelabelled | inst/package_templates/sneetches/sneetches/normalize.py:302-312 | an entry in exactly one category and not multi gets that category's label |
| NormRace.DecideSingle | inst/package_templates/sneetches/sneetches/normalize.py:308-312 | an unambiguous entry is decided by its label alone |
| NormRace.UnmatchedKeepsText | inst/package_templates/sneetches/sneetches/normalize.py:313 | an entry matching no category keeps its cleaned text unless it contains "unknown" |
| NormRace.AssignAt | inst/package_templates/sneetches/sneetches/normalize.py:308-313 | `x.loc[idx] = v` writes `v` at every index of `idx` and leaves every other entry alone |
| NormRace.MultiplicityIsCount | inst/package_templates/sneetches/sneetches/normalize.py:298-299 | in the concatenated index lists an index occurs once for each set that holds it |
| NormRace.CategoryIndices | inst/package_templates/sneetches/sneetches/normalize.py:290-306 | each final index set holds exactly the entries that pass its test and are neither multi nor in two or more sets |
| NormRace.Relabel | inst/package_templates/sneetches/sneetches/normalize.py:302-313 | after the writes every entry holds the decision for its tests and its cleaned text |
| NormRace.Normalize | inst/package_templates/sneetches/sneetches/normalize.py:263-315 | `normalize` keeps length and order and gives every entry the decision for its rendered, lower-cased, cleaned and looked-up text |
| NormRaceExamples.PreparedPlain | inst/package_templates/sneetches/sneetches/normalize.py:264-288 | text without noise, already lower-case and stripped, and not in the table, is prepared as itself |
| NormRaceExamples.PreparedFrom | inst/package_templates/sneetches/sneetches/normalize.py:264-288 | lower-case text whose noise removal gives a stripped value outside the table is prepared as that value |
| NormRaceExamples.PreparedBlack | inst/package_templates/sneetches/sneetches/normalize.py:287 | "black (non-hispanic origin)" is cleaned to "black ()" in one pass |
| NormRaceExamples.BlackEntry | inst/package_templates/sneetches/tests/test_normalize.py:96-103 | "black (non-hispanic origin)" gives "black" |
| NormRaceExamples.AlaskaEntry | inst/package_templates/sneetches/tests/test_normalize.py:96-103 | "american indian/alaska native" gives "american native" |
| NormRaceExamples.HawaiianEntry | inst/package_templates/sneetches/tests/test_normalize.py:96-103 | "native hawaiian pacific island" gives "hawaiian or pacific islander" |
| NormRaceExamples.TwoEntry | inst/package_templates/sneetches/tests/test_normalize.py:96-103 | "238" matches the multi test and is kept |
| NormRaceExamples.IntegerEntry | inst/package_templates/sneetches/tests/test_normalize.py:96-103 | the integer 184 is rendered as "184" and kept |
| NormRaceExamples.EgyptianEntry | inst/package_templates/sneetches/tests/test_normalize.py:96-103 | "egyptian" matches no test and is kept |
| Database.EscapeFromRoundTrip | inst/package_templates/ds-python-packages/ds/connect/database.py:501 | reading the escaped rest of a text back gives that rest, for text without adjacent quotes |
| Database.SqlEscapeRoundTrip | inst/package_templates/ds-python-packages/ds/connect/database.py:501 | text without adjacent quotes is read back exactly from its SQL literal |
| Database.EscapeFromKeeps | inst/package_templates/ds-python-packages/ds/connect/database.py:501 | a stretch without a lone quote is copied unchanged |
| Database.SqlEscapeKeepsPairs | inst/package_templates/ds-python-packages/ds/connect/database.py:501 | text whose quotes are all already paired, such as `''`, is left untouched |
| Database.PyStr | inst/package_templates/ds-python-packages/ds/connect/database.py:501 | `str` of a missing element is "None", and of a text element the text itself |
| Database.AsSqlList | inst/package_templates/ds-python-packages/ds/connect/database.py:498-503 | the result is wrapped in parentheses, and an empty list gives "()" |
| Database.AsSqlListExample | inst/package_templates/ds-python-packages/ds/connect/database.py:75 | `as_sql_list(['d', "don't do it"])` is `('d', 'don''t do it')` |
| Database.AsSqlListPair | inst/package_templates/ds-python-packages/ds/connect/database.py:499-503 | two elements are each escaped, quoted and joined with ", " |
| Database.EscapeExample | inst/package_templates/ds-python-packages/ds/connect/database.py:501 | the lone quote of "don't do it" is doubled |
| Database.Get | inst/package_templates/ds-python-packages/ds/connect/database.py:167 | `credentials[k]` is the value stored under `k` |
| Database.Missing | inst/package_templates/ds-python-packages/ds/connect/database.py:134-138 | the missing fields are at most the expected ones |
| Database.MissingMembers | inst/package_templates/ds-python-packages/ds/connect/database.py:134-138 | a field is reported missing exactly when it is expected and absent |
| Database.MissingInOrder | inst/package_templates/ds-python-packages/ds/connect/database.py:136-138 | missing fields are listed in the order they are expected |
| Database.LastIndex | inst/package_templates/ds-python-packages/ds/connect/database.py:167 | the index found holds the character and no later one before the bound does; none found means none there |
| Database.LineEnd | inst/package_templates/ds-python-packages/ds/connect/database.py:167 | the first line ends at the first newline |
| Database.DropAccount | inst/package_templates/ds-python-packages/ds/connect/database.py:166-168 | removing the account part leaves a suffix of the user name |
| Database.TenantOfAddress | inst/package_templates/ds-python-packages/ds/connect/database.py:166-168 | for a user `name@domain.com` the tenant is the lower-cased domain |
| Database.Present | inst/package_templates/ds-python-packages/ds/connect/database.py:135 | no missing field means every expected field is present |
| Database.TokenConnection | inst/package_templates/ds-python-packages/ds/connect/database.py:151-193 | the token branch fails exactly when one of its four fields is absent, with the message listing them; otherwise a token connection with the tenant of the user |
| Database.MfaConnection | inst/package_templates/ds-python-packages/ds/connect/database.py:195-234 | the MFA branch fails exactly when one of its six fields is absent; otherwise an MFA connection without a tenant |
| Database.ConnectWith | inst/package_templates/ds-python-packages/ds/connect/database.py:122-234 | with credentials: missing fields fail first, then an `other` not starting with ";"; a connection is a token connection exactly when `token` is set or the platform is Mac |
| Database.Connect | inst/package_templates/ds-python-packages/ds/connect/database.py:114-256 | without credentials the constructor succeeds exactly with a path on Windows that exists, giving the local Access connection; otherwise it fails with the path or the no-source message |
| Database.SecondChecks | inst/package_templates/ds-python-packages/ds/connect/database.py:153-215 | once the seven fields are present the token branch can miss only `TenantId`, and the MFA check never fails |
| Database.MaskPassword | inst/package_templates/ds-python-packages/ds/connect/database.py:901-904 | `.` does not match a newline, so a newline before the last character leaves the text unmasked |
| Database.FirstPwdKey | inst/package_templates/ds-python-packages/ds/connect/database.py:903 | the lazy prefix stops at the first `PWD=` |
| Database.FirstAuthKey | inst/package_templates/ds-python-packages/ds/connect/database.py:903 | the lazy password stops at the first `;AUTHENTICATION=` |
| Database.MaskLineHidesPassword | inst/package_templates/ds-python-packages/ds/connect/database.py:901-904 | the password between `PWD=` and `;AUTHENTICATION=` becomes `*****` and everything else is kept |
| Database.NoNewlineInMfa | inst/package_templates/ds-python-packages/ds/connect/database.py:221-231 | an MFA connection string built from one-line fields is one line |
| Database.MaskMfaConnString | inst/package_templates/ds-python-packages/ds/connect/database.py:221-231 | the representation of an MFA connection string shows every field but the password |
| Database.MaskWithoutPassword | inst/package_templates/ds-python-packages/ds/connect/database.py:901-904 | a string without `PWD=` is shown as it is |
| Database.Repr | inst/package_templates/ds-python-packages/ds/connect/database.py:258-264 | the representation starts with a newline |
| Database.ReprHidesPassword | inst/package_templates/ds-python-packages/ds/connect/database.py:258-264 | two credential dictionaries that differ only in the password print alike |
| Database.ReprShowsOthers | inst/package_templates/ds-python-packages/ds/connect/database.py:258-264 | every other value appears on its line after its key |
| Database.Int32LE | inst/package_templates/ds-python-packages/ds/connect/database.py:1142 | `struct.pack("=i", v)` is four bytes |
| Database.Int32RoundTrip | inst/package_templates/ds-python-packages/ds/connect/database.py:1142 | the four bytes decode back to `v` |
| Database.TokenStruct | inst/package_templates/ds-python-packages/ds/connect/database.py:1137-1142 | the token struct is the doubled length in four bytes, then every token byte followed by a zero byte |
| Database.Widen | inst/package_templates/ds-python-packages/ds/connect/database.py:1137-1141 | widening doubles the length, placing a zero byte after every token byte |
| Database.TokenRoundTrip | inst/package_templates/ds-python-packages/ds/connect/database.py:1132-1143 | the token is read back from its struct |
| Database.PrepareToken | inst/package_templates/ds-python-packages/ds/connect/database.py:1132-1143 | `_prepare_token` fails exactly when the widened length does not fit a signed 32-bit integer, and otherwise builds the token struct |
| Database.Pack | inst/package_templates/ds-python-packages/ds/connect/database.py:1142 | packing the length before the widened token gives the token struct, failing exactly on an overlong token |
| Database.WidenAppend | inst/package_templates/ds-python-packages/ds/connect/database.py:1138-1140 | each loop step appends the byte and a zero byte |
| SqlQueries.SqlTypes | inst/package_templates/ds-python-packages/ds/connect/database.py:981-999 | `sql_type` gives one SQL type per dtype, in order |
| SqlQueries.SqlTypeClasses | inst/package_templates/ds-python-packages/ds/connect/database.py:984-995 | floats get `NUMERIC(32, 5)`, integers and booleans `INT`, the two datetime dtypes `DATETIME`, and every other dtype `VARCHAR({})` |
| SqlQueries.MaxLen | inst/package_templates/ds-python-packages/ds/connect/database.py:960-970 | the longest present cell: missing exactly when no cell is present, at least every present cell's length, and reached by one of them |
| SqlQueries.Width | inst/package_templates/ds-python-packages/ds/connect/database.py:971-979 | a column gets a width exactly when it is an object column with a present cell |
| SqlQueries.WidthBounds | inst/package_templates/ds-python-packages/ds/connect/database.py:971-979 | a width is `Max` exactly when the longest cell plus 200 reaches 7000, and is otherwise a number from 200 to 6999 that fits every cell with 200 to spare |
| SqlQueries.ColumnType | inst/package_templates/ds-python-packages/ds/connect/database.py:1000-1002 | a column with a width is `VARCHAR(width)`, any other keeps its SQL type |
| SqlQueries.Broadcast | inst/package_templates/ds-python-packages/ds/connect/database.py:1007-1008 | a single `nullable` flag stands for every column; any other list is used as it is |
| SqlQueries.NullSuffixes | inst/package_templates/ds-python-packages/ds/connect/database.py:1010-1017 | one suffix per flag: nothing for true, ` NOT NULL` for false |
| SqlQueries.SchemaLines | inst/package_templates/ds-python-packages/ds/connect/database.py:1023-1027 | `zip` gives as many column lines as the shorter list, each built from its column and flag |
| SqlQueries.OneLinePerColumn | inst/package_templates/ds-python-packages/ds/connect/database.py:1007-1027 | with a single flag every column gets its line, in column order |
| SqlQueries.NotNullMeansFalse | inst/package_templates/ds-python-packages/ds/connect/database.py:1012-1015 | a line ends in ` NOT NULL` exactly when its column's flag is false |
| SqlQueries.SchemaQuery | inst/package_templates/ds-python-packages/ds/connect/database.py:1004-1030 | with no extra clause the corrected statement is the statement as written |
| SqlQueries.SchemaShape | inst/package_templates/ds-python-packages/ds/connect/database.py:1019-1030 | the statement starts with the command, name and second command and ends with the closing line |
| SqlQueries.AdditionalOnOwnLine | inst/package_templates/ds-python-packages/ds/connect/database.py:1004-1005 | corrected: an extra clause stands on its own line right before the closing line |
| SqlQueries.AdditionalGlued | inst/package_templates/ds-python-packages/ds/connect/database.py:1004-1005 | as written the new text is discarded, so the extra clause is glued to the last column line, one character shorter |
| SqlQueries.MakeSchemaQuery | inst/package_templates/ds-python-packages/ds/connect/database.py:999-1032 | the loops of `_make_sql_schema_query` build the corrected statement |
| SqlQueries.RowTuple | inst/package_templates/ds-python-packages/ds/connect/database.py:1058-1069 | a row is rendered in parentheses |
| SqlQueries.BuildTuples | inst/package_templates/ds-python-packages/ds/connect/database.py:1056-1069 | one tuple per data-frame row, in order |
| SqlQueries.Tuples | inst/package_templates/ds-python-packages/ds/connect/database.py:1056-1069 | one tuple per row, each in parentheses |
| SqlQueries.MarkedLength | inst/package_templates/ds-python-packages/ds/connect/database.py:1071-1076 | each inserted marker adds one element |
| SqlQueries.InsertNextMarker | inst/package_templates/ds-python-packages/ds/connect/database.py:1073-1076 | inserting at `b + k*(b+1)` puts the next marker after the next block of `b` rows |
| SqlQueries.ExitByRange | inst/package_templates/ds-python-packages/ds/connect/database.py:1073 | the loop ends by running out of `range` without a trailing marker |
| SqlQueries.ExitByBreak | inst/package_templates/ds-python-packages/ds/connect/database.py:1074-1075 | the loop ends at `break` when the index equals the length |
| SqlQueries.ExitByAppend | inst/package_templates/ds-python-packages/ds/connect/database.py:1076 | an index past the end makes `insert` append a trailing marker |
| SqlQueries.InsertMarkersAsWritten | inst/package_templates/ds-python-packages/ds/connect/database.py:1071-1076 | the batching as written, for any integer `break_length`: it raises exactly for -1 (`range` with step 0), leaves the rows unchanged below -1 (an empty range), and otherwise builds its as-written layout |
| SqlQueries.MarkBlocks | inst/package_templates/ds-python-packages/ds/connect/database.py:1072-1076 | the loop, for a block size of zero or more, builds the as-written layout |
| SqlQueries.ChunkedIsMarked | inst/package_templates/ds-python-packages/ds/connect/database.py:1071-1076 | the intended layout is the rows with a marker after every full block but the last |
| SqlQueries.InsertMarkers | inst/package_templates/ds-python-packages/ds/connect/database.py:1071-1076 | the batching loop with the intended bound builds the intended layout |
| SqlQueries.SplitBlock | inst/package_templates/ds-python-packages/ds/connect/database.py:1080-1082 | a block followed by a marker is one statement |
| SqlQueries.ChunkedBlocks | inst/package_templates/ds-python-packages/ds/connect/database.py:1071-1082 | with the intended bound every `insert` statement gets between one and `break_length` rows, and the statements hold all the rows in order |
| SqlQueries.NoMarkersWhenShort | inst/package_templates/ds-python-packages/ds/connect/database.py:1072 | up to `break_length` rows need no marker |
| SqlQueries.AsWrittenTrailingMarker | inst/package_templates/ds-python-packages/ds/connect/database.py:1072-1076 | as written, `b + 2` rows (1002 with the default 1000) end with a marker, so the last `insert` statement has no rows |
| SqlQueries.AsWrittenOversizedBlock | inst/package_templates/ds-python-packages/ds/connect/database.py:1072-1076 | as written, 5 rows with `break_length` 1 leave 2 rows in the last statement |
| SqlQueries.MakeRowsQuery | inst/package_templates/ds-python-packages/ds/connect/database.py:1035-1084 | `_make_sql_table_rows_query` renders every row and batches them with the intended bound |
| SqlQueries.MakeRowsQueryAsWritten | inst/package_templates/ds-python-packages/ds/connect/database.py:1035-1084 | `_make_sql_table_rows_query` as written: it raises exactly for `break_length` -1; below that every row goes into one statement; otherwise the rendered rows, batched by the as-written loop, joined and cleaned by the two substitutions |
| SqlQueries.AsWrittenTrailingText | inst/package_templates/ds-python-packages/ds/connect/database.py:1071-1082 | as written, with `b + 2` rows (1002 with the default 1000) the query ends with `insert into [name] valuesDELETEME123321`: an `insert` with no rows and the marker text left in the SQL |
| Text.Lower | inst/package_templates/ds-python-packages/ds/clean/space_to_camel.py:290 | ASCII `lower()` of one character leaves no capital, keeps letters letters and touches only capitals |
| Text.Upper | inst/package_templates/ds-python-packages/ds/clean/space_to_camel.py:301 | ASCII `upper()` of one character leaves no lower-case letter, keeps letters letters and touches only lower-case letters |
| Text.LowerStr | inst/package_templates/ds-python-packages/ds/clean/space_to_camel.py:290 | `str.lower()` keeps the length and lowers every character |
| Text.LowerStrNoUpper | inst/package_templates/ds-python-packages/ds/clean/space_to_camel.py:290 | text without capitals is its own lower case |
| Text.PyTitle | inst/package_templates/ds-python-packages/ds/clean/space_to_camel.py:123 | `str.title()` keeps the length |
| Text.PyTitleKeeps | inst/package_templates/ds-python-packages/ds/clean/space_to_camel.py:123 | `title()` changes only letters, and only their case |
| Text.SubRunsNoRun | inst/package_templates/ds-python-packages/ds/clean/space_to_camel.py:26 | a run substitution leaves text without the class unchanged |
| Text.SubRunsRemovesClass | inst/package_templates/ds-python-packages/ds/clean/space_to_camel.py:227 | when the replacement holds no class character, neither does the result |
| Text.SubRunsChars | inst/package_templates/ds-python-packages/ds/clean/space_to_camel.py:258 | every character of the result comes from the text or the replacement |
| Text.SubRunsSingle | inst/package_templates/ds-python-packages/ds/clean/space_to_camel.py:26 | replacing every run by one class character leaves no two of them side by side |
| Text.SubRunsSingleFixed | inst/package_templates/ds-python-packages/ds/clean/space_to_camel.py:26 | text without doubled class characters, all equal to the replacement, is a fixed point |
| Text.RemoveAll | inst/package_templates/ds-python-packages/ds/clean/space_to_camel.py:307 | removing a class leaves none of it, never lengthens the text, and keeps text without it |
| Text.RemoveAllConcat | inst/package_templates/ds-python-packages/ds/clean/space_to_camel.py:307 | removal works piece by piece |
| Text.QuoteAll | inst/package_templates/sneetches/sneetches/normalize.py:173 | every name is quoted, in order |
| Text.FindFrom | inst/package_templates/ds-python-packages/ds/connect/database.py:903 | the first occurrence at or after the start, or none |
| Text.FindFromFirst | inst/package_templates/ds-python-packages/ds/connect/database.py:903 | the first occurrence is the one found |
| Text.InsertEverywhere | inst/package_templates/ds-python-packages/ds/clean/sub.py:344 | `s.replace("", r)` puts `r` before every character and at the end |
| Text.ReplaceAllAbsent | inst/package_templates/ds-python-packages/ds/clean/sub.py:344 | text without the key is returned unchanged |
| Text.ReplaceAllSelf | inst/package_templates/ds-python-packages/ds/clean/sub.py:344 | replacing a key by itself changes nothing |
| Text.ReplaceAllSplit | inst/package_templates/ds-python-packages/ds/connect/database.py:1080-1082 | when no occurrence of the key straddles the boundary, substituting in `u + w` is substituting in `u`, then in `w` |
| Text.AsText | inst/package_templates/sneetches/sneetches/normalize.py:145 | `map(str, na_action="ignore")`: missing stays missing, text renders as itself |
| Text.AsTexts | inst/package_templates/sneetches/sneetches/normalize.py:145 | the rendering is applied cell by cell and keeps the length |
| Text.NatToString | inst/package_templates/ds-python-packages/ds/connect/database.py:972 | `str` of a natural number is a non-empty string of digits |
| Text.IntToString | inst/package_templates/sneetches/sneetches/normalize.py:264 | `str` of an integer is non-empty and starts with a digit exactly when the integer is not negative |

## Findings

| source | as written | input that shows it | evidently intended | confidence | as-written member | corrected member |
|---|---|---|---|---|---|---|
| inst/package_templates/ds-python-packages/ds/connect/database.py:1072-1076 | `range(break_length, len(rows) + break_length, break_length + 1)` is fixed from the original length while markers are inserted, and `insert` past the end appends | 1002 rows with the default `break_length` 1000: the layout ends with a marker, so the query ends with `insert into [name] valuesDELETEME123321`, a statement with no rows | a marker after every full block of `break_length` rows except the last, so every statement holds 1 to `break_length` rows | medium, not executed | SqlQueries.AsWrittenTrailingText | SqlQueries.ChunkedBlocks |
| inst/package_templates/ds-python-packages/ds/connect/database.py:1072-1076 | the same loop stops inserting too early for small blocks | 5 rows with `break_length` 1: the last statement holds 2 rows | no statement holds more than `break_length` rows | medium, not executed | SqlQueries.AsWrittenOversizedBlock | SqlQueries.InsertMarkers |
| inst/package_templates/ds-python-packages/ds/connect/database.py:1004-1005 | `"\n" + additional` is computed and discarded | `additional = "PRIMARY KEY (Id)"`: the clause is glued to the last column line | the extra clause on its own line before the closing parenthesis | medium, not executed | SqlQueries.AdditionalGlued | SqlQueries.AdditionalOnOwnLine |
| inst/package_templates/ds-python-packages/ds/clean/sub.py:368-369 | the value `"""` opens a triple-quoted string, so "&ldquo;" maps to the source text up to the next `"""` and "&rdquo;" gets no entry | `html_escape(["&ldquo;hi&rdquo;"])` | both quotation entities decode to a double quotation mark | high, not executed | CleanSub.LdquoAsWritten | CleanSub.LdquoDecoded |
| inst/package_templates/ds-python-packages/ds/clean/sub.py:368-369 | as above, for the closing mark | "&rdquo;" is left undecoded | "&rdquo;" decodes to a double quotation mark | high, not executed | CleanSub.RdquoAsWritten | CleanSub.RdquoDecoded |
| inst/package_templates/ds-python-packages/ds/clean/sub.py:405 | "&trade;" appears twice in the dictionary literal, and the later value "+/-" wins | `html_escape(["&trade;"])` gives "+/-" | "&trade;" decodes to "tm", and "+/-" belongs to "&plusmn;" | medium, not executed | CleanSub.TradeAsWritten | CleanSub.TradeDecoded |
| inst/package_templates/ds-python-packages/ds/clean/space_to_camel.py:194 | `([A-Z])+` repeats the group, and `\g<2>` keeps only its last capture | column `myID` becomes `my D` | `my ID`: only a space is added and every letter is kept | high, not executed | CaseConvert.CamelToSpaceDropsLetters | CaseConvert.CamelToSpaceKeepsLetters |
| inst/package_templates/ds-python-packages/ds/text/colo.py:76 | the clipboard text escapes backslashes but not double quotes | `colo('say "hi"', copy2clip=True)` copies `"say "hi""`, which is not a valid string literal | a double-quoted literal whose value is the pattern | medium, not executed | Colo.ClipAsWrittenBreaks | Colo.EscapeLiteralRoundTrip |

## Left out

- Database I/O: the ODBC connection, the queries (`query`, `get`, `write_table`, `delete_table`, `test_token`), the Azure CLI credential wrapper and the printed messages are external calls. `Database.Connect` stops before `pyodbc.connect`, and takes the platform and whether the path exists as parameters.
- Database.Int32LE: `struct.pack("=i", ...)` uses the byte order of the host. The model fixes it to little-endian, the order of the usual x86 and ARM hosts.
- Database.PrepareToken: the token is given as bytes. Getting it from the Azure CLI and UTF-8 encoding it are external.
- `_random_rows_as_sql_list` depends on randomness.
- pandas dtype coercions are not modelled: the integer and boolean reformatting before rendering rows, and the quote doubling of character columns. Rows reach `SqlQueries` as already-rendered cells.
- SqlQueries.SchemaQuery is the corrected statement, and the as-written one is `SqlQueries.SchemaQueryAsWritten`. They agree when `additional` is empty.
- SqlQueries.MakeRowsQuery uses the corrected batching bound. The query as written is `SqlQueries.MakeRowsQueryAsWritten`, built on the as-written loop `SqlQueries.InsertMarkersAsWritten`.
- SqlQueries.AsWrittenTrailingText is stated for table names without a comma, so that the two substitutions cannot match inside the name.
- The regex methods of `Sub` need a regular-expression engine: `url`, `email`, `hash`, `mention`, `html_tag`, `fun`, `all`, and `many` with `regex=True`. `many` with `regex=True` and `update_regex` take the engine and the validity check of `_check_regex` as parameters, and nothing is proved about the engine.
- CleanSub.ManyResult: with case ignored and literal keys, pandas compiles the escaped key with the flag and calls `re.sub`, so the replacement is read as a regex template (`\1`, `\g<name>` and other backslash escapes are expanded). The model inserts the replacement literally, which agrees when the replacement holds no backslash.
- CleanSub.OrderByLength: the default `np.argsort` is not stable, so the source fixes no order among keys of equal length. The model puts later keys first, as a stable sort reversed would, and its contract states only that keys come longest first and that the pairs are a permutation of the original.
- CleanSub.Sub.constructor stores the corrected escape table, where `Sub()` stores `_html_escapes` as written. The as-written table is `CleanSub.HtmlEscapesAsWritten`; `CleanSub.LdquoAsWritten`, `CleanSub.RdquoAsWritten` and `CleanSub.TradeAsWritten` show how it differs.
- CleanSub.Sub.HtmlEscape uses the corrected escape table (see Findings). The as-written table is `CleanSub.HtmlEscapesAsWritten`.
- `NormRace.map_to` and the `NormRace` table read `data/race.csv`, which is not part of this model.
- `MyDict` is not part of this model. `NormRace.Lookup` treats it as a dictionary that returns a missing key unchanged.
- NormRace.Normalize renders a missing entry as "nan", as `astype(str)` does for `NaN`. The rendering "None" that `astype(str)` gives for an object `None` is not modelled.
- `NormCip` and `NormGrade` are imported by the tests but defined in no file of this model.
- `_norm_cls_template` is a code generator for new normalizer classes.
- `percentile` is floating-point arithmetic over a statsmodels ECDF.
- `paths.py`, `connect/config.py`, `password.py`, `ds/utils.py`, the `setup.py` files and `00_data_pull.py` are configuration, keyring, cryptography, interactive input and scripts.
- The "is it a DataFrame" type checks are enforced by Dafny's types.
- Cells hold text, integers or a missing value. Floats, booleans and other Python objects as cells or column names are not modelled.
- Text.Lower: case mapping, `title()` and the `\s` and `\w` classes cover ASCII only. Non-ASCII letters are treated as non-letters.
- NormSex.MapTo: a scalar `to` is modelled only as a string. `list()` of another scalar raises `TypeError`, which is not modelled.
- Flatten.FlattenFacts: list elements are integers. `NaN` entries, which are truthy in Python, are not modelled.
- Flatten.FlattenGroups takes the groups already formed and in key order. `groupby` itself and `reset_index` are not modelled.
- Flatten.Unnest takes the dictionary as its list of entries in insertion order. `convert_dtypes` is not modelled.
- Colo.ColoCall states that the clipboard text reads back as the pattern only for patterns without a double quote: as written, the source does not escape that character (see Findings).
- Colo.Outcome: `pyperclip.copy` is modelled as the text it receives, carried in the result. A `copy2clip` other than a boolean or `None` is not modelled.
- Colo.Unescape reads only the escapes `\\` and `\"`. It accepts a raw line break, which a Python string literal does not allow, so `Colo.Clip` yields a valid literal only for patterns without line breaks.
- TitleCase.SmallWords writes the alternatives `V[.]?` and `Vs[.]?` as `V` and `Vs`. The substitution changes only the first letter, and the dotted forms match only where the bare ones do.

