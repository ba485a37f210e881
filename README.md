# Dairy-record column standardisation, modelled in Dafny

This project models `standardize_columns` from `backend/data_processor.py`. That function takes an uploaded dairy-herd table (an Excel or CSV file read into a pandas frame) and gives it a fixed schema of six canonical columns: `date`, `cow_id`, `milk_yield`, `fat_percentage`, `protein_percentage` and `feed_intake`. The same function then cleans those columns' values.

The function has two halves, and the model follows both.

**Header resolution** (lines 11-48):
- Every raw header is lower-cased and stripped.
- The header is then searched for the keywords of each field, in the table's order. A keyword counts only as a whole word, with regex `\b` on both sides.
- The first field hit that is not yet claimed is claimed, and the header takes that field's name.
- A header that claims nothing takes a slug of itself. The `_original` test at lines 41-45 decides whether the slug gets that suffix.
- The resulting dictionary, keyed by the raw header, renames the frame.

The modules for this half:
- `Text`: lower-casing and stripping.
- `WordMatch`: the `\b…\b` search.
- `Schema`: the fields and the keyword table.
- `Slug`: the `re.sub(...).strip('_')` fallback name.
- `HeaderResolver`: the loop, both as an imperative method and as the specification functions it is proved against.

**Value cleaning** (lines 50-71):
- The `date` column is parsed. Rows whose date failed to parse are dropped, and the remaining dates are rendered as `YYYY-MM-DD` (the extended calendar-date format of ISO 8601, section 4.1.2.2).
- The four numeric columns are parsed, with 0 where parsing fails.
- `cow_id` becomes a string that has lost a final `.0`.

The modules for this half:
- `Dates`: timestamps in the 64-bit nanosecond range, and the `YYYY-MM-DD` format with its inverse.
- `Cleaning`: a frame held column by column, the three steps, and a column-wise reference definition that the steps are proved to meet.
- `Pipeline`: the whole function.

**Duplicate canonical columns.** Renaming can give two columns the same canonical name. `df[name]` is then a frame rather than a column, and the step for that field raises:
- `to_datetime` raises `ValueError`;
- `to_numeric` accepts only one-dimensional input;
- a frame has no `.str` accessor.

The model returns `Err(DuplicateColumn(field))` in that case. Checks happen in the source's order: date, then the numeric fields, then `cow_id`.

**Suffix test.** The comment at line 42 says the suffix should prevent a collision with a canonical name that is already claimed. The code appends it when the name is *not* claimed. The model follows the code. The other reading is carried alongside as `SuffixRule.AsCommented`, with the property the comment intends proved about it; see "## Findings".

## Model

All paths are relative to the repository root.

| member | source | states |
|---|---|---|
| `Text.LowerChar` | backend/data_processor.py:25 | Lower-casing turns an upper-case ASCII letter into the same letter in lower case (`'A'` to `'a'`, and so on), leaves every other character unchanged, and keeps the letter/digit, word-character and white-space classes. |
| `Text.Lower` | backend/data_processor.py:25 | `str.lower()` keeps the length and lower-cases each character in place. |
| `Text.TrimStart` | backend/data_processor.py:25 | Removes exactly the longest prefix of characters to strip; what is left is a suffix of the input. |
| `Text.TrimEnd` | backend/data_processor.py:25 | Removes exactly the longest suffix of characters to strip; what is left is a prefix of the input. |
| `Text.Lead` | backend/data_processor.py:25 | The length of the leading run of characters to strip: every character before it is one, and the next one is not. |
| `Text.Strip` | backend/data_processor.py:25 | `str.strip()`: the result is the input with its leading run of characters to strip removed and cut where only such characters follow; it neither starts nor ends with one. |
| `Text.Normalize` | backend/data_processor.py:25 | The match key `str(col).lower().strip()` is the lower-cased header with its leading white space removed and cut where only white space follows; it holds no upper-case letter and has no white space at either end. |
| `Text.NormalizeIdempotent` | backend/data_processor.py:25 | Normalising an already normalised key changes nothing. |
| `Text.NormalizeFixes` | backend/data_processor.py:25 | A string already lower-case with no outer white space is its own key. |
| `WordMatch.Search` | backend/data_processor.py:30 | `re.search(r'\b'+k+r'\b', s)` succeeds exactly when `k` occurs at some position with a word boundary before and after it. |
| `WordMatch.SearchFrom` | backend/data_processor.py:30 | The scan from position `i` succeeds exactly when the keyword occurs as a whole word at some position from `i` on. |
| `WordMatch.AnyKeyword` | backend/data_processor.py:30 | The `any(...)` over a field's keywords is true exactly when one of them occurs as a whole word. |
| `WordMatch.WordKeywordOccurrence` | backend/data_processor.py:30 | For a keyword of word characters, an occurrence counts exactly when no word character stands right before or right after it. |
| `WordMatch.TrailingSymbolNeedsWordAfter` | backend/data_processor.py:30 | A keyword ending in a non-word character (`fat_%`, `protein_%`) matches only where a word character follows it. |
| `WordMatch.UnderscoreGluesWords` | backend/data_processor.py:30 | Since `_` is a word character, no keyword matches right after an underscore (`id` is not found in `cow_id`). |
| `WordMatch.OneWordMatchesOnlyItself` | backend/data_processor.py:30 | In a string of word characters only, a keyword can match only the whole string. |
| `WordMatch.OneWordAnyKeyword` | backend/data_processor.py:30 | A one-word key hits a keyword list exactly when the key is in the list. |
| `WordMatch.LeadingWordMatchesOnlyItself` | backend/data_processor.py:30 | In a word followed only by non-word characters (such as `fat %`), a keyword starting with a letter matches only that word. |
| `WordMatch.LeadingWordAnyKeyword` | backend/data_processor.py:30 | Such a key hits a keyword list exactly when its leading word is in the list. |
| `Schema.Rank` | backend/data_processor.py:12-19 | Each field's position in the keyword table, which is also its matching priority. |
| `Schema.RankOfTable` | backend/data_processor.py:12-19 | Position and field correspond both ways. |
| `Schema.FieldNamed` | backend/data_processor.py:41 | The test `clean_name in mappings`: gives the field whose canonical name the slug is, and None exactly when no field has that name. |
| `Schema.TableIsAnEnumeration` | backend/data_processor.py:12-19 | Every field appears once in the table, and distinct fields have distinct names. |
| `Schema.Keywords` | backend/data_processor.py:12-19 | Every field has keywords, and each is a non-empty run of lower-case letters, `_` and `%`: it can match a lower-cased key and holds no regex metacharacter. |
| `Schema.OnlyDateNameIsKeyword` | backend/data_processor.py:13-18 | No canonical name other than `date` is itself a keyword. |
| `Schema.IdIsCowIdKeyword` | backend/data_processor.py:13-14 | `id` is a `cow_id` keyword and not a `date` keyword. |
| `Schema.TagIsOnlyCowIdKeyword` | backend/data_processor.py:13-18 | `tag` is a keyword of `cow_id` and of no other field. |
| `Schema.FatIsOnlyFatKeyword` | backend/data_processor.py:13-18 | `fat` is a keyword of `fat_percentage` and of no other field. |
| `Slug.CollapseRuns` | backend/data_processor.py:39 | `re.sub(r'[^a-zA-Z0-9]+', '_', s)`: the result holds only the input's letters and digits and `_`, never `__`, is empty only for empty input, and starts with the first character or `_`. |
| `Slug.CleanName` | backend/data_processor.py:39 | The fallback name is a slug (only letters, digits and `_`, no `__`, no `_` at either end), built from the input's characters and `_`. |
| `Slug.CollapseKeepsLast` | backend/data_processor.py:39 | A string ending in a letter or digit collapses to one ending in that same character. |
| `Slug.CollapseAppend` | backend/data_processor.py:39 | After a letter or digit, a concatenation collapses part by part: no separator run spans the joint. |
| `Slug.CollapseSplits` | backend/data_processor.py:39 | A separator run between letters or digits becomes exactly one `_` in its place, and each side collapses on its own. |
| `Slug.CollapseOuterSeparators` | backend/data_processor.py:39 | Leading and trailing separator runs each become one `_` at their end of the result. |
| `Slug.CleanNameSplits` | backend/data_processor.py:39 | Inside the fallback name, a separator run between two letters or digits becomes exactly one `_` in its place: the slug of `u`, separators, `v` is the slug of `u`, then `_`, then the slug of `v`. |
| `Slug.CleanNameDropsOuterSeparators` | backend/data_processor.py:39 | `strip('_')` removes exactly the `_` made from leading and trailing separators, so padding a name with separators does not change its slug. |
| `Slug.CollapseKeepsAlnums` | backend/data_processor.py:39 | Collapsing separator runs keeps every letter and digit, in order. |
| `Slug.SeparatorRunHasNoAlnums` | backend/data_processor.py:39 | A leading separator run holds no letter or digit. |
| `Slug.AlnumsAppend` | backend/data_processor.py:39 | The letters and digits of a concatenation are those of its parts, in order. |
| `Slug.AlnumsOfSeparators` | backend/data_processor.py:39 | A run of separators holds no letter or digit. |
| `Slug.SliceKeepsNoDoubleUnderscore` | backend/data_processor.py:39 | Trimming a string without `__` leaves none. |
| `Slug.TrimStartKeepsAlnums` | backend/data_processor.py:39 | `strip('_')` at the front removes no letter or digit. |
| `Slug.TrimEndKeepsAlnums` | backend/data_processor.py:39 | `strip('_')` at the back removes no letter or digit. |
| `Slug.SlugKeepsAlnums` | backend/data_processor.py:39 | The slug holds exactly the header's letters and digits, in order. |
| `Slug.CollapseFixesCleanText` | backend/data_processor.py:39 | Text of letters, digits and single underscores is left unchanged by the collapse. |
| `Slug.SlugWord` | backend/data_processor.py:39 | Letters and digits with at most one inner underscore form a slug of word characters. |
| `Slug.SlugFixesSlugs` | backend/data_processor.py:39 | A slug is its own slug. |
| `Slug.SlugIdempotent` | backend/data_processor.py:39 | Slugging twice is slugging once. |
| `Slug.HeaderSlugCharacters` | backend/data_processor.py:25-39 | The slug of a normalised header uses only `[a-z0-9_]`. |
| `HeaderResolver.HitTest` | backend/data_processor.py:30 | The per-field test of the inner loop: a field passes exactly when the key hits one of its keywords. |
| `HeaderResolver.FirstUnclaimedFrom` | backend/data_processor.py:28-35 | Finds the first table position, from `j` on, whose field passes the hit test and is unclaimed; every position before it is missed or claimed. |
| `HeaderResolver.NoUnclaimedHit` | backend/data_processor.py:28-37 | When the inner loop finds nothing, every field that passes the hit test is already claimed. |
| `HeaderResolver.EarlierFieldsBlocked` | backend/data_processor.py:28-35 | Every field ranked before the one found is missed or claimed. |
| `HeaderResolver.ClaimOf` | backend/data_processor.py:28-35 | The claimed field is unclaimed so far and hit by the key; every higher-priority field is missed or claimed; with no claim, every hit field is already claimed. |
| `HeaderResolver.FallbackName` | backend/data_processor.py:41-45 | The name is the slug or the slug plus `_original`. As written, the suffix is added exactly when the slug names a field that is not yet claimed. As commented, exactly when it names a claimed one. |
| `HeaderResolver.FallbackOfCanonicalName` | backend/data_processor.py:41-45 | On a canonical name, the two readings of the suffix test give opposite results for both claimed and unclaimed fields. |
| `HeaderResolver.Decide` | backend/data_processor.py:28-45 | A header either claims a field that is still free and that its key hits, or falls back to the slug of its key, with or without `_original`. |
| `HeaderResolver.DecideSpec` | backend/data_processor.py:28-45 | The claim is the first field in table order that the key hits and that is free, and a header falls back only when every field it hits is already claimed. |
| `HeaderResolver.Step` | backend/data_processor.py:32-45 | One iteration sets the header's entry of `new_columns` to the decision's name, keeps every other entry, and adds the claimed field, if any, to `used_standards`. |
| `HeaderResolver.ResolveAll` | backend/data_processor.py:21-45 | After the loop, `new_columns` has exactly the raw headers as keys. |
| `HeaderResolver.ResolveUpTo` | backend/data_processor.py:21-45 | After `n` iterations, the keys are exactly the first `n` headers. |
| `HeaderResolver.Rename` | backend/data_processor.py:48 | `df.rename(columns=new_columns)` keeps the column count, and equal raw headers get equal names. |
| `HeaderResolver.ResolveHeaders` | backend/data_processor.py:21-45 | The imperative loop ends with exactly the `new_columns` and `used_standards` of the specification `ResolveAll`. |
| `HeaderResolver.ResolveHeader` | backend/data_processor.py:25-45 | One iteration of the header loop (the keyword search, then the claim or the fallback) makes exactly one `Step` of the specification. |
| `HeaderResolver.FindUnclaimed` | backend/data_processor.py:26-35 | The inner loop over the keyword table, with its `break`, ends with exactly the position the specification `FirstUnclaimedFrom` names, or none. |
| `HeaderResolver.DecideClaimsUnclaimed` | backend/data_processor.py:31-33 | A header only ever claims a field not yet in `used_standards`, under either reading of the suffix test. |
| `HeaderResolver.UsedGrows` | backend/data_processor.py:22-33 | `used_standards` only grows along the loop. |
| `HeaderResolver.ClaimIsUsed` | backend/data_processor.py:32-33 | A header's claim is in `used_standards` from the next iteration on. |
| `HeaderResolver.UsedIsClaimed` | backend/data_processor.py:21-35 | `used_standards` is exactly the set of fields claimed by the headers seen so far. |
| `HeaderResolver.ClaimsAreUnique` | backend/data_processor.py:21-35 | A decider that claims only unclaimed fields never assigns one field to two headers. |
| `HeaderResolver.SourceClaimsAreUnique` | backend/data_processor.py:21-35 | The source's loop assigns each canonical field to at most one header. |
| `HeaderResolver.EntryAfter` | backend/data_processor.py:21-45 | A header not repeated later keeps its own decision's name in `new_columns`. |
| `HeaderResolver.LastDecisionWins` | backend/data_processor.py:21-48 | Since the dictionary is keyed by raw header, every column with a given header is renamed after the last decision made for that text. |
| `HeaderResolver.RenamedDistinct` | backend/data_processor.py:21-48 | With distinct headers, each column is renamed after its own decision. |
| `HeaderResolver.RenamedSingle` | backend/data_processor.py:21-48 | A one-column table is renamed after the decision taken with nothing claimed. |
| `HeaderResolver.RenamedPair` | backend/data_processor.py:21-48 | Two distinct headers are renamed after their own decisions. |
| `HeaderResolver.OneWordHits` | backend/data_processor.py:30 | A one-word key hits a field exactly when it is one of that field's keywords. |
| `HeaderResolver.KeywordsStartWithWordChar` | backend/data_processor.py:13-18 | Every keyword is non-empty and starts with a word character. |
| `HeaderResolver.NameIsSlugWord` | backend/data_processor.py:12-19 | Every canonical name is one word and a slug. |
| `HeaderResolver.NoNameEndsInSuffix` | backend/data_processor.py:43 | No canonical name ends in `_original`. |
| `HeaderResolver.ClaimsFirstFreeHit` | backend/data_processor.py:28-35 | A header claims a free field it hits when every higher-priority field is missed or claimed. |
| `HeaderResolver.NothingLeftToClaim` | backend/data_processor.py:28-37 | A header whose hit fields are all claimed claims nothing. |
| `HeaderResolver.FallbackOf` | backend/data_processor.py:37-45 | A header that claims nothing is given the fallback name of its slug. |
| `HeaderResolver.IdClaimsCowId` | backend/data_processor.py:14-35 | A header whose key is `id` claims `cow_id` whenever it is free. |
| `HeaderResolver.IdHitsCowIdFirst` | backend/data_processor.py:12-30 | The key `id` hits `cow_id` and no field ranked before it. |
| `HeaderResolver.FatPercentClaimsFat` | backend/data_processor.py:16-35 | A header whose key is `fat %` claims `fat_percentage` whenever it is free. |
| `HeaderResolver.TagAfterCowIdFallsBack` | backend/data_processor.py:28-45 | Once `cow_id` is claimed, a header whose key is `tag` falls through to the slug `tag`. |
| `HeaderResolver.IdThenTag` | backend/data_processor.py:24-48 | Headers `id`, `tag` become `cow_id`, `tag`. |
| `HeaderResolver.UsedAfterId` | backend/data_processor.py:28-35 | After an `id` header, `cow_id` is the only claimed field. |
| `HeaderResolver.DecisionsAfterId` | backend/data_processor.py:24-45 | Headers `id`, `cow_id`: the first claims `cow_id`, and the second falls back to its own name under the suffix test. |
| `HeaderResolver.SecondAfterId` | backend/data_processor.py:24-48 | Headers `id`, `cow_id` are renamed `cow_id`, then the fallback of `cow_id` with `cow_id` claimed. |
| `HeaderResolver.CanonicalHeaderClaimsNothing` | backend/data_processor.py:28-37 | A header whose key already is a canonical name other than `date` claims no field: underscore glues it into one word that is not a keyword. |
| `HeaderResolver.CanonicalHeaderFallsBack` | backend/data_processor.py:37-45 | Such a header falls back to its own name, subject to the suffix test. |
| `HeaderResolver.AsWrittenRenamesFreeCanonicalHeader` | backend/data_processor.py:41-43 | As written, such a header whose field is free is renamed `<name>_original`. |
| `HeaderResolver.AsCommentedKeepsFreeCanonicalHeader` | backend/data_processor.py:41-45 | As commented, that header keeps its canonical name. |
| `HeaderResolver.StandardHeaderIsRenamedAway` | backend/data_processor.py:24-48 | As written, a one-column table already named `cow_id` (or any canonical name but `date`) comes out as `cow_id_original`. |
| `HeaderResolver.StandardHeaderKeptAsCommented` | backend/data_processor.py:41-48 | As commented, that column keeps its name. |
| `HeaderResolver.IdThenCowIdCollide` | backend/data_processor.py:24-48 | As written, headers `id`, `cow_id` give two columns named `cow_id`. |
| `HeaderResolver.IdThenCowIdAsCommented` | backend/data_processor.py:41-48 | As commented, they give `cow_id` and `cow_id_original`. |
| `HeaderResolver.BareNameOnlyWhenClaimed` | backend/data_processor.py:41-45 | As written, a header that claims nothing gets a bare canonical name only when that field is already claimed, which is the collision the suffix was meant to prevent. |
| `HeaderResolver.FallbackBareOnlyWhenClaimed` | backend/data_processor.py:41-45 | As written, a fallback name equal to a canonical name occurs only when that field is already claimed. |
| `HeaderResolver.AsWrittenBareNameOnlyWhenClaimed` | backend/data_processor.py:21-45 | The same holds inside the loop: the field is already in `used_standards` at that header. |
| `HeaderResolver.CommentedAvoidsClaimed` | backend/data_processor.py:41-45 | As commented, a header never takes the name of a field already claimed. |
| `HeaderResolver.CommentedFallbackAvoidsClaimed` | backend/data_processor.py:41-45 | As commented, a fallback name is never the name of a claimed field. |
| `HeaderResolver.CommentedNeverNamesClaimed` | backend/data_processor.py:41-45 | The commented decider has that property for every header and claimed set. |
| `HeaderResolver.AvoidsEarlierClaims` | backend/data_processor.py:21-45 | Under such a decider, no later header is named after an earlier header's claim. |
| `HeaderResolver.CommentedRuleAvoidsEarlierClaims` | backend/data_processor.py:21-45 | As commented, no later header ever reuses the name an earlier header claimed. |
| `Dates.Digits` | backend/data_processor.py:59 | The zero-padded `%Y`, `%m` and `%d` fields have exactly the width given and hold only digits. |
| `Dates.Value` | backend/data_processor.py:59 | The number a digit string denotes is below 10 to the power of its length. |
| `Dates.ValueOfDigits` | backend/data_processor.py:59 | Reading back a zero-padded number gives the number. |
| `Dates.DigitsOfValue` | backend/data_processor.py:59 | Writing out a digit string's value at its width gives the string. |
| `Dates.DaysInMonth` | backend/data_processor.py:55 | Month lengths lie between 28 and 31, and a month has 29 days exactly when it is February of a Gregorian leap year. |
| `Dates.TimestampYears` | backend/data_processor.py:55-59 | Every pandas timestamp falls in a year from 1677 to 2262, so `%Y` is four digits. |
| `Dates.FormatIso` | backend/data_processor.py:59 | `strftime('%Y-%m-%d')` has the shape `DDDD-DD-DD`. |
| `Dates.FormatFields` | backend/data_processor.py:59 | The rendering is the padded year, month and day, joined by `-`. |
| `Dates.ParseIso` | backend/data_processor.py:59 | The inverse reading accepts only the `DDDD-DD-DD` shape and a real calendar date. |
| `Dates.IsoParts` | backend/data_processor.py:59 | A `DDDD-DD-DD` string is its three digit groups joined by dashes. |
| `Dates.ParseFormat` | backend/data_processor.py:59 | Parsing the rendering of a timestamp gives back its date. |
| `Dates.FormatParse` | backend/data_processor.py:59 | A string that parses to a timestamp's date is exactly that timestamp's rendering. |
| `Dates.FormatIdentifiesDay` | backend/data_processor.py:59 | Two timestamps render alike exactly when they fall on the same day. |
| `Dates.FormatExample` | backend/data_processor.py:59 | A timestamp on 5 January 2024 renders as `2024-01-05`: year, month and day, most significant digit first. |
| `Dates.RenderedDayReadsBack` | backend/data_processor.py:55-59 | The `YYYY-MM-DD` rendering of a timestamp names a day whose midnight is a timestamp, on every day but 1677-09-21, where midnight lies before the earliest timestamp. |
| `Cleaning.Find` | backend/data_processor.py:53 | `name in df.columns`: finds the first column with that label, and None exactly when there is none. |
| `Cleaning.FoundOnce` | backend/data_processor.py:53-71 | Without a repeated label, the column found is the only one with that label. |
| `Cleaning.Locate` | backend/data_processor.py:53-71 | `df[name]` fails exactly when the label is repeated. It gives None exactly when the label is absent, and otherwise the one column with that label. |
| `Cleaning.Survivors` | backend/data_processor.py:57 | `dropna(subset=["date"])` keeps exactly the rows whose date parsed, in increasing order. |
| `Cleaning.DateCell` | backend/data_processor.py:55-59 | A date cell is text exactly when the parser gave a timestamp, and that text reads back as the timestamp's date; otherwise it is missing (NaT). |
| `Cleaning.AllRows` | backend/data_processor.py:53 | With no `date` column, every row, in order. |
| `Cleaning.KeptRows` | backend/data_processor.py:53-57 | The surviving rows are existing rows, in increasing order. |
| `Cleaning.CleanDates` | backend/data_processor.py:53-59 | The date step fails exactly when `date` is repeated. Otherwise it keeps the columns and the surviving rows: the `date` cells are rendered and every other cell is copied from its row. |
| `Cleaning.CoerceColumn` | backend/data_processor.py:62-71 | Converting a canonical column fails exactly when its name is repeated. Otherwise it converts every cell of that column, changes nothing else, and keeps shape and row count. |
| `Cleaning.Coerce` | backend/data_processor.py:66-71 | A numeric cell becomes the parsed number, or 0 when parsing fails. An id cell becomes the text `StripDotZero(str(x))`: `str(x)` less a final `.0`, or less the `.0` before a final newline with the newline kept, and `str(x)` itself when it has neither ending. |
| `Cleaning.CleanNumerics` | backend/data_processor.py:62-66 | The numeric loop keeps columns, shape and row count, and a failure names one of its fields whose column is repeated. |
| `Cleaning.CleanNumericsSpec` | backend/data_processor.py:62-66 | The numeric loop fails exactly when one of its columns is repeated, and names that field. Otherwise it applies `to_numeric(...).fillna(0)` once to every cell of those columns and leaves the other cells alone. |
| `Cleaning.NumericStepCells` | backend/data_processor.py:62-66 | One more numeric column, converted first, keeps that per-cell description. |
| `Cleaning.NumericFieldsDistinct` | backend/data_processor.py:62 | The four numeric columns have distinct names. |
| `Cleaning.NumericIndex` | backend/data_processor.py:62 | Every field other than `date` and `cow_id` is one of the numeric columns. |
| `Cleaning.NotNumericName` | backend/data_processor.py:62 | `date` and `cow_id` are not numeric columns. |
| `Cleaning.CleanCowIds` | backend/data_processor.py:69-71 | The id step fails exactly when `cow_id` is repeated. Otherwise it keeps columns, shape and rows, makes every `cow_id` cell text and leaves every other cell alone. |
| `Cleaning.Clean` | backend/data_processor.py:50-71 | Cleaning keeps the columns in order and exactly the rows `KeptRows` names, never more than there were. A failure names a repeated canonical field, and a repeated `date` or `cow_id` always fails. |
| `Cleaning.CleanFailsOnDuplicates` | backend/data_processor.py:53-71 | Cleaning fails exactly when some canonical name labels several columns, and the error names such a field. |
| `Cleaning.CleanSpec` | backend/data_processor.py:50-71 | A successful cleaning keeps every column in order and exactly the rows `KeptRows` names, with each cell as the column-wise definition `CleanedCell` gives: rendered date, number or 0, id text without `.0`, or the original cell. |
| `Cleaning.CleanCell` | backend/data_processor.py:50-71 | The same for one cell, followed through the three steps. |
| `Cleaning.KeptRowsAreParsed` | backend/data_processor.py:55-57 | A row survives exactly when its date parses. |
| `Cleaning.DatesAreIso` | backend/data_processor.py:55-59 | Every surviving `date` cell is the `YYYY-MM-DD` text of the parsed timestamp, and reads back as its date. |
| `Cleaning.WithoutDateNothingDropped` | backend/data_processor.py:53-66 | Without a `date` column no row is dropped, and every non-canonical column comes back unchanged. |
| `Cleaning.NoCanonicalColumnUnchanged` | backend/data_processor.py:53-71 | A frame with no canonical column passes through cleaning unchanged. |
| `Cleaning.AllSurvive` | backend/data_processor.py:57 | When every date parsed, no row is dropped. |
| `Cleaning.KeepsAllRows` | backend/data_processor.py:53-57 | A normalised frame keeps all its rows, given a parser that reads its own output back. |
| `Cleaning.ReadsBackIsSatisfiable` | backend/data_processor.py:55-71 | Parsers that read back what cleaning writes exist, so the lemmas that assume them are not vacuous. |
| `Cleaning.CleanCellFixed` | backend/data_processor.py:55-71 | A cell of a column already in cleaned form is left as it is, given parsers that read back what cleaning writes. |
| `Cleaning.CleanFixesCleanFrames` | backend/data_processor.py:50-71 | Cleaning a frame already in normalised form changes nothing, given such parsers. Normalised form means `YYYY-MM-DD` dates of days whose midnight is a timestamp, numbers, and ids without a final `.0`. |
| `Cleaning.StripRestoresIntegerIds` | backend/data_processor.py:70-71 | An integer id read as a float (`42.0`) comes back as the integer's text (`42`), and that text is left as it is. |
| `Cleaning.StripDotZero` | backend/data_processor.py:71 | `re.sub(r'\.0$', '', s)` removes a final `.0`, or the `.0` just before a final newline (keeping the newline), and leaves `s` unchanged exactly when it has neither. |
| `Cleaning.StripIsNotIdempotent` | backend/data_processor.py:71 | `42.0` becomes `42`, and `x.0` plus a final newline becomes `x` plus the newline. `1.0.0` becomes `1.0`, then `1`: one `.0` goes per application. |
| `Pipeline.StandardizeWith` | backend/data_processor.py:5-73 | Renaming then cleaning fails exactly when the renamed headers repeat a canonical name, and the error names such a field. Otherwise the result carries the renamed headers in their original order and at most the original rows. |
| `Pipeline.Standardize` | backend/data_processor.py:5-73 | `standardize_columns` as written fails exactly when its renamed headers repeat a canonical name. Otherwise the result carries those headers and at most the original rows. |
| `Pipeline.CleansWithoutDuplicates` | backend/data_processor.py:48-71 | Renamed headers that repeat no name are always cleaned without error. |
| `Pipeline.PlainNamesPassThrough` | backend/data_processor.py:48-71 | When no renamed header is a canonical name, the file comes back with only its headers changed. |
| `Pipeline.SuffixedNameIsPlain` | backend/data_processor.py:43 | A canonical name with `_original` appended is not a canonical name. |
| `Pipeline.IdThenCowIdFails` | backend/data_processor.py:24-71 | As written, a file with an `ID` column and a `cow_id` column fails at the `cow_id` step. |
| `Pipeline.IdThenCowIdCleansAsCommented` | backend/data_processor.py:41-71 | With the suffix test as commented, that file is cleaned without error. |
| `Pipeline.StandardOutputIsRenamedAway` | backend/data_processor.py:24-73 | As written, a one-column file already named with a canonical name other than `date` comes back with the column renamed `<name>_original` and its cells untouched. The function does not leave its own output as it found it. |

## Left out

- Lower-casing and `\w`/`\b` are modelled on ASCII only. Python's `str.lower` and its Unicode-aware regex classes also treat non-ASCII letters, which the model treats as plain non-word characters. Stripping uses Python's full `str.isspace` set.
- `str(col)` of a header that is not a string is not modelled; headers are strings.
- `pd.to_datetime`, `pd.to_numeric` and `astype(str)` are pandas library code. They are parameters of the model (`Parsers`), with only their interface fixed:
  - a date parser sees the whole column, since pandas infers one format per column;
  - a failed parse is `None` (NaT or NaN).
  Their format inference, float `repr` and NaN text are not modelled.
- Floating-point values are `real`. NaN is `Missing`, or `None` from a parser. Column dtypes are not modelled.
- The three pandas exceptions raised for a repeated canonical column (`ValueError`, `TypeError`, `AttributeError`) are modelled as the one error `DuplicateColumn`. The source raises, so there is no partial frame to model.
- Row index labels after `dropna` are not modelled. Rows are kept by position, in order.
- `Cleaning.CleanFixesCleanFrames` holds only under stated assumptions about the library parsers (`ReadsBack`): the date parser reads every cell of a column whose cells are all `YYYY-MM-DD` texts of days whose midnight is a timestamp as those dates (pandas infers one format per column, so a column mixing formats is not covered), `to_numeric` keeps a number, and `str` keeps a text.
- Keywords are spliced into the regex unescaped. `Schema.Keywords` states that they hold only lower-case letters, `_` and `%`, none of them a regex metacharacter, so the model matches each one literally.
- `backend/main.py` is not part of this model: file reading, the FastAPI endpoints, the LLM prompt, and the inf/NaN/rounding post-processing. Neither is `frontend/app.py`, which is presentation and network.

## Findings

| source | as written | input that shows it | evidently intended | confidence | as-written member | corrected member |
|---|---|---|---|---|---|---|
| backend/data_processor.py:41-45 | `if clean_name in mappings and clean_name not in used_standards` appends `_original` when the canonical name is still free, and leaves the bare name when that field is already claimed. | Headers `["ID", "cow_id"]`: `ID` claims `cow_id`, then `cow_id` claims nothing and keeps the bare name `cow_id`. The result has two `cow_id` columns, and the `cow_id` step raises. A one-column file already named `milk_yield` comes back as `milk_yield_original`. | As the comment at line 42 says, append `_original` only when that canonical field is already claimed (`clean_name in used_standards`). No later header then takes a claimed name, and a table already in canonical form keeps its names. | high (not executed) | `HeaderResolver.BareNameOnlyWhenClaimed`, `HeaderResolver.IdThenCowIdCollide`, `Pipeline.IdThenCowIdFails`, `HeaderResolver.StandardHeaderIsRenamedAway` | `HeaderResolver.CommentedRuleAvoidsEarlierClaims`, `HeaderResolver.IdThenCowIdAsCommented`, `Pipeline.IdThenCowIdCleansAsCommented`, `HeaderResolver.StandardHeaderKeptAsCommented` |

The resolver's specification functions take the suffix test as a parameter (`SuffixRule`). `AsWritten` is what the imperative `ResolveHeaders` and `Pipeline.Standardize` use, because the model describes the program as it stands. `AsCommented` is the corrected definition, and the properties above are proved about it.

The corrected rule prevents collisions only with *earlier* claims. A canonical-named header that comes before the header claiming that field still keeps the bare name.
