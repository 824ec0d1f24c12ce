# zero-side-effect: the nutrition-database collector, in Dafny

This project models the data-handling core of the zero-side-effect repository
as pure Dafny functions, and proves properties of them.

- **Collector** (`crawling/foods_db_gui.py`). It queries the public food
  nutrition API and flattens the JSON response into records. It keeps the
  records that pass the "zero sugar" and keyword filter, and removes copies of
  the same product. Two records are copies when they have the same
  whitespace-free, lower-cased name and the same `AMT_NUM*` nutrient values. Of
  each set of copies it keeps the one with the latest `UPDATE_DATE`. It can
  also apply a preview dedupe on fields the user names. Finally it appends the
  batch to a CSV ledger, where it never writes the same `NUM` twice.
- **Image crawler** (`crawling/test.py`). It turns product names into safe
  folder names, keeps a progress log with update-or-insert, and skips products
  it has already crawled.
- **Web front end** (`frontend/js/global.js`). It builds API URLs, normalises
  search text, and maps sweetener names to tag classes.

Each source function is a Dafny function over immutable values:

- JSON is a `Json` datatype.
- A record is a `map<string, string>`.
- A CSV file is its header plus its rows of cells.
- The progress log is a sequence of rows whose cells are `Option`s, with
  `None` for pandas' missing value.

Error paths return a `Result`. These are: a missing `serviceKey` key, no
service key anywhere, an entry that is not an integer, and a ledger without a
`NUM` column.

Some inputs come from the environment, and the model takes them as
parameters:

- the decoded HTTP response;
- the content of an existing CSV file, or `None` when there is no file;
- the clock's timestamp;
- the configured service key;
- Unicode NFKC normalisation.

The dict loops are written as the folds the source performs. These are
`setdefault(k, []).append(x)` into insertion-ordered dicts, the survivor loop
with its running best, and the append loop with its growing set of seen
`NUM`s. Each fold is then proved equal to an independent description.

Modules follow the source:

- `Response`: response flattening.
- `Query`: the request and the collector's entry fields.
- `RecordFilter`: the per-record filter.
- `PreviewDedupe`: the preview dedupe.
- `Grouping`: the dict-of-lists folds.
- `AmountKeys`: the `AMT_NUM*` column order.
- `SignatureDedupe`: the name-and-amounts dedupe.
- `CsvLedger`: `to_csv`.
- `Pipeline`: the collection run.
- `CrawlLog`: the crawler's names and log.
- `Frontend`: the JavaScript helpers.
- Shared: `Text`, `Records` and `Results`.

## Model

| member | source | states |
|---|---|---|
| Response.ObjectsOf | crawling/foods_db_gui.py:61-62 | Keeps exactly the elements of a list that are dicts, never more than the list has, and all of them when every element is a dict. |
| Response.ObjectsOfAppend | crawling/foods_db_gui.py:62 | The dict filter distributes over concatenation. With `ObjectsOfSingle`, this fixes the order and the multiplicity of the kept objects. |
| Response.ObjectsOfSingle | crawling/foods_db_gui.py:62 | A one-element list yields its element when it is a dict, and nothing otherwise. |
| Response.NormalizeItems | crawling/foods_db_gui.py:57-70 | A falsy value gives []. A list gives its dicts in order. A non-empty dict gives the dicts of its `item` list, or its `item` dict as a one-element list, or else the dict itself. Any other value gives []. |
| Response.ExtractItems | crawling/foods_db_gui.py:73-86 | A `body` dict is searched for `items`. A list gives its dicts in order. `{}` and non-containers give []. A non-empty dict with no `body`, `items` or `item` is itself the only record. |
| Response.EnvelopeWithList | crawling/foods_db_gui.py:64-78 | The usual envelope `{"body": {"items": {"item": [...]}}}` yields exactly the listed records, in order. |
| Response.EnvelopeWithSingle | crawling/foods_db_gui.py:64-78 | A single record under `body.items.item` yields a one-element list. |
| Response.BareList | crawling/foods_db_gui.py:84-85 | A bare list of records yields the same records. |
| Response.BodyWithoutItems | crawling/foods_db_gui.py:76-78 | A `body` without `items` yields nothing, whatever else the response holds. |
| Response.TopLevelItemsList | crawling/foods_db_gui.py:79-80 | With no `body` dict, a list under top-level `items` yields its records in order. |
| Response.TopLevelItemsDict | crawling/foods_db_gui.py:79-80 | With no `body` dict, a dict under top-level `items` is normalised as the item container. |
| Response.TopLevelItem | crawling/foods_db_gui.py:81-82 | With no `body` dict and no container under `items`, a top-level `item` gives its dicts when it is a list and itself when it is a dict. Any other value gives the wrapper `{"item": value}`. |
| Query.BuildQuery | crawling/foods_db_gui.py:96-109 | Fails with a `KeyError` exactly when `serviceKey` is absent. Otherwise the key is sent unchanged. |
| Query.BuildQueryFixed | crawling/foods_db_gui.py:98-102 | Always sends `type=json` and the commercial-product class. `numOfRows` is the given count or 100. `pageNo` is sent exactly when given. |
| Query.BuildQueryFilters | crawling/foods_db_gui.py:103-108 | Each of the three optional filters is sent exactly when its entry is non-empty, and with that entry's value. |
| Query.BuildQueryKeys | crawling/foods_db_gui.py:96-109 | No parameter outside the fixed ones and the three filters is ever sent. |
| Query.ResolveServiceKey | crawling/foods_db_gui.py:302-306 | A non-empty key in the entries leaves them unchanged. Otherwise a non-empty configured key is stored, stripped, under `serviceKey`. With neither, the result is `NoServiceKey`. Every other entry is unchanged, and no other entry is added. |
| Query.ResolvedKeyBuilds | crawling/foods_db_gui.py:302-319 | Once the key guard passes, `build_query` cannot raise. |
| Query.ParseInt | crawling/foods_db_gui.py:314 | Python's `int()` on stripped text succeeds exactly for an optional sign followed by digits, with single underscores allowed between digits. |
| Query.ParseOptionalInt | crawling/foods_db_gui.py:313-316 | Blank text gives `None`. Otherwise the result is the integer `int()` reads from the stripped text, or, exactly when it reads none, a not-an-integer error carrying that text. |
| Query.ParseOptionalIntRoundTrip | crawling/foods_db_gui.py:313-316 | Every integer written in decimal is read back as itself. |
| Query.ParseOptionalIntUnstripped | crawling/foods_db_gui.py:313-316 | Text that is already stripped and that `int()` accepts is read as that integer. |
| Query.Split | crawling/foods_db_gui.py:311 | `split(",")` yields at least one piece, and no piece contains the separator. |
| Query.SplitJoin | crawling/foods_db_gui.py:311 | Joining the pieces with the separator restores the text. |
| Query.StrippedNonEmpty | crawling/foods_db_gui.py:311 | No more keys than pieces. Each key is non-empty and stripped, and is the stripped form of some piece. |
| Query.StrippedNonEmptyComplete | crawling/foods_db_gui.py:311 | Every piece that is not blank once stripped gives a key. |
| Query.StrippedNonEmptySingle | crawling/foods_db_gui.py:311 | One piece gives its stripped form as the only key, or no key when it is blank. |
| Query.StrippedNonEmptyAppend | crawling/foods_db_gui.py:311 | The keys of two runs of pieces are the keys of the first run followed by the keys of the second. With the single-piece lemma, this gives the keys in piece order, one per non-blank piece. |
| Query.StrippedKeys | crawling/foods_db_gui.py:311 | Pieces that are already non-empty and stripped are kept as they are, all of them, in order. |
| Query.ParseKeyList | crawling/foods_db_gui.py:311 | Every dedupe key is non-empty, stripped and free of commas. Every comma-separated piece that is not blank once stripped gives a key. Text without a comma gives its stripped self as the only key. |
| Query.JoinSplit | crawling/foods_db_gui.py:311 | Splitting comma-free pieces joined with commas gives back those pieces. |
| Query.ParseKeyListOfJoin | crawling/foods_db_gui.py:311 | Text written as comma-separated pieces gives exactly the keys of those pieces, in order. |
| Query.ParseKeyListRoundTrip | crawling/foods_db_gui.py:311 | Non-empty, stripped, comma-free keys joined with commas are read back as exactly those keys, in order. |
| Query.KeyListCons | crawling/foods_db_gui.py:311 | A key typed in front of other keys with a comma and a space, as in "NUM, MAKER_NM", comes first. The keys after it are read as they would be alone. |
| RecordFilter.AnyContained | crawling/foods_db_gui.py:93 | True exactly when some pattern occurs at some position of the text. |
| RecordFilter.MatchesZero | crawling/foods_db_gui.py:89-93 | An empty name never matches. Otherwise a name matches exactly when one of the twelve zero patterns occurs in its lower-cased form. |
| RecordFilter.FilterRecord | crawling/foods_db_gui.py:125-136 | `is_zero` is the zero test on the stripped name. A record is kept exactly when the zero condition holds (if asked for) and the keyword occurs in the lower-cased stripped name or maker. An empty keyword always passes. |
| RecordFilter.KeywordIgnoresCase | crawling/foods_db_gui.py:130-132 | Lower-casing the keyword first changes nothing. |
| RecordFilter.ZeroNameKept | crawling/foods_db_gui.py:133-136 | Under `only_zero`, a stripped lower-case name containing a zero pattern is kept. |
| RecordFilter.PlainNameDropped | crawling/foods_db_gui.py:133-135 | Under `only_zero`, a stripped lower-case name containing no zero pattern is dropped. |
| RecordFilter.ZeroDrinkKept | crawling/foods_db_gui.py:125-136 | A name with "제로" inside it is kept under `only_zero`. |
| RecordFilter.RegularDrinkDropped | crawling/foods_db_gui.py:125-136 | An ordinary cola name is dropped under `only_zero`. |
| PreviewDedupe.Dedupe | crawling/foods_db_gui.py:139-148 | The result is an order-preserving subsequence in which no two records share a key tuple, and every key tuple of the input survives. |
| PreviewDedupe.DedupeKeepsFirst | crawling/foods_db_gui.py:139-148 | The result equals an independent definition: the records with no earlier record of the same key tuple. |
| PreviewDedupe.DedupeIdempotent | crawling/foods_db_gui.py:139-148 | Deduplicating twice equals deduplicating once. |
| PreviewDedupe.DedupeBy | crawling/foods_db_gui.py:141-148 | For any key, the seen-set loop keeps an order-preserving subsequence with pairwise distinct keys and the same key set as the input. |
| PreviewDedupe.DedupeByIsFirstOccurrences | crawling/foods_db_gui.py:141-148 | The loop keeps exactly the first record of each key. |
| PreviewDedupe.DedupeByIdempotent | crawling/foods_db_gui.py:141-148 | Running the loop on its own output changes nothing. |
| Grouping.GroupByIsReference | crawling/foods_db_gui.py:191-194 | The `setdefault`/`append` loop yields one group per distinct key, in order of first appearance, holding exactly that key's elements in input order. |
| Grouping.GroupBySpec | crawling/foods_db_gui.py:191-194 | Groups are non-empty and have distinct keys. A group holds exactly the elements with its key, and every element has a group. |
| Grouping.GroupByKeys | crawling/foods_db_gui.py:191-194 | No more groups than elements, with pairwise distinct keys. |
| Grouping.GroupByCovers | crawling/foods_db_gui.py:191-194 | Every element's key has a group. |
| Grouping.GroupByIsGrouping | crawling/foods_db_gui.py:191-194 | The dict's groups partition the input by key. |
| AmountKeys.AmtSuffixLeftmost | crawling/foods_db_gui.py:164-166 | When `AMT_NUM` followed by a digit first occurs at position j, the key is the number spelled by the run of digits after it. |
| AmountKeys.AmtSuffixNoMatch | crawling/foods_db_gui.py:164-166 | A name where `AMT_NUM` is never followed by a digit has key 0. |
| AmountKeys.AmtSuffixOfColumn | crawling/foods_db_gui.py:164-166 | A column named `AMT_NUM<n>` sorts by the number `n`. |
| AmountKeys.BeforeStrictTotal | crawling/foods_db_gui.py:167 | The column order is a strict total order: asymmetric, transitive, and total on distinct names. |
| AmountKeys.SortKeys | crawling/foods_db_gui.py:167 | Sorting a set lists each of its elements exactly once, in column order. |
| AmountKeys.AmtKeysAll | crawling/foods_db_gui.py:158-167 | Exactly the field names starting with `AMT_NUM` in any record, each once, in non-decreasing numeric suffix. An empty batch gives []. |
| SignatureDedupe.NormName | crawling/foods_db_gui.py:153-155 | The normalised name contains no whitespace and no capital letter, and is no longer than the name. |
| SignatureDedupe.NormNameIdempotent | crawling/foods_db_gui.py:153-155 | Normalising a normalised name changes nothing. |
| SignatureDedupe.NormNameIgnoresSpacing | crawling/foods_db_gui.py:153-155 | Names that agree once lower-cased and stripped of whitespace fall in one name group. |
| SignatureDedupe.LowerRemoveSpacesCommute | crawling/foods_db_gui.py:155 | Removing whitespace and lower-casing commute. |
| SignatureDedupe.DateInt | crawling/foods_db_gui.py:170-177 | The result is below 10^8. Empty text, or text with fewer than eight digits, gives 0. Otherwise the result is the number the first eight digits of the text spell, whatever lies between them. |
| SignatureDedupe.DateIntOfDate | crawling/foods_db_gui.py:170-177 | A date written `YYYYMMDD`, whatever follows it, reads as YYYY·10^4 + MM·10^2 + DD. |
| SignatureDedupe.DateIntSeparated | crawling/foods_db_gui.py:171-177 | A date written `YYYY-MM-DD`, whatever follows it, reads as the number `YYYYMMDD`. |
| SignatureDedupe.Signature | crawling/foods_db_gui.py:204-206 | A signature has one entry per amount column. |
| SignatureDedupe.SignatureEqual | crawling/foods_db_gui.py:204-206 | Two records share a signature exactly when every amount column has the same value in both after stripping. A missing column counts as "". |
| SignatureDedupe.Pick | crawling/foods_db_gui.py:213-221 | The loop's pick is from the cluster, or is the pick it started with. It is preferred to every member: a later date, or the same date and an earlier position. |
| SignatureDedupe.Survivor | crawling/foods_db_gui.py:208-222 | The record kept from a cluster is one of its members and is preferred to all of them. A lone member is kept as is. |
| SignatureDedupe.ClusterSurvivors | crawling/foods_db_gui.py:208-222 | One survivor per signature cluster, in cluster order. |
| SignatureDedupe.ClusterSurvivorsSpec | crawling/foods_db_gui.py:204-222 | Over a grouping by signature, the survivors come from the name group. They cover every signature once and are each preferred to every record with their signature. |
| SignatureDedupe.SurvivorsCover | crawling/foods_db_gui.py:190-224 | Every record's class has a survivor. |
| SignatureDedupe.SurvivorsBound | crawling/foods_db_gui.py:190-224 | There are no more survivors than records. |
| SignatureDedupe.DedupeByNameAndAmt | crawling/foods_db_gui.py:180-224 | The output has no more records than the input, and every output record comes from it. No two output records share a class (normalised name plus `AMT_NUM` values). Every class of the input appears in the output. |
| SignatureDedupe.DedupeKeepsLatest | crawling/foods_db_gui.py:212-222 | Every kept record is, at some position of the batch, the latest of its class, and the earliest of the class among records with that date. |
| SignatureDedupe.DedupeKeepsEveryLatest | crawling/foods_db_gui.py:212-222 | The record that is latest, and earliest among equal dates, in its class is always kept. |
| SignatureDedupe.SurvivorsLatest | crawling/foods_db_gui.py:212-222 | Each survivor, with its batch position, is dated no earlier than any record of its class, and on equal dates it comes first. |
| SignatureDedupe.DedupeOrder | crawling/foods_db_gui.py:190-210 | Output classes come in `ClassOrder`. Names appear in order of first appearance. Within a name, signatures appear in order of first appearance among that name's records. |
| CsvLedger.LastIndex | crawling/foods_db_gui.py:256-257 | Finds the last column named `k`, which is the cell `DictReader` keeps for a repeated column name. There is none exactly when `k` is not in the header. |
| CsvLedger.ReadNum | crawling/foods_db_gui.py:255-257 | A header without `NUM` reads every row's `NUM` as "". A row too short to reach a `NUM` column reads as "None", which is `str(None)`. A full row reads as the stripped cell under the last `NUM` column. |
| CsvLedger.Row | crawling/foods_db_gui.py:266 | A written row has one cell per column: the record's value, or "" when the record lacks that field. |
| CsvLedger.AppendFrom | crawling/foods_db_gui.py:262-267 | Written rows plus skipped records account for the whole batch. The seen set only grows. |
| CsvLedger.AppendFromIsAdmitted | crawling/foods_db_gui.py:262-267 | The loop writes exactly the admitted records, in order. |
| CsvLedger.AppendFromSeen | crawling/foods_db_gui.py:262-267 | After the loop, the seen `NUM`s are the initial ones plus every non-blank `NUM` of the batch. |
| CsvLedger.AppendFromCount | crawling/foods_db_gui.py:262-268 | The seen set grows by exactly the number of rows written, so every written `NUM` is new. |
| CsvLedger.AppendFromCovered | crawling/foods_db_gui.py:262-267 | When every non-blank `NUM` of the batch is already seen, nothing is written and every record is skipped. |
| CsvLedger.AppendFromNums | crawling/foods_db_gui.py:255-267 | The written rows read back as exactly the `NUM`s the loop added. |
| CsvLedger.ToCsv | crawling/foods_db_gui.py:227-284 | The result is an error exactly when an existing file lacks `NUM`. Appended plus skipped is the batch size. In append mode the header and the existing rows are unchanged and new rows go at the end. In write mode the header is the write columns, `total_existing` is 0, and every row is new. |
| CsvLedger.ToCsvAppendsAdmitted | crawling/foods_db_gui.py:259-268 | In append mode, the rows after the existing ones are exactly the admitted records, in batch order, laid out over the file's columns. A record is admitted when its `NUM` is non-blank, not in the file, and not used by an earlier record of the batch. |
| CsvLedger.ToCsvWritesAdmitted | crawling/foods_db_gui.py:270-284 | In write mode, the rows are exactly the records whose `NUM` is non-blank and not used by an earlier record, in batch order, laid out over the write columns. |
| CsvLedger.ToCsvTotalExisting | crawling/foods_db_gui.py:255-268 | `total_existing` is the number of distinct `NUM`s in the file plus the number of rows appended. |
| CsvLedger.WriteColumnsSplit | crawling/foods_db_gui.py:235-271 | The write-mode header is the seven base columns followed by the `AMT_NUM` columns when asked for, and by nothing otherwise. |
| CsvLedger.WriteColumnsAmt | crawling/foods_db_gui.py:236-246 | The columns after the base ones are every `AMT_NUM` field of the batch, each once, in non-decreasing suffix. |
| CsvLedger.RowsReadBack | crawling/foods_db_gui.py:257-266 | A row written over a header containing `NUM` reads back as its record's stripped `NUM`. |
| CsvLedger.ToCsvLedgerNums | crawling/foods_db_gui.py:248-284 | The resulting file has a `NUM` column. Its `NUM`s are the file's earlier `NUM`s plus every non-blank `NUM` of the batch. |
| CsvLedger.ToCsvRerun | crawling/foods_db_gui.py:248-268 | Saving the same batch again appends nothing, skips every record and leaves the file unchanged. |
| CsvLedger.ToCsvRefusesWithoutNum | crawling/foods_db_gui.py:252-254 | An existing file without a `NUM` column is refused with `NoNumColumn`. |
| CsvLedger.SkippedRecords | crawling/foods_db_gui.py:263-265 | A record is never written when its `NUM` is blank, already in the file, or used by an earlier record. |
| Pipeline.ToRecord | crawling/foods_db_gui.py:127-128 | A response object becomes a record with the same field names. String values are kept and other values become "". |
| Pipeline.Items | crawling/foods_db_gui.py:321 | The records of a response, one per extracted object, in order. |
| Pipeline.KeepMatching | crawling/foods_db_gui.py:324-329 | The filter loop keeps an order-preserving subsequence holding exactly the records the filter keeps. |
| Pipeline.Collect | crawling/foods_db_gui.py:323-339 | The run never shows more records than the response holds. |
| Pipeline.CollectSpec | crawling/foods_db_gui.py:323-339 | Every shown record comes from the response and passes the filter, and no two share a name-and-amounts class. With the preview dedupe on, no two share a key tuple. With it off, every class of the filtered batch is shown. |
| Text.StripSpec | crawling/foods_db_gui.py:127-128 | A stripped string has no whitespace at either end. |
| Text.StripIdempotent | crawling/foods_db_gui.py:311 | Stripping twice equals stripping once. |
| Text.StripNoop | crawling/foods_db_gui.py:311 | Text with no whitespace at either end is its own strip. |
| Text.RemoveSpaces | crawling/foods_db_gui.py:155 | Removing whitespace leaves none, never lengthens, and changes nothing in text without whitespace. |
| Text.ContainsIff | crawling/foods_db_gui.py:132 | Python's `k in s` holds exactly when `k` occurs at some position of `s`. |
| CrawlLog.PyPrefix | crawling/test.py:81 | `t[:n]` has Python's slice length: `min(n, len)` for non-negative `n`, and `len + n` (at least 0) for negative `n`. It keeps the characters in place. |
| CrawlLog.SafeChar | crawling/test.py:78-80 | Each of the nine path characters and `\n`, `\r`, `\t` becomes `_`. Every other character is kept, and the result is never unsafe. |
| CrawlLog.SafeText | crawling/test.py:78-80 | The text, same length, with every unsafe character turned into `_`. |
| CrawlLog.ReplaceEachIsMap | crawling/test.py:78-80 | A chain of `replace(ch, "_")` calls maps each character in the chain to `_` and leaves the others, since `_` is never itself replaced. |
| CrawlLog.ReplacementsAreSafeText | crawling/test.py:78-80 | The two replacement loops together turn exactly the nine path characters and `\n`, `\r`, `\t` into `_`. |
| CrawlLog.Sanitize | crawling/test.py:76-81 | No path or control character survives. A non-negative `max_len` bounds the length. |
| CrawlLog.SanitizeSpec | crawling/test.py:76-81 | The result is the Python-sliced prefix of the normalised stripped text, with each unsafe character turned into `_`. |
| CrawlLog.FolderName | crawling/test.py:84 | The product folder name has no space and no unsafe character, and is at most 80 characters long. |
| CrawlLog.SpacesReplaced | crawling/test.py:84 | Replacing spaces with `_` in safe text leaves no space and no unsafe character. |
| CrawlLog.CategoryFolder | crawling/test.py:85 | The category folder name has no unsafe character and is at most 80 characters long. |
| CrawlLog.FirstMatch | crawling/test.py:199-201 | Finds the first row for the product and category, or none exactly when no row matches. |
| CrawlLog.UpsertLogRow | crawling/test.py:197-213 | With a match, only the first matching row changes: its count, time and directory. Without one, a complete new row is appended. |
| CrawlLog.UpsertThenSkip | crawling/test.py:197-213 | A product just recorded is skipped on the next run. |
| CrawlLog.UpsertKeepsOthers | crawling/test.py:197-213 | Recording one product leaves every other product's first match and crawled state as they were. |
| CrawlLog.UpsertOverwrites | crawling/test.py:197-213 | Recording a product twice equals recording it once with the second values. |
| CrawlLog.SkipSpec | crawling/test.py:312-318 | Without `--force`, a product is skipped exactly when its first log row has both a count and a timestamp. |
| Frontend.DropLeadingSlashes | frontend/js/global.js:8 | Removes exactly the leading run of `/`: the removed prefix is all slashes, and the rest is kept in place and does not start with `/`. |
| Frontend.BuildApiUrl | frontend/js/global.js:4-10 | An `http://` or `https://` path is returned as is. Any other path loses its leading slashes only, so the result never starts with `/`. |
| Frontend.BuildApiUrlRelative | frontend/js/global.js:7-9 | A relative path is the removed slashes followed by the result. |
| Frontend.BuildApiUrlIdempotent | frontend/js/global.js:4-10 | Building a URL from a built URL changes nothing. |
| Frontend.RemoveJsSpaces | frontend/js/global.js:26 | The result holds exactly the characters of the text that JavaScript's `\s` does not match. |
| Frontend.KeepOnly | frontend/js/global.js:27 | The result holds exactly the characters of the text in `[0-9a-z가-힣]`. |
| Frontend.NormalizeText | frontend/js/global.js:22-28 | A missing or empty value gives "". Every character of the result is in `[0-9a-z가-힣]`. |
| Frontend.NormalizeTextIsFilter | frontend/js/global.js:22-28 | Normalising equals lower-casing and then keeping only `[0-9a-z가-힣]`, because whitespace removal makes no difference. |
| Frontend.NormalizeTextIdempotent | frontend/js/global.js:22-28 | Normalising normalised text changes nothing. |
| Frontend.SweetenerTagClass | frontend/js/global.js:44-49 | Each of the four sweetener names, counting both spellings of sugar alcohol, maps to its tag class, and the classes are exclusive. Any other name gives "". |

## Left out

- Text.Lower: lower-cases the ASCII letters only, while Python's `str.lower()` and JavaScript's `toLowerCase()` cover all of Unicode. Modelling the Unicode case tables is out of reach here.
- RecordFilter.FilterRecord: the keyword test inherits the ASCII-only lower-casing. A keyword "É" does not find "é" in the model, but does in the source.
- RecordFilter.MatchesZero: the name is lower-cased over ASCII only. Every zero pattern is lower-case, so only a non-ASCII capital that lower-cases to ASCII, such as the Kelvin sign, can change the outcome.
- SignatureDedupe.NormName: uses the ASCII-only lower-casing, so two names that differ only in a non-ASCII capital fall in different groups.
- SignatureDedupe.DateInt: keeps ASCII digits only. Python's `\D` and `int()` also accept other Unicode decimal digits, so a full-width date reads as 0 in the model but not in the source.
- AmountKeys.AmtSuffix: reads ASCII digits only after `AMT_NUM`, where Python's `\d+` and `int()` accept any Unicode decimal digit.
- Query.ParseInt: accepts ASCII digits only, where Python's `int()` accepts any Unicode decimal digit.
- AmountKeys.Before: breaks ties between equal suffixes by code-point order of the names. The source sorts a `set`, so ties follow its hash order, which varies from run to run. The model fixes one such order.
- Pipeline.ValueText: a non-string JSON value (a number, a boolean or null) becomes "". In the source, `.strip()` on a number raises at crawling/foods_db_gui.py:127, :143, :205 and :217, and `str()` renders it in `to_csv`. The model treats every field as text.
- Frontend.NormalizeText: the input is an optional string. JavaScript's `String(x)` on numbers and other objects, and the other falsy values (`0`, `false`, `NaN`), are not modelled.
- CrawlLog.Sanitize: `str(text)` on non-strings is not modelled. NFKC normalisation is a function parameter, not the Unicode algorithm.
- CrawlLog.UpsertLogRow: the `datetime.now()` timestamp is a parameter. Pandas dtype coercion (an integer column turning into floats once it holds a missing value) is not modelled.
- The HTTP request with its retries and timeout (`request_json`) is left out; the decoded response is an input.
- File I/O is left out: whether the CSV exists, its encoding, CSV quoting and `os.makedirs`. The existing file is an input, seen as header and rows.
- The Tk window, the collector thread, progress and status callbacks, and log messages are left out, because they are user interface and concurrency.
- The crawler's Selenium browsing, image download and conversion (`crawl_naver_images`, `robust_save_image`) are left out, because they are browser and network I/O. So is the `os.path.join` of the save path.
- `fetchJSON`, `getQueryParam` and the page scripts of the front end are left out, because they are browser I/O.
