# Service-centre repair requests, modelled in Dafny

This project models the core of a small desktop application for a repair service
centre. The application keeps repair requests, the comments masters add to them and
the users who log in, all in an SQLite database. It reports statistics over the
requests, validates and formats phone numbers and e-mail addresses, estimates due
dates, converts a request to and from a dictionary, and imports users, requests and
comments from CSV exports.

There is one Dafny module per modelled source file, plus four modules that match no single source file:

- `Common` holds `Option`, character classes, `strip()`, `split()`, `int()`
  and the byte-wise text order SQLite's `ORDER BY` uses on text.
- `Dicts` holds Python dictionaries as insertion-ordered association lists: `get`,
  item assignment, counting (the hand-written `if k in d: d[k] += 1 else: d[k] = 1`
  loop and `GROUP BY ... COUNT(*)`), `max(d.items(), key=lambda x: x[1])[0]`
  and a counting result ordered by descending count, as `ORDER BY COUNT(*) DESC` returns it.
- `Timestamps` holds the calendar, `strptime`/`strftime` for `%Y-%m-%d` and
  `%Y-%m-%d %H:%M:%S`, day ordinals and `timedelta(days=n)`.
- `SqlLike` holds SQLite's `LIKE` operator, which the search query in `src/database.py` uses.

The modules for the source files are:

- `Models` covers `src/models.py`, with the `Result` type of `from_dict`.
- `Utils` covers `src/utils.py`.
- `Store` covers `src/database.py`. A class `Database` has the three tables as fields. Its methods are proved equal to pure functions of the table contents, and those functions keep the schema's invariants (AUTOINCREMENT keys, UNIQUE usernames, the comments→requests foreign key with `ON DELETE CASCADE`).
- `Algorithms` covers `src/algorithms.py`. Every report is a method with the source's loops, proved equal to a specification function, and the reports' promises are lemmas about those functions.
- `ImportCsv` covers `src/import_csv.py`. Each import is a loop over rows that calls the store's `INSERT OR IGNORE`. It is proved equal to a left fold of a per-row step that stops at the first failing row.

Python floats become exact rationals `Ratio(num, den)`; the final `round(..., 2)` is
not modelled. The clock (`datetime.now()`) and the password hash are parameters.

## Model

| member | source | states |
|---|---|---|
| Common.TextLeReflexive | src/database.py:168 | the text order used by `ORDER BY created_date` is reflexive |
| Common.TextLeTotal | src/database.py:168 | any two texts are comparable |
| Common.TextLeTransitive | src/database.py:168 | the text order is transitive |
| Common.TextLeAntisymmetric | src/database.py:168 | two texts each ordered before the other are equal |
| Common.TextLeConcat | src/algorithms.py:232-240 | comparing equal-length prefixed texts compares the prefixes first, then the rests |
| Common.ParseIntToDecimal | src/database.py:275 | the decimal text `CAST(id AS TEXT)` makes of an integer id, read back as an integer, is that id |
| Common.NatToDecimalValue | src/database.py:275 | the decimal text `CAST(id AS TEXT)` makes of a natural number denotes that number |
| Common.StripPadded | src/import_csv.py:28-31 | `strip()` removes exactly the whitespace around a word without edge whitespace |
| Common.WordsAreWords | src/utils.py:134 | every part `split()` returns is non-empty and free of whitespace |
| Dicts.GetPut | src/algorithms.py:102-117 | after `d[k] = v`, `d.get(k)` is v and every other key reads as before |
| Dicts.PutKeys | src/algorithms.py:102-117 | assigning to a present key keeps the key order |
| Dicts.PutAppends | src/algorithms.py:102-117 | assigning to a new key appends it at the end |
| Dicts.TallyCounts | src/database.py:297-300 | counting gives distinct keys, a total equal to the input length, and for each key its number of occurrences, absent keys having none |
| Dicts.TallyFirstOccurrence | src/algorithms.py:113-117 | a count dictionary lists its keys in order of first occurrence in the input |
| Dicts.FirstMaxIndex | src/algorithms.py:135-138 | `max(d.items(), key=lambda x: x[1])` picks an entry with the largest count and no earlier entry has that count |
| Dicts.InsertByCount | src/algorithms.py:184-189 | inserting into a list sorted by descending count keeps it sorted, adds exactly the entry, and adds its count to the total |
| Dicts.SortByCountDesc | src/algorithms.py:184-189 | sorting by descending count gives a sorted permutation with the same total |
| Timestamps.DaysInMonth | src/utils.py:78 | a month has 28 to 31 days |
| Timestamps.NextDayOrdinal | src/utils.py:78 | the next calendar day has the next day number |
| Timestamps.AddDaysOrdinal | src/utils.py:78 | adding n days, when defined, gives a valid date n day numbers later |
| Timestamps.ParseDate | src/algorithms.py:259-260 | a date text the model's `%Y-%m-%d` parser accepts is a valid date and formats back to the same text; `strptime` accepts more texts, as "## Left out" lists |
| Timestamps.ParseFormatDate | src/algorithms.py:259-260 | parsing a formatted valid date gives the date back |
| Timestamps.ParseDateTime | src/models.py:35-47 | a timestamp text the model's `%Y-%m-%d %H:%M:%S` parser accepts is a valid timestamp and formats back to the same text; `strptime` accepts more texts, as "## Left out" lists |
| Timestamps.FormatDateTime | src/models.py:35-47 | a formatted timestamp has 19 characters and starts with its formatted date |
| Timestamps.ParseFormatDateTime | src/models.py:35-47 | parsing a formatted valid timestamp gives it back |
| Timestamps.ParseDateTimeIff | src/models.py:35-47 | a text parses to t exactly when it is the formatting of t |
| Timestamps.OrdinalOrder | src/database.py:168 | calendar order of valid dates is the order of their day numbers |
| Timestamps.DigitsOrder | src/database.py:168 | zero-padded numbers of one width compare as texts as they compare as numbers |
| Timestamps.FormatDateOrder | src/database.py:168 | formatted dates compare as texts exactly as the dates compare in time |
| Models.CompletionStatusesAreLastChoices | src/models.py:102-108 | the statuses that stamp a completion date are exactly the last two status choices |
| Models.ToDict | src/models.py:33-48 | `to_dict` emits every key, and each datetime key holds null or a 19-character text |
| Models.StampField | src/models.py:65-68 | a parsed datetime field is a whole-second valid timestamp |
| Models.FromDict | src/models.py:51-88 | a record `from_dict` builds is a valid record |
| Models.StampRoundTrip | src/models.py:78-81 | a datetime field written by `to_dict` is read back unchanged |
| Models.FromDictToDict | src/models.py:26-88 | `from_dict(to_dict(r)) == r` for every record with whole-second datetimes |
| Models.FromEmptyDict | src/models.py:61-76 | `from_dict({})` is the record of dataclass defaults |
| Models.FromDictMalformedDate | src/models.py:65-68 | a non-empty malformed created date makes `from_dict` raise ValueError |
| Utils.KeepDigitsAndPlus | src/utils.py:21 | the cleaned phone holds only digits and '+' |
| Utils.KeepDigits | src/utils.py:39 | the cleaned phone holds only digits |
| Utils.ValidatePhoneNumber | src/utils.py:21-27 | an accepted phone has 11 or 12 kept characters |
| Utils.PlusBranchUnreachable | src/utils.py:39-44 | the `startswith('+7')` branch of `format_phone_number` can never be taken |
| Utils.KeepDigitsThroughPlus | src/utils.py:21-27 | removing the '+' signs from the digits-and-plus form gives the digits |
| Utils.ValidPhoneDigits | src/utils.py:21-27 | an accepted phone has 11 digits starting with 7 or 8, and its last ten kept characters are those digits after the first |
| Utils.ValidPhoneIsFormatted | src/utils.py:39-47 | every accepted phone is formatted to the 18-character canonical form, which is accepted again and keeps the digits with 8 read as 7 |
| Utils.FormatPhoneIdempotent | src/utils.py:39-49 | formatting a formatted phone changes nothing, whatever the input |
| Utils.CanonicalDigits | src/utils.py:47 | the canonical form keeps exactly the 11 digits it was built from |
| Utils.CanonicalDigitsAndPlus | src/utils.py:47 | the canonical form's digits and '+' signs are "+" then its 11 digits |
| Utils.DaysToAdd | src/utils.py:63-74 | the repair days are between 1 and 3, and 2 for an unknown device type |
| Utils.DueDateIsCreatedPlusDays | src/utils.py:74-81 | an unparsable created date gives the undetermined answer; otherwise a defined due date is the created day plus the repair days |
| Utils.DueDateDefinedAwayFromYear9999 | src/utils.py:76-81 | a parsable created date before year 9999 always gives a due date |
| Utils.DeviceTypesHaveRepairDays | src/models.py:110-119 | every listed device type has its own repair duration |
| Utils.MatchEmailComplete | src/utils.py:121-122 | the matcher accepts exactly the texts of the e-mail shape |
| Utils.ValidateEmail | src/utils.py:111-122 | `validate_email` is true exactly when the pattern matches |
| Utils.NewlineEndsNoEmail | src/utils.py:121 | the e-mail shape itself never ends in a newline, so `validate_email` accepts a newline-ended text only as a shaped text followed by the single newline `$` allows |
| Common.WordsCons | src/utils.py:134 | a word followed by a whitespace run splits off as the first word of `split()` |
| Common.WordsLeadingSpace | src/utils.py:134 | leading whitespace does not change `split()` |
| Common.WordsTrailingSpace | src/utils.py:134 | trailing whitespace does not change `split()` |
| Common.WordsStrip | src/utils.py:134 | `split()` after `strip()` gives the same words as `split()` alone |
| Utils.WordsJoinSpaced | src/utils.py:134 | `split()` of words separated by non-empty whitespace runs gives the words back |
| Utils.SplitNameSpaced | src/utils.py:124-143 | `split_name` of any whitespace-separated full name, with any padding, gives its first three words, "" where missing |
| SqlLike.FoldAscii | src/database.py:275-278 | LIKE folds the case of ASCII letters only |
| SqlLike.PercentMatchesAll | src/database.py:271 | `'%'` matches every text |
| SqlLike.UnderscoreMatchesAnyNonEmpty | src/database.py:271 | `'%_%'` matches every non-empty text |
| SqlLike.LikeLiteralPrefix | src/database.py:271-278 | a pattern starting with a literal matches exactly when the literal matches the start and the rest matches the remainder |
| SqlLike.LikeLeadingPercent | src/database.py:271-278 | a leading `%` matches exactly when the rest matches some suffix |
| SqlLike.SubstringSearch | src/database.py:271-278 | `'%t%'` with a literal t matches exactly the texts containing t |
| Store.EmptyTablesValid | src/database.py:45-86 | the freshly created schema satisfies every table invariant |
| Store.AddRequestAppendsOne | src/database.py:119-150 | `add_request` appends one row with a fresh larger id, status "Новая", the given fields and both dates set; it fails only when the id counter is exhausted, and nothing else changes |
| Store.UpdateWhere | src/database.py:197-199 | `UPDATE ... WHERE id = ?` changes exactly the rows with that id |
| Store.UpdateStatusChangesOneRow | src/database.py:182-202 | a status update sets the status and updated date, stamps the completion date for completion statuses, sets the master only when one is given, and keeps every other row and field |
| Store.StatusFieldsAssign | src/database.py:184-197 | the SET list the source assembles applies to a row as the status update |
| Store.ExtendDeadlineChangesOneRow | src/database.py:208-219 | extending a deadline sets only the deadline and updated date of that request |
| Store.AddCommentChecksRequest | src/database.py:239-261 | a comment is added exactly when its request exists; it is appended with a fresh larger id and the given fields, and nothing else changes |
| Store.DeleteCascades | src/database.py:71-73 | deleting a request removes it and exactly its comments and keeps the invariants |
| Store.InsertNewestFirst | src/database.py:168 | inserting into a newest-first list keeps it ordered and adds exactly the row |
| Store.SortNewestFirst | src/database.py:168 | sorting gives a newest-first permutation |
| Store.GetAllRequestsSelects | src/database.py:161-171 | `get_all_requests` returns newest first, all rows without a filter, else exactly the rows with that status |
| Store.SearchRequestsFinds | src/database.py:271-282 | the search returns newest first exactly the rows whose id, client name, phone or model matches the pattern |
| Store.SearchHitLiteral | src/database.py:272-278 | for a term without wildcards a row is a hit exactly when one of the four columns contains the term |
| Store.SearchRequestsLiteral | src/database.py:271-282 | for a term without wildcards the results are exactly the rows where one of the four columns contains the term |
| Store.StatisticsCount | src/database.py:294-315 | the totals: the request count, and status and device counts with distinct keys that count each value's rows and sum to the total |
| Store.Authenticate | src/login.py:34-40 | login returns a user with that login and hash, or none when no such user exists |
| Store.AuthenticateFindsTheUser | src/login.py:34-40 | with unique usernames every stored user can log in as themselves |
| Store.InsertUserKeepsUnique | src/database.py:78-86 | `INSERT OR IGNORE` of a user ignores a taken username, otherwise appends the user with the next id, and keeps usernames unique |
| Store.FullNameOf | src/import_csv.py:65-71 | the lookup finds a full name exactly when a user has that id |
| Store.InsertRequestKeepsKeys | src/import_csv.py:74-100 | `INSERT OR IGNORE` of a request ignores a taken id, otherwise appends it, and keeps the invariants |
| Store.InsertCommentKeepsKeys | src/import_csv.py:127-142 | `INSERT OR IGNORE` of a comment ignores a taken id, fails when its request is missing, otherwise appends it |
| Store.Database.constructor | src/database.py:21-25 | a new database has empty tables |
| Store.Database.AddRequest | src/database.py:107-155 | the method performs `add_request` on the tables and returns an id larger than every id issued before |
| Store.Database.UpdateRequestStatus | src/database.py:173-202 | the method performs the status update and reports whether the request existed |
| Store.Database.ExtendDeadline | src/database.py:204-223 | the method performs the deadline update and reports whether the request existed |
| Store.Database.AddComment | src/database.py:229-261 | the method adds the comment when its request exists and otherwise changes nothing |
| Store.Database.DeleteRequest | src/gui.py:295-298 | the method deletes the request with its comments |
| Store.Database.InsertUser | src/import_csv.py:35-44 | the method performs `INSERT OR IGNORE` of a user |
| Store.Database.InsertRequest | src/import_csv.py:74-100 | the method performs `INSERT OR IGNORE` of a request |
| Store.Database.InsertComment | src/import_csv.py:127-142 | the method performs `INSERT OR IGNORE` of a comment, changing nothing on a foreign-key failure |
| Algorithms.RepairSeconds | src/algorithms.py:42-47 | a repair time exists exactly when both timestamps parse |
| Algorithms.CalculateAverageRepairTime | src/algorithms.py:10-58 | the loop computes the mean repair hours of the completed rows, 0 when there are none or a date is malformed |
| Algorithms.AverageWithoutCompletedIsZero | src/algorithms.py:35-36 | with no completed request the average is 0 |
| Algorithms.AverageAbortsOnBadDate | src/algorithms.py:56-58 | one completed request with a malformed date makes the average 0 |
| Algorithms.AverageBetweenBounds | src/algorithms.py:35-58 | when some completed row exists and every completed row parses, the average lies between any bounds lo..hi on the individual repair times; otherwise it is 0 |
| Algorithms.AverageTwentyNineHours | src/algorithms.py:40-54 | a request created at 10:00 and completed at 15:00 the next day averages 29 hours |
| Algorithms.AverageOfOne | src/algorithms.py:40-54 | one completed request averages its own repair time |
| Algorithms.RepairTimesSomeIff | src/algorithms.py:40-49 | the repair times exist exactly when every row's dates parse |
| Algorithms.CalculateStatusDistribution | src/algorithms.py:160-203 | the loop computes the status distribution function |
| Algorithms.StatusGroupsExact | src/algorithms.py:184-189 | the groups are sorted by descending count, count each status exactly, have distinct statuses, cover every status and total the row count |
| Algorithms.StatusDistributionCovers | src/algorithms.py:184-189 | every status present in the table appears in the distribution |
| Algorithms.StatusDistributionOrdered | src/algorithms.py:180-189 | the distribution is empty for an empty table and ordered by descending count |
| Algorithms.StatusDistributionCounts | src/algorithms.py:194-197 | each entry counts its status exactly with percentage count·100/total, statuses distinct |
| Algorithms.StatusDistributionTotals | src/algorithms.py:177-199 | the counts sum to the total and the percentages to 100, each between 0 and 100 |
| Algorithms.InsertByDeviceType | src/algorithms.py:86-87 | inserting keeps rows ordered by device type and adds exactly the row |
| Algorithms.SortByDeviceType | src/algorithms.py:86-87 | `ORDER BY device_type` gives an ordered permutation |
| Algorithms.CalculateRequestStatisticsByDevice | src/algorithms.py:60-158 | the loops compute the per-device statistics function |
| Algorithms.GroupByDeviceType | src/algorithms.py:95-128 | the grouping loop computes the grouping function, None on a malformed date |
| Algorithms.CountRequest | src/algorithms.py:102-128 | one loop iteration adds the row to its device group |
| Algorithms.GroupRowsExact | src/algorithms.py:95-128 | the grouping succeeds exactly when every completed row's dates parse, and then holds one distinct group per present device type with exactly that type's rows |
| Algorithms.DeviceStatisticsAborts | src/algorithms.py:120-122 | one completed row with a malformed date makes the result empty |
| Algorithms.DeviceStatisticsEntry | src/algorithms.py:131-154 | there is an entry exactly for each present device type, summarising that type's rows |
| Algorithms.DeviceStatisticsCounts | src/algorithms.py:110-151 | each entry counts its type's rows and completed rows, with rate completed·100/total between 0 and 100 |
| Algorithms.DeviceStatisticsTotal | src/algorithms.py:95-128 | when no finished row's dates fail to parse, the entries' total_requests add up to the number of requests |
| Algorithms.DeviceStatisticsAverage | src/algorithms.py:140-143 | each entry's average is the mean repair time of its completed rows |
| Algorithms.MostCommonFirst | src/algorithms.py:135-138 | the most common problem occurs in the input with the largest count, and the first to occur wins a tie |
| Algorithms.MostCommonProblem | src/algorithms.py:113-138 | each device entry's most common problem is that type's most frequent problem, the first to occur winning a tie |
| Algorithms.PerDay | src/algorithms.py:262 | requests per day times days is the request count |
| Algorithms.GetPerformanceMetrics | src/algorithms.py:205-314 | the loops compute the metrics function, reading the columns the source reads |
| Algorithms.ProcessingTimes | src/algorithms.py:267-273 | the processing-time loop computes the processing times from the column the source reads |
| Algorithms.StampTimesOfCompletion | src/algorithms.py:267-273 | read from the completion date, the processing times are the repair times of the rows with a completion date |
| Algorithms.StampTimesLength | src/algorithms.py:267-273 | there is one processing time per row with a non-empty stamp |
| Algorithms.StampTimesAborts | src/algorithms.py:269-271 | one malformed stamp makes the processing times fail |
| Algorithms.CountMasters | src/algorithms.py:280-289 | the master loop computes the master counts |
| Algorithms.MasterCountsExact | src/algorithms.py:280-289 | the master counts have distinct keys and for each master count its rows and its completed rows |
| Algorithms.RateMasters | src/algorithms.py:292-296 | the efficiency loop rates every master |
| Algorithms.EfficienciesBounded | src/algorithms.py:292-296 | every master has a non-empty name, a positive total, no more completed than total, and efficiency completed·100/total between 0 and 100 |
| Algorithms.GetEfficiencies | src/algorithms.py:292-296 | rating keeps the masters and rates each one's counts |
| Algorithms.SqlLengthBounded | src/algorithms.py:299 | SQLite's `LENGTH` of a text is at most its length, equal exactly when it holds no NUL |
| Algorithms.PartsLengthAppend | src/algorithms.py:299-302 | the summed parts length of two comment lists is the sum of theirs |
| Algorithms.WindowSpansADay | src/algorithms.py:258-262 | when a row lies in the window the window spans at least one day |
| Algorithms.RequestsPerDayInWindow | src/algorithms.py:258-264 | requests per day fails exactly on an unparsable bound, is the count without both bounds, else the count over a positive day span |
| Algorithms.InWindowRows | src/algorithms.py:228-243 | a row created inside the window is selected |
| Algorithms.MasterEfficiencyExact | src/algorithms.py:280-296 | the efficiency dictionary has distinct masters and rates exactly each master's rows |
| Algorithms.DeadlineAbortsMetrics | src/algorithms.py:269-271 | as written, one windowed row with a date-only deadline makes the metrics `{}` |
| Algorithms.ClientNameMiscounts | src/algorithms.py:288 | as written, a completed request is not counted as completed for its master, but it is counted when the status column is read |
| Algorithms.IntendedMetricsExact | src/algorithms.py:205-310 | read from the completion-date and status columns, the metrics count the windowed rows, average their repair times, rate each master exactly and cost the parts |
| ImportCsv.RowId | src/import_csv.py:89 | an imported id is an integer within SQLite's rowid range that the column denotes |
| ImportCsv.RoleOf | src/import_csv.py:16-33 | the imported role is always one of the application's roles |
| ImportCsv.RoleOfPadded | src/import_csv.py:31-33 | a user type is matched after stripping and lower-casing, unknown types becoming the default role |
| ImportCsv.ClientNameOf | src/import_csv.py:65-71 | the client's name is that of a user with the given id, or the unknown-client text when none has it |
| ImportCsv.ClientNameOfUser | src/import_csv.py:65-71 | with unique user ids the client name is that user's full name |
| ImportCsv.ImportUsers | src/import_csv.py:13-46 | the user import loop is the row-by-row fold that stops at the first failing row |
| ImportCsv.ImportRequests | src/import_csv.py:57-102 | the request import loop is the row-by-row fold that stops at the first failing row |
| ImportCsv.ImportComments | src/import_csv.py:111-144 | the comment import loop is the row-by-row fold that stops at the first failing row |
| ImportCsv.UserRowStored | src/import_csv.py:27-44 | a user row succeeds exactly when its columns are present and its login is taken or an id is left; it then keeps the login present, appending the stripped user with its hashed password and mapped role when new |
| ImportCsv.RequestRowStored | src/import_csv.py:63-100 | a request row succeeds exactly when its columns are present and its id is an integer; it keeps the other tables and appends the request when the id is new |
| ImportCsv.ImportedRequestFields | src/import_csv.py:74-100 | an imported request has the row's id and status, the placeholder phone, no master or deadline, midnight of the row's dates, and no completion date exactly for "null" |
| ImportCsv.MidnightStamp | src/import_csv.py:97-98 | under the model's parsers, a date with " 00:00:00" appended parses exactly when the date does, to its midnight; `strptime` also accepts a date with trailing whitespace once " 00:00:00" is appended, as "## Left out" lists |
| ImportCsv.CommentRowStored | src/import_csv.py:117-142 | a comment row for a missing request is skipped; otherwise it succeeds exactly when its columns are present and its id is an integer, and it appends the comment with author "master_" + id when the id is new |
| ImportCsv.ReimportUsers | src/import_csv.py:35-44 | importing the same users again changes nothing and succeeds |
| ImportCsv.ReimportRequests | src/import_csv.py:74-100 | importing the same requests again changes nothing and succeeds |
| ImportCsv.ReimportComments | src/import_csv.py:118-142 | importing the same comments again changes nothing and succeeds |
| ImportCsv.ImportedCommentsCostNothing | src/import_csv.py:127-142 | imported comments carry no ordered parts, so they add nothing to the parts cost |

## Left out

- Rounding: Python floats are exact rationals `Ratio(num, den)`, and `round(x, 2)` is not applied anywhere.
- Algorithms.CalculateAverageRepairTime: states the exact mean, not the value rounded to two decimals.
- Algorithms.CalculateStatusDistribution: percentages are exact, not rounded to two decimals.
- Algorithms.CalculateRequestStatisticsByDevice: the completion rate and average are exact, not rounded.
- Algorithms.GetPerformanceMetrics: requests per day, average hours and efficiencies are exact, not rounded.
- Store.StatisticsCount: `average_completion_hours` is left out because it is computed by SQLite's `julianday` in floating point. The dictionary order of the counts is not stated.
- SQL `ORDER BY` does not fix the order of ties. The model sorts stably, so ties keep table order, and table scans return rows in insertion order.
- `GROUP BY` result order: the model keeps the order in which keys first occur.
- Timestamps.ParseDateTime, Timestamps.ParseDate: the model accepts only the fixed-width form, with exactly one ' ' between date and time and two ASCII digits per field. `strptime` accepts more, and the model reads every one of these texts as malformed:
  - The space in the format matches any run of whitespace, including tabs and Unicode spaces, so "2024-01-01\t10:00:00" and "2024-01-01  10:00:00" parse.
  - `%d` also matches a space-padded day, such as "2024-01- 5".
  - Month, day, hour, minute and second fields may have one digit.
  - `\d` matches every Unicode decimal digit.
  - Years are not among these differences: both take exactly four digits, so a year below 1000 is accepted only zero-padded, such as "0999". Dates are years 1 to 9999.
  - One consequence: a CSV `startDate` of "2024-01-01 " is stored as "2024-01-01  00:00:00". Python parses that text, so `calculate_average_repair_time` computes a mean, where the model returns 0.
- ImportCsv.MidnightStamp: holds for the model's parsers. `strptime` rejects "2024-01-01 " as a date but accepts it once " 00:00:00" is appended, because the two spaces then match the format's one space.
- `strftime('%Y')` does not zero-pad a year below 1000 on some platforms, where `Timestamps.FormatDate` always writes four digits. This affects the texts `to_dict` and `calculate_due_date` produce for such years.
- The empty-window metrics dictionary uses the key `average_processing_time`, which differs from the populated one. The model has a separate `NoRequests` result, not key names.
- File and console I/O: reading CSV files into rows of column → text, and the error messages printed, are not modelled. A row is a map from column name to text.
- The clock: `now` is a parameter. An import uses one `now` for all its rows, where the source reads the clock per row.
- `hash_password` is a function parameter of the user import.
- Transactions: an import commits once, after its loop. When a row raises, the rows inserted before it stay in the connection's open transaction. The model keeps them in the tables, as that connection sees them. Whether a later commit or rollback keeps them is not modelled.
- SQLite's type affinity and `int()`: an id text is read as an optional sign followed by one or more ASCII digits. Python's `int()` also accepts surrounding whitespace, underscores between digits and non-ASCII decimal digits. SQLite's affinity also turns texts such as " 7" or "7.0" into integers. The model treats all of these as non-integers.
- Models.FromDict: a text field holding a non-text value (such as `None`) or an `id` that is not an integer is rejected as `TypeMismatch`, because the model's record fields are typed. Python's `from_dict` stores such a value in the record as it is.
- Utils.KeepDigits: keeps the ASCII digits only, where `\d` in the source's regular expression also matches every other Unicode decimal digit.
- Utils.KeepDigitsAndPlus: keeps the ASCII digits and '+' only, where `\d` also matches every other Unicode decimal digit.
- Storage errors (`sqlite3.Error`) other than constraint failures, such as the error path of `extend_deadline`, are not modelled.
- The GUI (`src/gui.py`) is not modelled except the delete statement. `generate_report_filename`, `src/qr_generator.py` and `main.py` are not part of this model.

## Findings

| source | as written | input that shows it | evidently intended | confidence | as-written member | corrected member |
|---|---|---|---|---|---|---|
| src/algorithms.py:269-271 | the processing time reads column 9 of `SELECT *`, which is `deadline`, and parses it as a full timestamp | a request inside the window whose deadline is a date such as "2024-05-01": `strptime` raises and the metrics are `{}` | read column 10, `completion_date` | not executed | Algorithms.DeadlineAbortsMetrics | Algorithms.IntendedMetricsExact |
| src/algorithms.py:288 | a request counts as completed for its master when column 5 equals "Завершена"; column 5 is `client_name` | one request with status "Завершена", master "Иванов" and client "Петров": the master's efficiency is 0, not 100 | compare column 7, `status` | not executed | Algorithms.ClientNameMiscounts | Algorithms.IntendedMetricsExact |
