# Verified model of four small data-processing utilities

This project is a Dafny model of four self-contained Python utilities:

- **Rate limiter** (`Q4_Rate_Limiter/main.py`). A sliding-window limiter keeps, for every user, the times of that user's admitted requests. A request is admitted only while fewer than `max_requests` of them lie inside the trailing `window` seconds. The limiter is a class with one mutable field, the per-user request log.
- **CSV cleaning** (`Q2_CSV_Data_Cleaning/main.py`). A row is kept when its email matches a fixed pattern and no earlier row with the same user id was kept.
- **Data aggregation** (`Q5_Data_Aggregation/main.py`). Dictionary records are grouped by the value of a key field, and a caller-supplied aggregator is applied to each group.
- **Article extraction** (`Q1_Web_Scraping/main.py`). A loop walks the anchors of a news page in document order. It keeps at most ten articles that have a title and a link to the news site, and makes relative links absolute.

Each utility is one module:

- `RateLimit` in `rate_limiter.dfy`.
- `CsvCleaning` in `csv_cleaning.dfy`.
- `DataAggregation` in `aggregation.dfy`.
- `NewsScraper` in `news_scraper.dfy`.

The limiter, whose object updates its request dictionary in place, is a class. `AllowRequest` is proved against the pure function `Decide`, which prunes with the recursive function `Prune` (the list comprehension of the source) and admits or denies. The loop that sends one user's requests in turn is the recursive function `Run`.

The other loops of the source are methods with loop invariants, each proved against a specification function:

- `FirstValidRows` for cleaning.
- `Keys`/`Group`/`Aggregated` for aggregation.
- `AllArticles`/`Take` for extraction.

The properties are proved as lemmas about those functions.

Modelling choices:

- **Clock.** The wall clock becomes an integer argument `now`. A call may not carry a time earlier than the user's latest admission.
- **Lock.** The lock that serialises `allow_request` becomes the atomicity of one method call.
- **Limiter settings.** The source never checks `max_requests` or `window`. The model follows that: any integers are accepted, and a non-positive maximum admits nothing. `Quota` captures this.
- **Email pattern.** The regular expression `^[a-zA-Z0-9._%+-]+@[a-zA-Z0-9.-]+\.[a-zA-Z]{2,}$` is written out as character-class predicates. Python's `$` also matches just before a final newline. So `IsValidEmail` accepts a well-formed address followed by one `\n`, exactly as `re.match` does.
- **Cleaned output.** The ordered dictionary `users` becomes the sequence of kept rows (its values, in insertion order) plus the set of ids seen.
- **Aggregation input.** Records are maps from field names to `Str`/`Int` values. The result map comes with the sequence of its keys in first-occurrence order, which is the iteration order of the Python dictionary.

## Model

| member | source | states |
|---|---|---|
| `RateLimit.Prune` | Q4_Rate_Limiter/main.py:59 | every entry younger than the window at `now` is kept with all its copies, every older entry is dropped, and the result is no longer than the log |
| `RateLimit.Decide` | Q4_Rate_Limiter/main.py:59-65 | no ensures of its own: `AllowRequest` states that the limiter's update is exactly `Decide`, and `DecideKeepsInvariant`, `ExpiredLogAdmits`, `BurstAdmitsRemainingQuota` and the sample lemmas give its meaning |
| `RateLimit.DecideKeepsInvariant` | Q4_Rate_Limiter/main.py:59-65 | a log within the quota, sorted and not after the clock stays so after one check, admitted or denied |
| `RateLimit.FirstRequestAdmitted` | Q4_Rate_Limiter/main.py:55-64 | an unseen user with a positive maximum is admitted and their log becomes `[now]` |
| `RateLimit.PruneSortedIsSuffix` | Q4_Rate_Limiter/main.py:59 | on a time-ordered log the filter only trims a prefix: the live entries are a suffix of the log, and every entry before that suffix has expired |
| `RateLimit.PruneKeepsOrder` | Q4_Rate_Limiter/main.py:59 | filtering a sorted log leaves it sorted |
| `RateLimit.PruneKeepsLive` | Q4_Rate_Limiter/main.py:59 | a log whose entries are all younger than the window is unchanged by the filter |
| `RateLimit.PruneDropsExpired` | Q4_Rate_Limiter/main.py:59 | a log whose entries are all at least a window old is emptied; the comparison is strict, so an entry exactly `window` old is dropped |
| `RateLimit.ExpiredLogAdmits` | Q4_Rate_Limiter/main.py:59-64 | once every admission is at least a window old, the next request is admitted and the log restarts at `[now]` |
| `RateLimit.Run` | Q4_Rate_Limiter/main.py:82-83 | a sequence of checks on one user yields one outcome per request |
| `RateLimit.BurstAdmitsRemainingQuota` | Q4_Rate_Limiter/main.py:53-65 | `n` checks at one instant on a log of `m` entries from that instant admit exactly `min(n, quota - m)` and the log grows by that many: no admission is lost or duplicated |
| `RateLimit.RunKeepsQuota` | Q4_Rate_Limiter/main.py:53-65 | any schedule of non-decreasing times keeps the log within `max_requests` entries and sorted |
| `RateLimit.SampleScheduleFills` | Q4_Rate_Limiter/main.py:89-93 | with 5 requests per 60 seconds, requests at 0, 10, 20, 30 and 40 are all admitted |
| `RateLimit.SampleScheduleDenies` | Q4_Rate_Limiter/main.py:89-93 | the sixth request of that schedule, at 50, is denied and the log is unchanged |
| `RateLimit.SampleScheduleExpiry` | Q4_Rate_Limiter/main.py:95-97 | with requests every 12 seconds, the sixth request at 60 is admitted because the entry from 0 has just expired |
| `RateLimit.RateLimiter.constructor` | Q4_Rate_Limiter/main.py:34-37 | a new limiter stores the two settings and starts with no user entries |
| `RateLimit.RateLimiter.AllowRequest` | Q4_Rate_Limiter/main.py:53-65 | the user's entry is created if missing, replaced by its live entries, and extended with `now` iff fewer than `max_requests` remain; the result says which; no other user's entry changes; every log stays sorted and within the quota |
| `RateLimit.SaturationStaysPerUser` | Q4_Rate_Limiter/main.py:92-97 | on one shared limiter, one user reaching the limit does not deny another user, and the first user is admitted again a window later |
| `CsvCleaning.IsValidEmail` | Q2_CSV_Data_Cleaning/main.py:11-14 | no ensures of its own: `ValidEmailIffPattern` proves it accepts exactly the pattern's strings, bare or followed by one newline, and `NewlineAfterWellFormed` shows the newline case |
| `CsvCleaning.IsWellFormedEmail` | Q2_CSV_Data_Cleaning/main.py:13 | no ensures of its own: `WellFormedIffPattern` proves it accepts exactly the strings of the pattern's shape |
| `CsvCleaning.IsValidDomain` | Q2_CSV_Data_Cleaning/main.py:13 | no ensures of its own: `PatternIsValidDomain` and `WellFormedDomain` give its meaning |
| `CsvCleaning.WellFormedMatchesPattern` | Q2_CSV_Data_Cleaning/main.py:13 | a string the whole-string check accepts has the shape local part, `@`, domain, `.`, two or more letters |
| `CsvCleaning.PatternIsValidDomain` | Q2_CSV_Data_Cleaning/main.py:13 | a domain of allowed characters, a dot and two or more letters passes the domain check |
| `CsvCleaning.LocalAtDomainIsWellFormed` | Q2_CSV_Data_Cleaning/main.py:13 | a non-empty local part, `@` and a valid domain pass the whole-string check |
| `CsvCleaning.PatternIsWellFormed` | Q2_CSV_Data_Cleaning/main.py:13 | every string of the pattern's shape passes the whole-string check |
| `CsvCleaning.WellFormedIffPattern` | Q2_CSV_Data_Cleaning/main.py:13 | the whole-string check accepts exactly the strings of the pattern's shape |
| `CsvCleaning.ValidEmailIffPattern` | Q2_CSV_Data_Cleaning/main.py:13-14 | the email check accepts exactly the strings of the pattern's shape, bare or followed by one newline |
| `CsvCleaning.WellFormedHasOneAt` | Q2_CSV_Data_Cleaning/main.py:13 | an accepted address holds exactly one `@`, preceded by a non-empty run of local characters |
| `CsvCleaning.WellFormedDomain` | Q2_CSV_Data_Cleaning/main.py:13 | after the `@` comes a non-empty run of domain characters, a dot and at least two letters ending the string |
| `CsvCleaning.WellFormedEndsInLetter` | Q2_CSV_Data_Cleaning/main.py:13 | an accepted address ends in a letter |
| `CsvCleaning.NewlineAfterWellFormed` | Q2_CSV_Data_Cleaning/main.py:13-14 | an address with a newline appended is not of the pattern's shape, yet the email check accepts it |
| `CsvCleaning.FirstValidInPrefix` | Q2_CSV_Data_Cleaning/main.py:24 | whether a row is the first valid row of its id depends only on the rows before it |
| `CsvCleaning.FirstValidRowsSnoc` | Q2_CSV_Data_Cleaning/main.py:21-25 | one more row is kept iff its email is valid and no earlier row of its id had a valid email |
| `CsvCleaning.FirstValidRowsIds` | Q2_CSV_Data_Cleaning/main.py:21-25 | a user id is in the output iff one of its rows has a valid email |
| `CsvCleaning.FirstValidRowsDistinct` | Q2_CSV_Data_Cleaning/main.py:24-25 | no two kept rows share a user id, and every kept row has a valid email |
| `CsvCleaning.FirstValidRowsAreFirst` | Q2_CSV_Data_Cleaning/main.py:24-25 | every kept row is the first row of its id with a valid email: later duplicates never replace it, earlier invalid rows never block it |
| `CsvCleaning.FirstValidRowsInOrder` | Q2_CSV_Data_Cleaning/main.py:18-31 | kept rows appear in the order of their first valid rows in the input |
| `CsvCleaning.CleanData` | Q2_CSV_Data_Cleaning/main.py:16-31 | the loop keeps exactly the first valid row of each user id, in input order; kept ids are distinct, their emails valid, and an id is kept iff it has a valid row |
| `DataAggregation.Keys` | Q5_Data_Aggregation/main.py:10-11 | the group keys are exactly the key values occurring in the data, each once |
| `DataAggregation.Group` | Q5_Data_Aggregation/main.py:10-11 | a group is no longer than the data; its contents are stated by `GroupMembers` |
| `DataAggregation.GroupMembers` | Q5_Data_Aggregation/main.py:10-11 | the group of `k` holds every record whose key field is `k`, as often as it occurs, and nothing else |
| `DataAggregation.GroupOfAbsentKey` | Q5_Data_Aggregation/main.py:8-11 | a value no record holds has no group |
| `DataAggregation.GroupSizesSnoc` | Q5_Data_Aggregation/main.py:11 | appending a record grows the total group size by one for each listed key equal to its key value |
| `DataAggregation.GroupsPartitionData` | Q5_Data_Aggregation/main.py:10-11 | the group sizes add up to the number of records: no record is lost or duplicated |
| `DataAggregation.GroupBy` | Q5_Data_Aggregation/main.py:8-11 | the loop builds one list per distinct key value, in first-occurrence order, each the records of that value in input order |
| `DataAggregation.AggregateData` | Q5_Data_Aggregation/main.py:6-13 | the result has an entry for a value iff some record holds it under the key, that entry is the aggregator applied to its group, and empty data gives an empty result |
| `DataAggregation.SampleGroups` | Q5_Data_Aggregation/main.py:16-20 | the sample records group into fruits (first two) and vegetables (third), in that order |
| `DataAggregation.SampleAggregation` | Q5_Data_Aggregation/main.py:16-23 | summing `value` per `category` gives fruits 30 and vegetables 15, and no other key |
| `NewsScraper.Qualifies` | Q1_Web_Scraping/main.py:80 | no ensures of its own: `QualifyingAnchorsYieldArticles` and `AllArticlesFromQualifying` show it is exactly the test that decides whether an anchor yields an article |
| `NewsScraper.FullLink` | Q1_Web_Scraping/main.py:81 | no ensures of its own: `FullLinkIsAbsolute` gives its meaning |
| `NewsScraper.FullLinkIsAbsolute` | Q1_Web_Scraping/main.py:81 | every full link starts with `http`, ends with the href it was made from, and contains `cnn.com` whenever the href does |
| `NewsScraper.ToArticle` | Q1_Web_Scraping/main.py:81-82 | no ensures of its own: `AllArticlesFromQualifying` states the title and link of every article |
| `NewsScraper.AllArticles` | Q1_Web_Scraping/main.py:75-82 | no ensures of its own: `QualifyingAnchorsYieldArticles` (completeness), `AllArticlesFromQualifying` (soundness) and `AllArticlesAppend` give its meaning |
| `NewsScraper.Take` | Q1_Web_Scraping/main.py:84-86 | the result is a prefix of the sequence, of length `n` or the whole sequence when it is shorter |
| `NewsScraper.AllArticlesAppend` | Q1_Web_Scraping/main.py:75-82 | the articles of consecutive runs of anchors concatenate |
| `NewsScraper.QualifyingAnchorsYieldArticles` | Q1_Web_Scraping/main.py:80-82 | every qualifying anchor yields its article |
| `NewsScraper.AllArticlesFromQualifying` | Q1_Web_Scraping/main.py:80-82 | every article has a non-empty title and a link containing `cnn.com`, and comes from a qualifying anchor, its link being the href or `https://edition.cnn.com` followed by the href |
| `NewsScraper.ExtractArticles` | Q1_Web_Scraping/main.py:72-88 | the loop returns the first ten articles of the qualifying anchors in document order (all of them when fewer), each with a title and a site link |

## Left out

- The lock in `allow_request` and the two demo threads: the model treats each call as atomic and does not model interleavings.
- `time.time()` and `time.sleep`: times are integer arguments instead of floating-point seconds, and a call must not be earlier than the user's latest admission.
- `simulate_user_requests` and every `print`: the per-request outcomes are returned rather than printed (`SaturationStaysPerUser`, `Run`).
- Reading and writing the CSV files: rows are a sequence with exactly the three columns `user_id`, `name` and `email`. A row with extra columns, which would make `DictWriter` raise, is not represented.
- `is_valid_email` returning a match object or `None`: the model returns the boolean that `clean_data` tests.
- A row or record without the looked-up field (Python's `KeyError`): the aggregation states it as a precondition, `HasKey`. Cleaning rows always carry their three columns.
- Aggregator failures: the aggregator is any total function on groups. In the sample, `SumValues` counts a missing or non-integer `value` as 0, where Python's `sum` would raise.
- Field values other than strings and integers.
- Fetching the page (`requests`, HTTP errors), parsing it with BeautifulSoup, `find_all` and the whitespace stripping of `get_text`: the page is given as its anchors in document order with already-stripped titles.
- `scrape` and its printing.
- The classes `CSVProcessor`, `DataAggregator` and `NewsScraper` as objects: they only hold file names, a URL or headers, so their operations are module-level methods.
- Validation of the limiter's settings: the code checks neither `max_requests` nor `window`, and neither does the model. A non-positive maximum admits nothing (`Quota`).
- Pruning by trimming from the front: the code filters the whole list. On the sorted logs the limiter keeps, this trims a prefix of expired entries (`PruneSortedIsSuffix`).
- The Django top-customers models and view: they are not part of this model.
