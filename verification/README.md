# houspiders in Dafny

A model of the bookkeeping at the heart of houspiders, a scraper for listings on
LIFULL HOME'S. The model covers these parts:

- The **list processor** (`house_list_processor/main.py`). It takes the listing
  snapshot crawled today and de-duplicates it by `house_id`. It reconciles the
  snapshot against the `lifull_house_link` rows stored as available, splitting it
  into newly unavailable, possibly new, updated and unchanged listings. It upserts
  or updates the link rows, counts the affected rows, and emits the worklist of
  ids for the detail spider.
- The **info processor** (`house_info_processor/main.py`). This covers:
  - the district picked from an address;
  - marking a listing unavailable;
  - the append-only price history, which gets a row only when the price changed;
  - the SQL encoding of a parsed listing, and its upsert into `lifull_house_info`;
  - one `lifull_stations_near_house` row per nearby station.
- The **detail spider** (`house_info_spider/.../house_info_spider.py`). This
  covers:
  - which ids it requests;
  - how a fetched page marks a listing available or unavailable;
  - the per-day `lifull_crawler_stats` counter of listings that became unavailable.
- The **helpers** (`utils/utils.py`, `db/utils.py`). These are the digit
  extraction of `get_int_from_text` and the listing URL. They also include the
  `UPDATE` / `INSERT ... ON DUPLICATE KEY UPDATE` statements with their
  placeholder counts, and how MySQL reports affected rows.

How the database is modelled:

- A table is a `map` from key to record, and a record maps column names to the
  bound parameter values, exactly as the code passes them. A string column
  therefore holds `'name'` with its quotes, and the `'null'` string literal is
  kept as written.
- Affected-row counts follow MySQL's convention without `CLIENT_FOUND_ROWS`.
  An upsert reports 1 for an insert, 2 for a changed row and 0 for an identical
  row. An `UPDATE` by key reports 1 if it changed the row and 0 otherwise.
- The clock (`get_date_str_today`) is a `today` parameter. The list of Tokyo
  districts is a `districts` parameter.

The modules follow the program:

- `Values` holds column values and records.
- `Sql` models `db/utils.py`.
- `Tables` models how MySQL applies an upsert or an update.
- `TextUtils` models `utils/utils.py`.
- `Seqs` holds generic sequence helpers.
- `Snapshot` models reading the CSV and de-duplicating it.
- `Reconcile` models the merge and the filters.
- `ListProcessor` models the handlers and `main`.
- `Frames` models the merged frame's column names.
- `InfoProcessor` models the database side of the info processor.
- `InfoSpider` models the spider.

## Model

| member | source | states |
|---|---|---|
| Values.Overlay | db/utils.py:13-25 | writing a column list over a record keeps every other column and sets each assigned column to its last assigned value |
| Values.OverlayIdempotent | db/utils.py:13-25 | writing the same column list twice leaves the record as after the first write |
| Values.AssignedIffColumn | db/utils.py:14-15 | a column has an assigned value exactly when it is among the column list's keys |
| Sql.IsRowExistBindsValue | db/utils.py:8-10 | a row exists exactly when the existence query reports a positive row count with the looked-up value as its one parameter |
| Sql.ExistsQueryValueFree | db/utils.py:8-10 | the value never enters the existence query's text, only its parameter, so two values give the same query and different parameters |
| Sql.ExistsPlaceholders | db/utils.py:8-10 | the existence query has exactly one placeholder for its one parameter |
| Sql.UpdateQueryColumnsOnly | db/utils.py:13-25 | the update's query text depends only on the column names, never on the values; column i is assigned `col=%s` and the i-th parameter is its value |
| Sql.UpdatePlaceholders | db/utils.py:13-25 | the update query has as many placeholders as it has parameters |
| Sql.InsertQueryColumnsOnly | db/utils.py:28-49 | the upsert's query text depends only on the column names of the insert and the on-duplicate part; the parameters are the insert values, then the on-duplicate values, in order |
| Sql.InsertPlaceholders | db/utils.py:28-49 | the insert query has as many placeholders as parameters, with or without the on-duplicate clause |
| Sql.Assignments | db/utils.py:16 | one `col=%s` per column, in order |
| Sql.Repeat | db/utils.py:36 | `["%s"] * n` has length n and every entry is `%s` |
| Tables.Upsert | db/utils.py:28-49 | the key is present afterwards and no other row changes; the row count is 1 exactly when the key was new, and 0 exactly when nothing changed |
| Tables.UpsertReads | db/utils.py:28-49 | reading a column of the written row gives the insert's value for a new key, else the on-duplicate value when assigned, else the stored value |
| Tables.Update | db/utils.py:13-25 | no key is added or removed and no other row changes; the count is 0 or 1, it is 0 exactly when nothing changed, and it is 0 for a missing key |
| Tables.UpdateReads | db/utils.py:13-25 | reading a column of the updated row gives the assigned value when the column is set, else the stored value |
| Tables.UpsertReplay | db/utils.py:28-49 | replaying an upsert whose insert and on-duplicate maps coincide reports 0 and changes nothing |
| Tables.UpdateReplay | db/utils.py:13-25 | replaying an update of the same values reports 0 and changes nothing |
| Tables.Append | house_info_processor/main.py:181-187 | an insert without a key conflict appends one row and keeps every earlier row |
| Tables.AppendReads | house_info_processor/main.py:181-187 | the appended row holds the inserted value in each inserted column and NULL elsewhere |
| TextUtils.GetIntFromText | utils/utils.py:13-19 | a string gives a non-negative number, and a string with no digit gives 0; a non-string gives None |
| TextUtils.GetIntFromTextSnoc | utils/utils.py:13-19 | the empty string gives 0; appending a digit d to a text worth v gives 10 v + d, and appending any other character leaves v |
| TextUtils.LeadingZeroExample | utils/utils.py:13-19 | `0123` parses to 123: leading zeros are dropped by `int()` |
| TextUtils.DigitsAppend | utils/utils.py:15 | the digits of a concatenation are the digits of each part, concatenated |
| TextUtils.NonDigitIrrelevant | utils/utils.py:13-19 | inserting a non-digit anywhere in the text does not change the parsed number |
| TextUtils.ReparseDecimal | utils/utils.py:13-19 | the decimal rendering of n parses back to n |
| TextUtils.ReparseResult | utils/utils.py:13-19 | rendering a parsed number and parsing it again gives the same number |
| TextUtils.PriceLabelExample | utils/utils.py:13-19 | the price label `1,234万円` parses to 1234 |
| TextUtils.UrlShape | utils/utils.py:5-6 | every URL from which an id can be read is the listing prefix, an integer's text and the `/?iskks=1` suffix |
| TextUtils.UrlRoundTrip | utils/utils.py:5-6 | the id can be read back from the URL built for it, for every integer id |
| TextUtils.ParseIntToString | utils/utils.py:5-6 | the decimal rendering of any integer, negative ones included, parses back to it |
| Seqs.KeepFirstBy | house_list_processor/main.py:110 | keeps rows of the input with pairwise distinct keys, covering exactly the input's keys minus those already seen |
| Seqs.KeepFirstSnoc | house_list_processor/main.py:110 | appending a row to the input appends it to the output exactly when its key was neither seen nor occurs earlier, so the output is the input's first occurrences in input order |
| Seqs.KeptFirstOccurrence | house_list_processor/main.py:110 | every kept row is the first input row with its key |
| Seqs.SortedKeys | house_list_processor/main.py:123 | the outer merge's key order: strictly increasing, with exactly the set's members |
| Snapshot.Insert | house_list_processor/main.py:106-109 | inserting a row into the sort adds exactly that row (as a multiset) |
| Snapshot.SortRows | house_list_processor/main.py:106-109 | the result is sorted by id ascending, with missing ids last and promoted rows first, and is a permutation of the input |
| Snapshot.Dedup | house_list_processor/main.py:103-110 | the de-duplicated snapshot has the same set of ids and is strictly ascending; each row comes from the input, a promoted row is kept whenever its id has one, and the kept row is the best row of its id |
| Snapshot.Best | house_list_processor/main.py:106-110 | reference for the row kept per id, without sorting: some row of that id exists exactly when the id occurs, and it is promoted whenever any row of that id is |
| Snapshot.BestIsFirst | house_list_processor/main.py:106-110 | no earlier row in file order has the best row's id and flag, so among equal rows the first one is kept |
| Snapshot.SortRowsRowFor | house_list_processor/main.py:106-109 | the first row of each id after the stable sort is the best row for that id |
| Snapshot.InsertRowFor | house_list_processor/main.py:106-109 | inserting a row into the sort makes it the first of its id exactly when it may precede the previous first; other ids keep theirs |
| Snapshot.DedupIdempotent | house_list_processor/main.py:106-110 | de-duplicating twice is the same as once |
| Snapshot.KeepFirstPrefersPromoted | house_list_processor/main.py:106-110 | after the sort, keep-first keeps a promoted row for every id that has one |
| Reconcile.Available | house_list_processor/main.py:116-120 | exactly the rows whose `is_available` is truthy, read as (promoted flag, price) |
| Reconcile.Classify | house_list_processor/main.py:118-133 | possibly new: exactly the rows without an available counterpart. Updated: exactly those with one whose flag or price differs. A row with no id is possibly new. With an empty store, the whole snapshot is possibly new. The groups keep ascending order |
| Reconcile.ClassifyMatchesClassOf | house_list_processor/main.py:123-129 | each id's group agrees with an independent per-id reference classification |
| Reconcile.NewlyUnavailableExactly | house_list_processor/main.py:125 | an id is newly unavailable exactly when it is stored as available and missing from the snapshot |
| Reconcile.GroupsDisjoint | house_list_processor/main.py:125-129 | no id is in two groups |
| Snapshot.RowFor | house_list_processor/main.py:123 | the joined row for an id comes from the rows and carries that id; there is none exactly when the id is absent |
| ListProcessor.ListingFieldsEffect | house_list_processor/main.py:39-46 | the on-duplicate columns make the row show the snapshot listing as available and leave its first-available date untouched |
| ListProcessor.InsertFieldsEffect | house_list_processor/main.py:26-36 | an inserted row shows the snapshot listing as available, first available today, with the string literal `null` bound as its unavailable date |
| ListProcessor.UpsertListing | house_list_processor/main.py:26-46 | after the upsert the row shows the listing; a new row reports 1 and has today as first-available date, and an existing row keeps its date |
| ListProcessor.UpdateListing | house_list_processor/main.py:65-76 | the update by `house_id` touches only that row, reports 0 or 1, and makes a stored row show the listing |
| ListProcessor.HandlePossibleNew | house_list_processor/main.py:16-55 | the run aborts exactly when a row lacks an id or a price; the two counters together are at most the number of rows; no stored id disappears; ids outside the rows are untouched |
| ListProcessor.HandlePossibleNewShows | house_list_processor/main.py:25-46 | after the handler every possibly new row is shown in the store |
| ListProcessor.HandlePossibleNewAdded | house_list_processor/main.py:47-48 | the added counter is the number of rows whose id was not stored |
| ListProcessor.HandlePossibleNewCounted | house_list_processor/main.py:47-50 | when no row was already shown, every row is counted as added or as re-opened |
| ListProcessor.HandleUpdated | house_list_processor/main.py:58-83 | the count is between 0 and the number of rows, no key appears or disappears, and rows of other ids are untouched |
| ListProcessor.HandleUpdatedShows | house_list_processor/main.py:64-76 | after the handler every updated row is shown in the store |
| ListProcessor.HandleUpdatedCounted | house_list_processor/main.py:77 | when each row differed from the store, the summed row count is the number of rows |
| ListProcessor.QueuedIds | house_list_processor/main.py:142 | the queued ids are the rows' ids, in row order |
| ListProcessor.Run | house_list_processor/main.py:86-157 | a run never removes a listing from the link table, whether it completes or stops at a failed write |
| ListProcessor.RunAborts | house_list_processor/main.py:103-147 | the run stops exactly when the snapshot has a row without an id or a possibly new row without a price |
| ListProcessor.MissingIdAborts | house_list_processor/main.py:26-46 | a snapshot row without an id stops the run whatever the link table holds |
| ListProcessor.RunWrites | house_list_processor/main.py:136-147 | a completed run shows every possibly new and updated row. Every other id is left as it was, and newly unavailable rows are not written |
| ListProcessor.RunCounts | house_list_processor/main.py:141-157 | added counts the possibly new ids not stored before. Added plus re-opened is the size of the possibly new group. Updated is the size of the updated group |
| ListProcessor.RunWorklistUpdateOnly | house_list_processor/main.py:135-147 | the worklist holds exactly the newly unavailable, possibly new and updated ids, each once |
| ListProcessor.RunQueue | house_list_processor/main.py:136-147 | the worklist is the newly unavailable ids, then the possibly new ones, then the updated ones, each in ascending order |
| ListProcessor.RunWorklistAll | house_list_processor/main.py:149-150 | under `all`, the worklist is every snapshot id in ascending order, and the writes and counts are those of the default strategy |
| ListProcessor.RunIdempotent | house_list_processor/main.py:86-150 | running again on the same snapshot on any day writes nothing, counts zero, and queues only the newly unavailable ids |
| ListProcessor.SecondClassification | house_list_processor/main.py:118-129 | after a completed run, the same snapshot has no possibly new or updated listing, and the same newly unavailable ids |
| ListProcessor.NothingToDo | house_list_processor/main.py:136-147 | with no possibly new or updated listing, the run writes nothing and queues only the newly unavailable ids |
| Frames.MergeAsWrittenLacksNew | house_list_processor/main.py:123-126 | the merge as written produces no `is_pr_item_new` column, which the handlers read |
| Frames.MergeCorrectedHasColumns | house_list_processor/main.py:123-129 | with suffixes `_new`/`_old`, every column the handlers and the updated filter read exists |
| Frames.EmptyStoreFrameAsWrittenLacksNew | house_list_processor/main.py:130-141 | with an empty store, the snapshot handed to the handler lacks `is_pr_item_new` |
| Frames.EmptyStoreFrameCorrectedHasColumns | house_list_processor/main.py:130-141 | renamed as the merge would name them, the snapshot's columns cover the handler's |
| InfoProcessor.DistrictsIn | house_info_processor/main.py:21-26 | the result lists exactly the districts that occur in the name, and is no longer than the district list |
| InfoProcessor.ContainsIsSubstring | house_info_processor/main.py:24 | the `in` test agrees with an independent substring definition |
| InfoProcessor.DistrictsInAppend | house_info_processor/main.py:21-26 | the matches over two district lists are those of each list, concatenated in order |
| InfoProcessor.ChooseDistrict | house_info_processor/main.py:51-59 | no match gives the empty string; otherwise the result is the first district in list order that occurs in the address |
| InfoProcessor.DistrictFor | house_info_processor/main.py:49-59 | a missing address fails unless the district list is empty, in which case it gives the empty string |
| InfoProcessor.ProcessUnavailable | house_info_processor/main.py:155-168 | the row is marked unavailable as of today with every other column kept; other rows are untouched; the count is 0 exactly when nothing changed |
| InfoProcessor.HistoryOf | house_info_processor/main.py:175-177 | a listing's history is exactly the log's rows for that `house_id` |
| InfoProcessor.UpdatePriceIfChanged | house_info_processor/main.py:171-190 | one row is appended exactly when there is no record or the latest price differs; it holds the id, price and today, and earlier rows are kept |
| InfoProcessor.LedgerRecordsChanges | house_info_processor/main.py:171-190 | over any series of observations, the stored prices are the series with consecutive repeats removed, and the latest price is the last observed |
| InfoProcessor.LedgerExample | house_info_processor/main.py:180 | observing 100, 100, 150, 150, 100 stores 100, 150, 100 |
| InfoProcessor.Escape | house_info_processor/main.py:209 | escaping never shortens a string and leaves a string without quotes unchanged |
| InfoProcessor.UnescapeEscape | house_info_processor/main.py:209 | escaping quotes is undone by unescaping |
| InfoProcessor.EscapedQuotes | house_info_processor/main.py:209 | every quote in an escaped string is preceded by a backslash |
| InfoProcessor.EncodeValue | house_info_processor/main.py:202-210 | no encoded value is None or a boolean |
| InfoProcessor.EncodeRepresents | house_info_processor/main.py:202-210 | None becomes `'null'`, a boolean becomes 1 or 0, a string becomes a quoted string that unescapes to it, and numbers pass through |
| InfoProcessor.Remove | house_info_processor/main.py:195-200 | deleting a field removes exactly that column |
| InfoProcessor.EncodeAll | house_info_processor/main.py:202-210 | encoding keeps the columns and their order |
| InfoProcessor.InfoMap | house_info_processor/main.py:195-210 | the info columns are the listing's attributes minus `num_null_fields`, and none holds None or a boolean |
| InfoProcessor.InfoMapRepresents | house_info_processor/main.py:195-210 | every info value represents the listing attribute of the same column |
| InfoProcessor.UpsertInfo | house_info_processor/main.py:212-217 | the info row is present afterwards and no other row changes; it reports 1 exactly when the id was new, and replaying the upsert changes nothing |
| InfoProcessor.InsertStations | house_info_processor/main.py:223-233 | one row per station, in order, appended after the existing rows |
| InfoProcessor.StationRowReads | house_info_processor/main.py:224-230 | a station row holds the id, the quoted line and station names, and the walking minutes |
| InfoProcessor.ProcessHouseInfo | house_info_processor/main.py:239-251 | the listing's own price is checked first and logged as the ledger step says. The info table becomes the upsert of the listing's info map, reporting 1 exactly when the id was new. The station table becomes the station inserts' result |
| InfoProcessor.ProcessedStationRows | house_info_processor/main.py:222-233 | the page adds one station row per station, in order, after the earlier rows, each holding that station's fields |
| InfoProcessor.ProcessedPriceAgrees | house_info_processor/main.py:247-251 | afterwards the latest logged price is the listing's price, and the info row's `price` column holds the same price as the encoder writes it |
| InfoProcessor.InfoMapPrice | house_info_processor/main.py:195-210 | the bound info map assigns `price` the listing's encoded price |
| InfoProcessor.ProcessTwice | house_info_processor/main.py:239-251 | processing the same listing again adds no price row and changes no info row, so both report 0 |
| InfoSpider.RequestsFor | house_info_spider/house_info_spider/spiders/house_info_spider.py:112-120 | one request per input row, in order |
| InfoSpider.StartRequests | house_info_spider/house_info_spider/spiders/house_info_spider.py:101-120 | an empty file yields no request in any mode. Error mode requests each input id exactly once. Otherwise every row is requested in order |
| InfoSpider.DistinctInputUnchanged | house_info_spider/house_info_spider/spiders/house_info_spider.py:107-109 | on an input without duplicates, error mode requests the same as normal mode |
| InfoSpider.ParsePage | house_info_spider/house_info_spider/spiders/house_info_spider.py:122-168 | a gone page marks the listing unavailable and counts it exactly when a row changed. A page in the wrong format changes nothing. Otherwise the stored row becomes available with no unavailable date |
| InfoSpider.MarkAvailable | house_info_spider/house_info_spider/spiders/house_info_spider.py:159-165 | the update marks a stored listing available, clears its unavailable date and keeps every other column |
| InfoSpider.GoneCountedOnce | house_info_spider/house_info_spider/spiders/house_info_spider.py:124-131 | a second gone page for the same listing on the same day changes nothing and is not counted |
| InfoSpider.GoneUnknownNotCounted | house_info_spider/house_info_spider/spiders/house_info_spider.py:124-131 | a gone page for a listing the link table lacks changes nothing and is not counted |
| InfoSpider.ParseAll | house_info_spider/house_info_spider/spiders/house_info_spider.py:122-131 | no listing is added or removed, and the counter grows by at most the number of pages |
| InfoSpider.CountedAtMostGone | house_info_spider/house_info_spider/spiders/house_info_spider.py:124-131 | the counter grows by at most the number of gone pages |
| InfoSpider.TruncateReal | house_info_spider/house_info_spider/spiders/house_info_spider.py:83 | `int()` truncates toward zero |
| InfoSpider.AsCount | house_info_spider/house_info_spider/spiders/house_info_spider.py:83 | `int()` of the stored count: an integer is itself, and NULL (read as NaN) or a string fails |
| InfoSpider.StatsLookup | house_info_spider/house_info_spider/spiders/house_info_spider.py:73-78 | the lookup by date, category and city yields at most one row, and yields one exactly when the key is stored |
| InfoSpider.SpiderClosed | house_info_spider/house_info_spider/spiders/house_info_spider.py:71-99 | it fails exactly when the stored count is not a number. Otherwise the key's total becomes the stored count, or 0 if absent, plus today's count. No other key changes |
| InfoSpider.ClosingTwiceAdds | house_info_spider/house_info_spider/spiders/house_info_spider.py:71-95 | closing twice on one day stores the sum of both counts on top of the earlier total |

## Left out

- `get_mysql_cnx` (db/utils.py:4-5), commits, cursors and closing connections are
  left out. Each statement is modelled as applied atomically to an in-memory table.
- `get_date_str_today` (utils/utils.py:9-10) is left out. The date is the
  `today` parameter, so the model places no calendar constraint on it.
- `get_float_from_text` (utils/utils.py:22-28) is left out. Nothing in the
  modelled core calls it, and it returns a float.
- `TextUtils.GetIntFromText` counts only ASCII and full-width digits as `\d`.
  Other Unicode decimal digits, which Python's `re` also matches, are not
  modelled.
- `utils/constant.py` is not part of this model. The Tokyo district list is a
  parameter.
- The `HouseInfo` constructor (house_info_processor/main.py:29-149) is left out.
  It scrapes the HTML with CSS selectors. The model takes its attributes as
  given: the id, name, room and price in the order `__init__` sets them, then
  the remaining scalars as a list of columns. `InfoProcessor.DistrictFor` models
  only its district pick.
- `process_mansion_info`, `process_rent_info`, the four-argument
  `process_unavailable_house` and the chintai/mansion URL helpers are left out.
  The spider calls them, but their code is not part of this model. A gone page
  uses the three-argument `InfoProcessor.ProcessUnavailable` on the link table.
- The spider's chintai branch (house_info_spider.py:133-148), the raw HTML save
  (154-156), `errback_httpbin` (171-199) and logging are left out. Only the
  mansion flow is modelled, and file output and logging do not affect the tables.
- `Reconcile.Available` reads stored flags with a simplified truthiness. NULL,
  0 and any string are false, and other numbers are true. That is how MySQL's
  `WHERE is_available` reads them, leaving out MySQL's coercion of numeric
  strings. The stored `is_pr_item` is read by pandas' `astype(bool)` instead
  (house_list_processor/main.py:120). There a NULL (read as NaN) and any
  non-empty string are true, so the model differs on those two kinds of stored
  value. Rows the model writes hold only booleans, so the difference matters
  only for rows stored by other means.
- `Reconcile.Classify` lets `dropna` (house_list_processor/main.py:127) drop a
  joined row only for a missing price. The snapshot's name, category and city
  are modelled as strings that are always present. An empty CSV cell in one of
  them, which pandas would also drop, is not modelled.
- `Reconcile.Available` is not scoped by category or city, following the code.
  The `SELECT` at house_list_processor/main.py:116-117 reads every available
  listing.
- MySQL's coercion of quoted literals is not modelled: a string bound as `'x'`
  is stored as written, quotes included.
- A missing id or price read from the snapshot CSV is a float NaN. The driver
  binds it as the bare word `nan`, which the database rejects, so the write
  fails and the run stops (`ListProcessor.RunAborts`). A possibly new row
  without a price stops the run in the same way as a row without an id. An
  updated row always has both prices, because `dropna` removed the others. The
  info processor's missing price is Python's `None`, which is bound as NULL.
- `InfoProcessor.StationFields` does not escape quotes in station names, as in
  the source. The model assumes the station table has no unique key, since its
  schema is not part of this model, so re-processing a listing appends its
  station rows again.
- `InfoProcessor.LatestPrice` reads the latest row as the last one appended.
  The `order by price_date` query leaves same-day ties unordered.
- `num_duplicated_new_houses` (house_list_processor/main.py:104-105) is
  computed but never used, and is left out.
- The command-line blocks are left out. The list processor's `main` is modelled
  by its signature, not by the call at house_list_processor/main.py:208 that
  passes `strategy` as the output path.
- The info processor is modelled with an integer id, as in the `--id` branch at
  house_info_processor/main.py:292, which calls `int()`. The directory loop at
  house_info_processor/main.py:297-301 passes the file's base name, a string.
  The encoder would then write it as the quoted literal `'12345'`. This path is
  not modelled.
- InfoSpider.AsCount: a string holding decimal digits fails instead of
  parsing as `int()` would; the column is an integer column, so the read never
  yields a string.
- `ListProcessor.HandleUpdatedCounted` and `ListProcessor.HandlePossibleNewCounted`
  require that no row is already shown in the store. The classification
  guarantees this for the groups the run hands them.

## Findings

| source | as written | input that shows it | evidently intended | confidence | as-written member | corrected member |
|---|---|---|---|---|---|---|
| house_list_processor/main.py:123 | `merge(..., how='outer', on=['house_id'])` uses pandas' default suffixes `_x`/`_y`, but lines 125-129 and the handlers read `is_pr_item_new`, `is_pr_item_old`, `listing_house_price_new` and `listing_house_price_old` | any run where the store holds at least one available listing | `suffixes=('_new', '_old')`, the snapshot as new and the store as old | not executed | Frames.MergeAsWrittenLacksNew | Frames.MergeCorrectedHasColumns |
| house_list_processor/main.py:130-141 | with no available listing stored, the raw snapshot goes to `handle_possible_new_house_df`, which reads `row.is_pr_item_new` and `row.listing_house_price_new` | the first run on an empty `lifull_house_link` table | the snapshot's listing columns read as the `_new` side | not executed | Frames.EmptyStoreFrameAsWrittenLacksNew | Frames.EmptyStoreFrameCorrectedHasColumns |
