# django-twitter storage and feed core, in Dafny

This project models the part of the django-twitter service that decides what
gets stored and what a client gets back. It covers five pieces:

- **HBase row mapper.** `HBaseModel` turns a record into an HBase row and back.
  The row-key fields are serialised and joined with `:`. Integer fields are
  zero-padded to 16 digits, and a `reverse` field is stored reversed. Every
  other field becomes a `family:name` column. `HBaseFollowing` and
  `HBaseFollower` are the two concrete tables.
- **Endless pagination.** `EndlessPagination` answers `created_at__gt` (newer
  than), `created_at__lt` (older than) and first-page requests. It can serve
  them from an in-memory newest-first list, a query set, the Redis cache or an
  HBase scan.
- **Redis helper.** `RedisHelper` keeps length-limited object lists: it reads
  them, fills them on a miss and pushes onto them. It also keeps per-object
  counters.
- **News-feed fanout.** The Celery fanout writes one news feed for the author
  and one for each follower, sending the followers out in batches of
  `FANOUT_BATCH_SIZE`. The model also covers the older single-call service.
- **`required_params` decorator.** It rejects a request that lacks required
  parameters with a 400 response naming them.

The files follow the source's structure:

- `fields.dfy`: field kinds and per-field serialisation.
- `hbase_model.dfy`: the row mapper.
- `friendships.dfy`: the two friendship tables.
- `pagination.dfy`: all four pagination paths.
- `redis_helper.dfy`: cached lists and counters.
- `fanout.dfy`: the fanout tasks and the service.
- `decorators.dfy`: `required_params`.
- Shared helpers: `wrappers.dfy` (`Option`, `Result`), `sequences.dfy` and
  `strings.dfy` (Python's `str(int)`, `int(str)`, `find`, `join` and `split`,
  and string order as HBase compares keys).

External effects become values:

- An HBase `put` is a `PutRequest` value.
- The Redis store is a map from key to list, or from key to count.
- `lazy_load_objects` and `refresh_from_db` are parameters.
- Celery's `delay` is the list of dispatched `BatchTask`s.
- An HBase scan is a filter over the rows under a key prefix, newest first.

Exceptions become `Err` values of a `Result`.

## Model

| member | source | states |
|---|---|---|
| Fields.SerializeField | django_hbase/models/hbase_models.py:33-40 | an integer field's string is at least 16 characters and exactly 16 when the number is shorter; other fields keep the length of `str(value)`; the result contains ':' exactly when `str(value)` does |
| Fields.DeserializeValue | django_hbase/models/hbase_models.py:104-108 | an untyped field reads back a string that, re-reversed when the field is reversed, is the stored text; an integer or timestamp field reads back an integer exactly when `int()` accepts the (un-reversed) text, and never from the empty string |
| Fields.FieldRoundTrip | django_hbase/models/hbase_models.py:102-108 | `deserialize_field` gives back every value `serialize_field` wrote that the field can carry: naturals on integer fields, any int on timestamps, strings on untyped fields, whether reversed or not |
| Fields.SerializeFieldInjective | django_hbase/models/hbase_models.py:33-40 | two values of the same field serialise to the same string if and only if they are equal |
| Fields.IntFieldOrder | django_hbase/models/hbase_models.py:35-39 | on a non-reversed integer field, key order (string order) agrees with numeric order in both directions for numbers below 10^16, which is what the zero padding is for |
| Fields.ReversedIntFieldOrderIsNeither | django_hbase/models/hbase_models.py:40 | a reversed integer field keeps 1 before 2 but puts 10 before 1, so reversal neither keeps nor inverts numeric order |
| HBaseModel.LookupField | django_hbase/models/hbase_models.py:23-30 | the field found carries the requested name; nothing is found exactly when no declared field has that name |
| HBaseModel.Construct | django_hbase/models/hbase_models.py:18-21 | an instance keeps exactly the keyword arguments that name declared fields, with their values |
| HBaseModel.RowKeySegmentsOk | django_hbase/models/hbase_models.py:50-61 | building the key succeeds if and only if every row-key field has a value whose serialised form has no ':'; on success the segments are those serialised values in declaration order |
| HBaseModel.RowKeySegmentsErr | django_hbase/models/hbase_models.py:55-60 | on failure the error names the first row-key field that is missing or whose serialised value holds ':' |
| HBaseModel.SerializeRowDataColumns | django_hbase/models/hbase_models.py:65-80 | a cell is stored exactly for each column field with a value, under `family:name` and holding its serialised value; there are no cells exactly when no column field has a value |
| HBaseModel.DeserializeRowKeyReadsSegments | django_hbase/models/hbase_models.py:83-99 | reading a key with the append-':'-and-find loop is the same as splitting it at ':' and decoding the i-th piece as the i-th `Meta.row_key` field |
| HBaseModel.RowKeyPrefixRoundTrip | django_hbase/models/hbase_models.py:83-99 | the first k segments of a serialised key read back as exactly the first k row-key fields of the record, so a prefix key yields a partial record |
| HBaseModel.RowKeyRoundTrip | django_hbase/models/hbase_models.py:43-99 | for a consistent schema, reading back a serialised row key gives the record's row-key fields and nothing else |
| HBaseModel.ColumnsRoundTrip | django_hbase/models/hbase_models.py:139-143 | reading back the serialised cells, with the column family stripped from each key, adds exactly the record's column values to the data read so far |
| HBaseModel.KeyAndColumnsCoverRecord | django_hbase/models/hbase_models.py:116-144 | the row-key fields together with the column values rebuild the whole record, so a save loses nothing |
| HBaseModel.InitFromRow | django_hbase/models/hbase_models.py:134-144 | an empty row, and only an empty row, gives no instance |
| HBaseModel.GetTableName | django_hbase/models/hbase_models.py:153-159 | a missing or empty table name, and only that, is an error; otherwise the name is kept, with a `test_` prefix under testing |
| HBaseModel.Save | django_hbase/models/hbase_models.py:116-123 | saving fails with the empty-column error exactly when no column field has a value; it succeeds exactly when there is a column value, a table name and a valid row key; the checks come in the source's order (columns, then table, then key); a success puts the serialised cells under the serialised key into the named table |
| HBaseModel.SerializeRowKey | django_hbase/models/hbase_models.py:43-62 | a key exists exactly when every row-key field has a value free of ':' once serialised, and then it splits at ':' back into the serialised values; the only errors are a missing field and a ':' in a value |
| HBaseModel.DeserializeField | django_hbase/models/hbase_models.py:102-108 | a name no field declares is an `UnknownField` error (the `KeyError` of `get_field_hash()[key]`); otherwise it succeeds exactly when the named field decodes the text, and the only other error is a bad integer |
| HBaseModel.SerializeRowData | django_hbase/models/hbase_models.py:65-80 | at most one cell per declared field; every cell is the `family:name` key and serialised value of a declared column field that has a value |
| HBaseModel.DeserializeRowKey | django_hbase/models/hbase_models.py:83-99 | a key yields only fields named in `Meta.row_key`; reading fails only on an undeclared field or a value `int()` rejects |
| HBaseModel.DeserializeColumns | django_hbase/models/hbase_models.py:139-143 | reading cells keeps every field read so far and adds only names carried by the cells' keys; it fails only on an undeclared field or a value `int()` rejects |
| HBaseModel.Create | django_hbase/models/hbase_models.py:110-114 | the created instance is the constructor's instance, holding only keyword arguments it was given; it is what gets saved, and creation fails exactly when that save fails, with the same error |
| HBaseModel.CreateThenInitFromRow | django_hbase/models/hbase_models.py:110-144 | every declared keyword argument is kept by `create`, and the row it stores reads back as the created instance, plain column values being compared as text |
| HBaseModel.SaveThenInitFromRow | django_hbase/models/hbase_models.py:116-144 | for a consistent schema, the row a save writes reads back as the saved record |
| Friendships.FollowingConsistent | friendships/hbase_models.py:4-15 | the following table's field names are distinct, its `Meta.row_key` lists its key fields in declaration order, and its column family has no ':' |
| Friendships.FollowerConsistent | friendships/hbase_models.py:18-29 | the same holds for the follower table |
| Friendships.FollowingSave | friendships/hbase_models.py:4-15 | saving a following edge writes one `cf:to_user_id` cell under the key "reversed padded from-id : created_at" |
| Friendships.FollowerSave | friendships/hbase_models.py:18-29 | saving a follower edge writes one `cf:from_user_id` cell under the key "reversed padded to-id : created_at" |
| Friendships.FollowingRoundTrip | friendships/hbase_models.py:4-15 | the stored following row reads back as the same edge |
| Friendships.FollowerRoundTrip | friendships/hbase_models.py:18-29 | the stored follower row reads back as the same edge |
| Friendships.UserSegmentShape | friendships/hbase_models.py:9 | a user's key segment never holds ':' and is exactly 16 characters for ids below 10^16 |
| Friendships.UserPrefixSeparates | friendships/hbase_models.py:4-15 | the prefix "user segment :" starts an edge key if and only if the key belongs to that same user |
| Friendships.FixedWidthUserSegment | friendships/hbase_models.py:4-15 | the first 16 characters of an edge key are the user's segment, and two keys share them if and only if they belong to the same user |
| Pagination.PaginateOrderedList | utils/paginations.py:19-48 | a newer-than page has no next page and holds only newer objects; any other page holds at most page-size objects, and exactly that many when there is a next page; an older-than page starts with an older object |
| Pagination.OrderedListNewer | utils/paginations.py:21-33 | a newer-than page is the longest leading run of strictly newer objects, and it never has a next page |
| Pagination.OrderedListOlder | utils/paginations.py:36-48 | an older-than page is the page-size window starting at the first strictly older object, with a next page exactly when objects remain after the window |
| Pagination.OrderedListFirst | utils/paginations.py:36-48 | the first page is the first page-size objects, with a next page exactly when there are more |
| Pagination.OrderedListBounded | utils/paginations.py:36-48 | an older-than or first page holds at most page-size objects, and exactly that many when a next page exists |
| Pagination.PaginateOrderedListLoop | utils/paginations.py:19-48 | the loop form, which scans with `break` and `for ... else`, returns the same page and next-page flag as the reference definition |
| Pagination.ScrollVisitsAll | utils/paginations.py:36-48 | when no two objects share a creation time, following the older-than cursor from the first page until no next page remains returns every object exactly once, in order |
| Pagination.ScrollSkipsTiedObjects | utils/paginations.py:36-48 | with two objects created at the same time and a page size of 1, the first page ends at that time with a next page, and the page older than it is empty, so the second object is never returned |
| Pagination.PaginateQueryset | utils/paginations.py:50-64 | a newer-than page has no next page and holds only newer rows; any other page holds at most page-size rows, and exactly that many when there is a next page; an older-than page holds only older rows |
| Pagination.QuerysetBounded | utils/paginations.py:58-64 | a query-set page is a prefix of the matching rows of at most page-size rows, with a next page exactly when more than page-size rows match |
| Pagination.QuerysetAgreesWithOrderedList | utils/paginations.py:50-64 | on newest-first rows, the query-set path and the ordered-list path give the same page and next-page flag |
| Pagination.PaginateCachedList | utils/paginations.py:66-75 | a cached answer is the ordered-list page of the cached list; it falls back to the database exactly for a request that is not newer-than, whose page has no next page, on a full cache |
| Pagination.CachedListSound | utils/paginations.py:66-75 | for older-than and first pages, whenever the cache answers, its answer is the page the full source gives; it falls back only when the cache is full |
| Pagination.CachedListNewerTruncates | utils/paginations.py:69-70 | a full cache answers a newer-than request with only the cached objects, while the source has more newer ones |
| Pagination.CachedListFixedSound | utils/paginations.py:66-75 | with the newer-than branch also falling back on a full cache, every cached answer equals the full source's page |
| Pagination.PaginateHbase | utils/paginations.py:83-117 | a newer-than page has no next page; a first page holds at most page-size rows, an older-than page at most page-size + 1; a page with a next page holds at least page-size rows |
| Pagination.HbaseNewerAgrees | utils/paginations.py:84-94 | the HBase newer-than scan, with the cursor row dropped and the rows reversed, gives the ordered-list page for every page size, which that branch ignores |
| Pagination.HbaseFirstAgrees | utils/paginations.py:110-117 | the HBase first page gives the ordered-list first page |
| Pagination.HbaseOlderAgreesWithCursorRow | utils/paginations.py:96-108 | when the cursor is the time of a stored row, the HBase older-than page equals the ordered-list page |
| Pagination.HbaseOlderOversized | utils/paginations.py:100-105 | when no row has the cursor's time and enough rows remain, the HBase older-than page holds page-size + 1 rows, while the ordered-list page holds page-size |
| Pagination.HbaseOlderOversizedExample | utils/paginations.py:100-105 | with rows at times 3, 2 and 1, page size 1 and cursor 4, the HBase page has two rows and the ordered-list page has one |
| Pagination.HbaseFixedAgrees | utils/paginations.py:83-117 | with the older-than page cut to page-size rows, HBase pagination equals the ordered-list pagination for every request |
| RedisHelper.LTrimIsTake | utils/redis_helper.py:37 | `LTRIM key 0 limit-1`, with Redis's index rules, keeps the first `limit` elements |
| RedisHelper.LoadToCache | utils/redis_helper.py:43-53 | an empty object list leaves the cache untouched; a cold key then holds exactly those objects, in order, and a warm key gets them appended; no other key changes |
| RedisHelper.LoadObjects | utils/redis_helper.py:10-25 | a hit returns the cached list and leaves the cache unchanged; a miss returns what the loader gives for the limit; whatever is cached afterwards is exactly what was returned; a miss with nothing loaded leaves the key absent; other keys do not change |
| RedisHelper.LoadTwice | utils/redis_helper.py:10-25 | a second load of a key that the first load filled is a hit that returns the same objects and changes nothing |
| RedisHelper.LoadEmptyStaysCold | utils/redis_helper.py:22-25 | a miss whose loader returns nothing leaves the cache as it was and returns nothing |
| RedisHelper.LoadBounded | utils/redis_helper.py:10-25 | if every list is within the limit and the loader honours it, every list is still within the limit after a load |
| RedisHelper.PushObject | utils/redis_helper.py:28-40 | on a warm key the list becomes the object followed by the old list, cut to the limit; on a cold key the object itself is not pushed and the result is a plain load; other keys do not change |
| RedisHelper.PushBounded | utils/redis_helper.py:28-40 | pushing keeps every list within the limit |
| RedisHelper.ColdPushIgnoresObject | utils/redis_helper.py:39-40 | on a cold key the pushed object makes no difference to the cache |
| RedisHelper.PushAllNewestFirst | utils/redis_helper.py:34-38 | pushing objects one by one onto a warm key leaves the newest `limit` of them, newest first, ahead of the old list; the list is exactly `limit` long once that many were pushed |
| RedisHelper.CountKeyRoundTrip | utils/redis_helper.py:56-57 | a counter key can be parsed back into its class name, attribute and id |
| RedisHelper.CountKeyInjective | utils/redis_helper.py:56-57 | two counter keys are equal if and only if they name the same class, attribute and id |
| RedisHelper.CountKey | utils/redis_helper.py:56-57 | a counter key starts with the class name and '.', then the attribute and ':', and ends with a non-empty id; `CountKeyRoundTrip` reads it back |
| RedisHelper.StepCount | utils/redis_helper.py:60-77 | the returned value is what the key holds afterwards; a missing key is seeded with the object's value; a present one moves by exactly the step; the key set gains only this key and no other counter changes |
| RedisHelper.IncrCount | utils/redis_helper.py:60-67 | an existing counter goes up by one and the new value is returned; a missing one is seeded with the object's value, which is returned; no other counter changes |
| RedisHelper.DecrCount | utils/redis_helper.py:70-77 | an existing counter goes down by one and the new value is returned; a missing one is seeded with the object's value, which is returned; no other counter changes |
| RedisHelper.GetCount | utils/redis_helper.py:80-89 | a stored counter is returned unchanged; a missing one is seeded from the refreshed object and returned |
| RedisHelper.IncrDecrInverse | utils/redis_helper.py:60-77 | on an existing counter, an increment followed by a decrement restores the store and value, and the other way round too |
| RedisHelper.GetAfterStep | utils/redis_helper.py:60-89 | reading a counter right after an increment or decrement returns the value the step returned, without touching the store |
| Fanout.Dispatch | newsfeeds/tasks.py:27-31 | the batches' follower ids, concatenated, are exactly the follower ids in order |
| Fanout.DispatchShape | newsfeeds/tasks.py:27-31 | every batch carries the tweet and 1 to `FANOUT_BATCH_SIZE` followers, and every batch but the last is full |
| Fanout.DispatchCount | newsfeeds/tasks.py:33-36 | the number of batches dispatched is `(n - 1) // FANOUT_BATCH_SIZE + 1`, the figure the report prints, including 0 for no followers |
| Fanout.FanoutMainTask | newsfeeds/tasks.py:23-36 | the loop writes the author's feed, dispatches exactly the batch split of the followers, and reports the follower count and the number of batches sent |
| Fanout.FanoutBatchTask | newsfeeds/tasks.py:8-21 | a batch writes one feed per follower for the tweet, in order, pushes each of those feeds to the cache, and reports how many it created |
| Fanout.RunAllFeeds | newsfeeds/tasks.py:8-31 | running every dispatched batch writes exactly one feed per follower, in follower order |
| Fanout.FanoutToFollowers | newsfeeds/services.py:8-20 | the service writes one feed per follower, in order, followed by the author's own |
| Fanout.TasksMatchService | newsfeeds/services.py:8-20 | the batched tasks write the same feeds as the service, with the author moved from last to first, so the two are the same multiset |
| Decorators.MissingParams | utils/decorators.py:20 | no more names are reported than required, and none of them is present |
| Decorators.MissingParamsMembers | utils/decorators.py:20 | a name is reported if and only if it is required and absent |
| Decorators.NoneMissing | utils/decorators.py:20-21 | nothing is reported if and only if every required name is present |
| Decorators.MissingParamsAppend | utils/decorators.py:20 | missing names keep the order in which the parameters are declared |
| Decorators.RequiredParams | utils/decorators.py:6-28 | `params=None` yields no decorator; otherwise the view runs if and only if every parameter is present in the query string (for GET) or the body, and otherwise the answer is a 400 with `success` false and a message listing the missing names |
| Decorators.MissingMessageRoundTrip | utils/decorators.py:21-24 | the 400 message is "missing ", the names joined by ',', then " in request", and splitting its middle at ',' gives the missing names back when none contains ',' |
| Decorators.MethodCaseInsensitive | utils/decorators.py:16-19 | 'GET' and 'get' select the query string, and 'POST' selects the body |

## Left out

- I/O is not modelled. This covers the HBase connection, `get_table`, `put`,
  `row` and the Thrift client, as well as the Redis connection and its
  serialisers. A put is a value, the Redis store is a map, and serialisation
  is the identity.
- The HBase scan used by `hb_model.filter` is not modelled as a key-range
  scan over byte strings. The rows under a user's key prefix are a
  newest-first list, and a scan from a cursor is a filter on `created_at`.
  Row keys hold `str(created_at)` unpadded, so in HBase their byte order
  follows numeric order only among timestamps of one length. The model
  assumes it always does.
- `MAX_TIMESTAMP`, `REDIS_LIST_LENGTH_LIMIT`, `FANOUT_BATCH_SIZE` and the
  page size are parameters, not fixed constants. The class's `page_size`
  of 20 appears as `Pagination.DefaultPageSize` and is used only in
  `Pagination.CachedListNewerTruncates`, the concrete counterexample.
- The cursor is taken to be an integer. `dateutil.isoparse` and the
  `int()` fallback are not modelled, nor is the `ValueError` they can raise.
- `Strings.ParseInt` reads an optional sign followed by digits. The
  whitespace and `_` forms that Python's `int()` also accepts are not
  modelled.
- Key expiry is not modelled. `REDIS_KEY_EXPIRE_TIME` appears only as a
  TTL; `incr_count` and `decr_count` call `exists` where `expire` was
  evidently meant, so their keys never expire.
- Celery routing, time limits and retries are not modelled. The fanout is
  modelled as a sequential run of the dispatched batches.
- `FriendshipService.get_follower_ids` and `get_followers` are inputs.
  `push_newsfeed_to_cache` is modelled as the list of feeds pushed.
- `get_field_hash` is modelled as the fields in declaration order. That is
  the order of a class's `__dict__`.
- `deserialize_row_key` fails with an `Err` where Python's `int()` would
  raise, and likewise for a `KeyError` from `get_field_hash`.
- `fields.py` declares `IntergerField` while `hbase_models.py` imports
  `IntegerField`. The model treats both names as the one integer field
  type.
- `Lower` lower-cases ASCII letters only, which is all an HTTP method name
  holds.
- `required_params` returns `[]` for `params=None`. Using that as a
  decorator is not modelled; the model returns `None`.
- A reversed integer field keeps 1 before 2 but puts 10 before 1, so it
  gives neither numeric order nor its inverse; see
  `Fields.ReversedIntFieldOrderIsNeither`.
- HBaseModel.ColumnsRoundTrip: holds of the source only for integer and
  timestamp columns. `init_from_row` decodes the column key but passes the
  raw cell bytes to `deserialize_field`, so a plain (untyped) column comes
  back as `bytes`, not `str`. The model does not tell bytes from strings.
  The friendship tables have only integer columns.
- HBaseModel.SaveThenInitFromRow: the same gap. A record with a plain
  column value reads back with that value as `bytes` in the source.
- HBaseModel.CreateThenInitFromRow: the same gap, since it is proved
  through `SaveThenInitFromRow`. A created record with a plain column value
  reads back with that value as `bytes` in the source.
- Pagination.ScrollVisitsAll: holds only when no two objects share a
  `created_at`. The next cursor is the last page item's time, and the
  strict `created_at < created_at__lt` test drops every later object with
  that same time, so the source skips them; `Pagination.ScrollSkipsTiedObjects`
  gives a two-object instance.
- RedisHelper.LoadBounded: holds for sequential calls only. `load_objects`
  checks `exists` and then issues a separate `RPUSH`. Two concurrent misses
  both push the loaded list, leaving twice the limit.
- RedisHelper.PushBounded: holds for sequential calls only. The same
  check-then-act race affects `push_object`'s cold path.
- RedisHelper.StepCount: counters are unbounded integers. Redis `INCR` and
  `DECR` work on signed 64-bit values and fail on overflow, which is not
  modelled.
- Fields.IntFieldOrder: order is proved only for numbers below 10^16. Wider
  numbers do not fit the 16-digit padding.

## Findings

| source | as written | input that shows it | evidently intended | confidence | as-written member | corrected member |
|---|---|---|---|---|---|---|
| utils/paginations.py:69-70 | a newer-than request is always answered from the cached list, even when the cache is full and the source holds more newer objects than it keeps | source rows at times 3, 2, 1, cache limit 2 (holding times 3 and 2), `created_at__gt=0`: the cache answers with two objects, the source has three | fall back to the database when the cache is full and every cached object is newer than the cursor | not executed | Pagination.CachedListNewerTruncates | Pagination.CachedListFixedSound |
| utils/paginations.py:100-105 | with no row at the cursor's time, the scan of `page_size + 2` rows keeps its first row, and `objects[:-1]` leaves `page_size + 1` rows | rows at times 3, 2, 1, `page_size` 1, `created_at__lt=4`: two rows returned with a next page | cut the page to `page_size` rows, `objects[:page_size]` | not executed | Pagination.HbaseOlderOversizedExample | Pagination.HbaseFixedAgrees |
