# insta-content: a Dafny model of the feed cache

`InstaContent` serves a user's recent media feed from a single-slot file
cache. On each request it decides whether the cache is stale, refreshes it
from the remote feed if so, and returns the cached records created after a
caller-supplied threshold. This project models that class as pure Dafny
functions over an explicit cache value and proves what it does.

- `wrappers.dfy` (`Wrappers`): the `Option` type that stands for PHP's `false`.
- `feed.dfy` (`Feed`): records, the decoded response (`Payload`), the
  filter's result, and `filterResponse` as a recursive function
  (`TakeNewer`, `FilterResponse`) and as the loop it is written as
  (`FilterResponseLoop`).
- `cache_store.dfy` (`CacheStore`): the cache file as a value (absent, or
  present with contents and a modification time), and `cacheExists`,
  `getCache`, `getCacheLastUpdate` and `updateCache`.
- `feed_service.dfy` (`FeedService`): `canQueryInstagram`,
  `getCacheFiltered` and `getContent`, a request being a function from the
  cache before, the clock, the fetched body and the file system's behaviour
  to the cache after, whether the feed was fetched, and how the request ended.

Modelling decisions:
- The raw HTTP body and `json_decode` are folded into `Payload`: `Falsy` for
  a body PHP treats as false (a failed transfer's `false`, `""`, `"0"`), and
  `Body(data)` otherwise, with `data` the decoded `data` array or `None` when
  there is none. `serialize`/`unserialize` and `json_encode` are taken to be
  exact round trips, so the cache stores a `Payload` and an encoded result is
  its record list.
- `time()`, the body the remote call returns, whether the cache file can be
  opened for writing, and the modification time the file system stamps on a
  write are inputs of `GetContent`.
- `die($e->getMessage())` is the outcome `Died(message)`.
- `filemtime` of 0 is falsy in `!$cacheModTime`, so a cache stamped at time 0
  counts as missing; the model keeps that, and `RefreshThenFresh` needs a
  non-zero write time for that reason.
- `getContent` writes the fetched body whether or not the fetch succeeded
  (InstaContent.class.php:170-172); a fetch failure is not an error. A write
  failure ends the process after printing the message
  (InstaContent.class.php:173-175).

## Model

| member | source | states |
|---|---|---|
| Feed.TakeNewer | InstaContent.class.php:134-140 | the records kept are a prefix of `data`, all created strictly after the threshold, and the prefix stops at the end of `data` or at the first record that is not newer |
| Feed.LongestNewerPrefixIsUnique | InstaContent.class.php:134-139 | any prefix that is newer throughout and cannot be extended is exactly what the loop keeps: the filter is take-while |
| Feed.TakeNewerIsLongest | InstaContent.class.php:134-139 | every all-newer prefix of `data` is a prefix of what the filter keeps, so nothing longer qualifies |
| Feed.StopRule | InstaContent.class.php:137-138 | after the first record that fails the test the loop breaks: at most the records before it are kept, and the records after it, whatever they are, do not change the result |
| Feed.StopRuleExample | InstaContent.class.php:134-139 | threshold 85 on creation times [100, 90, 80, 95] keeps [100, 90]: 95 is dropped although it is newer |
| Feed.FilterAll | InstaContent.class.php:119-127 | the documented intent, every record created after the threshold: its result holds only newer records of the input, and every newer record of the input |
| Feed.FilterAllKeepsOrder | InstaContent.class.php:119-127 | the reference filter keeps the records in the order of the input: its result is a subsequence of the input |
| Feed.FilterAllKeepsNewerCounts | InstaContent.class.php:119-127 | the reference filter keeps each newer record exactly as many times as it occurs in the input, and no record that is not newer |
| Feed.NewestFirstTakeNewerIsFilterAll | InstaContent.class.php:119-139 | on a newest-first `data` array the stop rule loses nothing: it keeps exactly the records created after the threshold |
| Feed.StopRuleDiffersFromFilterAll | InstaContent.class.php:134-139 | on [100, 90, 80, 95] with threshold 85 the documented intent keeps [100, 90, 95] while the loop keeps [100, 90] |
| Feed.FilterResponse | InstaContent.class.php:129-143 | the result is `false` unless the body is truthy, the threshold numeric, `data` present and its first record newer; a non-false result is a non-empty list and is the longest all-newer prefix of `data` |
| Feed.FilterResponseLoop | InstaContent.class.php:131-142 | the `foreach` that appends to `$arrRecords` and breaks at the first non-matching record returns what `FilterResponse` specifies |
| CacheStore.CacheExists | InstaContent.class.php:33-36 | the cache exists unless the single slot holds no file |
| CacheStore.ExistenceIgnoresContents | InstaContent.class.php:33-54 | a zero-length file, or one holding a `false` response, exists yet reads back as `false` |
| CacheStore.GetCache | InstaContent.class.php:43-54 | a missing or zero-length cache file reads as `false`; a file holding a serialized response reads back as exactly that response |
| CacheStore.GetCacheLastUpdate | InstaContent.class.php:61-67 | a modification time is returned exactly when the file exists, and it is the file's |
| CacheStore.UpdateCache | InstaContent.class.php:108-117 | if the file cannot be opened the exception "Cannot create cache file" is thrown and the store is unchanged; otherwise the cache exists, reads back the written content and reports the write time |
| CacheStore.UpdateCacheOverwrites | InstaContent.class.php:101-117 | a successful write replaces the file wholesale: the resulting store does not depend on the previous one |
| CacheStore.LastWriteWins | InstaContent.class.php:108-117 | after two writes the cache reads back the second content and the second write time |
| FeedService.CanQueryInstagram | InstaContent.class.php:151-156 | a fetch is allowed without a cache, with a falsy (0) modification time, or when the clock is strictly past modification time plus lifetime |
| FeedService.FreshnessBoundary | InstaContent.class.php:151-156 | with the 30-second lifetime, exactly 30 seconds after a write no fetch is allowed and 31 seconds after it one is |
| FeedService.StaleStaysStale | InstaContent.class.php:151-156 | once a fetch is allowed it stays allowed at every later clock reading |
| FeedService.GetCacheFiltered | InstaContent.class.php:76-80 | without a cache file the result is `false`; with a serialized response the result is that response filtered by the threshold, and any non-false result is the longest newer prefix of the stored `data` |
| FeedService.FilteredAfterWrite | InstaContent.class.php:76-117 | after a successful write of `content`, the filtered cache is the filter of `content`, whatever the cache held before |
| FeedService.GetContent | InstaContent.class.php:167-178 | the feed is fetched exactly when the cache is stale; a fresh cache is served unchanged; a stale cache is overwritten with the fetched body unvalidated and stamped with the write time; a write failure dies with the message and leaves the cache untouched; what is served is the filter of the cache as it is afterwards |
| FeedService.NoCacheForcesFetch | InstaContent.class.php:167-172 | without a cache file every request fetches, whatever the clock reads |
| FeedService.FailedFetchClobbersCache | InstaContent.class.php:167-177 | when the cache is stale and writable, a `false` fetch result replaces the cache, the request returns `false`, and so does every filter of the cache afterwards |
| FeedService.RefreshThenFresh | InstaContent.class.php:167-177 | after a refresh stamped at a non-zero time, a request within the next 30 seconds does not fetch, leaves the cache alone and returns what the refreshing request returned |

## Left out

- `getInstagramFeed` (InstaContent.class.php:88-99): the cURL call is network I/O; its result is the `feed` input of `GetContent`.
- The constructor (InstaContent.class.php:23-26): it only builds the cache path from the web server's document root; the model has one fixed slot.
- File system details: `fopen`, `fread`, `filesize` and `filemtime` are replaced by the `Store` value; a `fwrite` that fails after a successful `fopen` (which would leave an empty or truncated file) is not modelled.
- PHP's stat cache: within one request PHP may answer `file_exists`/`filesize` from the `filemtime` call made earlier, so after a refresh `getCache` could read the file with its old size; the model assumes every query sees the file as it is.
- The modification time stamped on a write is an input; that it lies between the clock readings before and after the write is a file-system property the model does not state.
- `serialize`/`unserialize`, `json_decode`/`json_encode`: foreign library calls, taken as exact round trips.
- PHP loose typing: `is_numeric` accepts non-integer numeric strings and `created_time` arrives as a string compared numerically; the model uses integers, with a non-numeric threshold as `None`, and records that lack `created_time` are not modelled.
- 64-bit integer overflow in `$time - $cacheModTime`: timestamps are far from the limit; integers are unbounded here.
- Concurrent requests racing on the cache file: the model is sequential.
