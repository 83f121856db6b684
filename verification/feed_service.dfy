/** The request logic of `InstaContent`: decide whether the cache is stale,
    refresh it from the remote feed if so, and serve the filtered cache. */
module FeedService {
  import opened Wrappers
  import opened Feed
  import opened CacheStore

  /** The cache lifetime in seconds (`$_maxCacheLife`, the string "30",
      which PHP compares as the number 30). */
  const MaxCacheLife: int := 30

  /** `canQueryInstagram`: a fetch is allowed when there is no cache, when its
      modification time is 0 (falsy in PHP, so it reads as "no cache"), or when
      more than `maxCacheLife` seconds have passed since that time. The cache
      is fresh up to and including second `mtime + maxCacheLife`. */
  function CanQueryInstagram(now: int, mtime: Option<int>, maxCacheLife: int): (stale: bool)
    ensures mtime.None? ==> stale
    ensures mtime == Some(0) ==> stale
    ensures mtime.Some? && mtime.value != 0 ==> (stale <==> now > mtime.value + maxCacheLife)
  {
    mtime.None? || mtime.value == 0 || now - mtime.value > maxCacheLife
  }

  /** The boundary is strict: exactly `MaxCacheLife` seconds after a write the
      cache is still fresh, one second later it is stale. */
  lemma FreshnessBoundary(mtime: int)
    requires mtime != 0
    ensures !CanQueryInstagram(mtime + MaxCacheLife, Some(mtime), MaxCacheLife)
    ensures CanQueryInstagram(mtime + MaxCacheLife + 1, Some(mtime), MaxCacheLife)
  {
  }

  /** Staleness only grows with time: a cache stale now stays stale later. */
  lemma StaleStaysStale(now: int, later: int, mtime: Option<int>, maxCacheLife: int)
    requires now <= later
    requires CanQueryInstagram(now, mtime, maxCacheLife)
    ensures CanQueryInstagram(later, mtime, maxCacheLife)
  {
  }

  /** `getCacheFiltered`: the filter applied to whatever the cache holds. */
  function GetCacheFiltered(s: Store, timeFrom: Option<int>): (r: FilterResult)
    ensures !CacheExists(s) ==> r == NoRecords
    ensures r.Encoded? ==> CacheExists(s) && s.file.value.contents.Serialized?
    ensures r.Encoded? ==>
              var stored := s.file.value.contents.value;
              && stored.Body? && stored.data.Some? && timeFrom.Some?
              && |r.records| > 0
              && IsLongestNewerPrefix(r.records, stored.data.value, timeFrom.value)
    ensures CacheExists(s) && s.file.value.contents.Serialized? ==>
              r == FilterResponse(s.file.value.contents.value, timeFrom)
  {
    FilterResponse(GetCache(s), timeFrom)
  }

  /** Read after write through the filter: once `content` is written, the
      filtered cache is the filter of `content` itself, whatever the cache
      held before. */
  lemma FilteredAfterWrite(s: Store, content: Payload, writeTime: int, timeFrom: Option<int>)
    ensures GetCacheFiltered(UpdateCache(s, content, true, writeTime).store, timeFrom)
            == FilterResponse(content, timeFrom)
  {
  }

  /** How a request ends: the filter's result is returned, or the process
      dies after printing the exception's message. */
  datatype Outcome = Served(result: FilterResult) | Died(message: string)

  /** One request: the store it leaves behind, whether it called the remote
      feed, and how it ended. */
  datatype Request = Request(store: Store, fetched: bool, outcome: Outcome)

  /** `getContent`. The clock reading `now`, the body `feed` the remote call
      would return (possibly `false`), whether the cache file can be opened for
      writing, and the modification time a write would stamp are inputs of the
      request, not computed by it. */
  function GetContent(s: Store, now: int, feed: Payload, writable: bool, writeTime: int,
                      timeFrom: Option<int>): (r: Request)
    // the remote feed is called exactly when the cache is stale
    ensures r.fetched <==> CanQueryInstagram(now, GetCacheLastUpdate(s), MaxCacheLife)
    // a fresh cache is served as it is
    ensures !r.fetched ==> r.store == s && r.outcome == Served(GetCacheFiltered(s, timeFrom))
    // a stale cache is overwritten with the fetched body, unvalidated
    ensures r.fetched && writable ==>
              && GetCache(r.store) == feed
              && GetCacheLastUpdate(r.store) == Some(writeTime)
              && r.outcome == Served(FilterResponse(feed, timeFrom))
    // a failed write ends the request with the message and leaves the cache untouched
    ensures r.fetched && !writable ==> r.store == s && r.outcome == Died(CannotCreateCacheFile)
    // whatever is served is the filter applied to the cache as it is afterwards
    ensures r.outcome.Served? ==> r.outcome.result == GetCacheFiltered(r.store, timeFrom)
  {
    if CanQueryInstagram(now, GetCacheLastUpdate(s), MaxCacheLife) then
      var w := UpdateCache(s, feed, writable, writeTime);
      match w.thrown
      case Some(message) => Request(s, true, Died(message))
      case None => Request(w.store, true, Served(GetCacheFiltered(w.store, timeFrom)))
    else
      Request(s, false, Served(GetCacheFiltered(s, timeFrom)))
  }

  /** Without a cache file every request calls the remote feed, whatever the clock says. */
  lemma NoCacheForcesFetch(s: Store, now: int, feed: Payload, writable: bool, writeTime: int,
                           timeFrom: Option<int>)
    requires !CacheExists(s)
    ensures GetContent(s, now, feed, writable, writeTime, timeFrom).fetched
  {
  }

  /** A failed remote call still replaces a good cache: when the cache is
      stale and writable, a `false` body is stored and the request, and every
      request served from it, yields `false`. */
  lemma FailedFetchClobbersCache(s: Store, now: int, writeTime: int, timeFrom: Option<int>,
                                 laterTimeFrom: Option<int>)
    requires CanQueryInstagram(now, GetCacheLastUpdate(s), MaxCacheLife)
    ensures var r := GetContent(s, now, Falsy, true, writeTime, timeFrom);
            && GetCache(r.store) == Falsy
            && r.outcome == Served(NoRecords)
            && GetCacheFiltered(r.store, laterTimeFrom) == NoRecords
  {
  }

  /** After a refresh, a request within the freshness window does not call the
      remote feed again, leaves the cache alone and returns what the refreshing
      request returned. */
  lemma RefreshThenFresh(s: Store, now: int, feed: Payload, writeTime: int, timeFrom: Option<int>,
                         later: int, feed2: Payload, writable2: bool, writeTime2: int)
    requires CanQueryInstagram(now, GetCacheLastUpdate(s), MaxCacheLife)
    requires writeTime != 0 && later <= writeTime + MaxCacheLife
    ensures var r1 := GetContent(s, now, feed, true, writeTime, timeFrom);
            var r2 := GetContent(r1.store, later, feed2, writable2, writeTime2, timeFrom);
            && !r2.fetched
            && r2.store == r1.store
            && r2.outcome == r1.outcome
  {
  }
}
