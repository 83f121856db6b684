/** The single-slot cache: one file at a fixed path holding the serialized
    last response, together with the file's modification time. */
module CacheStore {
  import opened Wrappers
  import opened Feed

  /** The file's bytes as `unserialize` reads them back. A file written by
      the cache always holds `Serialized`; a zero-length file is `Empty`. */
  datatype Contents = Empty | Serialized(value: Payload)

  /** The cache file while it exists. */
  datatype CacheFile = CacheFile(contents: Contents, mtime: int)

  /** The whole store: the cache file, or `None` when there is no file. */
  datatype Store = Store(file: Option<CacheFile>)

  /** What `updateCache` leaves behind: the store after the call, and the
      message of the exception it threw, if any. */
  datatype WriteResult = WriteResult(store: Store, thrown: Option<string>)

  /** The message of the exception thrown when the file cannot be opened. */
  const CannotCreateCacheFile: string := "Cannot create cache file"

  /** `cacheExists`: the file is present, whatever it holds. The slot is
      single, so the only store without a cache is the empty slot. */
  function CacheExists(s: Store): (present: bool)
    ensures !present <==> s == Store(None)
  {
    s.file.Some?
  }

  /** Existence does not depend on what the file holds: a zero-length file,
      or one holding a `false` response, exists although it reads as `false`. */
  lemma ExistenceIgnoresContents(mtime: int)
    ensures CacheExists(Store(Some(CacheFile(Empty, mtime))))
    ensures GetCache(Store(Some(CacheFile(Empty, mtime)))) == Falsy
    ensures CacheExists(Store(Some(CacheFile(Serialized(Falsy), mtime))))
    ensures GetCache(Store(Some(CacheFile(Serialized(Falsy), mtime)))) == Falsy
  {
  }

  /** `getCache`: the stored response, or `false` when the file is missing or empty. */
  function GetCache(s: Store): (p: Payload)
    ensures !CacheExists(s) ==> p == Falsy
    ensures CacheExists(s) && s.file.value.contents.Empty? ==> p == Falsy
    ensures CacheExists(s) && s.file.value.contents.Serialized? ==> p == s.file.value.contents.value
    ensures p.Body? ==> CacheExists(s) && s.file.value.contents == Serialized(p)
  {
    match s.file
    case None => Falsy
    case Some(f) =>
      match f.contents
      case Empty => Falsy
      case Serialized(v) => v
  }

  /** `getCacheLastUpdate`: the file's modification time, or `false` without a file. */
  function GetCacheLastUpdate(s: Store): (m: Option<int>)
    ensures m.Some? <==> CacheExists(s)
    ensures m.Some? ==> m.value == s.file.value.mtime
  {
    match s.file
    case None => None
    case Some(f) => Some(f.mtime)
  }

  /** `updateCache`: opening the file for writing may fail (`writable` is
      false), in which case the exception is thrown and the store is left as
      it was; otherwise the file is truncated and holds exactly `content`,
      stamped with the write time. */
  function UpdateCache(s: Store, content: Payload, writable: bool, writeTime: int): (r: WriteResult)
    ensures r.thrown.None? <==> writable
    ensures r.thrown.Some? ==> r.thrown.value == CannotCreateCacheFile && r.store == s
    ensures r.thrown.None? ==>
              && CacheExists(r.store)
              && GetCache(r.store) == content
              && GetCacheLastUpdate(r.store) == Some(writeTime)
  {
    if !writable then WriteResult(s, Some(CannotCreateCacheFile))
    else WriteResult(Store(Some(CacheFile(Serialized(content), writeTime))), None)
  }

  /** Writing replaces the file wholesale: the store after a successful write
      does not depend on what the store held before. */
  lemma UpdateCacheOverwrites(s1: Store, s2: Store, content: Payload, writeTime: int)
    ensures UpdateCache(s1, content, true, writeTime).store == UpdateCache(s2, content, true, writeTime).store
  {
  }

  /** A second write supersedes the first: reading back yields the last content
      and the last write time only. */
  lemma LastWriteWins(s: Store, c1: Payload, t1: int, c2: Payload, t2: int)
    ensures var s1 := UpdateCache(s, c1, true, t1).store;
            var s2 := UpdateCache(s1, c2, true, t2).store;
            GetCache(s2) == c2 && GetCacheLastUpdate(s2) == Some(t2)
  {
  }
}
