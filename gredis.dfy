/** The Redis cache the services read through and write through, as a map from key to entry.
    Each call takes the failure the client reports, if any; a TTL is kept as a number. */
module Gredis {
  import opened Common
  import Articles
  import Tags

  /** What the services store: one row (nil when the store returned none) or one page of rows. */
  datatype CacheValue =
    | ArticleSnapshot(article: Option<Articles.Article>)
    | ArticlePage(articles: seq<Articles.Article>)
    | TagSnapshot(tag: Option<Tags.Tag>)
    | TagPage(tags: seq<Tags.Tag>)

  datatype Entry = Entry(value: CacheValue, ttl: int)

  class Cache {
    var entries: map<string, Entry>

    constructor ()
      ensures entries == map[]
    {
      entries := map[];
    }

    /** `EXISTS key`; a failed call reads as false. */
    function Exists(key: string, fails: bool): (r: bool)
      reads this
      ensures r <==> !fails && key in entries
    {
      !fails && key in entries
    }

    /** `GET key`. */
    function Get(key: string, fault: Option<Error>): (r: Result<CacheValue>)
      reads this
      ensures fault.Some? ==> r == Err(fault.value)
      ensures fault.None? && key in entries ==> r == Ok(entries[key].value)
      ensures fault.None? && key !in entries ==> r == Err(CacheNil)
    {
      if fault.Some? then Err(fault.value)
      else if key in entries then Ok(entries[key].value)
      else Err(CacheNil)
    }

    /** gredis.Set: binds the key to the value with its TTL as one atomic set-with-expiry; a failed
        call changes nothing. */
    method Set(key: string, value: CacheValue, ttl: int, fault: Option<Error>) returns (err: Option<Error>)
      modifies this
      ensures err == fault
      ensures entries == if fault.None? then old(entries)[key := Entry(value, ttl)] else old(entries)
    {
      err := fault;
      if fault.None? {
        entries := entries[key := Entry(value, ttl)];
      }
    }

    /** `DEL key`: whether the key was there; a failed call changes nothing. */
    method Delete(key: string, fault: Option<Error>) returns (existed: bool, err: Option<Error>)
      modifies this
      ensures err == fault
      ensures existed <==> fault.None? && key in old(entries)
      ensures entries == if fault.None? then old(entries) - {key} else old(entries)
    {
      err := fault;
      existed := fault.None? && key in entries;
      if fault.None? {
        entries := entries - {key};
      }
    }
  }

  /** A successful Set is read back: the key exists and GET returns the value that was set. */
  method SetThenGet(c: Cache, key: string, value: CacheValue, ttl: int)
    modifies c
    ensures c.Exists(key, false) && c.Get(key, None) == Ok(value)
  {
    var _ := c.Set(key, value, ttl, None);
  }

  /** After a successful Delete the key is gone: EXISTS is false and GET reports the nil reply. */
  method DeleteThenGet(c: Cache, key: string)
    modifies c
    ensures !c.Exists(key, false) && c.Get(key, None) == Err(CacheNil)
  {
    var _, _ := c.Delete(key, None);
  }
}
