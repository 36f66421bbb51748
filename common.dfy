/** Values shared by the store, the cache and the services. */
module Common {

  datatype Option<+T> = None | Some(value: T)

  /** The errors the external systems report. `RecordNotFound` is GORM's "record not found";
      `CacheNil` is what the Redis client reports for GET on a missing key. */
  datatype Error = RecordNotFound | StoreFailure(code: int) | CacheNil | CacheFailure(code: int)

  datatype Result<+T> = Ok(value: T) | Err(error: Error)

  /** A column value: the store's columns are Go `int`s or `string`s. */
  datatype Value = IntVal(i: int) | StrVal(s: string)

  /** TTL, in seconds, of every entry the services write to the cache. */
  const CacheTtl: int := 3600

  /** An error other than record-not-found: the ones the store functions pass on. */
  predicate Fails(fault: Option<Error>)
  {
    fault.Some? && fault.value != RecordNotFound
  }

  /** `if err != nil && err != gorm.ErrRecordNotFound { return err }; return nil`. */
  function Swallow(fault: Option<Error>): (err: Option<Error>)
    ensures err.None? <==> !Fails(fault)
    ensures err.Some? ==> err == fault
  {
    if Fails(fault) then fault else None
  }

  /** One call a service method makes on the cache or the store, in the order it makes them. */
  datatype Call =
    | CacheExists(key: string)
    | CacheGet(key: string)
    | CacheSet(key: string, ttl: int)
    | CacheDelete(key: string)
    | StoreRead
    | StoreWrite

  /** The calls a read makes on the cache before it falls back to the store: EXISTS, then GET
      when the key was there. */
  function Probe(key: string, existed: bool): seq<Call>
  {
    if existed then [CacheExists(key), CacheGet(key)] else [CacheExists(key)]
  }

  /** The integer a column map gives `c`, or `keep` when it lists no integer for it. */
  function IntOr<C>(data: map<C, Value>, c: C, keep: int): int
  {
    if c in data && data[c].IntVal? then data[c].i else keep
  }

  /** The string a column map gives `c`, or `keep` when it lists no string for it. */
  function StrOr<C>(data: map<C, Value>, c: C, keep: string): string
  {
    if c in data && data[c].StrVal? then data[c].s else keep
  }

  /** True when the trace holds no call on the store. */
  predicate NoStoreCall(trace: seq<Call>)
  {
    forall i :: 0 <= i < |trace| ==> !trace[i].StoreRead? && !trace[i].StoreWrite?
  }

  /** True when the trace holds no call on the cache. */
  predicate NoCacheCall(trace: seq<Call>)
  {
    forall i :: 0 <= i < |trace| ==> trace[i].StoreRead? || trace[i].StoreWrite?
  }
}
