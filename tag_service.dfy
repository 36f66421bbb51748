/** The tag service: read-through caching of tag lists in front of the tag table, and the
    write-through refresh on edit. */
module TagService {
  import opened Common
  import Tags
  import opened Gredis

  /** The service's request: the tag's fields and the page it asks for. */
  datatype Tag = Tag(id: int, name: string, createdBy: string, modifiedBy: string, state: int, pageNum: int, pageSize: int)

  /** The fields of the cache-key builder's record that the service sets; the others stay zero.
      The name is not among them. */
  datatype CacheQuery = CacheQuery(id: int, state: int, pageNum: int, pageSize: int)

  /** The record GetAll builds its key from: the state and the page. */
  function ListQuery(t: Tag): CacheQuery
  {
    CacheQuery(0, t.state, t.pageNum, t.pageSize)
  }

  /** The record Edit builds its key from: only the id is set. */
  function EntityQuery(id: int): CacheQuery
  {
    CacheQuery(id, 0, 0, 0)
  }

  /** Two list requests that differ only in the name (or the id, creator or modifier) get the same
      key from any key builder, although they filter on different names. */
  lemma ListKeyIgnoresName(t1: Tag, t2: Tag, tagsKey: CacheQuery -> string)
    requires t1.state == t2.state && t1.pageNum == t2.pageNum && t1.pageSize == t2.pageSize
    ensures tagsKey(ListQuery(t1)) == tagsKey(ListQuery(t2))
    ensures t1.name != t2.name && t1.name != "" ==> GetMaps(t1) != GetMaps(t2)
  {
    if t1.name != t2.name && t1.name != "" {
      assert Tags.Name !in GetMaps(t2) || GetMaps(t1)[Tags.Name] != GetMaps(t2)[Tags.Name];
    }
  }

  /** getMaps: the exact-match filter of GetAll and Count. */
  function GetMaps(t: Tag): (maps: Tags.Columns)
    ensures Tags.DeletedOn in maps && maps[Tags.DeletedOn] == IntVal(0)
    ensures Tags.Name in maps <==> t.name != ""
    ensures Tags.Name in maps ==> maps[Tags.Name] == StrVal(t.name)
    ensures Tags.State in maps <==> t.state >= 0
    ensures Tags.State in maps ==> maps[Tags.State] == IntVal(t.state)
    ensures maps.Keys <= {Tags.DeletedOn, Tags.Name, Tags.State}
  {
    var maps := map[Tags.DeletedOn := IntVal(0)];
    var maps := if t.name != "" then maps[Tags.Name := StrVal(t.name)] else maps;
    if t.state >= 0 then maps[Tags.State := IntVal(t.state)] else maps
  }

  /** The rows a request lists: not deleted, with the requested name when one is given (non-empty),
      in the requested state when one is given (non-negative). */
  predicate Listed(t: Tag, row: Tags.Tag)
  {
    && row.model.deletedOn == 0
    && (t.name != "" ==> row.name == t.name)
    && (t.state >= 0 ==> row.state == t.state)
  }

  /** A row matches the getMaps filter exactly when the request lists it. */
  lemma GetMapsMeaning(t: Tag, row: Tags.Tag)
    ensures Tags.Matches(row, GetMaps(t)) <==> Listed(t, row)
  {
    var maps := GetMaps(t);
    if Tags.Matches(row, maps) {
      assert Tags.Column(row, Tags.DeletedOn) == IntVal(0);
      if t.name != "" {
        assert Tags.Column(row, Tags.Name) == StrVal(t.name);
      }
      if t.state >= 0 {
        assert Tags.Column(row, Tags.State) == IntVal(t.state);
      }
    }
    if Listed(t, row) {
      forall c | c in maps ensures Tags.Column(row, c) == maps[c] {
        assert c == Tags.DeletedOn || c == Tags.Name || c == Tags.State;
      }
    }
  }

  /** The patch Edit hands to the store: modifier and name always, state only when non-negative. */
  function EditData(t: Tag): (data: Tags.Columns)
    ensures Tags.Updatable(data)
    ensures Tags.ModifiedBy in data && data[Tags.ModifiedBy] == StrVal(t.modifiedBy)
    ensures Tags.Name in data && data[Tags.Name] == StrVal(t.name)
    ensures Tags.State in data <==> t.state >= 0
    ensures Tags.State in data ==> data[Tags.State] == IntVal(t.state)
    ensures data.Keys <= {Tags.ModifiedBy, Tags.Name, Tags.State}
  {
    var data := map[Tags.ModifiedBy := StrVal(t.modifiedBy), Tags.Name := StrVal(t.name)];
    if t.state >= 0 then data[Tags.State := IntVal(t.state)] else data
  }

  /** Edit renames the row and records its modifier and time; it changes the state only when the
      request gives one, and keeps the id, the creation time, the deletion marker and the creator. */
  lemma EditedRow(row: Tags.Tag, t: Tag, now: int)
    ensures Tags.Patch(row, EditData(t), now)
         == row.(model := row.model.(modifiedOn := now), name := t.name, modifiedBy := t.modifiedBy,
                 state := if t.state >= 0 then t.state else row.state)
  {
  }

  /** json.Unmarshal of a cached value into a list of tags: a page reads back as the tags that
      were written. */
  function AsTags(v: CacheValue): (r: seq<Tags.Tag>)
    ensures v.TagPage? ==> r == v.tags
    ensures !v.TagPage? ==> r == []
  {
    if v.TagPage? then v.tags else []
  }

  /** The ids whose row matches the getMaps filter are the ids whose row the request lists. */
  lemma ListedIdsMatch(t: Tag, rows: map<int, Tags.Tag>)
    ensures (set id | id in rows && Tags.Matches(rows[id], GetMaps(t)))
         == (set id | id in rows && Listed(t, rows[id]))
  {
    forall id | id in rows {
      GetMapsMeaning(t, rows[id]);
    }
  }

  class Service {
    const db: Tags.TagTable
    const cache: Cache
    /** The builder of tag keys (cache_service's GetTagsKey), used for lists and for single tags. */
    const tagsKey: CacheQuery -> string

    constructor (db: Tags.TagTable, cache: Cache, tagsKey: CacheQuery -> string)
      ensures this.db == db && this.cache == cache && this.tagsKey == tagsKey
    {
      this.db := db;
      this.cache := cache;
      this.tagsKey := tagsKey;
    }

    function ListKeyOf(t: Tag): string
    {
      tagsKey(ListQuery(t))
    }

    function KeyOf(id: int): string
    {
      tagsKey(EntityQuery(id))
    }

    /** ExistByID: whether the tag table holds a row with the request's id. */
    function ExistByID(t: Tag, fault: Option<Error>): (r: (bool, Option<Error>))
      reads db
      requires db.Valid()
      ensures Fails(fault) ==> r == (false, fault)
      ensures !Fails(fault) ==> r.1 == None
      ensures fault.None? ==> (r.0 <==> t.id in db.rows)
    {
      db.ExistTagByID(t.id, fault)
    }

    /** ExistByName: whether the tag table holds a row with the request's name. */
    function ExistByName(t: Tag, fault: Option<Error>): (r: (bool, Option<Error>))
      reads db
      requires db.Valid()
      ensures Fails(fault) ==> r == (false, fault)
      ensures !Fails(fault) ==> r.1 == None
      ensures fault.None? ==> (r.0 <==> exists id :: id in db.rows && db.rows[id].name == t.name)
    {
      db.ExistTagByName(t.name, fault)
    }

    /** Count: the number of rows the request lists, with the store's error as it is. */
    function Count(t: Tag, fault: Option<Error>): (r: (int, Option<Error>))
      reads db
      requires db.Valid()
      ensures fault.Some? ==> r == (0, fault)
      ensures fault.None? ==> r == (|set id | id in db.rows && Listed(t, db.rows[id])|, None)
    {
      ListedIdsMatch(t, db.rows);
      db.GetTagTotal(GetMaps(t), fault)
    }

    /** GetAll: the cached list on a hit, with no store call; otherwise the store's page for the
        getMaps filter at offset PageNum and limit PageSize, cached only when the store succeeded. */
    method GetAll(t: Tag, existsFails: bool, getFault: Option<Error>, storeFault: Option<Error>, setFault: Option<Error>)
      returns (r: Result<seq<Tags.Tag>>, ghost trace: seq<Call>)
      requires db.Valid()
      modifies cache
      ensures old(cache.Exists(ListKeyOf(t), existsFails)) && getFault.None? ==>
        && r == Ok(AsTags(old(cache.entries)[ListKeyOf(t)].value))
        && cache.entries == old(cache.entries)
        && trace == Probe(ListKeyOf(t), true) && NoStoreCall(trace)
      ensures !(old(cache.Exists(ListKeyOf(t), existsFails)) && getFault.None?) && Fails(storeFault) ==>
        && r == Err(storeFault.value)
        && cache.entries == old(cache.entries)
        && trace == Probe(ListKeyOf(t), old(cache.Exists(ListKeyOf(t), existsFails))) + [StoreRead]
      ensures !(old(cache.Exists(ListKeyOf(t), existsFails)) && getFault.None?) && !Fails(storeFault) ==>
        && r == db.GetTags(t.pageNum, t.pageSize, GetMaps(t), storeFault)
        && (forall x :: x in r.value ==> x in db.rows.Values && Listed(t, x))
        && cache.entries == (if setFault.None?
                             then old(cache.entries)[ListKeyOf(t) := Entry(TagPage(r.value), CacheTtl)]
                             else old(cache.entries))
        && trace == Probe(ListKeyOf(t), old(cache.Exists(ListKeyOf(t), existsFails))) + [StoreRead, CacheSet(ListKeyOf(t), CacheTtl)]
    {
      var key := ListKeyOf(t);
      var existed := cache.Exists(key, existsFails);
      if existed {
        var data := cache.Get(key, getFault);
        if data.Ok? {
          r, trace := Ok(AsTags(data.value)), Probe(key, true);
          return;
        }
      }
      trace := Probe(key, existed) + [StoreRead];
      var tags := db.GetTags(t.pageNum, t.pageSize, GetMaps(t), storeFault);
      if tags.Err? {
        r := Err(tags.error);
        return;
      }
      forall x | x in tags.value ensures Listed(t, x) {
        GetMapsMeaning(t, x);
      }
      var _ := cache.Set(key, TagPage(tags.value), CacheTtl, setFault);
      assert trace + [CacheSet(key, CacheTtl)] == Probe(key, existed) + [StoreRead, CacheSet(key, CacheTtl)];
      trace := trace + [CacheSet(key, CacheTtl)];
      r := Ok(tags.value);
    }

    /** Add: one insert into the store; the cache is not touched. */
    method Add(t: Tag, now: int, fault: Option<Error>) returns (err: Option<Error>, ghost trace: seq<Call>)
      requires db.Valid()
      modifies db
      ensures db.Valid() && unchanged(cache)
      ensures err == fault
      ensures fault.Some? ==> db.rows == old(db.rows) && db.nextId == old(db.nextId)
      ensures fault.None? ==> db.nextId == old(db.nextId) + 1
      ensures fault.None? ==> db.rows == old(db.rows)[old(db.nextId) := Tags.NewTag(old(db.nextId), t.name, t.state, t.createdBy, now)]
      ensures trace == [StoreWrite] && NoCacheCall(trace)
    {
      err := db.AddTag(t.name, t.state, t.createdBy, now, fault);
      trace := [StoreWrite];
    }

    /** Delete: one delete in the store; the cache is not touched, not even the tag's own key. */
    method Delete(t: Tag, fault: Option<Error>) returns (err: Option<Error>, ghost trace: seq<Call>)
      requires db.Valid()
      modifies db
      ensures db.Valid() && unchanged(cache) && db.nextId == old(db.nextId)
      ensures err == fault
      ensures db.rows == if fault.None? then old(db.rows) - {t.id} else old(db.rows)
      ensures trace == [StoreWrite] && NoCacheCall(trace)
    {
      err := db.DeleteTag(t.id, fault);
      trace := [StoreWrite];
    }

    /** Edit: patch the row; only after the update and the re-read both succeeded is the re-read tag
        written under the key built from the id, and then nil is returned whatever the cache said. */
    method Edit(t: Tag, now: int, storeFault: Option<Error>, rereadFault: Option<Error>, setFault: Option<Error>)
      returns (err: Option<Error>, ghost trace: seq<Call>)
      requires db.Valid()
      modifies db, cache
      ensures db.Valid() && db.nextId == old(db.nextId)
      ensures db.rows == if storeFault.None? && t.id in old(db.rows)
                         then old(db.rows)[t.id := Tags.Patch(old(db.rows)[t.id], EditData(t), now)]
                         else old(db.rows)
      ensures storeFault.Some? ==>
        err == storeFault && cache.entries == old(cache.entries) && trace == [StoreWrite]
      ensures storeFault.None? && Fails(rereadFault) ==>
        err == rereadFault && cache.entries == old(cache.entries) && trace == [StoreWrite, StoreRead]
      ensures storeFault.None? && !Fails(rereadFault) ==>
        && err == None
        && cache.entries == (if setFault.None?
                             then old(cache.entries)[KeyOf(t.id) := Entry(TagSnapshot(db.GetTag(t.id, rereadFault).value), CacheTtl)]
                             else old(cache.entries))
        && trace == [StoreWrite, StoreRead, CacheSet(KeyOf(t.id), CacheTtl)]
    {
      err := db.EditTag(t.id, EditData(t), now, storeFault);
      trace := [StoreWrite];
      if err.Some? {
        return;
      }
      var key := KeyOf(t.id);
      var tag := db.GetTag(t.id, rereadFault);
      trace := [StoreWrite, StoreRead];
      if tag.Err? {
        err := Some(tag.error);
        return;
      }
      var _ := cache.Set(key, TagSnapshot(tag.value), CacheTtl, setFault);
      trace := [StoreWrite, StoreRead, CacheSet(key, CacheTtl)];
      err := None;
    }
  }
}
