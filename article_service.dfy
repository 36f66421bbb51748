/** The article service: read-through and write-through caching of articles in front of the
    article table. */
module ArticleService {
  import opened Common
  import Articles
  import opened Gredis
  import opened Models

  /** The service's request: the article's fields and the page it asks for. */
  datatype Article = Article(
    id: int,
    tagId: int,
    title: string,
    desc: string,
    content: string,
    coverImageUrl: string,
    state: int,
    createdBy: string,
    modifiedBy: string,
    pageNum: int,
    pageSize: int)

  /** The fields of the cache-key builder's record that the service sets; the others stay zero. */
  datatype CacheQuery = CacheQuery(id: int, tagId: int, state: int, pageNum: int, pageSize: int)

  /** The record the single-article key is built from: only the id is set. */
  function EntityQuery(id: int): CacheQuery
  {
    CacheQuery(id, 0, 0, 0, 0)
  }

  /** The record the list key is built from: the filter fields and the page, never the id. */
  function ListQuery(a: Article): CacheQuery
  {
    CacheQuery(0, a.tagId, a.state, a.pageNum, a.pageSize)
  }

  /** The list key depends on the tag, the state and the page only: requests that agree on these
      share it whatever their other fields, and each of the four fields reaches the key record. */
  lemma ListKeyDependsOnFilterAndPage(a1: Article, a2: Article, articlesKey: CacheQuery -> string)
    ensures a1.tagId == a2.tagId && a1.state == a2.state && a1.pageNum == a2.pageNum && a1.pageSize == a2.pageSize
            ==> articlesKey(ListQuery(a1)) == articlesKey(ListQuery(a2))
    ensures ListQuery(a1) == ListQuery(a2)
            ==> a1.tagId == a2.tagId && a1.state == a2.state && a1.pageNum == a2.pageNum && a1.pageSize == a2.pageSize
  {
  }

  /** getMaps: the exact-match filter of GetAll and Count. */
  function GetMaps(a: Article): (maps: Articles.Columns)
    ensures Articles.DeletedOn in maps && maps[Articles.DeletedOn] == IntVal(0)
    ensures Articles.TagId in maps <==> a.tagId > 0
    ensures Articles.TagId in maps ==> maps[Articles.TagId] == IntVal(a.tagId)
    ensures Articles.State in maps <==> a.state >= 0
    ensures Articles.State in maps ==> maps[Articles.State] == IntVal(a.state)
    ensures maps.Keys <= {Articles.DeletedOn, Articles.TagId, Articles.State}
  {
    var maps := map[Articles.DeletedOn := IntVal(0)];
    var maps := if a.tagId > 0 then maps[Articles.TagId := IntVal(a.tagId)] else maps;
    if a.state >= 0 then maps[Articles.State := IntVal(a.state)] else maps
  }

  /** The rows a request lists: not deleted, of the requested tag when one is given (a positive
      id), in the requested state when one is given (non-negative). */
  predicate Listed(a: Article, row: Articles.Article)
  {
    && row.model.deletedOn == 0
    && (a.tagId > 0 ==> row.tagId == a.tagId)
    && (a.state >= 0 ==> row.state == a.state)
  }

  /** A row matches the getMaps filter exactly when the request lists it. */
  lemma GetMapsMeaning(a: Article, row: Articles.Article)
    ensures Articles.Matches(row, GetMaps(a)) <==> Listed(a, row)
  {
    var maps := GetMaps(a);
    if Articles.Matches(row, maps) {
      assert Articles.Column(row, Articles.DeletedOn) == IntVal(0);
      if a.tagId > 0 {
        assert Articles.Column(row, Articles.TagId) == IntVal(a.tagId);
      }
      if a.state >= 0 {
        assert Articles.Column(row, Articles.State) == IntVal(a.state);
      }
    }
    if Listed(a, row) {
      forall c | c in maps ensures Articles.Column(row, c) == maps[c] {
        assert c == Articles.DeletedOn || c == Articles.TagId || c == Articles.State;
      }
    }
  }

  /** The seven columns Add hands to the store. */
  function AddData(a: Article): (data: Articles.Columns)
    ensures Articles.IsAddData(data)
  {
    map[
      Articles.TagId := IntVal(a.tagId),
      Articles.Title := StrVal(a.title),
      Articles.Desc := StrVal(a.desc),
      Articles.Content := StrVal(a.content),
      Articles.CreatedBy := StrVal(a.createdBy),
      Articles.CoverImageUrl := StrVal(a.coverImageUrl),
      Articles.State := IntVal(a.state)]
  }

  /** The row Add inserts carries the request's tag, title, description, content, creator and
      state, but not its cover image URL, which the store function does not copy. */
  lemma AddedRow(id: int, a: Article, now: int)
    ensures Articles.NewArticle(id, AddData(a), now)
         == Articles.Article(Model(id, now, now, 0), a.tagId, a.title, a.desc, a.content, "", a.createdBy, "", a.state)
  {
    var r := Articles.NewArticle(id, AddData(a), now);
    assert Articles.Column(r, Articles.TagId) == IntVal(a.tagId);
    assert Articles.Column(r, Articles.Title) == StrVal(a.title);
    assert Articles.Column(r, Articles.Desc) == StrVal(a.desc);
    assert Articles.Column(r, Articles.Content) == StrVal(a.content);
    assert Articles.Column(r, Articles.CreatedBy) == StrVal(a.createdBy);
    assert Articles.Column(r, Articles.State) == IntVal(a.state);
  }

  /** The patch Edit hands to the store: always the same seven columns. */
  function EditData(a: Article): (data: Articles.Columns)
    ensures Articles.Updatable(data)
    ensures data.Keys == {Articles.TagId, Articles.Title, Articles.Desc, Articles.Content,
                          Articles.CoverImageUrl, Articles.State, Articles.ModifiedBy}
  {
    map[
      Articles.TagId := IntVal(a.tagId),
      Articles.Title := StrVal(a.title),
      Articles.Desc := StrVal(a.desc),
      Articles.Content := StrVal(a.content),
      Articles.CoverImageUrl := StrVal(a.coverImageUrl),
      Articles.State := IntVal(a.state),
      Articles.ModifiedBy := StrVal(a.modifiedBy)]
  }

  /** Edit overwrites the seven columns with the request's values, sets ModifiedOn, and keeps the
      id, the creation time, the deletion marker and the creator. */
  lemma EditedRow(row: Articles.Article, a: Article, now: int)
    ensures Articles.Patch(row, EditData(a), now)
         == row.(model := row.model.(modifiedOn := now), tagId := a.tagId, title := a.title, desc := a.desc,
                 content := a.content, coverImageUrl := a.coverImageUrl, state := a.state, modifiedBy := a.modifiedBy)
  {
  }

  /** json.Unmarshal of a cached value into an article: a snapshot reads back as the article (or
      nil) that was written; the model's cache holds nothing else under an article key. */
  function AsArticle(v: CacheValue): (r: Option<Articles.Article>)
    ensures v.ArticleSnapshot? ==> r == v.article
    ensures !v.ArticleSnapshot? ==> r == None
  {
    if v.ArticleSnapshot? then v.article else None
  }

  /** json.Unmarshal of a cached value into a list of articles: a page reads back as the rows that
      were written. */
  function AsArticles(v: CacheValue): (r: seq<Articles.Article>)
    ensures v.ArticlePage? ==> r == v.articles
    ensures !v.ArticlePage? ==> r == []
  {
    if v.ArticlePage? then v.articles else []
  }

  /** The ids whose row matches the getMaps filter are the ids whose row the request lists. */
  lemma ListedIdsMatch(a: Article, rows: map<int, Articles.Article>)
    ensures (set id | id in rows && Articles.Matches(rows[id], GetMaps(a)))
         == (set id | id in rows && Listed(a, rows[id]))
  {
    forall id | id in rows {
      GetMapsMeaning(a, rows[id]);
    }
  }

  class Service {
    const db: Articles.ArticleTable
    const cache: Cache
    /** The builder of the single-article key (cache_service's GetArticleKey). */
    const articleKey: CacheQuery -> string
    /** The builder of the article-list key (cache_service's GetArticlesKey). */
    const articlesKey: CacheQuery -> string

    constructor (db: Articles.ArticleTable, cache: Cache, articleKey: CacheQuery -> string, articlesKey: CacheQuery -> string)
      ensures this.db == db && this.cache == cache
      ensures this.articleKey == articleKey && this.articlesKey == articlesKey
    {
      this.db := db;
      this.cache := cache;
      this.articleKey := articleKey;
      this.articlesKey := articlesKey;
    }

    function KeyOf(id: int): string
    {
      articleKey(EntityQuery(id))
    }

    function ListKeyOf(a: Article): string
    {
      articlesKey(ListQuery(a))
    }

    /** ExistByID: whether the article table holds a row with the request's id. */
    function ExistByID(a: Article, fault: Option<Error>): (r: (bool, Option<Error>))
      reads db
      requires db.Valid()
      ensures Fails(fault) ==> r == (false, fault)
      ensures !Fails(fault) ==> r.1 == None
      ensures fault.None? ==> (r.0 <==> a.id in db.rows)
    {
      db.ExistArticleByID(a.id, fault)
    }

    /** Get: the cached article on a hit, with no store call; otherwise the store's article,
        written to the cache only when the store succeeded. */
    method Get(a: Article, existsFails: bool, getFault: Option<Error>, storeFault: Option<Error>, setFault: Option<Error>)
      returns (r: Result<Option<Articles.Article>>, ghost trace: seq<Call>)
      requires db.Valid()
      modifies cache
      ensures old(cache.Exists(KeyOf(a.id), existsFails)) && getFault.None? ==>
        && r == Ok(AsArticle(old(cache.entries)[KeyOf(a.id)].value))
        && cache.entries == old(cache.entries)
        && trace == Probe(KeyOf(a.id), true) && NoStoreCall(trace)
      ensures !(old(cache.Exists(KeyOf(a.id), existsFails)) && getFault.None?) && Fails(storeFault) ==>
        && r == Err(storeFault.value)
        && cache.entries == old(cache.entries)
        && trace == Probe(KeyOf(a.id), old(cache.Exists(KeyOf(a.id), existsFails))) + [StoreRead]
      ensures !(old(cache.Exists(KeyOf(a.id), existsFails)) && getFault.None?) && !Fails(storeFault) ==>
        && r == db.GetArticle(a.id, storeFault)
        && cache.entries == (if setFault.None?
                             then old(cache.entries)[KeyOf(a.id) := Entry(ArticleSnapshot(r.value), CacheTtl)]
                             else old(cache.entries))
        && trace == Probe(KeyOf(a.id), old(cache.Exists(KeyOf(a.id), existsFails))) + [StoreRead, CacheSet(KeyOf(a.id), CacheTtl)]
    {
      var key := KeyOf(a.id);
      var existed := cache.Exists(key, existsFails);
      if existed {
        var data := cache.Get(key, getFault);
        if data.Ok? {
          r, trace := Ok(AsArticle(data.value)), Probe(key, true);
          return;
        }
      }
      trace := Probe(key, existed) + [StoreRead];
      var article := db.GetArticle(a.id, storeFault);
      if article.Err? {
        r := Err(article.error);
        return;
      }
      var _ := cache.Set(key, ArticleSnapshot(article.value), CacheTtl, setFault);
      assert trace + [CacheSet(key, CacheTtl)] == Probe(key, existed) + [StoreRead, CacheSet(key, CacheTtl)];
      trace := trace + [CacheSet(key, CacheTtl)];
      r := Ok(article.value);
    }

    /** GetAll: the cached page on a hit, with no store call; otherwise the store's page for the
        getMaps filter at offset PageNum and limit PageSize, cached only when the store succeeded. */
    method GetAll(a: Article, existsFails: bool, getFault: Option<Error>, storeFault: Option<Error>, setFault: Option<Error>)
      returns (r: Result<seq<Articles.Article>>, ghost trace: seq<Call>)
      requires db.Valid()
      modifies cache
      ensures old(cache.Exists(ListKeyOf(a), existsFails)) && getFault.None? ==>
        && r == Ok(AsArticles(old(cache.entries)[ListKeyOf(a)].value))
        && cache.entries == old(cache.entries)
        && trace == Probe(ListKeyOf(a), true) && NoStoreCall(trace)
      ensures !(old(cache.Exists(ListKeyOf(a), existsFails)) && getFault.None?) && Fails(storeFault) ==>
        && r == Err(storeFault.value)
        && cache.entries == old(cache.entries)
        && trace == Probe(ListKeyOf(a), old(cache.Exists(ListKeyOf(a), existsFails))) + [StoreRead]
      ensures !(old(cache.Exists(ListKeyOf(a), existsFails)) && getFault.None?) && !Fails(storeFault) ==>
        && r == db.GetArticles(a.pageNum, a.pageSize, GetMaps(a), storeFault)
        && (forall x :: x in r.value ==> x in db.rows.Values && Listed(a, x))
        && cache.entries == (if setFault.None?
                             then old(cache.entries)[ListKeyOf(a) := Entry(ArticlePage(r.value), CacheTtl)]
                             else old(cache.entries))
        && trace == Probe(ListKeyOf(a), old(cache.Exists(ListKeyOf(a), existsFails))) + [StoreRead, CacheSet(ListKeyOf(a), CacheTtl)]
    {
      var key := ListKeyOf(a);
      var existed := cache.Exists(key, existsFails);
      if existed {
        var data := cache.Get(key, getFault);
        if data.Ok? {
          r, trace := Ok(AsArticles(data.value)), Probe(key, true);
          return;
        }
      }
      trace := Probe(key, existed) + [StoreRead];
      var articles := db.GetArticles(a.pageNum, a.pageSize, GetMaps(a), storeFault);
      if articles.Err? {
        r := Err(articles.error);
        return;
      }
      forall x | x in articles.value ensures Listed(a, x) {
        GetMapsMeaning(a, x);
      }
      var _ := cache.Set(key, ArticlePage(articles.value), CacheTtl, setFault);
      assert trace + [CacheSet(key, CacheTtl)] == Probe(key, existed) + [StoreRead, CacheSet(key, CacheTtl)];
      trace := trace + [CacheSet(key, CacheTtl)];
      r := Ok(articles.value);
    }

    /** Count: the number of rows the request lists, read from the store alone. */
    function Count(a: Article, fault: Option<Error>): (r: (int, Option<Error>))
      reads db
      requires db.Valid()
      ensures fault.Some? ==> r == (0, fault)
      ensures fault.None? ==> r == (|set id | id in db.rows && Listed(a, db.rows[id])|, None)
    {
      ListedIdsMatch(a, db.rows);
      db.GetArticlesTotal(GetMaps(a), fault)
    }

    /** Add: one insert into the store; the cache is not touched. */
    method Add(a: Article, now: int, fault: Option<Error>) returns (err: Option<Error>, ghost trace: seq<Call>)
      requires db.Valid()
      modifies db
      ensures db.Valid() && unchanged(cache)
      ensures err == Swallow(fault)
      ensures fault.Some? ==> db.rows == old(db.rows) && db.nextId == old(db.nextId)
      ensures fault.None? ==> db.nextId == old(db.nextId) + 1
      ensures fault.None? ==> db.rows == old(db.rows)[old(db.nextId) := Articles.NewArticle(old(db.nextId), AddData(a), now)]
      ensures trace == [StoreWrite] && NoCacheCall(trace)
    {
      err := db.AddArticle(AddData(a), now, fault);
      trace := [StoreWrite];
    }

    /** Edit: patch the seven columns; only after the update and the re-read both succeeded is the
        single-article key overwritten with the re-read row, and the cache's error returned. */
    method Edit(a: Article, now: int, storeFault: Option<Error>, rereadFault: Option<Error>, setFault: Option<Error>)
      returns (err: Option<Error>, ghost trace: seq<Call>)
      requires db.Valid()
      modifies db, cache
      ensures db.Valid() && db.nextId == old(db.nextId)
      ensures db.rows == if storeFault.None? && a.id in old(db.rows)
                         then old(db.rows)[a.id := Articles.Patch(old(db.rows)[a.id], EditData(a), now)]
                         else old(db.rows)
      ensures Fails(storeFault) ==>
        err == storeFault && cache.entries == old(cache.entries) && trace == [StoreWrite]
      ensures !Fails(storeFault) && Fails(rereadFault) ==>
        err == rereadFault && cache.entries == old(cache.entries) && trace == [StoreWrite, StoreRead]
      ensures !Fails(storeFault) && !Fails(rereadFault) ==>
        && err == setFault
        && cache.entries == (if setFault.None?
                             then old(cache.entries)[KeyOf(a.id) := Entry(ArticleSnapshot(db.GetArticle(a.id, rereadFault).value), CacheTtl)]
                             else old(cache.entries))
        && trace == [StoreWrite, StoreRead, CacheSet(KeyOf(a.id), CacheTtl)]
    {
      err := db.EditArticle(a.id, EditData(a), now, storeFault);
      trace := [StoreWrite];
      if err.Some? {
        return;
      }
      var key := KeyOf(a.id);
      var article := db.GetArticle(a.id, rereadFault);
      trace := [StoreWrite, StoreRead];
      if article.Err? {
        err := Some(article.error);
        return;
      }
      err := cache.Set(key, ArticleSnapshot(article.value), CacheTtl, setFault);
      trace := [StoreWrite, StoreRead, CacheSet(key, CacheTtl)];
    }

    /** Delete: remove the row; only after the store succeeded is the single-article key deleted,
        and the cache's error returned. */
    method Delete(a: Article, storeFault: Option<Error>, deleteFault: Option<Error>)
      returns (err: Option<Error>, ghost trace: seq<Call>)
      requires db.Valid()
      modifies db, cache
      ensures db.Valid() && db.nextId == old(db.nextId)
      ensures db.rows == if storeFault.None? then old(db.rows) - {a.id} else old(db.rows)
      ensures Fails(storeFault) ==>
        err == storeFault && cache.entries == old(cache.entries) && trace == [StoreWrite]
      ensures !Fails(storeFault) ==>
        && err == deleteFault
        && cache.entries == (if deleteFault.None? then old(cache.entries) - {KeyOf(a.id)} else old(cache.entries))
        && trace == [StoreWrite, CacheDelete(KeyOf(a.id))]
    {
      err := db.DeleteArticle(a.id, storeFault);
      trace := [StoreWrite];
      if err.Some? {
        return;
      }
      var key := KeyOf(a.id);
      var _, e := cache.Delete(key, deleteFault);
      err := e;
      trace := trace + [CacheDelete(key)];
    }
  }

  /** Two reads with every call succeeding return the same result, and the second one is served
      from the cache without a store call. */
  method ReadTwice(s: Service, a: Article)
    returns (r1: Result<Option<Articles.Article>>, r2: Result<Option<Articles.Article>>, ghost second: seq<Call>)
    requires s.db.Valid()
    modifies s.cache
    ensures r1 == r2 && NoStoreCall(second)
  {
    ghost var t1;
    r1, t1 := s.Get(a, false, None, None, None);
    r2, second := s.Get(a, false, None, None, None);
  }

  /** After an edit in which every call succeeds, a read returns the whole patched row (the seven
      columns Edit lists and the new ModifiedOn over the row stored before) from the cache, without
      a store call. */
  method EditThenGet(s: Service, a: Article, now: int)
    returns (err: Option<Error>, r: Result<Option<Articles.Article>>, ghost trace: seq<Call>)
    requires s.db.Valid() && a.id in s.db.rows
    modifies s.db, s.cache
    ensures err == None && a.id in s.db.rows
    ensures r == Ok(Some(Articles.Patch(old(s.db.rows)[a.id], EditData(a), now)))
    ensures r == Ok(Some(s.db.rows[a.id])) && NoStoreCall(trace)
  {
    ghost var t;
    err, t := s.Edit(a, now, None, None, None);
    r, trace := s.Get(a, false, None, None, None);
  }

  /** After a delete in which every call succeeds, the row is gone and so is its cache entry. */
  method DeleteThenExists(s: Service, a: Article) returns (err: Option<Error>, found: (bool, Option<Error>))
    requires s.db.Valid()
    modifies s.db, s.cache
    ensures err == None && found == (false, None)
    ensures s.KeyOf(a.id) !in s.cache.entries
  {
    ghost var t;
    err, t := s.Delete(a, None, None);
    found := s.ExistByID(a, None);
  }
}
