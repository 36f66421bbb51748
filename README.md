# go-blog: cache and store discipline of the article and tag services

A Dafny model of the core of go-blog, a small blog back end written in Go with gin, GORM and Redis.
The model covers four parts:

- **The store.** These are the article and tag tables and the GORM functions over them: exact-match
  filters, offset/limit paging, counting, insert, update, delete and purge of soft-deleted rows. It also
  covers the timestamp callbacks every insert and update runs.
- **The services.** Before each list or single-row read they consult Redis. They cache what the
  store returned with a one-hour TTL and refresh or drop cache entries after writes.
- **The page-offset helper.** It turns the `page` query parameter into a row offset.
- **The image-upload validators.** They cover the stored file name, the extension allow list and
  the size limit.

Module layout, one file each:

| Module | Contents |
|---|---|
| `Common` | Results and errors, and the ghost call trace: the external calls a service operation makes, in order. |
| `Table` | Generic pieces of the store: ascending-id scan, offset/limit window, purge. |
| `Models` | The embedded `Model` record and the two timestamp callbacks. |
| `Articles`, `Tags` | Each table is a class: `rows: map<int, Row>` plus the next auto-increment id. Queries are functions; writes are methods that state the whole new table. |
| `Gredis` | The cache as a class holding `entries: map<string, Entry>`. |
| `ArticleService`, `TagService` | The services as classes over one table and one cache. The cache-key builders are uninterpreted function parameters. |
| `Pagination` | `strconv.Atoi` and the offset arithmetic. |
| `Upload` | The image validators. |

Things outside the process become parameters:

- **Store and cache outcomes.** Each store or cache call takes the error that call reports, as
  `Option<Error>`. A failed statement reads or writes nothing. Whether a function swallows
  `ErrRecordNotFound` follows each function's own code.
- **The clock.** Its reading is a parameter `now`.
- **The MD5 digest.** It is a function parameter.
- **Configuration.** The page size, the allow list and the maximum size are parameters.

## Model

| member | source | states |
|---|---|---|
| Common.Swallow | models/article.go:35-37 | In the store functions that test `err != nil && err != gorm.ErrRecordNotFound` (ExistArticleByID, GetArticles, GetArticle, AddArticle, EditArticle, DeleteArticle, ExistTagByName, ExistTagByID, GetTags, GetTag), an error is reported exactly when it is one other than record-not-found, and then it is reported unchanged. The other store functions return the error raw. |
| Models.CreateStamp | models/models.go:65-79 | The create callback stores one clock reading as both CreatedOn and ModifiedOn. It keeps the id and the deletion marker. |
| Models.UpdateStamp | models/models.go:81-91 | The update callback sets only ModifiedOn. It keeps the id, CreatedOn and DeletedOn. |
| Table.ScanIds | models/article.go:44-52 | The scan returns strictly ascending ids. Each id is a stored row that passes the filter, and every such row is returned. |
| Table.ScanFinds | models/article.go:47 | Every stored row that passes the filter is among the rows the scan selects. |
| Table.ScanIdsCount | models/article.go:54-61 | The scan has exactly as many ids as there are matching rows. |
| Table.Window | models/article.go:47 | `Offset(o).Limit(l)` returns a contiguous slice of the rows. It skips nothing for o <= 0 and has no limit for l < 0. Otherwise it has length min(l, rows left). |
| Table.WindowElements | models/article.go:47 | Every row of a page is one of the filtered rows the page is taken from. |
| Table.WindowsTile | models/tag.go:20 | The pages at offsets o and o+n1 concatenate to the page of n1+n2 rows at o. |
| Table.Purge | models/article.go:103-106 | The purge keeps exactly the rows whose DeletedOn is 0, each unchanged. |
| Table.PurgeIdempotent | models/tag.go:94-98 | Purging twice is purging once. |
| Table.PurgeKeepsLiveRows | models/article.go:103-106 | A table with no soft-deleted row is left as it is. |
| Articles.NewArticle | models/article.go:72-85 | The inserted row copies tag_id, title, desc, content, created_by and state from `data`. Both timestamps are `now` and DeletedOn is 0. CoverImageUrl and ModifiedBy stay empty. |
| Articles.Patch | models/article.go:87-93 | `Updates(data)` followed by the update hook keeps the row's id, sets ModifiedOn to `now`, and leaves every column the patch does not list as it was. |
| Articles.CreatedThenEdited | models/article.go:22-30 | A row inserted at one time and then patched at a later one, by a patch that leaves the timestamps alone, has model (id, creation time, edit time, 0). The create and update hooks work together. |
| Articles.PatchChangesOnlyListed | models/article.go:87-93 | `Updates(data)` changes exactly the listed columns. ModifiedOn becomes `now` whatever the patch says. |
| Articles.ArticleTable.Matching | models/article.go:47 | `Where(maps)` yields the stored rows that hold every pair of the filter, all of them, in ascending id order. |
| Articles.ArticleTable.MatchingCount | models/article.go:54-61 | The filtered rows are as many as the ids whose row matches. |
| Articles.ArticleTable.ExistArticleByID | models/article.go:32-42 | The result is true iff the id is stored. A failure other than record-not-found gives (false, err). Record-not-found gives (false, nil). |
| Articles.ArticleTable.GetArticles | models/article.go:44-52 | The result is the filtered rows windowed by pageNum and pageSize, each stored and matching, at most pageSize of them. Record-not-found gives an empty page; any other failure gives the error. |
| Articles.ArticleTable.GetArticlesAsWritten | models/article.go:44-52 | As written, the function returns an empty page or the error, never a row. |
| Articles.ArticleTable.GetArticlesAsWrittenLosesRows | models/article.go:46-51 | When some row matches and the page starts at row 0, the intended page is non-empty and the page as written is empty. |
| Articles.ArticleTable.GetArticlesTotal | models/article.go:54-61 | The count is the number of matching rows. Any error gives (0, err). |
| Articles.ArticleTable.GetArticle | models/article.go:63-70 | The result is the row stored under the id, or nil when there is none. The returned row carries that id. |
| Articles.ArticleTable.GetArticleAsWritten | models/article.go:63-70 | As written, the function returns nil or the error, never a row. |
| Articles.ArticleTable.GetArticleAsWrittenLosesRow | models/article.go:64-69 | For every stored id the intended lookup finds the row and the lookup as written returns nil. |
| Articles.ArticleTable.AddArticle | models/article.go:72-85 | On success the method inserts `NewArticle` under the next id and advances it. On failure nothing changes. Record-not-found is swallowed. |
| Articles.ArticleTable.EditArticle | models/article.go:87-93 | The method patches only the row with that id, if any. Every other row stays as it was. |
| Articles.ArticleTable.DeleteArticle | models/article.go:95-101 | The method removes only the row with that id. |
| Articles.ArticleTable.CleanAllArticle | models/article.go:103-106 | The method removes exactly the soft-deleted rows and returns the error unchanged. A table without soft-deleted rows stays unchanged. |
| Tags.NewTag | models/tag.go:57-64 | The inserted tag has the given name, state and creator. Both timestamps are `now` and DeletedOn is 0. |
| Tags.Patch | models/tag.go:74-77 | `Updates(data)` followed by the update hook keeps the tag's id, sets ModifiedOn to `now`, and leaves every unlisted column as it was. |
| Tags.PatchChangesOnlyListed | models/tag.go:74-77 | `Updates(data)` changes exactly the listed columns and sets ModifiedOn to `now`. |
| Tags.TagTable.Matching | models/tag.go:20 | `Where(maps)` yields every matching stored tag, in ascending id order. |
| Tags.TagTable.MatchingCount | models/tag.go:27-31 | The filtered tags are as many as the ids whose tag matches. |
| Tags.TagTable.GetTags | models/tag.go:18-25 | The result is the filtered tags windowed by pageNum and pageSize. Record-not-found gives an empty page. |
| Tags.TagTable.GetTagTotal | models/tag.go:27-31 | The count is the number of matching tags. Any error gives (0, err). |
| Tags.TagTable.ExistTagByName | models/tag.go:33-43 | With no error, the result is true iff some stored tag has exactly this name. Record-not-found gives (false, nil). |
| Tags.TagTable.ExistTagByID | models/tag.go:45-55 | The result is true iff the id is stored. Record-not-found gives (false, nil). |
| Tags.TagTable.GetTag | models/tag.go:65-72 | The result is the tag stored under the id, or nil. |
| Tags.TagTable.GetTagAsWritten | models/tag.go:65-72 | As written, the function returns nil or the error, never a tag. |
| Tags.TagTable.GetTagAsWrittenLosesRow | models/tag.go:66-71 | For every stored id the intended lookup finds the tag and the lookup as written returns nil. |
| Tags.TagTable.AddTag | models/tag.go:57-64 | On success the method inserts `NewTag` under the next id. The error is returned unchanged. |
| Tags.TagTable.EditTag | models/tag.go:74-77 | The method patches only the tag with that id. The error is returned unchanged. |
| Tags.TagTable.DeleteTag | models/tag.go:79-82 | The method removes only the tag with that id. The error is returned unchanged. |
| Tags.TagTable.CleanAllTag | models/tag.go:94-98 | The method removes exactly the soft-deleted tags. |
| Gredis.Cache.Exists | service/article_service/article.go:35 | The result is true iff the call succeeds and the key is present. Gredis.SetThenGet and Gredis.DeleteThenGet tie it to Set and Delete. |
| Gredis.Cache.Get | service/article_service/article.go:36 | The result is the stored value, nil for a missing key, or the error. Gredis.SetThenGet and Gredis.DeleteThenGet tie it to Set and Delete. |
| Gredis.Cache.Set | service/article_service/article.go:50 | The key is bound to the value with the TTL, unless the call fails. |
| Gredis.Cache.Delete | service/article_service/article.go:147 | The key is removed, unless the call fails. The result reports whether it was there. |
| Gredis.SetThenGet | service/article_service/article.go:35-50 | After a successful Set, EXISTS is true for the key and GET returns the value that was set: the cache hit of a later read sees what the miss cached. |
| Gredis.DeleteThenGet | service/article_service/article.go:147 | After a successful Delete, EXISTS is false for the key and GET reports the nil reply: a later read misses and goes to the store. |
| ArticleService.ListKeyDependsOnFilterAndPage | service/article_service/article.go:58-64 | The list key record is determined by TagID, State, PageNum and PageSize, each of which it carries. Requests that agree on these four share a list key. The converse clause is only the injectivity of the `CacheQuery` record: since the key builder is uninterpreted, it says nothing about key strings. |
| ArticleService.AsArticle | service/article_service/article.go:40 | A cached article snapshot reads back as the article, or nil, that was written. |
| ArticleService.AsArticles | service/article_service/article.go:70 | A cached page reads back as the rows that were written. |
| ArticleService.GetMaps | service/article_service/article.go:87-97 | The filter always has deleted_on = 0. It has tag_id iff TagID > 0 and state iff State >= 0, and no other key. |
| ArticleService.GetMapsMeaning | service/article_service/article.go:87-97 | A row matches the filter iff it is live, of the requested tag when one is given, and in the requested state when one is given. |
| ArticleService.AddData | service/article_service/article.go:99-115 | Add's data has all six typed keys that AddArticle reads. |
| ArticleService.AddedRow | service/article_service/article.go:99-115 | The row Add inserts carries the request's fields, but not its cover image URL. |
| ArticleService.EditData | service/article_service/article.go:117-127 | Edit's patch always lists the same seven columns and never the id. |
| ArticleService.EditedRow | service/article_service/article.go:117-127 | Edit overwrites those seven columns and ModifiedOn and keeps id, CreatedOn, DeletedOn and CreatedBy. |
| ArticleService.Service.ExistByID | service/article_service/article.go:26-28 | The result is true iff the id is stored. |
| ArticleService.Service.Get | service/article_service/article.go:30-52 | A hit returns the cached article, makes no store call and changes nothing. A store failure is returned and caches nothing. Otherwise the store's answer is returned and cached for 3600 s under the id's key, and the trace records each call in order. |
| ArticleService.Service.GetAll | service/article_service/article.go:54-81 | The list version of the same read-through. The store's page lists only Listed rows. |
| ArticleService.Service.Count | service/article_service/article.go:83-85 | The count is the number of Listed rows, read from the store alone. Any error gives (0, err). |
| ArticleService.Service.Add | service/article_service/article.go:99-115 | The method makes one insert of the request's fields and does not touch the cache. |
| ArticleService.Service.Edit | service/article_service/article.go:117-138 | The method patches the row. An update or re-read failure is returned with the cache unchanged. Otherwise the re-read row is cached under the id's key and Set's error is returned. |
| ArticleService.Service.Delete | service/article_service/article.go:140-149 | The method removes the row. Only after the store succeeded is the id's key deleted, and the cache's error is returned. |
| ArticleService.ReadTwice | service/article_service/article.go:30-52 | Two successful reads return the same article, and the second makes no store call. |
| ArticleService.EditThenGet | service/article_service/article.go:117-138 | After a successful edit, a read returns, from the cache and with no store call, the whole patched row: `Articles.Patch` of the row stored before the edit with the seven columns Edit lists and ModifiedOn set to the edit time. It is also the row now stored. |
| ArticleService.DeleteThenExists | service/article_service/article.go:140-149 | After a successful delete, the row and its cache entry are both gone. |
| TagService.AsTags | service/tag_service/tag.go:52 | A cached tag page reads back as the tags that were written. |
| TagService.GetMaps | service/tag_service/tag.go:125-135 | The filter always has deleted_on = 0. It has name iff Name != "" and state iff State >= 0, and no other key. |
| TagService.GetMapsMeaning | service/tag_service/tag.go:125-135 | A tag matches iff it is live, has the requested name (if one is given) and the requested state (if one is given). |
| TagService.ListKeyIgnoresName | service/tag_service/tag.go:39-46 | Requests that differ only in Name share a list key, although their filters differ. |
| TagService.EditData | service/tag_service/tag.go:72-78 | The patch always has modified_by and name. It has state iff State >= 0. |
| TagService.EditedRow | service/tag_service/tag.go:72-79 | Edit renames the tag and changes its state only when State >= 0. |
| TagService.Service.ExistByID | service/tag_service/tag.go:27-29 | The result is true iff the id is stored. |
| TagService.Service.ExistByName | service/tag_service/tag.go:31-33 | The result is true iff some stored tag has the name. |
| TagService.Service.Count | service/tag_service/tag.go:35-37 | The count is the number of Listed tags. Any error gives (0, err). |
| TagService.Service.GetAll | service/tag_service/tag.go:39-62 | A hit is served from the cache with no store call. A store failure is returned and caches nothing. Otherwise the store's page of Listed tags is returned and cached for 3600 s. |
| TagService.Service.Add | service/tag_service/tag.go:64-66 | The method makes one insert and leaves the cache untouched. The error is returned unchanged. |
| TagService.Service.Delete | service/tag_service/tag.go:68-70 | The method makes one delete and leaves the cache untouched, even the tag's own key. |
| TagService.Service.Edit | service/tag_service/tag.go:72-91 | An update error is returned before any cache call, and so is a re-read error. Otherwise the re-read tag is cached under the key built from the id, and nil is returned whatever Set reported. |
| Pagination.Wrap | pkg/util/pagination.go:15 | The result is the 64-bit two's-complement value of x: in range, congruent to x modulo 2^64, and x itself when x fits. |
| Pagination.Atoi | pkg/util/pagination.go:11 | The result is a 64-bit value, and a string that is not a signed decimal reads as 0. |
| Pagination.AtoiItoa | pkg/util/pagination.go:11 | Every 64-bit integer reads back from its decimal form. |
| Pagination.DefaultQuery | pkg/util/pagination.go:11 | The result is the parameter when the request carries one, otherwise the default. |
| Pagination.GetPage | pkg/util/pagination.go:10-16 | util.GetPage without overflow. A parameter that is not a signed decimal gives 0, and the offset is never negative for a non-negative page size. |
| Pagination.GetPageAsWritten | pkg/util/pagination.go:10-16 | util.GetPage as written. The result always fits in 64 bits, and an unparsable parameter gives 0. |
| Pagination.Offset | pkg/util/pagination.go:12-15 | The offset is 0 for page <= 1 and never negative for a non-negative page size. |
| Pagination.GetPageDefaults | pkg/util/pagination.go:11-14 | A missing page parameter, or one that does not parse, gives offset 0. |
| Pagination.GetPageOfNumber | pkg/util/pagination.go:11-15 | A page parameter written in decimal selects that page. |
| Pagination.OffsetIsWholePages | pkg/util/pagination.go:15 | The offset is the length of page-1 full pages laid end to end. |
| Pagination.OffsetMonotone | pkg/util/pagination.go:12-15 | For a non-negative page size, later pages never start earlier. |
| Pagination.OffsetNextPage | pkg/util/pagination.go:15 | From page 1 on, the next page starts one page size later. |
| Pagination.ConsecutivePagesTile | pkg/util/pagination.go:15 | Two consecutive pages of a result together form the double page: no row is skipped or repeated. |
| Pagination.OffsetAsWritten | pkg/util/pagination.go:12-15 | The offset as the source computes it always fits in 64 bits and is 0 for page <= 0. |
| Pagination.OffsetAsWrittenAgrees | pkg/util/pagination.go:15 | Where the true offset fits in 64 bits, the source's offset equals it. |
| Pagination.OffsetAsWrittenWraps | pkg/util/pagination.go:15 | For page 10^18+1 and ten rows a page, the source computes -8446744073709551616 where 10^19 is meant. |
| Pagination.WrappedOffsetServesFirstPage | pkg/util/pagination.go:15 | Because of that wrap, the request is served the first page instead of an empty one. |
| Upload.Ext | pkg/upload/image.go:35 | `path.Ext` returns a suffix of the name. It is empty, or a '.' with no later '.' or '/'. When it is empty, every '.' in the name is followed by a '/'. |
| Upload.ExtOfSuffix | pkg/upload/image.go:35 | A proper extension is the extension of any name it ends. |
| Upload.TrimSuffix | pkg/upload/image.go:36 | Trimming a present suffix and appending it back gives the original string. An absent suffix leaves it as it is. |
| Upload.GetImageName | pkg/upload/image.go:34-39 | The stored name is the digest of the name's stem followed by the name's extension, where the stem and the extension together make up the name. |
| Upload.ImageNameKeepsExt | pkg/upload/image.go:34-39 | The stored name has the uploaded file's extension, given a digest without '.'. |
| Upload.ImageNameDependsOnStem | pkg/upload/image.go:34-39 | Names with the same extension and stems of the same digest get the same stored name. |
| Upload.Upper | pkg/upload/image.go:44 | ASCII upper-casing maps each character, keeping the length. |
| Upload.UpperIdempotent | pkg/upload/image.go:44 | Upper-casing twice is upper-casing once. |
| Upload.CheckImageExt | pkg/upload/image.go:41-50 | The result is true iff some allowed extension equals the file's extension after upper-casing both. An empty list gives false. |
| Upload.ExtAllowedIgnoresCase | pkg/upload/image.go:44 | An extension and its upper-cased form are accepted alike. |
| Upload.CheckImageSize | pkg/upload/image.go:52-61 | The result is false when the size lookup fails. Otherwise it is true iff size <= maximum. |

## Left out

- HTTP handlers, gin context plumbing, request validation and the JSON responses are not part of this model. Handler validation rules appear only where a service needs them.
- The `Preload("Tag")` association of articles is not loaded.
- The model does not represent JSON encoding. It assumes the cache holds, under each key, only what the services wrote there, and that `json.Unmarshal` reads it back unchanged. ArticleService.AsArticle, ArticleService.AsArticles and TagService.AsTags give nil or an empty list for a value of another kind only so that they are total. Go's `json.Unmarshal` would instead report an error, which the services ignore.
- The cache-key builders live in `service/cache_service`, which is not part of this model. They are uninterpreted function parameters, so no claim depends on how keys are spelled.
- Redis internals are left out: connection pooling, the TTL countdown and expiry. A TTL is kept as a number.
- Gredis.Cache.Set: `pkg/gredis` is not part of this model. Set is taken as one atomic set-with-expiry. If it is two commands, a SET that succeeds followed by an EXPIRE that fails would leave the key bound without a TTL, which the model does not represent.
- Logging is left out.
- Concurrency is left out: interleaved requests and concurrent cache misses.
- MySQL collation is left out. Filters compare values exactly.
- Tag `Export` (Excel), `CheckImage` and the image URL and path helpers are left out. They are filesystem access or configuration-string concatenation.
- `Setup` (the database connection) and the unregistered `deleteCallback` are left out.
- `Limit(0)` is read as an empty page and a negative limit as no limit, as in current GORM releases. The GORM version is not part of this model.
- GORM's own errors for a statement are not derived. Each call's reported error is an input.
- Row order is an assumption. Without ORDER BY, SQL promises no order; the model returns rows in ascending id order. Table.ScanIds, Articles.ArticleTable.Matching, Tags.TagTable.Matching, Table.WindowsTile and Pagination.ConsecutivePagesTile ("no row is skipped or repeated") rely on this fixed order across queries.
- Articles.ArticleTable.GetArticlesAsWritten, Articles.ArticleTable.GetArticleAsWritten and Tags.TagTable.GetTagAsWritten: the error GORM reports for a nil or unaddressable destination is an input, like every store error. With no error reported they return the empty page or nil. Whether GORM then reports an error or panics instead is not shown by the source and is not part of this model. Go's pass-by-value guarantees only that no stored row is returned.
- `strings.ToUpper` is modelled on ASCII letters only (Upload.UpperChar). Unicode case mapping is left out.
- `file.GetExt` is in `pkg/file`, which is not part of this model. CheckImageExt takes the extension as `path.Ext` computes it (Upload.Ext).
- Articles.ArticleTable.AddArticle: requires the six `data` keys with their Go types. With a missing key or a wrong type, the source's type assertion panics, and the model does not represent the panic.
- Articles.ArticleTable.EditArticle: requires a patch without the primary key and with values of the columns' types. The source hands any map to GORM.
- Tags.TagTable.EditTag: requires the same well-typed patch.
- Pagination.Atoi: its contract does not state the value of a decimal string. That value is pinned only through the round trip with `Itoa` and the clamp to the 64-bit range.
- The service requests' fields are unbounded integers. Only the page offset carries 64-bit wrap-around, because only there does it change what the store is asked.

## Findings

| source | as written | input that shows it | evidently intended | confidence | as-written member | corrected member |
|---|---|---|---|---|---|---|
| pkg/util/pagination.go:15 | `(page - 1) * setting.PageSize` is computed in 64-bit `int` and wraps | `page=1000000000000000001` with PageSize 10: the offset is -8446744073709551616, so the store skips nothing and the first page is served | the offset (page-1)*PageSize, or a rejection of the request | not executed | Pagination.OffsetAsWrittenWraps | Pagination.Offset |
| models/article.go:46-47 | `Find(articles)` receives the nil slice by value, so the slice the function returns is never filled | any table with a row matching the filter, pageNum 0 and pageSize 10: no stored row is ever returned, only an empty list or GORM's error | `Find(&articles)`, returning the matching page | not executed | Articles.ArticleTable.GetArticlesAsWrittenLosesRows | Articles.ArticleTable.GetArticles |
| models/article.go:64-65 | `First(article)` receives a nil `*Article`, so the returned pointer stays nil | any stored id: no stored row is ever returned, only nil or GORM's error | `First(&article)` on an `Article` value, returning the stored row; the corrected member takes "not found" as nil, where that fix would return a pointer to a zero row | not executed | Articles.ArticleTable.GetArticleAsWrittenLosesRow | Articles.ArticleTable.GetArticle |
| models/tag.go:66-67 | `First(tag)` receives a nil `*Tag`, so the returned pointer stays nil | any stored id: no stored tag is ever returned, only nil or GORM's error; when GORM reports no error, Edit caches nil as the tag | `First(&tag)` on a `Tag` value, returning the stored tag; the corrected member takes "not found" as nil, where that fix would return a pointer to a zero row | not executed | Tags.TagTable.GetTagAsWrittenLosesRow | Tags.TagTable.GetTag |

The services read through the corrected store functions.

An article read by id does not check that the article exists before it consults the cache. The service's Add does not check that the tag exists either; the handler at routers/api/v1/article.go:120 does, before it calls `models.AddArticle` directly. The model follows the service code.
