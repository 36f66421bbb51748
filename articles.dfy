/** The article table and the store functions over it. */
module Articles {
  import opened Common
  import opened Models
  import Table

  /** One article row (its `Tag` association is not loaded in this model). */
  datatype Article = Article(
    model: Model,
    tagId: int,
    title: string,
    desc: string,
    content: string,
    coverImageUrl: string,
    createdBy: string,
    modifiedBy: string,
    state: int)

  /** The columns of the article table. */
  datatype Col =
    | Id | CreatedOn | ModifiedOn | DeletedOn
    | TagId | Title | Desc | Content | CoverImageUrl | CreatedBy | ModifiedBy | State

  /** A `map[string]interface{}` of column to value: a `Where` filter or an `Updates` patch. */
  type Columns = map<Col, Value>

  /** The value a row holds in a column. */
  function Column(a: Article, c: Col): Value
  {
    match c
    case Id => IntVal(a.model.id)
    case CreatedOn => IntVal(a.model.createdOn)
    case ModifiedOn => IntVal(a.model.modifiedOn)
    case DeletedOn => IntVal(a.model.deletedOn)
    case TagId => IntVal(a.tagId)
    case Title => StrVal(a.title)
    case Desc => StrVal(a.desc)
    case Content => StrVal(a.content)
    case CoverImageUrl => StrVal(a.coverImageUrl)
    case CreatedBy => StrVal(a.createdBy)
    case ModifiedBy => StrVal(a.modifiedBy)
    case State => IntVal(a.state)
  }

  /** `Where(maps)`: the row holds every (column, value) pair of the filter. */
  predicate Matches(a: Article, filter: Columns)
  {
    forall c :: c in filter ==> Column(a, c) == filter[c]
  }

  /** True when the value has the Go type of the column. */
  predicate Typed(c: Col, v: Value)
  {
    match c
    case Title | Desc | Content | CoverImageUrl | CreatedBy | ModifiedBy => v.StrVal?
    case _ => v.IntVal?
  }

  /** A patch `Updates` can apply: no primary key, every value of its column's type. */
  predicate Updatable(data: Columns)
  {
    Id !in data && forall c :: c in data ==> Typed(c, data[c])
  }

  /** The columns AddArticle reads from `data`, with the types its assertions `data[k].(T)` expect. */
  predicate IsAddData(data: Columns)
  {
    && TagId in data && data[TagId].IntVal?
    && Title in data && data[Title].StrVal?
    && Desc in data && data[Desc].StrVal?
    && Content in data && data[Content].StrVal?
    && CreatedBy in data && data[CreatedBy].StrVal?
    && State in data && data[State].IntVal?
  }

  /** The columns AddArticle copies from `data` into the new row. */
  const AddColumns: set<Col> := {TagId, Title, Desc, Content, CreatedBy, State}

  /** The row AddArticle inserts under the next id: six columns from `data`, both timestamps from the
      create callbacks, everything else at Go's zero value. */
  function NewArticle(id: int, data: Columns, now: int): (r: Article)
    requires IsAddData(data)
    ensures forall c :: c in AddColumns ==> Column(r, c) == data[c]
    ensures r.model == Model(id, now, now, 0)
    ensures r.coverImageUrl == "" && r.modifiedBy == ""
  {
    Article(
      model := CreateStamp(Model(id, 0, 0, 0), now),
      tagId := data[TagId].i,
      title := data[Title].s,
      desc := data[Desc].s,
      content := data[Content].s,
      coverImageUrl := "",
      createdBy := data[CreatedBy].s,
      modifiedBy := "",
      state := data[State].i)
  }

  /** `Updates(data)` on one row, followed by the update callbacks. */
  function Patch(a: Article, data: Columns, now: int): (r: Article)
    ensures r.model.id == a.model.id && r.model.modifiedOn == now
    ensures forall c :: c != ModifiedOn && c !in data ==> Column(r, c) == Column(a, c)
  {
    var m := Model(a.model.id, IntOr(data, CreatedOn, a.model.createdOn),
                   a.model.modifiedOn, IntOr(data, DeletedOn, a.model.deletedOn));
    Article(
      model := UpdateStamp(m, now),
      tagId := IntOr(data, TagId, a.tagId),
      title := StrOr(data, Title, a.title),
      desc := StrOr(data, Desc, a.desc),
      content := StrOr(data, Content, a.content),
      coverImageUrl := StrOr(data, CoverImageUrl, a.coverImageUrl),
      createdBy := StrOr(data, CreatedBy, a.createdBy),
      modifiedBy := StrOr(data, ModifiedBy, a.modifiedBy),
      state := IntOr(data, State, a.state))
  }

  /** A patch changes exactly the columns it lists; ModifiedOn becomes `now` whatever the patch says. */
  lemma PatchChangesOnlyListed(a: Article, data: Columns, now: int, c: Col)
    requires Updatable(data)
    ensures c == ModifiedOn ==> Column(Patch(a, data, now), c) == IntVal(now)
    ensures c != ModifiedOn && c in data ==> Column(Patch(a, data, now), c) == data[c]
    ensures c != ModifiedOn && c !in data ==> Column(Patch(a, data, now), c) == Column(a, c)
  {
    if c in data {
      assert Typed(c, data[c]);
    }
  }

  /** A row inserted at `created` and then patched at `edited` by a patch that leaves the
      timestamps alone keeps its id, its creation time and its live marker, and carries the edit
      time as ModifiedOn: the create and update callbacks together. */
  lemma CreatedThenEdited(id: int, data: Columns, patch: Columns, created: int, edited: int)
    requires IsAddData(data) && Updatable(patch)
    requires CreatedOn !in patch && DeletedOn !in patch
    ensures Patch(NewArticle(id, data, created), patch, edited).model == Model(id, created, edited, 0)
  {
    var r := NewArticle(id, data, created);
    assert Column(Patch(r, patch, edited), CreatedOn) == Column(r, CreatedOn);
    assert Column(Patch(r, patch, edited), DeletedOn) == Column(r, DeletedOn);
  }

  /** The row's deletion marker after CleanAllArticle's filter. */
  function DeletedOnOf(a: Article): int
  {
    a.model.deletedOn
  }

  /** Every stored row sits under its own primary key, below the next auto-increment id. */
  ghost predicate Keyed(rows: map<int, Article>, nextId: int)
  {
    1 <= nextId && forall id :: id in rows ==> 1 <= id < nextId && rows[id].model.id == id
  }

  /** Replacing a row by one that carries the same primary key keeps the table keyed. */
  lemma ReplaceKeepsKeys(rows: map<int, Article>, nextId: int, id: int, row: Article)
    requires Keyed(rows, nextId) && id in rows && row.model.id == id
    ensures Keyed(rows[id := row], nextId)
  {
  }

  /** No row carries a deletion marker. */
  ghost predicate Live(rows: map<int, Article>)
  {
    forall id :: id in rows ==> rows[id].model.deletedOn == 0
  }

  /** Replacing a row by a live one keeps a table without deletion markers so. */
  lemma ReplaceKeepsLive(rows: map<int, Article>, id: int, row: Article)
    requires Live(rows) && row.model.deletedOn == 0
    ensures Live(rows[id := row])
  {
  }

  class ArticleTable {
    var rows: map<int, Article>
    /** The next auto-increment primary key. */
    var nextId: int

    ghost predicate Valid()
      reads this
    {
      Keyed(rows, nextId)
    }

    /** True when no row carries a deletion marker. */
    ghost predicate NoneDeleted()
      reads this
    {
      Live(rows)
    }

    constructor ()
      ensures Valid() && NoneDeleted()
      ensures rows == map[] && nextId == 1
    {
      rows := map[];
      nextId := 1;
    }

    /** The rows matching `filter`, in ascending id order. */
    function Matching(filter: Columns): (s: seq<Article>)
      reads this
      requires Valid()
      ensures forall i :: 0 <= i < |s| ==> s[i].model.id in rows && rows[s[i].model.id] == s[i] && Matches(s[i], filter)
      ensures forall i, j :: 0 <= i < j < |s| ==> s[i].model.id < s[j].model.id
      ensures forall id :: id in rows && Matches(rows[id], filter) ==> rows[id] in s
    {
      var keep := (x: Article) => Matches(x, filter);
      var ids := Table.ScanIds(rows, keep, nextId);
      var s := Table.Select(rows, ids);
      assert forall id :: id in rows && Matches(rows[id], filter) ==> rows[id] in s by {
        forall id | id in rows && Matches(rows[id], filter) ensures rows[id] in s {
          Table.ScanFinds(rows, keep, nextId, id);
        }
      }
      s
    }

    /** The scan counts each matching row once. */
    lemma MatchingCount(filter: Columns)
      requires Valid()
      ensures |Matching(filter)| == |set id | id in rows && Matches(rows[id], filter)|
    {
      var keep := (x: Article) => Matches(x, filter);
      Table.ScanIdsCount(rows, keep, nextId);
      assert forall id :: id in rows ==> 1 <= id < nextId;
      assert Table.MatchingIds(rows, keep, nextId) == set id | id in rows && Matches(rows[id], filter);
    }

    /** models.ExistArticleByID: `Select("id").Where("id = ?", id).First`, then `ID > 0`. */
    function ExistArticleByID(id: int, fault: Option<Error>): (r: (bool, Option<Error>))
      reads this
      requires Valid()
      ensures Fails(fault) ==> r == (false, fault)
      ensures fault.None? ==> r == (id in rows, None)
      ensures fault == Some(RecordNotFound) ==> r == (false, None)
    {
      if Fails(fault) then (false, fault)
      else
        var found := if fault.None? && id in rows then rows[id].model.id else 0;
        (found > 0, None)
    }

    /** models.GetArticles: filter, skip `pageNum` rows, keep at most `pageSize`. */
    function GetArticles(pageNum: int, pageSize: int, maps: Columns, fault: Option<Error>): (r: Result<seq<Article>>)
      reads this
      requires Valid()
      ensures Fails(fault) <==> r.Err?
      ensures r.Err? ==> r.error == fault.value
      ensures fault.None? ==> r == Ok(Table.Window(Matching(maps), pageNum, pageSize))
      ensures fault == Some(RecordNotFound) ==> r == Ok([])
      ensures r.Ok? ==> forall x :: x in r.value ==> x in rows.Values && Matches(x, maps)
      ensures r.Ok? && 0 <= pageSize ==> |r.value| <= pageSize
    {
      if Fails(fault) then Err(fault.value)
      else if fault.Some? then Ok([])
      else
        var w := Table.Window(Matching(maps), pageNum, pageSize);
        Table.WindowElements(Matching(maps), pageNum, pageSize);
        Ok(w)
    }

    /** models.GetArticles as written: the nil slice is handed to `Find` by value, so the slice the
        function returns is never filled; only a store error gets through. */
    function GetArticlesAsWritten(pageNum: int, pageSize: int, maps: Columns, fault: Option<Error>): (r: Result<seq<Article>>)
      reads this
      requires Valid()
      ensures Fails(fault) <==> r.Err?
      ensures r.Err? ==> r.error == fault.value
      ensures r.Ok? ==> r.value == []
    {
      if Fails(fault) then Err(fault.value) else Ok([])
    }

    /** Whenever some row matches and the page is the first one, the intended query returns a
        non-empty page and the query as written returns none. */
    lemma GetArticlesAsWrittenLosesRows(pageNum: int, pageSize: int, maps: Columns, id: int)
      requires Valid() && id in rows && Matches(rows[id], maps)
      requires pageNum <= 0 && pageSize != 0
      ensures GetArticles(pageNum, pageSize, maps, None).Ok?
      ensures |GetArticles(pageNum, pageSize, maps, None).value| > 0
      ensures GetArticlesAsWritten(pageNum, pageSize, maps, None) == Ok([])
    {
      assert rows[id] in Matching(maps);
    }

    /** models.GetArticlesTotal: the number of matching rows, or 0 with the error. */
    function GetArticlesTotal(maps: Columns, fault: Option<Error>): (r: (int, Option<Error>))
      reads this
      requires Valid()
      ensures fault.Some? ==> r == (0, fault)
      ensures fault.None? ==> r == (|set id | id in rows && Matches(rows[id], maps)|, None)
    {
      if fault.Some? then (0, fault) else MatchingCount(maps); (|Matching(maps)|, None)
    }

    /** models.GetArticle: the row with this id, or nil when there is none. */
    function GetArticle(id: int, fault: Option<Error>): (r: Result<Option<Article>>)
      reads this
      requires Valid()
      ensures Fails(fault) <==> r.Err?
      ensures r.Err? ==> r.error == fault.value
      ensures fault.None? ==> r == Ok(if id in rows then Some(rows[id]) else None)
      ensures fault == Some(RecordNotFound) ==> r == Ok(None)
      ensures r.Ok? && r.value.Some? ==> r.value.value.model.id == id
    {
      if Fails(fault) then Err(fault.value)
      else if fault.None? && id in rows then Ok(Some(rows[id]))
      else Ok(None)
    }

    /** models.GetArticle as written: `First` receives a nil pointer, so the article the function
        returns stays nil; only a store error gets through. */
    function GetArticleAsWritten(id: int, fault: Option<Error>): (r: Result<Option<Article>>)
      reads this
      requires Valid()
      ensures Fails(fault) <==> r.Err?
      ensures r.Err? ==> r.error == fault.value
      ensures r.Ok? ==> r.value == None
    {
      if Fails(fault) then Err(fault.value) else Ok(None)
    }

    /** For every stored id the intended lookup finds the row and the lookup as written does not. */
    lemma GetArticleAsWrittenLosesRow(id: int)
      requires Valid() && id in rows
      ensures GetArticle(id, None) == Ok(Some(rows[id]))
      ensures GetArticleAsWritten(id, None) == Ok(None)
    {
    }

    /** models.AddArticle: insert the row under the next id; a failed statement inserts nothing. */
    method AddArticle(data: Columns, now: int, fault: Option<Error>) returns (err: Option<Error>)
      requires Valid() && IsAddData(data)
      modifies this
      ensures Valid()
      ensures err == Swallow(fault)
      ensures fault.Some? ==> rows == old(rows) && nextId == old(nextId)
      ensures fault.None? ==> nextId == old(nextId) + 1
      ensures fault.None? ==> rows == old(rows)[old(nextId) := NewArticle(old(nextId), data, now)]
      ensures old(NoneDeleted()) ==> NoneDeleted()
    {
      if fault.Some? {
        err := Swallow(fault);
        return;
      }
      rows := rows[nextId := NewArticle(nextId, data, now)];
      nextId := nextId + 1;
      err := None;
    }

    /** models.EditArticle: `Where("id = ?", id).Updates(data)`; no row with that id changes nothing. */
    method EditArticle(id: int, data: Columns, now: int, fault: Option<Error>) returns (err: Option<Error>)
      requires Valid() && Updatable(data)
      modifies this
      ensures Valid() && nextId == old(nextId)
      ensures err == Swallow(fault)
      ensures rows == if fault.None? && id in old(rows) then old(rows)[id := Patch(old(rows)[id], data, now)] else old(rows)
      ensures old(NoneDeleted()) && DeletedOn !in data ==> NoneDeleted()
    {
      if fault.Some? {
        err := Swallow(fault);
        return;
      }
      if id in rows {
        var patched := Patch(rows[id], data, now);
        ReplaceKeepsKeys(rows, nextId, id, patched);
        if NoneDeleted() && DeletedOn !in data {
          assert patched.model.deletedOn == rows[id].model.deletedOn;
          ReplaceKeepsLive(rows, id, patched);
        }
        rows := rows[id := patched];
      }
      err := None;
    }

    /** models.DeleteArticle: removes the row with this id, and only it. */
    method DeleteArticle(id: int, fault: Option<Error>) returns (err: Option<Error>)
      requires Valid()
      modifies this
      ensures Valid() && nextId == old(nextId)
      ensures err == Swallow(fault)
      ensures rows == if fault.None? then old(rows) - {id} else old(rows)
      ensures old(NoneDeleted()) ==> NoneDeleted()
    {
      if fault.Some? {
        err := Swallow(fault);
        return;
      }
      rows := rows - {id};
      err := None;
    }

    /** models.CleanAllArticle: removes exactly the rows whose DeletedOn is not 0; the error is passed on as is. */
    method CleanAllArticle(fault: Option<Error>) returns (err: Option<Error>)
      requires Valid()
      modifies this
      ensures Valid() && nextId == old(nextId)
      ensures err == fault
      ensures rows == if fault.None? then Table.Purge(old(rows), DeletedOnOf) else old(rows)
      ensures old(NoneDeleted()) ==> rows == old(rows)
    {
      if fault.None? {
        if NoneDeleted() {
          Table.PurgeKeepsLiveRows(rows, DeletedOnOf);
        }
        rows := Table.Purge(rows, DeletedOnOf);
      }
      err := fault;
    }
  }
}
