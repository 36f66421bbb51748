/** The tag table and the store functions over it. */
module Tags {
  import opened Common
  import opened Models
  import Table

  /** One tag row. */
  datatype Tag = Tag(model: Model, name: string, createdBy: string, modifiedBy: string, state: int)

  /** The columns of the tag table. */
  datatype Col = Id | CreatedOn | ModifiedOn | DeletedOn | Name | CreatedBy | ModifiedBy | State

  /** A `map[string]interface{}` of column to value: a `Where` filter or an `Updates` patch. */
  type Columns = map<Col, Value>

  /** The value a row holds in a column. */
  function Column(t: Tag, c: Col): Value
  {
    match c
    case Id => IntVal(t.model.id)
    case CreatedOn => IntVal(t.model.createdOn)
    case ModifiedOn => IntVal(t.model.modifiedOn)
    case DeletedOn => IntVal(t.model.deletedOn)
    case Name => StrVal(t.name)
    case CreatedBy => StrVal(t.createdBy)
    case ModifiedBy => StrVal(t.modifiedBy)
    case State => IntVal(t.state)
  }

  /** `Where(maps)`: the row holds every (column, value) pair of the filter. */
  predicate Matches(t: Tag, filter: Columns)
  {
    forall c :: c in filter ==> Column(t, c) == filter[c]
  }

  /** True when the value has the Go type of the column. */
  predicate Typed(c: Col, v: Value)
  {
    match c
    case Name | CreatedBy | ModifiedBy => v.StrVal?
    case _ => v.IntVal?
  }

  /** A patch `Updates` can apply: no primary key, every value of its column's type. */
  predicate Updatable(data: Columns)
  {
    Id !in data && forall c :: c in data ==> Typed(c, data[c])
  }

  /** The row AddTag inserts under the next id: exactly the given name, state and creator, both
      timestamps from the create callbacks. */
  function NewTag(id: int, name: string, state: int, createdBy: string, now: int): (r: Tag)
    ensures Column(r, Name) == StrVal(name) && Column(r, State) == IntVal(state)
    ensures Column(r, CreatedBy) == StrVal(createdBy) && Column(r, ModifiedBy) == StrVal("")
    ensures r.model == Model(id, now, now, 0)
  {
    Tag(CreateStamp(Model(id, 0, 0, 0), now), name, createdBy, "", state)
  }

  /** `Updates(data)` on one row, followed by the update callbacks. */
  function Patch(t: Tag, data: Columns, now: int): (r: Tag)
    ensures r.model.id == t.model.id && r.model.modifiedOn == now
    ensures forall c :: c != ModifiedOn && c !in data ==> Column(r, c) == Column(t, c)
  {
    var m := Model(t.model.id, IntOr(data, CreatedOn, t.model.createdOn),
                   t.model.modifiedOn, IntOr(data, DeletedOn, t.model.deletedOn));
    Tag(
      model := UpdateStamp(m, now),
      name := StrOr(data, Name, t.name),
      createdBy := StrOr(data, CreatedBy, t.createdBy),
      modifiedBy := StrOr(data, ModifiedBy, t.modifiedBy),
      state := IntOr(data, State, t.state))
  }

  /** A patch changes exactly the columns it lists; ModifiedOn becomes `now` whatever the patch says. */
  lemma PatchChangesOnlyListed(t: Tag, data: Columns, now: int, c: Col)
    requires Updatable(data)
    ensures c == ModifiedOn ==> Column(Patch(t, data, now), c) == IntVal(now)
    ensures c != ModifiedOn && c in data ==> Column(Patch(t, data, now), c) == data[c]
    ensures c != ModifiedOn && c !in data ==> Column(Patch(t, data, now), c) == Column(t, c)
  {
    if c in data {
      assert Typed(c, data[c]);
    }
  }

  /** The row's deletion marker after CleanAllTag's filter. */
  function DeletedOnOf(t: Tag): int
  {
    t.model.deletedOn
  }

  class TagTable {
    var rows: map<int, Tag>
    /** The next auto-increment primary key. */
    var nextId: int

    ghost predicate Valid()
      reads this
    {
      1 <= nextId && forall id :: id in rows ==> 1 <= id < nextId && rows[id].model.id == id
    }

    /** True when no row carries a deletion marker. */
    ghost predicate NoneDeleted()
      reads this
    {
      forall id :: id in rows ==> rows[id].model.deletedOn == 0
    }

    constructor ()
      ensures Valid() && NoneDeleted()
      ensures rows == map[] && nextId == 1
    {
      rows := map[];
      nextId := 1;
    }

    /** The rows matching `filter`, in ascending id order. */
    function Matching(filter: Columns): (s: seq<Tag>)
      reads this
      requires Valid()
      ensures forall i :: 0 <= i < |s| ==> s[i].model.id in rows && rows[s[i].model.id] == s[i] && Matches(s[i], filter)
      ensures forall i, j :: 0 <= i < j < |s| ==> s[i].model.id < s[j].model.id
      ensures forall id :: id in rows && Matches(rows[id], filter) ==> rows[id] in s
    {
      var keep := (x: Tag) => Matches(x, filter);
      var ids := Table.ScanIds(rows, keep, nextId);
      var s := Table.Select(rows, ids);
      assert forall id :: id in rows && Matches(rows[id], filter) ==> rows[id] in s by {
        forall id | id in rows && Matches(rows[id], filter) ensures rows[id] in s {
          Table.ScanFinds(rows, keep, nextId, id);
        }
      }
      s
    }

    /** The scan counts each matching row once. */
    lemma MatchingCount(filter: Columns)
      requires Valid()
      ensures |Matching(filter)| == |set id | id in rows && Matches(rows[id], filter)|
    {
      var keep := (x: Tag) => Matches(x, filter);
      Table.ScanIdsCount(rows, keep, nextId);
      assert forall id :: id in rows ==> 1 <= id < nextId;
      assert Table.MatchingIds(rows, keep, nextId) == set id | id in rows && Matches(rows[id], filter);
    }

    /** models.GetTags: filter, skip `pageNum` rows, keep at most `pageSize`. */
    function GetTags(pageNum: int, pageSize: int, maps: Columns, fault: Option<Error>): (r: Result<seq<Tag>>)
      reads this
      requires Valid()
      ensures Fails(fault) <==> r.Err?
      ensures r.Err? ==> r.error == fault.value
      ensures fault.None? ==> r == Ok(Table.Window(Matching(maps), pageNum, pageSize))
      ensures fault == Some(RecordNotFound) ==> r == Ok([])
      ensures r.Ok? ==> forall x :: x in r.value ==> x in rows.Values && Matches(x, maps)
      ensures r.Ok? && 0 <= pageSize ==> |r.value| <= pageSize
    {
      if Fails(fault) then Err(fault.value)
      else if fault.Some? then Ok([])
      else
        var w := Table.Window(Matching(maps), pageNum, pageSize);
        Table.WindowElements(Matching(maps), pageNum, pageSize);
        Ok(w)
    }

    /** models.GetTagTotal: the number of matching rows together with the statement's error, whatever it is. */
    function GetTagTotal(maps: Columns, fault: Option<Error>): (r: (int, Option<Error>))
      reads this
      requires Valid()
      ensures fault.Some? ==> r == (0, fault)
      ensures fault.None? ==> r == (|set id | id in rows && Matches(rows[id], maps)|, None)
    {
      if fault.Some? then (0, fault) else MatchingCount(maps); (|Matching(maps)|, None)
    }

    /** models.ExistTagByName: `Select("id").Where("name = ?", name).First`, then `ID > 0`. */
    function ExistTagByName(name: string, fault: Option<Error>): (r: (bool, Option<Error>))
      reads this
      requires Valid()
      ensures Fails(fault) ==> r == (false, fault)
      ensures fault.None? ==> r == ((exists id :: id in rows && rows[id].name == name), None)
      ensures fault == Some(RecordNotFound) ==> r == (false, None)
    {
      if Fails(fault) then (false, fault)
      else
        var first := Matching(map[Name := StrVal(name)]);
        var found := if fault.None? && |first| > 0 then first[0].model.id else 0;
        assert fault.None? ==> (found > 0 <==> exists id :: id in rows && rows[id].name == name) by {
          var byName := map[Name := StrVal(name)];
          if fault.None? && exists id :: id in rows && rows[id].name == name {
            var id :| id in rows && rows[id].name == name;
            assert Matches(rows[id], byName);
            assert |first| > 0;
          }
          if fault.None? && |first| > 0 {
            assert Matches(first[0], byName);
            assert Column(first[0], Name) == StrVal(name);
            assert rows[first[0].model.id].name == name;
            assert 1 <= first[0].model.id;
          }
        }
        (found > 0, None)
    }

    /** models.ExistTagByID: `Select("id").Where("id = ?", id).First`, then `ID > 0`. */
    function ExistTagByID(id: int, fault: Option<Error>): (r: (bool, Option<Error>))
      reads this
      requires Valid()
      ensures Fails(fault) ==> r == (false, fault)
      ensures fault.None? ==> r == (id in rows, None)
      ensures fault == Some(RecordNotFound) ==> r == (false, None)
    {
      if Fails(fault) then (false, fault)
      else
        var found := if fault.None? && id in rows then rows[id].model.id else 0;
        (found > 0, None)
    }

    /** models.GetTag: the row with this id, or nil when there is none. */
    function GetTag(id: int, fault: Option<Error>): (r: Result<Option<Tag>>)
      reads this
      requires Valid()
      ensures Fails(fault) <==> r.Err?
      ensures r.Err? ==> r.error == fault.value
      ensures fault.None? ==> r == Ok(if id in rows then Some(rows[id]) else None)
      ensures fault == Some(RecordNotFound) ==> r == Ok(None)
      ensures r.Ok? && r.value.Some? ==> r.value.value.model.id == id
    {
      if Fails(fault) then Err(fault.value)
      else if fault.None? && id in rows then Ok(Some(rows[id]))
      else Ok(None)
    }

    /** models.GetTag as written: `First` receives a nil pointer, so the tag the function returns
        stays nil; only a store error gets through. */
    function GetTagAsWritten(id: int, fault: Option<Error>): (r: Result<Option<Tag>>)
      reads this
      requires Valid()
      ensures Fails(fault) <==> r.Err?
      ensures r.Err? ==> r.error == fault.value
      ensures r.Ok? ==> r.value == None
    {
      if Fails(fault) then Err(fault.value) else Ok(None)
    }

    /** For every stored id the intended lookup finds the row and the lookup as written does not. */
    lemma GetTagAsWrittenLosesRow(id: int)
      requires Valid() && id in rows
      ensures GetTag(id, None) == Ok(Some(rows[id]))
      ensures GetTagAsWritten(id, None) == Ok(None)
    {
    }

    /** models.AddTag: insert the row under the next id; the error is passed on as is. */
    method AddTag(name: string, state: int, createdBy: string, now: int, fault: Option<Error>) returns (err: Option<Error>)
      requires Valid()
      modifies this
      ensures Valid()
      ensures err == fault
      ensures fault.Some? ==> rows == old(rows) && nextId == old(nextId)
      ensures fault.None? ==> nextId == old(nextId) + 1
      ensures fault.None? ==> rows == old(rows)[old(nextId) := NewTag(old(nextId), name, state, createdBy, now)]
      ensures old(NoneDeleted()) ==> NoneDeleted()
    {
      err := fault;
      if fault.None? {
        rows := rows[nextId := NewTag(nextId, name, state, createdBy, now)];
        nextId := nextId + 1;
      }
    }

    /** models.EditTag: `Where("id = ?", id).Updates(data)`; the error is passed on as is. */
    method EditTag(id: int, data: Columns, now: int, fault: Option<Error>) returns (err: Option<Error>)
      requires Valid() && Updatable(data)
      modifies this
      ensures Valid() && nextId == old(nextId)
      ensures err == fault
      ensures rows == if fault.None? && id in old(rows) then old(rows)[id := Patch(old(rows)[id], data, now)] else old(rows)
      ensures old(NoneDeleted()) && DeletedOn !in data ==> NoneDeleted()
    {
      err := fault;
      if fault.None? && id in rows {
        rows := rows[id := Patch(rows[id], data, now)];
      }
    }

    /** models.DeleteTag: removes the row with this id, and only it; the error is passed on as is. */
    method DeleteTag(id: int, fault: Option<Error>) returns (err: Option<Error>)
      requires Valid()
      modifies this
      ensures Valid() && nextId == old(nextId)
      ensures err == fault
      ensures rows == if fault.None? then old(rows) - {id} else old(rows)
      ensures old(NoneDeleted()) ==> NoneDeleted()
    {
      err := fault;
      if fault.None? {
        rows := rows - {id};
      }
    }

    /** models.CleanAllTag: removes exactly the rows whose DeletedOn is not 0. */
    method CleanAllTag(fault: Option<Error>) returns (err: Option<Error>)
      requires Valid()
      modifies this
      ensures Valid() && nextId == old(nextId)
      ensures err == fault
      ensures rows == if fault.None? then Table.Purge(old(rows), DeletedOnOf) else old(rows)
      ensures old(NoneDeleted()) ==> rows == old(rows)
    {
      if fault.None? {
        if NoneDeleted() {
          Table.PurgeKeepsLiveRows(rows, DeletedOnOf);
        }
        rows := Table.Purge(rows, DeletedOnOf);
      }
      err := fault;
    }
  }
}
