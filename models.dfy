/** The `Model` record every table row embeds, and the timestamp callbacks the store runs before
    each insert and each update; `now` is the clock reading (`time.Now().Unix()`) of that statement. */
module Models {

  /** Primary key and the three Unix-second timestamps; `deletedOn == 0` means not deleted. */
  datatype Model = Model(id: int, createdOn: int, modifiedOn: int, deletedOn: int)

  /** The create callback: CreatedOn and ModifiedOn both receive the one clock reading. */
  function CreateStamp(m: Model, now: int): (r: Model)
    ensures r.createdOn == now && r.modifiedOn == now
    ensures r.id == m.id && r.deletedOn == m.deletedOn
  {
    m.(createdOn := now, modifiedOn := now)
  }

  /** The update callback: only ModifiedOn is set. */
  function UpdateStamp(m: Model, now: int): (r: Model)
    ensures r.modifiedOn == now
    ensures r.id == m.id && r.createdOn == m.createdOn && r.deletedOn == m.deletedOn
  {
    m.(modifiedOn := now)
  }
}
