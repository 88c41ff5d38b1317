/** The ORM context (EMSContext) as the owner of the Employees table, and the
    database connection the unit of work is handed. */
module Context {
  import opened Entities

  /** The database connection; the model never uses it, it is only held. */
  class DbConnection {
    constructor ()
    {
    }
  }

  /** Every key is positive and below the next key the store will hand out,
      and every row carries its own key in `Id`. */
  ghost predicate WellKeyed(t: map<int, Employee>, nextKey: int)
  {
    && nextKey >= 1
    && forall k :: k in t ==> 0 < k < nextKey && t[k].Id == k
  }

  /** The Employees set as an in-memory table keyed by `Id`. `nextKey` is the
      store's identity generator: the key the next insert receives. */
  class EmsContext {
    var Employees: map<int, Employee>
    var nextKey: int

    ghost predicate Valid()
      reads this
    {
      WellKeyed(Employees, nextKey)
    }

    /** An empty table whose identity column starts at 1. */
    constructor ()
      ensures Valid() && Employees == map[] && nextKey == 1
    {
      Employees := map[];
      nextKey := 1;
    }
  }
}
