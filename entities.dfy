/** The persisted Employee row (EMS.Model.DbModels.Employees.Employee) with the
    audit fields that every persisted entity inherits. */
module Entities {
  import opened Wrappers

  /** A timestamp. The model never inspects one: it stores what the caller passes in. */
  datatype Time = Time(ticks: int)

  /** One row of the Employees table. Nullable columns are Option values.
      `IsDeleted` is tri-state: None (unset), Some(false) or Some(true). */
  datatype Employee = Employee(
    Id: int,
    FirstName: Option<string>,
    LastName: Option<string>,
    MiddleName: Option<string>,
    CreatedBy: int,
    CreatedOn: Option<Time>,
    UpdatedBy: int,
    UpdatedOn: Option<Time>,
    IsDeleted: Option<bool>,
    DeletedBy: int,
    DeletedOn: Option<Time>)

  /** The "not soft-deleted" filter of ListAsync and ShortList:
      `IsDeleted == null || !IsDeleted`. */
  predicate IsActive(e: Employee)
  {
    e.IsDeleted.None? || !e.IsDeleted.value
  }

  /** A row is active exactly when it is not marked deleted. */
  lemma ActiveIffNotMarked(e: Employee)
    ensures IsActive(e) <==> e.IsDeleted != Some(true)
  {
  }
}
