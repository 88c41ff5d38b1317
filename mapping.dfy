/** The AutoMapper profile (EMS.Utlis.AutoMapper.MappingProfile): the
    Employee <-> EmployeeDto maps, which match the members by name, and the
    Employee -> ShortListDto projection. */
module Mapping {
  import opened Wrappers
  import opened Entities
  import opened Dtos

  /** Employee -> EmployeeDto: the members the two types share by name. */
  function ToDto(e: Employee): (d: EmployeeDto)
  {
    EmployeeDto(e.Id, e.FirstName, e.LastName, e.MiddleName)
  }

  /** EmployeeDto -> Employee (the reverse map): the shared members are
      copied; the audit members have no source and keep their defaults. */
  function FromDto(d: EmployeeDto): (e: Employee)
  {
    Employee(d.Id, d.FirstName, d.LastName, d.MiddleName, 0, None, 0, None, None, 0, None)
  }

  /** Employee -> ShortListDto: `Id := src.Id`, `Title := src.LastName`. */
  function ToShortList(e: Employee): (s: ShortListDto)
  {
    ShortListDto(e.Id, e.LastName)
  }

  /** Mapping a null entity yields a null DTO. */
  function ToDtoOrNull(e: Option<Employee>): (d: Option<EmployeeDto>)
  {
    if e.None? then None else Some(ToDto(e.value))
  }

  /** Mapping a list maps each element, in order. */
  function ToDtos(rows: seq<Employee>): (dtos: seq<EmployeeDto>)
  {
    seq(|rows|, i requires 0 <= i < |rows| => ToDto(rows[i]))
  }

  /** Mapping a list to short-list entries maps each element, in order. */
  function ToShortLists(rows: seq<Employee>): (items: seq<ShortListDto>)
  {
    seq(|rows|, i requires 0 <= i < |rows| => ToShortList(rows[i]))
  }

  /** An entity and a DTO agree on the four members they share. */
  predicate SameShared(e: Employee, d: EmployeeDto)
  {
    e.Id == d.Id && e.FirstName == d.FirstName && e.LastName == d.LastName
    && e.MiddleName == d.MiddleName
  }

  /** The audit members hold their default values. */
  predicate HasDefaultAudit(e: Employee)
  {
    && e.CreatedBy == 0 && e.CreatedOn.None? && e.UpdatedBy == 0 && e.UpdatedOn.None?
    && e.IsDeleted.None? && e.DeletedBy == 0 && e.DeletedOn.None?
  }

  /** Employee -> EmployeeDto copies the shared members, and the DTO depends
      on nothing else: two entities give the same DTO exactly when they agree
      on those members. */
  lemma ToDtoDependsOnSharedOnly(e1: Employee, e2: Employee)
    ensures SameShared(e1, ToDto(e1))
    ensures ToDto(e1) == ToDto(e2) <==> SameShared(e2, ToDto(e1))
  {
  }

  /** EmployeeDto -> Employee copies the shared members and gives the audit
      members no value from the DTO. */
  lemma FromDtoCopiesShared(d: EmployeeDto)
    ensures SameShared(FromDto(d), d) && HasDefaultAudit(FromDto(d))
  {
  }

  /** DTO -> Employee -> DTO is the identity. */
  lemma DtoRoundTrip(d: EmployeeDto)
    ensures ToDto(FromDto(d)) == d
  {
  }

  /** Employee -> DTO -> Employee gives back the entity exactly when its
      audit members were at their defaults. */
  lemma EntityRoundTrip(e: Employee)
    ensures FromDto(ToDto(e)) == e <==> HasDefaultAudit(e)
  {
  }

  /** The short-list entry carries the key and the LastName as its Title;
      the first and middle names do not affect it. */
  lemma ShortListTitleIsLastName(e: Employee, first: Option<string>, middle: Option<string>)
    ensures ToShortList(e).Id == e.Id && ToShortList(e).Title == e.LastName
    ensures ToShortList(e.(FirstName := first, MiddleName := middle)) == ToShortList(e)
  {
  }

  /** Null maps to null, and a present entity to its DTO. */
  lemma ToDtoOrNullPreservesPresence(e: Option<Employee>)
    ensures ToDtoOrNull(e).Some? <==> e.Some?
    ensures e.Some? ==> SameShared(e.value, ToDtoOrNull(e).value)
  {
  }
}
