/** The employee business rules (EMS.Service.Employees.EmployeeService) on
    top of the unit of work's repository. */
module Services {
  import opened Wrappers
  import opened Entities
  import opened Dtos
  import opened Mapping
  import opened Context
  import opened Repositories
  import opened UnitsOfWork

  /** The row AddAsync hands to the repository: the mapped request, marked
      not deleted and stamped with its creator and creation time. */
  function NewRow(d: EmployeeDto, user: int, now: Time): (e: Employee)
  {
    FromDto(d).(IsDeleted := Some(false), CreatedBy := user, CreatedOn := Some(now))
  }

  /** The row UpdateAsync writes back: the stored row with the three names
      taken from the request and the update stamped. */
  function Revised(e: Employee, d: EmployeeDto, user: int, now: Time): (r: Employee)
  {
    e.(FirstName := d.FirstName, LastName := d.LastName, MiddleName := d.MiddleName,
       UpdatedBy := user, UpdatedOn := Some(now))
  }

  /** `dtos` lists the DTOs of exactly the active rows of `t`, each once. */
  ghost predicate ListsActiveDtos(dtos: seq<EmployeeDto>, t: map<int, Employee>)
  {
    && (forall i :: 0 <= i < |dtos| ==>
          dtos[i].Id in t && IsActive(t[dtos[i].Id]) && dtos[i] == ToDto(t[dtos[i].Id]))
    && (forall k :: k in t && IsActive(t[k]) ==> ToDto(t[k]) in dtos)
    && (forall i, j :: 0 <= i < j < |dtos| ==> dtos[i].Id != dtos[j].Id)
  }

  /** `items` lists the short-list entries of exactly the active rows of `t`, each once. */
  ghost predicate ListsActiveTitles(items: seq<ShortListDto>, t: map<int, Employee>)
  {
    && (forall i :: 0 <= i < |items| ==>
          items[i].Id in t && IsActive(t[items[i].Id]) && items[i] == ToShortList(t[items[i].Id]))
    && (forall k :: k in t && IsActive(t[k]) ==> ToShortList(t[k]) in items)
    && (forall i, j :: 0 <= i < j < |items| ==> items[i].Id != items[j].Id)
  }

  /** A new row is active, stamped as created by `user` at `now`, carries the
      request's key and names, and has no update or deletion recorded. */
  lemma NewRowStamps(d: EmployeeDto, user: int, now: Time)
    ensures NewRow(d, user, now).IsDeleted == Some(false) && IsActive(NewRow(d, user, now))
    ensures NewRow(d, user, now).CreatedBy == user && NewRow(d, user, now).CreatedOn == Some(now)
    ensures SameShared(NewRow(d, user, now), d) && ToDto(NewRow(d, user, now)) == d
    ensures NewRow(d, user, now).UpdatedOn.None? && NewRow(d, user, now).DeletedOn.None?
  {
  }

  /** An update takes the three names from the request, stamps the update,
      and keeps the key, the creation stamp and the whole deletion state, so a
      soft-deleted row stays soft-deleted. */
  lemma RevisedKeepsAudit(e: Employee, d: EmployeeDto, user: int, now: Time)
    ensures Revised(e, d, user, now).FirstName == d.FirstName
    ensures Revised(e, d, user, now).LastName == d.LastName
    ensures Revised(e, d, user, now).MiddleName == d.MiddleName
    ensures Revised(e, d, user, now).UpdatedBy == user && Revised(e, d, user, now).UpdatedOn == Some(now)
    ensures Revised(e, d, user, now).(FirstName := e.FirstName, LastName := e.LastName,
              MiddleName := e.MiddleName, UpdatedBy := e.UpdatedBy, UpdatedOn := e.UpdatedOn) == e
    ensures IsActive(Revised(e, d, user, now)) == IsActive(e)
  {
  }

  /** After a soft delete the row is still stored, fails the active filter
      and so drops out of every listing. */
  lemma SoftDeletedLeavesListing(t: map<int, Employee>, id: int, user: int, now: Time, dtos: seq<EmployeeDto>)
    requires id in t
    requires ListsActiveDtos(dtos, t[id := MarkDeleted(t[id], user, now)])
    ensures id in t[id := MarkDeleted(t[id], user, now)]
    ensures forall i :: 0 <= i < |dtos| ==> dtos[i].Id != id
  {
    MarkDeletedStamps(t[id], user, now);
  }

  /** Proof helper for NoActiveRowListsNothing: the first listed DTO comes from an active row. */
  lemma FirstListedIsActive(dtos: seq<EmployeeDto>, t: map<int, Employee>)
    requires ListsActiveDtos(dtos, t) && |dtos| > 0
    ensures dtos[0].Id in t && IsActive(t[dtos[0].Id])
  {
  }

  /** When every row is soft-deleted the listing is empty. */
  lemma NoActiveRowListsNothing(dtos: seq<EmployeeDto>, t: map<int, Employee>)
    requires ListsActiveDtos(dtos, t)
    requires forall k :: k in t ==> !IsActive(t[k])
    ensures dtos == []
  {
    if |dtos| > 0 {
      FirstListedIsActive(dtos, t);
      assert false;
    }
  }

  class EmployeeService {
    const uow: UnitOfWork
    /** The id of the logged-in user, read once when the service is built. */
    const loggedInUser: int

    ghost predicate Valid()
      reads this, uow, uow.dbContext
    {
      uow.Valid() && uow.dbContext.Valid()
    }

    /** The Employees table the service works on. */
    ghost function Table(): map<int, Employee>
      reads uow.dbContext
    {
      uow.dbContext.Employees
    }

    constructor (uow: UnitOfWork, loggedInUser: int)
      requires uow.Valid() && uow.dbContext.Valid()
      ensures Valid() && this.uow == uow && this.loggedInUser == loggedInUser
    {
      this.uow := uow;
      this.loggedInUser := loggedInUser;
    }

    /** A null request is ignored. Otherwise one new row, built by NewRow, is
        stored under the next key and its DTO is returned. */
    method AddAsync(request: Option<EmployeeDto>, now: Time) returns (r: Option<EmployeeDto>)
      requires Valid()
      modifies uow`employeeRepository, uow.dbContext
      ensures Valid()
      ensures request.None? ==> r.None? && unchanged(uow, uow.dbContext)
      ensures request.Some? ==>
        var k := old(uow.dbContext.nextKey);
        && k !in old(Table())
        && Table() == old(Table())[k := NewRow(request.value, loggedInUser, now).(Id := k)]
        && uow.dbContext.nextKey == k + 1
        && r == Some(ToDto(Table()[k]))
      ensures request.Some? ==>
        && r.Some? && r.value.FirstName == request.value.FirstName
        && r.value.LastName == request.value.LastName && r.value.MiddleName == request.value.MiddleName
    {
      if request.Some? {
        var employee := FromDto(request.value);
        employee := employee.(IsDeleted := Some(false));
        employee := employee.(CreatedBy := loggedInUser);
        employee := employee.(CreatedOn := Some(now));
        var repo := uow.EmployeeRepository();
        var result := repo.AddAsync(employee);
        r := Some(ToDto(result));
      } else {
        r := None;
      }
    }

    /** A null request, a key <= 0 or a key with no row gives null and writes
        nothing. Otherwise the stored row (soft-deleted or not) is replaced by
        Revised and its DTO is returned. */
    method UpdateAsync(request: Option<EmployeeDto>, now: Time) returns (r: Option<EmployeeDto>)
      requires Valid()
      modifies uow`employeeRepository, uow.dbContext
      ensures Valid()
      ensures uow.dbContext.nextKey == old(uow.dbContext.nextKey)
      ensures (request.None? || request.value.Id <= 0 || request.value.Id !in old(Table())) ==>
        r.None? && Table() == old(Table())
      ensures request.Some? && request.value.Id > 0 && request.value.Id in old(Table()) ==>
        var id := request.value.Id;
        && Table() == old(Table())[id := Revised(old(Table())[id], request.value, loggedInUser, now)]
        && r == Some(ToDto(Table()[id]))
    {
      r := None;
      if request.Some? && request.value.Id > 0 {
        var repo := uow.EmployeeRepository();
        var fromDb := repo.GetByIdAsync(request.value.Id);
        if fromDb.Some? && fromDb.value.Id > 0 {
          var e := fromDb.value;
          e := e.(FirstName := request.value.FirstName);
          e := e.(LastName := request.value.LastName);
          e := e.(MiddleName := request.value.MiddleName);
          e := e.(UpdatedBy := loggedInUser);
          e := e.(UpdatedOn := Some(now));
          var result := repo.UpdateAsync(e);
          match result {
            case Success(updated) =>
              r := Some(ToDto(updated));
            case Failure(_) =>
              assert false;
          }
        }
      }
    }

    /** False when no row has key `id`, with nothing written. Otherwise the
        row is soft-deleted by the logged-in user and the answer is true; the
        lookup does not filter soft-deleted rows, so deleting again is true too. */
    method DeleteAsync(id: int, now: Time) returns (deleted: bool)
      requires Valid()
      modifies uow`employeeRepository, uow.dbContext
      ensures Valid()
      ensures uow.dbContext.nextKey == old(uow.dbContext.nextKey)
      ensures deleted == (id in old(Table()))
      ensures deleted ==> Table() == old(Table())[id := MarkDeleted(old(Table())[id], loggedInUser, now)]
      ensures !deleted ==> Table() == old(Table())
    {
      var repo := uow.EmployeeRepository();
      var fromDb := repo.GetByIdAsync(id);
      if fromDb.Some? {
        var outcome := repo.DeleteAsync(id, loggedInUser, now);
        if outcome.Fail? {
          assert false;
        }
        deleted := true;
      } else {
        deleted := false;
      }
    }

    /** The DTO of the row under `id`, or null; no active filter applies. */
    method GetByIdAsync(id: int) returns (r: Option<EmployeeDto>)
      requires Valid()
      modifies uow`employeeRepository
      ensures Valid()
      ensures r.Some? <==> id in Table()
      ensures r.Some? ==> r.value == ToDto(Table()[id])
    {
      var repo := uow.EmployeeRepository();
      var fromDb := repo.GetByIdAsync(id);
      r := ToDtoOrNull(fromDb);
    }

    /** The DTOs of exactly the rows whose IsDeleted is null or false. */
    method ListAsync() returns (employees: seq<EmployeeDto>)
      requires Valid()
      modifies uow`employeeRepository
      ensures Valid()
      ensures ListsActiveDtos(employees, Table())
    {
      var repo := uow.EmployeeRepository();
      var result := repo.GetAllAsync(Some(IsActive));
      employees := ToDtos(result);
      ghost var t := Table();
      forall k | k in t && IsActive(t[k])
        ensures ToDto(t[k]) in employees
      {
        assert Keep(Some(IsActive), t[k]);
        var i :| 0 <= i < |result| && result[i] == t[k];
        assert employees[i] == ToDto(t[k]);
      }
    }

    /** The (Id, LastName) entries of the active rows; empty when none qualifies. */
    method ShortList() returns (shortList: seq<ShortListDto>)
      requires Valid()
      modifies uow`employeeRepository
      ensures Valid()
      ensures ListsActiveTitles(shortList, Table())
      ensures shortList == [] <==> forall k :: k in Table() ==> !IsActive(Table()[k])
    {
      shortList := [];
      var repo := uow.EmployeeRepository();
      var result := repo.GetAllAsync(Some(IsActive));
      if |result| > 0 {
        shortList := ToShortLists(result);
      }
      ghost var t := Table();
      forall k | k in t && IsActive(t[k])
        ensures ToShortList(t[k]) in shortList
      {
        assert Keep(Some(IsActive), t[k]);
        var i :| 0 <= i < |result| && result[i] == t[k];
        assert shortList[i] == ToShortList(t[k]);
      }
      if shortList != [] {
        assert IsActive(t[shortList[0].Id]);
      }
    }
  }

  /** Add followed by GetById with the returned key gives back what Add
      returned, names included, for every request. */
  method AddThenGet(service: EmployeeService, d: EmployeeDto, now: Time)
    returns (added: Option<EmployeeDto>, fetched: Option<EmployeeDto>)
    requires service.Valid()
    modifies service.uow`employeeRepository, service.uow.dbContext
    ensures service.Valid()
    ensures added.Some? && fetched == added
    ensures fetched.value.FirstName == d.FirstName && fetched.value.LastName == d.LastName
    ensures fetched.value.MiddleName == d.MiddleName
  {
    added := service.AddAsync(Some(d), now);
    fetched := service.GetByIdAsync(added.value.Id);
  }

  /** One request sequence on a fresh store: add Ann Lee, rename her Anne,
      delete her twice and an unknown id once, then list and fetch. */
  method SoftDeleteScenario(user: int, t0: Time, t1: Time, t2: Time, t3: Time)
    returns (added: Option<EmployeeDto>, first: bool, second: bool, unknown: bool,
             listed: seq<EmployeeDto>, fetched: Option<EmployeeDto>, stored: Option<Employee>)
    ensures added == Some(EmployeeDto(1, Some("Ann"), Some("Lee"), None))
    ensures first && second && !unknown
    ensures listed == []
    ensures fetched == Some(EmployeeDto(1, Some("Anne"), Some("Lee"), None))
    ensures stored.Some? && stored.value.IsDeleted == Some(true)
    ensures stored.value.DeletedBy == user && stored.value.DeletedOn == Some(t3)
    ensures stored.value.CreatedOn == Some(t0) && stored.value.UpdatedOn == Some(t1)
  {
    var ctx := new EmsContext();
    var connection := new DbConnection();
    var uow := new UnitOfWork(ctx, connection);
    var service := new EmployeeService(uow, user);
    added := service.AddAsync(Some(EmployeeDto(0, Some("Ann"), Some("Lee"), None)), t0);
    var updated := service.UpdateAsync(Some(EmployeeDto(1, Some("Anne"), Some("Lee"), None)), t1);
    first := service.DeleteAsync(1, t2);
    second := service.DeleteAsync(1, t3);
    unknown := service.DeleteAsync(2, t3);
    listed := service.ListAsync();
    NoActiveRowListsNothing(listed, ctx.Employees);
    fetched := service.GetByIdAsync(1);
    var repo := uow.EmployeeRepository();
    stored := repo.GetByIdAsync(1);
  }
}
