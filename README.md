# Employee table model (EMS repository-pattern backend)

This project models the data core of a small employee-management web
service. The service has three layers over one table of employees:

- a generic repository (`BaseRepository<T>`) with get-by-key, filtered
  get-all, add, add-range, whole-row update, soft delete and hard delete;
- a per-request unit of work that creates its employee repository the first
  time it is asked for one, and keeps a `disposed` flag;
- the employee service, which holds the business rules. It ignores null
  input, stamps the audit fields, rewrites only the name fields on update,
  soft-deletes, and lists only the rows that are not soft-deleted.

The transfer-object validation (`[Required]`, `[StringLength]`) is modelled
as a predicate. The AutoMapper maps are modelled as pure functions.

Layout, one module per source component:

| file | module | models |
|---|---|---|
| `wrappers.dfy` | `Wrappers` | `Option` (null), `Result` / `Outcome` (a write that fails) |
| `entities.dfy` | `Entities` | the `Employee` row with its audit fields; the active-row filter |
| `dtos.dfy` | `Dtos` | `EmployeeDto`, `ShortListDto`, and the validation annotations |
| `mapping.dfy` | `Mapping` | the AutoMapper profile |
| `context.dfy` | `Context` | the ORM context as the owner of the table and of the key generator |
| `repository.dfy` | `Repositories` | `BaseRepository<Employee>` as a class over the context's table |
| `unit_of_work.dfy` | `UnitsOfWork` | `UnitOfWork`: the lazy repository getter and disposal |
| `service.dfy` | `Services` | `EmployeeService` and one end-to-end request sequence |

Modelling choices:

- The ORM's `Set<Employee>` is the field `EmsContext.Employees: map<int, Employee>`,
  keyed by `Id`. The store's identity column is the field `EmsContext.nextKey`.
  It starts at 1, and each insert takes it and increments it. `EmsContext.Valid()`
  says that every key is positive and below `nextKey`, and that every row has
  its key as its `Id`.
- `EmsContext` stands for the database itself, not for one ORM session. Its
  constructor gives a freshly created, empty store whose identity seed is 1.
  Its rows persist across every `UnitOfWork` built over it, so several units
  of work over one `EmsContext` stand for successive requests against the
  same database.
- `BaseRepository<T>` is modelled at its one instantiation, `T = Employee`
  (`EmployeeRepository` adds nothing to it). The reflection-based field
  setting in the soft delete is modelled as a typed record update (`MarkDeleted`).
- Nullable values (`string`, `bool?`, timestamps) are `Option`s. `None` is null.
  The audit base class is not part of this model. Following how the fields
  are used, `CreatedBy`, `UpdatedBy` and `DeletedBy` are `int`s that default
  to 0. `IsDeleted` is a nullable bool. The timestamps are opaque `Time`
  values that are `None` until stamped.
- External inputs are parameters. `DateTime.Now` is a `now: Time` argument.
  The logged-in user's id, which the service reads once when it is built,
  is the constructor argument `loggedInUser`.
- A storage exception is an error result (`StoreError`). An update or removal
  that hits no row fails with `RowNotFound` and writes nothing. `Update(null)`
  fails with `NullEntity`. Where the service has already checked that the row
  exists, that branch is proved unreachable.
- Every call is an immediate, sequential write, committed before it returns.
- `string.Length` counts UTF-16 code units. `Utf16Length` counts two for a
  character outside the basic plane.

Three behaviours of the code differ from what one might expect. The model
follows the code:

- A soft delete on an absent id is not a silent no-op. In the code, `Update(result)` (`EMS.Data/Repositories/BaseRepository.cs:99`)
  sits outside the null guard, so an absent id passes null to `Update`, and
  that call throws. `Repositories.BaseRepository.DeleteAsync` returns
  `Fail(NullEntity)` and leaves the table unchanged.
- A second service `Delete` on the same id does not return false. The
  service looks the row up with `FindAsync`, which does not filter
  soft-deleted rows. So a repeated delete returns true again and re-stamps
  `DeletedBy`/`DeletedOn` (`Services.EmployeeService.DeleteAsync`,
  `Repositories.MarkDeletedTwice`, `Services.SoftDeleteScenario`).
- The `StringLength` messages say "cannot exceed 20 characters". The limits
  the annotations enforce are 100 (FirstName) and 200 (LastName). The model
  uses the limits (`Dtos.FirstNameLimitIsOneHundred`).

## Model

| member | source | states |
|---|---|---|
| `Entities.ActiveIffNotMarked` | EMS.Service/Employees/EmployeeService.cs:131 | a row passes the `IsDeleted == null \|\| !IsDeleted` filter exactly when `IsDeleted` is not true |
| `Dtos.Utf16Length` | EMS.Model/Dtos/EmployeeDto.cs:8 | the UTF-16 length lies between the character count and twice it, and is zero only for the empty string |
| `Dtos.Utf16LengthBasicPlane` | EMS.Model/Dtos/EmployeeDto.cs:12 | for text made only of basic-plane characters, the length counted by `StringLength` is the character count |
| `Dtos.FirstNameRequired` | EMS.Model/Dtos/EmployeeDto.cs:7-9 | a null, empty or whitespace-only FirstName makes the DTO invalid |
| `Dtos.LastNameRequired` | EMS.Model/Dtos/EmployeeDto.cs:11-13 | a null, empty or whitespace-only LastName makes the DTO invalid |
| `Dtos.LengthLimitsReject` | EMS.Model/Dtos/EmployeeDto.cs:8-12 | a FirstName longer than 100 code units, or a LastName longer than 200, makes the DTO invalid |
| `Dtos.MiddleNameIrrelevant` | EMS.Model/Dtos/EmployeeDto.cs:15 | replacing MiddleName with any value, null included, leaves validity unchanged |
| `Dtos.ValidNamesBounded` | EMS.Model/Dtos/EmployeeDto.cs:7-13 | a valid DTO has a present, non-empty FirstName of at most 100 characters and LastName of at most 200 |
| `Dtos.FirstNameLimitIsOneHundred` | EMS.Model/Dtos/EmployeeDto.cs:8 | FirstNames of 21 and 100 letters are accepted and one of 101 is rejected, so the limit is 100, not the message's 20 |
| `Dtos.LastNameLimitIsTwoHundred` | EMS.Model/Dtos/EmployeeDto.cs:12 | a LastName of 200 letters is accepted and one of 201 is rejected |
| `Mapping.ToDtoDependsOnSharedOnly` | EMS.Utlis/AutoMapper/MappingProfile.cs:12 | Employee to EmployeeDto copies Id and the three names, and two entities map to the same DTO exactly when they agree on those four members |
| `Mapping.FromDtoCopiesShared` | EMS.Utlis/AutoMapper/MappingProfile.cs:12 | the reverse map copies the same four members, and the audit members get no value from the DTO |
| `Mapping.DtoRoundTrip` | EMS.Utlis/AutoMapper/MappingProfile.cs:12 | DTO to Employee to DTO gives back the DTO |
| `Mapping.EntityRoundTrip` | EMS.Utlis/AutoMapper/MappingProfile.cs:12 | Employee to DTO to Employee gives back the entity exactly when its audit members held their defaults |
| `Mapping.ShortListTitleIsLastName` | EMS.Utlis/AutoMapper/MappingProfile.cs:13-15 | the short-list entry has `Id := src.Id` and `Title := src.LastName`, and first and middle names do not affect it |
| `Mapping.ToDtoOrNullPreservesPresence` | EMS.Service/Employees/EmployeeService.cs:120-122 | mapping a null entity gives null, and a present entity gives a DTO with its shared members |
| `Context.EmsContext.constructor` | EMS.Data/Context/EMSContext.cs:15 | a freshly created store owns an empty, well-keyed Employees table with the identity generator at 1 |
| `Repositories.MarkDeletedStamps` | EMS.Data/Repositories/BaseRepository.cs:89-96 | the soft delete sets IsDeleted true, DeletedBy to the actor and DeletedOn to the time, makes the row inactive and changes no other member |
| `Repositories.MarkDeletedTwice` | EMS.Data/Repositories/BaseRepository.cs:85-96 | soft-deleting an already deleted row re-stamps it with the later actor and time |
| `Repositories.InsertedKeys` | EMS.Data/Repositories/BaseRepository.cs:58-63 | inserting a batch adds exactly the consecutive keys from the next key on, and keeps all old keys |
| `Repositories.InsertedAt` | EMS.Data/Repositories/BaseRepository.cs:58-63 | the j-th entity of a batch is stored under the j-th new key, with that key as its Id |
| `Repositories.InsertedKeeps` | EMS.Data/Repositories/BaseRepository.cs:58-63 | a batch insert leaves every existing row unchanged |
| `Repositories.InsertedWellKeyed` | EMS.Data/Repositories/BaseRepository.cs:58-63 | a batch insert at the next free key keeps every key positive, below the new next key, and equal to its row's Id |
| `Repositories.BaseRepository.constructor` | EMS.Data/Repositories/BaseRepository.cs:14-17 | the repository works on the context it is given |
| `Repositories.BaseRepository.GetByIdAsync` | EMS.Data/Repositories/BaseRepository.cs:24-27 | returns the stored row under `id`, soft-deleted or not, or null when there is none, and changes nothing |
| `Repositories.BaseRepository.GetAllAsync` | EMS.Data/Repositories/BaseRepository.cs:34-39 | returns every row that passes the filter, each exactly once, and only such rows; a null filter returns every row |
| `Repositories.BaseRepository.AddAsync` | EMS.Data/Repositories/BaseRepository.cs:46-51 | adds exactly one row under a fresh key, leaves existing rows unchanged and returns the added entity with that key |
| `Repositories.BaseRepository.AddRangeAsync` | EMS.Data/Repositories/BaseRepository.cs:58-63 | adds every entity of the batch at consecutive fresh keys, keeps the table well keyed, and returns true |
| `Repositories.BaseRepository.UpdateAsync` | EMS.Data/Repositories/BaseRepository.cs:70-75 | replaces the row under the entity's key with the entity and returns it; no other row and not the key generator change; an unknown key fails and writes nothing |
| `Repositories.BaseRepository.DeleteAsync` | EMS.Data/Repositories/BaseRepository.cs:82-101 | on a present id the row stays but is marked deleted by the user at `now`, and nothing else changes; on an absent id the null entity reaches `Update` and the call fails without writing |
| `Repositories.BaseRepository.HardDeleteRange` | EMS.Data/Repositories/BaseRepository.cs:107-111 | removes exactly the rows under the given entities' keys and leaves all others; if one of them is not stored the call fails and nothing is removed |
| `Repositories.BaseRepository.HardDelete` | EMS.Data/Repositories/BaseRepository.cs:117-121 | removes exactly the row under the entity's key and leaves all others; fails without writing when there is none |
| `UnitsOfWork.UnitOfWork.constructor` | EMS.Data/Repositories/UnitOfWork/UnitOfWork.cs:11-15 | a new unit of work holds its context and connection, has no repository yet and is not disposed |
| `UnitsOfWork.UnitOfWork.EmployeeRepository` | EMS.Data/Repositories/UnitOfWork/UnitOfWork.cs:19-25 | the first read creates a fresh repository over the unit's own context; every later read returns that same instance |
| `UnitsOfWork.UnitOfWork.DisposeCore` | EMS.Data/Repositories/UnitOfWork/UnitOfWork.cs:29-38 | afterwards `disposed` is true; the context, connection and cached repository are untouched; on an already disposed unit nothing changes |
| `UnitsOfWork.UnitOfWork.Dispose` | EMS.Data/Repositories/UnitOfWork/UnitOfWork.cs:40-44 | afterwards `disposed` is true and nothing else changes; a second call leaves all state as the first left it |
| `Services.NewRowStamps` | EMS.Service/Employees/EmployeeService.cs:35-38 | the row Add stores is active with IsDeleted false, carries CreatedBy and CreatedOn from the caller, has the request's names, and has no update or deletion recorded |
| `Services.RevisedKeepsAudit` | EMS.Service/Employees/EmployeeService.cs:67-71 | an update sets the three names from the request and UpdatedBy/UpdatedOn, and keeps every other member, so a soft-deleted row stays soft-deleted |
| `Services.SoftDeletedLeavesListing` | EMS.Service/Employees/EmployeeService.cs:131-133 | after a soft delete the row is still stored but no listing of active rows contains it |
| `Services.NoActiveRowListsNothing` | EMS.Service/Employees/EmployeeService.cs:131-134 | when every row is soft-deleted, the list of active DTOs is empty |
| `Services.EmployeeService.constructor` | EMS.Service/Employees/EmployeeService.cs:17-22 | the service works through the given unit of work as the given logged-in user |
| `Services.EmployeeService.AddAsync` | EMS.Service/Employees/EmployeeService.cs:29-49 | a null request returns null and changes nothing; otherwise exactly one row is added under a fresh key, stamped not deleted and created by the user at `now`, and the returned DTO has that key and the request's names |
| `Services.EmployeeService.UpdateAsync` | EMS.Service/Employees/EmployeeService.cs:56-85 | a null request, an Id of 0 or less, or an unknown Id returns null and writes nothing; otherwise the row, soft-deleted or not, gets the request's three names and the update stamp, no other row or member changes, and its DTO is returned |
| `Services.EmployeeService.DeleteAsync` | EMS.Service/Employees/EmployeeService.cs:92-111 | returns true exactly when a row has key `id`, soft-deleted rows included; then the row is marked deleted by the user at `now`; otherwise nothing is written |
| `Services.EmployeeService.GetByIdAsync` | EMS.Service/Employees/EmployeeService.cs:118-123 | returns the DTO of the row under `id` with no active filter, or null when there is none |
| `Services.EmployeeService.ListAsync` | EMS.Service/Employees/EmployeeService.cs:129-135 | returns the DTOs of exactly the rows whose IsDeleted is null or false, each once |
| `Services.EmployeeService.ShortList` | EMS.Service/Employees/EmployeeService.cs:141-154 | returns the (Id, LastName) entries of exactly the active rows, each once, and is empty exactly when no row is active |
| `Services.AddThenGet` | EMS.Service/Employees/EmployeeService.cs:29-49 | for every request and every valid service state, fetching by the key that Add returned gives back exactly the DTO Add returned, with the request's three names |
| `Services.SoftDeleteScenario` | EMS.Service/Employees/EmployeeService.cs:29-154 | on an empty store: add gets key 1; two deletes of key 1 both return true and an unknown key returns false; the list is then empty while GetById still returns the renamed row, which is stored marked deleted with the last delete's stamp |

## Left out

- Async/await and the ORM's change tracking: every call is an immediate, sequential write. Tracking conflicts, such as updating an entity while another instance with the same key is tracked, are not modelled.
- `Repositories.BaseRepository.UpdateAsync`: the ORM's behaviour of inserting an entity whose generated key is unset (`Id == 0`) is not modelled. Every key that is not stored, 0 included, is the no-row failure.
- `Repositories.BaseRepository.AddAsync`: the store always assigns the next key. An explicit non-zero `Id` in the entity is replaced rather than rejected, although an identity column would refuse it. The key policy itself (identity seed, gaps) is reduced to a counter starting at 1.
- `Repositories.BaseRepository.AddRangeAsync`: entities are values, not object references. A list that holds the same object twice becomes two rows at consecutive keys, where the ORM tracks that object once and inserts one row. As in `AddAsync`, an explicit non-zero `Id` is replaced by a fresh key rather than refused by the identity column.
- `Services.EmployeeService.AddAsync`: the mapped entity carries the client's `Id` from the request. The model replaces it with the next key, as `Repositories.BaseRepository.AddAsync` does, instead of failing on an explicit non-zero key the way an identity column would.
- `Repositories.BaseRepository.GetAllAsync`: the query's order is left open. The filter is an in-memory predicate rather than a translated query expression. The loop over the table's keys stands for the materialisation of the query into a list.
- Concurrent requests and last-writer-wins races across units of work.
- `GC.SuppressFinalize` in `Dispose`: finalisation is not modelled.
- Startup, DI wiring, JWT issuance, CORS, Swagger and logging, and the HTTP controller. The controller's envelopes and its copying of the route id into the update request are not modelled. `EmployeeRepository.cs` and the interface files declare no behaviour of their own.
- `try { … } catch { throw; }` blocks, which change nothing. Other exceptions the storage might raise (connection failures) are not modelled; only the failures named above are.
- `EMS.Model/DbModels/Employees/Employee.cs`'s audit base class is not part of this model; its member types are taken from their use in the service and repository.
- Clock values and the session lookup of the user id are external inputs, passed in as parameters.
- `BaseDtoModel` is not part of this model; it is taken to contribute only `Id`.
