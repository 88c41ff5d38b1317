/** The per-request unit of work (EMS.Data.Repositories.UnitOfWork): it owns
    the context, creates its employee repository on first use and keeps
    only a `disposed` flag for disposal. */
module UnitsOfWork {
  import opened Context
  import opened Repositories

  class UnitOfWork {
    const dbContext: EmsContext
    const dbConnection: DbConnection
    var employeeRepository: BaseRepository?
    var disposed: bool

    /** The cached repository, once created, works on this unit's own context. */
    ghost predicate Valid()
      reads this
    {
      employeeRepository != null ==> employeeRepository.ctx == dbContext
    }

    constructor (dbContext: EmsContext, dbConnection: DbConnection)
      ensures Valid()
      ensures this.dbContext == dbContext && this.dbConnection == dbConnection
      ensures employeeRepository == null && !disposed
    {
      this.dbContext := dbContext;
      this.dbConnection := dbConnection;
      employeeRepository := null;
      disposed := false;
    }

    /** The `EmployeeRepository` getter (`??=`): the first read creates a
        repository over `dbContext`, every later read returns that same one. */
    method EmployeeRepository() returns (repo: BaseRepository)
      requires Valid()
      modifies this`employeeRepository
      ensures Valid()
      ensures repo.ctx == dbContext && employeeRepository == repo
      ensures old(employeeRepository) == null ==> fresh(repo)
      ensures old(employeeRepository) != null ==> repo == old(employeeRepository)
    {
      if employeeRepository == null {
        employeeRepository := new BaseRepository(dbContext);
      }
      repo := employeeRepository;
    }

    /** `Dispose(bool disposing)`: the managed-resources branch is empty, so
        the only effect is to set `disposed`; the context, the connection and
        the cached repository are left as they are. */
    method DisposeCore(disposing: bool)
      modifies this`disposed
      ensures disposed
      ensures employeeRepository == old(employeeRepository)
      ensures old(disposed) ==> unchanged(this)
    {
      disposed := true;
    }

    /** `Dispose()`: disposes with `disposing = true`. A second call changes nothing. */
    method Dispose()
      modifies this`disposed
      ensures disposed
      ensures employeeRepository == old(employeeRepository)
      ensures old(disposed) ==> unchanged(this)
    {
      DisposeCore(true);
    }
  }
}
