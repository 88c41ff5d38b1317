/** The generic repository (EMS.Data.Repositories.BaseRepository<T>) at its
    one instantiation, T = Employee. Every write goes straight to the table. */
module Repositories {
  import opened Wrappers
  import opened Entities
  import opened Context

  /** What the store raises instead of completing a write. */
  datatype StoreError =
    | NullEntity          // `Update(null)`: the entity argument was null
    | RowNotFound(id: int) // an update or removal affected no row

  /** GetAllAsync's optional filter: a null filter keeps every row. */
  predicate Keep(filter: Option<Employee -> bool>, e: Employee)
  {
    filter.None? || filter.value(e)
  }

  /** `rows` lists exactly the rows of `t` that pass `filter`, each once. */
  ghost predicate Enumerates(rows: seq<Employee>, t: map<int, Employee>, filter: Option<Employee -> bool>)
  {
    && (forall i :: 0 <= i < |rows| ==> rows[i].Id in t && t[rows[i].Id] == rows[i] && Keep(filter, rows[i]))
    && (forall k :: k in t && Keep(filter, t[k]) ==> t[k] in rows)
    && (forall i, j :: 0 <= i < j < |rows| ==> rows[i].Id != rows[j].Id)
  }

  /** The three members the soft delete sets. */
  function MarkDeleted(e: Employee, user: int, now: Time): (d: Employee)
  {
    e.(IsDeleted := Some(true), DeletedOn := Some(now), DeletedBy := user)
  }

  /** The table after inserting `es` in order, the first receiving key `key`. */
  function Inserted(t: map<int, Employee>, es: seq<Employee>, key: int): (u: map<int, Employee>)
    decreases |es|
  {
    if es == [] then t else Inserted(t[key := es[0].(Id := key)], es[1..], key + 1)
  }

  /** The keys of a list of entities. */
  function KeysOf(es: seq<Employee>): (keys: set<int>)
  {
    set i | 0 <= i < |es| :: es[i].Id
  }

  /** A soft-deleted row is marked, stamped with the actor and the time, no
      longer active, and otherwise unchanged. */
  lemma MarkDeletedStamps(e: Employee, user: int, now: Time)
    ensures MarkDeleted(e, user, now).IsDeleted == Some(true) && !IsActive(MarkDeleted(e, user, now))
    ensures MarkDeleted(e, user, now).DeletedBy == user && MarkDeleted(e, user, now).DeletedOn == Some(now)
    ensures MarkDeleted(e, user, now).(IsDeleted := e.IsDeleted, DeletedOn := e.DeletedOn, DeletedBy := e.DeletedBy) == e
  {
  }

  /** Soft-deleting an already deleted row re-stamps it with the later actor and time. */
  lemma MarkDeletedTwice(e: Employee, u1: int, n1: Time, u2: int, n2: Time)
    ensures MarkDeleted(MarkDeleted(e, u1, n1), u2, n2) == MarkDeleted(e, u2, n2)
  {
  }

  /** The inserted table holds the old keys and the `|es|` keys from `key` on. */
  lemma {:induction false} InsertedKeys(t: map<int, Employee>, es: seq<Employee>, key: int)
    ensures forall k :: k in Inserted(t, es, key) <==> k in t || key <= k < key + |es|
    decreases |es|
  {
    if es != [] {
      InsertedKeys(t[key := es[0].(Id := key)], es[1..], key + 1);
    }
  }

  /** The j-th entity is stored under key `key + j`, with that key as its Id. */
  lemma {:induction false} InsertedAt(t: map<int, Employee>, es: seq<Employee>, key: int, j: int)
    requires 0 <= j < |es|
    ensures key + j in Inserted(t, es, key)
    ensures Inserted(t, es, key)[key + j] == es[j].(Id := key + j)
    decreases |es|
  {
    InsertedKeys(t, es, key);
    if j == 0 {
      InsertedKeeps(t[key := es[0].(Id := key)], es[1..], key + 1, key);
    } else {
      InsertedAt(t[key := es[0].(Id := key)], es[1..], key + 1, j - 1);
    }
  }

  /** Rows under keys below `key` are left as they were. */
  lemma {:induction false} InsertedKeeps(t: map<int, Employee>, es: seq<Employee>, key: int, k: int)
    requires k in t && k < key
    ensures k in Inserted(t, es, key) && Inserted(t, es, key)[k] == t[k]
    decreases |es|
  {
    if es != [] {
      InsertedKeeps(t[key := es[0].(Id := key)], es[1..], key + 1, k);
    }
  }

  /** Inserting at the next free key keeps the table well keyed. */
  lemma InsertedWellKeyed(t: map<int, Employee>, es: seq<Employee>, key: int)
    requires WellKeyed(t, key)
    ensures WellKeyed(Inserted(t, es, key), key + |es|)
  {
    InsertedKeys(t, es, key);
    var u := Inserted(t, es, key);
    forall k | k in u
      ensures 0 < k < key + |es| && u[k].Id == k
    {
      if k in t {
        InsertedKeeps(t, es, key, k);
      } else {
        InsertedAt(t, es, key, k - key);
      }
    }
  }

  /** Proof helper for GetAllAsync: a non-empty set of keys has a member to pick. */
  lemma NonEmptyHasKey(s: set<int>)
    requires s != {}
    ensures exists k :: k in s
  {
    if forall k :: k !in s {
      assert false;
    }
  }

  class BaseRepository {
    const ctx: EmsContext

    constructor (dbContext: EmsContext)
      ensures ctx == dbContext
    {
      ctx := dbContext;
    }

    /** FindAsync(id): the row under key `id`, or null. Soft-deleted rows are found too. */
    method GetByIdAsync(id: int) returns (r: Option<Employee>)
      ensures r.Some? <==> id in ctx.Employees
      ensures r.Some? ==> r.value == ctx.Employees[id]
    {
      if id in ctx.Employees {
        r := Some(ctx.Employees[id]);
      } else {
        r := None;
      }
    }

    /** Materialises the (optionally filtered) query into a list; the order
        is the store's and is left open. */
    method GetAllAsync(filter: Option<Employee -> bool>) returns (rows: seq<Employee>)
      requires ctx.Valid()
      ensures Enumerates(rows, ctx.Employees, filter)
    {
      var t := ctx.Employees;
      var pending := t.Keys;
      rows := [];
      while pending != {}
        invariant pending <= t.Keys
        invariant forall i :: 0 <= i < |rows| ==>
          rows[i].Id in t && rows[i].Id !in pending && t[rows[i].Id] == rows[i] && Keep(filter, rows[i])
        invariant forall k :: k in t && k !in pending && Keep(filter, t[k]) ==> t[k] in rows
        invariant forall i, j :: 0 <= i < j < |rows| ==> rows[i].Id != rows[j].Id
        decreases pending
      {
        NonEmptyHasKey(pending);
        var k :| k in pending;
        if Keep(filter, t[k]) {
          rows := rows + [t[k]];
        }
        pending := pending - {k};
      }
    }

    /** Inserts one row; the store assigns the next key, which the returned
        entity carries. */
    method AddAsync(entity: Employee) returns (added: Employee)
      requires ctx.Valid()
      modifies ctx
      ensures ctx.Valid()
      ensures added == entity.(Id := old(ctx.nextKey)) && added.Id !in old(ctx.Employees)
      ensures ctx.Employees == old(ctx.Employees)[added.Id := added]
      ensures ctx.nextKey == old(ctx.nextKey) + 1
    {
      added := entity.(Id := ctx.nextKey);
      ctx.Employees := ctx.Employees[added.Id := added];
      ctx.nextKey := ctx.nextKey + 1;
    }

    /** Inserts every entity, in order, at consecutive fresh keys; always true. */
    method AddRangeAsync(entities: seq<Employee>) returns (ok: bool)
      requires ctx.Valid()
      modifies ctx
      ensures ctx.Valid() && ok
      ensures ctx.Employees == Inserted(old(ctx.Employees), entities, old(ctx.nextKey))
      ensures ctx.nextKey == old(ctx.nextKey) + |entities|
    {
      InsertedWellKeyed(ctx.Employees, entities, ctx.nextKey);
      ctx.Employees := Inserted(ctx.Employees, entities, ctx.nextKey);
      ctx.nextKey := ctx.nextKey + |entities|;
      ok := true;
    }

    /** Whole-row update of the row under `entity.Id`; an update that hits no
        row fails and writes nothing. */
    method UpdateAsync(entity: Employee) returns (r: Result<Employee, StoreError>)
      requires ctx.Valid()
      modifies ctx`Employees
      ensures ctx.Valid()
      ensures entity.Id in old(ctx.Employees) ==>
        r == Success(entity) && ctx.Employees == old(ctx.Employees)[entity.Id := entity]
      ensures entity.Id !in old(ctx.Employees) ==>
        r == Failure(RowNotFound(entity.Id)) && ctx.Employees == old(ctx.Employees)
    {
      if entity.Id in ctx.Employees {
        ctx.Employees := ctx.Employees[entity.Id := entity];
        r := Success(entity);
      } else {
        r := Failure(RowNotFound(entity.Id));
      }
    }

    /** Soft delete: the row stays, marked deleted by `loggedInUser` at `now`.
        With no row under `id`, the null entity reaches `Update` and the call fails. */
    method DeleteAsync(id: int, loggedInUser: int, now: Time) returns (o: Outcome<StoreError>)
      requires ctx.Valid()
      modifies ctx`Employees
      ensures ctx.Valid()
      ensures id in old(ctx.Employees) ==>
        o == Pass && ctx.Employees == old(ctx.Employees)[id := MarkDeleted(old(ctx.Employees)[id], loggedInUser, now)]
      ensures id !in old(ctx.Employees) ==>
        o == Fail(NullEntity) && ctx.Employees == old(ctx.Employees)
    {
      var result := if id in ctx.Employees then Some(ctx.Employees[id]) else None;
      if result.Some? {
        var e := result.value;
        e := e.(IsDeleted := Some(true));
        e := e.(DeletedOn := Some(now));
        e := e.(DeletedBy := loggedInUser);
        result := Some(e);
      }
      if result.None? {
        o := Fail(NullEntity);
      } else {
        ctx.Employees := ctx.Employees[id := result.value];
        o := Pass;
      }
    }

    /** Physically removes every given row; if one of them is not stored, the
        removal affects too few rows and nothing is removed. */
    method HardDeleteRange(entities: seq<Employee>) returns (o: Outcome<StoreError>)
      requires ctx.Valid()
      modifies ctx`Employees
      ensures ctx.Valid()
      ensures KeysOf(entities) <= old(ctx.Employees).Keys ==>
        o == Pass && ctx.Employees == old(ctx.Employees) - KeysOf(entities)
      ensures !(KeysOf(entities) <= old(ctx.Employees).Keys) ==>
        o.Fail? && o.error.RowNotFound? && o.error.id in KeysOf(entities)
        && o.error.id !in old(ctx.Employees) && ctx.Employees == old(ctx.Employees)
    {
      var keys := KeysOf(entities);
      if keys <= ctx.Employees.Keys {
        ctx.Employees := ctx.Employees - keys;
        o := Pass;
      } else {
        var missing :| missing in keys && missing !in ctx.Employees;
        o := Fail(RowNotFound(missing));
      }
    }

    /** Physically removes the row under `entity.Id`; fails if there is none. */
    method HardDelete(entity: Employee) returns (o: Outcome<StoreError>)
      requires ctx.Valid()
      modifies ctx`Employees
      ensures ctx.Valid()
      ensures entity.Id in old(ctx.Employees) ==>
        o == Pass && ctx.Employees == old(ctx.Employees) - {entity.Id}
      ensures entity.Id !in old(ctx.Employees) ==>
        o == Fail(RowNotFound(entity.Id)) && ctx.Employees == old(ctx.Employees)
    {
      if entity.Id in ctx.Employees {
        ctx.Employees := ctx.Employees - {entity.Id};
        o := Pass;
      } else {
        o := Fail(RowNotFound(entity.Id));
      }
    }
  }
}
