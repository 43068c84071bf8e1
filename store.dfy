/**
 * The relational store as one object holding the two tables in insertion
 * order, with the auto-increment counters the database keeps. Inserts go
 * through the column validation of Schema.Build and the database constraints
 * (unique columns, the foreign key); a failure the database reports for any
 * other reason (lost connection, a constraint not declared in the models) is
 * supplied by the caller as a parameter.
 */
module Store {
  import opened Common
  import opened Schema

  /** The error an insert throws, as the controllers distinguish them. */
  datatype DbError =
    | ValidationError           // a notNull violation or a value outside an ENUM
    | UniqueConstraintError     // SequelizeUniqueConstraintError
    | ForeignKeyConstraintError // a collegeId with no college row
    | Unavailable               // any other database failure

  /**
   * How the `eventId` column gets a value the draft does not give:
   * `AsDeclared` is the column of backend/models/Registration.ts:87-91 (no
   * default, no auto-increment); `StoreSupplied` has the store fill in a
   * fresh number, as the comment at line 16 of that file expects.
   */
  datatype EventIdColumn = AsDeclared | StoreSupplied

  /**
   * An insert into `registrations` with this draft would pass every check;
   * `autoEventId` is the value the `eventId` column supplies, if any.
   */
  predicate Admits(colleges: seq<College>, rows: seq<Registration>, d: Draft, autoEventId: Option<int>) {
    var r := Build(d, 0, autoEventId);
    && r.Some?
    && !HasEmail(rows, r.value.email)
    && !HasEventId(rows, r.value.eventId)
    && (d.collegeId.Some? ==> CollegeExists(colleges, d.collegeId.value))
  }

  class Database {
    const eventIdColumn: EventIdColumn
    var colleges: seq<College>
    var registrations: seq<Registration>
    var nextCollegeId: nat
    var nextRegistrationId: nat
    var nextEventId: nat

    ghost predicate Valid()
      reads this
    {
      && WellFormed(colleges, registrations)
      && (forall i :: 0 <= i < |colleges| ==> colleges[i].id < nextCollegeId)
      && (forall i :: 0 <= i < |registrations| ==>
            registrations[i].id < nextRegistrationId && registrations[i].eventId < nextEventId)
    }

    /** The value the `eventId` column supplies to the next insert that gives none. */
    function AutoEventId(): Option<int>
      reads this
    {
      if eventIdColumn == StoreSupplied then Some(nextEventId) else None
    }

    /** An empty store, as `sequelize.sync()` leaves freshly created tables. */
    constructor (column: EventIdColumn)
      ensures Valid()
      ensures eventIdColumn == column
      ensures colleges == [] && registrations == []
    {
      eventIdColumn := column;
      colleges := [];
      registrations := [];
      nextCollegeId := 1;
      nextRegistrationId := 1;
      nextEventId := 1;
    }

    /**
     * `College.create({ name })`: appends one college under a fresh id, unless
     * the database reports `failure`.
     */
    method CreateCollege(name: string, failure: Option<DbError>) returns (created: Result<College, DbError>)
      requires Valid()
      modifies this
      ensures Valid()
      ensures registrations == old(registrations)
      ensures failure.Some? ==> created == Failure(failure.value) && colleges == old(colleges)
      ensures failure.None? ==>
        && created.Success?
        && created.value.name == name
        && !CollegeExists(old(colleges), created.value.id)
        && colleges == old(colleges) + [created.value]
    {
      if failure.Some? {
        return Failure(failure.value);
      }
      var c := College(nextCollegeId, name);
      AddCollegeKeepsWellFormed(colleges, registrations, c);
      colleges := colleges + [c];
      nextCollegeId := nextCollegeId + 1;
      created := Success(c);
    }

    /**
     * `Registration.create(draft)`, with `eventId` filled in as the column
     * says (see EventIdColumn): validation first (notNull, ENUM), then the unique and foreign-key
     * constraints; on success one row is appended under fresh `id` and
     * `eventId`. `unavailable` is a database failure unrelated to the data.
     */
    method CreateRegistration(d: Draft, unavailable: bool) returns (created: Result<Registration, DbError>)
      requires Valid()
      modifies this
      ensures Valid()
      ensures colleges == old(colleges)
      ensures created.Success? <==> !unavailable && Admits(old(colleges), old(registrations), d, old(AutoEventId()))
      ensures created.Failure? ==> registrations == old(registrations)
      ensures created.Success? ==>
        && created.value == Build(d, created.value.id, old(AutoEventId())).value
        && (forall i :: 0 <= i < |old(registrations)| ==> old(registrations)[i].id != created.value.id)
        && !HasEventId(old(registrations), created.value.eventId)
        && registrations == old(registrations) + [created.value]
    {
      if unavailable {
        return Failure(Unavailable);
      }
      var built := Build(d, nextRegistrationId, AutoEventId());
      if built.None? {
        return Failure(ValidationError);
      }
      var r := built.value;
      assert Build(d, 0, AutoEventId()).Some?;
      if HasEmail(registrations, r.email) || HasEventId(registrations, r.eventId) {
        return Failure(UniqueConstraintError);
      }
      if d.collegeId.Some? && !CollegeExists(colleges, d.collegeId.value) {
        return Failure(ForeignKeyConstraintError);
      }
      AppendKeepsWellFormed(colleges, registrations, r);
      registrations := registrations + [r];
      nextRegistrationId := nextRegistrationId + 1;
      nextEventId := Max(nextEventId, r.eventId + 1);
      created := Success(r);
    }
  }
}
