/** The user service: the operations the transport calls, each a short
    sequence of repository calls, with validation in front of every insert. */
module Service {
  import opened Errors
  import opened Model
  import opened Text
  import opened Repository
  import opened Validation

  /** The table after an operation, its result and the repository calls it
      made, in order. */
  datatype Outcome<+T> = Outcome(after: Table, result: Result<T>, calls: seq<Call>)

  /** `GetAllUsers`: the repository's listing or its error, unchanged. */
  function GetAllUsersOutcome(t: Table, faults: map<Call, string>): Outcome<seq<User>>
  {
    Outcome(t, ListUsersResult(t, faults), [ListUsers])
  }

  /** `GetUser`: the repository's row or its error, unchanged. */
  function GetUserOutcome(t: Table, faults: map<Call, string>, id: int): Outcome<User>
  {
    Outcome(t, GetUserResult(t, faults, id), [GetUser])
  }

  /** `SaveUser`: validate; an aborted validation or a non-empty list of
      violations stops before the insert, the latter as one bad-request error
      whose message is the violations joined with ","; otherwise insert. */
  function SaveOutcome(t: Table, faults: map<Call, string>, user: User, emailSyntax: string -> bool): Outcome<User>
  {
    match ValidateResult(t, faults, user, emailSyntax)
    case Aborted(cause) => Outcome(t, Err(cause), [ExistsByName])
    case Checked(violations) =>
      if |violations| > 0 then Outcome(t, Err(BadRequestError(Join(violations, ","))), [ExistsByName])
      else
        var step := CreateStep(t, faults, user);
        Outcome(step.after, step.result, [ExistsByName, CreateUser])
  }

  /** The fetched record with the candidate's four editable fields written
      over it; the fetched id stays. */
  function Overwrite(current: User, candidate: User): User
  {
    current.(firstName := candidate.firstName, lastName := candidate.lastName,
             email := candidate.email, age := candidate.age)
  }

  /** `UpdateUser`: fetch the row with the candidate's id, overwrite its four
      fields and persist it; nothing is validated. */
  function UpdateOutcome(t: Table, faults: map<Call, string>, user: User): Outcome<User>
  {
    match GetUserResult(t, faults, user.id)
    case Err(e) => Outcome(t, Err(e), [GetUser])
    case Ok(current) =>
      var step := UpdateStep(t, faults, Overwrite(current, user));
      Outcome(step.after, step.result, [GetUser, UpdateUser])
  }

  /** `DeleteUser`: fetch to confirm the row exists, then delete it. */
  function DeleteOutcome(t: Table, faults: map<Call, string>, id: int): Outcome<Option<User>>
  {
    match GetUserResult(t, faults, id)
    case Err(e) => Outcome(t, Err(e), [GetUser])
    case Ok(_) =>
      var step := DeleteStep(t, faults, id);
      Outcome(step.after, step.result, [GetUser, DeleteUser])
  }

  /** No two stored rows share both first and last name. */
  predicate NamesUnique(t: Table)
  {
    forall k1, k2 ::
      (k1 in t.rows && k2 in t.rows && t.rows[k1].firstName == t.rows[k2].firstName
       && t.rows[k1].lastName == t.rows[k2].lastName) ==> k1 == k2
  }

  /** Every stored row passes the declared field rules. */
  predicate RowsPassRules(t: Table, emailSyntax: string -> bool)
  {
    forall k :: k in t.rows ==> FieldErrors(UserRules, t.rows[k], emailSyntax) == []
  }

  /** A rejected save reports status 400 and tag "bad_request", its message
      holds every violation, the table is unchanged and the insert is never
      made. */
  lemma SaveRejectsInvalid(t: Table, faults: map<Call, string>, user: User, emailSyntax: string -> bool)
    requires ValidateResult(t, faults, user, emailSyntax).Checked?
    requires |ValidateResult(t, faults, user, emailSyntax).violations| > 0
    ensures var o := SaveOutcome(t, faults, user, emailSyntax);
            var v := ValidateResult(t, faults, user, emailSyntax).violations;
            && o.after == t
            && o.calls == [ExistsByName]
            && o.result.Err?
            && o.result.error.Status() == 400 && o.result.error.Error() == "bad_request"
            && (forall m :: m in v ==> Contains(o.result.error.Message(), m))
  {
    var v := ValidateResult(t, faults, user, emailSyntax).violations;
    forall m | m in v
      ensures Contains(Join(v, ","), m)
    {
      ReportedInJoin(v, m);
    }
  }

  /** A failed uniqueness query aborts the save with the repository's error,
      before any insert. */
  lemma SaveAbortsOnQueryFailure(t: Table, faults: map<Call, string>, user: User, emailSyntax: string -> bool)
    requires ExistsByName in faults
    ensures SaveOutcome(t, faults, user, emailSyntax) ==
              Outcome(t, Err(InternalServerError(faults[ExistsByName])), [ExistsByName])
  {
    ValidateResultIff(t, faults, user, emailSyntax);
  }

  /** A save goes through exactly when the record passes every rule and its
      name pair is new; the stored record is then the input with a non-zero
      id, every other row is kept, and `GetUser` of that id returns it. */
  lemma SaveStoresValid(t: Table, faults: map<Call, string>, user: User, emailSyntax: string -> bool)
    requires WellFormed(t) && ExistsByName !in faults && CreateUser !in faults && GetUser !in faults
    ensures SaveOutcome(t, faults, user, emailSyntax).result.Ok? <==>
              && FieldErrors(UserRules, user, emailSyntax) == []
              && !exists k :: k in t.rows && t.rows[k].firstName == user.firstName && t.rows[k].lastName == user.lastName
    ensures var o := SaveOutcome(t, faults, user, emailSyntax);
            o.result.Ok? ==>
              && WellFormed(o.after)
              && o.calls == [ExistsByName, CreateUser]
              && o.result.value == user.(id := o.result.value.id)
              && o.result.value.id != 0
              && (forall k :: k in t.rows && k != o.result.value.id ==> k in o.after.rows && o.after.rows[k] == t.rows[k])
              && GetUserOutcome(o.after, faults, o.result.value.id).result == o.result
  {
    ValidateResultIff(t, faults, user, emailSyntax);
    var duplicate := exists k :: k in t.rows && t.rows[k].firstName == user.firstName && t.rows[k].lastName == user.lastName;
    ViolationsEmptyIff(user, emailSyntax, duplicate);
    CreateThenGet(t, faults, user);
  }

  /** A save that changes the table inserted a record that passes every rule
      and whose name pair no stored row had. */
  lemma SaveChangeIsInsert(t: Table, faults: map<Call, string>, user: User, emailSyntax: string -> bool)
    requires SaveOutcome(t, faults, user, emailSyntax).after != t
    ensures FieldErrors(UserRules, user, emailSyntax) == []
    ensures forall k :: k in t.rows ==> !(t.rows[k].firstName == user.firstName && t.rows[k].lastName == user.lastName)
    ensures CreateUser !in faults
    ensures var saved := CreateStep(t, faults, user).result.value;
            && saved == user.(id := saved.id)
            && SaveOutcome(t, faults, user, emailSyntax).after.rows == t.rows[saved.id := saved]
  {
    var checked := ValidateResult(t, faults, user, emailSyntax);
    assert checked.Checked? && checked.violations == [];
    assert ExistsByName !in faults;
    ValidateResultIff(t, faults, user, emailSyntax);
    var duplicate := exists k :: k in t.rows && t.rows[k].firstName == user.firstName && t.rows[k].lastName == user.lastName;
    ViolationsEmptyIff(user, emailSyntax, duplicate);
    assert SaveOutcome(t, faults, user, emailSyntax).after == CreateStep(t, faults, user).after;
  }

  /** Saving keeps name pairs unique: an insert only happens when no stored
      row has the new record's names. */
  lemma SaveKeepsNamesUnique(t: Table, faults: map<Call, string>, user: User, emailSyntax: string -> bool)
    requires NamesUnique(t)
    ensures NamesUnique(SaveOutcome(t, faults, user, emailSyntax).after)
  {
    var after := SaveOutcome(t, faults, user, emailSyntax).after;
    if after != t {
      SaveChangeIsInsert(t, faults, user, emailSyntax);
      var saved := CreateStep(t, faults, user).result.value;
      forall k1, k2 | k1 in after.rows && k2 in after.rows
                      && after.rows[k1].firstName == after.rows[k2].firstName
                      && after.rows[k1].lastName == after.rows[k2].lastName
        ensures k1 == k2
      {
        if k1 != saved.id && k2 != saved.id {
          assert t.rows[k1] == after.rows[k1] && t.rows[k2] == after.rows[k2];
        }
      }
    }
  }

  /** The field rules read only the four editable fields. */
  lemma FieldErrorsIgnoreId(user: User, id: int, emailSyntax: string -> bool)
    ensures FieldErrors(UserRules, user.(id := id), emailSyntax) == FieldErrors(UserRules, user, emailSyntax)
  {
    FieldErrorsOfUser(user, emailSyntax);
    FieldErrorsOfUser(user.(id := id), emailSyntax);
  }

  /** Saving keeps every stored row within the declared rules. */
  lemma SaveKeepsRowsPassing(t: Table, faults: map<Call, string>, user: User, emailSyntax: string -> bool)
    requires RowsPassRules(t, emailSyntax)
    ensures RowsPassRules(SaveOutcome(t, faults, user, emailSyntax).after, emailSyntax)
  {
    var after := SaveOutcome(t, faults, user, emailSyntax).after;
    if after != t {
      SaveChangeIsInsert(t, faults, user, emailSyntax);
      var saved := CreateStep(t, faults, user).result.value;
      FieldErrorsIgnoreId(user, saved.id, emailSyntax);
    }
  }

  /** An update whose lookup fails returns that error unchanged, leaves the
      table alone and never calls `DbUpdateUser`; the same holds for a
      delete. */
  lemma LookupFailureStops(t: Table, faults: map<Call, string>, user: User, id: int)
    ensures GetUserResult(t, faults, user.id).Err? ==>
              UpdateOutcome(t, faults, user) == Outcome(t, Err(GetUserResult(t, faults, user.id).error), [GetUser])
    ensures GetUserResult(t, faults, id).Err? ==>
              DeleteOutcome(t, faults, id) == Outcome(t, Err(GetUserResult(t, faults, id).error), [GetUser])
  {
  }

  /** An update of a stored row keeps its id and writes the candidate's
      non-empty fields over it, touching no other row; the service returns
      the fetched record with all four candidate fields. */
  lemma UpdateOverwrites(t: Table, faults: map<Call, string>, user: User)
    requires WellFormed(t) && GetUser !in faults && UpdateUser !in faults && user.id in t.rows
    ensures var o := UpdateOutcome(t, faults, user);
            && WellFormed(o.after)
            && o.calls == [GetUser, UpdateUser]
            && o.result == Ok(user)
            && o.after.rows.Keys == t.rows.Keys
            && o.after.rows[user.id] == MergeNonZero(t.rows[user.id], user)
            && (forall k :: k in t.rows && k != user.id ==> o.after.rows[k] == t.rows[k])
  {
    GetUserFinds(t, faults, user.id);
    UpdateMerges(t, faults, Overwrite(t.rows[user.id], user));
  }

  /** Updating is not validated: an age the rules reject is stored as is, so
      `RowsPassRules` is not kept by updates as it is by saves. */
  lemma UpdateSkipsValidation(emailSyntax: string -> bool)
    ensures var t := Table(map[1 := User(1, "John", "Doe", "john.doe@yahoo.com", 34)], 2);
            var o := UpdateOutcome(t, map[], User(1, "John", "Doe", "john.doe@yahoo.com", 5));
            && o.after.rows[1].age == 5
            && AgeErrors(o.after.rows[1].age) == [FieldError(AgeField, ValidateAgeTag)]
  {
    var t := Table(map[1 := User(1, "John", "Doe", "john.doe@yahoo.com", 34)], 2);
    GetUserFinds(t, map[], 1);
  }

  /** An empty candidate field is not written, yet the service reports the
      candidate's value: after this update the row still has its email and
      age while the result shows them empty. */
  lemma UpdateReportsUnstoredFields()
    ensures var t := Table(map[1 := User(1, "John", "Doe", "john.doe@yahoo.com", 34)], 2);
            var o := UpdateOutcome(t, map[], User(1, "Jane", "Doe", "", 0));
            && o.result == Ok(User(1, "Jane", "Doe", "", 0))
            && o.after.rows[1] == User(1, "Jane", "Doe", "john.doe@yahoo.com", 34)
  {
    var t := Table(map[1 := User(1, "John", "Doe", "john.doe@yahoo.com", 34)], 2);
    GetUserFinds(t, map[], 1);
  }

  /** Deleting a stored row removes it and only it; a second delete of the
      same id then fails with "record not found" before `DbDeleteUser` is
      called. */
  lemma DeleteTwice(t: Table, faults: map<Call, string>, id: int)
    requires WellFormed(t) && GetUser !in faults && DeleteUser !in faults && id in t.rows
    ensures var o := DeleteOutcome(t, faults, id);
            && o.result == Ok(None)
            && o.calls == [GetUser, DeleteUser]
            && o.after.rows == t.rows - {id}
            && DeleteOutcome(o.after, faults, id) == Outcome(o.after, Err(NotFoundError(RecordNotFound)), [GetUser])
  {
    GetUserFinds(t, faults, id);
    DeleteThenGet(t, faults, id);
  }

  /** A delete of an id with no row is a not-found error and calls only
      `DbGetUser`. */
  lemma DeleteMissing(t: Table, faults: map<Call, string>, id: int)
    requires WellFormed(t) && GetUser !in faults && id !in t.rows
    ensures var o := DeleteOutcome(t, faults, id);
            && o.after == t
            && o.calls == [GetUser]
            && o.result.Err? && o.result.error.Status() == 404 && o.result.error.Error() == "not_found"
  {
    GetUserFinds(t, faults, id);
  }

  /** The five users the development database starts with. */
  const Seed := Table(map[
    1 := User(1, "John", "Doe", "john.doe@yahoo.com", 34),
    2 := User(2, "Zenia", "Brennan", "ultrices.vivamus.rhoncus@yahoo.ca", 34),
    3 := User(3, "Branden", "Spears", "non.lobortis@hotmail.net", 34),
    4 := User(4, "Alice", "Wallace", "at@protonmail.couk", 34),
    5 := User(5, "Ira", "Francis", "in.lobortis.tellus@protonmail.ca", 34)], 6)

  /** Saving another John Doe into the seeded table is rejected with a
      bad-request error naming the duplicate, and nothing is stored. */
  lemma SeedRejectsDuplicate(emailSyntax: string -> bool)
    ensures var o := SaveOutcome(Seed, map[], User(2, "John", "Doe", "john.doe_t@gmail.com", 19), emailSyntax);
            && o.after == Seed
            && o.result.Err? && o.result.error.Status() == 400
            && Contains(o.result.error.Message(), ErrorNameUnique)
  {
    var u := User(2, "John", "Doe", "john.doe_t@gmail.com", 19);
    assert Seed.rows[1].firstName == u.firstName && Seed.rows[1].lastName == u.lastName;
    DuplicateRejected(Seed, map[], u, emailSyntax, 1);
  }

  /** The service over one repository, whose validator queries the same
      repository. */
  class UserService {
    const repository: UserRepository
    const validation: UserValidationService

    ghost predicate Valid()
      reads this, repository
    {
      validation.repository == repository && repository.Valid()
    }

    constructor (repository: UserRepository, validation: UserValidationService)
      requires validation.repository == repository
      ensures this.repository == repository && this.validation == validation
    {
      this.repository := repository;
      this.validation := validation;
    }

    method GetAllUsers() returns (r: Result<seq<User>>)
      modifies repository`trace
      ensures var o := GetAllUsersOutcome(old(repository.State()), repository.faults);
              repository.State() == o.after && r == o.result && repository.trace == old(repository.trace) + o.calls
    {
      r := repository.DbListUsers();
    }

    method GetUser(id: int) returns (r: Result<User>)
      modifies repository`trace
      ensures var o := GetUserOutcome(old(repository.State()), repository.faults, id);
              repository.State() == o.after && r == o.result && repository.trace == old(repository.trace) + o.calls
    {
      r := repository.DbGetUser(id);
    }

    method SaveUser(user: User) returns (r: Result<User>)
      requires Valid()
      modifies repository`rows, repository`nextId, repository`trace
      ensures Valid()
      ensures var o := SaveOutcome(old(repository.State()), repository.faults, user, validation.emailSyntax);
              repository.State() == o.after && r == o.result && repository.trace == old(repository.trace) + o.calls
    {
      var checked := validation.ValidateUser(user);
      if checked.Aborted? {
        return Err(checked.cause);
      }
      if |checked.violations| > 0 {
        return Err(BadRequestError(Join(checked.violations, ",")));
      }
      r := repository.DbCreateUser(user);
    }

    method UpdateUser(user: User) returns (r: Result<User>)
      requires Valid()
      modifies repository`rows, repository`trace
      ensures Valid()
      ensures var o := UpdateOutcome(old(repository.State()), repository.faults, user);
              repository.State() == o.after && r == o.result && repository.trace == old(repository.trace) + o.calls
    {
      var current := repository.DbGetUser(user.id);
      if current.Err? {
        return Err(current.error);
      }
      var updated := current.value;
      updated := updated.(firstName := user.firstName);
      updated := updated.(lastName := user.lastName);
      updated := updated.(email := user.email);
      updated := updated.(age := user.age);
      r := repository.DbUpdateUser(updated);
    }

    method DeleteUser(id: int) returns (r: Result<Option<User>>)
      requires Valid()
      modifies repository`rows, repository`trace
      ensures Valid()
      ensures var o := DeleteOutcome(old(repository.State()), repository.faults, id);
              repository.State() == o.after && r == o.result && repository.trace == old(repository.trace) + o.calls
    {
      var found := repository.DbGetUser(id);
      if found.Err? {
        return Err(found.error);
      }
      r := repository.DbDeleteUser(id);
    }
  }
}
