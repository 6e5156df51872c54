/** The user table and the repository methods over it. The table is a map from
    primary key to row; what the database engine itself does on each statement
    (find, take, save, update, delete) is written out as the functions below,
    and the repository methods add the checks the Go code makes on top. */
module Repository {
  import opened Errors
  import opened Model
  import opened Keys

  /** Messages the repository itself produces. */
  const UserNotFound := "User not found"
  const NoUserFound := "no users found"

  /** Messages of the database layer's own failures: a `Take` that finds no row,
      and a `Delete` whose only condition is a zero primary key. */
  const RecordNotFound := "record not found"
  const MissingWhereClause := "WHERE conditions required"

  /** The repository's operations, as recorded in a trace of calls. */
  datatype Call = ListUsers | CreateUser | GetUser | UpdateUser | DeleteUser | ExistsByName

  /** The table's contents and the next key the engine hands out. */
  datatype Table = Table(rows: map<int, User>, nextId: int)

  /** The new table and the result of one statement. */
  datatype Step<+T> = Step(after: Table, result: Result<T>)

  /** Every row is stored under its own id, no row has the zero id (which marks
      a record the engine has not yet keyed) and every key is below `nextId`. */
  predicate WellFormed(t: Table)
  {
    && 1 <= t.nextId
    && forall k :: k in t.rows ==> t.rows[k].id == k && k != 0 && k < t.nextId
  }

  /** All rows of the table in ascending key order. */
  function RowsById(rows: map<int, User>): seq<User>
  {
    var ids := SortedIds(rows.Keys);
    seq(|ids|, i requires 0 <= i < |ids| => rows[ids[i]])
  }

  /** The engine's `Where(User{Id: id}).Take`: a zero id is dropped from the
      condition, so any row (here, the first in key order) answers it. */
  function Take(rows: map<int, User>, id: int): Option<User>
  {
    if id == 0 then
      (if rows == map[] then None else Some(rows[SortedIds(rows.Keys)[0]]))
    else if id in rows then Some(rows[id])
    else None
  }

  /** The rows whose first and last names are exactly `firstName` and `lastName`. */
  function RowsNamed(rows: map<int, User>, firstName: string, lastName: string): set<int>
  {
    set k | k in rows && rows[k].firstName == firstName && rows[k].lastName == lastName
  }

  /** The row an engine `Updates` with a record leaves: the record's non-zero
      fields replace the stored ones, its zero fields are skipped. */
  function MergeNonZero(stored: User, patch: User): User
  {
    User(stored.id,
         if patch.firstName != "" then patch.firstName else stored.firstName,
         if patch.lastName != "" then patch.lastName else stored.lastName,
         if patch.email != "" then patch.email else stored.email,
         if patch.age != 0 then patch.age else stored.age)
  }

  /** `DbListUsers`: every row, or "no users found" for an empty table. */
  function ListUsersResult(t: Table, faults: map<Call, string>): Result<seq<User>>
  {
    if ListUsers in faults then Err(InternalServerError(faults[ListUsers]))
    else
      var users := RowsById(t.rows);
      if |users| > 0 then Ok(users) else Err(NotFoundError(NoUserFound))
  }

  /** `DbGetUser`: the row the engine takes, kept only when its id is the one
      asked for. */
  function GetUserResult(t: Table, faults: map<Call, string>, id: int): Result<User>
  {
    if GetUser in faults then Err(InternalServerError(faults[GetUser]))
    else
      match Take(t.rows, id)
      case None => Err(NotFoundError(RecordNotFound))
      case Some(user) => if user.id == id then Ok(user) else Err(NotFoundError(UserNotFound))
  }

  /** `ExistsByFirstNameAndLastName`: whether the name query matched any row. */
  function ExistsResult(t: Table, faults: map<Call, string>, firstName: string, lastName: string): Result<bool>
  {
    if ExistsByName in faults then Err(InternalServerError(faults[ExistsByName]))
    else Ok(|RowsNamed(t.rows, firstName, lastName)| > 0)
  }

  /** `DbCreateUser`: the engine's `Save`. A zero id is replaced by the next key;
      a non-zero id writes the whole record under that key, replacing any row
      there. The saved record is returned. */
  function CreateStep(t: Table, faults: map<Call, string>, user: User): Step<User>
  {
    if CreateUser in faults then Step(t, Err(InternalServerError(faults[CreateUser])))
    else if user.id == 0 then
      var saved := user.(id := t.nextId);
      Step(Table(t.rows[t.nextId := saved], t.nextId + 1), Ok(saved))
    else
      Step(Table(t.rows[user.id := user], if user.id < t.nextId then t.nextId else user.id + 1), Ok(user))
  }

  /** `DbUpdateUser`: the engine's `Updates` on the row keyed by the record's id
      (none if there is no such row); the input record is returned. */
  function UpdateStep(t: Table, faults: map<Call, string>, user: User): Step<User>
  {
    if UpdateUser in faults then Step(t, Err(InternalServerError(faults[UpdateUser])))
    else if user.id in t.rows then
      Step(Table(t.rows[user.id := MergeNonZero(t.rows[user.id], user)], t.nextId), Ok(user))
    else Step(t, Ok(user))
  }

  /** `DbDeleteUser`: the engine's `Delete` by primary key; success carries no
      record. */
  function DeleteStep(t: Table, faults: map<Call, string>, id: int): Step<Option<User>>
  {
    if DeleteUser in faults then Step(t, Err(InternalServerError(faults[DeleteUser])))
    else if id == 0 then Step(t, Err(InternalServerError(MissingWhereClause)))
    else Step(Table(t.rows - {id}, t.nextId), Ok(None))
  }

  /** Every key is listed: the ascending key sequence holds the whole set. */
  lemma {:induction false} SortedIdsComplete(ks: set<int>)
    ensures forall k :: k in ks ==> k in SortedIds(ks)
    decreases ks
  {
    if |ks| != 0 {
      LeastExists(ks);
      var m :| m in ks && forall j :: j in ks ==> m <= j;
      assert SortedIds(ks) == [m] + SortedIds(ks - {m});
      SortedIdsComplete(ks - {m});
      forall k | k in ks
        ensures k in SortedIds(ks)
      {
        if k != m {
          assert k in ks - {m};
        }
      }
    }
  }

  /** The listing has one entry per row, each a stored row under its own id. */
  lemma RowsByIdEntries(rows: map<int, User>)
    requires forall k :: k in rows ==> rows[k].id == k
    ensures |RowsById(rows)| == |rows|
    ensures forall i :: 0 <= i < |RowsById(rows)| ==>
              RowsById(rows)[i].id == SortedIds(rows.Keys)[i] && RowsById(rows)[i] == rows[SortedIds(rows.Keys)[i]]
  {
    assert |rows| == |rows.Keys|;
  }

  /** The listing holds every row once, in ascending id order, and nothing
      else. */
  lemma RowsByIdLists(rows: map<int, User>)
    requires forall k :: k in rows ==> rows[k].id == k
    ensures |RowsById(rows)| == |rows|
    ensures forall i :: 0 <= i < |RowsById(rows)| ==>
              RowsById(rows)[i].id in rows && rows[RowsById(rows)[i].id] == RowsById(rows)[i]
    ensures forall i, j :: 0 <= i < j < |RowsById(rows)| ==> RowsById(rows)[i].id < RowsById(rows)[j].id
    ensures forall k :: k in rows ==> exists i :: 0 <= i < |RowsById(rows)| && RowsById(rows)[i] == rows[k]
  {
    var ids := SortedIds(rows.Keys);
    var users := RowsById(rows);
    RowsByIdEntries(rows);
    SortedIdsComplete(rows.Keys);
    forall k | k in rows
      ensures exists i :: 0 <= i < |users| && users[i] == rows[k]
    {
      var i :| 0 <= i < |ids| && ids[i] == k;
      assert users[i] == rows[k];
    }
  }

  /** `DbListUsers` fails exactly when the database does or the table is empty;
      otherwise it returns the listing above. */
  lemma ListUsersLists(t: Table, faults: map<Call, string>)
    requires WellFormed(t)
    ensures ListUsersResult(t, faults).Ok? <==> ListUsers !in faults && |t.rows| > 0
    ensures ListUsers !in faults && |t.rows| == 0 ==>
              ListUsersResult(t, faults) == Err(NotFoundError(NoUserFound))
    ensures ListUsersResult(t, faults).Ok? ==> ListUsersResult(t, faults).value == RowsById(t.rows)
  {
    RowsByIdLists(t.rows);
  }

  /** On a well-formed table `DbGetUser` finds exactly the stored row with that
      id. A missing id is "record not found", except the zero id, which the
      engine answers with some other row and the code then refuses as "User not
      found". */
  lemma GetUserFinds(t: Table, faults: map<Call, string>, id: int)
    requires WellFormed(t) && GetUser !in faults
    ensures GetUserResult(t, faults, id) ==
              if id in t.rows then Ok(t.rows[id])
              else if id == 0 && |t.rows| > 0 then Err(NotFoundError(UserNotFound))
              else Err(NotFoundError(RecordNotFound))
  {
    if id == 0 && |t.rows| > 0 {
      assert t.rows != map[];
      var ids := SortedIds(t.rows.Keys);
      assert ids[0] in t.rows;
    } else if id == 0 {
      assert t.rows == map[];
    }
  }

  /** Whatever the table, a successful `DbGetUser` returns a row whose id is
      the one asked for. */
  lemma GetUserOnlyMatching(t: Table, faults: map<Call, string>, id: int)
    ensures GetUserResult(t, faults, id).Ok? ==> GetUserResult(t, faults, id).value.id == id
  {
  }

  /** `ExistsByFirstNameAndLastName` answers true exactly when some stored row
      has both names. */
  lemma ExistsIff(t: Table, faults: map<Call, string>, firstName: string, lastName: string)
    requires ExistsByName !in faults
    ensures ExistsResult(t, faults, firstName, lastName) ==
              Ok(exists k :: k in t.rows && t.rows[k].firstName == firstName && t.rows[k].lastName == lastName)
  {
    var named := RowsNamed(t.rows, firstName, lastName);
    if exists k :: k in t.rows && t.rows[k].firstName == firstName && t.rows[k].lastName == lastName {
      var k :| k in t.rows && t.rows[k].firstName == firstName && t.rows[k].lastName == lastName;
      assert k in named;
    } else {
      assert named == {};
    }
  }

  /** A failing statement returns the driver's message as a server error and
      leaves the table as it was. */
  lemma FaultsPassThrough(t: Table, faults: map<Call, string>, user: User, id: int, firstName: string, lastName: string)
    ensures ListUsers in faults ==> ListUsersResult(t, faults) == Err(InternalServerError(faults[ListUsers]))
    ensures GetUser in faults ==> GetUserResult(t, faults, id) == Err(InternalServerError(faults[GetUser]))
    ensures ExistsByName in faults ==>
              ExistsResult(t, faults, firstName, lastName) == Err(InternalServerError(faults[ExistsByName]))
    ensures CreateUser in faults ==> CreateStep(t, faults, user) == Step(t, Err(InternalServerError(faults[CreateUser])))
    ensures UpdateUser in faults ==> UpdateStep(t, faults, user) == Step(t, Err(InternalServerError(faults[UpdateUser])))
    ensures DeleteUser in faults ==> DeleteStep(t, faults, id) == Step(t, Err(InternalServerError(faults[DeleteUser])))
  {
  }

  /** `DbCreateUser` stores the record under a non-zero key (its own id, or a
      fresh one when the id is zero), returns exactly what it stored, leaves
      every other row alone, and a later `DbGetUser` of that id finds it. */
  lemma CreateThenGet(t: Table, faults: map<Call, string>, user: User)
    requires WellFormed(t) && CreateUser !in faults && GetUser !in faults
    ensures var step := CreateStep(t, faults, user);
            && WellFormed(step.after)
            && step.result.Ok?
            && step.result.value == user.(id := step.result.value.id)
            && step.result.value.id != 0
            && (user.id != 0 ==> step.result.value.id == user.id)
            && (user.id == 0 ==> step.result.value.id !in t.rows)
            && step.after.rows.Keys == t.rows.Keys + {step.result.value.id}
            && (forall k :: k in t.rows && k != step.result.value.id ==> step.after.rows[k] == t.rows[k])
            && GetUserResult(step.after, faults, step.result.value.id) == step.result
  {
    var step := CreateStep(t, faults, user);
    GetUserFinds(step.after, faults, step.result.value.id);
  }

  /** `DbUpdateUser` of a stored id writes the record's non-zero fields into
      that row, keeps its id, touches no other row and returns the input. */
  lemma UpdateMerges(t: Table, faults: map<Call, string>, user: User)
    requires WellFormed(t) && UpdateUser !in faults && user.id in t.rows
    ensures var step := UpdateStep(t, faults, user);
            && WellFormed(step.after)
            && step.result == Ok(user)
            && step.after.rows.Keys == t.rows.Keys
            && step.after.rows[user.id] == MergeNonZero(t.rows[user.id], user)
            && (forall k :: k in t.rows && k != user.id ==> step.after.rows[k] == t.rows[k])
  {
  }

  /** A merge with a record whose fields are all non-zero stores that record. */
  lemma MergeAllNonZero(stored: User, patch: User)
    requires patch.id == stored.id
    requires patch.firstName != "" && patch.lastName != "" && patch.email != "" && patch.age != 0
    ensures MergeNonZero(stored, patch) == patch
  {
  }

  /** After `DbDeleteUser(id)` the row is gone, every other row stays, and
      `DbGetUser(id)` reports not found; deleting again changes nothing. */
  lemma DeleteThenGet(t: Table, faults: map<Call, string>, id: int)
    requires WellFormed(t) && DeleteUser !in faults && GetUser !in faults && id != 0
    ensures var step := DeleteStep(t, faults, id);
            && WellFormed(step.after)
            && step.result == Ok(None)
            && step.after.rows.Keys == t.rows.Keys - {id}
            && (forall k :: k in step.after.rows ==> step.after.rows[k] == t.rows[k])
            && GetUserResult(step.after, faults, id) == Err(NotFoundError(RecordNotFound))
            && DeleteStep(step.after, faults, id) == Step(step.after, Ok(None))
  {
    var step := DeleteStep(t, faults, id);
    GetUserFinds(step.after, faults, id);
  }

  /** The repository over one table. `faults` names the statements the database
      fails, with the driver's message; `trace` records the calls made. */
  class UserRepository {
    var rows: map<int, User>
    var nextId: int
    const faults: map<Call, string>
    ghost var trace: seq<Call>

    function State(): Table
      reads this
    {
      Table(rows, nextId)
    }

    ghost predicate Valid()
      reads this
    {
      WellFormed(State())
    }

    constructor (seed: Table, faults: map<Call, string>)
      requires WellFormed(seed)
      ensures Valid() && State() == seed && this.faults == faults && trace == []
    {
      rows := seed.rows;
      nextId := seed.nextId;
      this.faults := faults;
      trace := [];
    }

    method DbListUsers() returns (r: Result<seq<User>>)
      modifies this`trace
      ensures trace == old(trace) + [ListUsers]
      ensures r == ListUsersResult(State(), faults)
    {
      trace := trace + [ListUsers];
      if ListUsers in faults {
        return Err(InternalServerError(faults[ListUsers]));
      }
      var users := RowsById(rows);
      if |users| > 0 {
        return Ok(users);
      }
      return Err(NotFoundError(NoUserFound));
    }

    method DbCreateUser(user: User) returns (r: Result<User>)
      requires Valid()
      modifies this`rows, this`nextId, this`trace
      ensures Valid()
      ensures trace == old(trace) + [CreateUser]
      ensures Step(State(), r) == CreateStep(old(State()), faults, user)
    {
      trace := trace + [CreateUser];
      if CreateUser in faults {
        return Err(InternalServerError(faults[CreateUser]));
      }
      var saved := user;
      if user.id == 0 {
        saved := user.(id := nextId);
        nextId := nextId + 1;
      } else if nextId <= user.id {
        nextId := user.id + 1;
      }
      rows := rows[saved.id := saved];
      return Ok(saved);
    }

    method DbGetUser(id: int) returns (r: Result<User>)
      modifies this`trace
      ensures trace == old(trace) + [GetUser]
      ensures r == GetUserResult(State(), faults, id)
    {
      trace := trace + [GetUser];
      if GetUser in faults {
        return Err(InternalServerError(faults[GetUser]));
      }
      var found := Take(rows, id);
      if found.None? {
        return Err(NotFoundError(RecordNotFound));
      }
      if found.value.id == id {
        return Ok(found.value);
      }
      return Err(NotFoundError(UserNotFound));
    }

    method DbUpdateUser(user: User) returns (r: Result<User>)
      requires Valid()
      modifies this`rows, this`trace
      ensures Valid()
      ensures trace == old(trace) + [UpdateUser]
      ensures Step(State(), r) == UpdateStep(old(State()), faults, user)
    {
      trace := trace + [UpdateUser];
      if UpdateUser in faults {
        return Err(InternalServerError(faults[UpdateUser]));
      }
      if user.id in rows {
        rows := rows[user.id := MergeNonZero(rows[user.id], user)];
      }
      return Ok(user);
    }

    method DbDeleteUser(id: int) returns (r: Result<Option<User>>)
      requires Valid()
      modifies this`rows, this`trace
      ensures Valid()
      ensures trace == old(trace) + [DeleteUser]
      ensures Step(State(), r) == DeleteStep(old(State()), faults, id)
    {
      trace := trace + [DeleteUser];
      if DeleteUser in faults {
        return Err(InternalServerError(faults[DeleteUser]));
      }
      if id == 0 {
        return Err(InternalServerError(MissingWhereClause));
      }
      rows := rows - {id};
      return Ok(None);
    }

    method ExistsByFirstNameAndLastName(firstName: string, lastName: string) returns (r: Result<bool>)
      modifies this`trace
      ensures trace == old(trace) + [ExistsByName]
      ensures r == ExistsResult(State(), faults, firstName, lastName)
    {
      trace := trace + [ExistsByName];
      if ExistsByName in faults {
        return Err(InternalServerError(faults[ExistsByName]));
      }
      var users := RowsNamed(rows, firstName, lastName);
      if |users| > 0 {
        return Ok(true);
      }
      return Ok(false);
    }
  }
}
