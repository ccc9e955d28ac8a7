/** The persistence adapter `UserRepositoryAdapter`: the table row
    `UserEntity`, the mappings `toEntity` and `toDomain`, and a class holding
    the rows of the `users` table that implements the repository port. */
module Persistence {
  import opened Wrappers
  import opened Seqs
  import opened UserEmailModel
  import opened UserModel
  import opened RepositoryPort

  /** A row of the `users` table: the email is a plain string column. */
  datatype UserEntity = UserEntity(
    id: Option<UserId>,
    name: string,
    email: string,
    age: int,
    createdAt: Timestamp)

  /** `User.toEntity()`: every field copied, the email flattened to its value. */
  function ToEntity(u: User): (e: UserEntity)
    ensures e.id == u.id && e.name == u.name && e.email == u.email.value
    ensures e.age == u.age && e.createdAt == u.createdAt
  {
    UserEntity(u.id, u.name, u.email.value, u.age, u.createdAt)
  }

  /** Why a row cannot be read back: the `UserEmail` or the `User` constructor rejected it. */
  datatype MappingError = InvalidStoredEmail(emailError: EmailError) | InvalidStoredUser(userError: UserError)

  /** `UserEntity.toDomain()`: builds `UserEmail(email)` and then the `User`,
      either of which rejects an invalid row. */
  function ToDomain(e: UserEntity): (r: Result<User, MappingError>)
    ensures r.Success? <==> IsValidEmail(e.email) && !IsBlank(e.name) && MinAge <= e.age <= MaxAge
    ensures r.Success? ==> r.value.id == e.id && r.value.name == e.name && r.value.email.value == e.email
    ensures r.Success? ==> r.value.age == e.age && r.value.createdAt == e.createdAt
  {
    MatchesEmailPatternIffRegex(e.email);
    match ParseEmail(e.email)
    case Failure(err) => Failure(InvalidStoredEmail(err))
    case Success(email) =>
      match NewUser(e.id, e.name, email, e.age, e.createdAt)
      case Failure(err) => Failure(InvalidStoredUser(err))
      case Success(u) => Success(u)
  }

  /** Writing a user and reading it back gives the same user. */
  lemma MappingRoundTrip(u: User)
    ensures ToDomain(ToEntity(u)) == Success(u)
  {
  }

  /** A row that can be read back is exactly the row of the user it reads as. */
  lemma MappingRoundTripBack(e: UserEntity)
    requires ToDomain(e).Success?
    ensures ToEntity(ToDomain(e).value) == e
  {
  }

  /** `findAll().map { it.toDomain() }`. */
  function MapToDomain(rows: seq<UserEntity>): (r: seq<User>)
    requires forall i :: 0 <= i < |rows| ==> ToDomain(rows[i]).Success?
    ensures |r| == |rows|
    ensures forall i :: 0 <= i < |rows| ==> r[i] == ToDomain(rows[i]).value
  {
    if |rows| == 0 then []
    else [ToDomain(rows[0]).value] + MapToDomain(rows[1..])
  }

  function RowHasId(id: UserId): UserEntity -> bool {
    (e: UserEntity) => e.id == Some(id)
  }

  function RowHasEmail(value: string): UserEntity -> bool {
    (e: UserEntity) => e.email == value
  }

  /** A row other than `e`'s own that holds `e`'s email. */
  function RowClashesWith(e: UserEntity): UserEntity -> bool {
    (x: UserEntity) => x.email == e.email && x.id != e.id
  }

  /** The table holds exactly the rows of `users`, position by position. */
  ghost predicate RowsOf(rows: seq<UserEntity>, users: seq<User>) {
    |rows| == |users| && forall i :: 0 <= i < |rows| ==> rows[i] == ToEntity(users[i])
  }

  lemma RowsOfAppend(rows: seq<UserEntity>, users: seq<User>, v: User)
    requires RowsOf(rows, users)
    ensures RowsOf(rows + [ToEntity(v)], users + [v])
  {
  }

  lemma RowsOfUpdate(rows: seq<UserEntity>, users: seq<User>, i: nat, v: User)
    requires RowsOf(rows, users) && i < |rows|
    ensures RowsOf(rows[i := ToEntity(v)], users[i := v])
  {
  }

  lemma RowsOfRemoveAt(rows: seq<UserEntity>, users: seq<User>, i: nat)
    requires RowsOf(rows, users) && i < |rows|
    ensures RowsOf(RemoveAt(rows, i), RemoveAt(users, i))
  {
    forall j | 0 <= j < |rows| - 1 ensures RemoveAt(rows, i)[j] == ToEntity(RemoveAt(users, i)[j]) {
      RemoveAtIndex(rows, i, j);
      RemoveAtIndex(users, i, j);
    }
  }

  /** The adapter over the `users` table. The generator of `UUID`s is the
      counter `nextId`. */
  class UserRepositoryAdapter {
    /** The rows of the table, in insertion order. */
    var rows: seq<UserEntity>
    /** The next identifier the generator hands out. */
    var nextId: UserId
    /** The users the rows stand for. */
    ghost var users: seq<User>

    ghost predicate Valid()
      reads this
    {
      RowsOf(rows, users) && StoreInvariant(users, nextId)
    }

    /** An empty table. */
    constructor ()
      ensures Valid() && rows == [] && users == [] && nextId == 0
    {
      rows, users, nextId := [], [], 0;
    }

    /** Rows and users agree position by position on the identifier. */
    lemma RowsAgreeOnId(id: UserId)
      requires Valid()
      ensures FirstIndex(rows, RowHasId(id)) == IndexOfId(users, id)
    {
      FirstIndexAgrees(rows, RowHasId(id), users, HasId(id));
    }

    /** A row clashes with the row of `u` exactly when another stored user holds its email. */
    lemma RowClashMeansTaken(u: User)
      requires Valid()
      ensures FirstIndex(rows, RowClashesWith(ToEntity(u))).Some? <==> EmailTaken(users, u)
    {
      var entity := ToEntity(u);
      assert forall i :: 0 <= i < |rows| ==>
        (RowClashesWith(entity)(rows[i]) <==> users[i].email.value == u.email.value && users[i].id != u.id);
    }

    /** `findById(id)`. */
    function FindById(id: UserId): (r: Option<User>)
      reads this
      requires Valid()
      ensures r == RepositoryPort.FindById(users, id)
    {
      RowsAgreeOnId(id);
      match FirstIndex(rows, RowHasId(id))
      case None => None
      case Some(i) =>
        MappingRoundTrip(users[i]);
        Some(ToDomain(rows[i]).value)
    }

    /** `findByEmail(email)`: compares the stored string with `email.value`. */
    function FindByEmail(email: UserEmail): (r: Option<User>)
      reads this
      requires Valid()
      ensures r == RepositoryPort.FindByEmail(users, email)
    {
      FirstIndexAgrees(rows, RowHasEmail(email.value), users, HasEmail(email.value));
      match FirstIndex(rows, RowHasEmail(email.value))
      case None => None
      case Some(i) =>
        MappingRoundTrip(users[i]);
        Some(ToDomain(rows[i]).value)
    }

    /** `findAll()`: one user per row, in the table's order. */
    function FindAll(): (r: seq<User>)
      reads this
      requires Valid()
      ensures r == users
    {
      assert forall i :: 0 <= i < |rows| ==> ToDomain(rows[i]) == Success(users[i]) by {
        forall i | 0 <= i < |rows| ensures ToDomain(rows[i]) == Success(users[i]) {
          MappingRoundTrip(users[i]);
        }
      }
      MapToDomain(rows)
    }

    /** `save(user)`: writes `user.toEntity()` and returns the written row read back. */
    method Save(u: User) returns (r: Result<User, SaveError>)
      requires Valid()
      modifies this
      ensures Valid()
      ensures match RepositoryPort.Save(old(users), old(nextId), u)
        case Failure(err) => r == Failure(err) && unchanged(this)
        case Success(s) => r == Success(s.user) && users == s.users && nextId == s.nextId
    {
      var entity := ToEntity(u);
      RowClashMeansTaken(u);
      if FirstIndex(rows, RowClashesWith(entity)).Some? {
        // the unique email column rejects the write
        return Failure(EmailAlreadyStored);
      }
      ghost var spec := RepositoryPort.Save(users, nextId, u).value;
      var stored := entity;
      match entity.id {
        case None =>
          stored := entity.(id := Some(nextId));
          RowsOfAppend(rows, users, spec.user);
          rows := rows + [stored];
          nextId := nextId + 1;
        case Some(k) =>
          RowsAgreeOnId(k);
          var existing := FirstIndex(rows, RowHasId(k));
          if existing.Some? {
            RowsOfUpdate(rows, users, existing.value, u);
            rows := rows[existing.value := stored];
          } else {
            RowsOfAppend(rows, users, u);
            rows := rows + [stored];
            if nextId <= k {
              nextId := k + 1;
            }
          }
      }
      users := spec.users;
      MappingRoundTrip(spec.user);
      SavePreservesInvariant(old(users), old(nextId), u);
      r := Success(ToDomain(stored).value);
    }

    /** `delete(id)`: `existsById`, then `deleteById` only when the row exists. */
    method Delete(id: UserId) returns (deleted: bool)
      requires Valid()
      modifies this
      ensures Valid()
      ensures deleted == Exists(old(users), id)
      ensures users == Remove(old(users), id) && nextId == old(nextId)
    {
      RowsAgreeOnId(id);
      var found := FirstIndex(rows, RowHasId(id));
      if found.Some? {
        var i := found.value;
        RemoveKeepsInvariant(users, nextId, id);
        RowsOfRemoveAt(rows, users, i);
        rows := RemoveAt(rows, i);
        users := RemoveAt(users, i);
        deleted := true;
      } else {
        deleted := false;
      }
    }
  }
}
