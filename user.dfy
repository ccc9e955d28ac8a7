/** The `User` entity: an immutable record whose constructor rejects a blank
    name and an age outside 0..150, with the derived predicates `isAdult` and
    `canReceivePromotionalEmails`. */
module UserModel {
  import opened Wrappers
  import opened UserEmailModel

  /** Stands for the `UUID` a user receives when it is first saved. */
  type UserId = nat

  /** Stands for the `LocalDateTime` of creation; supplied by the caller. */
  type Timestamp = int

  const MinAge: int := 0
  const MaxAge: int := 150
  const AdultAge: int := 18

  /** The fields of the data class; `UserEntity` keeps the same fields as plain values. */
  datatype UserRecord = UserRecord(
    id: Option<UserId>,
    name: string,
    email: UserEmail,
    age: int,
    createdAt: Timestamp)

  /** The checks of the `init` block. */
  predicate WellFormed(u: UserRecord) {
    !IsBlank(u.name) && MinAge <= u.age <= MaxAge
  }

  /** A `User` never exists in a state its `init` block rejects. */
  type User = u: UserRecord | WellFormed(u)
    witness UserRecord(None, "a", SampleEmail, 0, 0)

  /** Which `require` of the `init` block failed. */
  datatype UserError = BlankName | NegativeAge | AgeAboveMaximum

  /** The constructor `User(id, name, email, age, createdAt)`: the first failing
      check decides the error; an accepted user holds exactly the given fields,
      so a user built without an id has none. */
  function NewUser(id: Option<UserId>, name: string, email: UserEmail, age: int, createdAt: Timestamp)
    : (r: Result<User, UserError>)
    ensures r.Success? <==> WellFormed(UserRecord(id, name, email, age, createdAt))
    ensures r.Success? ==> r.value == UserRecord(id, name, email, age, createdAt)
    ensures r == Failure(BlankName) <==> IsBlank(name)
    ensures r == Failure(NegativeAge) <==> !IsBlank(name) && age < MinAge
    ensures r == Failure(AgeAboveMaximum) <==> !IsBlank(name) && age > MaxAge
  {
    if IsBlank(name) then Failure(BlankName)
    else if age < MinAge then Failure(NegativeAge)
    else if age > MaxAge then Failure(AgeAboveMaximum)
    else Success(UserRecord(id, name, email, age, createdAt))
  }

  /** `isAdult()`. */
  predicate IsAdult(u: User) {
    u.age >= AdultAge
  }

  /** `canReceivePromotionalEmails()`: only adults receive promotions. */
  predicate CanReceivePromotionalEmails(u: User) {
    IsAdult(u)
  }

  /** The age examples of the test suite: 1 and 17 are minors, 18, 19 and 65 adults;
      promotions go to exactly the adults. */
  lemma AdultExamples(id: Option<UserId>, name: string, email: UserEmail, createdAt: Timestamp)
    requires !IsBlank(name)
    ensures forall age :: age in [1, 17] ==>
      NewUser(id, name, email, age, createdAt).Success? && !IsAdult(NewUser(id, name, email, age, createdAt).value)
    ensures forall age :: age in [18, 19, 65] ==>
      NewUser(id, name, email, age, createdAt).Success? && IsAdult(NewUser(id, name, email, age, createdAt).value)
    ensures forall u: User :: CanReceivePromotionalEmails(u) <==> u.age >= 18
  {
  }
}
