/** The web response `UserResponse` and its projection `UserResponse.from(user)`. */
module WebResponse {
  import opened Wrappers
  import opened UserEmailModel
  import opened UserModel

  /** The response body: plain values, the email as its string. */
  datatype UserResponse = UserResponse(
    id: Option<UserId>,
    name: string,
    email: string,
    age: int,
    isAdult: bool,
    createdAt: Timestamp)

  /** `UserResponse.from(user)`: copies every field, flattens the email to its
      string and adds the derived `isAdult`. The response keeps the entity's
      invariants, and its email parses back to the user's email. */
  function From(u: User): (r: UserResponse)
    ensures r.id == u.id && r.name == u.name && r.age == u.age && r.createdAt == u.createdAt
    ensures r.email == u.email.value
    ensures r.isAdult == IsAdult(u) && (r.isAdult <==> r.age >= AdultAge)
    ensures u.id.None? ==> r.id.None?
    ensures !IsBlank(r.name) && MinAge <= r.age <= MaxAge
    ensures ParseEmail(r.email) == Success(u.email)
  {
    MatchesEmailPatternIffRegex(u.email.value);
    UserResponse(u.id, u.name, u.email.value, u.age, IsAdult(u), u.createdAt)
  }

  /** The projection loses nothing: distinct users give distinct responses. */
  lemma FromIsInjective(u: User, v: User)
    requires From(u) == From(v)
    ensures u == v
  {
    assert u.email.value == v.email.value;
  }
}
