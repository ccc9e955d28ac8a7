/** The outbound port `UserRepository`: what `save`, `findById`, `findByEmail`,
    `findAll` and `delete` do to a store of users kept in insertion order, with
    identifiers drawn from a counter and the unique email column of the backing
    table. */
module RepositoryPort {
  import opened Wrappers
  import opened Seqs
  import opened UserEmailModel
  import opened UserModel

  /** The user has identifier `id`. */
  function HasId(id: UserId): User -> bool {
    (u: User) => u.id == Some(id)
  }

  /** The user's email is the string `value`. */
  function HasEmail(value: string): User -> bool {
    (u: User) => u.email.value == value
  }

  /** What a store holds between two calls: every user saved, with an
      identifier below the counter, no identifier twice and no email twice. */
  ghost predicate StoreInvariant(users: seq<User>, nextId: UserId) {
    && (forall i :: 0 <= i < |users| ==> users[i].id.Some? && users[i].id.value < nextId)
    && (forall i, j :: 0 <= i < j < |users| ==> users[i].id != users[j].id)
    && UniqueEmails(users)
  }

  /** No two stored users share an email value (the `unique = true` column). */
  ghost predicate UniqueEmails(users: seq<User>) {
    forall i, j :: 0 <= i < j < |users| ==> users[i].email.value != users[j].email.value
  }

  function IndexOfId(users: seq<User>, id: UserId): (r: Option<nat>)
    ensures r.Some? ==> r.value < |users| && users[r.value].id == Some(id)
    ensures r.None? <==> forall i :: 0 <= i < |users| ==> users[i].id != Some(id)
  {
    FirstIndex(users, HasId(id))
  }

  /** `findById`: the stored user with that identifier, or absent. */
  function FindById(users: seq<User>, id: UserId): (r: Option<User>)
    ensures r.Some? ==> r.value in users && r.value.id == Some(id)
    ensures r.None? <==> forall i :: 0 <= i < |users| ==> users[i].id != Some(id)
  {
    match IndexOfId(users, id)
    case None => None
    case Some(i) => Some(users[i])
  }

  /** `findByEmail`: the stored user whose email string equals that of `email`, or absent. */
  function FindByEmail(users: seq<User>, email: UserEmail): (r: Option<User>)
    ensures r.Some? ==> r.value in users && r.value.email == email
    ensures r.None? <==> forall i :: 0 <= i < |users| ==> users[i].email.value != email.value
  {
    match FirstIndex(users, HasEmail(email.value))
    case None => None
    case Some(i) => Some(users[i])
  }

  /** The answer `delete(id)` gives: whether a user with that identifier is stored. */
  predicate Exists(users: seq<User>, id: UserId) {
    IndexOfId(users, id).Some?
  }

  /** `existsById`: some stored user holds the identifier. */
  lemma ExistsIff(users: seq<User>, id: UserId)
    ensures Exists(users, id) <==> exists i :: 0 <= i < |users| && users[i].id == Some(id)
  {
  }

  /** The store after `delete(id)`: the entry with that identifier taken out,
      every other entry kept in order. */
  function Remove(users: seq<User>, id: UserId): (r: seq<User>)
    ensures !Exists(users, id) ==> r == users
    ensures Exists(users, id) ==> |r| == |users| - 1
  {
    match IndexOfId(users, id)
    case None => users
    case Some(i) => RemoveAt(users, i)
  }

  /** Another stored user already holds the email of `u`: the unique column
      rejects the write. */
  predicate EmailTaken(users: seq<User>, u: User) {
    exists i :: 0 <= i < |users| && users[i].email.value == u.email.value && users[i].id != u.id
  }

  datatype SaveError = EmailAlreadyStored

  /** The store after a successful `save`, and the user `save` returns. */
  datatype Saved = Saved(users: seq<User>, nextId: UserId, user: User)

  /** `save(user)`. A user without an identifier receives the counter's value
      and is appended; a user with an identifier replaces the stored user with
      that identifier, or is appended when there is none. Every other field of
      the returned user is the argument's. */
  function Save(users: seq<User>, nextId: UserId, u: User): (r: Result<Saved, SaveError>)
    ensures r.Failure? <==> EmailTaken(users, u)
    ensures r.Success? ==>
      && r.value.user.name == u.name && r.value.user.email == u.email
      && r.value.user.age == u.age && r.value.user.createdAt == u.createdAt
      && r.value.user.id == (if u.id.None? then Some(nextId) else u.id)
      && r.value.user in r.value.users
  {
    if EmailTaken(users, u) then Failure(EmailAlreadyStored)
    else match u.id
      case None =>
        var s: User := u.(id := Some(nextId));
        Success(Saved(users + [s], nextId + 1, s))
      case Some(k) =>
        match IndexOfId(users, k)
        case Some(i) =>
          assert users[i := u][i] == u;
          Success(Saved(users[i := u], nextId, u))
        case None => Success(Saved(users + [u], if k < nextId then nextId else k + 1, u))
  }

  /** A new user is given a fresh identifier and goes to the end of the store. */
  lemma SaveNewUser(users: seq<User>, nextId: UserId, u: User)
    requires StoreInvariant(users, nextId)
    requires u.id.None? && !EmailTaken(users, u)
    ensures Save(users, nextId, u).Success?
    ensures var s := Save(users, nextId, u).value;
      && s.users == users + [s.user] && s.nextId == nextId + 1 && s.user.id == Some(nextId)
      && FindById(users, nextId).None?
  {
  }

  /** A user whose identifier is stored replaces that entry in place; every
      other entry and the counter stay as they were. */
  lemma SaveExistingUser(users: seq<User>, nextId: UserId, u: User, i: nat)
    requires u.id.Some? && IndexOfId(users, u.id.value) == Some(i)
    requires !EmailTaken(users, u)
    ensures Save(users, nextId, u).Success?
    ensures Save(users, nextId, u).value.users == users[i := u]
    ensures Save(users, nextId, u).value.nextId == nextId
  {
  }

  /** A user carrying an identifier nobody holds is appended as it is, and
      the counter moves past that identifier. */
  lemma SaveUnknownId(users: seq<User>, nextId: UserId, u: User)
    requires u.id.Some? && !Exists(users, u.id.value)
    requires !EmailTaken(users, u)
    ensures Save(users, nextId, u).Success?
    ensures Save(users, nextId, u).value.users == users + [u]
    ensures Save(users, nextId, u).value.nextId == if u.id.value < nextId then nextId else u.id.value + 1
  {
  }

  /** Every successful save keeps the store invariant, in particular one user per email. */
  lemma SavePreservesInvariant(users: seq<User>, nextId: UserId, u: User)
    requires StoreInvariant(users, nextId)
    requires Save(users, nextId, u).Success?
    ensures var s := Save(users, nextId, u).value; StoreInvariant(s.users, s.nextId)
  {
    var s := Save(users, nextId, u).value;
    assert !EmailTaken(users, u);
    match u.id
    case None =>
    case Some(k) =>
      match IndexOfId(users, k)
      case Some(i) =>
        assert s.users == users[i := u];
        forall a, b | 0 <= a < b < |s.users|
          ensures s.users[a].id != s.users[b].id
          ensures s.users[a].email.value != s.users[b].email.value
        {
          if a == i {
            assert users[b].id != users[i].id;
          } else if b == i {
            assert users[a].id != users[i].id;
          }
        }
      case None =>
  }

  /** Directly after a save, both lookups find the user that `save` returned. */
  lemma SaveThenFind(users: seq<User>, nextId: UserId, u: User)
    requires StoreInvariant(users, nextId)
    requires Save(users, nextId, u).Success?
    ensures var s := Save(users, nextId, u).value;
      && FindById(s.users, s.user.id.value) == Some(s.user)
      && FindByEmail(s.users, u.email) == Some(s.user)
  {
    var s := Save(users, nextId, u).value;
    SavePreservesInvariant(users, nextId, u);
    var k :| 0 <= k < |s.users| && s.users[k] == s.user;
    forall j | 0 <= j < k ensures !HasId(s.user.id.value)(s.users[j]) && !HasEmail(u.email.value)(s.users[j]) {
      assert s.users[j].id != s.users[k].id;
      assert s.users[j].email.value != s.users[k].email.value;
    }
    FirstIndexAt(s.users, HasId(s.user.id.value), k);
    FirstIndexAt(s.users, HasEmail(u.email.value), k);
  }

  /** Saving two new users A and B lists them in the order [A, B] after what was there. */
  lemma SaveTwoInOrder(users: seq<User>, nextId: UserId, a: User, b: User)
    requires StoreInvariant(users, nextId)
    requires a.id.None? && b.id.None? && a.email.value != b.email.value
    requires !EmailTaken(users, a) && !EmailTaken(users, b)
    ensures Save(users, nextId, a).Success?
    ensures var first := Save(users, nextId, a).value;
      && Save(first.users, first.nextId, b).Success?
      && Save(first.users, first.nextId, b).value.users == users + [first.user, Save(first.users, first.nextId, b).value.user]
  {
    SaveNewUser(users, nextId, a);
    var first := Save(users, nextId, a).value;
    SavePreservesInvariant(users, nextId, a);
    assert !EmailTaken(first.users, b) by {
      forall i | 0 <= i < |first.users| ensures first.users[i].email.value != b.email.value {
        if i < |users| {
          assert first.users[i] == users[i];
        }
      }
    }
    SaveNewUser(first.users, first.nextId, b);
  }

  /** Deleting a stored identifier removes exactly that one entry; no user
      with the identifier is left and the invariant still holds. */
  lemma RemoveExisting(users: seq<User>, nextId: UserId, id: UserId)
    requires StoreInvariant(users, nextId)
    requires Exists(users, id)
    ensures FindById(Remove(users, id), id).None?
    ensures multiset(Remove(users, id)) + multiset{FindById(users, id).value} == multiset(users)
    ensures StoreInvariant(Remove(users, id), nextId)
  {
    RemoveLeavesNoId(users, nextId, id);
    RemoveKeepsInvariant(users, nextId, id);
  }

  /** After deleting a stored identifier, no user holds it: identifiers were distinct. */
  lemma RemoveLeavesNoId(users: seq<User>, nextId: UserId, id: UserId)
    requires StoreInvariant(users, nextId)
    requires Exists(users, id)
    ensures forall j :: 0 <= j < |Remove(users, id)| ==> Remove(users, id)[j].id != Some(id)
  {
    var i := IndexOfId(users, id).value;
    var r := Remove(users, id);
    forall j | 0 <= j < |r| ensures r[j].id != Some(id) {
      RemoveAtIndex(users, i, j);
      var k := if j < i then j else j + 1;
      assert users[k].id != users[i].id;
    }
  }

  /** Deleting keeps the store invariant, whether or not the identifier is stored. */
  lemma RemoveKeepsInvariant(users: seq<User>, nextId: UserId, id: UserId)
    requires StoreInvariant(users, nextId)
    ensures StoreInvariant(Remove(users, id), nextId)
  {
    match IndexOfId(users, id)
    case None =>
    case Some(i) =>
      var r := Remove(users, id);
      forall j | 0 <= j < |r| ensures r[j].id.Some? && r[j].id.value < nextId {
        RemoveAtIndex(users, i, j);
      }
      forall a, b | 0 <= a < b < |r|
        ensures r[a].id != r[b].id && r[a].email.value != r[b].email.value
      {
        RemoveAtIndex(users, i, a);
        RemoveAtIndex(users, i, b);
      }
  }

  /** A saved user can be deleted by its identifier, and is then no longer found. */
  lemma SaveThenDelete(users: seq<User>, nextId: UserId, u: User)
    requires StoreInvariant(users, nextId)
    requires Save(users, nextId, u).Success?
    ensures var s := Save(users, nextId, u).value;
      && Exists(s.users, s.user.id.value)
      && FindById(Remove(s.users, s.user.id.value), s.user.id.value).None?
  {
    var s := Save(users, nextId, u).value;
    SaveThenFind(users, nextId, u);
    SavePreservesInvariant(users, nextId, u);
    RemoveExisting(s.users, s.nextId, s.user.id.value);
  }

  /** Deleting an identifier that is not stored changes nothing. */
  lemma RemoveMissing(users: seq<User>, id: UserId)
    requires forall i :: 0 <= i < |users| ==> users[i].id != Some(id)
    ensures !Exists(users, id) && Remove(users, id) == users
  {
  }
}
