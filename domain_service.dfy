/** The domain service `UserDomainService`: creation with the duplicate-email
    check and a welcome message, the lookups, deletion, and the promotional
    mailing to eligible users. */
module DomainService {
  import opened Wrappers
  import opened UserEmailModel
  import opened UserModel
  import opened RepositoryPort
  import opened Persistence
  import opened EmailPort

  /** Why `createUser` failed: the email was rejected, it is already taken,
      or the `User` constructor rejected the name or the age. */
  datatype CreateUserError =
    | InvalidEmail(emailError: EmailError)
    | DuplicateEmail
    | InvalidUser(userError: UserError)

  /** `filter { it.canReceivePromotionalEmails() }`: the eligible users in order. */
  function Eligible(users: seq<User>): (r: seq<User>)
    ensures |r| <= |users|
  {
    if |users| == 0 then []
    else (if CanReceivePromotionalEmails(users[0]) then [users[0]] else []) + Eligible(users[1..])
  }

  /** A user is eligible exactly when it is stored and may receive promotions. */
  lemma {:induction false} EligibleMembers(users: seq<User>, u: User)
    ensures u in Eligible(users) <==> u in users && CanReceivePromotionalEmails(u)
  {
    if |users| > 0 {
      assert users == [users[0]] + users[1..];
      EligibleMembers(users[1..], u);
    }
  }

  /** Filtering keeps the order: it distributes over concatenation. */
  lemma {:induction false} EligibleAppend(a: seq<User>, b: seq<User>)
    ensures Eligible(a + b) == Eligible(a) + Eligible(b)
  {
    if |a| == 0 {
      assert a + b == b;
    } else {
      assert (a + b)[1..] == a[1..] + b;
      EligibleAppend(a[1..], b);
    }
  }

  /** Each eligible user is kept as often as it occurs, each other user dropped. */
  lemma {:induction false} EligibleCount(users: seq<User>, u: User)
    ensures multiset(Eligible(users))[u] == if CanReceivePromotionalEmails(u) then multiset(users)[u] else 0
  {
    if |users| > 0 {
      assert users == [users[0]] + users[1..];
      EligibleCount(users[1..], u);
    }
  }

  /** The promotional messages for `users`, in order. */
  function PromotionalBatch(users: seq<User>, content: string): (r: seq<SentEmail>)
    ensures |r| == |users|
  {
    if |users| == 0 then []
    else [Promotional(users[0], content)] + PromotionalBatch(users[1..], content)
  }

  /** One more recipient adds one message at the end. */
  lemma {:induction false} BatchSnoc(users: seq<User>, content: string, v: User)
    ensures PromotionalBatch(users + [v], content) == PromotionalBatch(users, content) + [Promotional(v, content)]
  {
    if |users| == 0 {
      assert users + [v] == [v];
    } else {
      assert (users + [v])[1..] == users[1..] + [v];
      BatchSnoc(users[1..], content, v);
    }
  }

  /** The mailing reaches each adult once per stored entry and no minor. */
  lemma PromotionalRecipients(users: seq<User>, content: string, u: User)
    ensures multiset(PromotionalBatch(Eligible(users), content))[Promotional(u, content)]
         == if u.age >= AdultAge then multiset(users)[u] else 0
  {
    var e := Eligible(users);
    EligibleCount(users, u);
    BatchCount(e, content, u);
  }

  lemma {:induction false} BatchCount(users: seq<User>, content: string, u: User)
    ensures multiset(PromotionalBatch(users, content))[Promotional(u, content)] == multiset(users)[u]
  {
    if |users| > 0 {
      assert users == [users[0]] + users[1..];
      BatchCount(users[1..], content, u);
    }
  }

  /** The test suite's mailing: of an adult and a minor, only the adult is eligible. */
  lemma MailingExample(adult: User, minor: User)
    requires adult.age == 25 && minor.age == 16
    ensures Eligible([adult, minor]) == [adult]
  {
    assert [adult, minor][1..] == [minor];
  }

  /** `eligibleUsers.forEach { emailService.sendPromotionalEmail(it, content) }`. */
  method SendEach(emailService: EmailOutbox, users: seq<User>, content: string)
    modifies emailService
    ensures emailService.sent == old(emailService.sent) + PromotionalBatch(users, content)
  {
    ghost var before := emailService.sent;
    for i := 0 to |users|
      invariant emailService.sent == before + PromotionalBatch(users[..i], content)
    {
      ghost var sent := emailService.sent;
      emailService.SendPromotionalEmail(users[i], content);
      BatchSnoc(users[..i], content, users[i]);
      assert users[..i + 1] == users[..i] + [users[i]];
      assert emailService.sent == sent + [Promotional(users[i], content)];
    }
    assert users[..|users|] == users;
  }

  class UserDomainService {
    const userRepository: UserRepositoryAdapter
    const emailService: EmailOutbox

    ghost predicate Valid()
      reads this, userRepository
    {
      userRepository.Valid()
    }

    constructor (userRepository: UserRepositoryAdapter, emailService: EmailOutbox)
      requires userRepository.Valid()
      ensures Valid()
      ensures this.userRepository == userRepository && this.emailService == emailService
    {
      this.userRepository := userRepository;
      this.emailService := emailService;
    }

    /** `createUser(name, email, age)`, with the creation time `now` supplied.
        The email is checked first, before the repository is consulted; a
        duplicate email wins over an invalid name or age; nothing is saved or
        sent unless all checks pass, and then exactly one user is saved and
        exactly one welcome goes to the user `save` returned. */
    method CreateUser(name: string, email: string, age: int, now: Timestamp)
      returns (r: Result<User, CreateUserError>)
      requires Valid()
      modifies userRepository, emailService
      ensures Valid()
      ensures ParseEmail(email).Failure? ==> r == Failure(InvalidEmail(ParseEmail(email).error))
      ensures (ParseEmail(email).Success? && FindByEmail(old(userRepository.users), ParseEmail(email).value).Some?)
        ==> r == Failure(DuplicateEmail)
      ensures (&& ParseEmail(email).Success?
               && FindByEmail(old(userRepository.users), ParseEmail(email).value).None?
               && NewUser(None, name, ParseEmail(email).value, age, now).Failure?)
        ==> r == Failure(InvalidUser(NewUser(None, name, ParseEmail(email).value, age, now).error))
      ensures r.Success? <==>
        && ParseEmail(email).Success?
        && FindByEmail(old(userRepository.users), ParseEmail(email).value).None?
        && NewUser(None, name, ParseEmail(email).value, age, now).Success?
      ensures r.Failure? ==> unchanged(userRepository) && emailService.sent == old(emailService.sent)
      ensures r.Success? ==>
        && ParseEmail(email).Success?
        && r.value == UserRecord(Some(old(userRepository.nextId)), name, ParseEmail(email).value, age, now)
        && userRepository.users == old(userRepository.users) + [r.value]
        && userRepository.nextId == old(userRepository.nextId) + 1
        && emailService.sent == old(emailService.sent) + [Welcome(r.value)]
    {
      var parsed := ParseEmail(email);
      if parsed.Failure? {
        return Failure(InvalidEmail(parsed.error));
      }
      var userEmail := parsed.value;
      if userRepository.FindByEmail(userEmail).Some? {
        return Failure(DuplicateEmail);
      }
      var user := NewUser(None, name, userEmail, age, now);
      if user.Failure? {
        return Failure(InvalidUser(user.error));
      }
      assert !EmailTaken(userRepository.users, user.value);
      SaveNewUser(userRepository.users, userRepository.nextId, user.value);
      var savedUser := userRepository.Save(user.value);
      assert savedUser.Success?;
      emailService.SendWelcomeEmail(savedUser.value);
      return Success(savedUser.value);
    }

    /** `getUserById(id)`: what the repository returns. */
    function GetUserById(id: UserId): (r: Option<User>)
      reads this, userRepository
      requires Valid()
      ensures r == FindById(userRepository.users, id)
    {
      userRepository.FindById(id)
    }

    /** `getUserByEmail(email)`: what the repository returns. */
    function GetUserByEmail(email: UserEmail): (r: Option<User>)
      reads this, userRepository
      requires Valid()
      ensures r == FindByEmail(userRepository.users, email)
    {
      userRepository.FindByEmail(email)
    }

    /** `getAllUsers()`: every stored user in insertion order. */
    function GetAllUsers(): (r: seq<User>)
      reads this, userRepository
      requires Valid()
      ensures r == userRepository.users
    {
      userRepository.FindAll()
    }

    /** `deleteUser(id)`: what the repository's `delete` returns and does; no message is sent. */
    method DeleteUser(id: UserId) returns (deleted: bool)
      requires Valid()
      modifies userRepository
      ensures Valid()
      ensures deleted == Exists(old(userRepository.users), id)
      ensures userRepository.users == Remove(old(userRepository.users), id)
      ensures userRepository.nextId == old(userRepository.nextId)
      ensures emailService.sent == old(emailService.sent)
    {
      deleted := userRepository.Delete(id);
    }

    /** `sendPromotionalEmailToEligibleUsers(content)`: one promotional message
        per eligible user, in the order `findAll` lists them; the store is left
        as it was. */
    method SendPromotionalEmailToEligibleUsers(content: string)
      requires Valid()
      modifies emailService
      ensures Valid()
      ensures emailService.sent == old(emailService.sent) + PromotionalBatch(Eligible(userRepository.users), content)
    {
      var eligibleUsers := Eligible(userRepository.FindAll());
      SendEach(emailService, eligibleUsers, content);
    }
  }

  /** The test suite's creation flow: a user is created with an id, welcomed
      and counted as an adult at 25; a second creation with the same email
      fails whatever the name and age, and sends nothing. */
  method DuplicateEmailScenario(email: UserEmail, otherName: string, otherAge: int, now: Timestamp)
    returns (first: Result<User, CreateUserError>, second: Result<User, CreateUserError>, sent: seq<SentEmail>)
    ensures first.Success? && first.value.name == "John Doe" && first.value.id.Some? && IsAdult(first.value)
    ensures second == Failure(DuplicateEmail)
    ensures sent == [Welcome(first.value)]
  {
    var repository := new UserRepositoryAdapter();
    var outbox := new EmailOutbox();
    var service := new UserDomainService(repository, outbox);
    MatchesEmailPatternIffRegex(email.value);
    assert ParseEmail(email.value) == Success(email);
    assert !IsBlank("John Doe") by { assert !IsWhitespace("John Doe"[0]); }
    first := service.CreateUser("John Doe", email.value, 25, now);
    assert repository.users == [first.value];
    assert FindByEmail(repository.users, email).Some? by { assert HasEmail(email.value)(repository.users[0]); }
    second := service.CreateUser(otherName, email.value, otherAge, now);
    sent := outbox.sent;
  }

  /** The test suite's mailing flow: with an adult of 25 and a minor of 16
      stored, the mailing adds exactly one message, a promotion to the adult. */
  method MailingScenario(service: UserDomainService, adult: User, minor: User, content: string)
    requires service.Valid() && service.userRepository.users == [adult, minor]
    requires adult.age == 25 && minor.age == 16
    modifies service.emailService
    ensures service.emailService.sent == old(service.emailService.sent) + [Promotional(adult, content)]
  {
    MailingExample(adult, minor);
    assert PromotionalBatch([adult], content) == [Promotional(adult, content)] by {
      assert [adult][1..] == [];
    }
    service.SendPromotionalEmailToEligibleUsers(content);
  }

  /** The test suite's deletion flow: an unknown identifier deletes nothing; a
      created user's identifier deletes it, after which it is not found. */
  method DeletionScenario(name: string, email: UserEmail, age: int, now: Timestamp, unknown: UserId)
    returns (deletedUnknown: bool, deletedCreated: bool, after: Option<User>)
    requires !IsBlank(name) && MinAge <= age <= MaxAge && unknown != 0
    ensures !deletedUnknown && deletedCreated && after.None?
  {
    var repository := new UserRepositoryAdapter();
    var outbox := new EmailOutbox();
    var service := new UserDomainService(repository, outbox);
    MatchesEmailPatternIffRegex(email.value);
    assert ParseEmail(email.value) == Success(email);
    var created := service.CreateUser(name, email.value, age, now);
    assert repository.users == [created.value] && created.value.id == Some(0);
    var id := created.value.id.value;
    deletedUnknown := service.DeleteUser(unknown);
    deletedCreated := service.DeleteUser(id);
    after := service.GetUserById(id);
  }
}
