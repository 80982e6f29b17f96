/**
 * The mutations as a caller reaches them: the `@Valid` input is checked
 * before the service runs, and every failure is turned into one error by the
 * exception handler. Email syntax (`@Email`) is the parameter `wellFormed`.
 */
module Controller {
  import opened Wrappers
  import opened Text
  import opened Users
  import opened Failures
  import opened Validation
  import opened ExceptionHandler
  import opened UserService
  import Repo = UserRepository

  /** The outcome of one GraphQL field: its data, or the single error it resolved to. */
  datatype Response<T> = Data(value: T) | Error(error: GraphQLError)

  /** A call answers with its value and no error, or with the one error its failure resolves to. */
  function Respond<T>(r: Result<T, Failure>): (resp: Response<T>)
    ensures resp.Data? <==> r.Success?
    ensures resp.Data? ==> resp.value == r.value
    ensures resp.Error? ==> resp.error == ResolveToSingleError(r.error)
  {
    match r
    case Success(v) => Data(v)
    case Failure(f) => Error(ResolveToSingleError(f))
  }

  /** The `ConstraintViolationException` method validation throws for a violation set. */
  function ValidationFailure(vs: set<Violation>): (f: Failure)
    ensures f.ConstraintViolation? && |f.messages| == |Ordered(vs)|
    ensures forall v :: v in vs <==> Message(v) in f.messages
  {
    MessagesOfOrdered(vs);
    ConstraintViolation(Messages(Ordered(vs)))
  }

  lemma MessagesOfOrdered(vs: set<Violation>)
    ensures forall v :: v in vs <==> Message(v) in Messages(Ordered(vs))
  {
    forall v ensures v in vs <==> Message(v) in Messages(Ordered(vs)) {
      if v in vs {
        OrderedMessageListed(vs, v);
      }
      if Message(v) in Messages(Ordered(vs)) {
        ListedMessageOrdered(vs, v);
      }
    }
  }

  lemma OrderedMessageListed(vs: set<Violation>, v: Violation)
    requires v in vs
    ensures Message(v) in Messages(Ordered(vs))
  {
    var ordered := Ordered(vs);
    var i :| 0 <= i < |ordered| && ordered[i] == v;
    assert Messages(ordered)[i] == Message(v);
  }

  lemma ListedMessageOrdered(vs: set<Violation>, v: Violation)
    requires Message(v) in Messages(Ordered(vs))
    ensures v in vs
  {
    var ordered := Ordered(vs);
    var ms := Messages(ordered);
    var i :| 0 <= i < |ms| && ms[i] == Message(v);
    MessageInjective(ordered[i], v);
    assert ordered[i] == v;
  }

  /** `createUser(@Valid input)`: validation first, then the service. */
  function CreateUser(st: Store, input: UserInput, wellFormed: string -> bool): (r: Reply<User>)
    ensures Violations(input, wellFormed) != {} ==>
      r == Reply(st, Failure(ValidationFailure(Violations(input, wellFormed))))
    ensures Violations(input, wellFormed) == {} ==> r == UserService.CreateUser(st, input)
  {
    var vs := Violations(input, wellFormed);
    if vs != {} then Reply(st, Failure(ValidationFailure(vs))) else UserService.CreateUser(st, input)
  }

  /** `updateUser(id, @Valid input)`: validation first, then the service. */
  function UpdateUser(st: Store, id: Id, input: UserInput, wellFormed: string -> bool): (r: Reply<User>)
    ensures Violations(input, wellFormed) != {} ==>
      r == Reply(st, Failure(ValidationFailure(Violations(input, wellFormed))))
    ensures Violations(input, wellFormed) == {} ==> r == UserService.UpdateUser(st, id, input)
  {
    var vs := Violations(input, wellFormed);
    if vs != {} then Reply(st, Failure(ValidationFailure(vs))) else UserService.UpdateUser(st, id, input)
  }

  // ---------------------------------------------------------------- the invariant validation maintains

  function InputOf(u: User): UserInput {
    UserInput(u.name, u.email, u.phone, u.address)
  }

  /** A valid store whose every user passed validation. */
  predicate Admissible(st: Store, wellFormed: string -> bool) {
    Valid(st) && forall i :: 0 <= i < |st.rows| ==> Violations(InputOf(st.rows[i]), wellFormed) == {}
  }

  lemma CreateKeepsAdmissible(st: Store, input: UserInput, wellFormed: string -> bool)
    requires Admissible(st, wellFormed)
    ensures Admissible(CreateUser(st, input, wellFormed).store, wellFormed)
  {
    CreatePreservesValid(st, input);
    var r := CreateUser(st, input, wellFormed);
    if r.result.Success? {
      assert InputOf(r.store.rows[|st.rows|]) == input;
    }
  }

  lemma UpdateKeepsAdmissible(st: Store, id: Id, input: UserInput, wellFormed: string -> bool)
    requires Admissible(st, wellFormed)
    ensures Admissible(UpdateUser(st, id, input, wellFormed).store, wellFormed)
  {
    UpdatePreservesValid(st, id, input);
    var r := UpdateUser(st, id, input, wellFormed);
    if r.result.Success? {
      forall i | 0 <= i < |r.store.rows| ensures Violations(InputOf(r.store.rows[i]), wellFormed) == {} {
        if st.rows[i].id == id {
          assert InputOf(r.store.rows[i]) == input;
        } else {
          assert r.store.rows[i] == st.rows[i];
        }
      }
    }
  }

  lemma DeleteKeepsAdmissible(st: Store, id: Id, wellFormed: string -> bool)
    requires Admissible(st, wellFormed)
    ensures Admissible(DeleteUser(st, id).store, wellFormed)
  {
    DeletePreservesValid(st, id);
  }

  /**
   * In an admissible store every email is non-null, so the `equals` call in
   * `updateUser` never throws and an update only fails as not-found, duplicate
   * or invalid, each reported to the caller, never as an internal error.
   */
  lemma UpdateNeverInternal(st: Store, id: Id, input: UserInput, wellFormed: string -> bool)
    requires Admissible(st, wellFormed)
    ensures var r := UpdateUser(st, id, input, wellFormed);
      r.result.Failure? ==> Respond(r.result).error.errorType != InternalError
  {
    var r := UpdateUser(st, id, input, wellFormed);
    if Violations(input, wellFormed) == {} {
      forall i | 0 <= i < |st.rows| ensures st.rows[i].email.Some? {
        NoViolationsEmailPresent(InputOf(st.rows[i]), wellFormed);
      }
      UpdateFailsOnlyAsReported(st, id, input);
    }
    if r.result.Failure? {
      InternalOnlyForUnexpected(r.result.error);
    }
  }

  /** An invalid input is answered with one bad-request error listing each violated constraint, and nothing is written. */
  lemma InvalidInputRejected(st: Store, input: UserInput, wellFormed: string -> bool)
    requires Violations(input, wellFormed) != {}
    ensures var r := CreateUser(st, input, wellFormed);
      && r.store == st
      && r.result == Failure(ConstraintViolation(Messages(Ordered(Violations(input, wellFormed)))))
      && var e := ResolveToSingleError(r.result.error);
      && e.errorType == BadRequest
      && IsPrefix(ValidationPrefix, e.message)
      && SplitMessages(e.message[|ValidationPrefix|..]) == Some(Messages(Ordered(Violations(input, wellFormed))))
  {
    var vs := Violations(input, wellFormed);
    var ms := Messages(Ordered(vs));
    assert ValidationFailure(vs) == ConstraintViolation(ms);
    assert CreateUser(st, input, wellFormed) == Reply(st, Failure(ConstraintViolation(ms)));
    OrderedMessagesSemicolonless(vs);
    ValidationErrorLists(ms);
  }

  lemma OrderedMessagesSemicolonless(vs: set<Violation>)
    ensures forall i :: 0 <= i < |Messages(Ordered(vs))| ==> Semicolonless(Messages(Ordered(vs))[i])
  {
    var ordered := Ordered(vs);
    forall i | 0 <= i < |ordered| ensures Semicolonless(Messages(ordered)[i]) {
      MessagesHaveNoSemicolon(ordered[i]);
    }
  }

  // ---------------------------------------------------------------- scenarios

  /** The one-user table the scenarios start from. */
  const Seeded: Store := Store([User(1, Some("Test User"), Some("test@example.com"), Some("+1234567890"), Some("123 Test St"))], 2)

  /** The input the duplicate-email scenario submits passes validation. */
  lemma DuplicateInputValid(wellFormed: string -> bool)
    requires wellFormed("test@example.com")
    ensures Violations(UserInput(Some("Duplicate User"), Some("test@example.com"), Some("+9999999999"), None), wellFormed) == {}
  {
    var input := UserInput(Some("Duplicate User"), Some("test@example.com"), Some("+9999999999"), None);
    assert !IsTrimmed("Duplicate User"[0]);
    assert !IsTrimmed("test@example.com"[0]);
    assert NotBlank(input.name) && NotBlank(input.email);
    assert SizeWithin(input.name, NameMin, NameMax);
    assert SizeWithin(input.phone, 0, PhoneMax);
    forall v ensures Holds(v, input, wellFormed) {
    }
    AllHoldNoViolations(input, wellFormed);
  }

  /** Creating a user with the seeded user's email fails with a bad request naming the email. */
  lemma DuplicateEmailScenario(wellFormed: string -> bool)
    requires wellFormed("test@example.com")
    ensures var input := UserInput(Some("Duplicate User"), Some("test@example.com"), Some("+9999999999"), None);
      var r := CreateUser(Seeded, input, wellFormed);
      && r.store == Seeded
      && Respond(r.result) == Error(GraphQLError(BadRequest, "Email already exists: test@example.com"))
  {
    var input := UserInput(Some("Duplicate User"), Some("test@example.com"), Some("+9999999999"), None);
    DuplicateInputValid(wellFormed);
    SeededEmailTaken(input);
    SeededDuplicateMessage();
  }

  lemma SeededDuplicateMessage()
    ensures DuplicateMessage(Some("test@example.com")) == "Email already exists: test@example.com"
  {
    assert DuplicatePrefix + "test@example.com" == "Email already exists: test@example.com";
  }

  /** The service refuses any input that reuses the seeded user's email. */
  lemma SeededEmailTaken(input: UserInput)
    requires input.email == Some("test@example.com")
    ensures UserService.CreateUser(Seeded, input) == Reply(Seeded, Failure(DuplicateEmail(DuplicateMessage(input.email))))
  {
    assert Seeded.rows[0].email == input.email;
  }

  /** Asking for an id nobody has yields a not-found error naming the id. */
  lemma NotFoundScenario()
    ensures Respond(GetUserById(Seeded, 999)) == Error(GraphQLError(NotFound, "User not found with id: 999"))
  {
    assert NatToDecimal(9) == "9";
    assert NatToDecimal(99) == "99";
    assert NatToDecimal(999) == "999";
  }
}
