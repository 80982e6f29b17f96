/**
 * `UserService`: the operations over the store. A mutation returns the store
 * after the call together with its result; a failed call leaves the store as
 * it was (nothing is written before the check that fails).
 */
module UserService {
  import opened Wrappers
  import opened Seqs
  import opened Users
  import opened Failures
  import Repo = UserRepository

  /** The state after an operation and what the operation returned or threw. */
  datatype Reply<T> = Reply(store: Store, result: Result<T, Failure>)

  // ---------------------------------------------------------------- queries

  /** `getAllUsers`: every row, in storage order. */
  function GetAllUsers(st: Store): (r: seq<User>)
    ensures |r| == |st.rows|
    ensures forall i :: 0 <= i < |r| ==> r[i] == st.rows[i]
  {
    st.rows
  }

  /** `getUserById`: the user with that id, or `UserNotFoundException`. */
  function GetUserById(st: Store, id: Id): (r: Result<User, Failure>)
    ensures r.Success? ==> r.value in st.rows && r.value.id == id
    ensures r.Failure? <==> forall i :: 0 <= i < |st.rows| ==> st.rows[i].id != id
    ensures r.Failure? ==> r.error == UserNotFound(NotFoundMessage(id))
  {
    match Repo.FindById(st.rows, id)
    case None => Failure(UserNotFound(NotFoundMessage(id)))
    case Some(u) => Success(u)
  }

  /** `getUserByEmail`: absence is not a failure. */
  function GetUserByEmail(st: Store, email: Option<string>): (r: Result<Option<User>, Failure>)
    ensures r.Success? && r.value.Some? ==> r.value.value in st.rows && r.value.value.email == email
    ensures r == Success(None) <==> forall i :: 0 <= i < |st.rows| ==> st.rows[i].email != email
  {
    Repo.FindByEmail(st.rows, email)
  }

  /** `searchUsersByName`. */
  function SearchUsersByName(st: Store, fragment: string): (r: seq<User>)
    ensures forall i :: 0 <= i < |r| ==> r[i] in st.rows && Repo.NameContainsIgnoreCase(r[i], fragment)
    ensures forall i :: 0 <= i < |st.rows| && Repo.NameContainsIgnoreCase(st.rows[i], fragment) ==> st.rows[i] in r
  {
    Repo.FindByNameContainingIgnoreCase(st.rows, fragment)
  }

  /** `searchUsers`, with the criteria matched literally (see `Repo.SearchUsersAsWritten`). */
  function SearchUsers(st: Store, name: Option<string>, email: Option<string>, phone: Option<string>): (r: seq<User>)
    ensures forall i :: 0 <= i < |r| ==> r[i] in st.rows && Repo.MatchesSearch(r[i], name, email, phone)
    ensures forall i :: 0 <= i < |st.rows| && Repo.MatchesSearch(st.rows[i], name, email, phone) ==> st.rows[i] in r
  {
    Repo.SearchUsers(st.rows, name, email, phone)
  }

  /** `getUserCount`: the number of users. */
  function GetUserCount(st: Store): (n: nat)
    ensures n == |st.rows|
  {
    Repo.Count(st.rows)
  }

  /** `userExists`: the id is a key of the store. */
  function UserExists(st: Store, id: Id): (b: bool)
    ensures b <==> exists i :: 0 <= i < |st.rows| && st.rows[i].id == id
  {
    Repo.ExistsById(st.rows, id)
  }

  /** `emailExists`: some user has exactly this email. */
  function EmailExists(st: Store, email: Option<string>): (b: bool)
    ensures b <==> exists i :: 0 <= i < |st.rows| && st.rows[i].email == email
  {
    Repo.ExistsByEmail(st.rows, email)
  }

  // ---------------------------------------------------------------- create

  /**
   * `createUser`: rejects an email some user already has; otherwise inserts
   * the input's fields under the next id of the identity sequence.
   */
  function CreateUser(st: Store, input: UserInput): (r: Reply<User>)
    ensures EmailExists(st, input.email) ==>
      r == Reply(st, Failure(DuplicateEmail(DuplicateMessage(input.email))))
    ensures !EmailExists(st, input.email) ==>
      && r.result.Success?
      && var u := r.result.value;
      && u.name == input.name && u.email == input.email
      && u.phone == input.phone && u.address == input.address
      && u.id == st.nextId
      && r.store.rows == st.rows + [u]
      && r.store.nextId > st.nextId
  {
    if Repo.ExistsByEmail(st.rows, input.email) then
      Reply(st, Failure(DuplicateEmail(DuplicateMessage(input.email))))
    else
      var u := FromInput(st.nextId, input);
      Reply(Store(st.rows + [u], st.nextId + 1), Success(u))
  }

  /** A created user gets an id no existing user has, the count grows by one, and nobody else changes. */
  lemma CreateAddsExactlyOne(st: Store, input: UserInput)
    requires Valid(st)
    requires CreateUser(st, input).result.Success?
    ensures var r := CreateUser(st, input);
      && (forall i :: 0 <= i < |st.rows| ==> st.rows[i].id != r.result.value.id)
      && GetUserCount(r.store) == GetUserCount(st) + 1
      && (forall i :: 0 <= i < |st.rows| ==> r.store.rows[i] == st.rows[i])
  {
  }

  lemma CreatePreservesValid(st: Store, input: UserInput)
    requires Valid(st)
    ensures Valid(CreateUser(st, input).store)
  {
    var r := CreateUser(st, input);
    if r.result.Success? {
      var rows := r.store.rows;
      var u := r.result.value;
      forall i, j | 0 <= i < j < |rows| ensures rows[i].id != rows[j].id && rows[i].email != rows[j].email {
        if j == |st.rows| {
          assert rows[i] == st.rows[i] && rows[j] == u;
        } else {
          assert rows[i] == st.rows[i] && rows[j] == st.rows[j];
          assert IdOf(st.rows[i]) != IdOf(st.rows[j]);
          assert EmailOf(st.rows[i]) != EmailOf(st.rows[j]);
        }
      }
    }
  }

  // ---------------------------------------------------------------- update

  /** The table after `save` merged `u` into the row with key `u.id`. */
  function Replace(rows: seq<User>, u: User): (r: seq<User>)
    ensures |r| == |rows|
    ensures forall i :: 0 <= i < |rows| ==> r[i] == (if rows[i].id == u.id then u else rows[i])
  {
    if |rows| == 0 then []
    else [if rows[0].id == u.id then u else rows[0]] + Replace(rows[1..], u)
  }

  /**
   * `updateUser`: the user must exist; the uniqueness check runs only when
   * the email changes; then all four fields are overwritten, nulls included.
   * A null stored email makes `getEmail().equals(..)` throw.
   */
  function UpdateUser(st: Store, id: Id, input: UserInput): (r: Reply<User>)
    ensures r.result.Failure? ==> r.store == st
    ensures (forall i :: 0 <= i < |st.rows| ==> st.rows[i].id != id) ==>
      r.result == Failure(UserNotFound(NotFoundMessage(id)))
    ensures r.result.Success? ==>
      && r.result.value == User(id, input.name, input.email, input.phone, input.address)
      && r.store.nextId == st.nextId
      && |r.store.rows| == |st.rows|
      && forall i :: 0 <= i < |st.rows| ==>
           r.store.rows[i] == (if st.rows[i].id == id then r.result.value else st.rows[i])
    ensures r.result.Failure? && r.result.error.DuplicateEmail? ==>
      && r.result.error == DuplicateEmail(DuplicateMessage(input.email))
      && GetUserById(st, id).Success? && GetUserById(st, id).value.email != input.email
      && exists i :: 0 <= i < |st.rows| && st.rows[i].email == input.email
  {
    match GetUserById(st, id)
    case Failure(e) => Reply(st, Failure(e))
    case Success(existing) =>
      if existing.email.None? then
        Reply(st, Failure(Unexpected("NullPointerException")))
      else if existing.email != input.email && Repo.ExistsByEmail(st.rows, input.email) then
        Reply(st, Failure(DuplicateEmail(DuplicateMessage(input.email))))
      else
        var u := FromInput(id, input);
        Reply(Store(Replace(st.rows, u), st.nextId), Success(u))
  }

  /** Keeping the stored email never triggers the uniqueness check, whoever else exists. */
  lemma UpdateSameEmailNeverDuplicate(st: Store, id: Id, input: UserInput, u: User)
    requires UniqueIds(st.rows)
    requires u in st.rows && u.id == id && u.email.Some? && input.email == u.email
    ensures UpdateUser(st, id, input).result.Success?
  {
    Repo.FindByIdUnique(st.rows, id, u);
  }

  /**
   * For an existing user with a non-null email, the update succeeds exactly
   * when the email is kept or nobody has the new one; otherwise it is a duplicate.
   */
  lemma UpdateOutcome(st: Store, id: Id, input: UserInput, u: User)
    requires UniqueIds(st.rows)
    requires u in st.rows && u.id == id && u.email.Some?
    ensures var r := UpdateUser(st, id, input);
      && (r.result.Success? <==> u.email == input.email || !EmailExists(st, input.email))
      && (!r.result.Success? ==> r.result == Failure(DuplicateEmail(DuplicateMessage(input.email))))
  {
    Repo.FindByIdUnique(st.rows, id, u);
  }

  /** With every stored email non-null, an update fails only as not-found or as a duplicate. */
  lemma UpdateFailsOnlyAsReported(st: Store, id: Id, input: UserInput)
    requires forall i :: 0 <= i < |st.rows| ==> st.rows[i].email.Some?
    ensures var r := UpdateUser(st, id, input);
      r.result.Failure? ==> r.result.error.UserNotFound? || r.result.error.DuplicateEmail?
  {
    match GetUserById(st, id)
    case Failure(_) =>
    case Success(existing) =>
      var k :| 0 <= k < |st.rows| && st.rows[k] == existing;
      assert existing.email.Some?;
  }

  lemma UpdatePreservesValid(st: Store, id: Id, input: UserInput)
    requires Valid(st)
    ensures Valid(UpdateUser(st, id, input).store)
  {
    match GetUserById(st, id)
    case Failure(_) =>
    case Success(existing) =>
      if existing.email.Some? && !(existing.email != input.email && Repo.ExistsByEmail(st.rows, input.email)) {
        var u := FromInput(id, input);
        var k :| 0 <= k < |st.rows| && st.rows[k] == existing;
        assert UpdateUser(st, id, input).store == Store(Replace(st.rows, u), st.nextId);
        ReplacePreservesValid(st, k, u);
      }
  }

  /** Merging into row `k` keeps the invariant when the email is unchanged or held by nobody. */
  lemma ReplacePreservesValid(st: Store, k: int, u: User)
    requires Valid(st)
    requires 0 <= k < |st.rows| && st.rows[k].id == u.id
    requires u.email == st.rows[k].email || forall i :: 0 <= i < |st.rows| ==> st.rows[i].email != u.email
    ensures Valid(Store(Replace(st.rows, u), st.nextId))
  {
    var st' := Store(Replace(st.rows, u), st.nextId);
    ReplaceKeepsIds(st.rows, u);
    ReplaceKeepsEmailsUnique(st.rows, k, u);
    forall i | 0 <= i < |st'.rows| ensures st'.rows[i].id < st'.nextId {
      assert st'.rows[i].id == st.rows[i].id;
    }
  }

  /** Merging a user into its own row keeps every row's id, so ids stay a key. */
  lemma ReplaceKeepsIds(rows: seq<User>, u: User)
    requires UniqueIds(rows)
    ensures UniqueIds(Replace(rows, u))
  {
    var rows' := Replace(rows, u);
    forall i, j | 0 <= i < j < |rows'| ensures IdOf(rows'[i]) != IdOf(rows'[j]) {
      assert IdOf(rows'[i]) == IdOf(rows[i]) && IdOf(rows'[j]) == IdOf(rows[j]);
    }
  }

  /** Merging into row `k` keeps emails unique when the email is unchanged or held by nobody. */
  lemma ReplaceKeepsEmailsUnique(rows: seq<User>, k: int, u: User)
    requires UniqueIds(rows) && UniqueEmails(rows)
    requires 0 <= k < |rows| && rows[k].id == u.id
    requires u.email == rows[k].email || forall i :: 0 <= i < |rows| ==> rows[i].email != u.email
    ensures UniqueEmails(Replace(rows, u))
  {
    var rows' := Replace(rows, u);
    forall i, j | 0 <= i < j < |rows'| ensures EmailOf(rows'[i]) != EmailOf(rows'[j]) {
      assert EmailOf(rows[i]) != EmailOf(rows[j]);
      if rows[i].id == u.id {
        InjectiveSameKey(rows, IdOf, i, k);
      }
      if rows[j].id == u.id {
        InjectiveSameKey(rows, IdOf, j, k);
      }
    }
  }

  // ---------------------------------------------------------------- delete

  /** `deleteUser`: the user must exist; then its row is removed and the call returns true. */
  function DeleteUser(st: Store, id: Id): (r: Reply<bool>)
    ensures !UserExists(st, id) ==> r == Reply(st, Failure(UserNotFound(NotFoundMessage(id))))
    ensures UserExists(st, id) ==>
      && r.result == Success(true)
      && r.store.nextId == st.nextId
      && (forall i :: 0 <= i < |r.store.rows| ==> r.store.rows[i] in st.rows && r.store.rows[i].id != id)
      && (forall i :: 0 <= i < |st.rows| && st.rows[i].id != id ==> st.rows[i] in r.store.rows)
  {
    if !Repo.ExistsById(st.rows, id) then
      Reply(st, Failure(UserNotFound(NotFoundMessage(id))))
    else
      Reply(Store(Filter(st.rows, (u: User) => u.id != id), st.nextId), Success(true))
  }

  lemma DeletePreservesValid(st: Store, id: Id)
    requires Valid(st)
    ensures Valid(DeleteUser(st, id).store)
  {
    FilterInjective(st.rows, (u: User) => u.id != id, IdOf);
    FilterInjective(st.rows, (u: User) => u.id != id, EmailOf);
  }

  /** Deleting an existing user removes exactly one row. */
  lemma DeleteRemovesOne(st: Store, id: Id)
    requires Valid(st) && UserExists(st, id)
    ensures GetUserCount(DeleteUser(st, id).store) == GetUserCount(st) - 1
    ensures !UserExists(DeleteUser(st, id).store, id)
  {
    FilterDropsOneKey(st.rows, IdOf, id, (u: User) => u.id != id);
  }
}
