/**
 * Properties of sequences of service calls: what a caller observes after a
 * create, an update or a delete.
 */
module Lifecycle {
  import opened Wrappers
  import opened Seqs
  import opened Users
  import opened Failures
  import opened UserService
  import Repo = UserRepository

  /** A user read back by the id `createUser` returned has the input's field values. */
  lemma CreateThenGet(st: Store, input: UserInput)
    requires Valid(st)
    requires CreateUser(st, input).result.Success?
    ensures var r := CreateUser(st, input);
      var u := r.result.value;
      && GetUserById(r.store, u.id) == Success(u)
      && u == FromInput(u.id, input)
  {
    var r := CreateUser(st, input);
    CreatePreservesValid(st, input);
    Repo.FindByIdUnique(r.store.rows, r.result.value.id, r.result.value);
  }

  /** After an update, reading the id back gives the input's field values under the same id. */
  lemma UpdateThenGet(st: Store, id: Id, input: UserInput)
    requires Valid(st)
    requires UpdateUser(st, id, input).result.Success?
    ensures var r := UpdateUser(st, id, input);
      GetUserById(r.store, id) == Success(FromInput(id, input))
  {
    var r := UpdateUser(st, id, input);
    UpdatePreservesValid(st, id, input);
    var existing := Repo.FindById(st.rows, id).value;
    var k :| 0 <= k < |st.rows| && st.rows[k] == existing;
    assert r.store.rows[k] == FromInput(id, input);
    Repo.FindByIdUnique(r.store.rows, id, FromInput(id, input));
  }

  /** The email of a created user exists right after the creation. */
  lemma EmailExistsAfterCreate(st: Store, input: UserInput)
    requires CreateUser(st, input).result.Success?
    ensures EmailExists(CreateUser(st, input).store, input.email)
  {
    var r := CreateUser(st, input);
    assert r.store.rows[|st.rows|].email == input.email;
  }

  /** Once a user is deleted, nobody has its email any more. */
  lemma EmailGoneAfterDelete(st: Store, u: User)
    requires Valid(st) && u in st.rows
    ensures !EmailExists(DeleteUser(st, u.id).store, u.email)
  {
    var rows := DeleteUser(st, u.id).store.rows;
    var k :| 0 <= k < |st.rows| && st.rows[k] == u;
    forall i | 0 <= i < |rows| ensures rows[i].email != u.email {
      var j :| 0 <= j < |st.rows| && st.rows[j] == rows[i];
      if rows[i].email == u.email {
        InjectiveSameKey(st.rows, EmailOf, j, k);
      }
    }
  }

  /**
   * Creating the same email twice: the second call is rejected and writes nothing,
   * so the count grows by one when the email was new and not at all otherwise.
   */
  lemma SecondCreateIsDuplicate(st: Store, input: UserInput, again: UserInput)
    requires again.email == input.email
    ensures var r1 := CreateUser(st, input);
      var r2 := CreateUser(r1.store, again);
      && r2.result == Failure(DuplicateEmail(DuplicateMessage(input.email)))
      && r2.store == r1.store
      && (!EmailExists(st, input.email) ==> GetUserCount(r2.store) == GetUserCount(st) + 1)
      && (EmailExists(st, input.email) ==> r2.store == st)
  {
    var r1 := CreateUser(st, input);
    if r1.result.Success? {
      assert r1.store.rows[|st.rows|].email == input.email;
    }
  }

  /** Deleting twice: the first call returns true, the second finds nothing. */
  lemma DeleteTwice(st: Store, id: Id)
    requires Valid(st) && UserExists(st, id)
    ensures DeleteUser(st, id).result == Success(true)
    ensures var st' := DeleteUser(st, id).store;
      DeleteUser(st', id) == Reply(st', Failure(UserNotFound(NotFoundMessage(id))))
  {
    DeleteRemovesOne(st, id);
  }
}
