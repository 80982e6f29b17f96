/**
 * The `User` entity, the `UserInput` payload and the store that holds the
 * users. Every string field is a nullable Java `String`, so `Option<string>`.
 */
module Users {
  import opened Wrappers
  import opened Seqs

  /** A `Long` primary key. */
  type Id = int

  datatype User = User(id: Id, name: Option<string>, email: Option<string>, phone: Option<string>, address: Option<string>)

  /** The four mutable fields of a create or update request, not yet validated. */
  datatype UserInput = UserInput(name: Option<string>, email: Option<string>, phone: Option<string>, address: Option<string>)

  /**
   * The table behind the repository: its rows in storage order, and the next
   * value of the identity sequence that assigns ids on insert.
   */
  datatype Store = Store(rows: seq<User>, nextId: Id)

  /** An empty table whose identity sequence starts at 1. */
  const Empty: Store := Store([], 1)

  function IdOf(u: User): Id {
    u.id
  }

  function EmailOf(u: User): Option<string> {
    u.email
  }

  /** The user with key `id` carrying the input's four fields. */
  function FromInput(id: Id, input: UserInput): User {
    User(id, input.name, input.email, input.phone, input.address)
  }

  /** Every stored id was issued by the identity sequence, so the next one is fresh. */
  predicate IdsIssued(st: Store) {
    forall i :: 0 <= i < |st.rows| ==> st.rows[i].id < st.nextId
  }

  /** Ids are a primary key. */
  predicate UniqueIds(rows: seq<User>) {
    InjectiveOn(rows, IdOf)
  }

  /** The business invariant: no two users share an email. */
  predicate UniqueEmails(rows: seq<User>) {
    InjectiveOn(rows, EmailOf)
  }

  /** The store invariant every mutation preserves. */
  predicate Valid(st: Store) {
    IdsIssued(st) && UniqueIds(st.rows) && UniqueEmails(st.rows)
  }

  lemma EmptyValid()
    ensures Valid(Empty)
  {
  }
}
