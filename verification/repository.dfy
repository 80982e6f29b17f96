/**
 * The queries of `UserRepository`, written as explicit filters over the rows
 * of the table. Results keep storage order.
 */
module UserRepository {
  import opened Wrappers
  import opened Text
  import opened SqlLike
  import opened Seqs
  import opened Users
  import opened Failures

  // ---------------------------------------------------------------- keys

  /** `findById`: the row with primary key `id`, if any. */
  function FindById(rows: seq<User>, id: Id): (r: Option<User>)
    ensures r.Some? ==> r.value in rows && r.value.id == id
    ensures r.None? <==> forall i :: 0 <= i < |rows| ==> rows[i].id != id
  {
    var m := Filter(rows, (u: User) => u.id == id);
    if |m| == 0 then None else Some(m[0])
  }

  /** `existsById`. */
  function ExistsById(rows: seq<User>, id: Id): (b: bool)
    ensures b <==> exists i :: 0 <= i < |rows| && rows[i].id == id
  {
    FindById(rows, id).Some?
  }

  /** Under a primary key, the row found for `id` is the only row with that id. */
  lemma FindByIdUnique(rows: seq<User>, id: Id, u: User)
    requires UniqueIds(rows)
    ensures FindById(rows, id) == Some(u) <==> u in rows && u.id == id
  {
    if u in rows && u.id == id {
      var w := FindById(rows, id).value;
      var i :| 0 <= i < |rows| && rows[i] == u;
      var j :| 0 <= j < |rows| && rows[j] == w;
      InjectiveSameKey(rows, IdOf, i, j);
    }
  }

  // ---------------------------------------------------------------- email

  /** `existsByEmail`: some row has exactly this email; a null argument asks for a null email. */
  function ExistsByEmail(rows: seq<User>, email: Option<string>): (b: bool)
    ensures b <==> exists i :: 0 <= i < |rows| && rows[i].email == email
  {
    var m := Filter(rows, (u: User) => u.email == email);
    assert (exists i :: 0 <= i < |rows| && rows[i].email == email) ==> |m| > 0 by {
      if exists i :: 0 <= i < |rows| && rows[i].email == email {
        var i :| 0 <= i < |rows| && rows[i].email == email;
        assert rows[i] in m;
      }
    }
    assert |m| > 0 ==> exists i :: 0 <= i < |rows| && rows[i].email == email by {
      if |m| > 0 {
        var i :| 0 <= i < |rows| && rows[i] == m[0];
      }
    }
    |m| > 0
  }

  /**
   * `findByEmail`: empty when no row matches, the row when one does; Spring
   * Data throws when a single-result query finds more than one row.
   */
  function FindByEmail(rows: seq<User>, email: Option<string>): (r: Result<Option<User>, Failure>)
    ensures r.Success? && r.value.Some? ==> r.value.value in rows && r.value.value.email == email
    ensures r == Success(None) <==> forall i :: 0 <= i < |rows| ==> rows[i].email != email
  {
    var m := Filter(rows, (u: User) => u.email == email);
    if |m| == 0 then Success(None)
    else if |m| == 1 then Success(Some(m[0]))
    else Failure(Unexpected("query did not return a unique result: " + DecimalString(|m|)))
  }

  /** Under the uniqueness invariant `findByEmail` never fails and finds a row exactly when `existsByEmail` holds. */
  lemma FindByEmailAgreesWithExists(rows: seq<User>, email: Option<string>)
    requires UniqueEmails(rows)
    ensures FindByEmail(rows, email).Success?
    ensures FindByEmail(rows, email).value.Some? <==> ExistsByEmail(rows, email)
  {
    FilterKeyAtMostOne(rows, EmailOf, email, (u: User) => u.email == email);
  }

  // ---------------------------------------------------------------- name and phone

  /** The name contains `fragment`, ignoring case; a null name contains nothing. */
  predicate NameContainsIgnoreCase(u: User, fragment: string) {
    u.name.Some? && Contains(Lower(u.name.value), Lower(fragment))
  }

  /**
   * `findByNameContainingIgnoreCase`: a derived query, whose `LIKE` argument
   * Spring Data escapes, so the fragment is matched literally.
   */
  function FindByNameContainingIgnoreCase(rows: seq<User>, fragment: string): (r: seq<User>)
    ensures forall i :: 0 <= i < |r| ==> r[i] in rows && NameContainsIgnoreCase(r[i], fragment)
    ensures forall i :: 0 <= i < |rows| && NameContainsIgnoreCase(rows[i], fragment) ==> rows[i] in r
  {
    Filter(rows, (u: User) => NameContainsIgnoreCase(u, fragment))
  }

  /** The empty fragment matches every user that has a name. */
  lemma EmptyFragmentMatchesAll(rows: seq<User>)
    requires forall i :: 0 <= i < |rows| ==> rows[i].name.Some?
    ensures FindByNameContainingIgnoreCase(rows, "") == rows
  {
    FilterAll(rows, (u: User) => NameContainsIgnoreCase(u, ""));
  }

  /** `findByPhone`: exactly the rows whose phone equals `phone`. */
  function FindByPhone(rows: seq<User>, phone: Option<string>): (r: seq<User>)
    ensures forall i :: 0 <= i < |r| ==> r[i] in rows && r[i].phone == phone
    ensures forall i :: 0 <= i < |rows| && rows[i].phone == phone ==> rows[i] in r
  {
    Filter(rows, (u: User) => u.phone == phone)
  }

  // ---------------------------------------------------------------- multi-criteria search

  /** A field matches a criterion; null criteria are not applied, a null field matches no criterion. */
  predicate Criterion(field: Option<string>, criterion: Option<string>, ignoreCase: bool) {
    criterion.None? ||
    (field.Some? &&
     if ignoreCase then Contains(Lower(field.value), Lower(criterion.value))
     else Contains(field.value, criterion.value))
  }

  /** The search predicate: name and email ignore case, phone does not. */
  predicate MatchesSearch(u: User, name: Option<string>, email: Option<string>, phone: Option<string>) {
    Criterion(u.name, name, true) && Criterion(u.email, email, true) && Criterion(u.phone, phone, false)
  }

  /**
   * `searchUsers` with every criterion matched as a literal substring: the
   * behaviour the query's `'%' + criterion + '%'` pattern is meant to have.
   */
  function SearchUsers(rows: seq<User>, name: Option<string>, email: Option<string>, phone: Option<string>): (r: seq<User>)
    ensures forall i :: 0 <= i < |r| ==> r[i] in rows
    ensures forall u :: u in r ==>
      && (name.None? || (u.name.Some? && Contains(Lower(u.name.value), Lower(name.value))))
      && (email.None? || (u.email.Some? && Contains(Lower(u.email.value), Lower(email.value))))
      && (phone.None? || (u.phone.Some? && Contains(u.phone.value, phone.value)))
    ensures forall i :: 0 <= i < |rows| && MatchesSearch(rows[i], name, email, phone) ==> rows[i] in r
  {
    Filter(rows, (u: User) => MatchesSearch(u, name, email, phone))
  }

  /** With no criterion at all, the search returns every user. */
  lemma SearchWithoutCriteriaIsAll(rows: seq<User>)
    ensures SearchUsers(rows, None, None, None) == rows
  {
    FilterAll(rows, (u: User) => MatchesSearch(u, None, None, None));
  }

  /** Adding a name criterion filters the previous result further. */
  lemma SearchNarrowsByName(rows: seq<User>, name: string, email: Option<string>, phone: Option<string>)
    ensures SearchUsers(rows, Some(name), email, phone)
         == Filter(SearchUsers(rows, None, email, phone), (u: User) => Criterion(u.name, Some(name), true))
    ensures |SearchUsers(rows, Some(name), email, phone)| <= |SearchUsers(rows, None, email, phone)|
  {
    FilterConj(rows, (u: User) => MatchesSearch(u, Some(name), email, phone),
      (u: User) => MatchesSearch(u, None, email, phone), (u: User) => Criterion(u.name, Some(name), true));
  }

  /** Adding an email criterion filters the previous result further. */
  lemma SearchNarrowsByEmail(rows: seq<User>, name: Option<string>, email: string, phone: Option<string>)
    ensures SearchUsers(rows, name, Some(email), phone)
         == Filter(SearchUsers(rows, name, None, phone), (u: User) => Criterion(u.email, Some(email), true))
    ensures |SearchUsers(rows, name, Some(email), phone)| <= |SearchUsers(rows, name, None, phone)|
  {
    FilterConj(rows, (u: User) => MatchesSearch(u, name, Some(email), phone),
      (u: User) => MatchesSearch(u, name, None, phone), (u: User) => Criterion(u.email, Some(email), true));
  }

  /** Adding a phone criterion filters the previous result further. */
  lemma SearchNarrowsByPhone(rows: seq<User>, name: Option<string>, email: Option<string>, phone: string)
    ensures SearchUsers(rows, name, email, Some(phone))
         == Filter(SearchUsers(rows, name, email, None), (u: User) => Criterion(u.phone, Some(phone), false))
    ensures |SearchUsers(rows, name, email, Some(phone))| <= |SearchUsers(rows, name, email, None)|
  {
    FilterConj(rows, (u: User) => MatchesSearch(u, name, email, Some(phone)),
      (u: User) => MatchesSearch(u, name, email, None), (u: User) => Criterion(u.phone, Some(phone), false));
  }

  /** Searching by name alone selects what `findByNameContainingIgnoreCase` selects. */
  lemma SearchByNameAgrees(rows: seq<User>, fragment: string)
    ensures FindByNameContainingIgnoreCase(rows, fragment) == SearchUsers(rows, Some(fragment), None, None)
  {
    FilterExt(rows, (u: User) => NameContainsIgnoreCase(u, fragment),
      (u: User) => MatchesSearch(u, Some(fragment), None, None));
  }

  // ---------------------------------------------------------------- the queries as written

  /** One clause of the `@Query`: `:c IS NULL OR [LOWER](field) LIKE [LOWER](CONCAT('%', :c, '%'))`. */
  predicate LikeClause(field: Option<string>, criterion: Option<string>, ignoreCase: bool) {
    criterion.None? ||
    (field.Some? &&
     if ignoreCase then Like(Lower(field.value), Lower(Infix(criterion.value)))
     else Like(field.value, Infix(criterion.value)))
  }

  predicate MatchesSearchAsWritten(u: User, name: Option<string>, email: Option<string>, phone: Option<string>) {
    LikeClause(u.name, name, true) && LikeClause(u.email, email, true) && LikeClause(u.phone, phone, false)
  }

  /** `searchUsers` as its JPQL reads: the criteria are `LIKE` patterns, unescaped. */
  function SearchUsersAsWritten(rows: seq<User>, name: Option<string>, email: Option<string>, phone: Option<string>): (r: seq<User>)
    ensures forall i :: 0 <= i < |r| ==> r[i] in rows && MatchesSearchAsWritten(r[i], name, email, phone)
    ensures forall i :: 0 <= i < |rows| && MatchesSearchAsWritten(rows[i], name, email, phone) ==> rows[i] in r
  {
    Filter(rows, (u: User) => MatchesSearchAsWritten(u, name, email, phone))
  }

  /** A criterion with no `LIKE` special character, or none at all. */
  predicate Literal(criterion: Option<string>) {
    criterion.None? || PlainPattern(criterion.value)
  }

  lemma LikeClauseIsCriterion(field: Option<string>, criterion: Option<string>, ignoreCase: bool)
    requires Literal(criterion)
    ensures LikeClause(field, criterion, ignoreCase) <==> Criterion(field, criterion, ignoreCase)
  {
    if criterion.Some? && field.Some? {
      if ignoreCase {
        LowerInfix(criterion.value);
        LikeInfixIffContains(Lower(field.value), Lower(criterion.value));
      } else {
        LikeInfixIffContains(field.value, criterion.value);
      }
    }
  }

  /** As long as no criterion holds `%` or `_`, the query as written is the literal substring search. */
  lemma SearchAsWrittenAgrees(rows: seq<User>, name: Option<string>, email: Option<string>, phone: Option<string>)
    requires Literal(name) && Literal(email) && Literal(phone)
    ensures SearchUsersAsWritten(rows, name, email, phone) == SearchUsers(rows, name, email, phone)
  {
    forall u: User ensures MatchesSearchAsWritten(u, name, email, phone) <==> MatchesSearch(u, name, email, phone) {
      LikeClauseIsCriterion(u.name, name, true);
      LikeClauseIsCriterion(u.email, email, true);
      LikeClauseIsCriterion(u.phone, phone, false);
    }
    FilterExt(rows, (u: User) => MatchesSearchAsWritten(u, name, email, phone),
      (u: User) => MatchesSearch(u, name, email, phone));
  }

  /** The one-row table the discrepancy below is shown on. */
  const Abc: User := User(1, Some("abc"), Some("abc@example.com"), None, None)

  /**
   * The criterion `"a_c"` selects the user named `"abc"` in the query as
   * written, because `_` is a `LIKE` wildcard, but not in a substring search.
   */
  lemma SearchAsWrittenTreatsUnderscoreAsWildcard()
    ensures SearchUsersAsWritten([Abc], Some("a_c"), None, None) == [Abc]
    ensures SearchUsers([Abc], Some("a_c"), None, None) == []
  {
    assert Lower("abc") == "abc";
    assert Lower(Infix("a_c")) == "%a_c%";
    assert Like("", "") && Like("", "%");
    assert Like("abc", "a_c%") by {
      assert Like("c", "c%");
      assert Like("bc", "_c%");
    }
    assert Like("abc", "%a_c%");
    assert !Contains("abc", "a_c") by {
      assert !IsPrefix("a_c", "abc");
      assert !Contains("bc", "a_c") by {
        assert !Contains("c", "a_c") by {
          assert !Contains("", "a_c");
        }
      }
    }
    assert Lower("a_c") == "a_c";
  }

  // ---------------------------------------------------------------- counts

  /** `count()`. */
  function Count(rows: seq<User>): (n: nat)
    ensures n == |rows|
  {
    |rows|
  }

  /** `countByNamePattern`: the number of rows whose name is `LIKE` the wrapped, lower-cased pattern. */
  function CountByNamePattern(rows: seq<User>, pattern: string): (n: nat)
    ensures n <= |rows|
    ensures n == |SearchUsersAsWritten(rows, Some(pattern), None, None)|
  {
    FilterExt(rows, (u: User) => LikeClause(u.name, Some(pattern), true),
      (u: User) => MatchesSearchAsWritten(u, Some(pattern), None, None));
    |Filter(rows, (u: User) => LikeClause(u.name, Some(pattern), true))|
  }

  /** For a plain pattern, the count is the size of the name search. */
  lemma CountByNamePatternAgrees(rows: seq<User>, pattern: string)
    requires PlainPattern(pattern)
    ensures CountByNamePattern(rows, pattern) == |FindByNameContainingIgnoreCase(rows, pattern)|
  {
    forall u: User ensures LikeClause(u.name, Some(pattern), true) <==> NameContainsIgnoreCase(u, pattern) {
      LikeClauseIsCriterion(u.name, Some(pattern), true);
    }
    FilterExt(rows, (u: User) => LikeClause(u.name, Some(pattern), true),
      (u: User) => NameContainsIgnoreCase(u, pattern));
  }
}
