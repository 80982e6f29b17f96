/**
 * The Bean Validation constraints declared on `UserInput`. Validation
 * reports every violated constraint, not just the first.
 */
module Validation {
  import opened Wrappers
  import opened Text
  import opened Seqs
  import opened Users

  /** One violated constraint annotation of `UserInput`. */
  datatype Violation =
    | NameRequired    // @NotBlank on name
    | NameSize        // @Size(min = 2, max = 100) on name
    | EmailInvalid    // @Email on email
    | EmailRequired   // @NotBlank on email
    | PhoneTooLong    // @Size(max = 15) on phone
    | AddressTooLong  // @Size(max = 500) on address

  const NameMin := 2
  const NameMax := 100
  const PhoneMax := 15
  const AddressMax := 500

  /** The `message` attribute of each annotation. */
  function Message(v: Violation): string {
    match v
    case NameRequired => "Name is required"
    case NameSize => "Name must be between 2 and 100 characters"
    case EmailInvalid => "Email must be valid"
    case EmailRequired => "Email is required"
    case PhoneTooLong => "Phone number cannot exceed 15 characters"
    case AddressTooLong => "Address cannot exceed 500 characters"
  }

  /** `@NotBlank`: not null, and something is left after trimming. */
  predicate NotBlank(o: Option<string>) {
    o.Some? && !IsBlank(o.value)
  }

  /** `@Size(min, max)`: null is valid, otherwise the length is within bounds. */
  predicate SizeWithin(o: Option<string>, min: nat, max: nat) {
    o.None? || min <= |o.value| <= max
  }

  /** `@Email`: null and the empty string are valid, otherwise the (uninterpreted) address syntax decides. */
  predicate EmailSyntax(o: Option<string>, wellFormed: string -> bool) {
    o.None? || |o.value| == 0 || wellFormed(o.value)
  }

  /** Whether `input` satisfies the constraint whose violation is `v`. */
  predicate Holds(v: Violation, input: UserInput, wellFormed: string -> bool) {
    match v
    case NameRequired => NotBlank(input.name)
    case NameSize => SizeWithin(input.name, NameMin, NameMax)
    case EmailInvalid => EmailSyntax(input.email, wellFormed)
    case EmailRequired => NotBlank(input.email)
    case PhoneTooLong => SizeWithin(input.phone, 0, PhoneMax)
    case AddressTooLong => SizeWithin(input.address, 0, AddressMax)
  }

  /** Every constraint, in declaration order. */
  const Catalog: seq<Violation> := [NameRequired, NameSize, EmailInvalid, EmailRequired, PhoneTooLong, AddressTooLong]

  /** The set of all violated constraints of `input`. */
  function Violations(input: UserInput, wellFormed: string -> bool): (r: set<Violation>)
    ensures NameRequired in r <==> input.name.None? || IsBlank(input.name.value)
    ensures NameSize in r <==> input.name.Some? && !(2 <= |input.name.value| <= 100)
    ensures EmailRequired in r <==> input.email.None? || IsBlank(input.email.value)
    ensures EmailInvalid in r <==> input.email.Some? && |input.email.value| > 0 && !wellFormed(input.email.value)
    ensures PhoneTooLong in r <==> input.phone.Some? && |input.phone.value| > 15
    ensures AddressTooLong in r <==> input.address.Some? && |input.address.value| > 500
  {
    set v | v in Catalog && !Holds(v, input, wellFormed)
  }

  /**
   * Reference statement of a conforming input, in the validator's own terms:
   * `trim()` leaves something of name and email, the lengths are within bounds.
   */
  predicate Conforms(input: UserInput, wellFormed: string -> bool) {
    && input.name.Some? && |Trim(input.name.value)| > 0
    && 2 <= |input.name.value| <= 100
    && input.email.Some? && |Trim(input.email.value)| > 0
    && wellFormed(input.email.value)
    && (input.phone.None? || |input.phone.value| <= 15)
    && (input.address.None? || |input.address.value| <= 500)
  }

  /** No violation is reported exactly when the input conforms to every field rule. */
  lemma NoViolationsIffConforms(input: UserInput, wellFormed: string -> bool)
    ensures Violations(input, wellFormed) == {} <==> Conforms(input, wellFormed)
  {
    EmptyIffNoneListed(Violations(input, wellFormed));
    NameRulesIff(input, wellFormed);
    EmailRulesIff(input, wellFormed);
  }

  /** A set of violations is empty exactly when none of the six is in it. */
  lemma EmptyIffNoneListed(r: set<Violation>)
    ensures r == {} <==> forall i :: 0 <= i < |Catalog| ==> Catalog[i] !in r
  {
    if r != {} {
      var v :| v in r;
      assert Catalog[Position(v)] == v;
    }
  }

  lemma NameRulesIff(input: UserInput, wellFormed: string -> bool)
    ensures NameRequired !in Violations(input, wellFormed) && NameSize !in Violations(input, wellFormed) <==>
      input.name.Some? && |Trim(input.name.value)| > 0 && 2 <= |input.name.value| <= 100
  {
    if input.name.Some? {
      TrimEmptyIffBlank(input.name.value);
    }
  }

  lemma EmailRulesIff(input: UserInput, wellFormed: string -> bool)
    ensures EmailInvalid !in Violations(input, wellFormed) && EmailRequired !in Violations(input, wellFormed) <==>
      input.email.Some? && |Trim(input.email.value)| > 0 && wellFormed(input.email.value)
  {
    if input.email.Some? {
      TrimEmptyIffBlank(input.email.value);
      if |input.email.value| == 0 {
        assert IsBlank(input.email.value);
      }
    }
  }

  /** When every constraint holds, nothing is reported. */
  lemma AllHoldNoViolations(input: UserInput, wellFormed: string -> bool)
    requires forall v :: Holds(v, input, wellFormed)
    ensures Violations(input, wellFormed) == {}
  {
  }

  /** A blank name of admissible length violates `@NotBlank` only, not `@Size`. */
  lemma BlankNameFailsOnlyNotBlank(input: UserInput, wellFormed: string -> bool)
    requires input.name.Some? && IsBlank(input.name.value)
    requires 2 <= |input.name.value| <= 100
    ensures NameRequired in Violations(input, wellFormed)
    ensures NameSize !in Violations(input, wellFormed)
  {
  }

  /**
   * The violations in the order the violation set is iterated; a `HashSet`'s
   * order is unspecified, and declaration order stands for it here.
   */
  function Ordered(vs: set<Violation>): (r: seq<Violation>)
    ensures forall v :: v in r <==> v in vs
    ensures forall i, j :: 0 <= i < j < |r| ==> r[i] != r[j]
  {
    var r := Filter(Catalog, v => v in vs);
    forall v | v in vs ensures v in r {
      assert Catalog[Position(v)] == v;
    }
    CatalogDistinct();
    FilterInjective(Catalog, v => v in vs, Itself);
    r
  }

  lemma CatalogDistinct()
    ensures InjectiveOn(Catalog, Itself)
  {
    forall i, j | 0 <= i < j < |Catalog| ensures Catalog[i] != Catalog[j] {
      assert Position(Catalog[i]) == i && Position(Catalog[j]) == j;
    }
  }

  /** Where `v` stands in the catalogue. */
  function Position(v: Violation): (i: nat)
    ensures i < |Catalog| && Catalog[i] == v
  {
    match v
    case NameRequired => 0
    case NameSize => 1
    case EmailInvalid => 2
    case EmailRequired => 3
    case PhoneTooLong => 4
    case AddressTooLong => 5
  }

  function Itself(v: Violation): Violation {
    v
  }

  /** The message of each violation, in iteration order. */
  function Messages(vs: seq<Violation>): (r: seq<string>)
    ensures |r| == |vs|
    ensures forall i :: 0 <= i < |vs| ==> r[i] == Message(vs[i])
  {
    if |vs| == 0 then [] else [Message(vs[0])] + Messages(vs[1..])
  }

  /** The `@Size` message on name quotes the bounds the annotation enforces. */
  lemma NameSizeMessageQuotesBounds()
    ensures Message(NameSize) == "Name must be between " + DecimalString(NameMin) + " and " + DecimalString(NameMax) + " characters"
  {
    assert DecimalString(NameMin) == "2";
    assert NatToDecimal(10) == "10";
    assert DecimalString(NameMax) == "100";
  }

  /** The `@Size` message on phone quotes the bound the annotation enforces. */
  lemma PhoneMessageQuotesBound()
    ensures Message(PhoneTooLong) == "Phone number cannot exceed " + DecimalString(PhoneMax) + " characters"
  {
    assert DecimalString(PhoneMax) == "15";
  }

  /** The `@Size` message on address quotes the bound the annotation enforces. */
  lemma AddressMessageQuotesBound()
    ensures Message(AddressTooLong) == "Address cannot exceed " + DecimalString(AddressMax) + " characters"
  {
    assert NatToDecimal(50) == "50";
    assert DecimalString(AddressMax) == "500";
  }

  /** The constraint messages differ pairwise (already in their lengths). */
  lemma MessageInjective(v: Violation, w: Violation)
    requires Message(v) == Message(w)
    ensures v == w
  {
  }

  /** No constraint message contains a semicolon, so `"; "` ends each of them unambiguously. */
  lemma MessagesHaveNoSemicolon(v: Violation)
    ensures Semicolonless(Message(v))
  {
    match v
    case NameRequired | NameSize => NameMessagesSemicolonless();
    case EmailInvalid | EmailRequired => EmailMessagesSemicolonless();
    case PhoneTooLong | AddressTooLong => SizeMessagesSemicolonless();
  }

  lemma NameMessagesSemicolonless()
    ensures Semicolonless(Message(NameRequired)) && Semicolonless(Message(NameSize))
  {
  }

  lemma EmailMessagesSemicolonless()
    ensures Semicolonless(Message(EmailInvalid)) && Semicolonless(Message(EmailRequired))
  {
  }

  lemma SizeMessagesSemicolonless()
    ensures Semicolonless(Message(PhoneTooLong)) && Semicolonless(Message(AddressTooLong))
  {
  }

  /** A conforming input has a non-null email. */
  lemma NoViolationsEmailPresent(input: UserInput, wellFormed: string -> bool)
    requires Violations(input, wellFormed) == {}
    ensures input.email.Some?
  {
    assert EmailRequired !in Violations(input, wellFormed);
  }

}
