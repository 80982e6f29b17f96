/**
 * `GlobalExceptionHandler.resolveToSingleError`: every failure becomes exactly
 * one GraphQL error with a category and a message. The instance checks are
 * tried in source order; the failure kinds are disjoint, so exactly one
 * applies, and anything unrecognised falls through to the generic error.
 */
module ExceptionHandler {
  import opened Wrappers
  import opened Text
  import opened Failures

  /** The `ErrorType` categories the handler uses. */
  datatype ErrorType = NotFound | BadRequest | InternalError

  /** The part of a `GraphQLError` the handler decides (path and location come from the request). */
  datatype GraphQLError = GraphQLError(errorType: ErrorType, message: string)

  const ValidationPrefix := "Validation failed: "
  const Separator := "; "
  const InternalMessage := "Internal server error occurred"

  /** The `StringBuilder` loop: each message followed by `"; "`, the last one included. */
  function JoinMessages(messages: seq<string>): (s: string)
    ensures |messages| > 0 ==> |s| >= 2 && s[|s| - 2..] == Separator
  {
    if |messages| == 0 then ""
    else
      var rest := JoinMessages(messages[1..]);
      assert |messages[1..]| > 0 ==> (messages[0] + Separator + rest)[|messages[0] + Separator + rest| - 2..] == rest[|rest| - 2..];
      messages[0] + Separator + rest
  }

  function ResolveToSingleError(f: Failure): (e: GraphQLError)
    ensures f.UserNotFound? ==> e.errorType == NotFound && e.message == f.message
    ensures f.DuplicateEmail? ==> e.errorType == BadRequest && e.message == f.message
    ensures f.ConstraintViolation? ==>
      e.errorType == BadRequest && e.message == ValidationPrefix + JoinMessages(f.messages)
    ensures f.IllegalArgument? ==> e.errorType == BadRequest && e.message == f.message
    ensures f.Unexpected? ==> e.errorType == InternalError && e.message == InternalMessage
  {
    if f.UserNotFound? then
      GraphQLError(NotFound, f.message)
    else if f.DuplicateEmail? then
      GraphQLError(BadRequest, f.message)
    else if f.ConstraintViolation? then
      GraphQLError(BadRequest, ValidationPrefix + JoinMessages(f.messages))
    else if f.IllegalArgument? then
      GraphQLError(BadRequest, f.message)
    else
      GraphQLError(InternalError, InternalMessage)
  }

  /** Only an internal failure is reported as an internal error; every other kind is the caller's. */
  lemma InternalOnlyForUnexpected(f: Failure)
    ensures ResolveToSingleError(f).errorType == InternalError <==> f.Unexpected?
    ensures ResolveToSingleError(f).errorType == NotFound <==> f.UserNotFound?
  {
  }

  /** The internal cause never reaches the caller: two internal failures are indistinguishable. */
  lemma InternalCauseNotEchoed(m1: string, m2: string)
    ensures ResolveToSingleError(Unexpected(m1)) == ResolveToSingleError(Unexpected(m2))
  {
  }

  // ---------------------------------------------------------------- reading a validation message back

  /** The position of the first `c` in `s`. */
  function IndexOf(s: string, c: char): (r: Option<nat>)
    ensures r.Some? ==> r.value < |s| && s[r.value] == c && c !in s[..r.value]
    ensures r.None? ==> c !in s
  {
    if |s| == 0 then None
    else if s[0] == c then Some(0)
    else match IndexOf(s[1..], c)
      case None => None
      case Some(k) => assert s[..k + 1] == [s[0]] + s[1..][..k]; Some(k + 1)
  }

  /** Splits a `"; "`-terminated list back into its items. */
  function SplitMessages(s: string): Option<seq<string>>
    decreases |s|
  {
    if |s| == 0 then Some([])
    else match IndexOf(s, ';')
      case None => None
      case Some(k) =>
        if k + 1 < |s| && s[k + 1] == ' ' then
          match SplitMessages(s[k + 2..])
          case None => None
          case Some(rest) => Some([s[..k]] + rest)
        else None
  }

  /**
   * Messages without a semicolon can be read back from the joined text: the
   * validation message lists every violation's message, in order, and nothing else.
   */
  lemma {:induction false} SplitJoin(messages: seq<string>)
    requires forall i :: 0 <= i < |messages| ==> Semicolonless(messages[i])
    ensures SplitMessages(JoinMessages(messages)) == Some(messages)
  {
    if |messages| > 0 {
      var m := messages[0];
      var rest := JoinMessages(messages[1..]);
      var s := m + Separator + rest;
      assert s[..|m|] == m;
      assert s[|m|] == ';';
      assert IndexOf(s, ';') == Some(|m|) by {
        IndexOfFirst(s, ';', |m|);
      }
      assert s[|m| + 2..] == rest;
      SplitJoin(messages[1..]);
      assert [m] + messages[1..] == messages;
    }
  }

  lemma IndexOfFirst(s: string, c: char, k: nat)
    requires k < |s| && s[k] == c
    requires forall i :: 0 <= i < k ==> s[i] != c
    ensures IndexOf(s, c) == Some(k)
  {
  }

  /** The error for a constraint violation names exactly the violated constraints' messages. */
  lemma ValidationErrorLists(messages: seq<string>)
    requires forall i :: 0 <= i < |messages| ==> Semicolonless(messages[i])
    ensures var e := ResolveToSingleError(ConstraintViolation(messages));
      && e.errorType == BadRequest
      && IsPrefix(ValidationPrefix, e.message)
      && SplitMessages(e.message[|ValidationPrefix|..]) == Some(messages)
  {
    var e := ResolveToSingleError(ConstraintViolation(messages));
    assert e.message[|ValidationPrefix|..] == JoinMessages(messages);
    SplitJoin(messages);
  }
}
