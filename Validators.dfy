/** The decoded shape of a validation response (package Validators): one
    error triple per offending field, the response envelope, and the verdict
    an assertion helper reaches on it. */
module Validators {
  import opened JavaStrings
  import opened Results

  /** One reported problem: the offending column and its English and Arabic
      descriptions. */
  datatype ValidationError = ValidationError(column: string, message: string, messageAr: string)

  /** The `data` object of a response: `isValid`, the echoed `row` (absent when
      the JSON holds null) and the ordered error list. */
  datatype ValidationResponse<T> = ValidationResponse(isValid: bool, row: Option<T>, errors: seq<ValidationError>)

  /** An HTTP response already decoded: its status code and its `data` object. */
  datatype Response<T> = Response(statusCode: int, data: ValidationResponse<T>)

  /** What an assertion helper does: return normally, or fail the test with a
      message. */
  datatype Verdict = Pass | Fail(reason: string)

  /** ValidationError.toString: String.format("[%s]: %s (%s)", column,
      message, messageAr). */
  function ToString(e: ValidationError): string
  {
    Filled(ToStringPieces, [e.column, e.message, e.messageAr])
  }

  /** The pieces of the template "[%s]: %s (%s)". */
  const ToStringPieces: seq<string> := ["[", "]: ", " (", ")"]

  /** The pieces are those of "[%s]: %s (%s)", and toString yields the
      bracketed concatenation the Base assertion helpers print. */
  lemma ToStringIsBracketed(e: ValidationError)
    ensures Template(ToStringPieces) == "[%s]: %s (%s)"
    ensures ToString(e) == "[" + e.column + "]: " + e.message + " (" + e.messageAr + ")"
  {
  }

  /** List.toString over errors: `[e1, e2, ...]`. */
  function ListToString(errors: seq<ValidationError>): string
  {
    "[" + Join(", ", seq(|errors|, i requires 0 <= i < |errors| => ToString(errors[i]))) + "]"
  }

  /** Stream.anyMatch: some element satisfies `p`; false on an empty stream. */
  function AnyMatch<X>(xs: seq<X>, p: X -> bool): (b: bool)
    ensures b <==> exists i :: 0 <= i < |xs| && p(xs[i])
    decreases |xs|
  {
    if |xs| == 0 then false
    else p(xs[0]) || AnyMatch(xs[1..], p)
  }

  /** A forEach (or for loop) whose body asserts: the first element whose
      check fails decides the verdict, and the walk stops there. */
  function FirstFailure<X>(xs: seq<X>, check: X -> Verdict): (v: Verdict)
    ensures v.Pass? <==> forall i :: 0 <= i < |xs| ==> check(xs[i]).Pass?
    ensures v.Fail? ==> exists k :: 0 <= k < |xs| && check(xs[k]) == v &&
                                    forall i :: 0 <= i < k ==> check(xs[i]).Pass?
    decreases |xs|
  {
    if |xs| == 0 then Pass
    else if check(xs[0]).Fail? then check(xs[0])
    else
      var v := FirstFailure(xs[1..], check);
      assert v.Fail? ==> exists k :: 0 <= k < |xs| && check(xs[k]) == v &&
                                     forall i :: 0 <= i < k ==> check(xs[i]).Pass? by {
        if v.Fail? {
          var k :| 0 <= k < |xs[1..]| && check(xs[1..][k]) == v &&
                   forall i :: 0 <= i < k ==> check(xs[1..][i]).Pass?;
          assert check(xs[k + 1]) == v;
          assert forall i :: 0 <= i < k + 1 ==> check(xs[i]).Pass? by {
            forall i | 0 <= i < k + 1 ensures check(xs[i]).Pass? {
              if i > 0 { assert xs[i] == xs[1..][i - 1]; }
            }
          }
        }
      }
      v
  }
}
