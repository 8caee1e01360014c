/** The response assertions of the Base test class (Base/TestBase.java):
    the positive check, and the negative check with its optional field and
    message-part filter. */
module TestBase {
  import opened JavaStrings
  import opened Results
  import opened Validators
  import BaseValidationUtils

  /** The failure RestAssured reports when the status code is not the one expected. */
  function StatusMismatch(expected: int, actual: int): string
  {
    "Expected status code <" + IntToString(expected) + "> but was <" + IntToString(actual) + ">."
  }

  /** The failure RestAssured reports when `data.isValid` is not `true`. */
  const IsValidMismatch: string := "JSON path data.isValid doesn't match."

  /** assertPositiveResponse: status 200 and `data.isValid` true (both checked
      on the raw response first), then the decoded flag, then a non-null row. */
  function AssertPositiveResponse<T>(response: Response<T>): (v: Verdict)
    ensures v.Pass? <==> response.statusCode == 200 && response.data.isValid && response.data.row.Some?
    ensures response.statusCode != 200 ==> v == Fail(StatusMismatch(200, response.statusCode))
    ensures v != Fail("Response should be valid")
  {
    if response.statusCode != 200 then Fail(StatusMismatch(200, response.statusCode))
    else if !response.data.isValid then Fail(IsValidMismatch)
    else if !response.data.isValid then Fail("Response should be valid")
    else if response.data.row.None? then Fail("Response row should not be null")
    else Pass
  }

  /** The error filter of assertNegativeResponse: the column names the field
      up to case when a field is given, and the English message contains the
      part, both lower-cased; the Arabic message is not consulted. */
  predicate PartMatches(e: ValidationError, field: Option<string>, part: string)
  {
    (field.None? || EqualsIgnoreCase(e.column, field.value)) && Contains(Lower(e.message), Lower(part))
  }

  /** assertNegativeResponse(response, expectedField, expectedMessagePart):
      the invalid-structure check, then, when a part is given, some error must
      pass the filter; the failure lists every error. */
  function AssertNegativeResponse<T>(response: Response<T>, field: Option<string>, part: Option<string>): (v: Verdict)
    ensures v.Pass? <==> BaseValidationUtils.AssertInvalidResponseStructure(response).Pass? &&
                         (part.Some? ==> exists j :: 0 <= j < |response.data.errors| &&
                                                     PartMatches(response.data.errors[j], field, part.value))
    ensures BaseValidationUtils.AssertInvalidResponseStructure(response).Fail? ==>
              v == BaseValidationUtils.AssertInvalidResponseStructure(response)
    ensures v.Fail? && BaseValidationUtils.AssertInvalidResponseStructure(response).Pass? ==>
              part.Some? && v.reason == "Expected error containing '" + part.value + "' not found in errors: " +
                                        ListToString(response.data.errors)
  {
    var structure := BaseValidationUtils.AssertInvalidResponseStructure(response);
    if structure.Fail? then structure
    else if part.None? then Pass
    else
      var errors := response.data.errors;
      if AnyMatch(errors, (e: ValidationError) => PartMatches(e, field, part.value)) then Pass
      else Fail("Expected error containing '" + part.value + "' not found in errors: " + ListToString(errors))
  }

  /** assertNegativeResponse(response): the two-filter form with both null. */
  function AssertNegativeResponseAny<T>(response: Response<T>): (v: Verdict)
    ensures v == BaseValidationUtils.AssertInvalidResponseStructure(response)
  {
    AssertNegativeResponse(response, None, None)
  }

  /** A passing negative check implies the response has status 400, is
      invalid and reports at least one error; no response passes both the
      positive and the negative check. */
  lemma NegativeImpliesInvalid<T>(response: Response<T>, field: Option<string>, part: Option<string>)
    requires AssertNegativeResponse(response, field, part).Pass?
    ensures response.statusCode == 400 && !response.data.isValid && |response.data.errors| > 0
    ensures AssertPositiveResponse(response).Fail?
  {
  }

  /** Dropping the field filter never turns a pass into a failure. */
  lemma FieldFilterOnlyNarrows<T>(response: Response<T>, field: string, part: Option<string>)
    requires AssertNegativeResponse(response, Some(field), part).Pass?
    ensures AssertNegativeResponse(response, None, part).Pass?
  {
    if part.Some? {
      var j :| 0 <= j < |response.data.errors| && PartMatches(response.data.errors[j], Some(field), part.value);
      assert PartMatches(response.data.errors[j], None, part.value);
    }
  }

  /** Parts that agree up to letter case give the same verdict. */
  lemma PartCaseInsensitive<T>(response: Response<T>, field: Option<string>, p: string, q: string)
    requires Lower(p) == Lower(q)
    ensures AssertNegativeResponse(response, field, Some(p)).Pass? == AssertNegativeResponse(response, field, Some(q)).Pass?
  {
    var errors := response.data.errors;
    assert forall j :: 0 <= j < |errors| ==> (PartMatches(errors[j], field, p) <==> PartMatches(errors[j], field, q));
  }

  /** When the part filter fails, the failure text names the part and shows
      every error of the response. */
  lemma NegativeFailureShowsPartAndErrors<T>(response: Response<T>, field: Option<string>, part: Option<string>)
    requires BaseValidationUtils.AssertInvalidResponseStructure(response).Pass?
    requires AssertNegativeResponse(response, field, part).Fail?
    ensures part.Some?
    ensures Contains(AssertNegativeResponse(response, field, part).reason, part.value)
    ensures forall j :: 0 <= j < |response.data.errors| ==>
              Contains(AssertNegativeResponse(response, field, part).reason, ToString(response.data.errors[j]))
  {
    var errors := response.data.errors;
    var reason := AssertNegativeResponse(response, field, part).reason;
    var head, middle := "Expected error containing '", "' not found in errors: ";
    var listed := ListToString(errors);
    ConcatAssoc(head + part.value, middle, listed);
    ContainsInfix(head, part.value, middle + listed);
    assert head + part.value + middle + listed + "" == reason;
    ContainsInfix(head + part.value + middle, listed, "");
    var parts := seq(|errors|, i requires 0 <= i < |errors| => ToString(errors[i]));
    ContainsInfix("[", Join(", ", parts), "]");
    ContainsTransitive(reason, listed, Join(", ", parts));
    forall j | 0 <= j < |errors|
      ensures Contains(reason, ToString(errors[j]))
    {
      JoinContainsEach(", ", parts, j);
      ContainsTransitive(reason, Join(", ", parts), parts[j]);
    }
  }

  /** An invalid response whose only error spells "can't" with the straight apostrophe. */
  const StraightApostropheResponse: Response<int> :=
    Response(400, ValidationResponse(false, None, [ValidationError("Code", "can't", "x")]))

  /** The filter applies no apostrophe normalisation: a straight-apostrophe
      message does not satisfy a curly-apostrophe part, although the Base
      matcher accepts the same pair. */
  lemma NoApostropheNormalisation()
    ensures AssertNegativeResponse(StraightApostropheResponse, Some("Code"), Some("can\U{2019}t")).Fail?
    ensures BaseValidationUtils.AssertValidationContains(StraightApostropheResponse, "Code", ["can\U{2019}t"]).Pass?
  {
    CurlyPartMissed();
    CurlyFragmentFound();
  }

  /** The curly part is not in the straight message, whatever the case. */
  lemma CurlyPartMissed()
    ensures !PartMatches(StraightApostropheResponse.data.errors[0], Some("Code"), "can\U{2019}t")
  {
    var e := StraightApostropheResponse.data.errors[0];
    var curly := "can\U{2019}t";
    assert Lower(curly)[3] == '\U{2019}';
    NotContainsMissingChar(Lower(e.message), Lower(curly), 3);
  }

  /** Folded, the curly fragment and the straight message coincide. */
  lemma CurlyFragmentFound()
    ensures BaseValidationUtils.FragmentMatches(StraightApostropheResponse.data.errors[0], "Code", "can\U{2019}t")
  {
    var e := StraightApostropheResponse.data.errors[0];
    var curly := "can\U{2019}t";
    assert BaseValidationUtils.Folded(curly) == BaseValidationUtils.Folded(e.message);
    ContainsSelf(BaseValidationUtils.Folded(e.message));
  }
}
