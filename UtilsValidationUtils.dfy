/** The lighter assertion helpers of package Utils (Utils/ValidationUtils.java)
    over the plain error record of Pojo/Common/ValidationError.java: one
    "field contains text" check and its list form. */
module UtilsValidationUtils {
  import opened JavaStrings
  import opened Results
  import opened Validators
  import BaseValidationUtils

  /** Pojo ValidationError.toString:
      `ValidationError{column='c', message='m', messageAr='a'}`. */
  function PojoToString(e: ValidationError): (r: string)
    ensures Contains(r, e.column) && Contains(r, e.message) && Contains(r, e.messageAr)
  {
    var shown := "ValidationError{column='" + e.column + "', message='" + e.message + "', messageAr='" + e.messageAr;
    var r := shown + "'}";
    BaseValidationUtils.PartsShown("ValidationError{column='", e.column, "', message='", e.message,
                                   "', messageAr='", e.messageAr);
    assert r == [] + shown + "'}";
    ContainsWiden([], shown, "'}", e.column);
    ContainsWiden([], shown, "'}", e.message);
    ContainsWiden([], shown, "'}", e.messageAr);
    r
  }

  /** The filter of assertValidationContains: the column names the field up
      to case and the English message contains the text, both lower-cased. */
  predicate TextMatches(e: ValidationError, field: string, text: string)
  {
    EqualsIgnoreCase(e.column, field) && Contains(Lower(e.message), Lower(text))
  }

  /** The failure text: the text, the field and every error, one per line. */
  function ContainsFailureText(errors: seq<ValidationError>, field: string, text: string): string
  {
    "Expected message containing '" + text + "' for field [" + field + "] not found.\nAvailable errors:\n" +
    Join("\n", seq(|errors|, j requires 0 <= j < |errors| => PojoToString(errors[j])))
  }

  /** assertValidationContains(response, field, containsText): passes exactly
      when some error passes the filter, and otherwise fails listing them all. */
  function AssertValidationContains<T>(response: Response<T>, field: string, text: string): (v: Verdict)
    ensures v.Pass? <==> exists j :: 0 <= j < |response.data.errors| && TextMatches(response.data.errors[j], field, text)
    ensures v.Fail? ==> v.reason == ContainsFailureText(response.data.errors, field, text)
  {
    var errors := response.data.errors;
    if AnyMatch(errors, (err: ValidationError) => TextMatches(err, field, text)) then Pass
    else Fail(ContainsFailureText(errors, field, text))
  }

  /** One expectation of assertValidations. */
  datatype FieldValidation = FieldValidation(field: string, messagePart: string)

  /** assertValidations: each expectation in order; the first that fails
      decides the failure, and an empty list passes. */
  function AssertValidations<T>(response: Response<T>, expected: seq<FieldValidation>): (v: Verdict)
    ensures v.Pass? <==> forall k :: 0 <= k < |expected| ==>
                           AssertValidationContains(response, expected[k].field, expected[k].messagePart).Pass?
    ensures v.Fail? ==> exists k :: 0 <= k < |expected| &&
                                    v == AssertValidationContains(response, expected[k].field, expected[k].messagePart) &&
                                    forall m :: 0 <= m < k ==>
                                      AssertValidationContains(response, expected[m].field, expected[m].messagePart).Pass?
  {
    FirstFailure(expected, (fv: FieldValidation) => AssertValidationContains(response, fv.field, fv.messagePart))
  }

  /** Whatever this helper accepts, the Base helper accepts too: normalising
      apostrophes keeps every occurrence, and the Base helper also looks at
      the Arabic message. */
  lemma BaseMatcherAtLeastAsPermissive<T>(response: Response<T>, field: string, text: string)
    requires AssertValidationContains(response, field, text).Pass?
    ensures BaseValidationUtils.AssertValidationContains(response, field, [text]).Pass?
  {
    var errors := response.data.errors;
    var j :| 0 <= j < |errors| && TextMatches(errors[j], field, text);
    var e := errors[j];
    BaseValidationUtils.NormalizePreservesContains(Lower(e.message), Lower(text));
    BaseValidationUtils.LowerNormalizeCommute(e.message);
    BaseValidationUtils.LowerNormalizeCommute(text);
    assert BaseValidationUtils.FragmentMatches(e, field, [text][0]);
  }

  /** Only the columns and English messages decide: the Arabic messages,
      the status code and the flags of the response are never consulted. */
  lemma OnlyColumnsAndMessagesDecide<T>(r1: Response<T>, r2: Response<T>, field: string, text: string)
    requires |r1.data.errors| == |r2.data.errors|
    requires forall j :: 0 <= j < |r1.data.errors| ==>
               r1.data.errors[j].column == r2.data.errors[j].column &&
               r1.data.errors[j].message == r2.data.errors[j].message
    ensures AssertValidationContains(r1, field, text).Pass? == AssertValidationContains(r2, field, text).Pass?
  {
    assert forall j :: 0 <= j < |r1.data.errors| ==>
             (TextMatches(r1.data.errors[j], field, text) <==> TextMatches(r2.data.errors[j], field, text));
  }

  /** The failure text shows the searched text, the field and every error. */
  lemma FailureTextShowsEverything(errors: seq<ValidationError>, field: string, text: string)
    ensures Contains(ContainsFailureText(errors, field, text), text)
    ensures Contains(ContainsFailureText(errors, field, text), field)
    ensures forall j :: 0 <= j < |errors| ==> Contains(ContainsFailureText(errors, field, text), PojoToString(errors[j]))
  {
    var all := Join("\n", seq(|errors|, j requires 0 <= j < |errors| => PojoToString(errors[j])));
    var t := ContainsFailureText(errors, field, text);
    BaseValidationUtils.PartsShown("Expected message containing '", text, "' for field [", field,
                                   "] not found.\nAvailable errors:\n", all);
    forall j | 0 <= j < |errors| ensures Contains(t, PojoToString(errors[j])) {
      JoinContainsEach("\n", seq(|errors|, j requires 0 <= j < |errors| => PojoToString(errors[j])), j);
      ContainsTransitive(t, all, PojoToString(errors[j]));
    }
  }
}
