/** The validation-response assertion engine of package Base
    (Base/ValidationUtils.java): the apostrophe normaliser, the
    "field contains fragment" matcher with its diagnostic, the two structure
    checks, the error-format check against the closed column vocabulary and the
    catalog-conformance check. Each assertion helper is a function from the
    decoded response to the verdict it reaches. */
module BaseValidationUtils {
  import opened JavaStrings
  import opened Results
  import opened Validators
  import ValidationErrorConsts

  /** KNOWN_COLUMNS, the closed vocabulary of error columns. */
  const KnownColumns: seq<string> := [
    "AbbreviationAr", "AbbreviationEn", "Code", "CustomPropertyValues", "EffectiveDate",
    "Group", "NameAr", "NameEn", "Specialty", "StatusReason", "TitleAr", "TitleEn",
    "Type", "Status", "ReferenceAverageCost"
  ]

  // ------------------------------------------------------------ normaliser

  /** U+2019 RIGHT SINGLE QUOTATION MARK, the curly apostrophe. */
  const CurlyApostrophe: char := '\U{2019}'

  /** normalizeApostrophes: every curly apostrophe becomes a straight one and
      every other character stays where it is. */
  function NormalizeApostrophes(s: string): (r: string)
    ensures |r| == |s|
    ensures forall i :: 0 <= i < |s| ==> r[i] == (if s[i] == CurlyApostrophe then '\'' else s[i])
    decreases |s|
  {
    if |s| == 0 then []
    else [if s[0] == CurlyApostrophe then '\'' else s[0]] + NormalizeApostrophes(s[1..])
  }

  /** No curly apostrophe survives, so normalising twice changes nothing. */
  lemma NormalizeIdempotent(s: string)
    ensures forall i :: 0 <= i < |s| ==> NormalizeApostrophes(s)[i] != CurlyApostrophe
    ensures NormalizeApostrophes(NormalizeApostrophes(s)) == NormalizeApostrophes(s)
  {
  }

  /** Two texts that differ only in apostrophe spelling normalise alike. */
  lemma ApostropheSpellingsAgree(a: string, b: string)
    requires |a| == |b|
    requires forall i :: 0 <= i < |a| ==>
               a[i] == b[i] || (a[i] in {'\'', CurlyApostrophe} && b[i] in {'\'', CurlyApostrophe})
    ensures NormalizeApostrophes(a) == NormalizeApostrophes(b)
  {
  }

  /** Lower-casing and normalising commute: neither apostrophe is a letter. */
  lemma LowerNormalizeCommute(s: string)
    ensures Lower(NormalizeApostrophes(s)) == NormalizeApostrophes(Lower(s))
  {
  }

  /** Normalising is applied character by character, so it keeps every
      occurrence: what a text contains, its normal form contains normalised. */
  lemma NormalizePreservesContains(s: string, t: string)
    requires Contains(s, t)
    ensures Contains(NormalizeApostrophes(s), NormalizeApostrophes(t))
  {
    ContainsIff(s, t);
    var i :| OccursAt(s, t, i);
    var ns, nt := NormalizeApostrophes(s), NormalizeApostrophes(t);
    assert forall k :: 0 <= k < |t| ==> ns[i + k] == nt[k];
    assert OccursAt(ns, nt, i) by { assert ns[i..i + |nt|] == nt; }
    ContainsAt(ns, nt, i);
  }

  // ------------------------------------------------------------- matcher

  /** The text a fragment or message is compared in: normalised, lower-cased. */
  function Folded(s: string): string { Lower(NormalizeApostrophes(s)) }

  /** One (fragment, error) pair of assertValidationContains: the column names
      the field up to case, and the English or the Arabic message contains the
      fragment, both folded. */
  predicate FragmentMatches(e: ValidationError, field: string, fragment: string)
  {
    EqualsIgnoreCase(e.column, field) &&
    (Contains(Folded(e.message), Folded(fragment)) || Contains(Folded(e.messageAr), Folded(fragment)))
  }

  /** Every error rendered as `[column]: message (messageAr)`, in list order. */
  function Described(errors: seq<ValidationError>): (r: seq<string>)
    ensures |r| == |errors|
    ensures forall j :: 0 <= j < |errors| ==> r[j] == ToString(errors[j])
  {
    seq(|errors|, j requires 0 <= j < |errors| => ToString(errors[j]))
  }

  /** The failure text of assertValidationContains. */
  function ContainsFailureText(errors: seq<ValidationError>, field: string, fragments: seq<string>): string
  {
    "Expected message containing one of [" + Join(", ", fragments) + "] for field [" + field
    + "] not found.\nAvailable errors:\n" + Join("\n", Described(errors))
  }

  /** assertValidationContains(response, field, possibleMessages...): passes
      exactly when some fragment matches some error; otherwise fails with the
      diagnostic listing the fragments, the field and every error. */
  function AssertValidationContains<T>(response: Response<T>, field: string, fragments: seq<string>): (v: Verdict)
    ensures v.Pass? <==> exists i, j :: 0 <= i < |fragments| && 0 <= j < |response.data.errors| &&
                                        FragmentMatches(response.data.errors[j], field, fragments[i])
    ensures v.Fail? ==> v.reason == ContainsFailureText(response.data.errors, field, fragments)
  {
    var errors := response.data.errors;
    var found := AnyMatch(fragments, (msg: string) => AnyMatch(errors, (err: ValidationError) => FragmentMatches(err, field, msg)));
    if found then Pass else Fail(ContainsFailureText(errors, field, fragments))
  }

  /** With no fragment at all the matcher never passes. */
  lemma NoFragmentsFail<T>(response: Response<T>, field: string)
    ensures AssertValidationContains(response, field, []).Fail?
  {
  }

  /** The empty fragment passes as soon as some error carries the field's column. */
  lemma EmptyFragmentNeedsOnlyColumn<T>(response: Response<T>, field: string, j: int)
    requires 0 <= j < |response.data.errors|
    requires EqualsIgnoreCase(response.data.errors[j].column, field)
    ensures AssertValidationContains(response, field, [""]).Pass?
  {
    ContainsEmpty(Folded(response.data.errors[j].message));
    assert FragmentMatches(response.data.errors[j], field, [""][0]);
  }

  /** Every error reported is found again by its own column and message. */
  lemma OwnMessageFound<T>(response: Response<T>, j: int)
    requires 0 <= j < |response.data.errors|
    ensures AssertValidationContains(response, response.data.errors[j].column, [response.data.errors[j].message]).Pass?
  {
    var e := response.data.errors[j];
    ContainsSelf(Folded(e.message));
    assert FragmentMatches(e, e.column, [e.message][0]);
  }

  /** Fragments that fold alike (apostrophe spelling, letter case) are
      interchangeable: the verdict passes for one exactly when for the other. */
  lemma FoldedFragmentsInterchangeable<T>(response: Response<T>, field: string, f: string, g: string)
    requires Folded(f) == Folded(g)
    ensures AssertValidationContains(response, field, [f]).Pass? == AssertValidationContains(response, field, [g]).Pass?
  {
    var errors := response.data.errors;
    assert forall j :: 0 <= j < |errors| ==> (FragmentMatches(errors[j], field, f) <==> FragmentMatches(errors[j], field, g));
    assert [f][0] == f && [g][0] == g;
  }

  /** Each variable part of a text built as `a + x + b + y + c + z` is found in it. */
  lemma PartsShown(a: string, x: string, b: string, y: string, c: string, z: string)
    ensures Contains(a + x + b + y + c + z, x)
    ensures Contains(a + x + b + y + c + z, y)
    ensures Contains(a + x + b + y + c + z, z)
  {
    ContainsInfix(a, x, b + y + c + z);
    assert a + x + (b + y + c + z) == a + x + b + y + c + z;
    ContainsInfix(a + x + b, y, c + z);
    assert a + x + b + y + (c + z) == a + x + b + y + c + z;
    ContainsInfix(a + x + b + y + c, z, []);
    assert a + x + b + y + c + z + [] == a + x + b + y + c + z;
  }

  /** The failure text shows every fragment, the field and every error. */
  lemma FailureTextShowsEverything(errors: seq<ValidationError>, field: string, fragments: seq<string>)
    ensures forall i :: 0 <= i < |fragments| ==> Contains(ContainsFailureText(errors, field, fragments), fragments[i])
    ensures Contains(ContainsFailureText(errors, field, fragments), field)
    ensures forall j :: 0 <= j < |errors| ==> Contains(ContainsFailureText(errors, field, fragments), ToString(errors[j]))
  {
    var list := Join(", ", fragments);
    var all := Join("\n", Described(errors));
    var text := ContainsFailureText(errors, field, fragments);
    PartsShown("Expected message containing one of [", list, "] for field [", field,
               "] not found.\nAvailable errors:\n", all);
    forall i | 0 <= i < |fragments| ensures Contains(text, fragments[i]) {
      JoinContainsEach(", ", fragments, i);
      ContainsTransitive(text, list, fragments[i]);
    }
    forall j | 0 <= j < |errors| ensures Contains(text, ToString(errors[j])) {
      JoinContainsEach("\n", Described(errors), j);
      ContainsTransitive(text, all, ToString(errors[j]));
    }
  }

  // ------------------------------------------------------ structure checks

  /** assertValidResponseStructure: valid, no errors, status 200, checked in that order. */
  function AssertValidResponseStructure<T>(response: Response<T>): (v: Verdict)
    ensures v.Pass? <==> response.data.isValid && response.data.errors == [] && response.statusCode == 200
    ensures !response.data.isValid ==> v == Fail("Response should be valid")
  {
    if !response.data.isValid then Fail("Response should be valid")
    else if response.data.errors != [] then Fail("No validation errors expected")
    else if response.statusCode != 200 then Fail("Status code should be 200")
    else Pass
  }

  /** assertInvalidResponseStructure: invalid, some errors, status 400, checked in that order. */
  function AssertInvalidResponseStructure<T>(response: Response<T>): (v: Verdict)
    ensures v.Pass? <==> !response.data.isValid && response.data.errors != [] && response.statusCode == 400
    ensures response.data.isValid ==> v == Fail("Response should be invalid")
  {
    if response.data.isValid then Fail("Response should be invalid")
    else if response.data.errors == [] then Fail("Validation errors expected")
    else if response.statusCode != 400 then Fail("Status code should be 400")
    else Pass
  }

  /** No response passes both structure checks, and one whose isValid flag
      disagrees with the emptiness of its errors passes neither. */
  lemma StructureChecksExclusive<T>(response: Response<T>)
    ensures !(AssertValidResponseStructure(response).Pass? && AssertInvalidResponseStructure(response).Pass?)
    ensures response.data.isValid != (response.data.errors == []) ==>
              AssertValidResponseStructure(response).Fail? && AssertInvalidResponseStructure(response).Fail?
  {
  }

  // ----------------------------------------------------- error-format check

  /** One error of assertValidationErrorFormat: known column, then non-empty
      English message, then non-empty Arabic message. */
  function CheckErrorFormat(e: ValidationError): (v: Verdict)
    ensures v.Pass? <==> e.column in KnownColumns && e.message != [] && e.messageAr != []
  {
    if e.column !in KnownColumns then Fail("Unexpected column in validation error: " + e.column)
    else if e.message == [] then Fail("Error message should not be empty")
    else if e.messageAr == [] then Fail("Arabic error message should not be empty")
    else Pass
  }

  /** assertValidationErrorFormat: every error has a known column (compared
      exactly) and two non-empty messages; the first offender decides the
      failure, and an empty list passes. */
  function AssertValidationErrorFormat(errors: seq<ValidationError>): (v: Verdict)
    ensures v.Pass? <==> forall j :: 0 <= j < |errors| ==>
                           errors[j].column in KnownColumns && errors[j].message != [] && errors[j].messageAr != []
    ensures v.Fail? ==> exists k :: 0 <= k < |errors| && v == CheckErrorFormat(errors[k]) &&
                                    forall j :: 0 <= j < k ==> CheckErrorFormat(errors[j]).Pass?
  {
    FirstFailure(errors, CheckErrorFormat)
  }

  /** Column names are compared exactly: a lower-case spelling of a known
      column is rejected. */
  lemma ErrorFormatIsCaseSensitive()
    ensures AssertValidationErrorFormat([ValidationError("code", "x", "y")]).Fail?
    ensures AssertValidationErrorFormat([ValidationError("Code", "x", "y")]).Pass?
  {
    KnownColumnsCapitalised();
    assert !IsUpper("code"[0]);
    assert "code" !in KnownColumns;
    assert KnownColumns[2] == "Code";
  }

  /** Every known column starts with a capital letter. */
  lemma KnownColumnsCapitalised()
    ensures forall k :: 0 <= k < |KnownColumns| ==> |KnownColumns[k]| > 0 && IsUpper(KnownColumns[k][0])
  {
  }

  // ------------------------------------------------------------- catalog

  /** One allowed message of the catalog: a literal, or a pattern written
      `regex:^<prefix> \(.*\) <suffix>` in the table. */
  datatype CatalogEntry = Literal(text: string) | Regex(prefix: string, suffix: string)

  /** The entry as it is written in EXPECTED_ERROR_MESSAGES. */
  function EntrySource(entry: CatalogEntry): string
  {
    match entry
    case Literal(t) => t
    case Regex(p, q) => "regex:^" + p + " \\(.*\\) " + q
  }

  /** The characters `.` does not match in a java.util.regex pattern. */
  predicate IsLineTerminator(c: char)
  {
    c == '\n' || c == '\r' || c == '\U{0085}' || c == '\U{2028}' || c == '\U{2029}'
  }

  /** Pattern.compile("^" + prefix + " \\(.*\\) " + suffix, CASE_INSENSITIVE)
      .matcher(s).find(): `s` starts with `prefix (`, and later, with no line
      terminator in between, comes `) suffix`; letters compare up to ASCII case. */
  predicate RegexFind(prefix: string, suffix: string, s: string)
  {
    var head := Lower(prefix + " (");
    var tail := Lower(") " + suffix);
    var text := Lower(s);
    StartsWith(text, head) &&
    exists j :: |head| <= j <= |text| && OccursAt(text, tail, j) &&
                forall m :: |head| <= m < j ==> !IsLineTerminator(text[m])
  }

  /** One entry against the trimmed, lower-cased message: a literal by
      equality or containment, a pattern by find. */
  predicate EntryMatches(entry: CatalogEntry, actual: string)
  {
    match entry
    case Literal(t) =>
      var expected := Lower(Trim(t));
      actual == expected || Contains(actual, expected)
    case Regex(p, q) => RegexFind(p, q, actual)
  }

  /** The equality test of a literal entry adds nothing to its containment test. */
  lemma LiteralEqualitySubsumed(t: string, actual: string)
    ensures EntryMatches(Literal(t), actual) <==> Contains(actual, Lower(Trim(t)))
  {
    if actual == Lower(Trim(t)) { ContainsSelf(actual); }
  }

  const DeletedServiceText: string := "already exists but in a deleted service"

  /** A pattern match always brings its suffix along: on a lower-case message,
      a match of a pattern ending in the deleted-service text also contains
      that text. */
  lemma RegexFindContainsSuffix(p: string, q: string, actual: string)
    requires IsLowered(actual) && IsLowered(q)
    requires RegexFind(p, q, actual)
    ensures Contains(actual, q)
  {
    LowerOfLowered(actual);
    var tail := Lower(") " + q);
    LowerConcat(") ", q);
    LowerOfLowered(q);
    assert tail == ") " + q;
    var head := Lower(p + " (");
    var j :| |head| <= j <= |actual| && OccursAt(actual, tail, j) &&
             forall m :: |head| <= m < j ==> !IsLineTerminator(actual[m]);
    assert actual[j + 2..j + 2 + |q|] == tail[2..];
    ContainsAt(actual, q, j + 2);
  }

  // The rows of EXPECTED_ERROR_MESSAGES, one constant per column.
  const CodeRow: seq<CatalogEntry> := [Literal("code is required"), Literal("code already exists"), Literal("code length must not exceed 100"), Literal("codelengthexceeded100"), Literal(DeletedServiceText), Regex("code", DeletedServiceText)]
  const NameEnRow: seq<CatalogEntry> := [Literal("english name is required"), Literal("english name must be in english characters only"), Literal("nameen length must not exceed 100"), Literal("nameenlengthexceeded100"), Literal("english name already exists"), Literal(DeletedServiceText), Regex("english name", DeletedServiceText)]
  const NameArRow: seq<CatalogEntry> := [Literal("arabic name must be in arabic characters only"), Literal("namear length must not exceed 100"), Literal("namearlengthexceeded100"), Literal(DeletedServiceText), Regex("arabic name", DeletedServiceText)]
  const TitleEnRow: seq<CatalogEntry> := [Literal("english title is required"), Literal("titleen must be in english characters only"), Literal("titleen length must not exceed 100"), Literal("titleenlengthexceeded100"), Literal(DeletedServiceText), Regex("english title", DeletedServiceText)]
  const TitleArRow: seq<CatalogEntry> := [Literal("arabic title is required"), Literal("titlear must be in arabic characters only"), Literal("titlear length must not exceed 100"), Literal("titlearlengthexceeded100"), Literal(DeletedServiceText), Regex("arabic title", DeletedServiceText)]
  const AbbreviationEnRow: seq<CatalogEntry> := [Literal("abbreviationen must be in english characters only"), Literal("abbreviationen length must not exceed 25"), Literal("abbreviationenlengthexceeded25"), Literal(DeletedServiceText), Regex("english abbreviation", DeletedServiceText)]
  const AbbreviationArRow: seq<CatalogEntry> := [Literal("abbreviationar must be in arabic characters only"), Literal("abbreviationar length must not exceed 25"), Literal("abbreviationarlengthexceeded25"), Literal(DeletedServiceText), Regex("arabic abbreviation", DeletedServiceText)]
  const EffectiveDateRow: seq<CatalogEntry> := [Literal("effective date can not be earlier than today"), Literal("effectivedateinvalid")]
  const GroupRow: seq<CatalogEntry> := [Literal("group is required"), Literal("group is invalid"), Literal("selected group is not valid")]
  const SpecialtyRow: seq<CatalogEntry> := [Literal("specialty is required"), Literal("specialty is invalid"), Literal("selected specialty is not valid")]
  const CustomPropertyValuesRow: seq<CatalogEntry> := [Literal("custom property values are invalid"), Literal("custom property values are required"), Literal("selected custom property values is not valid")]

  /** EXPECTED_ERROR_MESSAGES as the list of entries handed to Map.ofEntries,
      with the entries for ReferenceAverageCost given apart. */
  function CatalogWith(referenceCost: seq<CatalogEntry>): seq<(string, seq<CatalogEntry>)>
  {
    [
      ("Code", CodeRow),
      ("NameEn", NameEnRow),
      ("NameAr", NameArRow),
      ("TitleEn", TitleEnRow),
      ("TitleAr", TitleArRow),
      ("AbbreviationEn", AbbreviationEnRow),
      ("AbbreviationAr", AbbreviationArRow),
      (ValidationErrorConsts.ReferenceAverageCost.column, referenceCost),
      ("EffectiveDate", EffectiveDateRow),
      ("Group", GroupRow),
      ("Specialty", SpecialtyRow),
      ("CustomPropertyValues", CustomPropertyValuesRow)
    ]
  }

  /** Each pattern entry is spelled as in the table: `regex:^`, the column's
      display name in lower case, an escaped parenthesised wildcard and the
      deleted-service text. */
  lemma RegexEntriesSpelled()
    ensures EntrySource(CodeRow[5]) == "regex:^code" + " \\(.*\\) " + DeletedServiceText
    ensures EntrySource(NameEnRow[6]) == "regex:^english name" + " \\(.*\\) " + DeletedServiceText
    ensures EntrySource(NameArRow[4]) == "regex:^arabic name" + " \\(.*\\) " + DeletedServiceText
    ensures EntrySource(TitleEnRow[5]) == "regex:^english title" + " \\(.*\\) " + DeletedServiceText
    ensures EntrySource(TitleArRow[5]) == "regex:^arabic title" + " \\(.*\\) " + DeletedServiceText
    ensures EntrySource(AbbreviationEnRow[4]) == "regex:^english abbreviation" + " \\(.*\\) " + DeletedServiceText
    ensures EntrySource(AbbreviationArRow[4]) == "regex:^arabic abbreviation" + " \\(.*\\) " + DeletedServiceText
  {
    CodePatternSpelled();
    NameEnPatternSpelled();
    NameArPatternSpelled();
    TitleEnPatternSpelled();
    TitleArPatternSpelled();
    AbbreviationEnPatternSpelled();
    AbbreviationArPatternSpelled();
  }

  lemma CodePatternSpelled()
    ensures EntrySource(CodeRow[5]) == "regex:^code" + " \\(.*\\) " + DeletedServiceText
  {
    assert CodeRow[5] == Regex("code", DeletedServiceText);
    assert "regex:^" + "code" == "regex:^code";
  }

  lemma NameEnPatternSpelled()
    ensures EntrySource(NameEnRow[6]) == "regex:^english name" + " \\(.*\\) " + DeletedServiceText
  {
    assert NameEnRow[6] == Regex("english name", DeletedServiceText);
    assert "regex:^" + "english name" == "regex:^english name";
  }

  lemma NameArPatternSpelled()
    ensures EntrySource(NameArRow[4]) == "regex:^arabic name" + " \\(.*\\) " + DeletedServiceText
  {
    assert NameArRow[4] == Regex("arabic name", DeletedServiceText);
    assert "regex:^" + "arabic name" == "regex:^arabic name";
  }

  lemma TitleEnPatternSpelled()
    ensures EntrySource(TitleEnRow[5]) == "regex:^english title" + " \\(.*\\) " + DeletedServiceText
  {
    assert TitleEnRow[5] == Regex("english title", DeletedServiceText);
    assert "regex:^" + "english title" == "regex:^english title";
  }

  lemma TitleArPatternSpelled()
    ensures EntrySource(TitleArRow[5]) == "regex:^arabic title" + " \\(.*\\) " + DeletedServiceText
  {
    assert TitleArRow[5] == Regex("arabic title", DeletedServiceText);
    assert "regex:^" + "arabic title" == "regex:^arabic title";
  }

  lemma AbbreviationEnPatternSpelled()
    ensures EntrySource(AbbreviationEnRow[4]) == "regex:^english abbreviation" + " \\(.*\\) " + DeletedServiceText
  {
    assert AbbreviationEnRow[4] == Regex("english abbreviation", DeletedServiceText);
    assert "regex:^" + "english abbreviation" == "regex:^english abbreviation";
  }

  lemma AbbreviationArPatternSpelled()
    ensures EntrySource(AbbreviationArRow[4]) == "regex:^arabic abbreviation" + " \\(.*\\) " + DeletedServiceText
  {
    assert AbbreviationArRow[4] == Regex("arabic abbreviation", DeletedServiceText);
    assert "regex:^" + "arabic abbreviation" == "regex:^arabic abbreviation";
  }

  /** Map.get over the entry list: the entries of the first row keyed by
      `column`, or nothing when no row is. */
  function Lookup(table: seq<(string, seq<CatalogEntry>)>, column: string): (r: Option<seq<CatalogEntry>>)
    ensures r.None? <==> forall n :: 0 <= n < |table| ==> table[n].0 != column
    ensures r.Some? ==> exists n :: 0 <= n < |table| && table[n] == (column, r.value) &&
                                    forall m :: 0 <= m < n ==> table[m].0 != column
    decreases |table|
  {
    if |table| == 0 then None
    else if table[0].0 == column then Some(table[0].1)
    else
      var r := Lookup(table[1..], column);
      assert r.Some? ==> exists n :: 0 <= n < |table| && table[n] == (column, r.value) &&
                                     forall m :: 0 <= m < n ==> table[m].0 != column by {
        if r.Some? {
          var n :| 0 <= n < |table[1..]| && table[1..][n] == (column, r.value) &&
                   forall m :: 0 <= m < n ==> table[1..][m].0 != column;
          assert table[n + 1] == (column, r.value);
          forall m | 0 <= m < n + 1 ensures table[m].0 != column {
            if m > 0 { assert table[m] == table[1..][m - 1]; }
          }
        }
      }
      r
  }

  /** The subject shared by the ReferenceAverageCost texts. */
  const ReferenceCostSubject: string := "reference average cost"
  const NegativeCostStraight: string := ReferenceCostSubject + " can't be negative"
  const NegativeCostCurly: string := ReferenceCostSubject + " can\U{2019}t be negative"

  /** The ReferenceAverageCost entries as the table holds them: the line
      meant to carry the curly apostrophe repeats the straight one. */
  const ReferenceCostEntriesAsWritten: seq<CatalogEntry> := [
    Literal(ReferenceCostSubject + " must be zero or more"), Literal("referenceaveragecostinvalid"),
    Literal(NegativeCostStraight), Literal(NegativeCostStraight),
    Literal(ReferenceCostSubject + " must be a valid number")]

  /** The ReferenceAverageCost entries with both apostrophe spellings, as intended. */
  const ReferenceCostEntries: seq<CatalogEntry> := [
    Literal(ReferenceCostSubject + " must be zero or more"), Literal("referenceaveragecostinvalid"),
    Literal(NegativeCostStraight), Literal(NegativeCostCurly),
    Literal(ReferenceCostSubject + " must be a valid number")]

  /** EXPECTED_ERROR_MESSAGES exactly as written. */
  function CatalogAsWritten(): seq<(string, seq<CatalogEntry>)> { CatalogWith(ReferenceCostEntriesAsWritten) }

  /** EXPECTED_ERROR_MESSAGES with the curly-apostrophe entry restored. */
  function Catalog(): seq<(string, seq<CatalogEntry>)> { CatalogWith(ReferenceCostEntries) }

  /** The row keys, in table order. */
  const CatalogColumns: seq<string> := [
    "Code", "NameEn", "NameAr", "TitleEn", "TitleAr", "AbbreviationEn", "AbbreviationAr",
    "ReferenceAverageCost", "EffectiveDate", "Group", "Specialty", "CustomPropertyValues"]

  /** The table has one row per catalogued column, keyed in table order, and
      every key is a known column. */
  lemma CatalogKeys(referenceCost: seq<CatalogEntry>)
    ensures |CatalogWith(referenceCost)| == |CatalogColumns|
    ensures forall n :: 0 <= n < |CatalogColumns| ==> CatalogWith(referenceCost)[n].0 == CatalogColumns[n]
    ensures forall n :: 0 <= n < |CatalogColumns| ==> CatalogColumns[n] in KnownColumns
  {
  }

  /** Status, Type and StatusReason are known columns without a row. */
  lemma StatusColumnsUncatalogued(referenceCost: seq<CatalogEntry>, column: string)
    requires column in ["Status", "Type", "StatusReason"]
    ensures column in KnownColumns
    ensures Lookup(CatalogWith(referenceCost), column).None?
  {
    CatalogKeys(referenceCost);
    assert column !in CatalogColumns;
  }

  /** Every pattern entry ends in the deleted-service text, and its row also
      lists that text as a literal. */
  lemma RegexRowsHaveDeletedLiteral(referenceCost: seq<CatalogEntry>, n: int, i: int)
    requires forall k :: 0 <= k < |referenceCost| ==> referenceCost[k].Literal?
    requires 0 <= n < |CatalogWith(referenceCost)|
    requires 0 <= i < |CatalogWith(referenceCost)[n].1| && CatalogWith(referenceCost)[n].1[i].Regex?
    ensures CatalogWith(referenceCost)[n].1[i].suffix == DeletedServiceText
    ensures Literal(DeletedServiceText) in CatalogWith(referenceCost)[n].1
  {
  }

  /** On a lower-case message, any pattern entry of a row that matches is
      backed by a literal entry of the same row that matches too. */
  lemma RegexMatchImpliesLiteralMatch(n: int, i: int, actual: string)
    requires 0 <= n < |Catalog()| && 0 <= i < |Catalog()[n].1| && Catalog()[n].1[i].Regex?
    requires IsLowered(actual)
    requires EntryMatches(Catalog()[n].1[i], actual)
    ensures Literal(DeletedServiceText) in Catalog()[n].1
    ensures EntryMatches(Literal(DeletedServiceText), actual)
  {
    RegexRowsHaveDeletedLiteral(ReferenceCostEntries, n, i);
    var entry := Catalog()[n].1[i];
    DeletedServiceTextFolds();
    RegexFindContainsSuffix(entry.prefix, entry.suffix, actual);
  }

  /** The columns whose row carries the deleted-service pattern. */
  const DeletedServiceColumns: seq<string> := CatalogColumns[..7]

  /** Each of the first seven rows lists the deleted-service text as a literal. */
  lemma DeletedLiteralInRow(referenceCost: seq<CatalogEntry>, k: int)
    requires 0 <= k < 7
    ensures Literal(DeletedServiceText) in CatalogWith(referenceCost)[k].1
  {
    var row := CatalogWith(referenceCost)[k].1;
    var at := [4, 5, 3, 4, 4, 3, 3][k];
    assert row[at] == Literal(DeletedServiceText);
  }

  /** Looking up any of those columns yields a row that lists the
      deleted-service text as a literal. */
  lemma DeletedServiceRowFound(referenceCost: seq<CatalogEntry>, column: string)
    requires column in DeletedServiceColumns
    ensures Lookup(CatalogWith(referenceCost), column).Some?
    ensures Literal(DeletedServiceText) in Lookup(CatalogWith(referenceCost), column).value
  {
    CatalogKeys(referenceCost);
    var table := CatalogWith(referenceCost);
    var n :| 0 <= n < 7 && CatalogColumns[n] == column;
    assert table[n].0 == column;
    var r := Lookup(table, column);
    var m :| 0 <= m < |table| && table[m] == (column, r.value) && forall k :: 0 <= k < m ==> table[k].0 != column;
    assert m <= n;
    DeletedLiteralInRow(referenceCost, m);
  }

  // ------------------------------------------------- catalog conformance

  /** One error of assertValidationMessages: its column needs a row, and its
      trimmed, lower-cased English message must match one of the row's
      entries; no apostrophe normalisation is applied. */
  function CheckMessage(catalog: seq<(string, seq<CatalogEntry>)>, e: ValidationError): (v: Verdict)
    ensures v.Pass? <==> Lookup(catalog, e.column).Some? &&
                         exists i :: 0 <= i < |Lookup(catalog, e.column).value| &&
                                     EntryMatches(Lookup(catalog, e.column).value[i], Lower(Trim(e.message)))
    ensures Lookup(catalog, e.column).None? ==> v == Fail("No expected messages configured for column: " + e.column)
  {
    match Lookup(catalog, e.column)
    case None => Fail("No expected messages configured for column: " + e.column)
    case Some(allowed) =>
      var actual := Lower(Trim(e.message));
      if AnyMatch(allowed, (entry: CatalogEntry) => EntryMatches(entry, actual)) then Pass
      else Fail(Filled(["Unexpected validation message for column ", ". Received: ", ""], [e.column, actual]))
  }

  /** assertValidationMessages against a given table: every error, in list
      order, must conform; the first that does not decides the failure. */
  function AssertValidationMessagesWith(catalog: seq<(string, seq<CatalogEntry>)>, errors: seq<ValidationError>): (v: Verdict)
    ensures v.Pass? <==> forall j :: 0 <= j < |errors| ==> CheckMessage(catalog, errors[j]).Pass?
    ensures v.Fail? ==> exists k :: 0 <= k < |errors| && v == CheckMessage(catalog, errors[k]) &&
                                    forall j :: 0 <= j < k ==> CheckMessage(catalog, errors[j]).Pass?
  {
    FirstFailure(errors, (e: ValidationError) => CheckMessage(catalog, e))
  }

  /** assertValidationMessages(response), against the table as written. */
  function AssertValidationMessages<T>(response: Response<T>): (v: Verdict)
    ensures v.Pass? <==> forall j :: 0 <= j < |response.data.errors| ==>
                           CheckMessage(CatalogAsWritten(), response.data.errors[j]).Pass?
  {
    AssertValidationMessagesWith(CatalogAsWritten(), response.data.errors)
  }

  /** assertValidationMessages(response), against the table with the
      curly-apostrophe entry restored. */
  function AssertValidationMessagesCorrected<T>(response: Response<T>): (v: Verdict)
    ensures v.Pass? <==> forall j :: 0 <= j < |response.data.errors| ==>
                           CheckMessage(Catalog(), response.data.errors[j]).Pass?
  {
    AssertValidationMessagesWith(Catalog(), response.data.errors)
  }

  /** A response with an error on Status, Type or StatusReason never
      conforms, to either table. */
  lemma UncataloguedColumnFails<T>(response: Response<T>, j: int)
    requires 0 <= j < |response.data.errors|
    requires response.data.errors[j].column in ["Status", "Type", "StatusReason"]
    ensures AssertValidationMessages(response).Fail?
    ensures AssertValidationMessagesCorrected(response).Fail?
  {
    StatusColumnsUncatalogued(ReferenceCostEntriesAsWritten, response.data.errors[j].column);
    StatusColumnsUncatalogued(ReferenceCostEntries, response.data.errors[j].column);
  }

  /** An error passes the table check once its column's row lists a literal
      entry that matches the folded message. */
  lemma ListedLiteralPasses(catalog: seq<(string, seq<CatalogEntry>)>, e: ValidationError, t: string)
    requires Lookup(catalog, e.column).Some? && Literal(t) in Lookup(catalog, e.column).value
    requires EntryMatches(Literal(t), Lower(Trim(e.message)))
    ensures CheckMessage(catalog, e).Pass?
  {
    var row := Lookup(catalog, e.column).value;
    var i :| 0 <= i < |row| && row[i] == Literal(t);
  }

  /** A lower-case literal entry is its own folded form. */
  lemma LiteralFolds(t: string)
    requires |t| > 0 && t[0] > ' ' && t[|t| - 1] > ' ' && IsLowered(t)
    ensures Lower(Trim(t)) == t
  {
    TrimVisible(t);
    LowerOfLowered(t);
  }

  /** The deleted-service text is lower case and starts and ends visibly, so
      it is its own folded form. */
  lemma DeletedServiceTextFolds()
    ensures IsLowered(DeletedServiceText)
    ensures Lower(Trim(DeletedServiceText)) == DeletedServiceText
  {
    LiteralFolds(DeletedServiceText);
  }

  /** Map.get("ReferenceAverageCost") yields the row given apart. */
  lemma ReferenceCostRow(referenceCost: seq<CatalogEntry>)
    ensures Lookup(CatalogWith(referenceCost), "ReferenceAverageCost") == Some(referenceCost)
  {
    CatalogKeys(referenceCost);
    assert CatalogWith(referenceCost)[7] == ("ReferenceAverageCost", referenceCost);
    assert forall m :: 0 <= m < 7 ==> CatalogColumns[m] != "ReferenceAverageCost";
  }

  /** No literal holding a non-capital character the folded message lacks
      can match it. */
  lemma LiteralMissingCharNoMatch(t: string, actual: string, k: int)
    requires |t| > 0 && t[0] > ' ' && t[|t| - 1] > ' '
    requires 0 <= k < |t| && !IsUpper(t[k]) && t[k] !in actual
    ensures !EntryMatches(Literal(t), actual)
  {
    TrimVisible(t);
    assert Lower(Trim(t))[k] == t[k];
    NotContainsMissingChar(actual, Lower(Trim(t)), k);
  }

  /** Characters the curly negative-cost text lacks, one per entry below. */
  lemma CurlyTextLacks()
    ensures 'z' !in NegativeCostCurly && 'd' !in NegativeCostCurly
    ensures '\'' !in NegativeCostCurly && 'm' !in NegativeCostCurly
  {
    SubjectLacks();
    CurlyPredicateLacks();
  }

  lemma SubjectLacks()
    ensures 'z' !in ReferenceCostSubject && 'd' !in ReferenceCostSubject
    ensures '\'' !in ReferenceCostSubject && 'm' !in ReferenceCostSubject
  {
  }

  lemma CurlyPredicateLacks()
    ensures 'z' !in " can\U{2019}t be negative" && 'd' !in " can\U{2019}t be negative"
    ensures '\'' !in " can\U{2019}t be negative" && 'm' !in " can\U{2019}t be negative"
  {
  }

  /** No entry of the row as written matches the curly negative-cost text. */
  lemma NoAsWrittenEntryMatchesCurly(i: int)
    requires 0 <= i < |ReferenceCostEntriesAsWritten|
    ensures !EntryMatches(ReferenceCostEntriesAsWritten[i], NegativeCostCurly)
  {
    CurlyTextLacks();
    var t := ReferenceCostEntriesAsWritten[i].text;
    var k := [31, 26, 26, 26, 23][i];
    assert t[k] in "zd'm";
    LiteralMissingCharNoMatch(t, NegativeCostCurly, k);
  }

  /** As written, the table rejects an error whose message folds to the
      curly spelling of the negative-cost text. */
  lemma CurlyNegativeCostMessageRejected(e: ValidationError)
    requires e.column == "ReferenceAverageCost" && Lower(Trim(e.message)) == NegativeCostCurly
    ensures CheckMessage(CatalogAsWritten(), e).Fail?
  {
    ReferenceCostRow(ReferenceCostEntriesAsWritten);
    forall i | 0 <= i < |ReferenceCostEntriesAsWritten|
      ensures !EntryMatches(ReferenceCostEntriesAsWritten[i], NegativeCostCurly)
    {
      NoAsWrittenEntryMatchesCurly(i);
    }
  }

  /** As written, assertValidationMessages fails every response that reports
      a ReferenceAverageCost message folding to the curly spelling. */
  lemma CurlyNegativeCostRejectedAsWritten<T>(response: Response<T>, j: int)
    requires 0 <= j < |response.data.errors|
    requires response.data.errors[j].column == "ReferenceAverageCost"
    requires Lower(Trim(response.data.errors[j].message)) == NegativeCostCurly
    ensures AssertValidationMessages(response).Fail?
  {
    CurlyNegativeCostMessageRejected(response.data.errors[j]);
  }

  /** Both negative-cost texts are their own folded forms; in particular the
      curly text is a message the rejection above applies to. */
  lemma NegativeCostTextsFold()
    ensures Lower(Trim(NegativeCostCurly)) == NegativeCostCurly
    ensures Lower(Trim(NegativeCostStraight)) == NegativeCostStraight
  {
    LiteralFolds(NegativeCostCurly);
    LiteralFolds(NegativeCostStraight);
  }

  /** A ReferenceAverageCost error passes once a literal of the intended row
      matches its folded message. */
  lemma ReferenceCostEntryPasses(e: ValidationError, t: string)
    requires e.column == "ReferenceAverageCost" && Literal(t) in ReferenceCostEntries
    requires EntryMatches(Literal(t), Lower(Trim(e.message)))
    ensures CheckMessage(Catalog(), e).Pass?
  {
    ReferenceCostRow(ReferenceCostEntries);
    ListedLiteralPasses(Catalog(), e, t);
  }

  /** The intended row lists both spellings as literals. */
  lemma NegativeCostEntriesListed()
    ensures Literal(NegativeCostStraight) in ReferenceCostEntries
    ensures Literal(NegativeCostCurly) in ReferenceCostEntries
  {
    assert ReferenceCostEntries[2] == Literal(NegativeCostStraight);
    assert ReferenceCostEntries[3] == Literal(NegativeCostCurly);
  }

  /** With the intended table an error whose message folds to either
      spelling of the negative-cost text conforms. */
  lemma NegativeCostMessageConforms(e: ValidationError)
    requires e.column == "ReferenceAverageCost"
    requires Lower(Trim(e.message)) == NegativeCostCurly || Lower(Trim(e.message)) == NegativeCostStraight
    ensures CheckMessage(Catalog(), e).Pass?
  {
    NegativeCostTextsFold();
    NegativeCostEntriesListed();
    var actual := Lower(Trim(e.message));
    assert EntryMatches(Literal(actual), actual);
    ReferenceCostEntryPasses(e, actual);
  }

  /** With the intended table, a response whose errors all report a
      negative reference cost, in either apostrophe spelling, conforms. */
  lemma BothNegativeCostSpellingsAccepted<T>(response: Response<T>)
    requires forall j :: 0 <= j < |response.data.errors| ==>
               response.data.errors[j].column == "ReferenceAverageCost" &&
               (Lower(Trim(response.data.errors[j].message)) == NegativeCostCurly ||
                Lower(Trim(response.data.errors[j].message)) == NegativeCostStraight)
    ensures AssertValidationMessagesCorrected(response).Pass?
  {
    forall j | 0 <= j < |response.data.errors|
      ensures CheckMessage(Catalog(), response.data.errors[j]).Pass?
    {
      NegativeCostMessageConforms(response.data.errors[j]);
    }
  }
}
