# Medical-project API test suite: assertion helpers and stores

This project is a Dafny model of the logic at the core of a Java/TestNG API test suite
for a medical master-data service (services, their names, codes, costs and statuses).
It models the parts that compute rather than talk to the network:

- **Validation assertions** (`Base/ValidationUtils.java`, `Utils/ValidationUtils.java`,
  `Base/TestBase.java`). Each assertion helper is a function from a decoded response to
  a `Verdict`: it passes, or it fails with the text the test framework would show. The
  helpers covered are:
  - the response-structure checks;
  - the error-format check against the closed column vocabulary;
  - the "field contains fragment" matchers, with and without apostrophe normalisation;
  - the expected-message catalog check, including its `regex:` entries.
- **Expected-message builders** (`Validators/ValidationErrorConsts.java`). The column
  descriptors and every builder of the `ValidationError` triples that tests expect.
  `String.format` with `%s` conversions is modelled by a template interpreter, and each
  builder is proved equal to it.
- **Key-value stores**. These are classes whose methods update their fields: the
  test-data cache, the two configuration readers/writers, and a `java.util.Properties`
  model with a properties file that may be missing, unreadable or damaged.
- **Test-case lookup**. Finding a test case by name, case-insensitively, in a data file,
  both uncached and behind a load-once cache.
- **Report arithmetic** (`Utils/ReportUtils.java`). Reading counts and timing from
  Allure's summary, the duration fallback, "N/A" cells and the `"m min s sec"` duration
  text, using Java's truncating division and `Duration`'s floor semantics.

Java's `String` is `seq<char>`. `toLowerCase`/`equalsIgnoreCase` fold ASCII letters.
`trim` strips characters up to U+0020. Java `long` arithmetic is written with unbounded
integers plus an explicit range lemma.

## Model

| member | source | states |
|---|---|---|
| Validators.AnyMatch | src/test/java/Utils/ValidationUtils.java:20-23 | `anyMatch` is true exactly when some element satisfies the predicate, and false on an empty list |
| Validators.FirstFailure | src/test/java/Base/ValidationUtils.java:154-161 | a `forEach` whose body asserts passes iff every element's check passes; otherwise its failure is the failure of the first failing element, every earlier one passing |
| Validators.ToStringIsBracketed | src/test/java/Validators/ValidationError.java:24-26 | `toString` is `String.format("[%s]: %s (%s)")`: the column in brackets, then the message, then the Arabic message in parentheses |
| ValidationErrorConsts.Column | src/test/java/Validators/ValidationErrorConsts.java:48-50 | a column descriptor keeps its key and uses the one display name for both languages |
| ValidationErrorConsts.CreateMonolingual | src/test/java/Validators/ValidationErrorConsts.java:32-50 | for every `Columns` constant the English and Arabic texts of a `create`d error coincide, whatever the template |
| ValidationErrorConsts.Create | src/test/java/Validators/ValidationErrorConsts.java:133-137 | the error reports the descriptor's column; its message puts the English name in the template's slot and its Arabic message puts the Arabic name there |
| ValidationErrorConsts.CreateIsFormat | src/test/java/Validators/ValidationErrorConsts.java:133-137 | for any percent-free pieces, the template is a well-formed one-argument format string and `create` equals `String.format` of it with the English, then the Arabic, name |
| ValidationErrorConsts.AlreadyExists | src/test/java/Validators/ValidationErrorConsts.java:55-57 | the column's own key, and "<name> already exists, please enter a new one" in each language's name |
| ValidationErrorConsts.CantBeEmpty | src/test/java/Validators/ValidationErrorConsts.java:59-61 | the column's own key, and "<name> can't be empty" in each language's name |
| ValidationErrorConsts.SelectedNotValid | src/test/java/Validators/ValidationErrorConsts.java:95-97 | the column's own key, and "Selected <name> is not valid" in each language's name |
| ValidationErrorConsts.ReferenceCostBuildersColumn | src/test/java/Validators/ValidationErrorConsts.java:63-91 | all three reference-cost builders report `ReferenceAverageCost`, and the "both apostrophes" builder carries one identical text in both fields |
| ValidationErrorConsts.EffectiveDateEarlierThanToday | src/test/java/Validators/ValidationErrorConsts.java:99-103 | the error reports the caller's column with the fixed English text "Effective date can not be earlier than today" |
| ValidationErrorConsts.StatusToNew | src/test/java/Validators/ValidationErrorConsts.java:105-109 | the error reports the caller's column with the fixed English text "Status can’t change back to 'New'", whose "can’t" carries the curly apostrophe U+2019 while the quotes around New are straight |
| ValidationErrorConsts.ColumnFreeTexts | src/test/java/Validators/ValidationErrorConsts.java:99-109 | the texts of the effective-date and status-to-new errors do not depend on the column |
| ValidationErrorConsts.ColumnAlreadyExistsButDeleted | src/test/java/Validators/ValidationErrorConsts.java:111-117 | the column's key; the English text names the column, the value in parentheses and the deleted entity type, then the advice; the Arabic text fills the Arabic template with the same arguments |
| ValidationErrorConsts.CantChangeAlreadyLinked | src/test/java/Validators/ValidationErrorConsts.java:119-125 | the column's key; the English text repeats the entity type twice around the column name and ends with the linked-to entity; the Arabic template takes three arguments |
| ValidationErrorConsts.SingleStatusCantChangeNoLinked | src/test/java/Validators/ValidationErrorConsts.java:127-131 | always the `Status` column, with the entity type and the linked-to entity in both texts |
| ValidationErrorConsts.PseudoColumns | src/test/java/Validators/ValidationErrorConsts.java:140-156 | three builders report fixed pseudo-columns that no `Columns` constant carries; the single-status builder reports `Status` |
| BaseValidationUtils.NormalizeApostrophes | src/test/java/Base/ValidationUtils.java:186-188 | the length is kept; each curly apostrophe becomes a straight one and every other character stays in place |
| BaseValidationUtils.NormalizeIdempotent | src/test/java/Base/ValidationUtils.java:186-188 | no curly apostrophe survives, so normalising twice equals normalising once |
| BaseValidationUtils.ApostropheSpellingsAgree | src/test/java/Base/ValidationUtils.java:186-188 | texts that differ only in apostrophe spelling normalise to the same text |
| BaseValidationUtils.LowerNormalizeCommute | src/test/java/Base/ValidationUtils.java:170-173 | lower-casing and normalising commute |
| BaseValidationUtils.NormalizePreservesContains | src/test/java/Base/ValidationUtils.java:170-173 | if a message contains a fragment, its normal form contains the fragment's normal form |
| BaseValidationUtils.Described | src/test/java/Base/ValidationUtils.java:178-180 | one rendered line per error, in list order |
| BaseValidationUtils.AssertValidationContains | src/test/java/Base/ValidationUtils.java:164-184 | passes iff some fragment matches some error: the column equals the field up to case and the folded English or Arabic message contains the folded fragment; otherwise fails with the listing diagnostic |
| BaseValidationUtils.NoFragmentsFail | src/test/java/Base/ValidationUtils.java:167-175 | with no fragments the assertion always fails |
| BaseValidationUtils.EmptyFragmentNeedsOnlyColumn | src/test/java/Base/ValidationUtils.java:167-175 | the empty fragment passes as soon as one error carries the field's column |
| BaseValidationUtils.OwnMessageFound | src/test/java/Base/ValidationUtils.java:167-175 | every reported error is found again by its own column and message |
| BaseValidationUtils.FoldedFragmentsInterchangeable | src/test/java/Base/ValidationUtils.java:170-173 | fragments that agree up to case and apostrophe spelling give the same verdict |
| BaseValidationUtils.FailureTextShowsEverything | src/test/java/Base/ValidationUtils.java:177-183 | the failure text contains every fragment, the field and every rendered error |
| BaseValidationUtils.AssertValidResponseStructure | src/test/java/Base/ValidationUtils.java:137-143 | passes iff the response is valid, has no errors and has status 200; an invalid flag is reported first |
| BaseValidationUtils.AssertInvalidResponseStructure | src/test/java/Base/ValidationUtils.java:145-151 | passes iff the response is invalid, has errors and has status 400; a valid flag is reported first |
| BaseValidationUtils.StructureChecksExclusive | src/test/java/Base/ValidationUtils.java:137-151 | no response passes both structure checks; one whose flag disagrees with its error list passes neither |
| BaseValidationUtils.CheckErrorFormat | src/test/java/Base/ValidationUtils.java:155-160 | one error passes iff its column is a known column and both messages are non-empty |
| BaseValidationUtils.AssertValidationErrorFormat | src/test/java/Base/ValidationUtils.java:153-162 | passes iff every error is well formed; a failure is the failure of the first offender |
| BaseValidationUtils.KnownColumnsCapitalised | src/test/java/Base/ValidationUtils.java:21-25 | every known column starts with a capital letter |
| BaseValidationUtils.ErrorFormatIsCaseSensitive | src/test/java/Base/ValidationUtils.java:155-156 | column names are compared exactly: "code" is rejected where "Code" passes |
| BaseValidationUtils.LiteralEqualitySubsumed | src/test/java/Base/ValidationUtils.java:209-210 | a literal entry matches iff the folded message contains it; the equality test adds nothing |
| BaseValidationUtils.RegexFindContainsSuffix | src/test/java/Base/ValidationUtils.java:204-207 | on a lower-case message, a `find` of `^p \(.*\) q` with lower-case `q` implies the message contains `q` |
| BaseValidationUtils.RegexEntriesSpelled | src/test/java/Base/ValidationUtils.java:36-88 | each of the seven pattern entries is written `regex:^<display name in lower case> \\(.*\\) already exists but in a deleted service`, as in the table |
| BaseValidationUtils.Lookup | src/test/java/Base/ValidationUtils.java:197-202 | absent iff no row has the column as key; otherwise the entries of the first row so keyed |
| BaseValidationUtils.CatalogKeys | src/test/java/Base/ValidationUtils.java:28-121 | the table has twelve rows keyed in order, and every key is a known column |
| BaseValidationUtils.StatusColumnsUncatalogued | src/test/java/Base/ValidationUtils.java:197-199 | `Status`, `Type` and `StatusReason` are known columns without a row |
| BaseValidationUtils.RegexRowsHaveDeletedLiteral | src/test/java/Base/ValidationUtils.java:30-89 | every pattern entry ends in the deleted-service text, and its row also lists that text as a literal |
| BaseValidationUtils.RegexMatchImpliesLiteralMatch | src/test/java/Base/ValidationUtils.java:203-211 | on a lower-case message, any matching pattern entry is backed by a matching literal entry in the same row |
| BaseValidationUtils.DeletedLiteralInRow | src/test/java/Base/ValidationUtils.java:30-89 | each of the first seven rows lists the deleted-service literal |
| BaseValidationUtils.DeletedServiceRowFound | src/test/java/Base/ValidationUtils.java:197-202 | looking up any of those seven columns finds a row with the deleted-service literal |
| BaseValidationUtils.CheckMessage | src/test/java/Base/ValidationUtils.java:193-215 | one error passes iff its column has a row and some entry matches its trimmed, lower-cased English message; an uncatalogued column fails with "No expected messages configured for column: " |
| BaseValidationUtils.AssertValidationMessagesWith | src/test/java/Base/ValidationUtils.java:190-217 | passes iff every error conforms; a failure is the first non-conforming error's failure |
| BaseValidationUtils.AssertValidationMessages | src/test/java/Base/ValidationUtils.java:190-217 | passes iff every error of the response conforms to the table exactly as written |
| BaseValidationUtils.AssertValidationMessagesCorrected | src/test/java/Base/ValidationUtils.java:190-217 | passes iff every error conforms to the table with the curly-apostrophe entry of line 95 restored |
| BaseValidationUtils.UncataloguedColumnFails | src/test/java/Base/ValidationUtils.java:197-199 | any error on `Status`, `Type` or `StatusReason` makes the whole check fail, against either table |
| BaseValidationUtils.ListedLiteralPasses | src/test/java/Base/ValidationUtils.java:203-211 | an error passes once its row lists a literal that matches its folded message |
| BaseValidationUtils.LiteralFolds | src/test/java/Base/ValidationUtils.java:209 | a lower-case literal with visible ends is its own folded form |
| BaseValidationUtils.DeletedServiceTextFolds | src/test/java/Base/ValidationUtils.java:35 | the deleted-service literal is lower case and is its own folded form |
| BaseValidationUtils.ReferenceCostRow | src/test/java/Base/ValidationUtils.java:91-97 | looking up `ReferenceAverageCost` yields exactly that row |
| BaseValidationUtils.LiteralMissingCharNoMatch | src/test/java/Base/ValidationUtils.java:209-210 | a literal holding a non-capital character that the message lacks cannot match it |
| BaseValidationUtils.NoAsWrittenEntryMatchesCurly | src/test/java/Base/ValidationUtils.java:91-97 | no entry of the row as written matches the curly-apostrophe negative-cost text |
| BaseValidationUtils.CurlyNegativeCostMessageRejected | src/test/java/Base/ValidationUtils.java:91-97 | as written, a `ReferenceAverageCost` error whose message folds to the curly spelling does not conform |
| BaseValidationUtils.CurlyNegativeCostRejectedAsWritten | src/test/java/Base/ValidationUtils.java:94-95 | as written, `assertValidationMessages` fails every response reporting a `ReferenceAverageCost` message that folds to the curly spelling |
| BaseValidationUtils.NegativeCostTextsFold | src/test/java/Base/ValidationUtils.java:94-95 | both spellings of the negative-cost text are their own folded forms |
| BaseValidationUtils.ReferenceCostEntryPasses | src/test/java/Base/ValidationUtils.java:91-97 | a reference-cost error passes once a literal of the corrected row matches it |
| BaseValidationUtils.NegativeCostEntriesListed | src/test/java/Base/ValidationUtils.java:94-95 | the corrected row lists both spellings |
| BaseValidationUtils.NegativeCostMessageConforms | src/test/java/Base/ValidationUtils.java:91-97 | with the corrected row, a `ReferenceAverageCost` error folding to either spelling conforms |
| BaseValidationUtils.BothNegativeCostSpellingsAccepted | src/test/java/Base/ValidationUtils.java:94-95 | with the corrected table, a response whose errors all report a negative reference cost, in either spelling, passes |
| CatalogCoverage.DeletedServiceMessageShape | src/test/java/Validators/ValidationErrorConsts.java:111-113 | a deleted-service message is a head naming column and value, the deleted-service text, then the advice |
| CatalogCoverage.DeletedServiceMessageFolds | src/test/java/Base/ValidationUtils.java:195 | folded as the catalog check folds it, such a message still holds the deleted-service text |
| CatalogCoverage.DeletedServiceEntryMatches | src/test/java/Base/ValidationUtils.java:209-210 | the deleted-service literal matches every folded message that holds the text |
| CatalogCoverage.DeletedServiceMessageConforms | src/test/java/Base/ValidationUtils.java:30-89 | every `columnAlreadyExistsButDeleted(..., "service")` error on the seven columns whose rows carry the deleted-service entries passes the catalog check, whatever the value, with the table as written or corrected |
| TestBase.AssertPositiveResponse | src/test/java/Base/TestBase.java:206-214 | passes iff status 200, the valid flag and a non-null row; a wrong status is reported first; the decoded-flag assertion can never be the one that fails |
| TestBase.AssertNegativeResponse | src/test/java/Base/TestBase.java:216-229 | passes iff the invalid-structure check passes and, when a part is given, some error's English message contains it up to case, with the column equal to the field when one is given; a structure failure is passed through; a part failure names the part and lists the errors |
| TestBase.AssertNegativeResponseAny | src/test/java/Base/TestBase.java:231-233 | the no-filter form is exactly the invalid-structure check |
| TestBase.NegativeImpliesInvalid | src/test/java/Base/TestBase.java:216-229 | a passing negative check means status 400, invalid, with at least one error, and the positive check fails on the same response |
| TestBase.FieldFilterOnlyNarrows | src/test/java/Base/TestBase.java:223 | dropping the field filter never turns a pass into a failure |
| TestBase.PartCaseInsensitive | src/test/java/Base/TestBase.java:224 | parts that agree up to letter case give the same verdict |
| TestBase.NegativeFailureShowsPartAndErrors | src/test/java/Base/TestBase.java:226-227 | when the part filter fails, a part was given and the failure text contains it and every rendered error |
| TestBase.NoApostropheNormalisation | src/test/java/Base/TestBase.java:222-224 | unlike the Base matcher, this filter does not normalise apostrophes: a curly part misses a straight message that the Base matcher accepts |
| UtilsValidationUtils.PojoToString | src/test/java/Pojo/Common/ValidationError.java:26-33 | the rendering contains the column and both messages |
| UtilsValidationUtils.AssertValidationContains | src/test/java/Utils/ValidationUtils.java:17-29 | passes iff some error's column equals the field up to case and its English message contains the text up to case; otherwise fails with the listing diagnostic |
| UtilsValidationUtils.AssertValidations | src/test/java/Utils/ValidationUtils.java:31-35 | passes iff every expectation passes; a failure is the first failing expectation's failure; an empty list passes |
| UtilsValidationUtils.BaseMatcherAtLeastAsPermissive | src/test/java/Utils/ValidationUtils.java:20-23 | whatever this matcher accepts, the Base matcher accepts with the same text as its only fragment |
| UtilsValidationUtils.OnlyColumnsAndMessagesDecide | src/test/java/Utils/ValidationUtils.java:20-23 | responses that agree on the columns and English messages get the same verdict |
| UtilsValidationUtils.FailureTextShowsEverything | src/test/java/Utils/ValidationUtils.java:25-27 | the failure text contains the text, the field and every rendered error |
| PropertyFiles.GetProperty | src/main/java/Utils/TestDataCache.java:46 | present iff the key is in the table, and then its value |
| PropertyFiles.SetPropertyOnlyChangesKey | src/main/java/Utils/TestDataCache.java:30 | after a set, the key reads back the value and every other key reads as before |
| PropertyFiles.AfterStore | src/main/java/Utils/TestDataCache.java:34-36 | a store that succeeds leaves the table in the file; one that cannot open leaves the file as it was; one that fails while writing leaves a cut-short file holding the surviving lines |
| PropertyFiles.Loaded | src/main/java/Utils/TestDataCache.java:16-18 | a complete file loads its entries and a cut-short one its surviving lines; a missing or unreadable file loads nothing |
| PropertyFiles.StoreThenLoad | src/main/java/Utils/TestDataCache.java:34-36 | a successful store loads back unchanged |
| TestDataCache.TestDataCache.constructor | src/main/java/Utils/TestDataCache.java:10-23 | the table holds whatever the file loads (a cut-short file's surviving lines included), and is empty when the file is missing or unreadable |
| TestDataCache.TestDataCache.Save | src/main/java/Utils/TestDataCache.java:25-40 | a null key or value throws and changes nothing; otherwise the key is set, the file reflects the store, and the call returns normally even when the store fails |
| TestDataCache.TestDataCache.Get | src/main/java/Utils/TestDataCache.java:42-47 | a null key throws; otherwise the stored value or null |
| TestDataCache.SaveThenGet | src/main/java/Utils/TestDataCache.java:25-47 | a saved value reads back whatever the store did, and other keys are unchanged |
| TestDataCache.SaveThenReload | src/main/java/Utils/TestDataCache.java:10-40 | a cache reloaded from the file after a successful save sees the same table and the saved value |
| MainConfig.TestDataKey | src/main/java/Utils/ConfigReaderWriter.java:127-136 | the key carries the `testdata.` prefix followed by the given key |
| MainConfig.TestDataKeysSeparate | src/main/java/Utils/ConfigReaderWriter.java:127-136 | distinct keys map to distinct prefixed keys, and no prefixed key is a key without the prefix |
| MainConfig.Decrypted | src/main/java/Utils/ConfigReaderWriter.java:65-77 | succeeds iff the key is present and decrypts, with the decrypted value; every failure is "Failed to decrypt property: <key>" |
| MainConfig.ConfigReaderWriter.constructor | src/main/java/Utils/ConfigReaderWriter.java:19-35 | the table holds what the file loads |
| MainConfig.ConfigReaderWriter.GetPropKey | src/main/java/Utils/ConfigReaderWriter.java:49-62 | the stored value, or null |
| MainConfig.ConfigReaderWriter.GetDecryptedPropKey | src/main/java/Utils/ConfigReaderWriter.java:65-77 | decrypting the stored value, as `Decrypted` states |
| MainConfig.ConfigReaderWriter.SetPropKey | src/main/java/Utils/ConfigReaderWriter.java:80-97 | if the stream cannot open, nothing changes; otherwise the key is set and the file stored (damaged on a write fault); any fault throws "Failed to update config.properties" |
| MainConfig.ConfigReaderWriter.SetEncryptedPropKey | src/main/java/Utils/ConfigReaderWriter.java:100-114 | stores the encrypted value under the key; an encryption failure changes nothing; any failure throws "Failed to encrypt property: <key>" |
| MainConfig.ConfigReaderWriter.SaveTestData | src/main/java/Utils/ConfigReaderWriter.java:127-129 | `setPropKey` under the prefixed key |
| MainConfig.ConfigReaderWriter.GetTestData | src/main/java/Utils/ConfigReaderWriter.java:131-133 | `getPropKey` under the prefixed key |
| MainConfig.ConfigReaderWriter.ClearTestData | src/main/java/Utils/ConfigReaderWriter.java:135-137 | the prefixed key is kept with the empty value, not removed |
| MainConfig.Initialize | src/main/java/Utils/ConfigReaderWriter.java:19-46 | class initialisation fails with "Failed to load config.properties" iff the file is missing or unreadable; otherwise the table holds what it loads, a cut-short file's surviving lines included |
| MainConfig.TestDataRoundTrip | src/main/java/Utils/ConfigReaderWriter.java:127-137 | save then get returns the value; clear then get returns ""; an unprefixed key is untouched |
| MainConfig.EncryptedRoundTrip | src/main/java/Utils/ConfigReaderWriter.java:65-114 | with a decryptor that inverts the encryptor, an encrypted set reads back the original value |
| TestConfig.ConfigReaderWriter.constructor | src/test/java/Utils/ConfigReaderWriter.java:13-19 | the table holds what the file loads |
| TestConfig.ConfigReaderWriter.GetPropKey | src/test/java/Utils/ConfigReaderWriter.java:24-26 | the stored value, or null |
| TestConfig.ConfigReaderWriter.SetPropKey | src/test/java/Utils/ConfigReaderWriter.java:28-35 | the key is set in memory before the store, so it stays set even when the store fails; any fault throws "Failed to update config.properties" |
| TestConfig.Initialize | src/test/java/Utils/ConfigReaderWriter.java:13-19 | initialisation fails with "Failed to load config.properties: " plus the I/O message iff the file is missing or unreadable; otherwise the table holds what it loads, a cut-short file's surviving lines included |
| TestConfig.SetThenGet | src/test/java/Utils/ConfigReaderWriter.java:24-35 | set then get returns the value even when the store failed; other keys are unchanged |
| TestDataLookup.FindTestCase | src/test/java/Utils/TestDataLoader.java:24-27 | found iff some entry's name equals the request up to case, and then the first such entry; otherwise "Test case not found: <name>" |
| TestDataLookup.FindSameUnderCase | src/test/java/Utils/TestDataLoader.java:25 | the lookup depends on the requested name only through its lower-case form |
| TestDataLookup.FoundNameMatches | src/test/java/Utils/TestDataLoader.java:24-27 | the entry found answers to the name, and any request differing only in case finds the same entry |
| TestDataLookup.LoadTestCaseByName | src/test/java/Utils/TestDataLoader.java:16-28 | reads `basePath + fileName` afresh: unreadable if absent, otherwise the lookup in its entries |
| BaseTestDataLoader.TestDataLoader.constructor | src/test/java/Base/TestDataLoader.java:20 | the cache starts empty |
| BaseTestDataLoader.TestDataLoader.LoadTestCaseByName | src/test/java/Base/TestDataLoader.java:23-40 | a cached key answers from the cached list; a miss parses the file and caches it, or fails unreadable; existing entries are never changed; with the file unchanged since it was cached, this agrees with the uncached loader |
| BaseTestDataLoader.CachedListWins | src/test/java/Base/TestDataLoader.java:25-34 | a second call under the same key, even through a different split of the path, answers from the cached list, not from the changed file |
| ReportUtils.NumberAt | src/main/java/Utils/ReportUtils.java:88 | `path(field).asInt()`: the field's value, or 0 when it is missing |
| ReportUtils.ExtractTestStats | src/main/java/Utils/ReportUtils.java:86-89 | the four counts, each 0 when missing |
| ReportUtils.ExtractTestTiming | src/main/java/Utils/ReportUtils.java:92-106 | the duration is replaced iff it is 0 and 0 < start < stop, and then by the positive stop - start; an instant is present iff positive |
| ReportUtils.RecomputedDurationFits | src/main/java/Utils/ReportUtils.java:101-103 | the recomputed duration fits a `long`, lying strictly between 0 and stop |
| ReportUtils.TimeCell | src/main/java/Utils/ReportUtils.java:153 | an absent instant renders "N/A", a present one its formatted value |
| ReportUtils.NonPositiveStartIsNA | src/main/java/Utils/ReportUtils.java:105 | a non-positive start renders "N/A" whatever the formatter |
| ReportUtils.DurationPartsNonNegative | src/main/java/Utils/ReportUtils.java:157-162 | for a non-negative duration, the minutes are the whole minutes, the seconds lie in [0, 60), and they recombine into the whole seconds |
| ReportUtils.DurationPartsRecombine | src/main/java/Utils/ReportUtils.java:157-162 | for any duration the parts recombine into the whole seconds, and the seconds part lies in (-60, 60) with the sign of the whole |
| ReportUtils.NegativeDurationExample | src/main/java/Utils/ReportUtils.java:157-162 | -1500 ms is printed as "0 min -2 sec" |
| ReportUtils.DurationTextDecodes | src/main/java/Utils/ReportUtils.java:161 | the text "<m> min <s> sec" determines both numbers |
| ReportUtils.FormatDurationDecodes | src/main/java/Utils/ReportUtils.java:157-162 | two durations print alike iff they have the same whole seconds |
| JavaStrings.FormatTemplate | src/test/java/Validators/ValidationErrorConsts.java:134-135 | a template spelled from percent-free pieces around `%s` slots is well formed, takes as many arguments as it has slots, and `String.format` fills them in order |
| JavaStrings.TrimIsInfix | src/test/java/Base/ValidationUtils.java:195 | the trimmed text occurs inside the original |
| JavaStrings.JoinContainsEach | src/test/java/Base/ValidationUtils.java:178-180 | a joined text contains every part |
| JavaStrings.IntToStringInjective | src/main/java/Utils/ReportUtils.java:161 | distinct integers render differently under `%d` |
| JavaStrings.NatToStringRoundTrip | src/main/java/Utils/ReportUtils.java:161 | reading a rendered natural number's digits back gives the number |

## Left out

- JSON decoding (Jackson, RestAssured `jsonPath`) is not modelled. Responses, error lists, data files and Allure summaries are already-decoded values. A file that cannot be opened or parsed is one error case.
- Null fields and arguments are not modelled: error columns and messages, `getErrors()`, keys and values are non-null strings, so the resulting `NullPointerException`s are absent. The cache's and the loader's explicit null checks are modelled with `Option`.
- Texts produced by TestNG and RestAssured are approximated. The "expected [..] but found [..]" suffix TestNG adds to assertion messages is not reproduced, and RestAssured's status and body-matcher messages are fixed strings.
- Java's `toLowerCase` is locale- and Unicode-aware. Here it folds ASCII letters only, so non-ASCII letters (Arabic has no case) compare as they are.
- Catalog patterns are modelled only in the one shape the table uses, `regex:^<prefix> \(.*\) <suffix>` with `find` and case-insensitive matching. General `java.util.regex` is not modelled.
- Locks, `synchronized` and the `ConcurrentHashMap` are not modelled. Every call runs alone.
- AES encryption and decryption are function parameters, and `None` stands for a thrown exception.
- File-system effects are inputs. These are: whether a file exists or reads, whether an output stream opens, and whether a write fails. The entries a cut-short file still yields are an input too; which lines survive a failed write is not modelled.
- PropertyFiles.Loaded: a file cut inside a `\uXXXX` escape makes `Properties.load` throw an uncaught `IllegalArgumentException`; that case is not modelled, and a cut-short file always loads its surviving lines.
- The date formatter and `LocalDateTime.now()` of the report are parameters or left out. The HTML report text, the Allure command line, the e-mail, the zip and the database calls are not part of this model.
- JSON number coercion in `asInt`/`asLong` is not modelled. Fields are integers, and a missing field reads 0.
- BaseTestDataLoader.TestDataLoader.LoadTestCaseByName: the Java cache is one static map shared by every entity type, with an unchecked cast. Here one loader holds the lists of one type, so a key cached under another type is not modelled.
- MainConfig.Initialize: the static initialiser is a method returning the loaded store or the initialisation error. The one shared static table is one object passed to callers.
- The assertion helpers of `Base/ValidationUtils.java:219-231` have empty bodies and are not modelled.
- Test setup and teardown in `Base/TestBase.java` are not part of this model. This covers logging, REST Assured configuration, report generation and database cleanup.

## Findings

| source | as written | input that shows it | evidently intended | confidence | as-written member | corrected member |
|---|---|---|---|---|---|---|
| src/test/java/Base/ValidationUtils.java:95 | the entry commented "curly apostrophe" is spelled with a straight apostrophe, repeating line 94 | a `ReferenceAverageCost` error whose message folds to "reference average cost can’t be negative" (U+2019) | the entry spelled with U+2019, so that both spellings are accepted (proved of the corrected check by `BothNegativeCostSpellingsAccepted`) | not executed | BaseValidationUtils.CurlyNegativeCostRejectedAsWritten | BaseValidationUtils.AssertValidationMessagesCorrected |

The code differs from the repository's prose description in two places, and the model follows the code:

- `assertValidationContains` with no fragments fails through its own assertion, because nothing matches. It does not reject the call as an invalid argument.
- The test-data cache rejects only a null key or value. Empty strings are stored.

The apostrophe normaliser's character literal shows as a mis-encoded sequence in `Base/ValidationUtils.java:187`. It is modelled as U+2019, the character its comment names.
