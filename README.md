# Loki warnings engine, modelled in Dafny

Loki is a mock-server manager. Its web editor (`loki-ui`) keeps a
**warnings map** next to the project being edited:

- a project has tabs, one per mock URL;
- a tab has rules;
- a rule has a request matcher (HTTP method, URL variables, query
  parameters, request headers, body) and a response (status code,
  optional delay, headers);
- for every tab id, the map holds either nothing or an object from
  field keys such as `<ruleId>-request-parameter-2-value` to messages
  such as "Parameter value cannot be empty".

This project models the engine in `loki-ui/src/warnings.js` and the
warning-keeping handlers of the request-parameter and request-header
editors. It covers:

- the predicates (`isNotEmpty`, `containsWhitespace`, `isValidUrl` with
  its host/path/query parts, `parseInt`-based status-code and delay
  ranges);
- the per-field validators, which write or delete one key and create the
  tab's object on demand;
- the key-editing helpers `deleteWarnings`, `copyWarnings`,
  `deleteEmptyWarnings` and `shiftIndexedWarnings`;
- the whole-project pass `checkWarnings`, with its URL-uniqueness pass
  `validateUrls`;
- `warningsCount` and `warningsPresent`;
- the add, delete, edit and condition-change handlers of
  `RequestParameters.js` and `RequestHeaders.js`, with their
  `hasWarnings` and `shouldOffsetButton` tests.

## Module layout

| Module | File | What it holds |
|---|---|---|
| `Wrappers`, `Strings` | `strings.dfy` | `Option`, `startsWith`, `includes`, the `\s` and `\d` classes, `String(n)` |
| `Predicates` | `predicates.dfy` | The value model `JsValue` (string, number or `undefined`); `parseInt`; the `isValid*` predicates; URL splitting; placeholder names; URL normalisation |
| `FieldKeys` | `field_keys.dfy` | The warning-key builders |
| `Validators` | `validators.dfy` | The `validate*` functions, as `Validate(kind, value, field, warnings)` over `Option<TabMap>` (`None` is `undefined`) |
| `WarningEdits` | `warning_edits.dfy` | The specification functions of the key edits (`WithoutPrefix`, `Copied`, `ShiftKey`/`Shifted`) and the `shiftIndexedWarnings` method |
| `TabState` | `tab_warnings.dfy` | Class `TabWarnings`: one tab's warnings object, mutated in place by the validators, `deleteWarnings` and `copyWarnings` |
| `ProjectModel` | `project_model.dfy` | Project, tab, rule, request, response; the `includes('PRESENT')` test |
| `ArrayWarnings` | `array_warnings.dfy` | Keys of array elements (`<scope>-<j>-<leaf>`); what an element delete does to them |
| `ConditionedArrays` | `conditioned_arrays.dfy` | The agreement invariant `InSync` between an array of key/value/condition elements and its warnings; the handlers' effect on it; `hasWarnings` and `shouldOffsetButton` |
| `RequestParameters`, `RequestHeaders` | `request_parameters.dfy`, `request_headers.dfy` | The editor handlers |
| `UrlPass` | `url_pass.dfy` | `validateUrls` as functions on the whole map |
| `RulePass` | `rule_pass.dfy` | The per-rule part of `checkWarnings` as a fold |
| `ProjectState` | `project_warnings.dfy` | Class `ProjectWarnings`: the whole map, mutated by loops proved equal to those functions; `warningsCount` and `warningsPresent` |

## Model

| member | source | states |
|---|---|---|
| Strings.ShowNatRoundTrip | loki-ui/src/warnings.js:88-91 | Reading the decimal text of an index back gives the index, so renumbered keys carry the right number. |
| Strings.ShowNatInjective | loki-ui/src/warnings.js:91 | Distinct indices print as distinct texts. |
| Predicates.NotEmptyCases | loki-ui/src/warnings.js:346-348 | Every number is non-empty (zero included); a string is non-empty exactly when it is not `""`; `undefined` is empty. |
| Predicates.ParseIntShowInt | loki-ui/src/warnings.js:439-449 | `parseInt` applied to the decimal text of any integer gives that integer back. This is exact in the model; JavaScript rounds results past 2^53, see `Predicates.ParseInt` under "## Left out". |
| Predicates.ParseIntLeadingNumber | loki-ui/src/warnings.js:439-449 | `parseInt` reads a leading number and ignores the text after it. |
| Predicates.StatusCodeAndDelayRanges | loki-ui/src/warnings.js:439-449 | A typed status code is accepted iff it lies in [100, 599]; a typed delay iff it lies in [0, 300000]; a numeric status code iff in [100, 599]. |
| Predicates.StatusCodeExamples | loki-ui/src/warnings.js:439-443 | "42" is rejected as a status code, while "420" is accepted both as a status code and as a delay. |
| Predicates.SplitUrl | loki-ui/src/warnings.js:364-366 | The three regex groups concatenate to the URL. The host has no `/` or `?`; the path starts with `/`; the query starts with `?`. |
| Predicates.UrlRejectsWhitespaceAndScheme | loki-ui/src/warnings.js:354-362 | A URL with whitespace, or with `://`, is invalid whatever the URL parser says. |
| Predicates.UrlRejectsQuery | loki-ui/src/warnings.js:354-378 | A URL containing `?` anywhere is invalid. |
| Predicates.UrlRejectsBraceInHost | loki-ui/src/warnings.js:380-382 | A brace before the first `/` or `?` makes the URL invalid. |
| Predicates.UrlRejectsRootPath | loki-ui/src/warnings.js:384-390 | A path that is `/` alone makes the URL invalid. |
| Predicates.UrlRejectsBadNames | loki-ui/src/warnings.js:391-405 | A path whose placeholder names repeat, or include an empty name or a name containing `/`, makes the URL invalid. |
| Predicates.UrlRejectsRepeatedName | loki-ui/src/warnings.js:391-405 | `/{{n}}/{{n}}` is invalid for every name `n` without `}`, `?` or a line terminator. (A name with `?` is covered by `UrlRejectsQuery`, and one with a line terminator by `UrlRejectsWhitespaceAndScheme`.) |
| Predicates.PlaceholderNameFound | loki-ui/src/warnings.js:391-393 | The names the path check extracts are the texts between the double braces. |
| Predicates.NormaliseIgnoresName | loki-ui/src/warnings.js:109 | Normalisation for the uniqueness check replaces every non-empty placeholder by `{{-}}`, so only the names differ between URLs it identifies. |
| ProjectModel.PresentFamilyMembers | loki-ui/src/warnings.js:16 | PRESENT and NOT_PRESENT pass the `includes('PRESENT')` test, so their values are not validated. |
| ProjectModel.EqualityConditionsOutside | loki-ui/src/warnings.js:16 | EQUAL and NOT_EQUAL fail the test, so their values are validated. |
| ProjectModel.ContainsConditionsOutside | loki-ui/src/warnings.js:16 | CONTAINS and NOT_CONTAINS fail the test, so their values are validated. |
| Validators.Record | loki-ui/src/warnings.js:151-169 | A validator's one step: the empty message when the value is empty, else the invalid message when the value is malformed, else no message. Every other key is unchanged. The object stays `undefined` exactly when it was `undefined` and the value passes. |
| Validators.Validate | loki-ui/src/warnings.js:151-344 | Each `validate*` leaves its own key holding the kind's verdict and every other key as it was. Its result is `undefined` iff the input was and the value is non-empty and well formed. |
| Validators.ValidateUrl | loki-ui/src/warnings.js:131-149 | `validateUrl`: the `url` key holds "cannot be empty", "must be valid" or nothing. Other keys are unchanged. The result is `undefined` iff the input was and the URL is valid. |
| Validators.ValidateIdempotent | loki-ui/src/warnings.js:151-344 | Validating the same field with the same value twice equals doing it once. |
| Validators.ValidateCommutes | loki-ui/src/warnings.js:4-42 | Validations of distinct keys commute, so the field order inside `checkWarnings` affects no message. |
| Validators.NeverMalformed | loki-ui/src/warnings.js:271-304 | The body and header-value validators never produce an "invalid" message, only the empty one or none. |
| WarningEdits.WithoutPrefix | loki-ui/src/warnings.js:61-67 | The keys left are exactly the keys that do not start with the prefix, with their messages. |
| WarningEdits.PrefixAlsoMatchesLongerIndex | loki-ui/src/warnings.js:61-67 | The element-10 key starts with the element-1 prefix, so `startsWith` deletes reach later elements. |
| WarningEdits.Retarget | loki-ui/src/warnings.js:57 | Replacing the prefix by the rule id gives a key that starts with the rule id and maps back to the original. |
| WarningEdits.RetargetOfSource | loki-ui/src/warnings.js:53-59 | Every key under the rule id is the copy of exactly one key under the prefix. |
| WarningEdits.CopiedIsCopy | loki-ui/src/warnings.js:53-59 | The result of `copyWarnings` meets the copy relation: every original key stays, and each prefixed key is also written under its retargeted key. |
| WarningEdits.CopyUnique | loki-ui/src/warnings.js:53-59 | The copy relation determines the map, whatever order the entries are visited in. |
| WarningEdits.CopiedMeaning | loki-ui/src/warnings.js:53-59 | No key is lost. Each prefixed key's message also appears under the retargeted key. A key that is not a copy target keeps its message. |
| WarningEdits.FindScope | loki-ui/src/warnings.js:79-85 | The regex search finds an occurrence of `<scope>-<digit>`. |
| WarningEdits.FindScopeLeftmost | loki-ui/src/warnings.js:85 | The occurrence found is the leftmost one, and none is missed. |
| WarningEdits.ScopeMatchMeaning | loki-ui/src/warnings.js:79-88 | `regex.exec` matches at the leftmost occurrence. The digits are maximal and the captured index is their decimal value. No match means no occurrence at all. |
| WarningEdits.ShiftIndexedWarnings | loki-ui/src/warnings.js:78-101 | The result's keys are exactly the shifted keys of the input. Each carries the message of a key that shifts to it. When no two keys shift to the same key, the result is exactly `Shifted`. |
| WarningEdits.ShiftedAt | loki-ui/src/warnings.js:90-96 | When the shift is injective, every key's message appears under its shifted key. |
| WarningEdits.ShiftedFrom | loki-ui/src/warnings.js:83-98 | When the shift is injective, every key of the result comes from a key of the input, with its message. |
| WarningEdits.ShiftedUnique | loki-ui/src/warnings.js:78-101 | Any map with those keys and messages is `Shifted`. |
| WarningEdits.ScopeMatchCanonical | loki-ui/src/warnings.js:79-88 | A key `<scope>-<n><rest>`, with `rest` not starting with a digit, matches at the start with index `n`. |
| WarningEdits.ShiftKeyCanonical | loki-ui/src/warnings.js:90-94 | Such a key is renamed to index `n-1` when `n` exceeds the deleted index, and is kept otherwise. |
| WarningEdits.CanonicalShift | loki-ui/src/warnings.js:90-94 | Renumbering keeps keys in canonical form. |
| WarningEdits.ShiftInjectiveAfterDelete | loki-ui/src/warnings.js:61-101 | After the index's prefix is deleted, no two canonical keys renumber to the same key. |
| WarningEdits.NoScopeMatch | loki-ui/src/warnings.js:79-85 | A key of another section of the same rule never matches a section's scope. |
| TabState.CopyEntries | loki-ui/src/warnings.js:54-58 | The copy loop over a snapshot of the entries computes `Copied`. |
| TabState.TabWarnings.Copy | loki-ui/src/components/RequestParameters.js:51 | `{...warnings}`: a fresh object with the same entries. |
| TabState.TabWarnings.Validate | loki-ui/src/warnings.js:151-344 | The in-place validator leaves exactly the entries `Validators.Validate` specifies. |
| TabState.TabWarnings.DeleteWarnings | loki-ui/src/warnings.js:61-67 | The loop leaves exactly the entries without the prefix. |
| TabState.TabWarnings.CopyWarnings | loki-ui/src/warnings.js:53-59 | The object ends up equal to `Copied` of its old entries. |
| ArrayWarnings.ElementFieldInjective | loki-ui/src/warnings.js:211-289 | Distinct (index, leaf) pairs give distinct keys. |
| ArrayWarnings.ElementFieldShift | loki-ui/src/warnings.js:90-94 | Renumbering element `j`'s key gives element `j-1`'s key when `j` is past the deleted index, and leaves it otherwise. |
| ArrayWarnings.ValidateKeepsWellKeyed | loki-ui/src/warnings.js:151-344 | Validating an element key keeps every section key canonical. |
| ArrayWarnings.DeleteKeepsWellKeyed | loki-ui/src/components/RequestParameters.js:58-67 | The delete handler's warnings stay canonical. |
| ArrayWarnings.DeleteMovesElement | loki-ui/src/components/RequestParameters.js:58-67 | A surviving element's message moves to its new index. |
| ArrayWarnings.DeleteKeepsOtherKeys | loki-ui/src/components/RequestParameters.js:58-67 | A key outside the section keeps its message. |
| ArrayWarnings.DeleteOnlyRenames | loki-ui/src/components/RequestParameters.js:58-67 | Every key after the delete is the renamed form of a surviving key. |
| ArrayWarnings.PrefixReaches | loki-ui/src/components/RequestParameters.js:63 | The `startsWith` delete of index `i` reaches element `j` exactly when the text of `j` starts with the text of `i`. |
| ArrayWarnings.DeleteAddsNothing | loki-ui/src/components/RequestParameters.js:58-67 | After the delete, an element key has a message only if its pre-delete key had one. |
| ArrayWarnings.DeleteCarries | loki-ui/src/components/RequestParameters.js:58-67 | Any element the prefix does not reach keeps its message under its new index. |
| ArrayWarnings.OwnPrefixReachesOnlyOwn | loki-ui/src/components/RequestParameters.js:63 | With the trailing dash, the delete prefix of index `i` reaches element `i` only. |
| ArrayWarnings.ShiftInjectiveAfterElementDelete | loki-ui/src/warnings.js:78-101 | After the dashed delete, renumbering is injective. |
| ArrayWarnings.ElementDeleteAddsNothing | loki-ui/src/components/RequestParameters.js:58-67 | The corrected delete creates no message. |
| ArrayWarnings.DeleteElementCarries | loki-ui/src/components/RequestParameters.js:58-67 | The corrected delete carries every other element's message to its new index. |
| ArrayWarnings.DeleteOfOneLosesTen | loki-ui/src/components/RequestParameters.js:63 | Deleting element 1 as written wipes element 10's warning. The corrected delete moves that warning to element 9. |
| ConditionedArrays.FieldsDiffer | loki-ui/src/warnings.js:211-289 | Key and value keys never collide, and distinct elements have distinct keys. |
| ConditionedArrays.AddKeepsInSync | loki-ui/src/components/RequestParameters.js:48-56 | Adding a default element keeps the warnings in agreement with the elements. |
| ConditionedArrays.AddKeepsWellKeyed | loki-ui/src/components/RequestParameters.js:48-56 | Adding an element keeps the keys canonical. |
| ConditionedArrays.KeyChangeKeepsInSync | loki-ui/src/components/RequestParameters.js:69-77 | Editing a key keeps the agreement. |
| ConditionedArrays.ValueChangeKeepsInSync | loki-ui/src/components/RequestParameters.js:86-94 | Editing a compared value keeps the agreement. |
| ConditionedArrays.ValueChangeUnderPresentWarns | loki-ui/src/components/RequestParameters.js:86-94 | Under PRESENT, clearing the value still writes "cannot be empty", although agreement would want no message. |
| ConditionedArrays.IgnoreCaseKeepsInSync | loki-ui/src/components/RequestParameters.js:79-101 | Flipping an ignore-case flag keeps the agreement. |
| ConditionedArrays.ValuePrefixReachesOnlyOwn | loki-ui/src/components/RequestParameters.js:109 | Deleting by an element's value key reaches that element only. |
| ConditionedArrays.ConditionChangeKeepsInSync | loki-ui/src/components/RequestParameters.js:103-115 | Any condition change keeps the agreement: into PRESENT the value warning goes, out of it the value is revalidated. |
| ConditionedArrays.CarryElement | loki-ui/src/components/RequestParameters.js:58-67 | The as-written delete moves an unreached element's key and value verdicts to its new index. |
| ConditionedArrays.DeleteKeepsInSync | loki-ui/src/components/RequestParameters.js:58-67 | The as-written delete keeps the agreement when no other index's text starts with the deleted index's text. |
| ConditionedArrays.FewElementsNoClash | loki-ui/src/components/RequestParameters.js:63 | With at most ten elements that condition always holds. |
| ConditionedArrays.DeleteElementKeepsInSync | loki-ui/src/components/RequestParameters.js:58-67 | The corrected delete keeps the agreement for every array. |
| ConditionedArrays.HasWarnings | loki-ui/src/components/RequestParameters.js:117-119 | `hasWarnings` holds iff the array is non-empty and some key under the section has a message. |
| ConditionedArrays.HeadingMarksWarnedElement | loki-ui/src/components/RequestParameters.js:117-119 | If some element has a key or value verdict, the heading shows the warning. |
| ConditionedArrays.OffsetIffLastWarned | loki-ui/src/components/RequestParameters.js:121-122 | With the warnings in agreement, the add button is offset exactly when the last element has a verdict. |
| ConditionedArrays.ResponseHeaderOutsideRequest | loki-ui/src/warnings.js:251-289 | A response-header key never matches a request section's scope. |
| RequestParameters.ParameterKeys | loki-ui/src/warnings.js:211-249 | The validators' parameter keys are the section's element keys. |
| RequestParameters.HandleAddParameter | loki-ui/src/components/RequestParameters.js:48-56 | The parameter goes last, and a fresh warnings copy gets its key and value verdicts. |
| RequestParameters.HandleDeleteParameter | loki-ui/src/components/RequestParameters.js:58-67 | The parameter is spliced out; the result's keys are the renamed survivors of the prefix delete; with canonical keys the result is exactly `AfterDelete`. |
| RequestParameters.HandleKeyChange | loki-ui/src/components/RequestParameters.js:69-77 | The key is replaced, and only its own warning key is revalidated. |
| RequestParameters.HandleKeyIgnoreCaseChange | loki-ui/src/components/RequestParameters.js:79-84 | Only the flag changes. |
| RequestParameters.HandleValueChange | loki-ui/src/components/RequestParameters.js:86-94 | The value is replaced and its warning key revalidated, whatever the condition. |
| RequestParameters.HandleValueIgnoreCaseChange | loki-ui/src/components/RequestParameters.js:96-101 | Only the flag changes. |
| RequestParameters.HandleConditionChange | loki-ui/src/components/RequestParameters.js:103-115 | The condition is replaced. Entering PRESENT deletes the value's warnings; leaving it revalidates the value; otherwise nothing changes. |
| RequestParameters.RequestKeyOutsideParameters | loki-ui/src/warnings.js:171-289 | Keys of the headers, variables, method and body of a rule never match the parameter scope. |
| RequestParameters.DeleteKeepsHeaderWarnings | loki-ui/src/components/RequestParameters.js:58-67 | Deleting a parameter leaves the request headers' warnings as they are. |
| RequestParameters.DeleteKeepsVariableWarnings | loki-ui/src/components/RequestParameters.js:58-67 | Deleting a parameter leaves the URL variables' warnings as they are. |
| RequestParameters.DeleteKeepsResponseHeaderWarnings | loki-ui/src/components/RequestParameters.js:58-67 | Deleting a parameter leaves the response headers' warnings as they are. |
| RequestHeaders.HeaderKeys | loki-ui/src/warnings.js:251-289 | The validators' request-header keys are the section's element keys. |
| RequestHeaders.HandleAddHeader | loki-ui/src/components/RequestHeaders.js:48-56 | The header goes last, and a fresh warnings copy gets its key and value verdicts. |
| RequestHeaders.HandleDeleteHeader | loki-ui/src/components/RequestHeaders.js:58-67 | The header is spliced out; the keys are the renamed survivors; with canonical keys the result is exactly `AfterDelete`. |
| RequestHeaders.HandleKeyChange | loki-ui/src/components/RequestHeaders.js:69-77 | The key is replaced and revalidated. |
| RequestHeaders.HandleValueChange | loki-ui/src/components/RequestHeaders.js:79-87 | The value is replaced and revalidated. |
| RequestHeaders.HandleValueIgnoreCaseChange | loki-ui/src/components/RequestHeaders.js:89-94 | Only the flag changes. |
| RequestHeaders.HandleConditionChange | loki-ui/src/components/RequestHeaders.js:96-108 | Entering PRESENT deletes the value's warnings; leaving it revalidates the value. |
| RequestHeaders.RequestKeyOutsideHeaders | loki-ui/src/warnings.js:171-249 | Keys of the parameters, variables, method and body never match the request-header scope. |
| RequestHeaders.DeleteKeepsParameterWarnings | loki-ui/src/components/RequestHeaders.js:58-67 | Deleting a header leaves the parameters' warnings as they are. |
| RequestHeaders.DeleteKeepsVariableWarnings | loki-ui/src/components/RequestHeaders.js:58-67 | Deleting a header leaves the URL variables' warnings as they are. |
| RequestHeaders.DeleteKeepsResponseHeaderWarnings | loki-ui/src/components/RequestHeaders.js:58-67 | Deleting a header leaves the response headers' warnings as they are. |
| UrlPass.UrlsCheckedUrl | loki-ui/src/warnings.js:106-107 | After the first loop, the last tab with a given id has the `url` verdict of its own URL. |
| UrlPass.UrlsCheckedOthers | loki-ui/src/warnings.js:106-107 | The first loop changes no key other than `url`. |
| UrlPass.UrlsCheckedElsewhere | loki-ui/src/warnings.js:106-107 | A map entry that is no tab's id is untouched. |
| UrlPass.UrlsCheckedHasTabs | loki-ui/src/warnings.js:107 | Every tab id gets an entry, `undefined` or not. |
| UrlPass.GroupsBucket | loki-ui/src/warnings.js:109-112 | An id is in the bucket of a normalised URL iff some tab with that id has that normalised URL. |
| UrlPass.GroupsBucketSize | loki-ui/src/warnings.js:111-112 | A bucket holds one entry per tab with that normalised URL. |
| UrlPass.FlaggedMeaning | loki-ui/src/warnings.js:115-117 | An id is flagged iff it belongs to a tab whose normalised URL another tab shares. |
| UrlPass.MarkedUrl | loki-ui/src/warnings.js:118-121 | A flagged id's `url` key keeps its existing message, and otherwise gets the uniqueness message. |
| UrlPass.MarkedOther | loki-ui/src/warnings.js:118-121 | Marking touches no other key and no other id. |
| UrlPass.MarkedInTurnIsMarked | loki-ui/src/warnings.js:117-122 | Marking a bucket's ids one by one equals marking the set. |
| UrlPass.PrunedMeaning | loki-ui/src/warnings.js:69-76 | `deleteEmptyWarnings` changes no message, removes every `undefined` or empty entry, and keeps every non-empty one. |
| UrlPass.DuplicateUrlWarned | loki-ui/src/warnings.js:103-129 | A tab whose URL another tab repeats gets the uniqueness message, unless its own URL has an empty or invalid verdict, which is kept. |
| UrlPass.UniqueUrlKeepsVerdict | loki-ui/src/warnings.js:103-129 | With distinct ids, a tab whose URL no other repeats has its own URL verdict. |
| UrlPass.UrlsValidatedOthers | loki-ui/src/warnings.js:103-129 | `validateUrls` changes no key other than `url`. |
| UrlPass.UrlsValidatedClean | loki-ui/src/warnings.js:126 | After `validateUrls` every remaining entry is a non-empty object. |
| RulePass.ElementCheckedLookup | loki-ui/src/warnings.js:8-27 | One element's pass sets its key verdict, and its value verdict when checked, and nothing else. |
| RulePass.ArrayCheckedFrame | loki-ui/src/warnings.js:8-27 | An array's pass leaves every key outside its element keys untouched. |
| RulePass.ArrayCheckedKey | loki-ui/src/warnings.js:8-27 | After an array's pass each element key holds its verdict. |
| RulePass.ArrayCheckedValue | loki-ui/src/warnings.js:8-27 | Each checked value key holds the verdict of the text checked; an unchecked one keeps its old message. |
| RulePass.RuleKeysDiffer | loki-ui/src/warnings.js:151-344 | Keys of different sections or fields of one rule never collide. |
| RulePass.MethodChecked | loki-ui/src/warnings.js:6 | After a rule's pass, the method key holds the method's verdict. |
| RulePass.VariablesChecked | loki-ui/src/warnings.js:8-11 | Each URL variable's key and value keys hold their verdicts. |
| RulePass.ParametersChecked | loki-ui/src/warnings.js:13-19 | Each parameter's key holds its verdict. Its value key holds the verdict of the KEY text when the condition compares values, and keeps its old message otherwise. |
| RulePass.RequestHeadersChecked | loki-ui/src/warnings.js:21-27 | Each request header's key holds its verdict; its value key holds the value's verdict when compared and is kept otherwise. |
| RulePass.BodyChecked | loki-ui/src/warnings.js:29-31 | The body key holds the body's verdict unless the condition is PRESENT-family, and is kept then. |
| RulePass.StatusCodeChecked | loki-ui/src/warnings.js:33 | The status-code key holds its verdict. |
| RulePass.DelayChecked | loki-ui/src/warnings.js:35-37 | The delay key holds its verdict when the delay is on, and is kept otherwise. |
| RulePass.ResponseHeadersChecked | loki-ui/src/warnings.js:39-42 | Each response header's key and value keys hold their verdicts. |
| RulePass.RequestHeadersInSync | loki-ui/src/warnings.js:21-27 | When no PRESENT-family header had a value warning before, the pass leaves the request headers in agreement. |
| RulePass.EmptyValueSlipsThrough | loki-ui/src/warnings.js:17 | With a valid key, an empty compared value gets no warning as written, so the parameters fall out of agreement. The corrected pass warns "cannot be empty". |
| RulePass.ParameterValueFollowsKey | loki-ui/src/warnings.js:13-19 | Key "id", empty value, condition EQUAL meets those conditions. |
| RulePass.CorrectedParametersInSync | loki-ui/src/warnings.js:13-19 | The corrected pass, which validates the value, leaves the parameters in agreement. |
| ProjectState.ValidateArray | loki-ui/src/warnings.js:8-27 | The `forEach` over an array computes `ArrayChecked`. |
| ProjectState.ValidateRule | loki-ui/src/warnings.js:6-42 | The validator calls of one rule compute `RuleChecked`. |
| ProjectState.MarkAll | loki-ui/src/warnings.js:117-122 | Marking a bucket's ids in turn computes `MarkedInTurn`. |
| ProjectState.ProjectWarnings.DeleteEmptyWarnings | loki-ui/src/warnings.js:69-76 | The in-place loop leaves `Pruned` of the old map. |
| ProjectState.ProjectWarnings.FileUrls | loki-ui/src/warnings.js:106-113 | The first loop of `validateUrls` leaves `UrlsChecked` and returns the normalised-URL buckets `Groups(Entries(tabs))`. |
| ProjectState.ProjectWarnings.MarkDuplicates | loki-ui/src/warnings.js:115-124 | The second loop marks exactly the flagged ids. |
| ProjectState.ProjectWarnings.ValidateUrls | loki-ui/src/warnings.js:103-129 | `validateUrls` leaves `UrlsValidated` of the old map. |
| ProjectState.ProjectWarnings.CheckRule | loki-ui/src/warnings.js:5-46 | One rule's pass, with the tab's entry deleted when it ends `undefined`. |
| ProjectState.ProjectWarnings.CheckTabRules | loki-ui/src/warnings.js:5-47 | A tab's rules in order compute `RulesChecked`. |
| ProjectState.ProjectWarnings.CheckWarnings | loki-ui/src/warnings.js:1-51 | `checkWarnings` leaves `Checked`: the URL pass and then every tab's rules, starting from the existing warnings. |
| ProjectState.RulesCheckedOtherTabs | loki-ui/src/warnings.js:4-47 | A tab's rules change no other tab's entry. |
| ProjectState.RuleStepKeepsEntry | loki-ui/src/warnings.js:44-46 | A defined entry stays defined, even when it is empty. |
| ProjectState.CheckedDefined | loki-ui/src/warnings.js:1-51 | After `checkWarnings` no tab entry is `undefined`. |
| ProjectState.PresentMeaning | loki-ui/src/warnings.js:465-471 | `warningsPresent` holds iff some tab's object has a key. |
| ProjectState.RowSize | loki-ui/src/warnings.js:469-471 | A tab contributes as many warnings as its object has keys. |
| ProjectState.CountSplits | loki-ui/src/warnings.js:469-471 | The count is one tab's key count plus the count of the other tabs. |

## Left out

- `isValidUrl` calls ``new URL(`http://${str}`)``. That WHATWG URL parser is a parameter `urlParses` of the model; every property above holds for every parser.
- `parseInt` is modelled for decimal and `0x` text, signs and leading whitespace. Floating-point numbers, `Infinity` and non-string, non-number values are out: the status code and delay are strings or integers in the model.
- Predicates.ParseInt: a number is read back as itself, which matches JavaScript only below 10^21 in magnitude. From 10^21 on `String(n)` is exponent text ("1e+21"), so `parseInt` reads only the leading digit. A numeric delay of 10^21 or more is therefore accepted by `isValidDelay` in the source (loki-ui/src/warnings.js, lines 445-448) and rejected by the model, which writes "Delay must be valid". Status-code verdicts agree, because the leading digit alone is below 100. Also, for digit text past 2^53 JavaScript's `parseInt` returns a rounded double while the model returns the exact integer; `ParseIntShowInt` holds exactly only in the model, though no range verdict changes.
- Rule ids are taken as literal text. The source builds the `shiftIndexedWarnings` regular expression from a rule id (loki-ui/src/warnings.js, line 79); tab ids never reach a regular expression. A metacharacter in a rule id would be interpreted there, and the model does not capture that. The match is also unanchored, so a delete in one rule renumbers another rule's keys when one rule id ends the other. For example, in a tab holding rules "1" and "21", deleting a parameter of rule 1 also shifts `21-request-parameter-3-key`, because it contains `1-request-parameter-3`. The model follows this through `ShiftedKeys`, which `HandleDeleteParameter` and `HandleDeleteHeader` always ensure. Their exact `AfterDelete` result needs `WellKeyed`, which such a map does not satisfy, so no exact result is stated for it.
- JavaScript object-key iteration order is not modelled. Maps are unordered, and the results are shown to be independent of order wherever the source's result is (`CopyUnique`, `ShiftedUnique`, `MarkedInTurnIsMarked`).
- ProjectState.ProjectWarnings.FileUrls, UrlPass.Groups: `validateUrls` files tab ids in a plain object (loki-ui/src/warnings.js, lines 104 and 111-112). When a normalised URL names an inherited `Object.prototype` member ("constructor", "toString", "valueOf", "hasOwnProperty", "__proto__"), `duplicates[temp] || []` yields that member and `.push` throws a TypeError, which aborts `validateUrls` and `checkWarnings`. The model treats the buckets as a map, files such an id in a fresh bucket like any other, and does not model the exception.
- WarningEdits.ShiftIndexedWarnings: when two keys rename to the same key, the source keeps whichever comes later in iteration order. The model states only that the result's keys are the renamed keys and each carries the message of one of its sources. The exact result is stated when renaming is injective, which holds after the handlers' delete.
- The React components' rendering, props, state hooks and the aliasing of `warnings` objects between components are out. Each handler is a method that takes the parameters and a `TabWarnings` object and returns the new array and a fresh copy.
- Nothing in `loki-agent`, `loki-api` or `loki-mock` (the Java back end) is part of this model.
- The handlers' `index < length` preconditions stand for the editor calling them with an index of an existing row.
- `RequestHeaders.js` has no key ignore-case handler, so the model has none.
- `validateUrls` is modelled as three methods (`FileUrls`, `MarkDuplicates`, `DeleteEmptyWarnings`) called in order by `ValidateUrls`, with functions specifying each.
- The default parameter and header factories of the add handlers are taken as a parameter of `HandleAddParameter` and `HandleAddHeader`.
- `checkWarnings` starts from the existing warnings map, not from an empty one. The model does the same, so a stale message under a key no field writes any more survives the pass.
- `deleteEmptyWarnings` runs only inside `validateUrls`. The rule pass deletes a tab's entry only while it is `undefined`, so an emptied `{}` survives `checkWarnings` (`RuleStepKeepsEntry`).

## Findings

| source | as written | input that shows it | evidently intended | confidence | as-written member | corrected member |
|---|---|---|---|---|---|---|
| loki-ui/src/components/RequestParameters.js:63 | Deleting element `i` deletes every key that starts with `<scope>-<i>`, so it also hits elements `10i…`. The request-header delete (RequestHeaders.js, line 63) does the same. | Eleven parameters, element 10 with a warning, delete element 1: the warning is lost instead of moving to element 9. | Delete only the keys of element `i` (prefix `<scope>-<i>-`). | not executed | ArrayWarnings.DeleteOfOneLosesTen | ConditionedArrays.DeleteElementKeepsInSync |
| loki-ui/src/warnings.js:17 | `checkWarnings` validates a compared parameter's value with `parameter.key`. | A parameter with key "id", an empty value and condition EQUAL gets no value warning from `checkWarnings`. The editor's value handler would write "Parameter value cannot be empty". | Validate `parameter.value`, as the request-header loop does. | not executed | RulePass.EmptyValueSlipsThrough | RulePass.CorrectedParametersInSync |

The handlers and `CheckWarnings` keep the as-written behaviour, because that is what the editor does. The corrected definitions (`AfterDeleteElement`, `CorrectedRuleChecked`) stand beside them with the intended property proved.
