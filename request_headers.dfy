/**
 * The handlers of loki-ui/src/components/RequestHeaders.js: the same edits
 * as for the request parameters, on the keys under
 * `<ruleId>-request-header`. There is no handler for the key's ignore-case
 * flag.
 */
module RequestHeaders {
  import opened Wrappers
  import opened Strings
  import opened Predicates
  import V = Validators
  import opened WarningEdits
  import opened FieldKeys
  import opened ProjectModel
  import opened ArrayWarnings
  import opened ConditionedArrays
  import opened TabState

  /** The request headers of rule `ruleId`: the keys under
    * `<ruleId>-request-header`, checked by `validateHeaderKey` and
    * `validateHeaderValue`. */
  function Headers(ruleId: string): Section {
    Section(HeaderScope(ruleId, "request"), V.HeaderKey, V.HeaderValue)
  }

  /** The keys the validators build are the section's element keys. */
  lemma HeaderKeys(ruleId: string, j: nat)
    ensures HeaderField(ruleId, "request", j, "key") == KeyField(Headers(ruleId), j)
    ensures HeaderField(ruleId, "request", j, "value") == ValueField(Headers(ruleId), j)
    ensures HeaderElement(ruleId, "request", j) == ElementPrefix(HeaderScope(ruleId, "request"), j)
  {
  }

  /** `handleAddHeader`: the new header (the default one) goes last and its
    * key and value are validated. */
  method HandleAddHeader(headers: seq<RequestHeader>, ruleId: string, warnings: TabWarnings, header: RequestHeader)
    returns (newHeaders: seq<RequestHeader>, warningsCopy: TabWarnings)
    ensures newHeaders == headers + [header]
    ensures fresh(warningsCopy)
    ensures warningsCopy.entries == AfterAdd(warnings.entries, Headers(ruleId), |headers|, header)
  {
    warningsCopy := warnings.Copy();
    warningsCopy.Validate(V.HeaderKey, Str(header.key), HeaderField(ruleId, "request", |headers|, "key"));
    warningsCopy.Validate(V.HeaderValue, Str(header.value), HeaderField(ruleId, "request", |headers|, "value"));
    newHeaders := headers + [header];
    HeaderKeys(ruleId, |headers|);
  }

  /** `handleDeleteHeader`: the header is spliced out, the keys that start
    * with `<ruleId>-request-header-<index>` are deleted and the later
    * headers' keys renumbered. */
  method HandleDeleteHeader(headers: seq<RequestHeader>, ruleId: string, warnings: TabWarnings, index: nat)
    returns (newHeaders: seq<RequestHeader>, warningsCopy: TabWarnings)
    requires index < |headers|
    ensures newHeaders == headers[..index] + headers[index + 1..]
    ensures fresh(warningsCopy)
    ensures warningsCopy.entries.Keys
            == ShiftedKeys(WithoutPrefix(warnings.entries, HeaderElement(ruleId, "request", index)), HeaderScope(ruleId, "request"), index)
    ensures WellKeyed(warnings.entries, HeaderScope(ruleId, "request")) ==>
              warningsCopy.entries == AfterDelete(warnings.entries, HeaderScope(ruleId, "request"), index)
  {
    newHeaders := headers[..index] + headers[index + 1..];
    var copy := warnings.Copy();
    copy.DeleteWarnings(HeaderElement(ruleId, "request", index));
    var shifted := ShiftIndexedWarnings(HeaderScope(ruleId, "request"), index, copy.entries);
    warningsCopy := new TabWarnings(shifted);
    if WellKeyed(warnings.entries, HeaderScope(ruleId, "request")) {
      HeaderKeys(ruleId, index);
      ShiftInjectiveAfterDelete(warnings.entries, HeaderScope(ruleId, "request"), index);
    }
  }

  /** `handleHeaderKeyChange`: the key is replaced and validated. */
  method HandleKeyChange(headers: seq<RequestHeader>, ruleId: string, warnings: TabWarnings, index: nat, key: string)
    returns (newHeaders: seq<RequestHeader>, warningsCopy: TabWarnings)
    requires index < |headers|
    ensures newHeaders == headers[index := headers[index].(key := key)]
    ensures fresh(warningsCopy)
    ensures warningsCopy.entries == V.ValidateTab(V.HeaderKey, Str(key), KeyField(Headers(ruleId), index), warnings.entries)
  {
    newHeaders := headers[index := headers[index].(key := key)];
    warningsCopy := warnings.Copy();
    warningsCopy.Validate(V.HeaderKey, Str(key), HeaderField(ruleId, "request", index, "key"));
    HeaderKeys(ruleId, index);
  }

  /** `handleHeaderValueChange`: the value is replaced and validated,
    * whatever the condition. */
  method HandleValueChange(headers: seq<RequestHeader>, ruleId: string, warnings: TabWarnings, index: nat, value: string)
    returns (newHeaders: seq<RequestHeader>, warningsCopy: TabWarnings)
    requires index < |headers|
    ensures newHeaders == headers[index := headers[index].(value := value)]
    ensures fresh(warningsCopy)
    ensures warningsCopy.entries == V.ValidateTab(V.HeaderValue, Str(value), ValueField(Headers(ruleId), index), warnings.entries)
  {
    newHeaders := headers[index := headers[index].(value := value)];
    warningsCopy := warnings.Copy();
    warningsCopy.Validate(V.HeaderValue, Str(value), HeaderField(ruleId, "request", index, "value"));
    HeaderKeys(ruleId, index);
  }

  /** `handleHeaderValueIgnoreCaseChange`: only the flag changes. */
  method HandleValueIgnoreCaseChange(headers: seq<RequestHeader>, index: nat, ignoreCase: bool)
    returns (newHeaders: seq<RequestHeader>)
    requires index < |headers|
    ensures newHeaders == headers[index := headers[index].(valueIgnoreCase := ignoreCase)]
  {
    newHeaders := headers[index := headers[index].(valueIgnoreCase := ignoreCase)];
  }

  /** `handleHeaderConditionChange` */
  method HandleConditionChange(headers: seq<RequestHeader>, ruleId: string, warnings: TabWarnings, index: nat, condition: string)
    returns (newHeaders: seq<RequestHeader>, warningsCopy: TabWarnings)
    requires index < |headers|
    ensures newHeaders == headers[index := headers[index].(condition := condition)]
    ensures fresh(warningsCopy)
    ensures warningsCopy.entries == AfterConditionChange(warnings.entries, Headers(ruleId), index, headers[index], condition)
  {
    newHeaders := headers[index := headers[index].(condition := condition)];
    HeaderKeys(ruleId, index);
    warningsCopy := warnings.Copy();
    if !InPresentFamily(headers[index].condition) && InPresentFamily(condition) {
      warningsCopy.DeleteWarnings(HeaderField(ruleId, "request", index, "value"));
    } else if InPresentFamily(headers[index].condition) && !InPresentFamily(condition) {
      warningsCopy.Validate(V.HeaderValue, Str(newHeaders[index].value), HeaderField(ruleId, "request", index, "value"));
    }
  }

  /** A key outside the header array: `<ruleId>-request-` followed by text
    * without the letter `h`, as the keys of the request parameters and URL
    * variables are. */
  lemma RequestKeyOutsideHeaders(ruleId: string, tail: string)
    requires tail != [] && forall n :: 0 <= n < |tail| ==> tail[n] != 'h'
    ensures ScopeMatch(ruleId + "-request-" + tail, HeaderScope(ruleId, "request")).None?
  {
    assert HeaderScope(ruleId, "request") == ruleId + "-request-" + "header";
    assert "header"[0] == 'h';
    NoScopeMatch(ruleId + "-request-", tail, "header", 'h', 0);
  }

  /** Deleting a request header leaves the warnings of the parameters as
    * they are. */
  lemma DeleteKeepsParameterWarnings(w: TabMap, ruleId: string, i: nat, j: nat, leaf: string)
    requires WellKeyed(w, HeaderScope(ruleId, "request"))
    requires forall n :: 0 <= n < |leaf| ==> leaf[n] != 'h'
    requires ParameterField(ruleId, j, leaf) in w
    ensures ParameterField(ruleId, j, leaf) in AfterDelete(w, HeaderScope(ruleId, "request"), i)
    ensures AfterDelete(w, HeaderScope(ruleId, "request"), i)[ParameterField(ruleId, j, leaf)] == w[ParameterField(ruleId, j, leaf)]
  {
    var tail := IndexedTail("parameter", j, leaf);
    ParameterFieldText(ruleId, j, leaf);
    IndexedTailDigits("parameter", j, leaf);
    RequestKeyOutsideHeaders(ruleId, tail);
    DeleteKeepsOtherKeys(w, HeaderScope(ruleId, "request"), i, ParameterField(ruleId, j, leaf));
  }

  /** Deleting a request header leaves the warnings of the URL variables as
    * they are. */
  lemma DeleteKeepsVariableWarnings(w: TabMap, ruleId: string, i: nat, j: nat, leaf: string)
    requires WellKeyed(w, HeaderScope(ruleId, "request"))
    requires forall n :: 0 <= n < |leaf| ==> leaf[n] != 'h'
    requires VariableField(ruleId, j, leaf) in w
    ensures VariableField(ruleId, j, leaf) in AfterDelete(w, HeaderScope(ruleId, "request"), i)
    ensures AfterDelete(w, HeaderScope(ruleId, "request"), i)[VariableField(ruleId, j, leaf)] == w[VariableField(ruleId, j, leaf)]
  {
    var tail := IndexedTail("variable", j, leaf);
    VariableFieldText(ruleId, j, leaf);
    IndexedTailDigits("variable", j, leaf);
    RequestKeyOutsideHeaders(ruleId, tail);
    DeleteKeepsOtherKeys(w, HeaderScope(ruleId, "request"), i, VariableField(ruleId, j, leaf));
  }

  /** Deleting a request header leaves the warnings of the response headers,
    * which share the `-header-` part of the key, as they are. */
  lemma DeleteKeepsResponseHeaderWarnings(w: TabMap, ruleId: string, i: nat, j: nat, leaf: string)
    requires WellKeyed(w, HeaderScope(ruleId, "request"))
    requires forall n :: 0 <= n < |leaf| ==> leaf[n] != 'q'
    requires HeaderField(ruleId, "response", j, leaf) in w
    ensures HeaderField(ruleId, "response", j, leaf) in AfterDelete(w, HeaderScope(ruleId, "request"), i)
    ensures AfterDelete(w, HeaderScope(ruleId, "request"), i)[HeaderField(ruleId, "response", j, leaf)]
            == w[HeaderField(ruleId, "response", j, leaf)]
  {
    assert HeaderScope(ruleId, "request") == ruleId + "-request-" + "header";
    ResponseHeaderOutsideRequest(ruleId, j, leaf, "header");
    DeleteKeepsOtherKeys(w, HeaderScope(ruleId, "request"), i, HeaderField(ruleId, "response", j, leaf));
  }
}
