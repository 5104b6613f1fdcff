/**
 * The handlers of loki-ui/src/components/RequestParameters.js. Each one
 * takes the rule's parameters and the tab's warnings, builds new ones and
 * hands them on; the originals are left as they are (`{...warnings}`,
 * `[...parameters]`). What the new warnings mean is stated over the
 * section `Parameters(ruleId)` in ConditionedArrays.
 */
module RequestParameters {
  import opened Wrappers
  import opened Strings
  import opened Predicates
  import V = Validators
  import opened WarningEdits
  import opened FieldKeys
  import opened ProjectModel
  import opened ArrayWarnings
  import opened ConditionedArrays
  import opened TabState

  /** The parameters of rule `ruleId`: the keys under
    * `<ruleId>-request-parameter`, checked by `validateParameterKey` and
    * `validateParameterValue`. */
  function Parameters(ruleId: string): Section {
    Section(ParameterScope(ruleId), V.ParameterKey, V.ParameterValue)
  }

  /** The keys the validators build are the section's element keys. */
  lemma ParameterKeys(ruleId: string, j: nat)
    ensures ParameterField(ruleId, j, "key") == KeyField(Parameters(ruleId), j)
    ensures ParameterField(ruleId, j, "value") == ValueField(Parameters(ruleId), j)
    ensures ParameterElement(ruleId, j) == ElementPrefix(ParameterScope(ruleId), j)
  {
  }

  /** `handleAddParameter`: the new parameter (the default one) goes last and
    * its key and value are validated. */
  method HandleAddParameter(parameters: seq<Parameter>, ruleId: string, warnings: TabWarnings, parameter: Parameter)
    returns (newParameters: seq<Parameter>, warningsCopy: TabWarnings)
    ensures newParameters == parameters + [parameter]
    ensures fresh(warningsCopy)
    ensures warningsCopy.entries == AfterAdd(warnings.entries, Parameters(ruleId), |parameters|, parameter)
  {
    warningsCopy := warnings.Copy();
    warningsCopy.Validate(V.ParameterKey, Str(parameter.key), ParameterField(ruleId, |parameters|, "key"));
    warningsCopy.Validate(V.ParameterValue, Str(parameter.value), ParameterField(ruleId, |parameters|, "value"));
    newParameters := parameters + [parameter];
    ParameterKeys(ruleId, |parameters|);
  }

  /** `handleDeleteParameter`: the parameter is spliced out, the keys that
    * start with `<ruleId>-request-parameter-<index>` are deleted and the
    * later parameters' keys renumbered. The result's keys are the renamed
    * survivors in every case; when the keys are canonical the messages are
    * exactly those of `AfterDelete`. */
  method HandleDeleteParameter(parameters: seq<Parameter>, ruleId: string, warnings: TabWarnings, index: nat)
    returns (newParameters: seq<Parameter>, warningsCopy: TabWarnings)
    requires index < |parameters|
    ensures newParameters == parameters[..index] + parameters[index + 1..]
    ensures fresh(warningsCopy)
    ensures warningsCopy.entries.Keys
            == ShiftedKeys(WithoutPrefix(warnings.entries, ParameterElement(ruleId, index)), ParameterScope(ruleId), index)
    ensures WellKeyed(warnings.entries, ParameterScope(ruleId)) ==>
              warningsCopy.entries == AfterDelete(warnings.entries, ParameterScope(ruleId), index)
  {
    newParameters := parameters[..index] + parameters[index + 1..];
    var copy := warnings.Copy();
    copy.DeleteWarnings(ParameterElement(ruleId, index));
    var shifted := ShiftIndexedWarnings(ParameterScope(ruleId), index, copy.entries);
    warningsCopy := new TabWarnings(shifted);
    if WellKeyed(warnings.entries, ParameterScope(ruleId)) {
      ParameterKeys(ruleId, index);
      ShiftInjectiveAfterDelete(warnings.entries, ParameterScope(ruleId), index);
    }
  }

  /** `handleParameterKeyChange`: the key is replaced and validated. */
  method HandleKeyChange(parameters: seq<Parameter>, ruleId: string, warnings: TabWarnings, index: nat, key: string)
    returns (newParameters: seq<Parameter>, warningsCopy: TabWarnings)
    requires index < |parameters|
    ensures newParameters == parameters[index := parameters[index].(key := key)]
    ensures fresh(warningsCopy)
    ensures warningsCopy.entries == V.ValidateTab(V.ParameterKey, Str(key), KeyField(Parameters(ruleId), index), warnings.entries)
  {
    newParameters := parameters[index := parameters[index].(key := key)];
    warningsCopy := warnings.Copy();
    warningsCopy.Validate(V.ParameterKey, Str(key), ParameterField(ruleId, index, "key"));
    ParameterKeys(ruleId, index);
  }

  /** `handleParameterKeyIgnoreCaseChange`: only the flag changes. */
  method HandleKeyIgnoreCaseChange(parameters: seq<Parameter>, index: nat, ignoreCase: bool)
    returns (newParameters: seq<Parameter>)
    requires index < |parameters|
    ensures newParameters == parameters[index := parameters[index].(keyIgnoreCase := ignoreCase)]
  {
    newParameters := parameters[index := parameters[index].(keyIgnoreCase := ignoreCase)];
  }

  /** `handleParameterValueChange`: the value is replaced and validated,
    * whatever the condition. */
  method HandleValueChange(parameters: seq<Parameter>, ruleId: string, warnings: TabWarnings, index: nat, value: string)
    returns (newParameters: seq<Parameter>, warningsCopy: TabWarnings)
    requires index < |parameters|
    ensures newParameters == parameters[index := parameters[index].(value := value)]
    ensures fresh(warningsCopy)
    ensures warningsCopy.entries == V.ValidateTab(V.ParameterValue, Str(value), ValueField(Parameters(ruleId), index), warnings.entries)
  {
    newParameters := parameters[index := parameters[index].(value := value)];
    warningsCopy := warnings.Copy();
    warningsCopy.Validate(V.ParameterValue, Str(value), ParameterField(ruleId, index, "value"));
    ParameterKeys(ruleId, index);
  }

  /** `handleParameterValueIgnoreCaseChange`: only the flag changes. */
  method HandleValueIgnoreCaseChange(parameters: seq<Parameter>, index: nat, ignoreCase: bool)
    returns (newParameters: seq<Parameter>)
    requires index < |parameters|
    ensures newParameters == parameters[index := parameters[index].(valueIgnoreCase := ignoreCase)]
  {
    newParameters := parameters[index := parameters[index].(valueIgnoreCase := ignoreCase)];
  }

  /** `handleParameterConditionChange` */
  method HandleConditionChange(parameters: seq<Parameter>, ruleId: string, warnings: TabWarnings, index: nat, condition: string)
    returns (newParameters: seq<Parameter>, warningsCopy: TabWarnings)
    requires index < |parameters|
    ensures newParameters == parameters[index := parameters[index].(condition := condition)]
    ensures fresh(warningsCopy)
    ensures warningsCopy.entries == AfterConditionChange(warnings.entries, Parameters(ruleId), index, parameters[index], condition)
  {
    newParameters := parameters[index := parameters[index].(condition := condition)];
    ParameterKeys(ruleId, index);
    warningsCopy := warnings.Copy();
    if !InPresentFamily(parameters[index].condition) && InPresentFamily(condition) {
      warningsCopy.DeleteWarnings(ParameterField(ruleId, index, "value"));
    } else if InPresentFamily(parameters[index].condition) && !InPresentFamily(condition) {
      warningsCopy.Validate(V.ParameterValue, Str(newParameters[index].value), ParameterField(ruleId, index, "value"));
    }
  }

  /** A key outside the parameter array: `<ruleId>-request-` followed by
    * text without the letter `p`, as the keys of the request headers, URL
    * variables, method and body are. */
  lemma RequestKeyOutsideParameters(ruleId: string, tail: string)
    requires tail != [] && forall n :: 0 <= n < |tail| ==> tail[n] != 'p'
    ensures ScopeMatch(ruleId + "-request-" + tail, ParameterScope(ruleId)).None?
  {
    assert ParameterScope(ruleId) == ruleId + "-request-" + "parameter";
    assert "parameter"[0] == 'p';
    NoScopeMatch(ruleId + "-request-", tail, "parameter", 'p', 0);
  }

  /** Deleting a parameter leaves the warnings of the request headers as
    * they are. */
  lemma DeleteKeepsHeaderWarnings(w: TabMap, ruleId: string, i: nat, j: nat, leaf: string)
    requires WellKeyed(w, ParameterScope(ruleId))
    requires forall n :: 0 <= n < |leaf| ==> leaf[n] != 'p'
    requires HeaderField(ruleId, "request", j, leaf) in w
    ensures HeaderField(ruleId, "request", j, leaf) in AfterDelete(w, ParameterScope(ruleId), i)
    ensures AfterDelete(w, ParameterScope(ruleId), i)[HeaderField(ruleId, "request", j, leaf)]
            == w[HeaderField(ruleId, "request", j, leaf)]
  {
    var tail := IndexedTail("header", j, leaf);
    RequestHeaderFieldText(ruleId, j, leaf);
    IndexedTailDigits("header", j, leaf);
    RequestKeyOutsideParameters(ruleId, tail);
    DeleteKeepsOtherKeys(w, ParameterScope(ruleId), i, HeaderField(ruleId, "request", j, leaf));
  }

  /** Deleting a parameter leaves the warnings of the URL variables as they
    * are. */
  lemma DeleteKeepsVariableWarnings(w: TabMap, ruleId: string, i: nat, j: nat, leaf: string)
    requires WellKeyed(w, ParameterScope(ruleId))
    requires forall n :: 0 <= n < |leaf| ==> leaf[n] != 'p'
    requires VariableField(ruleId, j, leaf) in w
    ensures VariableField(ruleId, j, leaf) in AfterDelete(w, ParameterScope(ruleId), i)
    ensures AfterDelete(w, ParameterScope(ruleId), i)[VariableField(ruleId, j, leaf)] == w[VariableField(ruleId, j, leaf)]
  {
    var tail := IndexedTail("variable", j, leaf);
    VariableFieldText(ruleId, j, leaf);
    IndexedTailDigits("variable", j, leaf);
    RequestKeyOutsideParameters(ruleId, tail);
    DeleteKeepsOtherKeys(w, ParameterScope(ruleId), i, VariableField(ruleId, j, leaf));
  }

  /** Deleting a parameter leaves the warnings of the response headers as
    * they are. */
  lemma DeleteKeepsResponseHeaderWarnings(w: TabMap, ruleId: string, i: nat, j: nat, leaf: string)
    requires WellKeyed(w, ParameterScope(ruleId))
    requires forall n :: 0 <= n < |leaf| ==> leaf[n] != 'q'
    requires HeaderField(ruleId, "response", j, leaf) in w
    ensures HeaderField(ruleId, "response", j, leaf) in AfterDelete(w, ParameterScope(ruleId), i)
    ensures AfterDelete(w, ParameterScope(ruleId), i)[HeaderField(ruleId, "response", j, leaf)]
            == w[HeaderField(ruleId, "response", j, leaf)]
  {
    assert ParameterScope(ruleId) == ruleId + "-request-" + "parameter";
    ResponseHeaderOutsideRequest(ruleId, j, leaf, "parameter");
    DeleteKeepsOtherKeys(w, ParameterScope(ruleId), i, HeaderField(ruleId, "response", j, leaf));
  }
}
