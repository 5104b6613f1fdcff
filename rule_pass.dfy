/**
 * The per-rule part of `checkWarnings` in loki-ui/src/warnings.js: the
 * validators run, in the source's order, over every field of one rule,
 * threading the tab's warnings (possibly `undefined`) from one to the next.
 */
module RulePass {
  import opened Wrappers
  import opened Strings
  import opened Predicates
  import V = Validators
  import opened FieldKeys
  import opened ProjectModel
  import opened ArrayWarnings
  import opened ConditionedArrays
  import RequestParameters
  import RequestHeaders

  /** What the pass validates for one array element: its key, and its value
    * when `checkValue` holds. */
  datatype Check = Check(key: string, value: string, checkValue: bool)

  /** One element of an array: its key validated, then its value when
    * `c.checkValue`, under the section's keys for index `n`. */
  function ElementChecked(m: Option<V.TabMap>, a: Section, n: nat, c: Check): Option<V.TabMap> {
    var keyed := V.Validate(a.keyKind, Str(c.key), KeyField(a, n), m);
    if c.checkValue then V.Validate(a.valueKind, Str(c.value), ValueField(a, n), keyed)
    else keyed
  }

  /** One element's step sets that element's keys and no other. */
  lemma ElementCheckedLookup(m: Option<V.TabMap>, a: Section, n: nat, c: Check, f: string)
    ensures V.Lookup(ElementChecked(m, a, n, c), f)
            == if f == KeyField(a, n) then V.Verdict(a.keyKind, Str(c.key))
               else if c.checkValue && f == ValueField(a, n) then V.Verdict(a.valueKind, Str(c.value))
               else V.Lookup(m, f)
  {
    FieldsDiffer(a, n, n);
  }

  /** A `forEach` over an array of the rule, element by element. */
  function ArrayChecked(m: Option<V.TabMap>, a: Section, checks: seq<Check>): Option<V.TabMap>
    decreases |checks|
  {
    if checks == [] then m
    else ElementChecked(ArrayChecked(m, a, checks[..|checks| - 1]), a, |checks| - 1, checks[|checks| - 1])
  }

  lemma ArrayCheckedStep(m: Option<V.TabMap>, a: Section, checks: seq<Check>, j: nat)
    requires j < |checks|
    ensures ArrayChecked(m, a, checks[..j + 1]) == ElementChecked(ArrayChecked(m, a, checks[..j]), a, j, checks[j])
  {
    assert checks[..j + 1][..j] == checks[..j];
  }

  /** A key the loop does not validate keeps its message. */
  lemma {:induction false} ArrayCheckedFrame(m: Option<V.TabMap>, a: Section, checks: seq<Check>, f: string)
    requires forall j :: 0 <= j < |checks| ==> f != KeyField(a, j) && (checks[j].checkValue ==> f != ValueField(a, j))
    ensures V.Lookup(ArrayChecked(m, a, checks), f) == V.Lookup(m, f)
    decreases |checks|
  {
    if checks != [] {
      var n := |checks| - 1;
      assert forall j :: 0 <= j < n ==> checks[..n][j] == checks[j];
      ArrayCheckedFrame(m, a, checks[..n], f);
      ElementCheckedLookup(ArrayChecked(m, a, checks[..n]), a, n, checks[n], f);
    }
  }

  /** Element `j`'s key holds its key's verdict. */
  lemma {:induction false} ArrayCheckedKey(m: Option<V.TabMap>, a: Section, checks: seq<Check>, j: nat)
    requires j < |checks|
    ensures V.Lookup(ArrayChecked(m, a, checks), KeyField(a, j)) == V.Verdict(a.keyKind, Str(checks[j].key))
    decreases |checks|
  {
    var n := |checks| - 1;
    FieldsDiffer(a, j, n);
    ElementCheckedLookup(ArrayChecked(m, a, checks[..n]), a, n, checks[n], KeyField(a, j));
    if j < n {
      assert checks[..n][j] == checks[j];
      ArrayCheckedKey(m, a, checks[..n], j);
    }
  }

  /** Element `j`'s value key holds its value's verdict when the value is
    * checked, and is left alone when it is not. */
  lemma {:induction false} ArrayCheckedValue(m: Option<V.TabMap>, a: Section, checks: seq<Check>, j: nat)
    requires j < |checks|
    ensures V.Lookup(ArrayChecked(m, a, checks), ValueField(a, j))
            == if checks[j].checkValue then V.Verdict(a.valueKind, Str(checks[j].value)) else V.Lookup(m, ValueField(a, j))
    decreases |checks|
  {
    var n := |checks| - 1;
    FieldsDiffer(a, n, j);
    ElementCheckedLookup(ArrayChecked(m, a, checks[..n]), a, n, checks[n], ValueField(a, j));
    if j < n {
      assert checks[..n][j] == checks[j];
      ArrayCheckedValue(m, a, checks[..n], j);
    } else {
      forall i | 0 <= i < n ensures ValueField(a, j) != KeyField(a, i) && ValueField(a, j) != ValueField(a, i) {
        FieldsDiffer(a, i, j);
      }
      ArrayCheckedFrame(m, a, checks[..n], ValueField(a, j));
    }
  }

  /** Every key of a rule is `<ruleId>-<section>-<tail>`, the section being
    * "request" or "response". */
  function RuleKey(ruleId: string, section: string, tail: string): string {
    ruleId + "-" + section + "-" + tail
  }

  predicate IsSection(section: string) {
    section == "request" || section == "response"
  }

  lemma RuleKeyText(ruleId: string, section: string, tail: string, text: string)
    requires text == "-" + section + "-" + tail
    ensures RuleKey(ruleId, section, tail) == ruleId + text
  {
  }

  /** The source's keys in that form. */
  lemma FieldTexts(ruleId: string)
    ensures MethodField(ruleId) == RuleKey(ruleId, "request", "method")
    ensures BodyField(ruleId) == RuleKey(ruleId, "request", "body")
    ensures StatusCodeField(ruleId) == RuleKey(ruleId, "response", "statusCode")
    ensures DelayField(ruleId) == RuleKey(ruleId, "response", "delay")
  {
    RuleKeyText(ruleId, "request", "method", "-request-method");
    RuleKeyText(ruleId, "request", "body", "-request-body");
    RuleKeyText(ruleId, "response", "statusCode", "-response-statusCode");
    RuleKeyText(ruleId, "response", "delay", "-response-delay");
  }

  /** The arrays' scopes in that form. */
  lemma ScopeTexts(ruleId: string)
    ensures VariableScope(ruleId) == RuleKey(ruleId, "request", "variable")
    ensures ParameterScope(ruleId) == RuleKey(ruleId, "request", "parameter")
  {
    RuleKeyText(ruleId, "request", "variable", "-request-variable");
    RuleKeyText(ruleId, "request", "parameter", "-request-parameter");
  }

  lemma HeaderScopeText(ruleId: string, section: string)
    ensures HeaderScope(ruleId, section) == RuleKey(ruleId, section, "header")
  {
    assert HeaderScope(ruleId, section) == ruleId + ("-" + section + "-header");
    assert "-" + section + "-header" == "-" + section + "-" + "header";
  }

  /** An element key under a rule key is a rule key whose tail starts as the
    * array's name does. */
  lemma ElementRuleKey(ruleId: string, section: string, kind: string, j: nat, leaf: string)
    requires kind != []
    ensures ElementField(RuleKey(ruleId, section, kind), j, leaf) == RuleKey(ruleId, section, IndexedTail(kind, j, leaf))
    ensures IndexedTail(kind, j, leaf) != [] && IndexedTail(kind, j, leaf)[0] == kind[0]
  {
    var rest := "-" + ShowNat(j) + "-" + leaf;
    assert ElementField(RuleKey(ruleId, section, kind), j, leaf) == ruleId + "-" + section + "-" + kind + rest;
    assert IndexedTail(kind, j, leaf) == kind + rest;
  }

  /** Keys in different sections, or whose tails start differently, differ. */
  lemma RuleKeysDiffer(ruleId: string, s1: string, t1: string, s2: string, t2: string)
    requires IsSection(s1) && IsSection(s2) && t1 != [] && t2 != []
    requires s1 != s2 || t1[0] != t2[0]
    ensures RuleKey(ruleId, s1, t1) != RuleKey(ruleId, s2, t2)
  {
    var k1 := RuleKey(ruleId, s1, t1);
    var k2 := RuleKey(ruleId, s2, t2);
    if s1 == s2 {
      var p := |ruleId| + 1 + |s1| + 1;
      assert k1[p] == t1[0];
      assert k2[p] == t2[0];
    } else {
      var p := |ruleId| + 3;
      assert k1[p] == s1[2];
      assert k2[p] == s2[2];
    }
  }

  /** A rule key whose section or first tail letter differs from an array's
    * lies outside that array. */
  lemma ArrayOutside(ruleId: string, s1: string, t: string, a: Section, s2: string, kind: string)
    requires IsSection(s1) && IsSection(s2) && t != [] && kind != []
    requires a.scope == RuleKey(ruleId, s2, kind)
    requires s1 != s2 || t[0] != kind[0]
    ensures forall j: nat :: RuleKey(ruleId, s1, t) != KeyField(a, j) && RuleKey(ruleId, s1, t) != ValueField(a, j)
  {
    forall j: nat ensures RuleKey(ruleId, s1, t) != KeyField(a, j) && RuleKey(ruleId, s1, t) != ValueField(a, j) {
      ElementRuleKey(ruleId, s2, kind, j, "key");
      ElementRuleKey(ruleId, s2, kind, j, "value");
      RuleKeysDiffer(ruleId, s1, t, s2, IndexedTail(kind, j, "key"));
      RuleKeysDiffer(ruleId, s1, t, s2, IndexedTail(kind, j, "value"));
    }
  }

  /** The URL variables of rule `ruleId`, checked by `validateUrlVariableKey`
    * and `validateUrlVariableValue`. */
  function Variables(ruleId: string): Section {
    Section(VariableScope(ruleId), V.UrlVariableKey, V.UrlVariableValue)
  }

  /** The response headers of rule `ruleId`. */
  function ResponseHeaders(ruleId: string): Section {
    Section(HeaderScope(ruleId, "response"), V.HeaderKey, V.HeaderValue)
  }

  function VariableChecks(vs: seq<UrlVariable>): (r: seq<Check>)
    ensures |r| == |vs|
    ensures forall j :: 0 <= j < |vs| ==> r[j] == Check(vs[j].key, vs[j].value, true)
  {
    seq(|vs|, j requires 0 <= j < |vs| => Check(vs[j].key, vs[j].value, true))
  }

  /** The parameter loop as written: the value validator is handed the
    * parameter's key. */
  function ParameterChecks(ps: seq<Parameter>): (r: seq<Check>)
    ensures |r| == |ps|
    ensures forall j :: 0 <= j < |ps| ==> r[j] == Check(ps[j].key, ps[j].key, !InPresentFamily(ps[j].condition))
  {
    seq(|ps|, j requires 0 <= j < |ps| => Check(ps[j].key, ps[j].key, !InPresentFamily(ps[j].condition)))
  }

  /** Key and value, the value only when the condition compares it: the
    * request header loop, and the parameter loop as evidently intended. */
  function ConditionedChecks(ps: seq<Conditioned>): (r: seq<Check>)
    ensures |r| == |ps|
    ensures forall j :: 0 <= j < |ps| ==> r[j] == Check(ps[j].key, ps[j].value, !InPresentFamily(ps[j].condition))
  {
    seq(|ps|, j requires 0 <= j < |ps| => Check(ps[j].key, ps[j].value, !InPresentFamily(ps[j].condition)))
  }

  function ResponseHeaderChecks(hs: seq<ResponseHeader>): (r: seq<Check>)
    ensures |r| == |hs|
    ensures forall j :: 0 <= j < |hs| ==> r[j] == Check(hs[j].key, hs[j].value, true)
  {
    seq(|hs|, j requires 0 <= j < |hs| => Check(hs[j].key, hs[j].value, true))
  }

  /** The request half of a rule's validation: method, URL variables,
    * parameters (checked as `parameterChecks` says), headers and body. */
  function RequestChecked(m: Option<V.TabMap>, rule: Rule, parameterChecks: seq<Check>): Option<V.TabMap> {
    var r := rule.id;
    var q := rule.request;
    var withMethod := V.Validate(V.HttpMethod, Str(q.httpMethod), MethodField(r), m);
    var withVariables := ArrayChecked(withMethod, Variables(r), VariableChecks(q.urlVariables));
    var withParameters := ArrayChecked(withVariables, RequestParameters.Parameters(r), parameterChecks);
    var withHeaders := ArrayChecked(withParameters, RequestHeaders.Headers(r), ConditionedChecks(q.headers));
    if !InPresentFamily(q.bodyCondition) then V.Validate(V.Body, Str(q.body), BodyField(r), withHeaders)
    else withHeaders
  }

  /** The response half: status code, the delay when one is asked for, and
    * the response headers. */
  function ResponseChecked(m: Option<V.TabMap>, rule: Rule): Option<V.TabMap> {
    var r := rule.id;
    var s := rule.response;
    var withStatus := V.Validate(V.StatusCode, s.statusCode, StatusCodeField(r), m);
    var withDelay := if s.delayResponse then V.Validate(V.Delay, s.delay, DelayField(r), withStatus) else withStatus;
    ArrayChecked(withDelay, ResponseHeaders(r), ResponseHeaderChecks(s.headers))
  }

  /** The body of `tab.rules.forEach` in `checkWarnings`, as written. */
  function RuleChecked(m: Option<V.TabMap>, rule: Rule): Option<V.TabMap> {
    ResponseChecked(RequestChecked(m, rule, ParameterChecks(rule.request.parameters)), rule)
  }

  /** The same with each parameter's value validated, as evidently intended. */
  function CorrectedRuleChecked(m: Option<V.TabMap>, rule: Rule): Option<V.TabMap> {
    ResponseChecked(RequestChecked(m, rule, ConditionedChecks(rule.request.parameters)), rule)
  }

  /** The response half leaves every request key alone. */
  lemma ResponseKeepsRequestKeys(m: Option<V.TabMap>, rule: Rule, t: string)
    requires t != []
    ensures V.Lookup(ResponseChecked(m, rule), RuleKey(rule.id, "request", t)) == V.Lookup(m, RuleKey(rule.id, "request", t))
  {
    var r := rule.id;
    var s := rule.response;
    var f := RuleKey(r, "request", t);
    FieldTexts(r);
    HeaderScopeText(r, "response");
    RuleKeysDiffer(r, "request", t, "response", "statusCode");
    RuleKeysDiffer(r, "request", t, "response", "delay");
    ArrayOutside(r, "request", t, ResponseHeaders(r), "response", "header");
    var withStatus := V.Validate(V.StatusCode, s.statusCode, StatusCodeField(r), m);
    var withDelay := if s.delayResponse then V.Validate(V.Delay, s.delay, DelayField(r), withStatus) else withStatus;
    ArrayCheckedFrame(withDelay, ResponseHeaders(r), ResponseHeaderChecks(s.headers), f);
  }

  /** The request half leaves every response key alone. */
  lemma RequestKeepsResponseKeys(m: Option<V.TabMap>, rule: Rule, parameterChecks: seq<Check>, t: string)
    requires t != []
    ensures V.Lookup(RequestChecked(m, rule, parameterChecks), RuleKey(rule.id, "response", t))
            == V.Lookup(m, RuleKey(rule.id, "response", t))
  {
    var r := rule.id;
    var q := rule.request;
    var f := RuleKey(r, "response", t);
    FieldTexts(r);
    ScopeTexts(r);
    HeaderScopeText(r, "request");
    RuleKeysDiffer(r, "response", t, "request", "method");
    RuleKeysDiffer(r, "response", t, "request", "body");
    ArrayOutside(r, "response", t, Variables(r), "request", "variable");
    ArrayOutside(r, "response", t, RequestParameters.Parameters(r), "request", "parameter");
    ArrayOutside(r, "response", t, RequestHeaders.Headers(r), "request", "header");
    var withMethod := V.Validate(V.HttpMethod, Str(q.httpMethod), MethodField(r), m);
    var withVariables := ArrayChecked(withMethod, Variables(r), VariableChecks(q.urlVariables));
    var withParameters := ArrayChecked(withVariables, RequestParameters.Parameters(r), parameterChecks);
    ArrayCheckedFrame(withMethod, Variables(r), VariableChecks(q.urlVariables), f);
    ArrayCheckedFrame(withVariables, RequestParameters.Parameters(r), parameterChecks, f);
    ArrayCheckedFrame(withParameters, RequestHeaders.Headers(r), ConditionedChecks(q.headers), f);
  }

  /** The status code's key always ends up holding its verdict. */
  lemma StatusCodeChecked(m: Option<V.TabMap>, rule: Rule)
    ensures V.Lookup(RuleChecked(m, rule), StatusCodeField(rule.id)) == V.Verdict(V.StatusCode, rule.response.statusCode)
  {
    var r := rule.id;
    var s := rule.response;
    var before := RequestChecked(m, rule, ParameterChecks(rule.request.parameters));
    FieldTexts(r);
    HeaderScopeText(r, "response");
    RuleKeysDiffer(r, "response", "statusCode", "response", "delay");
    ArrayOutside(r, "response", "statusCode", ResponseHeaders(r), "response", "header");
    var withStatus := V.Validate(V.StatusCode, s.statusCode, StatusCodeField(r), before);
    var withDelay := if s.delayResponse then V.Validate(V.Delay, s.delay, DelayField(r), withStatus) else withStatus;
    ArrayCheckedFrame(withDelay, ResponseHeaders(r), ResponseHeaderChecks(s.headers), StatusCodeField(r));
  }

  /** The delay is validated only when the response is to be delayed;
    * otherwise its key keeps whatever it held. */
  lemma DelayChecked(m: Option<V.TabMap>, rule: Rule)
    ensures V.Lookup(RuleChecked(m, rule), DelayField(rule.id))
            == if rule.response.delayResponse then V.Verdict(V.Delay, rule.response.delay)
               else V.Lookup(m, DelayField(rule.id))
  {
    var r := rule.id;
    var s := rule.response;
    var before := RequestChecked(m, rule, ParameterChecks(rule.request.parameters));
    FieldTexts(r);
    HeaderScopeText(r, "response");
    RequestKeepsResponseKeys(m, rule, ParameterChecks(rule.request.parameters), "delay");
    RuleKeysDiffer(r, "response", "delay", "response", "statusCode");
    ArrayOutside(r, "response", "delay", ResponseHeaders(r), "response", "header");
    var withStatus := V.Validate(V.StatusCode, s.statusCode, StatusCodeField(r), before);
    var withDelay := if s.delayResponse then V.Validate(V.Delay, s.delay, DelayField(r), withStatus) else withStatus;
    ArrayCheckedFrame(withDelay, ResponseHeaders(r), ResponseHeaderChecks(s.headers), DelayField(r));
  }

  /** The body is validated only when the body condition compares it;
    * otherwise its key keeps whatever it held. */
  lemma BodyChecked(m: Option<V.TabMap>, rule: Rule)
    ensures V.Lookup(RuleChecked(m, rule), BodyField(rule.id))
            == if !InPresentFamily(rule.request.bodyCondition) then V.Verdict(V.Body, Str(rule.request.body))
               else V.Lookup(m, BodyField(rule.id))
  {
    var r := rule.id;
    var q := rule.request;
    var f := BodyField(r);
    FieldTexts(r);
    ScopeTexts(r);
    HeaderScopeText(r, "request");
    ResponseKeepsRequestKeys(RequestChecked(m, rule, ParameterChecks(q.parameters)), rule, "body");
    RuleKeysDiffer(r, "request", "body", "request", "method");
    ArrayOutside(r, "request", "body", Variables(r), "request", "variable");
    ArrayOutside(r, "request", "body", RequestParameters.Parameters(r), "request", "parameter");
    ArrayOutside(r, "request", "body", RequestHeaders.Headers(r), "request", "header");
    var withMethod := V.Validate(V.HttpMethod, Str(q.httpMethod), MethodField(r), m);
    var withVariables := ArrayChecked(withMethod, Variables(r), VariableChecks(q.urlVariables));
    var withParameters := ArrayChecked(withVariables, RequestParameters.Parameters(r), ParameterChecks(q.parameters));
    ArrayCheckedFrame(withMethod, Variables(r), VariableChecks(q.urlVariables), f);
    ArrayCheckedFrame(withVariables, RequestParameters.Parameters(r), ParameterChecks(q.parameters), f);
    ArrayCheckedFrame(withParameters, RequestHeaders.Headers(r), ConditionedChecks(q.headers), f);
  }

  /** What the pass leaves under parameter `j`'s keys, whatever the
    * parameter loop hands the validators. */
  lemma ParameterFieldsChecked(m: Option<V.TabMap>, rule: Rule, parameterChecks: seq<Check>, j: nat)
    requires j < |parameterChecks|
    ensures V.Lookup(ResponseChecked(RequestChecked(m, rule, parameterChecks), rule), KeyField(RequestParameters.Parameters(rule.id), j))
            == V.Verdict(V.ParameterKey, Str(parameterChecks[j].key))
    ensures V.Lookup(ResponseChecked(RequestChecked(m, rule, parameterChecks), rule), ValueField(RequestParameters.Parameters(rule.id), j))
            == if parameterChecks[j].checkValue then V.Verdict(V.ParameterValue, Str(parameterChecks[j].value))
               else V.Lookup(m, ValueField(RequestParameters.Parameters(rule.id), j))
  {
    var r := rule.id;
    var q := rule.request;
    var a := RequestParameters.Parameters(r);
    FieldTexts(r);
    ScopeTexts(r);
    HeaderScopeText(r, "request");
    ElementRuleKey(r, "request", "parameter", j, "key");
    ElementRuleKey(r, "request", "parameter", j, "value");
    var tk := IndexedTail("parameter", j, "key");
    var tv := IndexedTail("parameter", j, "value");
    ResponseKeepsRequestKeys(RequestChecked(m, rule, parameterChecks), rule, tk);
    ResponseKeepsRequestKeys(RequestChecked(m, rule, parameterChecks), rule, tv);
    RuleKeysDiffer(r, "request", tk, "request", "body");
    RuleKeysDiffer(r, "request", tv, "request", "body");
    ArrayOutside(r, "request", tk, RequestHeaders.Headers(r), "request", "header");
    ArrayOutside(r, "request", tv, RequestHeaders.Headers(r), "request", "header");
    var withMethod := V.Validate(V.HttpMethod, Str(q.httpMethod), MethodField(r), m);
    var withVariables := ArrayChecked(withMethod, Variables(r), VariableChecks(q.urlVariables));
    var withParameters := ArrayChecked(withVariables, a, parameterChecks);
    ArrayCheckedKey(withVariables, a, parameterChecks, j);
    ArrayCheckedValue(withVariables, a, parameterChecks, j);
    ArrayCheckedFrame(withParameters, RequestHeaders.Headers(r), ConditionedChecks(q.headers), KeyField(a, j));
    ArrayCheckedFrame(withParameters, RequestHeaders.Headers(r), ConditionedChecks(q.headers), ValueField(a, j));
    if !parameterChecks[j].checkValue {
      RuleKeysDiffer(r, "request", tv, "request", "method");
      ArrayOutside(r, "request", tv, Variables(r), "request", "variable");
      ArrayCheckedFrame(withMethod, Variables(r), VariableChecks(q.urlVariables), ValueField(a, j));
    }
  }

  /** The pass as written: each parameter's key holds its key's verdict, and
    * its value key, when the condition compares the value, holds the
    * verdict of the KEY's text (the value itself is never looked at). */
  lemma ParametersChecked(m: Option<V.TabMap>, rule: Rule, j: nat)
    requires j < |rule.request.parameters|
    ensures V.Lookup(RuleChecked(m, rule), KeyField(RequestParameters.Parameters(rule.id), j))
            == V.Verdict(V.ParameterKey, Str(rule.request.parameters[j].key))
    ensures V.Lookup(RuleChecked(m, rule), ValueField(RequestParameters.Parameters(rule.id), j))
            == if !InPresentFamily(rule.request.parameters[j].condition)
               then V.Verdict(V.ParameterValue, Str(rule.request.parameters[j].key))
               else V.Lookup(m, ValueField(RequestParameters.Parameters(rule.id), j))
  {
    ParameterFieldsChecked(m, rule, ParameterChecks(rule.request.parameters), j);
  }

  /** The corrected pass leaves the parameters' warnings in step with the
    * parameters, as the edit handlers keep them, provided no value whose
    * condition only tests presence carried a warning before. */
  lemma CorrectedParametersInSync(m: Option<V.TabMap>, rule: Rule)
    requires forall j :: 0 <= j < |rule.request.parameters| && InPresentFamily(rule.request.parameters[j].condition) ==>
               V.Lookup(m, ValueField(RequestParameters.Parameters(rule.id), j)) == None
    ensures InSync(V.OrEmpty(CorrectedRuleChecked(m, rule)), RequestParameters.Parameters(rule.id), rule.request.parameters)
  {
    var ps := rule.request.parameters;
    var a := RequestParameters.Parameters(rule.id);
    var result := CorrectedRuleChecked(m, rule);
    forall j | 0 <= j < |ps|
      ensures V.Lookup(Some(V.OrEmpty(result)), KeyField(a, j)) == V.Verdict(a.keyKind, Str(ps[j].key))
      ensures V.Lookup(Some(V.OrEmpty(result)), ValueField(a, j)) == ValueVerdict(a, ps[j])
    {
      ParameterFieldsChecked(m, rule, ConditionedChecks(ps), j);
    }
  }

  /** Under the pass as written, a compared parameter with a well-formed key
    * gets no value warning, whatever its value: an empty value slips
    * through, where the handlers and the corrected pass report it. */
  lemma EmptyValueSlipsThrough(m: Option<V.TabMap>, rule: Rule, j: nat)
    requires j < |rule.request.parameters|
    requires !InPresentFamily(rule.request.parameters[j].condition)
    requires rule.request.parameters[j].value == ""
    requires V.Verdict(V.ParameterValue, Str(rule.request.parameters[j].key)) == None
    ensures V.Lookup(RuleChecked(m, rule), ValueField(RequestParameters.Parameters(rule.id), j)) == None
    ensures V.Lookup(CorrectedRuleChecked(m, rule), ValueField(RequestParameters.Parameters(rule.id), j))
            == Some(V.EmptyMessage(V.Label(V.ParameterValue)))
    ensures ValueVerdict(RequestParameters.Parameters(rule.id), rule.request.parameters[j]) == Some(V.EmptyMessage(V.Label(V.ParameterValue)))
    ensures !InSync(V.OrEmpty(RuleChecked(m, rule)), RequestParameters.Parameters(rule.id), rule.request.parameters)
  {
    var a := RequestParameters.Parameters(rule.id);
    ParametersChecked(m, rule, j);
    ParameterFieldsChecked(m, rule, ConditionedChecks(rule.request.parameters), j);
    assert V.Lookup(Some(V.OrEmpty(RuleChecked(m, rule))), ValueField(a, j)) == None;
  }

  /** The input that shows it: key "id", empty value, condition EQUAL. */
  lemma ParameterValueFollowsKey()
    ensures var p := Conditioned("id", "", false, false, "EQUAL");
            !InPresentFamily(p.condition) && p.value == "" && V.Verdict(V.ParameterValue, Str(p.key)) == None
  {
    NotContainsWithoutP("EQUAL");
    assert !ContainsWhitespace("id") by {
      assert forall i :: 0 <= i < |"id"| ==> "id"[i] == 'i' || "id"[i] == 'd';
    }
  }

  /** Each request header's key holds its verdict, and its value key holds
    * the value's verdict when the condition compares the value; otherwise
    * the value key keeps whatever it held. */
  lemma RequestHeadersChecked(m: Option<V.TabMap>, rule: Rule, j: nat)
    requires j < |rule.request.headers|
    ensures V.Lookup(RuleChecked(m, rule), KeyField(RequestHeaders.Headers(rule.id), j))
            == V.Verdict(V.HeaderKey, Str(rule.request.headers[j].key))
    ensures V.Lookup(RuleChecked(m, rule), ValueField(RequestHeaders.Headers(rule.id), j))
            == if !InPresentFamily(rule.request.headers[j].condition)
               then V.Verdict(V.HeaderValue, Str(rule.request.headers[j].value))
               else V.Lookup(m, ValueField(RequestHeaders.Headers(rule.id), j))
  {
    var r := rule.id;
    var q := rule.request;
    var a := RequestHeaders.Headers(r);
    var pc := ParameterChecks(q.parameters);
    FieldTexts(r);
    ScopeTexts(r);
    HeaderScopeText(r, "request");
    ElementRuleKey(r, "request", "header", j, "key");
    ElementRuleKey(r, "request", "header", j, "value");
    var tk := IndexedTail("header", j, "key");
    var tv := IndexedTail("header", j, "value");
    ResponseKeepsRequestKeys(RequestChecked(m, rule, pc), rule, tk);
    ResponseKeepsRequestKeys(RequestChecked(m, rule, pc), rule, tv);
    RuleKeysDiffer(r, "request", tk, "request", "body");
    RuleKeysDiffer(r, "request", tv, "request", "body");
    var withMethod := V.Validate(V.HttpMethod, Str(q.httpMethod), MethodField(r), m);
    var withVariables := ArrayChecked(withMethod, Variables(r), VariableChecks(q.urlVariables));
    var withParameters := ArrayChecked(withVariables, RequestParameters.Parameters(r), pc);
    ArrayCheckedKey(withParameters, a, ConditionedChecks(q.headers), j);
    ArrayCheckedValue(withParameters, a, ConditionedChecks(q.headers), j);
    if InPresentFamily(q.headers[j].condition) {
      RuleKeysDiffer(r, "request", tv, "request", "method");
      ArrayOutside(r, "request", tv, Variables(r), "request", "variable");
      ArrayOutside(r, "request", tv, RequestParameters.Parameters(r), "request", "parameter");
      ArrayCheckedFrame(withMethod, Variables(r), VariableChecks(q.urlVariables), ValueField(a, j));
      ArrayCheckedFrame(withVariables, RequestParameters.Parameters(r), pc, ValueField(a, j));
    }
  }

  /** The request headers' warnings end up in step with the headers, as the
    * edit handlers keep them, provided no value whose condition only tests
    * presence carried a warning before. */
  lemma RequestHeadersInSync(m: Option<V.TabMap>, rule: Rule)
    requires forall j :: 0 <= j < |rule.request.headers| && InPresentFamily(rule.request.headers[j].condition) ==>
               V.Lookup(m, ValueField(RequestHeaders.Headers(rule.id), j)) == None
    ensures InSync(V.OrEmpty(RuleChecked(m, rule)), RequestHeaders.Headers(rule.id), rule.request.headers)
  {
    var hs := rule.request.headers;
    var a := RequestHeaders.Headers(rule.id);
    var result := RuleChecked(m, rule);
    forall j | 0 <= j < |hs|
      ensures V.Lookup(Some(V.OrEmpty(result)), KeyField(a, j)) == V.Verdict(a.keyKind, Str(hs[j].key))
      ensures V.Lookup(Some(V.OrEmpty(result)), ValueField(a, j)) == ValueVerdict(a, hs[j])
    {
      RequestHeadersChecked(m, rule, j);
    }
  }

  /** Each URL variable's key and value hold their verdicts. */
  lemma VariablesChecked(m: Option<V.TabMap>, rule: Rule, j: nat)
    requires j < |rule.request.urlVariables|
    ensures V.Lookup(RuleChecked(m, rule), KeyField(Variables(rule.id), j))
            == V.Verdict(V.UrlVariableKey, Str(rule.request.urlVariables[j].key))
    ensures V.Lookup(RuleChecked(m, rule), ValueField(Variables(rule.id), j))
            == V.Verdict(V.UrlVariableValue, Str(rule.request.urlVariables[j].value))
  {
    var r := rule.id;
    var q := rule.request;
    var a := Variables(r);
    var pc := ParameterChecks(q.parameters);
    FieldTexts(r);
    ScopeTexts(r);
    HeaderScopeText(r, "request");
    ElementRuleKey(r, "request", "variable", j, "key");
    ElementRuleKey(r, "request", "variable", j, "value");
    var tk := IndexedTail("variable", j, "key");
    var tv := IndexedTail("variable", j, "value");
    ResponseKeepsRequestKeys(RequestChecked(m, rule, pc), rule, tk);
    ResponseKeepsRequestKeys(RequestChecked(m, rule, pc), rule, tv);
    RuleKeysDiffer(r, "request", tk, "request", "body");
    RuleKeysDiffer(r, "request", tv, "request", "body");
    ArrayOutside(r, "request", tk, RequestParameters.Parameters(r), "request", "parameter");
    ArrayOutside(r, "request", tv, RequestParameters.Parameters(r), "request", "parameter");
    ArrayOutside(r, "request", tk, RequestHeaders.Headers(r), "request", "header");
    ArrayOutside(r, "request", tv, RequestHeaders.Headers(r), "request", "header");
    var withMethod := V.Validate(V.HttpMethod, Str(q.httpMethod), MethodField(r), m);
    var withVariables := ArrayChecked(withMethod, a, VariableChecks(q.urlVariables));
    var withParameters := ArrayChecked(withVariables, RequestParameters.Parameters(r), pc);
    ArrayCheckedKey(withMethod, a, VariableChecks(q.urlVariables), j);
    ArrayCheckedValue(withMethod, a, VariableChecks(q.urlVariables), j);
    ArrayCheckedFrame(withVariables, RequestParameters.Parameters(r), pc, KeyField(a, j));
    ArrayCheckedFrame(withVariables, RequestParameters.Parameters(r), pc, ValueField(a, j));
    ArrayCheckedFrame(withParameters, RequestHeaders.Headers(r), ConditionedChecks(q.headers), KeyField(a, j));
    ArrayCheckedFrame(withParameters, RequestHeaders.Headers(r), ConditionedChecks(q.headers), ValueField(a, j));
  }

  /** The HTTP method's key holds its verdict. */
  lemma MethodChecked(m: Option<V.TabMap>, rule: Rule)
    ensures V.Lookup(RuleChecked(m, rule), MethodField(rule.id)) == V.Verdict(V.HttpMethod, Str(rule.request.httpMethod))
  {
    var r := rule.id;
    var q := rule.request;
    var f := MethodField(r);
    var pc := ParameterChecks(q.parameters);
    FieldTexts(r);
    ScopeTexts(r);
    HeaderScopeText(r, "request");
    ResponseKeepsRequestKeys(RequestChecked(m, rule, pc), rule, "method");
    RuleKeysDiffer(r, "request", "method", "request", "body");
    ArrayOutside(r, "request", "method", Variables(r), "request", "variable");
    ArrayOutside(r, "request", "method", RequestParameters.Parameters(r), "request", "parameter");
    ArrayOutside(r, "request", "method", RequestHeaders.Headers(r), "request", "header");
    var withMethod := V.Validate(V.HttpMethod, Str(q.httpMethod), f, m);
    var withVariables := ArrayChecked(withMethod, Variables(r), VariableChecks(q.urlVariables));
    var withParameters := ArrayChecked(withVariables, RequestParameters.Parameters(r), pc);
    ArrayCheckedFrame(withMethod, Variables(r), VariableChecks(q.urlVariables), f);
    ArrayCheckedFrame(withVariables, RequestParameters.Parameters(r), pc, f);
    ArrayCheckedFrame(withParameters, RequestHeaders.Headers(r), ConditionedChecks(q.headers), f);
  }

  /** Each response header's key and value hold their verdicts, under the
    * "response" section. */
  lemma ResponseHeadersChecked(m: Option<V.TabMap>, rule: Rule, j: nat)
    requires j < |rule.response.headers|
    ensures V.Lookup(RuleChecked(m, rule), KeyField(ResponseHeaders(rule.id), j))
            == V.Verdict(V.HeaderKey, Str(rule.response.headers[j].key))
    ensures V.Lookup(RuleChecked(m, rule), ValueField(ResponseHeaders(rule.id), j))
            == V.Verdict(V.HeaderValue, Str(rule.response.headers[j].value))
  {
    var s := rule.response;
    var before := RequestChecked(m, rule, ParameterChecks(rule.request.parameters));
    var withStatus := V.Validate(V.StatusCode, s.statusCode, StatusCodeField(rule.id), before);
    var withDelay := if s.delayResponse then V.Validate(V.Delay, s.delay, DelayField(rule.id), withStatus) else withStatus;
    ArrayCheckedKey(withDelay, ResponseHeaders(rule.id), ResponseHeaderChecks(s.headers), j);
    ArrayCheckedValue(withDelay, ResponseHeaders(rule.id), ResponseHeaderChecks(s.headers), j);
  }
}
