/**
 * The configuration tree the warnings engine validates: a project of tabs
 * (one per mock URL), each an ordered list of rules, each a request matcher
 * and a response.
 */
module ProjectModel {
  import opened Strings
  import opened Predicates

  /** A request parameter or request header matcher (the two have the same
    * fields). `condition` is one of PRESENT, NOT_PRESENT, EQUAL, NOT_EQUAL,
    * CONTAINS, NOT_CONTAINS, kept as text because the engine only ever asks
    * whether it includes "PRESENT". */
  datatype Conditioned = Conditioned(key: string, value: string, keyIgnoreCase: bool, valueIgnoreCase: bool, condition: string)

  type Parameter = Conditioned

  type RequestHeader = Conditioned

  datatype UrlVariable = UrlVariable(key: string, value: string)

  datatype ResponseHeader = ResponseHeader(key: string, value: string)

  datatype Request = Request(
    httpMethod: string,
    urlVariables: seq<UrlVariable>,
    parameters: seq<Parameter>,
    headers: seq<RequestHeader>,
    bodyCondition: string,
    body: string)

  /** `statusCode` and `delay` are whatever the form holds: a number or the
    * text typed so far. */
  datatype Response = Response(statusCode: JsValue, delayResponse: bool, delay: JsValue, headers: seq<ResponseHeader>)

  datatype Rule = Rule(id: string, request: Request, response: Response)

  datatype Tab = Tab(id: string, url: string, rules: seq<Rule>)

  datatype Project = Project(tabs: seq<Tab>)

  /** `condition.includes('PRESENT')`: the conditions under which a value is
    * not compared and so not validated. */
  predicate InPresentFamily(condition: string) {
    Contains(condition, "PRESENT")
  }

  /** The test picks out exactly PRESENT and NOT_PRESENT among the six
    * conditions. */
  lemma PresentFamilyMembers()
    ensures InPresentFamily("PRESENT") && InPresentFamily("NOT_PRESENT")
  {
    assert "NOT_PRESENT"[4..] == "PRESENT";
    assert StartsWith("NOT_PRESENT"[4..], "PRESENT");
  }

  lemma EqualityConditionsOutside()
    ensures !InPresentFamily("EQUAL") && !InPresentFamily("NOT_EQUAL")
  {
    NotContainsWithoutP("EQUAL");
    NotContainsWithoutP("NOT_EQUAL");
  }

  lemma ContainsConditionsOutside()
    ensures !InPresentFamily("CONTAINS") && !InPresentFamily("NOT_CONTAINS")
  {
    NotContainsWithoutP("CONTAINS");
    NotContainsWithoutP("NOT_CONTAINS");
  }

  /** A text without the letter P does not include "PRESENT". */
  lemma {:induction false} NotContainsWithoutP(s: string)
    requires forall i :: 0 <= i < |s| ==> s[i] != 'P'
    ensures !Contains(s, "PRESENT")
    decreases |s|
  {
    if |s| > 0 {
      NotContainsWithoutP(s[1..]);
    }
    if |s| >= 7 {
      assert s[..7][0] == s[0];
    }
  }
}
