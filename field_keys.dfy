/**
 * The field-key scheme of loki-ui/src/warnings.js: the string under which a
 * field's warning is stored in its tab's warnings. Deletion and renumbering
 * work on these strings by prefix, so the keys stay strings here.
 */
module FieldKeys {
  import opened Strings

  /** The mock URL of a tab. */
  const UrlField: string := "url"

  function MethodField(ruleId: string): string {
    ruleId + "-request-method"
  }

  /** The prefix shared by all keys of the URL variables of a rule. */
  function VariableScope(ruleId: string): string {
    ruleId + "-request-variable"
  }

  function VariableField(ruleId: string, index: int, leaf: string): string {
    VariableScope(ruleId) + "-" + ShowInt(index) + "-" + leaf
  }

  /** The prefix shared by all keys of the request parameters of a rule. */
  function ParameterScope(ruleId: string): string {
    ruleId + "-request-parameter"
  }

  /** The prefix of the keys of one parameter, as the delete handler builds it. */
  function ParameterElement(ruleId: string, index: int): string {
    ParameterScope(ruleId) + "-" + ShowInt(index)
  }

  function ParameterField(ruleId: string, index: int, leaf: string): string {
    ParameterElement(ruleId, index) + "-" + leaf
  }

  /** The prefix shared by the keys of the request (`section` = "request") or
    * response (`section` = "response") headers of a rule. */
  function HeaderScope(ruleId: string, section: string): string {
    ruleId + "-" + section + "-header"
  }

  function HeaderElement(ruleId: string, section: string, index: int): string {
    HeaderScope(ruleId, section) + "-" + ShowInt(index)
  }

  function HeaderField(ruleId: string, section: string, index: int, leaf: string): string {
    HeaderElement(ruleId, section, index) + "-" + leaf
  }

  function BodyField(ruleId: string): string {
    ruleId + "-request-body"
  }

  function StatusCodeField(ruleId: string): string {
    ruleId + "-response-statusCode"
  }

  function DelayField(ruleId: string): string {
    ruleId + "-response-delay"
  }

  /** The text of an indexed key after `<ruleId>-request-`. */
  function IndexedTail(kind: string, j: nat, leaf: string): string {
    kind + "-" + ShowNat(j) + "-" + leaf
  }

  lemma IndexedTailDigits(kind: string, j: nat, leaf: string)
    ensures IndexedTail(kind, j, leaf) == kind + ("-" + ShowNat(j) + "-" + leaf)
    ensures forall n :: 0 <= n < |ShowNat(j)| ==> IsDigit(ShowNat(j)[n])
  {
  }

  /** Regrouping `r + s + t` where `s` is `a + b`. */
  lemma Regroup(r: string, s: string, a: string, b: string, t: string)
    requires s == a + b
    ensures r + s + t == r + a + (b + t)
  {
  }

  lemma Associate(r: string, a: string, b: string, c: string)
    ensures r + a + b + c == r + (a + b + c)
  {
  }

  /** The key of element `j` of a scope, regrouped around the scope. */
  lemma ElementText(scope: string, j: nat, leaf: string)
    ensures scope + "-" + ShowInt(j) + "-" + leaf == scope + ("-" + ShowNat(j) + "-" + leaf)
  {
  }

  lemma ParameterFieldText(ruleId: string, j: nat, leaf: string)
    ensures ParameterField(ruleId, j, leaf) == ruleId + "-request-" + IndexedTail("parameter", j, leaf)
  {
    var t := "-" + ShowNat(j) + "-" + leaf;
    ElementText(ParameterScope(ruleId), j, leaf);
    assert IndexedTail("parameter", j, leaf) == "parameter" + t;
    Regroup(ruleId, "-request-parameter", "-request-", "parameter", t);
  }

  lemma VariableFieldText(ruleId: string, j: nat, leaf: string)
    ensures VariableField(ruleId, j, leaf) == ruleId + "-request-" + IndexedTail("variable", j, leaf)
  {
    var t := "-" + ShowNat(j) + "-" + leaf;
    ElementText(VariableScope(ruleId), j, leaf);
    assert IndexedTail("variable", j, leaf) == "variable" + t;
    Regroup(ruleId, "-request-variable", "-request-", "variable", t);
  }

  lemma RequestHeaderFieldText(ruleId: string, j: nat, leaf: string)
    ensures HeaderField(ruleId, "request", j, leaf) == ruleId + "-request-" + IndexedTail("header", j, leaf)
  {
    var t := "-" + ShowNat(j) + "-" + leaf;
    ElementText(HeaderScope(ruleId, "request"), j, leaf);
    assert HeaderScope(ruleId, "request") == ruleId + "-request-header" by {
      Associate(ruleId, "-", "request", "-header");
      assert "-" + "request" + "-header" == "-request-header";
    }
    assert IndexedTail("header", j, leaf) == "header" + t;
    Regroup(ruleId, "-request-header", "-request-", "header", t);
  }
}
