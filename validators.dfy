/**
 * The field validators of loki-ui/src/warnings.js. Each one looks at one
 * value and sets or removes one key of a tab's warnings. A tab's warnings
 * may be `undefined` (`None`); a validator that finds nothing to report
 * leaves `undefined` as it is and creates a map only to store a message.
 */
module Validators {
  import opened Wrappers
  import opened Strings
  import opened Predicates

  /** One tab's warnings: field key to message. */
  type TabMap = map<string, string>

  /** The message stored under `field`, if any. */
  function Lookup(w: Option<TabMap>, field: string): Option<string> {
    if w.Some? && field in w.value then Some(w.value[field]) else None
  }

  function OrEmpty(w: Option<TabMap>): TabMap {
    if w.Some? then w.value else map[]
  }

  function EmptyMessage(subject: string): string {
    subject + " cannot be empty"
  }

  function InvalidMessage(subject: string): string {
    subject + " must be valid"
  }

  /** The shape every validator shares: an empty value is reported as
    * "<subject> cannot be empty", a non-empty value that fails its predicate as
    * "<subject> must be valid", and a good value removes the key. Nothing but
    * `field` changes. */
  function Record(w: Option<TabMap>, field: string, subject: string, notEmpty: bool, wellFormed: bool)
    : (r: Option<TabMap>)
    ensures Lookup(r, field) == if !notEmpty then Some(EmptyMessage(subject))
                                else if !wellFormed then Some(InvalidMessage(subject))
                                else None
    ensures forall f :: f != field ==> Lookup(r, f) == Lookup(w, f)
    ensures r.None? <==> w.None? && notEmpty && wellFormed
  {
    if notEmpty then
      if wellFormed then
        if w.Some? then Some(w.value - {field}) else None
      else Some(OrEmpty(w)[field := InvalidMessage(subject)])
    else Some(OrEmpty(w)[field := EmptyMessage(subject)])
  }

  /** The validated field kinds, one per `validate*` function but the URL. */
  datatype Kind =
    | HttpMethod | UrlVariableKey | UrlVariableValue | ParameterKey | ParameterValue
    | HeaderKey | HeaderValue | Body | StatusCode | Delay

  /** The subject of the kind's messages. */
  function Label(k: Kind): string {
    match k
    case HttpMethod => "HTTP method"
    case UrlVariableKey => "URL variable key"
    case UrlVariableValue => "URL variable value"
    case ParameterKey => "Parameter key"
    case ParameterValue => "Parameter value"
    case HeaderKey => "Header key"
    case HeaderValue => "Header value"
    case Body => "Body"
    case StatusCode => "Status code"
    case Delay => "Delay"
  }

  /** The kind's `isValid*` predicate; `validateBody` has none. */
  predicate WellFormed(k: Kind, v: JsValue) {
    match k
    case HeaderValue => IsValidHeaderValue(v)
    case Body => true
    case StatusCode => IsValidStatusCode(v)
    case Delay => IsValidDelay(v)
    case _ => IsValidToken(v)
  }

  /** The message a kind's validator stores for a value, if any. */
  function Verdict(k: Kind, v: JsValue): Option<string> {
    if !IsNotEmpty(v) then Some(EmptyMessage(Label(k)))
    else if !WellFormed(k, v) then Some(InvalidMessage(Label(k)))
    else None
  }

  /** `validateHttpMethod`, `validateUrlVariableKey`, …, `validateDelay`:
    * `field` is the key the source builds from the rule id, the section and
    * the index. */
  function Validate(k: Kind, v: JsValue, field: string, w: Option<TabMap>): (r: Option<TabMap>)
    ensures Lookup(r, field) == Verdict(k, v)
    ensures forall f :: f != field ==> Lookup(r, f) == Lookup(w, f)
    ensures r.None? <==> w.None? && IsNotEmpty(v) && WellFormed(k, v)
  {
    Record(w, field, Label(k), IsNotEmpty(v), WellFormed(k, v))
  }

  /** A validator run on an existing warnings object, as the edit handlers
    * do: the object stays an object. */
  function ValidateTab(k: Kind, v: JsValue, field: string, w: TabMap): (r: TabMap)
    ensures Some(r) == Validate(k, v, field, Some(w))
  {
    Validate(k, v, field, Some(w)).value
  }

  /** `validateUrl`: the key is `url` and the subject "Mock URL". */
  function ValidateUrl(url: string, urlParses: string -> bool, w: Option<TabMap>): (r: Option<TabMap>)
    ensures Lookup(r, "url") == if url == [] then Some(EmptyMessage("Mock URL"))
                                else if !IsValidUrl(url, urlParses) then Some(InvalidMessage("Mock URL"))
                                else None
    ensures forall f :: f != "url" ==> Lookup(r, f) == Lookup(w, f)
    ensures r.None? <==> w.None? && url != [] && IsValidUrl(url, urlParses)
  {
    Record(w, "url", "Mock URL", IsNotEmpty(Str(url)), IsValidUrl(url, urlParses))
  }

  /** Two tab maps with the same lookups are equal. */
  lemma {:induction false} LookupExtensional(a: Option<TabMap>, b: Option<TabMap>)
    requires a.Some? == b.Some?
    requires forall f :: Lookup(a, f) == Lookup(b, f)
    ensures a == b
  {
    if a.Some? {
      forall f | f in a.value ensures f in b.value && a.value[f] == b.value[f] {
        assert Lookup(a, f) == Some(a.value[f]);
      }
      forall f | f in b.value ensures f in a.value {
        assert Lookup(b, f) == Some(b.value[f]);
      }
      assert a.value.Keys == b.value.Keys;
      assert a.value == b.value;
    }
  }

  /** `validateBody` never reports "Body must be valid", and
    * `validateHeaderValue` never reports "Header value must be valid":
    * their only message is the empty one. */
  lemma NeverMalformed(k: Kind, v: JsValue, field: string, w: Option<TabMap>)
    requires k == Body || k == HeaderValue
    ensures Lookup(Validate(k, v, field, w), field) in {None, Some(EmptyMessage(Label(k)))}
  {
  }

  /** Running a validator twice is running it once. */
  lemma ValidateIdempotent(k: Kind, v: JsValue, field: string, w: Option<TabMap>)
    ensures Validate(k, v, field, Validate(k, v, field, w)) == Validate(k, v, field, w)
  {
    var once := Validate(k, v, field, w);
    LookupExtensional(Validate(k, v, field, once), once);
  }

  /** Validators of different fields commute: the order in which a pass
    * visits fields does not matter. */
  lemma ValidateCommutes(k1: Kind, v1: JsValue, f1: string, k2: Kind, v2: JsValue, f2: string, w: Option<TabMap>)
    requires f1 != f2
    ensures Validate(k1, v1, f1, Validate(k2, v2, f2, w)) == Validate(k2, v2, f2, Validate(k1, v1, f1, w))
  {
    LookupExtensional(Validate(k1, v1, f1, Validate(k2, v2, f2, w)),
                      Validate(k2, v2, f2, Validate(k1, v1, f1, w)));
  }
}
