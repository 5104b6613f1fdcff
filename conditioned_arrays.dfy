/**
 * What the handlers of an array of conditioned matchers (the request
 * parameters, the request headers) do to a tab's warnings, stated once for
 * both. A `Section` names the array's scope and the validators of its keys
 * and values; element `j`'s warnings sit under `<scope>-<j>-key` and
 * `<scope>-<j>-value`.
 */
module ConditionedArrays {
  import opened Wrappers
  import opened Strings
  import opened Predicates
  import V = Validators
  import opened WarningEdits
  import opened ProjectModel
  import opened ArrayWarnings
  import opened FieldKeys

  datatype Section = Section(scope: string, keyKind: V.Kind, valueKind: V.Kind)

  function KeyField(a: Section, j: nat): string {
    ElementField(a.scope, j, "key")
  }

  function ValueField(a: Section, j: nat): string {
    ElementField(a.scope, j, "value")
  }

  /** The value warning an element calls for: none while its condition only
    * tests for presence, since the value is then not compared. */
  function ValueVerdict(a: Section, p: Conditioned): Option<string> {
    if InPresentFamily(p.condition) then None else V.Verdict(a.valueKind, Str(p.value))
  }

  /** The warnings agree with the elements: each element's key and value
    * keys hold exactly the message its validators give. */
  predicate InSync(w: TabMap, a: Section, ps: seq<Conditioned>) {
    forall j :: 0 <= j < |ps| ==>
      V.Lookup(Some(w), KeyField(a, j)) == V.Verdict(a.keyKind, Str(ps[j].key))
      && V.Lookup(Some(w), ValueField(a, j)) == ValueVerdict(a, ps[j])
  }

  /** The keys of distinct elements, and the key and value keys of one
    * element, differ. */
  lemma FieldsDiffer(a: Section, j: nat, n: nat)
    ensures KeyField(a, j) != ValueField(a, n)
    ensures j != n ==> KeyField(a, j) != KeyField(a, n) && ValueField(a, j) != ValueField(a, n)
  {
    if KeyField(a, j) == ValueField(a, n) {
      ElementFieldInjective(a.scope, j, "key", n, "value");
    }
    if KeyField(a, j) == KeyField(a, n) {
      ElementFieldInjective(a.scope, j, "key", n, "key");
    }
    if ValueField(a, j) == ValueField(a, n) {
      ElementFieldInjective(a.scope, j, "value", n, "value");
    }
  }

  // ---------------------------------------------------------------------
  // Add
  // ---------------------------------------------------------------------

  /** The warnings after an element is appended at index `n`: its key and
    * its value are validated. */
  function AfterAdd(w: TabMap, a: Section, n: nat, p: Conditioned): TabMap {
    V.ValidateTab(a.valueKind, Str(p.value), ValueField(a, n),
      V.ValidateTab(a.keyKind, Str(p.key), KeyField(a, n), w))
  }

  /** Adding an element whose condition compares values keeps the warnings
    * in agreement with the elements. */
  lemma AddKeepsInSync(w: TabMap, a: Section, ps: seq<Conditioned>, p: Conditioned)
    requires InSync(w, a, ps) && !InPresentFamily(p.condition)
    ensures InSync(AfterAdd(w, a, |ps|, p), a, ps + [p])
  {
    var n := |ps|;
    var ps' := ps + [p];
    var w' := AfterAdd(w, a, n, p);
    forall j | 0 <= j < |ps'|
      ensures V.Lookup(Some(w'), KeyField(a, j)) == V.Verdict(a.keyKind, Str(ps'[j].key))
      ensures V.Lookup(Some(w'), ValueField(a, j)) == ValueVerdict(a, ps'[j])
    {
      FieldsDiffer(a, j, n);
      FieldsDiffer(a, n, j);
    }
  }

  /** Adding keeps the keys of the array canonical. */
  lemma AddKeepsWellKeyed(w: TabMap, a: Section, n: nat, p: Conditioned)
    requires WellKeyed(w, a.scope)
    ensures WellKeyed(AfterAdd(w, a, n, p), a.scope)
  {
    ElementFieldCanonical(a.scope, n, "key");
    ElementFieldCanonical(a.scope, n, "value");
    var w1 := V.ValidateTab(a.keyKind, Str(p.key), KeyField(a, n), w);
    ValidateKeepsWellKeyed(a.keyKind, Str(p.key), KeyField(a, n), w, a.scope);
    ValidateKeepsWellKeyed(a.valueKind, Str(p.value), ValueField(a, n), w1, a.scope);
  }

  // ---------------------------------------------------------------------
  // Field edits
  // ---------------------------------------------------------------------

  /** Editing and validating an element's key keeps the warnings in
    * agreement. */
  lemma KeyChangeKeepsInSync(w: TabMap, a: Section, ps: seq<Conditioned>, index: nat, key: string)
    requires InSync(w, a, ps) && index < |ps|
    ensures InSync(V.ValidateTab(a.keyKind, Str(key), KeyField(a, index), w), a, ps[index := ps[index].(key := key)])
  {
    var ps' := ps[index := ps[index].(key := key)];
    var w' := V.ValidateTab(a.keyKind, Str(key), KeyField(a, index), w);
    forall j | 0 <= j < |ps'|
      ensures V.Lookup(Some(w'), KeyField(a, j)) == V.Verdict(a.keyKind, Str(ps'[j].key))
      ensures V.Lookup(Some(w'), ValueField(a, j)) == ValueVerdict(a, ps'[j])
    {
      FieldsDiffer(a, j, index);
      FieldsDiffer(a, index, j);
    }
  }

  /** Editing and validating the value of an element whose condition
    * compares values keeps the warnings in agreement. */
  lemma ValueChangeKeepsInSync(w: TabMap, a: Section, ps: seq<Conditioned>, index: nat, value: string)
    requires InSync(w, a, ps) && index < |ps| && !InPresentFamily(ps[index].condition)
    ensures InSync(V.ValidateTab(a.valueKind, Str(value), ValueField(a, index), w), a, ps[index := ps[index].(value := value)])
  {
    var ps' := ps[index := ps[index].(value := value)];
    var w' := V.ValidateTab(a.valueKind, Str(value), ValueField(a, index), w);
    forall j | 0 <= j < |ps'|
      ensures V.Lookup(Some(w'), KeyField(a, j)) == V.Verdict(a.keyKind, Str(ps'[j].key))
      ensures V.Lookup(Some(w'), ValueField(a, j)) == ValueVerdict(a, ps'[j])
    {
      FieldsDiffer(a, j, index);
      FieldsDiffer(a, index, j);
    }
  }

  /** Under a PRESENT or NOT_PRESENT condition the value is not compared,
    * yet emptying it still stores a value warning. */
  lemma ValueChangeUnderPresentWarns(w: TabMap, a: Section, ps: seq<Conditioned>, index: nat)
    requires index < |ps| && InPresentFamily(ps[index].condition)
    ensures var w' := V.ValidateTab(a.valueKind, Str(""), ValueField(a, index), w);
            V.Lookup(Some(w'), ValueField(a, index)) == Some(V.EmptyMessage(V.Label(a.valueKind)))
            && ValueVerdict(a, ps[index := ps[index].(value := "")][index]) == None
  {
  }

  /** The ignore-case flags play no part in the warnings: toggling one keeps
    * them in agreement without touching them. */
  lemma IgnoreCaseKeepsInSync(w: TabMap, a: Section, ps: seq<Conditioned>, index: nat, keyFlag: bool, valueFlag: bool)
    requires InSync(w, a, ps) && index < |ps|
    ensures InSync(w, a, ps[index := ps[index].(keyIgnoreCase := keyFlag, valueIgnoreCase := valueFlag)])
  {
    var ps' := ps[index := ps[index].(keyIgnoreCase := keyFlag, valueIgnoreCase := valueFlag)];
    forall j | 0 <= j < |ps'|
      ensures V.Lookup(Some(w), KeyField(a, j)) == V.Verdict(a.keyKind, Str(ps'[j].key))
      ensures V.Lookup(Some(w), ValueField(a, j)) == ValueVerdict(a, ps'[j])
    {
      assert ps'[j].key == ps[j].key && ps'[j].value == ps[j].value && ps'[j].condition == ps[j].condition;
    }
  }

  // ---------------------------------------------------------------------
  // Condition
  // ---------------------------------------------------------------------

  /** The warnings after the condition of element `index` (now `p`) becomes
    * `condition`: entering the PRESENT family deletes the keys that start
    * with the value key, leaving it revalidates the value, and any other
    * change leaves the warnings alone. */
  function AfterConditionChange(w: TabMap, a: Section, index: nat, p: Conditioned, condition: string): TabMap {
    if !InPresentFamily(p.condition) && InPresentFamily(condition) then
      WithoutPrefix(w, ValueField(a, index))
    else if InPresentFamily(p.condition) && !InPresentFamily(condition) then
      V.ValidateTab(a.valueKind, Str(p.value), ValueField(a, index), w)
    else w
  }

  lemma StartsWithTransitive(s: string, b: string, c: string)
    requires StartsWith(s, b) && StartsWith(b, c)
    ensures StartsWith(s, c)
  {
    assert s[..|c|] == b[..|c|];
  }

  /** The value key of element `index` is a prefix of no other element's
    * keys. */
  lemma ValuePrefixReachesOnlyOwn(a: Section, index: nat, j: nat, leaf: string)
    requires StartsWith(ElementField(a.scope, j, leaf), ValueField(a, index))
    ensures j == index
  {
    var own := ElementPrefix(a.scope, index) + "-";
    assert ValueField(a, index) == own + "value";
    StartsWithAppend(own, "value");
    StartsWithTransitive(ElementField(a.scope, j, leaf), ValueField(a, index), own);
    OwnPrefixReachesOnlyOwn(a.scope, index, j, leaf);
  }

  /** Changing a condition keeps the warnings in agreement with the
    * elements: the value warning comes and goes with the condition's need
    * for a value. */
  lemma ConditionChangeKeepsInSync(w: TabMap, a: Section, ps: seq<Conditioned>, index: nat, condition: string)
    requires InSync(w, a, ps) && index < |ps|
    ensures InSync(AfterConditionChange(w, a, index, ps[index], condition), a, ps[index := ps[index].(condition := condition)])
  {
    var ps' := ps[index := ps[index].(condition := condition)];
    var w' := AfterConditionChange(w, a, index, ps[index], condition);
    forall j | 0 <= j < |ps'|
      ensures V.Lookup(Some(w'), KeyField(a, j)) == V.Verdict(a.keyKind, Str(ps'[j].key))
      ensures V.Lookup(Some(w'), ValueField(a, j)) == ValueVerdict(a, ps'[j])
    {
      FieldsDiffer(a, j, index);
      FieldsDiffer(a, index, j);
      if StartsWith(KeyField(a, j), ValueField(a, index)) {
        ValuePrefixReachesOnlyOwn(a, index, j, "key");
      }
      if StartsWith(ValueField(a, j), ValueField(a, index)) {
        ValuePrefixReachesOnlyOwn(a, index, j, "value");
      }
    }
  }

  // ---------------------------------------------------------------------
  // Delete
  // ---------------------------------------------------------------------

  /** The delete as written carries an element's two warnings to its new
    * index when the deleted index's digits do not start its own. */
  lemma CarryElement(w: TabMap, a: Section, i: nat, j: nat)
    requires WellKeyed(w, a.scope) && j != i
    requires !StartsWith(ShowNat(j), ShowNat(i))
    ensures V.Lookup(Some(AfterDelete(w, a.scope, i)), KeyField(a, ShiftedIndex(j, i))) == V.Lookup(Some(w), KeyField(a, j))
    ensures V.Lookup(Some(AfterDelete(w, a.scope, i)), ValueField(a, ShiftedIndex(j, i))) == V.Lookup(Some(w), ValueField(a, j))
  {
    PrefixReaches(a.scope, i, j, "key");
    PrefixReaches(a.scope, i, j, "value");
    DeleteCarries(w, a.scope, i, j, "key");
    DeleteCarries(w, a.scope, i, j, "value");
  }

  /** Deleting an element keeps the warnings in agreement with the
    * remaining elements, provided no other element's index starts with the
    * digits of the deleted one (as when there are at most ten). */
  lemma DeleteKeepsInSync(w: TabMap, a: Section, ps: seq<Conditioned>, i: nat)
    requires WellKeyed(w, a.scope) && InSync(w, a, ps) && i < |ps|
    requires forall j: nat :: j < |ps| && j != i ==> !StartsWith(ShowNat(j), ShowNat(i))
    ensures InSync(AfterDelete(w, a.scope, i), a, ps[..i] + ps[i + 1..])
  {
    var ps' := ps[..i] + ps[i + 1..];
    var w' := AfterDelete(w, a.scope, i);
    forall t | 0 <= t < |ps'|
      ensures V.Lookup(Some(w'), KeyField(a, t)) == V.Verdict(a.keyKind, Str(ps'[t].key))
      ensures V.Lookup(Some(w'), ValueField(a, t)) == ValueVerdict(a, ps'[t])
    {
      var j := if t < i then t else t + 1;
      assert ps'[t] == ps[j] && ShiftedIndex(j, i) == t;
      CarryElement(w, a, i, j);
    }
  }

  /** With at most ten elements no index starts with the digits of
    * another. */
  lemma FewElementsNoClash(n: nat, i: nat)
    requires n <= 10 && i < n
    ensures forall j: nat :: j < n && j != i ==> !StartsWith(ShowNat(j), ShowNat(i))
  {
    forall j: nat | j < n && j != i ensures !StartsWith(ShowNat(j), ShowNat(i)) {
      assert ShowNat(j) == [DigitChar(j)] && ShowNat(i) == [DigitChar(i)];
    }
  }

  /** The delete with the element's own prefix `<scope>-<index>-` keeps the
    * warnings in agreement for any number of elements. */
  lemma DeleteElementKeepsInSync(w: TabMap, a: Section, ps: seq<Conditioned>, i: nat)
    requires ElementKeyed(w, a.scope) && InSync(w, a, ps) && i < |ps|
    ensures InSync(AfterDeleteElement(w, a.scope, i), a, ps[..i] + ps[i + 1..])
  {
    var ps' := ps[..i] + ps[i + 1..];
    var w' := AfterDeleteElement(w, a.scope, i);
    forall t | 0 <= t < |ps'|
      ensures V.Lookup(Some(w'), KeyField(a, t)) == V.Verdict(a.keyKind, Str(ps'[t].key))
      ensures V.Lookup(Some(w'), ValueField(a, t)) == ValueVerdict(a, ps'[t])
    {
      var j := if t < i then t else t + 1;
      assert ps'[t] == ps[j] && ShiftedIndex(j, i) == t;
      DeleteElementCarries(w, a.scope, i, j, "key");
      DeleteElementCarries(w, a.scope, i, j, "value");
    }
  }

  // ---------------------------------------------------------------------
  // What the panel shows
  // ---------------------------------------------------------------------

  /** `hasWarnings`: there are elements and some key of the tab's warnings
    * starts with the array's scope. */
  function HasWarnings(w: TabMap, a: Section, count: nat): (b: bool)
    ensures b <==> count > 0 && exists k :: k in w && StartsWith(k, a.scope)
  {
    var hits := set k | k in w && StartsWith(k, a.scope);
    assert forall k :: k in w && StartsWith(k, a.scope) ==> k in hits;
    count > 0 && |hits| > 0
  }

  /** `!!warnings[key]`: a message counts when it is a non-empty string. */
  predicate Truthy(w: TabMap, key: string) {
    key in w && w[key] != ""
  }

  /** The key of the last element's `leaf`, as the panel spells it: with no
    * elements the index is -1. */
  function LastField(a: Section, count: nat, leaf: string): string {
    a.scope + "-" + ShowInt(count - 1) + "-" + leaf
  }

  /** `shouldOffsetButton`: the last element's key or value has a message. */
  predicate ShouldOffsetButton(w: TabMap, a: Section, count: nat) {
    Truthy(w, LastField(a, count, "key")) || Truthy(w, LastField(a, count, "value"))
  }

  /** With the warnings in agreement, the heading is marked whenever some
    * element has a warning. */
  lemma HeadingMarksWarnedElement(w: TabMap, a: Section, ps: seq<Conditioned>, j: nat)
    requires InSync(w, a, ps) && j < |ps|
    requires V.Verdict(a.keyKind, Str(ps[j].key)).Some? || ValueVerdict(a, ps[j]).Some?
    ensures HasWarnings(w, a, |ps|)
  {
    FieldsUnderScope(a, j);
    var f := if V.Verdict(a.keyKind, Str(ps[j].key)).Some? then KeyField(a, j) else ValueField(a, j);
    assert V.Lookup(Some(w), f).Some?;
    assert f in w && StartsWith(f, a.scope);
  }

  /** Both keys of an element start with the array's scope. */
  lemma FieldsUnderScope(a: Section, j: nat)
    ensures StartsWith(KeyField(a, j), a.scope) && StartsWith(ValueField(a, j), a.scope)
  {
    FieldUnderScope(a.scope, j, "key");
    FieldUnderScope(a.scope, j, "value");
  }

  lemma FieldUnderScope(scope: string, j: nat, leaf: string)
    ensures StartsWith(ElementField(scope, j, leaf), scope)
  {
    ElementFieldHasPrefix(scope, j, leaf);
    assert StartsWith(ElementPrefix(scope, j), scope) by {
      StartsWithAppend(scope, "-" + ShowNat(j));
      assert ElementPrefix(scope, j) == scope + ("-" + ShowNat(j));
    }
    StartsWithTransitive(ElementField(scope, j, leaf), ElementPrefix(scope, j), scope);
  }

  /** With the warnings in agreement, the add button is offset exactly when
    * the last element has a warning. */
  lemma OffsetIffLastWarned(w: TabMap, a: Section, ps: seq<Conditioned>)
    requires InSync(w, a, ps) && |ps| > 0
    ensures ShouldOffsetButton(w, a, |ps|)
            <==> V.Verdict(a.keyKind, Str(ps[|ps| - 1].key)).Some? || ValueVerdict(a, ps[|ps| - 1]).Some?
  {
    var last := |ps| - 1;
    assert LastField(a, |ps|, "key") == KeyField(a, last);
    assert LastField(a, |ps|, "value") == ValueField(a, last);
    assert V.Lookup(Some(w), KeyField(a, last)) == V.Verdict(a.keyKind, Str(ps[last].key));
    assert V.Lookup(Some(w), ValueField(a, last)) == ValueVerdict(a, ps[last]);
  }

  /** The keys of the response headers never match the scope of a request
    * array (`<ruleId>-request-...`): deleting a request parameter or header
    * leaves them alone. */
  lemma ResponseHeaderOutsideRequest(ruleId: string, j: nat, leaf: string, section: string)
    requires forall n :: 0 <= n < |leaf| ==> leaf[n] != 'q'
    ensures ScopeMatch(HeaderField(ruleId, "response", j, leaf), ruleId + "-request-" + section).None?
  {
    var tail := "response-header-" + ShowNat(j) + "-" + leaf;
    var stail := "request-" + section;
    assert HeaderField(ruleId, "response", j, leaf) == ruleId + "-" + tail;
    assert ruleId + "-request-" + section == ruleId + "-" + stail;
    assert forall n :: 0 <= n < |ShowNat(j)| ==> IsDigit(ShowNat(j)[n]);
    assert stail[2] == 'q' && tail[2] == 's';
    NoScopeMatch(ruleId + "-", tail, stail, 'q', 0);
  }
}
