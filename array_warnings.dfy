/**
 * What the edit handlers of an array field (request parameters, request
 * headers) do to a tab's warnings, for any array scope such as
 * `<ruleId>-request-parameter`: deleting element `i` first deletes the keys
 * starting with `<scope>-<i>` and then renumbers the rest.
 */
module ArrayWarnings {
  import opened Wrappers
  import opened Strings
  import opened Predicates
  import V = Validators
  import opened WarningEdits

  /** The key of the warning on `leaf` of element `j` of the array. */
  function ElementField(scope: string, j: nat, leaf: string): string {
    scope + "-" + ShowNat(j) + "-" + leaf
  }

  /** The prefix the delete handlers remove for element `i`. */
  function ElementPrefix(scope: string, i: nat): string {
    scope + "-" + ShowNat(i)
  }

  lemma ElementFieldText(scope: string, j: nat, leaf: string)
    ensures ElementField(scope, j, leaf) == scope + "-" + ShowNat(j) + ("-" + leaf)
  {
  }

  /** The keys the validators write for array elements are canonical. */
  lemma ElementFieldCanonical(scope: string, j: nat, leaf: string)
    ensures Canonical(ElementField(scope, j, leaf), scope)
    ensures ScopeMatch(ElementField(scope, j, leaf), scope).Some?
  {
    ElementFieldText(scope, j, leaf);
    ScopeMatchCanonical(scope, j, "-" + leaf);
    var k := ElementField(scope, j, leaf);
    assert k[|scope| + 1..|scope| + 1 + |ShowNat(j)|] == ShowNat(j);
  }

  /** Distinct elements and distinct leaves have distinct keys. */
  lemma ElementFieldInjective(scope: string, j1: nat, leaf1: string, j2: nat, leaf2: string)
    requires ElementField(scope, j1, leaf1) == ElementField(scope, j2, leaf2)
    ensures j1 == j2 && leaf1 == leaf2
  {
    ElementFieldText(scope, j1, leaf1);
    ElementFieldText(scope, j2, leaf2);
    CanonicalTextInjective(scope, j1, "-" + leaf1, j2, "-" + leaf2);
    assert leaf1 == ("-" + leaf1)[1..];
  }

  /** Renumbering moves the key of element `j` to element `ShiftedIndex(j, i)`. */
  lemma ElementFieldShift(scope: string, j: nat, leaf: string, i: nat)
    ensures ShiftKey(ElementField(scope, j, leaf), scope, i) == ElementField(scope, ShiftedIndex(j, i), leaf)
  {
    ElementFieldText(scope, j, leaf);
    ElementFieldText(scope, ShiftedIndex(j, i), leaf);
    ShiftKeyCanonical(scope, j, "-" + leaf, i);
  }

  /** Validating a field keeps the keys of a map canonical when the field's
    * own key is. */
  lemma ValidateKeepsWellKeyed(k: V.Kind, v: JsValue, field: string, w: TabMap, scope: string)
    requires WellKeyed(w, scope) && Canonical(field, scope)
    ensures WellKeyed(V.ValidateTab(k, v, field, w), scope)
  {
    var r := V.ValidateTab(k, v, field, w);
    forall f | f in r ensures Canonical(f, scope) {
      if f != field {
        assert V.Lookup(Some(r), f) == V.Lookup(Some(w), f);
      }
    }
  }

  // ---------------------------------------------------------------------
  // Delete
  // ---------------------------------------------------------------------

  /** The warnings after element `i` is deleted: its keys are dropped and
    * the keys of the array renumbered. Exact when the keys are canonical. */
  function AfterDelete(w: TabMap, scope: string, i: nat): TabMap
    requires WellKeyed(w, scope)
  {
    ShiftInjectiveAfterDelete(w, scope, i);
    Shifted(WithoutPrefix(w, ElementPrefix(scope, i)), scope, i)
  }

  /** Deleting keeps the keys canonical. */
  lemma DeleteKeepsWellKeyed(w: TabMap, scope: string, i: nat)
    requires WellKeyed(w, scope)
    ensures WellKeyed(AfterDelete(w, scope, i), scope)
  {
    var d := WithoutPrefix(w, ElementPrefix(scope, i));
    ShiftInjectiveAfterDelete(w, scope, i);
    ShiftKeepsWellKeyed(d, scope, i);
  }

  /** The warning of a surviving element moves with it: element `j` of the
    * old array is element `ShiftedIndex(j, i)` of the new one. */
  lemma DeleteMovesElement(w: TabMap, scope: string, i: nat, j: nat, leaf: string)
    requires WellKeyed(w, scope)
    requires ElementField(scope, j, leaf) in w
    requires !StartsWith(ElementField(scope, j, leaf), ElementPrefix(scope, i))
    ensures ElementField(scope, ShiftedIndex(j, i), leaf) in AfterDelete(w, scope, i)
    ensures AfterDelete(w, scope, i)[ElementField(scope, ShiftedIndex(j, i), leaf)] == w[ElementField(scope, j, leaf)]
  {
    var d := WithoutPrefix(w, ElementPrefix(scope, i));
    ShiftInjectiveAfterDelete(w, scope, i);
    ElementFieldShift(scope, j, leaf, i);
    ShiftedAt(d, scope, i, ElementField(scope, j, leaf));
  }

  /** A key that starts with an element's prefix matches the scope. */
  lemma PrefixedKeyMatches(k: string, scope: string, i: nat)
    requires StartsWith(k, ElementPrefix(scope, i))
    ensures ScopeMatch(k, scope).Some?
  {
    ScopeMatchMeaning(k, scope);
    var p := ElementPrefix(scope, i);
    assert k[..|p|] == p;
    assert k[0..|scope|] == p[..|scope|];
    assert k[|scope| + 1] == p[|scope| + 1] == ShowNat(i)[0];
    assert ScopeAt(k, scope, 0);
  }

  /** A key outside the array (no match of the scope) keeps its message. */
  lemma DeleteKeepsOtherKeys(w: TabMap, scope: string, i: nat, k: string)
    requires WellKeyed(w, scope)
    requires k in w && ScopeMatch(k, scope).None?
    ensures k in AfterDelete(w, scope, i) && AfterDelete(w, scope, i)[k] == w[k]
  {
    var d := WithoutPrefix(w, ElementPrefix(scope, i));
    if StartsWith(k, ElementPrefix(scope, i)) {
      PrefixedKeyMatches(k, scope, i);
    }
    ShiftInjectiveAfterDelete(w, scope, i);
    ShiftedAt(d, scope, i, k);
  }

  /** The delete only drops: every key it leaves came from a key of the
    * input, carrying that key's message. */
  lemma DeleteOnlyRenames(w: TabMap, scope: string, i: nat, k': string)
    requires WellKeyed(w, scope)
    requires k' in AfterDelete(w, scope, i)
    ensures exists k :: k in w && !StartsWith(k, ElementPrefix(scope, i))
                        && ShiftKey(k, scope, i) == k' && AfterDelete(w, scope, i)[k'] == w[k]
  {
    var d := WithoutPrefix(w, ElementPrefix(scope, i));
    ShiftInjectiveAfterDelete(w, scope, i);
    ShiftedFrom(d, scope, i, k');
  }

  /** An element's key is the element's prefix followed by `-<leaf>`. */
  lemma ElementFieldHasPrefix(scope: string, i: nat, leaf: string)
    ensures ElementField(scope, i, leaf) == ElementPrefix(scope, i) + ("-" + leaf)
    ensures StartsWith(ElementField(scope, i, leaf), ElementPrefix(scope, i))
  {
    StartsWithAppend(ElementPrefix(scope, i), "-" + leaf);
  }

  /** Which elements the delete of element `i` reaches: exactly those whose
    * index, written in decimal, starts with the digits of `i`. Deleting
    * element 1 thus also deletes the warnings of elements 10 to 19. */
  lemma PrefixReaches(scope: string, i: nat, j: nat, leaf: string)
    ensures StartsWith(ElementField(scope, j, leaf), ElementPrefix(scope, i)) <==> StartsWith(ShowNat(j), ShowNat(i))
  {
    var p := scope + "-";
    var a := ShowNat(j) + ("-" + leaf);
    ElementFieldHasPrefix(scope, j, leaf);
    assert ElementField(scope, j, leaf) == p + a;
    StartsWithCancel(p, a, ShowNat(i));
    if StartsWith(a, ShowNat(i)) && |ShowNat(i)| > |ShowNat(j)| {
      assert a[|ShowNat(j)|] == '-' && ShowNat(i)[|ShowNat(j)|] == a[|ShowNat(j)|];
    }
    if StartsWith(a, ShowNat(i)) {
      assert ShowNat(j)[..|ShowNat(i)|] == a[..|ShowNat(i)|];
    }
    if StartsWith(ShowNat(j), ShowNat(i)) {
      assert a[..|ShowNat(i)|] == ShowNat(j)[..|ShowNat(i)|];
    }
  }

  /** The only key that renumbering sends to an element's key is that of
    * the element it came from. */
  lemma ElementFieldOrigin(k: string, scope: string, i: nat, t: nat, leaf: string)
    requires Canonical(k, scope) && ShiftKey(k, scope, i) == ElementField(scope, t, leaf)
    ensures ScopeMatch(k, scope).Some?
    ensures k == ElementField(scope, ScopeMatch(k, scope).value.index, leaf)
    ensures ShiftedIndex(ScopeMatch(k, scope).value.index, i) == t
  {
    ElementFieldCanonical(scope, t, leaf);
    assert ScopeMatch(k, scope).Some?;
    var m := ScopeMatch(k, scope).value;
    CanonicalForm(k, scope, m);
    CanonicalShiftOf(k, scope, i, m);
    ElementFieldText(scope, t, leaf);
    CanonicalTextInjective(scope, ShiftedIndex(m.index, i), k[m.digitsEnd..], t, "-" + leaf);
    ElementFieldText(scope, m.index, leaf);
  }

  /** An element's key after the delete holds a message only if the element
    * it came from had one. */
  lemma DeleteAddsNothing(w: TabMap, scope: string, i: nat, j: nat, leaf: string)
    requires WellKeyed(w, scope)
    requires !StartsWith(ElementField(scope, j, leaf), ElementPrefix(scope, i))
    ensures ElementField(scope, ShiftedIndex(j, i), leaf) in AfterDelete(w, scope, i) ==> ElementField(scope, j, leaf) in w
  {
    var t := ShiftedIndex(j, i);
    if ElementField(scope, t, leaf) in AfterDelete(w, scope, i) {
      DeleteOnlyRenames(w, scope, i, ElementField(scope, t, leaf));
      var k :| k in w && !StartsWith(k, ElementPrefix(scope, i)) && ShiftKey(k, scope, i) == ElementField(scope, t, leaf);
      ElementFieldOrigin(k, scope, i, t, leaf);
      var j' := ScopeMatch(k, scope).value.index;
      ElementFieldHasPrefix(scope, i, leaf);
      ElementFieldHasPrefix(scope, j, leaf);
      assert j' != i && j != i;
      assert j' == j;
    }
  }

  /** The delete carries the warning of every element it does not reach to
    * the element's new index: message for message, absence for absence. */
  lemma DeleteCarries(w: TabMap, scope: string, i: nat, j: nat, leaf: string)
    requires WellKeyed(w, scope)
    requires !StartsWith(ElementField(scope, j, leaf), ElementPrefix(scope, i))
    ensures V.Lookup(Some(AfterDelete(w, scope, i)), ElementField(scope, ShiftedIndex(j, i), leaf))
            == V.Lookup(Some(w), ElementField(scope, j, leaf))
  {
    if ElementField(scope, j, leaf) in w {
      DeleteMovesElement(w, scope, i, j, leaf);
    } else {
      DeleteAddsNothing(w, scope, i, j, leaf);
    }
  }

  // ---------------------------------------------------------------------
  // Delete with the element's own prefix `<scope>-<i>-`
  // ---------------------------------------------------------------------

  /** A key of the array's own form: when it matches the scope, it is
    * canonical and the index is followed by `-`. */
  predicate DashedKey(k: string, scope: string) {
    match ScopeMatch(k, scope)
    case None => true
    case Some(m) => Canonical(k, scope) && m.digitsEnd < |k| && k[m.digitsEnd] == '-'
  }

  predicate ElementKeyed(w: TabMap, scope: string) {
    forall k :: k in w ==> DashedKey(k, scope)
  }

  lemma ElementKeyedIsWellKeyed(w: TabMap, scope: string)
    requires ElementKeyed(w, scope)
    ensures WellKeyed(w, scope)
  {
    forall k | k in w ensures Canonical(k, scope) {
      assert DashedKey(k, scope);
    }
  }

  /** The keys the validators write for array elements have that form. */
  lemma ElementFieldDashed(scope: string, j: nat, leaf: string)
    ensures DashedKey(ElementField(scope, j, leaf), scope)
  {
    var k := ElementField(scope, j, leaf);
    ElementFieldCanonical(scope, j, leaf);
    var m := ScopeMatch(k, scope).value;
    CanonicalForm(k, scope, m);
    ElementFieldText(scope, j, leaf);
    CanonicalTextInjective(scope, m.index, k[m.digitsEnd..], j, "-" + leaf);
  }

  /** Only element `i`'s own keys start with `<scope>-<i>-`. */
  lemma OwnPrefixReachesOnlyOwn(scope: string, i: nat, j: nat, leaf: string)
    ensures StartsWith(ElementField(scope, j, leaf), ElementPrefix(scope, i) + "-") <==> i == j
  {
    var k := ElementField(scope, j, leaf);
    var p := ElementPrefix(scope, i) + "-";
    ElementFieldHasPrefix(scope, j, leaf);
    if StartsWith(k, p) {
      var x := k[|p|..];
      assert k == p + x;
      assert k == scope + "-" + ShowNat(i) + ("-" + x);
      ElementFieldText(scope, j, leaf);
      CanonicalTextInjective(scope, i, "-" + x, j, "-" + leaf);
    }
    if i == j {
      assert k == p + leaf;
      StartsWithAppend(p, leaf);
    }
  }

  /** A key of the array's form starts with its own element's prefix and
    * a dash. */
  lemma DashedKeyPrefix(k: string, scope: string, m: Match)
    requires DashedKey(k, scope) && ScopeMatch(k, scope) == Some(m)
    ensures StartsWith(k, ElementPrefix(scope, m.index) + "-")
  {
    CanonicalForm(k, scope, m);
    var rest := k[m.digitsEnd..];
    assert rest == "-" + rest[1..];
    assert k == ElementPrefix(scope, m.index) + "-" + rest[1..];
    StartsWithAppend(ElementPrefix(scope, m.index) + "-", rest[1..]);
  }

  /** A key of the array's form that survives the delete of element `i`'s
    * own keys does not have index `i`. */
  lemma SurvivorIndex(k: string, scope: string, i: nat, m: Match)
    requires DashedKey(k, scope) && ScopeMatch(k, scope) == Some(m)
    requires !StartsWith(k, ElementPrefix(scope, i) + "-")
    ensures m.index != i
  {
    DashedKeyPrefix(k, scope, m);
  }

  /** Renumbering is injective on canonical texts whose index is not the
    * deleted one. */
  lemma RenumberInjectiveOff(scope: string, j1: nat, r1: string, j2: nat, r2: string, i: nat)
    requires r1 == [] || !IsDigit(r1[0])
    requires r2 == [] || !IsDigit(r2[0])
    requires j1 != i && j2 != i
    requires scope + "-" + ShowNat(ShiftedIndex(j1, i)) + r1 == scope + "-" + ShowNat(ShiftedIndex(j2, i)) + r2
    ensures j1 == j2 && r1 == r2
  {
    CanonicalTextInjective(scope, ShiftedIndex(j1, i), r1, ShiftedIndex(j2, i), r2);
  }

  lemma ShiftPairSurvivors(k1: string, k2: string, scope: string, i: nat, m1: Match, m2: Match)
    requires DashedKey(k1, scope) && ScopeMatch(k1, scope) == Some(m1)
    requires DashedKey(k2, scope) && ScopeMatch(k2, scope) == Some(m2)
    requires !StartsWith(k1, ElementPrefix(scope, i) + "-") && !StartsWith(k2, ElementPrefix(scope, i) + "-")
    requires ShiftKey(k1, scope, i) == ShiftKey(k2, scope, i)
    ensures k1 == k2
  {
    SurvivorIndex(k1, scope, i, m1);
    SurvivorIndex(k2, scope, i, m2);
    CanonicalForm(k1, scope, m1);
    CanonicalForm(k2, scope, m2);
    CanonicalShiftOf(k1, scope, i, m1);
    CanonicalShiftOf(k2, scope, i, m2);
    RenumberInjectiveOff(scope, m1.index, k1[m1.digitsEnd..], m2.index, k2[m2.digitsEnd..], i);
  }

  /** Once element `i`'s own keys are gone, renumbering is injective. */
  lemma ShiftInjectiveAfterElementDelete(w: TabMap, scope: string, i: nat)
    requires ElementKeyed(w, scope)
    ensures ShiftInjective(WithoutPrefix(w, ElementPrefix(scope, i) + "-"), scope, i)
  {
    var d := WithoutPrefix(w, ElementPrefix(scope, i) + "-");
    forall k1, k2 | k1 in d && k2 in d && ShiftKey(k1, scope, i) == ShiftKey(k2, scope, i)
      ensures k1 == k2
    {
      assert DashedKey(k1, scope) && DashedKey(k2, scope);
      CanonicalShift(k1, scope, i);
      CanonicalShift(k2, scope, i);
      if ScopeMatch(k1, scope).Some? && ScopeMatch(k2, scope).Some? {
        ShiftPairSurvivors(k1, k2, scope, i, ScopeMatch(k1, scope).value, ScopeMatch(k2, scope).value);
      }
    }
  }

  /** The delete as evidently intended: drop the keys that start with
    * `<scope>-<i>-`, then renumber. */
  function AfterDeleteElement(w: TabMap, scope: string, i: nat): TabMap
    requires ElementKeyed(w, scope)
  {
    ShiftInjectiveAfterElementDelete(w, scope, i);
    Shifted(WithoutPrefix(w, ElementPrefix(scope, i) + "-"), scope, i)
  }

  /** After the corrected delete, an element's key holds a message only if
    * the element it came from had one. */
  lemma ElementDeleteAddsNothing(w: TabMap, scope: string, i: nat, j: nat, leaf: string)
    requires ElementKeyed(w, scope) && j != i
    ensures ElementField(scope, ShiftedIndex(j, i), leaf) in AfterDeleteElement(w, scope, i) ==> ElementField(scope, j, leaf) in w
  {
    var d := WithoutPrefix(w, ElementPrefix(scope, i) + "-");
    var t := ShiftedIndex(j, i);
    ShiftInjectiveAfterElementDelete(w, scope, i);
    if ElementField(scope, t, leaf) in AfterDeleteElement(w, scope, i) {
      ElementKeyedIsWellKeyed(w, scope);
      ShiftedFrom(d, scope, i, ElementField(scope, t, leaf));
      var k :| k in d && ShiftKey(k, scope, i) == ElementField(scope, t, leaf);
      ElementFieldOrigin(k, scope, i, t, leaf);
      var j' := ScopeMatch(k, scope).value.index;
      OwnPrefixReachesOnlyOwn(scope, i, j', leaf);
      assert j' == j;
    }
  }

  /** With the element's own prefix, the warning of every other element is
    * carried to its new index, whatever the indices. */
  lemma DeleteElementCarries(w: TabMap, scope: string, i: nat, j: nat, leaf: string)
    requires ElementKeyed(w, scope) && j != i
    ensures V.Lookup(Some(AfterDeleteElement(w, scope, i)), ElementField(scope, ShiftedIndex(j, i), leaf))
            == V.Lookup(Some(w), ElementField(scope, j, leaf))
  {
    var d := WithoutPrefix(w, ElementPrefix(scope, i) + "-");
    ShiftInjectiveAfterElementDelete(w, scope, i);
    if ElementField(scope, j, leaf) in w {
      OwnPrefixReachesOnlyOwn(scope, i, j, leaf);
      ElementFieldShift(scope, j, leaf, i);
      ShiftedAt(d, scope, i, ElementField(scope, j, leaf));
    } else {
      ElementDeleteAddsNothing(w, scope, i, j, leaf);
    }
  }

  /** Deleting element 1 of an array whose element 10 has a warning: the
    * delete as written loses the warning, although element 10 survives as
    * element 9; the corrected delete moves it to element 9. */
  lemma DeleteOfOneLosesTen(scope: string, leaf: string, msg: string)
    ensures var w := map[ElementField(scope, 10, leaf) := msg];
            && WellKeyed(w, scope) && ElementKeyed(w, scope)
            && AfterDelete(w, scope, 1) == map[]
            && AfterDeleteElement(w, scope, 1) == map[ElementField(scope, 9, leaf) := msg]
  {
    var k := ElementField(scope, 10, leaf);
    var w := map[k := msg];
    assert WellKeyed(w, scope) && ElementKeyed(w, scope) by {
      ElementFieldCanonical(scope, 10, leaf);
      ElementFieldDashed(scope, 10, leaf);
    }
    assert WithoutPrefix(w, ElementPrefix(scope, 1)) == map[] by {
      assert ShowNat(10) == "10" && ShowNat(1) == "1";
      assert StartsWith(ShowNat(10), ShowNat(1));
      PrefixReaches(scope, 1, 10, leaf);
    }
    assert AfterDeleteElement(w, scope, 1) == map[ElementField(scope, 9, leaf) := msg] by {
      OwnPrefixReachesOnlyOwn(scope, 1, 10, leaf);
      assert WithoutPrefix(w, ElementPrefix(scope, 1) + "-") == w;
      ElementFieldShift(scope, 10, leaf, 1);
      ShiftInjectiveAfterElementDelete(w, scope, 1);
      ShiftedAt(w, scope, 1, k);
      assert Shifted(w, scope, 1).Keys == {ElementField(scope, 9, leaf)};
    }
  }
}
