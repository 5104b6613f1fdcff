/**
 * The project-wide passes of loki-ui/src/warnings.js as the source runs
 * them: loops that update the warnings object of the whole project in
 * place. Each loop is proved to compute the function that specifies it in
 * UrlPass or RulePass.
 */
module ProjectState {
  import opened Wrappers
  import opened Strings
  import opened Predicates
  import V = Validators
  import opened FieldKeys
  import opened ProjectModel
  import opened ConditionedArrays
  import opened UrlPass
  import opened RulePass
  import RequestParameters
  import RequestHeaders

  /** One array's `forEach` in the rule body. */
  method ValidateArray(m: Option<V.TabMap>, a: Section, checks: seq<Check>) returns (r: Option<V.TabMap>)
    ensures r == ArrayChecked(m, a, checks)
  {
    r := m;
    var j := 0;
    while j < |checks|
      invariant 0 <= j <= |checks|
      invariant r == ArrayChecked(m, a, checks[..j])
    {
      ArrayCheckedStep(m, a, checks, j);
      r := V.Validate(a.keyKind, Str(checks[j].key), KeyField(a, j), r);
      if checks[j].checkValue {
        r := V.Validate(a.valueKind, Str(checks[j].value), ValueField(a, j), r);
      }
      j := j + 1;
    }
    assert checks[..|checks|] == checks;
  }

  /** The body of `tab.rules.forEach`: every validator of the rule, in the
    * source's order, threaded through the tab's warnings. */
  method ValidateRule(m: Option<V.TabMap>, rule: Rule) returns (r: Option<V.TabMap>)
    ensures r == RuleChecked(m, rule)
  {
    var id := rule.id;
    var q := rule.request;
    var s := rule.response;
    r := V.Validate(V.HttpMethod, Str(q.httpMethod), MethodField(id), m);
    r := ValidateArray(r, Variables(id), VariableChecks(q.urlVariables));
    r := ValidateArray(r, RequestParameters.Parameters(id), ParameterChecks(q.parameters));
    r := ValidateArray(r, RequestHeaders.Headers(id), ConditionedChecks(q.headers));
    if !InPresentFamily(q.bodyCondition) {
      r := V.Validate(V.Body, Str(q.body), BodyField(id), r);
    }
    r := V.Validate(V.StatusCode, s.statusCode, StatusCodeField(id), r);
    if s.delayResponse {
      r := V.Validate(V.Delay, s.delay, DelayField(id), r);
    }
    r := ValidateArray(r, ResponseHeaders(id), ResponseHeaderChecks(s.headers));
  }

  /** One rule of a tab: its warnings are validated, and the tab's entry is
    * deleted when they come out `undefined`. */
  function RuleStep(w: Warnings, id: string, rule: Rule): Warnings {
    var checked := RuleChecked(Get(w, id), rule);
    if checked.None? then w - {id} else w[id := checked]
  }

  /** The rules of one tab, in order. */
  function RulesChecked(w: Warnings, id: string, rules: seq<Rule>): Warnings
    decreases |rules|
  {
    if rules == [] then w
    else RuleStep(RulesChecked(w, id, rules[..|rules| - 1]), id, rules[|rules| - 1])
  }

  lemma RulesCheckedStep(w: Warnings, id: string, rules: seq<Rule>, k: nat)
    requires k < |rules|
    ensures RulesChecked(w, id, rules[..k + 1]) == RuleStep(RulesChecked(w, id, rules[..k]), id, rules[k])
  {
    var pre := rules[..k + 1];
    assert pre[..|pre| - 1] == rules[..k] && pre[|pre| - 1] == rules[k];
  }

  /** The tabs, in order. */
  function TabsChecked(w: Warnings, tabs: seq<Tab>): Warnings
    decreases |tabs|
  {
    if tabs == [] then w
    else
      var last := tabs[|tabs| - 1];
      RulesChecked(TabsChecked(w, tabs[..|tabs| - 1]), last.id, last.rules)
  }

  /** The rules of one tab leave every other tab's warnings alone. */
  lemma {:induction false} RulesCheckedOtherTabs(w: Warnings, id: string, rules: seq<Rule>, other: string)
    requires other != id
    ensures other in RulesChecked(w, id, rules) <==> other in w
    ensures other in w ==> RulesChecked(w, id, rules)[other] == w[other]
    decreases |rules|
  {
    if rules != [] {
      RulesCheckedOtherTabs(w, id, rules[..|rules| - 1], other);
    }
  }

  lemma TabsCheckedStep(w: Warnings, tabs: seq<Tab>, t: nat)
    requires t < |tabs|
    ensures TabsChecked(w, tabs[..t + 1]) == RulesChecked(TabsChecked(w, tabs[..t]), tabs[t].id, tabs[t].rules)
  {
    assert tabs[..t + 1][..t] == tabs[..t];
  }

  /** What `checkWarnings` leaves in `state.warnings`. */
  function Checked(w: Warnings, tabs: seq<Tab>, urlParses: string -> bool): Warnings {
    TabsChecked(UrlsValidated(w, tabs, urlParses), tabs)
  }

  /** `warnings[id] = m`, where `m` is what the marking step made of the
    * tab's warnings. */
  function MarkOneWith(w: Warnings, id: string, m: V.TabMap): (r: Warnings)
    requires m == MarkUnique(V.OrEmpty(Get(w, id)))
    ensures r == MarkOne(w, id)
  {
    w[id := Some(m)]
  }

  /** The marking loop over one bucket. */
  method MarkAll(w: Warnings, ids: seq<string>) returns (r: Warnings)
    ensures r == MarkedInTurn(w, ids)
  {
    r := w;
    var k := 0;
    while k < |ids|
      invariant 0 <= k <= |ids|
      invariant r == MarkedInTurn(w, ids[..k])
    {
      var id := ids[k];
      var m := V.OrEmpty(Get(r, id));
      if !HasUrlMessage(m) {
        m := m["url" := UniqueMessage];
      }
      assert ids[..k + 1][..k] == ids[..k];
      r := MarkOneWith(r, id, m);
      k := k + 1;
    }
    assert ids[..|ids|] == ids;
  }

  /** The warnings of the whole project, `state.warnings`. */
  class ProjectWarnings {
    var byTab: Warnings

    constructor(initial: Warnings)
      ensures byTab == initial
    {
      byTab := initial;
    }

    /** `deleteEmptyWarnings`: the ids whose warnings are `undefined` or
      * have no key are collected first, then deleted one by one. */
    method DeleteEmptyWarnings()
      modifies this
      ensures byTab == Pruned(old(byTab))
    {
      var empty := set id | id in byTab && (byTab[id].None? || byTab[id].value == map[]);
      ghost var all := empty;
      while empty != {}
        invariant empty <= all
        invariant byTab == old(byTab) - (all - empty)
        decreases empty
      {
        var id :| id in empty;
        byTab := byTab - {id};
        empty := empty - {id};
      }
      assert byTab == Pruned(old(byTab));
    }

    /** The first loop of `validateUrls`: each tab's URL is validated and
      * its id filed under the normalised URL. */
    method FileUrls(tabs: seq<Tab>, urlParses: string -> bool) returns (duplicates: map<string, seq<string>>)
      modifies this
      ensures byTab == UrlsChecked(old(byTab), tabs, urlParses)
      ensures duplicates == Groups(Entries(tabs))
    {
      duplicates := map[];
      var i := 0;
      while i < |tabs|
        invariant 0 <= i <= |tabs|
        invariant byTab == UrlsChecked(old(byTab), tabs[..i], urlParses)
        invariant duplicates == Groups(Entries(tabs[..i]))
      {
        var tab := tabs[i];
        byTab := byTab[tab.id := V.ValidateUrl(tab.url, urlParses, Get(byTab, tab.id))];
        var temp := NormaliseUrl(tab.url);
        duplicates := duplicates[temp := Bucket(duplicates, temp) + [tab.id]];
        EntriesPrefix(tabs, i);
        assert tabs[..i + 1][..i] == tabs[..i];
        i := i + 1;
      }
      assert tabs[..|tabs|] == tabs;
    }

    /** `duplicates[url].forEach(...)`: every id of one bucket is marked. */
    method MarkBucket(ids: seq<string>, ghost base: Warnings, ghost visited: set<string>)
      modifies this
      requires byTab == Marked(base, visited)
      ensures byTab == Marked(base, visited + Members(ids))
    {
      MarkedInTurnIsMarked(base, visited, ids);
      byTab := MarkAll(byTab, ids);
    }

    /** The second loop of `validateUrls`: every bucket of more than one id
      * is marked, in whatever order the URLs come. */
    method MarkDuplicates(duplicates: map<string, seq<string>>)
      modifies this
      ensures byTab == Marked(old(byTab), FlaggedIds(duplicates))
    {
      ghost var base := byTab;
      var urls := duplicates.Keys;
      assert duplicates.Keys - urls == {};
      assert FlaggedIn(duplicates, {}) == {};
      while urls != {}
        invariant urls <= duplicates.Keys
        invariant byTab == Marked(base, FlaggedIn(duplicates, duplicates.Keys - urls))
        decreases urls
      {
        var url :| url in urls;
        ghost var visited := FlaggedIn(duplicates, duplicates.Keys - urls);
        ghost var next := FlaggedIn(duplicates, duplicates.Keys - (urls - {url}));
        assert next == visited + if |duplicates[url]| > 1 then Members(duplicates[url]) else {} by {
          assert duplicates.Keys - (urls - {url}) == (duplicates.Keys - urls) + {url};
          FlaggedInStep(duplicates, duplicates.Keys - urls, url);
        }
        if |duplicates[url]| > 1 {
          MarkBucket(duplicates[url], base, visited);
        } else {
          assert next == visited;
        }
        urls := urls - {url};
      }
      FlaggedInAll(duplicates);
    }
    /** `validateUrls`: the URLs are validated, the duplicates marked, and
      * the empty entries deleted. */
    method ValidateUrls(tabs: seq<Tab>, urlParses: string -> bool)
      modifies this
      ensures byTab == UrlsValidated(old(byTab), tabs, urlParses)
    {
      var duplicates := FileUrls(tabs, urlParses);
      MarkDuplicates(duplicates);
      DeleteEmptyWarnings();
    }

    /** One rule: its warnings are validated and stored, and the tab's
      * entry deleted when they come out `undefined`. */
    method CheckRule(id: string, rule: Rule)
      modifies this
      ensures byTab == RuleStep(old(byTab), id, rule)
    {
      var checked := ValidateRule(Get(byTab, id), rule);
      if checked.None? {
        byTab := byTab - {id};
      } else {
        byTab := byTab[id := checked];
      }
    }

    /** `tab.rules.forEach(...)` for one tab: each rule's warnings are
      * validated and stored, and the tab's entry deleted when they come out
      * `undefined`. */
    method CheckTabRules(id: string, rules: seq<Rule>)
      modifies this
      ensures byTab == RulesChecked(old(byTab), id, rules)
    {
      var k := 0;
      while k < |rules|
        invariant 0 <= k <= |rules|
        invariant byTab == RulesChecked(old(byTab), id, rules[..k])
      {
        CheckRule(id, rules[k]);
        RulesCheckedStep(old(byTab), id, rules, k);
        k := k + 1;
      }
      assert rules[..|rules|] == rules;
    }

    /** `checkWarnings`: the URL pass, then every rule of every tab, in
      * order. */
    method CheckWarnings(project: Project, urlParses: string -> bool)
      modifies this
      ensures byTab == Checked(old(byTab), project.tabs, urlParses)
    {
      var tabs := project.tabs;
      ValidateUrls(tabs, urlParses);
      ghost var validated := byTab;
      var t := 0;
      while t < |tabs|
        invariant 0 <= t <= |tabs|
        invariant byTab == TabsChecked(validated, tabs[..t])
      {
        CheckTabRules(tabs[t].id, tabs[t].rules);
        TabsCheckedStep(validated, tabs, t);
        t := t + 1;
      }
      assert tabs[..|tabs|] == tabs;
    }
  }

  /** No tab's warnings are `undefined`: what `warningsCount` needs, since
    * `Object.keys(undefined)` throws. */
  predicate AllDefined(w: Warnings) {
    forall id :: id in w ==> w[id].Some?
  }

  /** A validator run on a tab's existing warnings leaves an object. */
  lemma {:induction false} ArrayCheckedDefined(m: Option<V.TabMap>, a: Section, checks: seq<Check>)
    requires m.Some?
    ensures ArrayChecked(m, a, checks).Some?
    decreases |checks|
  {
    if checks != [] {
      ArrayCheckedDefined(m, a, checks[..|checks| - 1]);
    }
  }

  /** A rule run on a tab's existing warnings leaves an object. */
  lemma RuleCheckedDefined(m: Option<V.TabMap>, rule: Rule)
    requires m.Some?
    ensures RuleChecked(m, rule).Some?
  {
    var r := rule.id;
    var q := rule.request;
    var withMethod := V.Validate(V.HttpMethod, Str(q.httpMethod), MethodField(r), m);
    ArrayCheckedDefined(withMethod, Variables(r), VariableChecks(q.urlVariables));
    var withVariables := ArrayChecked(withMethod, Variables(r), VariableChecks(q.urlVariables));
    ArrayCheckedDefined(withVariables, RequestParameters.Parameters(r), ParameterChecks(q.parameters));
    var withParameters := ArrayChecked(withVariables, RequestParameters.Parameters(r), ParameterChecks(q.parameters));
    ArrayCheckedDefined(withParameters, RequestHeaders.Headers(r), ConditionedChecks(q.headers));
    var before := RequestChecked(m, rule, ParameterChecks(q.parameters));
    var s := rule.response;
    var withStatus := V.Validate(V.StatusCode, s.statusCode, StatusCodeField(r), before);
    var withDelay := if s.delayResponse then V.Validate(V.Delay, s.delay, DelayField(r), withStatus) else withStatus;
    ArrayCheckedDefined(withDelay, ResponseHeaders(r), ResponseHeaderChecks(s.headers));
  }

  /** A tab that has warnings keeps its entry through a rule, even when the
    * rule clears every key: an emptied `{}` stays. Only a tab without
    * warnings can lose (or never gain) its entry. */
  lemma RuleStepKeepsEntry(w: Warnings, id: string, rule: Rule)
    requires id in w && w[id].Some?
    ensures id in RuleStep(w, id, rule) && RuleStep(w, id, rule)[id].Some?
  {
    RuleCheckedDefined(w[id], rule);
  }

  /** The rule loop never stores `undefined`. */
  lemma {:induction false} RulesCheckedDefined(w: Warnings, id: string, rules: seq<Rule>)
    requires AllDefined(w)
    ensures AllDefined(RulesChecked(w, id, rules))
    decreases |rules|
  {
    if rules != [] {
      RulesCheckedDefined(w, id, rules[..|rules| - 1]);
    }
  }

  lemma {:induction false} TabsCheckedDefined(w: Warnings, tabs: seq<Tab>)
    requires AllDefined(w)
    ensures AllDefined(TabsChecked(w, tabs))
    decreases |tabs|
  {
    if tabs != [] {
      TabsCheckedDefined(w, tabs[..|tabs| - 1]);
      RulesCheckedDefined(TabsChecked(w, tabs[..|tabs| - 1]), tabs[|tabs| - 1].id, tabs[|tabs| - 1].rules);
    }
  }

  /** After `checkWarnings` no tab's warnings are `undefined`, so the
    * warnings can be counted. */
  lemma CheckedDefined(w: Warnings, tabs: seq<Tab>, urlParses: string -> bool)
    ensures AllDefined(Checked(w, tabs, urlParses))
  {
    UrlsValidatedClean(w, tabs, urlParses);
    TabsCheckedDefined(UrlsValidated(w, tabs, urlParses), tabs);
  }

  /** The (tab id, field key) pairs of the warnings: one per entry of
    * `Object.entries(warnings).flatMap(([_, tab]) => Object.keys(tab))`. */
  function WarningPairs(w: Warnings): set<(string, string)>
    requires AllDefined(w)
  {
    set id, k | id in w && k in w[id].value :: (id, k)
  }

  /** `warningsCount` */
  function WarningsCount(w: Warnings): nat
    requires AllDefined(w)
  {
    |WarningPairs(w)|
  }

  /** `warningsPresent` */
  predicate WarningsPresent(w: Warnings)
    requires AllDefined(w)
  {
    WarningsCount(w) > 0
  }

  /** Warnings are present exactly when some tab has a key. */
  lemma PresentMeaning(w: Warnings)
    requires AllDefined(w)
    ensures WarningsPresent(w) <==> exists id :: id in w && w[id].value != map[]
  {
    if exists id :: id in w && w[id].value != map[] {
      var id :| id in w && w[id].value != map[];
      var k :| k in w[id].value;
      assert (id, k) in WarningPairs(w);
    }
    if WarningsPresent(w) {
      var p :| p in WarningPairs(w);
      assert p.0 in w && w[p.0].value != map[];
    }
  }

  /** The pairs of one tab. */
  function Row(id: string, m: V.TabMap): set<(string, string)> {
    set k | k in m :: (id, k)
  }

  lemma {:induction false} RowSize(id: string, m: V.TabMap)
    ensures |Row(id, m)| == |m|
    decreases |m|
  {
    if m != map[] {
      var k :| k in m;
      var rest := m - {k};
      RowSize(id, rest);
      assert Row(id, m) == Row(id, rest) + {(id, k)};
    }
  }

  /** The count is the sum of the tabs' key counts: one tab's keys plus the
    * others'. */
  lemma CountSplits(w: Warnings, id: string)
    requires AllDefined(w) && id in w
    ensures WarningsCount(w) == |w[id].value| + WarningsCount(w - {id})
  {
    assert WarningPairs(w) == Row(id, w[id].value) + WarningPairs(w - {id});
    assert Row(id, w[id].value) !! WarningPairs(w - {id});
    RowSize(id, w[id].value);
  }
}
