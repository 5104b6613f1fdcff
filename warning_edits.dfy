/**
 * The edits of one tab's warnings in loki-ui/src/warnings.js that work on
 * keys by text: `deleteWarnings` (by prefix), `copyWarnings` (prefix
 * replaced by a rule id) and `shiftIndexedWarnings` (renumbering after an
 * array element was removed). The tab's warnings object, which the source
 * edits in place, is the class `TabWarnings`.
 */
module WarningEdits {
  import opened Wrappers
  import opened Strings
  import opened Predicates
  import V = Validators

  type TabMap = V.TabMap

  // ---------------------------------------------------------------------
  // deleteWarnings
  // ---------------------------------------------------------------------

  /** What `deleteWarnings(prefix, w)` leaves: no key starting with `prefix`,
    * every other key with its message. */
  function WithoutPrefix(w: TabMap, prefix: string): (r: TabMap)
    ensures forall k :: k in r <==> k in w && !StartsWith(k, prefix)
    ensures forall k :: k in r ==> r[k] == w[k]
  {
    map k | k in w && !StartsWith(k, prefix) :: w[k]
  }

  /** The prefix test is textual: the keys of element 10 start with the
    * prefix of element 1, so deleting element 1 drops them too. */
  lemma PrefixAlsoMatchesLongerIndex(scope: string, leaf: string)
    ensures StartsWith(scope + "-" + ShowNat(10) + "-" + leaf, scope + "-" + ShowNat(1))
  {
    assert ShowNat(1) == "1";
    assert ShowNat(10) == "10";
    var k := scope + "-" + ShowNat(10) + "-" + leaf;
    assert k[..|scope| + 2] == scope + "-" + "1";
  }

  // ---------------------------------------------------------------------
  // copyWarnings
  // ---------------------------------------------------------------------

  /** `id.replace(prefix, ruleId)` for a key that starts with `prefix`: the
    * first occurrence of `prefix` is the one at the start. Different keys
    * get different targets, because the source key can be read back. */
  function Retarget(id: string, prefix: string, ruleId: string): (t: string)
    requires StartsWith(id, prefix)
    ensures StartsWith(t, ruleId) && prefix + t[|ruleId|..] == id
  {
    var t := ruleId + id[|prefix|..];
    assert t[..|ruleId|] == ruleId;
    assert t[|ruleId|..] == id[|prefix|..];
    assert id == id[..|prefix|] + id[|prefix|..];
    t
  }

  /** The key whose message a copy writes under `k`. */
  function CopySource(k: string, prefix: string, ruleId: string): string
    requires StartsWith(k, ruleId)
  {
    prefix + k[|ruleId|..]
  }

  /** Retargeting undoes taking the source. */
  lemma RetargetOfSource(k: string, prefix: string, ruleId: string)
    requires StartsWith(k, ruleId)
    ensures StartsWith(CopySource(k, prefix, ruleId), prefix)
    ensures Retarget(CopySource(k, prefix, ruleId), prefix, ruleId) == k
  {
    var src := CopySource(k, prefix, ruleId);
    assert src[..|prefix|] == prefix;
    assert src[|prefix|..] == k[|ruleId|..];
    assert k == k[..|ruleId|] + k[|ruleId|..];
  }

  /** `k` receives the message of one of the keys in `sources`. */
  predicate CopiedBy(k: string, prefix: string, ruleId: string, sources: set<string>) {
    StartsWith(k, ruleId) && CopySource(k, prefix, ruleId) in sources
  }

  /** The keys of `w` that start with `prefix`. */
  function PrefixedKeys(w: TabMap, prefix: string): set<string> {
    set id | id in w && StartsWith(id, prefix)
  }

  /** `r` is `w` after the messages of the keys in `sources` (all starting
    * with `prefix`) were copied to their retargeted keys: every other key
    * keeps its message. */
  ghost predicate IsCopyOf(r: TabMap, w: TabMap, prefix: string, ruleId: string, sources: set<string>) {
    && sources <= PrefixedKeys(w, prefix)
    && (forall k :: k in r <==> k in w || CopiedBy(k, prefix, ruleId, sources))
    && (forall k :: k in r ==>
          r[k] == if CopiedBy(k, prefix, ruleId, sources) then w[CopySource(k, prefix, ruleId)] else w[k])
  }

  /** What `copyWarnings(prefix, ruleId, w)` leaves (see `CopiedMeaning`). */
  function Copied(w: TabMap, prefix: string, ruleId: string): TabMap {
    var sources := PrefixedKeys(w, prefix);
    map k | k in w.Keys + (set id | id in sources :: Retarget(id, prefix, ruleId))
      :: if CopiedBy(k, prefix, ruleId, sources) then w[CopySource(k, prefix, ruleId)] else w[k]
  }

  lemma CopiedIsCopy(w: TabMap, prefix: string, ruleId: string)
    ensures IsCopyOf(Copied(w, prefix, ruleId), w, prefix, ruleId, PrefixedKeys(w, prefix))
  {
    var sources := PrefixedKeys(w, prefix);
    forall k | CopiedBy(k, prefix, ruleId, sources)
      ensures k in (set id | id in sources :: Retarget(id, prefix, ruleId))
    {
      RetargetOfSource(k, prefix, ruleId);
    }
  }

  /** A copy is determined by its inputs. */
  lemma {:induction false} CopyUnique(r1: TabMap, r2: TabMap, w: TabMap, prefix: string, ruleId: string, sources: set<string>)
    requires IsCopyOf(r1, w, prefix, ruleId, sources) && IsCopyOf(r2, w, prefix, ruleId, sources)
    ensures r1 == r2
  {
    assert r1.Keys == r2.Keys;
  }

  /** The copy keeps every key, and every key starting with `prefix` has its
    * message copied to the key with `prefix` replaced by `ruleId`. The source
    * reads all entries before it writes, so a copy always carries the
    * original message; no other key changes. */
  lemma CopiedMeaning(w: TabMap, prefix: string, ruleId: string)
    ensures var r := Copied(w, prefix, ruleId);
            && (forall k :: k in w ==> k in r)
            && (forall id :: id in w && StartsWith(id, prefix) ==>
                  Retarget(id, prefix, ruleId) in r && r[Retarget(id, prefix, ruleId)] == w[id])
            && (forall k :: k in r && !CopiedBy(k, prefix, ruleId, PrefixedKeys(w, prefix)) ==> k in w && r[k] == w[k])
  {
    CopiedIsCopy(w, prefix, ruleId);
  }

  /** Nothing copied yet: the map itself. */
  lemma CopyOfNothing(w: TabMap, prefix: string, ruleId: string)
    ensures IsCopyOf(w, w, prefix, ruleId, {})
  {
  }

  /** One round of the copy loop: the message of `id` is written under its
    * retargeted key. */
  lemma CopyStep(r: TabMap, w: TabMap, prefix: string, ruleId: string, sources: set<string>, id: string)
    requires IsCopyOf(r, w, prefix, ruleId, sources)
    requires id in w && StartsWith(id, prefix)
    ensures IsCopyOf(r[Retarget(id, prefix, ruleId) := w[id]], w, prefix, ruleId, sources + {id})
  {
    var t := Retarget(id, prefix, ruleId);
    forall k | StartsWith(k, ruleId) && CopySource(k, prefix, ruleId) == id ensures k == t {
      RetargetOfSource(k, prefix, ruleId);
    }
  }

  // ---------------------------------------------------------------------
  // shiftIndexedWarnings
  // ---------------------------------------------------------------------

  /** A match of the regular expression `<scope>-(\d+)` in a key: where it
    * starts, where its digits end, and the index they spell. */
  datatype Match = Match(at: nat, digitsEnd: nat, index: nat)

  /** `<scope>-` and a digit start at position `q` of `key`. */
  predicate ScopeAt(key: string, scope: string, q: nat) {
    q + |scope| + 2 <= |key| && key[q..q + |scope|] == scope
    && key[q + |scope|] == '-' && IsDigit(key[q + |scope| + 1])
  }

  /** The leftmost position at or after `p` where `<scope>-` and a digit
    * follow. */
  function FindScope(key: string, scope: string, p: nat): (r: Option<nat>)
    ensures r.Some? ==> p <= r.value && ScopeAt(key, scope, r.value)
    decreases |key| - p
  {
    if p + |scope| + 2 > |key| then None
    else if ScopeAt(key, scope, p) then Some(p)
    else FindScope(key, scope, p + 1)
  }

  /** The position found is the leftmost one; none found means there is
    * none. */
  lemma {:induction false} FindScopeLeftmost(key: string, scope: string, p: nat)
    ensures var r := FindScope(key, scope, p);
            && (r.Some? ==> forall q: nat :: p <= q < r.value ==> !ScopeAt(key, scope, q))
            && (r.None? ==> forall q: nat :: p <= q ==> !ScopeAt(key, scope, q))
    decreases |key| - p
  {
    if p + |scope| + 2 <= |key| && !ScopeAt(key, scope, p) {
      FindScopeLeftmost(key, scope, p + 1);
    }
  }

  /** The match of `<scope>-(\d+)` that starts at `p`: the greedy digit
    * group and its value as `parseInt` reads it. */
  function MatchAt(key: string, scope: string, p: nat): (m: Match)
    requires p + |scope| + 1 <= |key|
    ensures m.at == p && p + |scope| + 1 <= m.digitsEnd <= |key|
  {
    var tail := key[p + |scope| + 1..];
    var run := DigitRun(tail);
    assert tail[..run] == key[p + |scope| + 1..p + |scope| + 1 + run];
    Match(p, p + |scope| + 1 + run, DecimalValue(tail[..run]))
  }

  /** `new RegExp(scope + '-(\\d+)').exec(key)`: the leftmost match, where
    * `<scope>-` is followed by the longest run of digits. */
  function ScopeMatch(key: string, scope: string): (r: Option<Match>)
    ensures r.Some? ==> r.value.at + |scope| + 1 < r.value.digitsEnd <= |key|
  {
    match FindScope(key, scope, 0)
    case None => None
    case Some(p) => Some(MatchAt(key, scope, p))
  }

  /** What a match is: the leftmost place where `<scope>-` and a digit
    * start, the whole run of digits after it, and the value of that run; no
    * match means no such place. */
  lemma ScopeMatchMeaning(key: string, scope: string)
    ensures var r := ScopeMatch(key, scope);
            && (r.Some? ==> ScopeAt(key, scope, r.value.at))
            && (r.Some? ==> forall q: nat :: q < r.value.at ==> !ScopeAt(key, scope, q))
            && (r.Some? ==> AllDigits(key[r.value.at + |scope| + 1..r.value.digitsEnd]))
            && (r.Some? ==> r.value.index == DecimalValue(key[r.value.at + |scope| + 1..r.value.digitsEnd]))
            && (r.Some? && r.value.digitsEnd < |key| ==> !IsDigit(key[r.value.digitsEnd]))
            && (r.None? ==> forall q: nat :: !ScopeAt(key, scope, q))
  {
    var r := ScopeMatch(key, scope);
    FindScopeLeftmost(key, scope, 0);
    if r.Some? {
      var start := r.value.at + |scope| + 1;
      var tail := key[start..];
      var run := DigitRun(tail);
      assert tail[..run] == key[start..start + run];
      assert r.value.digitsEnd == start + run;
    }
  }

  /** The key a warning ends up under in `shiftIndexedWarnings(scope, index,
    * w)`: with an index above `index` the matched text is replaced by
    * `<scope>-<index - 1>`; otherwise the key is kept. */
  function ShiftKey(key: string, scope: string, index: nat): string {
    match ScopeMatch(key, scope)
    case None => key
    case Some(m) =>
      if m.index > index then key[..m.at] + scope + "-" + ShowNat(m.index - 1) + key[m.digitsEnd..]
      else key
  }

  function ShiftedKeys(w: TabMap, scope: string, index: nat): set<string> {
    set k | k in w :: ShiftKey(k, scope, index)
  }

  /** No two keys are renamed onto the same key. Only then does the result
    * not depend on the order in which the source visits the keys. */
  predicate ShiftInjective(w: TabMap, scope: string, index: nat) {
    forall k1, k2 :: k1 in w && k2 in w && ShiftKey(k1, scope, index) == ShiftKey(k2, scope, index) ==> k1 == k2
  }

  /** The renumbered map, when no two keys collide: each message under its
    * shifted key. */
  function Shifted(w: TabMap, scope: string, index: nat): TabMap
    requires ShiftInjective(w, scope, index)
  {
    map k | k in w :: ShiftKey(k, scope, index) := w[k]
  }

  /** Each message sits under its key's shifted key. */
  lemma ShiftedAt(w: TabMap, scope: string, index: nat, k: string)
    requires ShiftInjective(w, scope, index) && k in w
    ensures ShiftKey(k, scope, index) in Shifted(w, scope, index)
    ensures Shifted(w, scope, index)[ShiftKey(k, scope, index)] == w[k]
  {
  }

  /** Each key of the renumbered map comes from a key of the input. */
  lemma ShiftedFrom(w: TabMap, scope: string, index: nat, k': string)
    requires ShiftInjective(w, scope, index) && k' in Shifted(w, scope, index)
    ensures exists k :: k in w && ShiftKey(k, scope, index) == k' && Shifted(w, scope, index)[k'] == w[k]
  {
  }

  /** `shiftIndexedWarnings(scope, index, warnings)`: builds a new map and
    * leaves `warnings` alone. Every key lands under its shifted key; when two
    * keys land on the same one the source keeps whichever it visits last, so
    * the model only promises that the message comes from one of them. */
  method ShiftIndexedWarnings(scope: string, index: nat, warnings: TabMap) returns (modified: TabMap)
    ensures modified.Keys == ShiftedKeys(warnings, scope, index)
    ensures forall k' :: k' in modified ==>
              exists k :: k in warnings && ShiftKey(k, scope, index) == k' && modified[k'] == warnings[k]
    ensures ShiftInjective(warnings, scope, index) ==> modified == Shifted(warnings, scope, index)
  {
    modified := map[];
    var todo := warnings.Keys;
    while todo != {}
      invariant todo <= warnings.Keys
      invariant modified.Keys == ShiftedKeys(map k | k in warnings.Keys - todo :: warnings[k], scope, index)
      invariant forall k' :: k' in modified ==>
                  exists k :: k in warnings && k !in todo && ShiftKey(k, scope, index) == k' && modified[k'] == warnings[k]
      decreases |todo|
    {
      var id :| id in todo;
      modified := modified[ShiftKey(id, scope, index) := warnings[id]];
      todo := todo - {id};
    }
    assert (map k | k in warnings.Keys - {} :: warnings[k]) == warnings;
    if ShiftInjective(warnings, scope, index) {
      ShiftedUnique(modified, warnings, scope, index);
    }
  }

  /** Without collisions, a map with the shifted keys in which every message
    * sits under its shifted key is the renumbered map. */
  lemma ShiftedUnique(r: TabMap, w: TabMap, scope: string, index: nat)
    requires ShiftInjective(w, scope, index)
    requires r.Keys == ShiftedKeys(w, scope, index)
    requires forall k' :: k' in r ==> exists k :: k in w && ShiftKey(k, scope, index) == k' && r[k'] == w[k]
    ensures r == Shifted(w, scope, index)
  {
    var s := Shifted(w, scope, index);
    assert r.Keys == s.Keys;
    forall k' | k' in r ensures r[k'] == s[k'] {
      var k :| k in w && ShiftKey(k, scope, index) == k' && r[k'] == w[k];
    }
  }

  lemma FindScopeAtStart(key: string, scope: string)
    requires |scope| + 2 <= |key| && key[..|scope|] == scope
    requires key[|scope|] == '-' && IsDigit(key[|scope| + 1])
    ensures FindScope(key, scope, 0) == Some(0)
  {
    assert key[0..|scope|] == key[..|scope|];
    assert ScopeAt(key, scope, 0);
  }

  /** Where the scope is found, the match is the one that starts there. */
  lemma ScopeMatchFound(key: string, scope: string, p: nat)
    requires FindScope(key, scope, 0) == Some(p)
    ensures ScopeMatch(key, scope) == Some(MatchAt(key, scope, p))
  {
  }

  /** In a key of the form `<scope>-<d><rest>`, `d` a run of digits and
    * `rest` not starting with one, the scope is found at the start and the
    * match there ends after `d`, with the index `d` spells. */
  lemma ScopeMatchDigits(key: string, scope: string, d: string, rest: string)
    requires |scope| < |key| && key[..|scope|] == scope && key[|scope|] == '-'
    requires key[|scope| + 1..] == d + rest
    requires d != [] && AllDigits(d)
    requires rest == [] || !IsDigit(rest[0])
    ensures FindScope(key, scope, 0) == Some(0)
    ensures MatchAt(key, scope, 0) == Match(0, |scope| + 1 + |d|, DecimalValue(d))
  {
    var start := |scope| + 1;
    assert FindScope(key, scope, 0) == Some(0) by {
      assert key[start] == key[start..][0] == d[0];
      FindScopeAtStart(key, scope);
    }
    assert MatchAt(key, scope, 0) == Match(0, start + |d|, DecimalValue(d)) by {
      var tail := key[start..];
      DigitRunOfDigitsThen(d, rest);
      assert tail[..|d|] == d;
    }
  }

  /** A key of the canonical form `<scope>-<j><rest>`, `rest` not starting
    * with a digit, matches at its start with index `j`. */
  lemma ScopeMatchCanonical(scope: string, j: nat, rest: string)
    requires rest == [] || !IsDigit(rest[0])
    ensures ScopeMatch(scope + "-" + ShowNat(j) + rest, scope) == Some(Match(0, |scope| + 1 + |ShowNat(j)|, j))
  {
    var key := scope + "-" + ShowNat(j) + rest;
    assert key[..|scope|] == scope;
    assert key[|scope| + 1..] == ShowNat(j) + rest;
    ScopeMatchDigits(key, scope, ShowNat(j), rest);
    ScopeMatchFound(key, scope, 0);
    ShowNatRoundTrip(j);
  }

  /** Renumbering on canonical keys: index `j` above `index` becomes `j - 1`,
    * anything else stays. */
  lemma ShiftKeyCanonical(scope: string, j: nat, rest: string, index: nat)
    requires rest == [] || !IsDigit(rest[0])
    ensures ShiftKey(scope + "-" + ShowNat(j) + rest, scope, index)
            == if j > index then scope + "-" + ShowNat(j - 1) + rest else scope + "-" + ShowNat(j) + rest
  {
    var key := scope + "-" + ShowNat(j) + rest;
    var e := |scope| + 1 + |ShowNat(j)|;
    ScopeMatchCanonical(scope, j, rest);
    ShiftKeyAtStart(key, scope, index, e, j);
    assert key[e..] == rest;
  }

  /** A key whose match starts at its beginning is renumbered by replacing
    * that beginning. */
  lemma ShiftKeyAtStart(key: string, scope: string, index: nat, e: nat, j: nat)
    requires ScopeMatch(key, scope) == Some(Match(0, e, j))
    ensures ShiftKey(key, scope, index) == if j > index then scope + "-" + ShowNat(j - 1) + key[e..] else key
  {
    assert key[..0] + scope == scope;
  }

  /** The keys the source writes for array elements: a key that contains a
    * match of the scope has it at its start, with the index printed without
    * leading zeros. */
  predicate Canonical(key: string, scope: string) {
    match ScopeMatch(key, scope)
    case None => true
    case Some(m) => m.at == 0 && key[|scope| + 1..m.digitsEnd] == ShowNat(m.index)
  }

  predicate WellKeyed(w: TabMap, scope: string) {
    forall k :: k in w ==> Canonical(k, scope)
  }

  /** A canonical key that matches is `<scope>-<index><rest>`. */
  lemma CanonicalForm(key: string, scope: string, m: Match)
    requires Canonical(key, scope) && ScopeMatch(key, scope) == Some(m)
    ensures key == scope + "-" + ShowNat(m.index) + key[m.digitsEnd..]
    ensures key[m.digitsEnd..] == [] || !IsDigit(key[m.digitsEnd..][0])
  {
    ScopeMatchMeaning(key, scope);
    assert key == key[..|scope|] + [key[|scope|]] + key[|scope| + 1..m.digitsEnd] + key[m.digitsEnd..];
  }

  /** The index an element has after element `index` is removed. */
  function ShiftedIndex(j: nat, index: nat): nat {
    if j > index then j - 1 else j
  }

  /** Shifting a canonical key that matches renumbers it in place. */
  lemma CanonicalShiftOf(key: string, scope: string, index: nat, m: Match)
    requires Canonical(key, scope) && ScopeMatch(key, scope) == Some(m)
    ensures ShiftKey(key, scope, index) == scope + "-" + ShowNat(ShiftedIndex(m.index, index)) + key[m.digitsEnd..]
  {
    CanonicalForm(key, scope, m);
    ShiftKeyCanonical(scope, m.index, key[m.digitsEnd..], index);
  }

  /** Shifting a canonical key gives a canonical key, and a key that matched
    * still matches. */
  lemma CanonicalShift(key: string, scope: string, index: nat)
    requires Canonical(key, scope)
    ensures Canonical(ShiftKey(key, scope, index), scope)
    ensures ScopeMatch(key, scope).Some? ==> ScopeMatch(ShiftKey(key, scope, index), scope).Some?
  {
    if ScopeMatch(key, scope).Some? {
      var m := ScopeMatch(key, scope).value;
      var rest := key[m.digitsEnd..];
      var j := ShiftedIndex(m.index, index);
      CanonicalForm(key, scope, m);
      CanonicalShiftOf(key, scope, index, m);
      ScopeMatchCanonical(scope, j, rest);
      var shifted := scope + "-" + ShowNat(j) + rest;
      assert shifted[|scope| + 1..|scope| + 1 + |ShowNat(j)|] == ShowNat(j);
    }
  }

  /** Renumbering keeps the keys canonical. */
  lemma ShiftKeepsWellKeyed(w: TabMap, scope: string, index: nat)
    requires WellKeyed(w, scope)
    ensures forall k :: k in ShiftedKeys(w, scope, index) ==> Canonical(k, scope)
  {
    forall k' | k' in ShiftedKeys(w, scope, index) ensures Canonical(k', scope) {
      var k :| k in w && ShiftKey(k, scope, index) == k';
      CanonicalShift(k, scope, index);
    }
  }

  /** Two runs of digits, each followed by text that does not go on with a
    * digit, can only spell the same string the same way. */
  lemma DigitsThenSplit(d1: string, r1: string, d2: string, r2: string)
    requires AllDigits(d1) && (r1 == [] || !IsDigit(r1[0]))
    requires AllDigits(d2) && (r2 == [] || !IsDigit(r2[0]))
    requires d1 + r1 == d2 + r2
    ensures d1 == d2 && r1 == r2
  {
    DigitRunOfDigitsThen(d1, r1);
    DigitRunOfDigitsThen(d2, r2);
    assert d1 == (d1 + r1)[..|d1|];
    assert d2 == (d2 + r2)[..|d2|];
    assert r1 == (d1 + r1)[|d1|..];
    assert r2 == (d2 + r2)[|d2|..];
  }

  /** The text of a canonical key determines its index and its rest. */
  lemma CanonicalTextInjective(scope: string, n1: nat, r1: string, n2: nat, r2: string)
    requires r1 == [] || !IsDigit(r1[0])
    requires r2 == [] || !IsDigit(r2[0])
    requires scope + "-" + ShowNat(n1) + r1 == scope + "-" + ShowNat(n2) + r2
    ensures n1 == n2 && r1 == r2
  {
    var p := scope + "-";
    assert (p + ShowNat(n1) + r1)[|p|..] == ShowNat(n1) + r1;
    assert (p + ShowNat(n2) + r2)[|p|..] == ShowNat(n2) + r2;
    DigitsThenSplit(ShowNat(n1), r1, ShowNat(n2), r2);
    ShowNatInjective(n1, n2);
  }

  lemma StartsWithAppend(a: string, b: string)
    ensures StartsWith(a + b, a)
  {
    assert (a + b)[..|a|] == a;
  }

  /** Renumbering is injective on canonical texts whose index is not the
    * deleted one. */
  lemma RenumberInjective(scope: string, j1: nat, r1: string, j2: nat, r2: string, i: nat)
    requires r1 == [] || !IsDigit(r1[0])
    requires r2 == [] || !IsDigit(r2[0])
    requires !StartsWith(scope + "-" + ShowNat(j1) + r1, scope + "-" + ShowNat(i))
    requires !StartsWith(scope + "-" + ShowNat(j2) + r2, scope + "-" + ShowNat(i))
    requires scope + "-" + ShowNat(ShiftedIndex(j1, i)) + r1 == scope + "-" + ShowNat(ShiftedIndex(j2, i)) + r2
    ensures j1 == j2 && r1 == r2
  {
    CanonicalTextInjective(scope, ShiftedIndex(j1, i), r1, ShiftedIndex(j2, i), r2);
    StartsWithAppend(scope + "-" + ShowNat(j1), r1);
    StartsWithAppend(scope + "-" + ShowNat(j2), r2);
  }

  lemma ShiftPairBothMatch(k1: string, k2: string, scope: string, i: nat, m1: Match, m2: Match)
    requires Canonical(k1, scope) && ScopeMatch(k1, scope) == Some(m1)
    requires Canonical(k2, scope) && ScopeMatch(k2, scope) == Some(m2)
    requires !StartsWith(k1, scope + "-" + ShowNat(i)) && !StartsWith(k2, scope + "-" + ShowNat(i))
    requires ShiftKey(k1, scope, i) == ShiftKey(k2, scope, i)
    ensures k1 == k2
  {
    CanonicalForm(k1, scope, m1);
    CanonicalForm(k2, scope, m2);
    CanonicalShiftOf(k1, scope, i, m1);
    CanonicalShiftOf(k2, scope, i, m2);
    RenumberInjective(scope, m1.index, k1[m1.digitsEnd..], m2.index, k2[m2.digitsEnd..], i);
  }

  lemma ShiftPairInjective(k1: string, k2: string, scope: string, i: nat)
    requires Canonical(k1, scope) && Canonical(k2, scope)
    requires !StartsWith(k1, scope + "-" + ShowNat(i)) && !StartsWith(k2, scope + "-" + ShowNat(i))
    requires ShiftKey(k1, scope, i) == ShiftKey(k2, scope, i)
    ensures k1 == k2
  {
    CanonicalShift(k1, scope, i);
    CanonicalShift(k2, scope, i);
    if ScopeMatch(k1, scope).Some? && ScopeMatch(k2, scope).Some? {
      ShiftPairBothMatch(k1, k2, scope, i, ScopeMatch(k1, scope).value, ScopeMatch(k2, scope).value);
    }
  }

  /** After the warnings of element `i` are deleted, renumbering sends no two
    * canonical keys to the same key: `shiftIndexedWarnings` then gives every
    * message a key of its own. */
  lemma ShiftInjectiveAfterDelete(w: TabMap, scope: string, i: nat)
    requires WellKeyed(w, scope)
    ensures ShiftInjective(WithoutPrefix(w, scope + "-" + ShowNat(i)), scope, i)
  {
    var d := WithoutPrefix(w, scope + "-" + ShowNat(i));
    forall k1, k2 | k1 in d && k2 in d && ShiftKey(k1, scope, i) == ShiftKey(k2, scope, i)
      ensures k1 == k2
    {
      ShiftPairInjective(k1, k2, scope, i);
    }
  }

  /** A window of `r + tail` after its start that would hold `r + stail`
    * would hold the character `c` inside `tail[1..]`. */
  lemma WindowMissesChar(r: string, tail: string, stail: string, c: char, p: nat)
    requires 1 <= p && p + |r + stail| <= |r + tail|
    requires c in stail
    requires forall i :: 1 <= i < |tail| ==> tail[i] != c
    ensures (r + tail)[p..p + |r + stail|] != r + stail
  {
    var o :| 0 <= o < |stail| && stail[o] == c;
    assert (r + stail)[|r| + o] == c;
    assert (r + tail)[p..p + |r + stail|][|r| + o] == tail[p + o];
  }

  /** A key `r + tail` never matches the scope `r + stail` when `stail` holds
    * a character that `tail` lacks after its first position and `tail` does
    * not start with `stail`: the scope of one kind of array never captures
    * the keys of another kind. */
  lemma {:induction false} NoScopeMatch(r: string, tail: string, stail: string, c: char, p: nat)
    requires c in stail
    requires forall i :: 1 <= i < |tail| ==> tail[i] != c
    requires !StartsWith(tail, stail)
    ensures FindScope(r + tail, r + stail, p) == None
    decreases |r + tail| - p
  {
    if p + |r + stail| + 2 <= |r + tail| {
      if p == 0 {
        StartsWithCancel(r, tail, stail);
        assert (r + tail)[0..|r + stail|] == (r + tail)[..|r + stail|];
      } else {
        WindowMissesChar(r, tail, stail, c, p);
      }
      NoScopeMatch(r, tail, stail, c, p + 1);
    }
  }
}
