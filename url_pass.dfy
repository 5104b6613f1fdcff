/**
 * The project-wide URL pass of loki-ui/src/warnings.js (`validateUrls` and
 * `deleteEmptyWarnings`), stated as functions on the warnings of a whole
 * project: tab id to that tab's warnings, where a tab's warnings may be
 * `undefined`. The loops that compute them are in ProjectState.
 */
module UrlPass {
  import opened Wrappers
  import opened Strings
  import opened Predicates
  import opened Validators
  import opened ProjectModel

  /** The warnings of a project: tab id to the tab's warnings. An id can be
    * present with an `undefined` value, as after `warnings[id] = undefined`. */
  type Warnings = map<string, Option<TabMap>>

  /** `warnings[id]`: a missing id reads as `undefined`. */
  function Get(w: Warnings, id: string): Option<TabMap> {
    if id in w then w[id] else None
  }

  const UniqueMessage: string := "Mock URL must be unique in project scope"

  /** The message `validateUrl` stores under `url` for a tab's URL, if any. */
  function UrlVerdict(url: string, urlParses: string -> bool): Option<string> {
    if url == [] then Some(EmptyMessage("Mock URL"))
    else if !IsValidUrl(url, urlParses) then Some(InvalidMessage("Mock URL"))
    else None
  }

  /** `warnings[id]['url']` is truthy: present and not the empty string. */
  predicate HasUrlMessage(m: TabMap) {
    "url" in m && m["url"] != ""
  }

  /** The first loop of `validateUrls`, validation part: each tab's URL is
    * validated into the warnings under its id, tab after tab. */
  function UrlsChecked(w: Warnings, tabs: seq<Tab>, urlParses: string -> bool): Warnings
    decreases |tabs|
  {
    if tabs == [] then w
    else
      var prev := UrlsChecked(w, tabs[..|tabs| - 1], urlParses);
      var t := tabs[|tabs| - 1];
      prev[t.id := ValidateUrl(t.url, urlParses, Get(prev, t.id))]
  }

  /** No tab after position `t` has the same id. */
  predicate LastWithId(tabs: seq<Tab>, t: nat)
    requires t < |tabs|
  {
    forall s :: t < s < |tabs| ==> tabs[s].id != tabs[t].id
  }

  predicate IsTabId(tabs: seq<Tab>, id: string) {
    exists t :: 0 <= t < |tabs| && tabs[t].id == id
  }

  /** After the validation loop a tab's `url` key holds its URL's verdict
    * (the last tab with an id decides). */
  lemma {:induction false} UrlsCheckedUrl(w: Warnings, tabs: seq<Tab>, urlParses: string -> bool, t: nat)
    requires t < |tabs| && LastWithId(tabs, t)
    ensures Lookup(Get(UrlsChecked(w, tabs, urlParses), tabs[t].id), "url") == UrlVerdict(tabs[t].url, urlParses)
    decreases |tabs|
  {
    var n := |tabs| - 1;
    UrlsCheckedLast(w, tabs, urlParses, tabs[t].id);
    if t < n {
      assert tabs[n].id != tabs[t].id;
      assert tabs[..n][t] == tabs[t];
      UrlsCheckedUrl(w, tabs[..n], urlParses, t);
    }
  }

  /** The last tab's step touches only that tab's entry. */
  lemma UrlsCheckedLast(w: Warnings, tabs: seq<Tab>, urlParses: string -> bool, id: string)
    requires tabs != []
    ensures var n := |tabs| - 1;
            var prev := Get(UrlsChecked(w, tabs[..n], urlParses), id);
            Get(UrlsChecked(w, tabs, urlParses), id)
            == if tabs[n].id == id then ValidateUrl(tabs[n].url, urlParses, prev) else prev
  {
  }

  /** The validation loop writes only `url` keys. */
  lemma {:induction false} UrlsCheckedOthers(w: Warnings, tabs: seq<Tab>, urlParses: string -> bool, id: string, f: string)
    requires f != "url"
    ensures Lookup(Get(UrlsChecked(w, tabs, urlParses), id), f) == Lookup(Get(w, id), f)
    decreases |tabs|
  {
    if tabs != [] {
      var n := |tabs| - 1;
      UrlsCheckedOthers(w, tabs[..n], urlParses, id, f);
      UrlsCheckedLast(w, tabs, urlParses, id);
    }
  }

  /** The validation loop writes only under tab ids. */
  lemma {:induction false} UrlsCheckedElsewhere(w: Warnings, tabs: seq<Tab>, urlParses: string -> bool, id: string)
    requires !IsTabId(tabs, id)
    ensures id in UrlsChecked(w, tabs, urlParses) <==> id in w
    ensures Get(UrlsChecked(w, tabs, urlParses), id) == Get(w, id)
    decreases |tabs|
  {
    if tabs != [] {
      var n := |tabs| - 1;
      assert tabs[n].id != id;
      assert !IsTabId(tabs[..n], id) by {
        forall t | 0 <= t < n ensures tabs[..n][t].id != id {
          assert tabs[..n][t] == tabs[t];
        }
      }
      UrlsCheckedElsewhere(w, tabs[..n], urlParses, id);
    }
  }

  /** Every tab id is present after the validation loop. */
  lemma {:induction false} UrlsCheckedHasTabs(w: Warnings, tabs: seq<Tab>, urlParses: string -> bool, t: nat)
    requires t < |tabs|
    ensures tabs[t].id in UrlsChecked(w, tabs, urlParses)
    decreases |tabs|
  {
    var n := |tabs| - 1;
    if t < n {
      assert tabs[..n][t] == tabs[t];
      UrlsCheckedHasTabs(w, tabs[..n], urlParses, t);
    }
  }

  /** What the first loop files for a tab: its URL with every `{{name}}`
    * replaced by `{{-}}`, and its id. */
  datatype Entry = Entry(url: string, id: string)

  function Entries(tabs: seq<Tab>): (r: seq<Entry>)
    ensures |r| == |tabs|
    ensures forall t :: 0 <= t < |tabs| ==> r[t] == Entry(NormaliseUrl(tabs[t].url), tabs[t].id)
  {
    seq(|tabs|, t requires 0 <= t < |tabs| => Entry(NormaliseUrl(tabs[t].url), tabs[t].id))
  }

  /** A normalised URL's bucket of tab ids in the `duplicates` object. */
  function Bucket(groups: map<string, seq<string>>, u: string): seq<string> {
    if u in groups then groups[u] else []
  }

  /** The `duplicates` object of the first loop: normalised URL to the ids of
    * the tabs with that URL, in tab order. */
  function Groups(es: seq<Entry>): map<string, seq<string>>
    decreases |es|
  {
    if es == [] then map[]
    else
      var g := Groups(es[..|es| - 1]);
      var e := es[|es| - 1];
      g[e.url := Bucket(g, e.url) + [e.id]]
  }

  /** The positions of the entries filed under `u`. */
  function Positions(es: seq<Entry>, u: string): set<nat> {
    set t: nat | t < |es| && es[t].url == u
  }

  /** Some other tab's URL is the same up to the names of its placeholders. */
  predicate Duplicated(tabs: seq<Tab>, t: nat)
    requires t < |tabs|
  {
    exists s :: 0 <= s < |tabs| && s != t && NormaliseUrl(tabs[s].url) == NormaliseUrl(tabs[t].url)
  }

  /** A bucket holds the ids of exactly the entries filed under its URL. */
  lemma {:induction false} GroupsBucket(es: seq<Entry>, u: string, id: string)
    ensures id in Bucket(Groups(es), u) <==> exists t :: 0 <= t < |es| && es[t] == Entry(u, id)
    decreases |es|
  {
    if es != [] {
      var n := |es| - 1;
      var pre := es[..n];
      GroupsBucket(pre, u, id);
      if exists t :: 0 <= t < n && pre[t] == Entry(u, id) {
        var t :| 0 <= t < n && pre[t] == Entry(u, id);
        assert es[t] == pre[t];
      }
      if exists t :: 0 <= t < |es| && es[t] == Entry(u, id) {
        var t :| 0 <= t < |es| && es[t] == Entry(u, id);
        if t < n {
          assert es[t] == pre[t];
        }
      }
    }
  }

  /** A bucket has one entry per position. */
  lemma {:induction false} GroupsBucketSize(es: seq<Entry>, u: string)
    ensures |Bucket(Groups(es), u)| == |Positions(es, u)|
    decreases |es|
  {
    if es != [] {
      var n := |es| - 1;
      GroupsBucketSize(es[..n], u);
      forall t | 0 <= t < n ensures es[..n][t] == es[t] { }
      if es[n].url == u {
        assert Positions(es, u) == Positions(es[..n], u) + {n};
      } else {
        assert Positions(es, u) == Positions(es[..n], u);
      }
    }
  }

  /** The ids `validateUrls` marks: those in a bucket of more than one. */
  function FlaggedIds(groups: map<string, seq<string>>): set<string> {
    set u, id | u in groups && |groups[u]| > 1 && id in groups[u] :: id
  }

  /** An id is flagged exactly when it is filed at a position whose URL some
    * other position shares. */
  lemma FlaggedEntries(es: seq<Entry>, id: string)
    ensures id in FlaggedIds(Groups(es)) <==>
              exists t, s :: 0 <= t < |es| && 0 <= s < |es| && s != t && es[t].id == id && es[s].url == es[t].url
  {
    if id in FlaggedIds(Groups(es)) {
      FlaggedHasPartner(es, id);
    }
    if exists t, s :: 0 <= t < |es| && 0 <= s < |es| && s != t && es[t].id == id && es[s].url == es[t].url {
      var t, s :| 0 <= t < |es| && 0 <= s < |es| && s != t && es[t].id == id && es[s].url == es[t].url;
      PartnerFlagged(es, t, s);
    }
  }

  /** A flagged id is filed at a position whose URL another position shares. */
  lemma FlaggedHasPartner(es: seq<Entry>, id: string)
    requires id in FlaggedIds(Groups(es))
    ensures exists t, s :: 0 <= t < |es| && 0 <= s < |es| && s != t && es[t].id == id && es[s].url == es[t].url
  {
    var g := Groups(es);
    var u := FlaggedBucket(g, id);
    assert exists t :: 0 <= t < |es| && es[t] == Entry(u, id) by {
      GroupsBucket(es, u, id);
    }
    var t: nat :| t < |es| && es[t] == Entry(u, id);
    var p := Positions(es, u);
    assert |p| > 1 by {
      GroupsBucketSize(es, u);
    }
    var s := OtherThan(p, t);
    assert s < |es| && s != t && es[s].url == es[t].url;
  }

  /** A set of more than one element has one other than `t`. */
  lemma OtherThan(p: set<nat>, t: nat) returns (s: nat)
    requires |p| > 1
    ensures s in p && s != t
  {
    if t in p {
      assert |p - {t}| == |p| - 1;
    } else {
      assert p - {t} == p;
    }
    s :| s in p - {t};
  }

  /** A flagged id sits in a bucket of more than one. */
  lemma FlaggedBucket(groups: map<string, seq<string>>, id: string) returns (u: string)
    requires id in FlaggedIds(groups)
    ensures u in groups && |groups[u]| > 1 && id in groups[u]
  {
    u :| u in groups && |groups[u]| > 1 && id in groups[u];
  }

  /** Two positions filed under one URL get their ids flagged. */
  lemma PartnerFlagged(es: seq<Entry>, t: nat, s: nat)
    requires t < |es| && s < |es| && s != t && es[s].url == es[t].url
    ensures es[t].id in FlaggedIds(Groups(es))
  {
    var u := es[t].url;
    var id := es[t].id;
    var g := Groups(es);
    assert id in Bucket(g, u) by {
      GroupsBucket(es, u, id);
    }
    assert |Bucket(g, u)| > 1 by {
      GroupsBucketSize(es, u);
      var p := Positions(es, u);
      assert {s, t} <= p;
      assert |{s, t}| == 2;
      Subset({s, t}, p);
    }
  }

  /** A tab whose URL is duplicated has its id flagged, and every flagged id
    * is the id of a tab whose URL is duplicated. */
  lemma FlaggedMeaning(tabs: seq<Tab>, id: string)
    ensures id in FlaggedIds(Groups(Entries(tabs))) <==>
              exists t :: 0 <= t < |tabs| && tabs[t].id == id && Duplicated(tabs, t)
  {
    var es := Entries(tabs);
    if exists t :: 0 <= t < |tabs| && tabs[t].id == id && Duplicated(tabs, t) {
      var t :| 0 <= t < |tabs| && tabs[t].id == id && Duplicated(tabs, t);
      var s :| 0 <= s < |tabs| && s != t && NormaliseUrl(tabs[s].url) == NormaliseUrl(tabs[t].url);
      assert es[s].url == es[t].url;
      PartnerFlagged(es, t, s);
    }
    if id in FlaggedIds(Groups(es)) {
      FlaggedHasPartner(es, id);
      var t, s :| 0 <= t < |es| && 0 <= s < |es| && s != t && es[t].id == id && es[s].url == es[t].url;
      assert NormaliseUrl(tabs[s].url) == es[s].url == es[t].url == NormaliseUrl(tabs[t].url);
      assert tabs[t].id == id && Duplicated(tabs, t);
    }
  }

  /** The ids flagged by the buckets of the URLs `us` only, as the second
    * loop has them after visiting `us`. */
  function FlaggedIn(groups: map<string, seq<string>>, us: set<string>): set<string> {
    set u, id | u in us && u in groups && |groups[u]| > 1 && id in groups[u] :: id
  }

  lemma FlaggedInAll(groups: map<string, seq<string>>)
    ensures FlaggedIn(groups, groups.Keys) == FlaggedIds(groups)
  {
  }

  /** Visiting one more URL adds its bucket's ids when it holds more than one. */
  lemma FlaggedInStep(groups: map<string, seq<string>>, us: set<string>, u: string)
    requires u in groups
    ensures FlaggedIn(groups, us + {u})
            == FlaggedIn(groups, us) + if |groups[u]| > 1 then Members(groups[u]) else {}
  {
  }

  /** The ids a bucket lists. */
  function Members(ids: seq<string>): set<string> {
    set id | id in ids
  }

  lemma MembersAppend(ids: seq<string>, k: nat)
    requires k < |ids|
    ensures Members(ids[..k + 1]) == Members(ids[..k]) + {ids[k]}
  {
    assert ids[..k + 1] == ids[..k] + [ids[k]];
  }

  /** The entries of one more tab. */
  lemma EntriesPrefix(tabs: seq<Tab>, i: nat)
    requires i < |tabs|
    ensures Entries(tabs[..i + 1])[..i] == Entries(tabs[..i])
    ensures Entries(tabs[..i + 1])[i] == Entry(NormaliseUrl(tabs[i].url), tabs[i].id)
  {
  }

  lemma Subset(a: set<nat>, b: set<nat>)
    requires a <= b
    ensures |a| <= |b|
  {
    assert b == a + (b - a);
  }

  /** `warnings[id] = warnings[id] || {}`, then the uniqueness message unless
    * the tab's `url` key already holds a message. */
  function MarkUnique(m: TabMap): TabMap {
    if HasUrlMessage(m) then m else m["url" := UniqueMessage]
  }

  /** One step of the second loop. */
  function MarkOne(w: Warnings, id: string): Warnings {
    w[id := Some(MarkUnique(OrEmpty(Get(w, id))))]
  }

  /** The second loop, done for the ids `ids`. */
  function Marked(w: Warnings, ids: set<string>): Warnings {
    map id | id in w.Keys + ids :: if id in ids then Some(MarkUnique(OrEmpty(Get(w, id)))) else w[id]
  }

  /** Marking one more id extends the marked set; marking an id twice is
    * marking it once, so the order of the loop does not matter. */
  lemma MarkedStep(w: Warnings, ids: set<string>, id: string)
    ensures Marked(w, ids + {id}) == MarkOne(Marked(w, ids), id)
  {
    var a := Marked(w, ids + {id});
    var b := MarkOne(Marked(w, ids), id);
    assert a.Keys == b.Keys;
    forall x | x in a ensures a[x] == b[x] {
      if x == id && id in ids {
        var m := MarkUnique(OrEmpty(Get(w, id)));
        assert HasUrlMessage(m);
      }
    }
  }

  /** A marked id's `url` key: its message if it had one, else the
    * uniqueness message. */
  lemma MarkedUrl(w: Warnings, ids: set<string>, id: string)
    requires id in ids
    ensures Lookup(Get(Marked(w, ids), id), "url")
            == if Lookup(Get(w, id), "url").Some? && Lookup(Get(w, id), "url").value != "" then Lookup(Get(w, id), "url")
               else Some(UniqueMessage)
  {
    assert Get(Marked(w, ids), id) == Some(MarkUnique(OrEmpty(Get(w, id))));
  }

  /** Marking changes nothing but the `url` keys of the marked ids. */
  lemma MarkedOther(w: Warnings, ids: set<string>, id: string, f: string)
    requires f != "url" || id !in ids
    ensures Lookup(Get(Marked(w, ids), id), f) == Lookup(Get(w, id), f)
  {
    if id in ids {
      assert Get(Marked(w, ids), id) == Some(MarkUnique(OrEmpty(Get(w, id))));
    }
  }

  /** The ids marked one after the other, as the loop over a bucket does. */
  function MarkedInTurn(w: Warnings, ids: seq<string>): Warnings
    decreases |ids|
  {
    if ids == [] then w else MarkOne(MarkedInTurn(w, ids[..|ids| - 1]), ids[|ids| - 1])
  }

  /** Marking a bucket's ids in turn marks the set of them. */
  lemma {:induction false} MarkedInTurnIsMarked(w: Warnings, ids: set<string>, bucket: seq<string>)
    ensures MarkedInTurn(Marked(w, ids), bucket) == Marked(w, ids + Members(bucket))
    decreases |bucket|
  {
    if bucket == [] {
      assert Members(bucket) == {};
      assert ids + Members(bucket) == ids;
    } else {
      var n := |bucket| - 1;
      var before := ids + Members(bucket[..n]);
      var prev := MarkedInTurn(Marked(w, ids), bucket[..n]);
      assert prev == Marked(w, before) by {
        MarkedInTurnIsMarked(w, ids, bucket[..n]);
      }
      assert MarkOne(prev, bucket[n]) == Marked(w, before + {bucket[n]}) by {
        MarkedStep(w, before, bucket[n]);
      }
      assert before + {bucket[n]} == ids + Members(bucket) by {
        MembersAppend(bucket, n);
        assert bucket[..n + 1] == bucket;
      }
    }
  }

  lemma MarkedNothing(w: Warnings)
    ensures Marked(w, {}) == w
  {
  }

  /** `deleteEmptyWarnings`: the tabs whose warnings are `undefined` or
    * have no key are dropped. */
  function Pruned(w: Warnings): Warnings {
    map id | id in w && w[id].Some? && w[id].value != map[] :: w[id]
  }

  /** Pruning drops nothing a lookup can see, and leaves only tabs with at
    * least one warning. */
  lemma PrunedMeaning(w: Warnings)
    ensures forall id, f :: Lookup(Get(Pruned(w), id), f) == Lookup(Get(w, id), f)
    ensures forall id :: id in Pruned(w) ==> Pruned(w)[id].Some? && Pruned(w)[id].value != map[]
    ensures forall id :: id in w && w[id].Some? && w[id].value != map[] ==> id in Pruned(w)
  {
  }

  /** What `validateUrls` returns. */
  function UrlsValidated(w: Warnings, tabs: seq<Tab>, urlParses: string -> bool): Warnings {
    Pruned(Marked(UrlsChecked(w, tabs, urlParses), FlaggedIds(Groups(Entries(tabs)))))
  }

  /** A tab whose URL another tab repeats gets the uniqueness message, unless
    * its own URL is empty or invalid: that message is kept. */
  lemma DuplicateUrlWarned(w: Warnings, tabs: seq<Tab>, urlParses: string -> bool, t: nat)
    requires t < |tabs| && LastWithId(tabs, t) && Duplicated(tabs, t)
    ensures Lookup(Get(UrlsValidated(w, tabs, urlParses), tabs[t].id), "url")
            == if UrlVerdict(tabs[t].url, urlParses).Some? then UrlVerdict(tabs[t].url, urlParses)
               else Some(UniqueMessage)
  {
    var checked := UrlsChecked(w, tabs, urlParses);
    var flagged := FlaggedIds(Groups(Entries(tabs)));
    UrlsCheckedUrl(w, tabs, urlParses, t);
    FlaggedMeaning(tabs, tabs[t].id);
    MarkedUrl(checked, flagged, tabs[t].id);
    PrunedMeaning(Marked(checked, flagged));
  }

  /** With distinct tab ids, a tab no other tab repeats keeps its URL's own
    * verdict. */
  lemma UniqueUrlKeepsVerdict(w: Warnings, tabs: seq<Tab>, urlParses: string -> bool, t: nat)
    requires forall r, s :: 0 <= r < s < |tabs| ==> tabs[r].id != tabs[s].id
    requires t < |tabs| && !Duplicated(tabs, t)
    ensures Lookup(Get(UrlsValidated(w, tabs, urlParses), tabs[t].id), "url") == UrlVerdict(tabs[t].url, urlParses)
  {
    var checked := UrlsChecked(w, tabs, urlParses);
    var flagged := FlaggedIds(Groups(Entries(tabs)));
    UrlsCheckedUrl(w, tabs, urlParses, t);
    FlaggedMeaning(tabs, tabs[t].id);
    MarkedOther(checked, flagged, tabs[t].id, "url");
    PrunedMeaning(Marked(checked, flagged));
  }

  /** `validateUrls` writes nothing but `url` keys. */
  lemma UrlsValidatedOthers(w: Warnings, tabs: seq<Tab>, urlParses: string -> bool, id: string, f: string)
    requires f != "url"
    ensures Lookup(Get(UrlsValidated(w, tabs, urlParses), id), f) == Lookup(Get(w, id), f)
  {
    var checked := UrlsChecked(w, tabs, urlParses);
    var flagged := FlaggedIds(Groups(Entries(tabs)));
    UrlsCheckedOthers(w, tabs, urlParses, id, f);
    MarkedOther(checked, flagged, id, f);
    PrunedMeaning(Marked(checked, flagged));
  }

  /** After `validateUrls` every tab id present has at least one warning. */
  lemma UrlsValidatedClean(w: Warnings, tabs: seq<Tab>, urlParses: string -> bool)
    ensures forall id :: id in UrlsValidated(w, tabs, urlParses) ==>
              UrlsValidated(w, tabs, urlParses)[id].Some? && UrlsValidated(w, tabs, urlParses)[id].value != map[]
  {
    PrunedMeaning(Marked(UrlsChecked(w, tabs, urlParses), FlaggedIds(Groups(Entries(tabs)))));
  }
}
