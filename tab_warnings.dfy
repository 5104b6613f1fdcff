/**
 * One tab's warnings object as the source mutates it: the validators
 * `delete` and assign keys on it, and `deleteWarnings` and `copyWarnings`
 * loop over its keys.
 */
module TabState {
  import opened Wrappers
  import opened Strings
  import opened Predicates
  import V = Validators
  import opened WarningEdits

  /** The loop of `copyWarnings`: `Object.entries` takes a snapshot, and the
    * message of each snapshot key starting with `prefix` is written under the
    * key with `prefix` replaced by `ruleId`. */
  method CopyEntries(snapshot: TabMap, prefix: string, ruleId: string) returns (written: TabMap)
    ensures written == Copied(snapshot, prefix, ruleId)
  {
    written := snapshot;
    var todo := PrefixedKeys(snapshot, prefix);
    ghost var done: set<string> := {};
    CopyOfNothing(snapshot, prefix, ruleId);
    while todo != {}
      invariant done + todo == PrefixedKeys(snapshot, prefix)
      invariant IsCopyOf(written, snapshot, prefix, ruleId, done)
      decreases |todo|
    {
      var id :| id in todo;
      CopyStep(written, snapshot, prefix, ruleId, done, id);
      written := written[Retarget(id, prefix, ruleId) := snapshot[id]];
      done := done + {id};
      todo := todo - {id};
    }
    CopiedIsCopy(snapshot, prefix, ruleId);
    CopyUnique(written, Copied(snapshot, prefix, ruleId), snapshot, prefix, ruleId, done);
  }

  class TabWarnings {
    var entries: TabMap

    constructor (initial: TabMap)
      ensures entries == initial
    {
      entries := initial;
    }

    /** `{...warnings}`: a new object with the same entries. */
    method Copy() returns (c: TabWarnings)
      ensures fresh(c) && c.entries == entries
    {
      c := new TabWarnings(entries);
    }

    /** A `validate*` call on an existing object: it deletes the key when the
      * value is fine and assigns the message otherwise. */
    method Validate(k: V.Kind, v: JsValue, field: string)
      modifies this
      ensures Some(entries) == V.Validate(k, v, field, Some(old(entries)))
    {
      if IsNotEmpty(v) {
        if V.WellFormed(k, v) {
          entries := entries - {field};
        } else {
          entries := entries[field := V.InvalidMessage(V.Label(k))];
        }
      } else {
        entries := entries[field := V.EmptyMessage(V.Label(k))];
      }
    }

    /** `deleteWarnings(prefix, warnings)`: deletes, one by one, the keys that
      * start with `prefix`. */
    method DeleteWarnings(prefix: string)
      modifies this
      ensures entries == WithoutPrefix(old(entries), prefix)
    {
      var doomed := set id | id in entries && StartsWith(id, prefix);
      while doomed != {}
        invariant doomed <= entries.Keys
        invariant forall id :: id in doomed ==> StartsWith(id, prefix)
        invariant forall id :: id in entries <==> id in old(entries) && (!StartsWith(id, prefix) || id in doomed)
        invariant forall id :: id in entries ==> entries[id] == old(entries)[id]
        decreases |doomed|
      {
        var id :| id in doomed;
        entries := entries - {id};
        doomed := doomed - {id};
      }
    }

    /** `copyWarnings(prefix, ruleId, warnings)` on this object. */
    method CopyWarnings(prefix: string, ruleId: string)
      modifies this
      ensures entries == Copied(old(entries), prefix, ruleId)
    {
      entries := CopyEntries(entries, prefix, ruleId);
    }
  }
}
