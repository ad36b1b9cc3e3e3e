/**
 * `applyActionExceptions`: exceptions are grouped by their payload for one
 * key, every blocking entry with a payload is rewritten by the exceptions of
 * the same payload (in exception-list order), and the rewritten bucket is
 * then filtered.
 */
module ActionExceptions {
  import opened Wrappers
  import opened Lists
  import opened BlockerEntries
  import opened ExceptionDomains

  /** The exceptions whose payload for `key` is `value`, in list order. */
  function Matching(exceptions: seq<BlockerEntry>, key: string, value: string): (r: seq<BlockerEntry>)
    ensures |r| <= |exceptions|
    decreases |exceptions|
  {
    if |exceptions| == 0 then []
    else
      var last := exceptions[|exceptions| - 1];
      Matching(exceptions[..|exceptions| - 1], key, value) +
        (if ActionValue(last, key) == Some(value) then [last] else [])
  }

  /** `rule` after each exception of `excs` in turn. */
  function ApplyAll(rule: Trigger, excs: seq<BlockerEntry>): Trigger
    decreases |excs|
  {
    if |excs| == 0 then rule
    else WithException(excs[|excs| - 1].trigger, ApplyAll(rule, excs[..|excs| - 1]))
  }

  /** One blocking entry after the exceptions that share its payload; an entry without one is kept as is. */
  function Rewrite(entry: BlockerEntry, exceptions: seq<BlockerEntry>, key: string): BlockerEntry {
    match ActionValue(entry, key)
    case None => entry
    case Some(v) => entry.(trigger := ApplyAll(entry.trigger, Matching(exceptions, key, v)))
  }

  /** The bucket after the rewrite, entry by entry. */
  function RewriteAll(items: seq<BlockerEntry>, exceptions: seq<BlockerEntry>, key: string): seq<BlockerEntry> {
    seq(|items|, i requires 0 <= i < |items| => Rewrite(items[i], exceptions, key))
  }

  /** The source's drop test (Compiler.swift:340), with Swift's precedence: `A || (B && cosmetic)`. */
  predicate Disabled(e: BlockerEntry) {
    (e.trigger.ifDomain == Some([]) && e.trigger.unlessDomain.None?) ||
    (e.trigger.unlessDomain == Some([]) && e.trigger.ifDomain.None? && IsCosmetic(e.action.kind))
  }

  /** The source's keep test (Compiler.swift:344-345): not both lists present and non-empty. */
  predicate Retained(e: BlockerEntry) {
    e.trigger.ifDomain.None? || e.trigger.ifDomain == Some([]) ||
    e.trigger.unlessDomain.None? || e.trigger.unlessDomain == Some([])
  }

  predicate Survives(e: BlockerEntry) {
    !Disabled(e) && Retained(e)
  }

  /** The entries of `xs` that survive the filter, in order. */
  function Kept(xs: seq<BlockerEntry>): (r: seq<BlockerEntry>)
    ensures |r| <= |xs|
    decreases |xs|
  {
    if |xs| == 0 then []
    else Kept(xs[..|xs| - 1]) + (if Survives(xs[|xs| - 1]) then [xs[|xs| - 1]] else [])
  }

  /** What `applyActionExceptions` returns. */
  function ActionExceptionsResult(items: seq<BlockerEntry>, exceptions: seq<BlockerEntry>, key: string): seq<BlockerEntry> {
    Kept(RewriteAll(items, exceptions, key))
  }

  /**
   * The source's procedure.  `rewritten` is the final value of the `inout`
   * bucket (rewritten in place by index), `result` the returned filtered copy.
   */
  method ApplyActionExceptions(blockingItems: seq<BlockerEntry>, exceptions: seq<BlockerEntry>, actionValue: string)
    returns (result: seq<BlockerEntry>, rewritten: seq<BlockerEntry>)
    ensures rewritten == RewriteAll(blockingItems, exceptions, actionValue)
    ensures result == Kept(rewritten)
  {
    var exceptionsDictionary := GroupByPayload(exceptions, actionValue);

    // Rewriting every entry that has a payload, in place.
    rewritten := blockingItems;
    for index := 0 to |blockingItems|
      invariant |rewritten| == |blockingItems|
      invariant forall k :: 0 <= k < index ==> rewritten[k] == Rewrite(blockingItems[k], exceptions, actionValue)
      invariant forall k :: index <= k < |blockingItems| ==> rewritten[k] == blockingItems[k]
    {
      var key := ActionValue(rewritten[index], actionValue);
      if key.None? {
        continue;
      }
      if key.value !in exceptionsDictionary {
        continue;
      }
      var matchingExceptions := exceptionsDictionary[key.value];
      var t := rewritten[index].trigger;
      for m := 0 to |matchingExceptions|
        invariant t == ApplyAll(blockingItems[index].trigger, matchingExceptions[..m])
      {
        assert matchingExceptions[..m + 1][..m] == matchingExceptions[..m];
        t := ApplyExceptionDomains(matchingExceptions[m].trigger, t);
      }
      assert matchingExceptions[..|matchingExceptions|] == matchingExceptions;
      rewritten := rewritten[index := rewritten[index].(trigger := t)];
    }

    result := DropDisabled(rewritten);
  }

  /**
   * The dictionary from payload to exceptions (Compiler.swift:304-318): a
   * payload is a key exactly when some exception carries it, and maps to
   * those exceptions in list order.  Only an absent payload is skipped, so
   * `""` is a key like any other.
   */
  method GroupByPayload(exceptions: seq<BlockerEntry>, actionValue: string)
    returns (exceptionsDictionary: map<string, seq<BlockerEntry>>)
    ensures forall v :: v in exceptionsDictionary <==> Matching(exceptions, actionValue, v) != []
    ensures forall v :: v in exceptionsDictionary ==> exceptionsDictionary[v] == Matching(exceptions, actionValue, v)
  {
    exceptionsDictionary := map[];
    for j := 0 to |exceptions|
      invariant forall v :: v in exceptionsDictionary <==> Matching(exceptions[..j], actionValue, v) != []
      invariant forall v :: v in exceptionsDictionary ==> exceptionsDictionary[v] == Matching(exceptions[..j], actionValue, v)
    {
      var exc := exceptions[j];
      MatchingSnoc(exceptions[..j], exc, actionValue);
      assert exceptions[..j + 1] == exceptions[..j] + [exc];
      var key := ActionValue(exc, actionValue);
      if key.None? {
        continue;
      }
      var current := if key.value in exceptionsDictionary then exceptionsDictionary[key.value] else [];
      current := current + [exc];
      exceptionsDictionary := exceptionsDictionary[key.value := current];
    }
    assert exceptions[..|exceptions|] == exceptions;
  }

  /** The final filter (Compiler.swift:336-350), written as the source writes its two tests. */
  method DropDisabled(rewritten: seq<BlockerEntry>) returns (result: seq<BlockerEntry>)
    ensures result == Kept(rewritten)
  {
    result := [];
    for k := 0 to |rewritten|
      invariant result == Kept(rewritten[..k])
    {
      var r := rewritten[k];
      assert rewritten[..k + 1][..k] == rewritten[..k];
      if (r.trigger.ifDomain == Some([]) && r.trigger.unlessDomain.None?) ||
         (r.trigger.unlessDomain == Some([]) && r.trigger.ifDomain.None? && IsCosmetic(r.action.kind)) {
        continue;
      }
      if r.trigger.ifDomain.None? || r.trigger.ifDomain == Some([]) ||
         r.trigger.unlessDomain.None? || r.trigger.unlessDomain == Some([]) {
        result := result + [r];
      }
    }
    assert rewritten[..|rewritten|] == rewritten;
  }

  /** Grouping one more exception. */
  lemma MatchingSnoc(exceptions: seq<BlockerEntry>, exc: BlockerEntry, key: string)
    ensures forall v {:trigger Matching(exceptions + [exc], key, v)} ::
      Matching(exceptions + [exc], key, v) ==
        Matching(exceptions, key, v) + (if ActionValue(exc, key) == Some(v) then [exc] else [])
  {
    assert (exceptions + [exc])[..|exceptions|] == exceptions;
  }

  // ---------------------------------------------------------------------------
  // Properties
  // ---------------------------------------------------------------------------

  /** Every exception grouped under `value` has that payload, and every one with it is grouped. */
  lemma {:induction false} MatchingMembers(exceptions: seq<BlockerEntry>, key: string, value: string, x: BlockerEntry)
    ensures x in Matching(exceptions, key, value) <==> x in exceptions && ActionValue(x, key) == Some(value)
    decreases |exceptions|
  {
    if |exceptions| > 0 {
      MatchingMembers(exceptions[..|exceptions| - 1], key, value, x);
      assert exceptions == exceptions[..|exceptions| - 1] + [exceptions[|exceptions| - 1]];
    }
  }

  /** Only exceptions with the entry's own payload matter: the others can be removed beforehand. */
  lemma OnlyMatchingExceptionsApply(entry: BlockerEntry, exceptions: seq<BlockerEntry>, key: string)
    requires ActionValue(entry, key).Some?
    ensures Rewrite(entry, exceptions, key) ==
      Rewrite(entry, Matching(exceptions, key, ActionValue(entry, key).value), key)
  {
    MatchingIdempotent(exceptions, key, ActionValue(entry, key).value);
  }

  lemma {:induction false} MatchingIdempotent(exceptions: seq<BlockerEntry>, key: string, value: string)
    ensures Matching(Matching(exceptions, key, value), key, value) == Matching(exceptions, key, value)
    decreases |exceptions|
  {
    if |exceptions| > 0 {
      var init := exceptions[..|exceptions| - 1];
      var last := exceptions[|exceptions| - 1];
      MatchingIdempotent(init, key, value);
      var m := Matching(init, key, value);
      if ActionValue(last, key) == Some(value) {
        var ml := m + [last];
        assert ml[..|ml| - 1] == m;
      } else {
        assert Matching(exceptions, key, value) == m + [] == m;
      }
    }
  }

  /** An entry without a payload for the key keeps its trigger, whatever the exceptions. */
  lemma NoPayloadUntouched(entry: BlockerEntry, exceptions: seq<BlockerEntry>, key: string)
    requires ActionValue(entry, key).None?
    ensures Rewrite(entry, exceptions, key) == entry
  {
  }

  /** The rewrite changes triggers only: each entry keeps its action and its place. */
  lemma RewriteKeepsActions(items: seq<BlockerEntry>, exceptions: seq<BlockerEntry>, key: string)
    ensures var r := RewriteAll(items, exceptions, key);
      |r| == |items| && forall i :: 0 <= i < |r| ==> r[i].action == items[i].action
  {
  }

  /** The filter keeps exactly the surviving entries. */
  lemma {:induction false} KeptMembers(xs: seq<BlockerEntry>, e: BlockerEntry)
    ensures e in Kept(xs) <==> e in xs && Survives(e)
    decreases |xs|
  {
    if |xs| > 0 {
      KeptMembers(xs[..|xs| - 1], e);
      assert xs == xs[..|xs| - 1] + [xs[|xs| - 1]];
    }
  }

  /** The filter preserves order: it distributes over concatenation. */
  lemma {:induction false} KeptAppend(xs: seq<BlockerEntry>, ys: seq<BlockerEntry>)
    ensures Kept(xs + ys) == Kept(xs) + Kept(ys)
    decreases |ys|
  {
    if |ys| == 0 {
      assert xs + ys == xs;
    } else {
      var init := ys[..|ys| - 1];
      assert (xs + ys)[..|xs + ys| - 1] == xs + init;
      KeptAppend(xs, init);
    }
  }

  /** A bucket whose entries all survive passes the filter unchanged. */
  lemma {:induction false} KeptAll(xs: seq<BlockerEntry>)
    requires forall i :: 0 <= i < |xs| ==> Survives(xs[i])
    ensures Kept(xs) == xs
    decreases |xs|
  {
    if |xs| > 0 {
      KeptAll(xs[..|xs| - 1]);
      assert xs[..|xs| - 1] + [xs[|xs| - 1]] == xs;
    }
  }

  /**
   * The entries dropped are exactly those with an empty `ifDomain` and no
   * `unlessDomain`, those with an empty `unlessDomain`, no `ifDomain` and a
   * cosmetic action, and those with both lists non-empty.
   */
  lemma DroppedIff(e: BlockerEntry)
    ensures !Survives(e) <==>
      (e.trigger.ifDomain == Some([]) && e.trigger.unlessDomain.None?) ||
      (e.trigger.unlessDomain == Some([]) && e.trigger.ifDomain.None? && IsCosmetic(e.action.kind)) ||
      (e.trigger.ifDomain.Some? && |e.trigger.ifDomain.value| > 0 &&
       e.trigger.unlessDomain.Some? && |e.trigger.unlessDomain.value| > 0)
  {
  }

  /**
   * The literal precedence differs from `(A || B) && cosmetic` only for a
   * non-cosmetic entry with an empty `ifDomain` and no `unlessDomain`.
   */
  lemma DropPrecedence(e: BlockerEntry)
    ensures var a := e.trigger.ifDomain == Some([]) && e.trigger.unlessDomain.None?;
      var b := e.trigger.unlessDomain == Some([]) && e.trigger.ifDomain.None?;
      Disabled(e) != ((a || b) && IsCosmetic(e.action.kind)) <==> a && !IsCosmetic(e.action.kind)
  {
  }

  /** A css-display-none entry for `.ad` and the generic exception for `.ad`: nothing is left. */
  lemma GenericExceptionDropsEntry()
    ensures var entry := BlockerEntry(Trigger(".*", None, None), Action(CssDisplayNone, Some(".ad"), None, None, None));
      var exc := BlockerEntry(Trigger(".*", None, None), Action(IgnorePreviousRules, Some(".ad"), None, None, None));
      ActionExceptionsResult([entry], [exc], SELECTOR_KEY) == []
  {
    var entry := BlockerEntry(Trigger(".*", None, None), Action(CssDisplayNone, Some(".ad"), None, None, None));
    var exc := BlockerEntry(Trigger(".*", None, None), Action(IgnorePreviousRules, Some(".ad"), None, None, None));
    assert [exc][..0] == [];
    assert Matching([exc], SELECTOR_KEY, ".ad") == [exc];
    assert ([exc])[..0] == [];
    assert ApplyAll(entry.trigger, [exc]) == WithException(exc.trigger, entry.trigger);
    assert Rewrite(entry, [exc], SELECTOR_KEY) == entry.(trigger := Trigger(".*", Some([]), None));
    var r := RewriteAll([entry], [exc], SELECTOR_KEY);
    assert r[0] == Rewrite(entry, [exc], SELECTOR_KEY);
    assert r[..0] == [];
  }

  /**
   * A generic exception does not remove an entry that has an `unlessDomain`:
   * it gains an empty `ifDomain` and survives the filter.
   */
  lemma GenericExceptionKeepsUnlessEntry()
    ensures var entry := BlockerEntry(Trigger(".*", None, Some(["a.com"])), Action(CssDisplayNone, Some(".ad"), None, None, None));
      var exc := BlockerEntry(Trigger(".*", None, None), Action(IgnorePreviousRules, Some(".ad"), None, None, None));
      ActionExceptionsResult([entry], [exc], SELECTOR_KEY) ==
        [entry.(trigger := Trigger(".*", Some([]), Some(["a.com"])))]
  {
    var entry := BlockerEntry(Trigger(".*", None, Some(["a.com"])), Action(CssDisplayNone, Some(".ad"), None, None, None));
    var exc := BlockerEntry(Trigger(".*", None, None), Action(IgnorePreviousRules, Some(".ad"), None, None, None));
    assert [exc][..0] == [];
    assert Matching([exc], SELECTOR_KEY, ".ad") == [exc];
    assert ApplyAll(entry.trigger, [exc]) == WithException(exc.trigger, entry.trigger);
    assert Rewrite(entry, [exc], SELECTOR_KEY) == entry.(trigger := Trigger(".*", Some([]), Some(["a.com"])));
    var r := RewriteAll([entry], [exc], SELECTOR_KEY);
    assert r[0] == Rewrite(entry, [exc], SELECTOR_KEY);
    assert r[..0] == [];
    assert r == [r[0]];
  }
}
