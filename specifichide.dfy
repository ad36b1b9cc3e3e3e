/**
 * `applySpecifichide`: the domains collected from `$specifichide` rules are
 * removed from the `ifDomain` of every entry of a bucket, and the entries
 * left with an empty `ifDomain` are dropped.  Matching is by exact string.
 */
module Specifichide {
  import opened Wrappers
  import opened Lists
  import opened BlockerEntries

  /** A trigger without the excluded domains in its `ifDomain`; a trigger without one is unchanged. */
  function Strip(t: Trigger, exceptions: seq<string>): Trigger {
    if t.ifDomain.Some? then t.(ifDomain := Some(Without(t.ifDomain.value, exceptions))) else t
  }

  /** The bucket after the rewrite, entry by entry. */
  function StripAll(items: seq<BlockerEntry>, exceptions: seq<string>): seq<BlockerEntry> {
    seq(|items|, i requires 0 <= i < |items| => items[i].(trigger := Strip(items[i].trigger, exceptions)))
  }

  /** The entries whose `ifDomain` is not exactly empty, in order. */
  function WithoutEmptyIfDomain(xs: seq<BlockerEntry>): (r: seq<BlockerEntry>)
    ensures |r| <= |xs|
    decreases |xs|
  {
    if |xs| == 0 then []
    else
      var last := xs[|xs| - 1];
      WithoutEmptyIfDomain(xs[..|xs| - 1]) + (if last.trigger.ifDomain == Some([]) then [] else [last])
  }

  /**
   * The source's procedure.  `rewritten` is the final value of the `inout`
   * bucket, `result` the returned copy.
   */
  method ApplySpecifichide(blockingItems: seq<BlockerEntry>, specifichideExceptions: seq<string>)
    returns (result: seq<BlockerEntry>, rewritten: seq<BlockerEntry>)
    ensures rewritten == StripAll(blockingItems, specifichideExceptions)
    ensures result == WithoutEmptyIfDomain(rewritten)
  {
    rewritten := blockingItems;
    for index := 0 to |blockingItems|
      invariant |rewritten| == |blockingItems|
      invariant forall k :: 0 <= k < index ==>
        rewritten[k] == blockingItems[k].(trigger := Strip(blockingItems[k].trigger, specifichideExceptions))
      invariant forall k :: index <= k < |blockingItems| ==> rewritten[k] == blockingItems[k]
    {
      var item := rewritten[index];
      if item.trigger.ifDomain.Some? {
        WithoutNothing(item.trigger.ifDomain.value);
      }
      for m := 0 to |specifichideExceptions|
        invariant item == blockingItems[index].(trigger := Strip(blockingItems[index].trigger, specifichideExceptions[..m]))
      {
        var exception := specifichideExceptions[m];
        assert specifichideExceptions[..m + 1] == specifichideExceptions[..m] + [exception];
        // The source's guard `ifDomain?.contains(exception) != nil` holds exactly when `ifDomain` is present.
        if item.trigger.ifDomain.Some? {
          WithoutSnoc(blockingItems[index].trigger.ifDomain.value, specifichideExceptions[..m], exception);
          item := item.(trigger := item.trigger.(ifDomain := Some(Without(item.trigger.ifDomain.value, [exception]))));
        }
      }
      assert specifichideExceptions[..|specifichideExceptions|] == specifichideExceptions;
      rewritten := rewritten[index := rewritten[index].(trigger := item.trigger)];
    }

    result := [];
    for k := 0 to |rewritten|
      invariant result == WithoutEmptyIfDomain(rewritten[..k])
    {
      var r := rewritten[k];
      assert rewritten[..k + 1][..k] == rewritten[..k];
      if r.trigger.ifDomain == Some([]) {
        continue;
      }
      result := result + [r];
    }
    assert rewritten[..|rewritten|] == rewritten;
  }

  // ---------------------------------------------------------------------------
  // Properties
  // ---------------------------------------------------------------------------

  /** What is left: the rewritten entries whose `ifDomain` is not exactly empty. */
  lemma {:induction false} ResultMembers(xs: seq<BlockerEntry>, e: BlockerEntry)
    ensures e in WithoutEmptyIfDomain(xs) <==> e in xs && e.trigger.ifDomain != Some([])
    decreases |xs|
  {
    if |xs| > 0 {
      ResultMembers(xs[..|xs| - 1], e);
      assert xs == xs[..|xs| - 1] + [xs[|xs| - 1]];
    }
  }

  /**
   * Afterwards no present `ifDomain` holds an excluded string, entries without
   * an `ifDomain` are unchanged, and only triggers change.
   */
  lemma StripRemovesExcluded(items: seq<BlockerEntry>, exceptions: seq<string>)
    ensures var r := StripAll(items, exceptions);
      |r| == |items| &&
      forall i :: 0 <= i < |r| ==>
        r[i].action == items[i].action &&
        (items[i].trigger.ifDomain.None? ==> r[i] == items[i]) &&
        (r[i].trigger.ifDomain.Some? ==> forall x :: x in exceptions ==> x !in r[i].trigger.ifDomain.value)
  {
    var r := StripAll(items, exceptions);
    forall i, x | 0 <= i < |r| && r[i].trigger.ifDomain.Some? && x in exceptions
      ensures x !in r[i].trigger.ifDomain.value
    {
      WithoutMembers(items[i].trigger.ifDomain.value, exceptions, x);
    }
  }

  /** The domains that remain are exactly the ones not excluded. */
  lemma StripKeepsOthers(t: Trigger, exceptions: seq<string>, d: string)
    requires t.ifDomain.Some?
    ensures d in Strip(t, exceptions).ifDomain.value <==> d in t.ifDomain.value && d !in exceptions
  {
    WithoutMembers(t.ifDomain.value, exceptions, d);
  }

  /** The whole pass: every surviving entry is free of the excluded domains and keeps a non-empty or absent `ifDomain`. */
  lemma SpecifichideResult(items: seq<BlockerEntry>, exceptions: seq<string>, e: BlockerEntry)
    requires e in WithoutEmptyIfDomain(StripAll(items, exceptions))
    ensures e.trigger.ifDomain != Some([])
    ensures e.trigger.ifDomain.Some? ==> forall x :: x in exceptions ==> x !in e.trigger.ifDomain.value
  {
    ResultMembers(StripAll(items, exceptions), e);
    StripRemovesExcluded(items, exceptions);
  }

  /** An entry limited to `*only.com` is removed by the specifichide domain `*only.com`. */
  lemma OnlyDomainRemoved()
    ensures var e := BlockerEntry(Trigger(".*", Some(["*only.com"]), None), Action(CssDisplayNone, Some(".ad"), None, None, None));
      WithoutEmptyIfDomain(StripAll([e], ["*only.com"])) == []
  {
    var e := BlockerEntry(Trigger(".*", Some(["*only.com"]), None), Action(CssDisplayNone, Some(".ad"), None, None, None));
    var ds: seq<string> := ["*only.com"];
    assert ds[1..] == [];
    assert Without(ds, ds) == [];
    var r := StripAll([e], ds);
    assert r[0].trigger.ifDomain == Some([]);
    assert r[..0] == [];
  }

  /** Matching is literal: `*only.com` does not remove `only.com`. */
  lemma MatchingIsLiteral()
    ensures var e := BlockerEntry(Trigger(".*", Some(["only.com"]), None), Action(CssDisplayNone, Some(".ad"), None, None, None));
      WithoutEmptyIfDomain(StripAll([e], ["*only.com"])) == [e]
  {
    var e := BlockerEntry(Trigger(".*", Some(["only.com"]), None), Action(CssDisplayNone, Some(".ad"), None, None, None));
    var ds: seq<string> := ["only.com"];
    assert "only.com" != "*only.com" by {
      assert "only.com"[0] != "*only.com"[0];
    }
    assert ds[1..] == [];
    assert Without(ds, ["*only.com"]) == ds;
    var r := StripAll([e], ["*only.com"]);
    assert r[0] == e;
    assert r[..0] == [];
    assert r == [r[0]];
  }
}
