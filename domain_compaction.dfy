/**
 * `compactDomainCssRules` and `createDomainWideEntries`: entries scoped to
 * exactly one domain are grouped by that domain, and every group of two or
 * more becomes css-display-none entries for that domain carrying the group's
 * selectors, at most 250 entries per merged entry.  Everything else passes
 * through, in input order, ahead of the groups.
 */
module DomainCompaction {
  import opened Wrappers
  import opened Lists
  import opened BlockerEntries

  /** The URL filter of the merged entries. */
  const DOMAIN_WIDE_URL_FILTER: string := ".*"

  /**
   * The domain an entry is grouped under: the single domain of its `ifDomain`
   * when present, else of its `unlessDomain`; none when the list that decides
   * holds zero or several domains, or neither is present.
   */
  function GroupKey(e: BlockerEntry): Option<string> {
    if e.trigger.ifDomain.Some? then
      (if |e.trigger.ifDomain.value| == 1 then Some(e.trigger.ifDomain.value[0]) else None)
    else if e.trigger.unlessDomain.Some? then
      (if |e.trigger.unlessDomain.value| == 1 then Some(e.trigger.unlessDomain.value[0]) else None)
    else None
  }

  /** The entries emitted unchanged by the first loop, in order. */
  function Ungrouped(xs: seq<BlockerEntry>): (r: seq<BlockerEntry>)
    ensures |r| <= |xs|
    decreases |xs|
  {
    if |xs| == 0 then []
    else
      var last := xs[|xs| - 1];
      Ungrouped(xs[..|xs| - 1]) + (if GroupKey(last).None? then [last] else [])
  }

  /** The entries grouped under domain `d`, in order: the dictionary's value for `d`. */
  function Group(xs: seq<BlockerEntry>, d: string): (r: seq<BlockerEntry>)
    ensures |r| <= |xs|
    decreases |xs|
  {
    if |xs| == 0 then []
    else
      var last := xs[|xs| - 1];
      Group(xs[..|xs| - 1], d) + (if GroupKey(last) == Some(d) then [last] else [])
  }

  /** The trigger of the merged entries for `domain`. */
  function DomainTrigger(domain: string, useUnlessDomain: bool): Trigger {
    if useUnlessDomain then Trigger(DOMAIN_WIDE_URL_FILTER, None, Some([domain]))
    else Trigger(DOMAIN_WIDE_URL_FILTER, Some([domain]), None)
  }

  /** The selectors of `xs` that are present, in order; entries without one contribute nothing. */
  function PresentSelectors(xs: seq<BlockerEntry>): (r: seq<string>)
    ensures |r| <= |xs|
    decreases |xs|
  {
    if |xs| == 0 then []
    else
      var last := xs[|xs| - 1];
      PresentSelectors(xs[..|xs| - 1]) + (if last.action.selector.Some? then [last.action.selector.value] else [])
  }

  /** One merged entry for one chunk. */
  function MergedEntry(trigger: Trigger, chunk: seq<BlockerEntry>): BlockerEntry {
    BlockerEntry(trigger, Action(CssDisplayNone, Some(Join(PresentSelectors(chunk), ", ")), None, None, None))
  }

  /** The merged entries for a sequence of chunks, in order. */
  function MergedEntries(trigger: Trigger, chunks: seq<seq<BlockerEntry>>): (r: seq<BlockerEntry>)
    ensures |r| == |chunks|
    decreases |chunks|
  {
    if |chunks| == 0 then []
    else MergedEntries(trigger, chunks[..|chunks| - 1]) + [MergedEntry(trigger, chunks[|chunks| - 1])]
  }

  /** What `createDomainWideEntries` returns. */
  function DomainWideEntries(domain: string, useUnlessDomain: bool, domainEntries: seq<BlockerEntry>): seq<BlockerEntry> {
    MergedEntries(DomainTrigger(domain, useUnlessDomain), Chunks(domainEntries, MAX_SELECTORS_PER_DOMAIN_RULE))
  }

  /** What the second loop appends for domain `d`: a group of at most one entry is kept as is. */
  function GroupOutput(xs: seq<BlockerEntry>, d: string, useUnlessDomain: bool): seq<BlockerEntry> {
    var g := Group(xs, d);
    if |g| <= 1 then g else DomainWideEntries(d, useUnlessDomain, g)
  }

  /** The group outputs for the domains of `order`, concatenated in that order. */
  function GroupedOutputs(xs: seq<BlockerEntry>, order: seq<string>, useUnlessDomain: bool): seq<BlockerEntry>
    decreases |order|
  {
    if |order| == 0 then []
    else GroupedOutputs(xs, order[..|order| - 1], useUnlessDomain) + GroupOutput(xs, order[|order| - 1], useUnlessDomain)
  }

  /** What `compactDomainCssRules` returns when it visits the grouped domains in `order`. */
  function Compacted(xs: seq<BlockerEntry>, useUnlessDomain: bool, order: seq<string>): seq<BlockerEntry> {
    Ungrouped(xs) + GroupedOutputs(xs, order, useUnlessDomain)
  }

  /** `order` visits every grouped domain of `xs` exactly once. */
  ghost predicate Enumerates(order: seq<string>, xs: seq<BlockerEntry>) {
    Distinct(order) && forall d :: d in order <==> Group(xs, d) != []
  }

  /** No domain twice. */
  predicate Distinct(order: seq<string>) {
    forall i, j :: 0 <= i < j < |order| ==> order[i] != order[j]
  }

  /** The source's procedure for one domain. */
  method CreateDomainWideEntries(domain: string, useUnlessDomain: bool, domainEntries: seq<BlockerEntry>)
    returns (result: seq<BlockerEntry>)
    ensures result == DomainWideEntries(domain, useUnlessDomain, domainEntries)
  {
    var trigger := Trigger(DOMAIN_WIDE_URL_FILTER, Some([domain]), None);
    if useUnlessDomain {
      trigger := Trigger(DOMAIN_WIDE_URL_FILTER, None, Some([domain]));
    }

    var chunked := Chunks(domainEntries, MAX_SELECTORS_PER_DOMAIN_RULE);
    result := [];
    for k := 0 to |chunked|
      invariant result == MergedEntries(trigger, chunked[..k])
    {
      var chunk := chunked[k];
      var selectors: seq<string> := [];
      for j := 0 to |chunk|
        invariant selectors == PresentSelectors(chunk[..j])
      {
        assert chunk[..j + 1][..j] == chunk[..j];
        var selector := chunk[j].action.selector;
        if selector.Some? {
          selectors := selectors + [selector.value];
        }
      }
      assert chunk[..|chunk|] == chunk;
      assert chunked[..k + 1][..k] == chunked[..k];
      result := result + [BlockerEntry(trigger, Action(CssDisplayNone, Some(Join(selectors, ", ")), None, None, None))];
    }
    assert chunked[..|chunked|] == chunked;
  }

  /** The dictionary holds, for every grouped domain of `xs`, its group. */
  ghost predicate Mirrors(dict: map<string, seq<BlockerEntry>>, xs: seq<BlockerEntry>) {
    (forall d :: d in dict <==> Group(xs, d) != []) &&
    (forall d :: d in dict ==> dict[d] == Group(xs, d))
  }

  /** The dictionary update of the first loop for one entry. */
  function Insert(dict: map<string, seq<BlockerEntry>>, e: BlockerEntry): map<string, seq<BlockerEntry>> {
    match GroupKey(e)
    case None => dict
    case Some(d) => dict[d := (if d in dict then dict[d] else []) + [e]]
  }

  /** The first loop: unchanged entries out, single-domain entries into the dictionary. */
  method GroupByDomain(entries: seq<BlockerEntry>) returns (result: seq<BlockerEntry>, domainsDictionary: map<string, seq<BlockerEntry>>)
    ensures result == Ungrouped(entries)
    ensures Mirrors(domainsDictionary, entries)
  {
    result := [];
    domainsDictionary := map[];
    for i := 0 to |entries|
      invariant result == Ungrouped(entries[..i])
      invariant Mirrors(domainsDictionary, entries[..i])
    {
      var entry := entries[i];
      assert entries[..i + 1] == entries[..i] + [entry];
      InsertMirrors(domainsDictionary, entries[..i], entry);
      ghost var before := domainsDictionary;
      var domain: Option<string> := None;
      if entry.trigger.ifDomain.Some? {
        if |entry.trigger.ifDomain.value| == 1 {
          domain := Some(entry.trigger.ifDomain.value[0]);
        } else {
          result := result + [entry];
        }
      } else if entry.trigger.unlessDomain.Some? {
        if |entry.trigger.unlessDomain.value| == 1 {
          domain := Some(entry.trigger.unlessDomain.value[0]);
        } else {
          result := result + [entry];
        }
      } else {
        result := result + [entry];
      }
      assert domain == GroupKey(entry);

      if domain.Some? {
        var current := if domain.value in domainsDictionary then domainsDictionary[domain.value] else [];
        current := current + [entry];
        domainsDictionary := domainsDictionary[domain.value := current];
      }
      assert domainsDictionary == Insert(before, entry);
    }
    assert entries[..|entries|] == entries;
  }

  /** The visit of the dictionary's keys so far: `order` visited once each, `keysLeft` still to visit. */
  ghost predicate Visiting(order: seq<string>, keysLeft: set<string>, keys: set<string>) {
    Distinct(order) && keysLeft <= keys &&
    (forall d :: d in keys ==> (d in order <==> d !in keysLeft)) &&
    (forall d :: d in order ==> d in keys)
  }

  /**
   * The source's procedure.  The dictionary's keys are visited in an order
   * the model does not fix: `order` returns the order taken, which visits
   * every grouped domain exactly once.
   */
  method CompactDomainCssRules(entries: seq<BlockerEntry>, useUnlessDomain: bool)
    returns (result: seq<BlockerEntry>, order: seq<string>)
    ensures Distinct(order)
    ensures forall d :: d in order <==> Group(entries, d) != []
    ensures result == Compacted(entries, useUnlessDomain, order)
  {
    var domainsDictionary;
    result, domainsDictionary := GroupByDomain(entries);
    order := [];
    var keysLeft := domainsDictionary.Keys;
    assert result == Ungrouped(entries) + [];
    while keysLeft != {}
      invariant Visiting(order, keysLeft, domainsDictionary.Keys)
      invariant result == Ungrouped(entries) + GroupedOutputs(entries, order, useUnlessDomain)
      decreases |keysLeft|
    {
      var domain :| domain in keysLeft;
      var domainEntries := domainsDictionary[domain];
      assert domainEntries == Group(entries, domain);
      var added: seq<BlockerEntry>;
      if |domainEntries| <= 1 {
        added := domainEntries;
      } else {
        added := CreateDomainWideEntries(domain, useUnlessDomain, domainEntries);
      }
      assert added == GroupOutput(entries, domain, useUnlessDomain);
      GroupedOutputsSnoc(entries, order, domain, useUnlessDomain);
      VisitStep(order, keysLeft, domainsDictionary.Keys, domain);
      ghost var grouped := GroupedOutputs(entries, order, useUnlessDomain);
      AppendAssoc(Ungrouped(entries), grouped, added);
      result := result + added;
      keysLeft := keysLeft - {domain};
      order := order + [domain];
    }
    VisitDone(order, domainsDictionary, entries);
  }

  /** One more entry keeps the dictionary in step with the entries read. */
  lemma InsertMirrors(dict: map<string, seq<BlockerEntry>>, xs: seq<BlockerEntry>, e: BlockerEntry)
    requires Mirrors(dict, xs)
    ensures Mirrors(Insert(dict, e), xs + [e])
    ensures Ungrouped(xs + [e]) == Ungrouped(xs) + (if GroupKey(e).None? then [e] else [])
  {
    assert (xs + [e])[..|xs|] == xs;
    var dict' := Insert(dict, e);
    forall d
      ensures (d in dict' <==> Group(xs + [e], d) != []) && (d in dict' ==> dict'[d] == Group(xs + [e], d))
    {
      GroupSnoc(xs, e, d);
      if GroupKey(e) == Some(d) {
        assert dict'[d] == (if d in dict then dict[d] else []) + [e];
      } else {
        assert d in dict' <==> d in dict;
        assert Group(xs + [e], d) == Group(xs, d) + [];
      }
    }
  }

  /** Visiting one more key. */
  lemma VisitStep(order: seq<string>, keysLeft: set<string>, keys: set<string>, d: string)
    requires Visiting(order, keysLeft, keys) && d in keysLeft
    ensures Visiting(order + [d], keysLeft - {d}, keys)
    ensures |keysLeft - {d}| < |keysLeft|
  {
  }

  /** With no key left, every grouped domain has been visited once. */
  lemma VisitDone(order: seq<string>, dict: map<string, seq<BlockerEntry>>, xs: seq<BlockerEntry>)
    requires Visiting(order, {}, dict.Keys) && Mirrors(dict, xs)
    ensures Distinct(order)
    ensures forall d :: d in order <==> Group(xs, d) != []
  {
  }

  /** A group after one more entry. */
  lemma GroupSnoc(xs: seq<BlockerEntry>, e: BlockerEntry, d: string)
    ensures Group(xs + [e], d) == Group(xs, d) + (if GroupKey(e) == Some(d) then [e] else [])
  {
    assert (xs + [e])[..|xs|] == xs;
  }

  /** Regrouping an append; kept as a lemma so the loop's proof stays small. */
  lemma AppendAssoc(a: seq<BlockerEntry>, b: seq<BlockerEntry>, c: seq<BlockerEntry>)
    ensures (a + b) + c == a + (b + c)
  {
  }

  /** One more domain visited. */
  lemma GroupedOutputsSnoc(xs: seq<BlockerEntry>, order: seq<string>, d: string, useUnlessDomain: bool)
    ensures GroupedOutputs(xs, order + [d], useUnlessDomain) ==
      GroupedOutputs(xs, order, useUnlessDomain) + GroupOutput(xs, d, useUnlessDomain)
  {
    assert (order + [d])[..|order|] == order;
  }

  // ---------------------------------------------------------------------------
  // Properties
  // ---------------------------------------------------------------------------

  /** The unchanged entries are exactly those without a group. */
  lemma {:induction false} UngroupedMembers(xs: seq<BlockerEntry>, e: BlockerEntry)
    ensures e in Ungrouped(xs) <==> e in xs && GroupKey(e).None?
    decreases |xs|
  {
    if |xs| > 0 {
      UngroupedMembers(xs[..|xs| - 1], e);
      assert xs == xs[..|xs| - 1] + [xs[|xs| - 1]];
    }
  }

  /** A group holds exactly the input entries keyed by its domain. */
  lemma {:induction false} GroupMembers(xs: seq<BlockerEntry>, d: string, e: BlockerEntry)
    ensures e in Group(xs, d) <==> e in xs && GroupKey(e) == Some(d)
    decreases |xs|
  {
    if |xs| > 0 {
      GroupMembers(xs[..|xs| - 1], d, e);
      assert xs == xs[..|xs| - 1] + [xs[|xs| - 1]];
    }
  }

  /** Every input entry is either passed through unchanged or in the (non-empty) group of its domain. */
  lemma {:induction false} EveryEntryPlaced(xs: seq<BlockerEntry>, e: BlockerEntry)
    requires e in xs
    ensures GroupKey(e).None? ==> e in Ungrouped(xs)
    ensures GroupKey(e).Some? ==> e in Group(xs, GroupKey(e).value) && Group(xs, GroupKey(e).value) != []
  {
    UngroupedMembers(xs, e);
    if GroupKey(e).Some? {
      GroupMembers(xs, GroupKey(e).value, e);
    }
  }

  /** What the output of a visited domain holds, the group outputs hold. */
  lemma {:induction false} GroupedOutputsHas(xs: seq<BlockerEntry>, order: seq<string>, useUnlessDomain: bool, e: BlockerEntry, d: string)
    requires d in order && e in GroupOutput(xs, d, useUnlessDomain)
    ensures e in GroupedOutputs(xs, order, useUnlessDomain)
    decreases |order|
  {
    var front, last := order[..|order| - 1], order[|order| - 1];
    assert order == front + [last];
    if d != last {
      GroupedOutputsHas(xs, front, useUnlessDomain, e, d);
    }
  }

  /** Everything in the group outputs comes from the output of some visited domain. */
  lemma {:induction false} GroupedOutputsFrom(xs: seq<BlockerEntry>, order: seq<string>, useUnlessDomain: bool, e: BlockerEntry)
    returns (d: string)
    requires e in GroupedOutputs(xs, order, useUnlessDomain)
    ensures d in order && e in GroupOutput(xs, d, useUnlessDomain)
    decreases |order|
  {
    var front, last := order[..|order| - 1], order[|order| - 1];
    assert order == front + [last];
    if e in GroupOutput(xs, last, useUnlessDomain) {
      d := last;
    } else {
      d := GroupedOutputsFrom(xs, front, useUnlessDomain, e);
    }
  }

  /**
   * What the output holds, whatever the visit order: the entries without a
   * group, unchanged; the entry of each visited single-entry group,
   * unchanged; and for each visited group of two or more, its merged entries.
   */
  lemma CompactedMembers(xs: seq<BlockerEntry>, useUnlessDomain: bool, order: seq<string>, e: BlockerEntry)
    ensures e in Compacted(xs, useUnlessDomain, order) <==>
      (e in xs && GroupKey(e).None?) ||
      (e in xs && GroupKey(e).Some? && GroupKey(e).value in order && |Group(xs, GroupKey(e).value)| == 1) ||
      (exists d :: d in order && |Group(xs, d)| > 1 && e in DomainWideEntries(d, useUnlessDomain, Group(xs, d)))
  {
    UngroupedMembers(xs, e);
    if GroupKey(e).Some? {
      var k := GroupKey(e).value;
      GroupMembers(xs, k, e);
      if e in xs && k in order && |Group(xs, k)| == 1 {
        GroupedOutputsHas(xs, order, useUnlessDomain, e, k);
      }
    }
    if e in Compacted(xs, useUnlessDomain, order) && e !in Ungrouped(xs) {
      var d := GroupedOutputsFrom(xs, order, useUnlessDomain, e);
      if |Group(xs, d)| <= 1 {
        GroupMembers(xs, d, e);
      }
    }
    forall d | d in order && |Group(xs, d)| > 1 && e in DomainWideEntries(d, useUnlessDomain, Group(xs, d))
      ensures e in Compacted(xs, useUnlessDomain, order)
    {
      GroupedOutputsHas(xs, order, useUnlessDomain, e, d);
    }
  }


  /**
   * Every merged entry is a css-display-none entry on `.*` scoped to the
   * domain (by `unlessDomain` when asked), carrying the present selectors of
   * its chunk; the chunks are at most 250 entries, cover the group in order,
   * and there are ceil(n / 250) of them.
   */
  lemma DomainWideShape(domain: string, useUnlessDomain: bool, es: seq<BlockerEntry>)
    requires |es| > 0
    ensures var r := DomainWideEntries(domain, useUnlessDomain, es);
      var cs := Chunks(es, MAX_SELECTORS_PER_DOMAIN_RULE);
      var k := |r|;
      k == |cs| && Flatten(cs) == es &&
      (k - 1) * MAX_SELECTORS_PER_DOMAIN_RULE < |es| <= k * MAX_SELECTORS_PER_DOMAIN_RULE &&
      forall i :: 0 <= i < k ==>
        0 < |cs[i]| <= MAX_SELECTORS_PER_DOMAIN_RULE &&
        r[i].trigger.urlFilter == DOMAIN_WIDE_URL_FILTER &&
        (if useUnlessDomain then r[i].trigger.ifDomain.None? && r[i].trigger.unlessDomain == Some([domain])
         else r[i].trigger.ifDomain == Some([domain]) && r[i].trigger.unlessDomain.None?) &&
        r[i].action == Action(CssDisplayNone, Some(Join(PresentSelectors(cs[i]), ", ")), None, None, None)
  {
    var cs := Chunks(es, MAX_SELECTORS_PER_DOMAIN_RULE);
    ChunksShape(es, MAX_SELECTORS_PER_DOMAIN_RULE);
    ChunksCount(es, MAX_SELECTORS_PER_DOMAIN_RULE);
    MergedEntriesAt(DomainTrigger(domain, useUnlessDomain), cs);
  }

  /** The merged entry at each position is made from the chunk at that position. */
  lemma {:induction false} MergedEntriesAt(trigger: Trigger, chunks: seq<seq<BlockerEntry>>)
    ensures forall i :: 0 <= i < |chunks| ==> MergedEntries(trigger, chunks)[i] == MergedEntry(trigger, chunks[i])
    decreases |chunks|
  {
    if |chunks| > 0 {
      MergedEntriesAt(trigger, chunks[..|chunks| - 1]);
    }
  }

  /** A group of 300 entries becomes two merged entries, of the first 250 and of the last 50. */
  lemma ThreeHundredEntries(xs: seq<BlockerEntry>, d: string)
    requires |Group(xs, d)| == 300
    ensures var g := Group(xs, d);
      GroupOutput(xs, d, false) == [
        MergedEntry(DomainTrigger(d, false), g[..250]),
        MergedEntry(DomainTrigger(d, false), g[250..])]
  {
    var g := Group(xs, d);
    ChunksOfThreeHundred(g);
    MergedPair(DomainTrigger(d, false), g[..250], g[250..]);
  }

  /** 300 elements cut into chunks of 250. */
  lemma ChunksOfThreeHundred<T>(g: seq<T>)
    requires |g| == 300
    ensures Chunks(g, 250) == [g[..250], g[250..]]
  {
    assert Chunks(g[250..], 250) == [g[250..]];
  }

  /** Two chunks give two merged entries. */
  lemma MergedPair(trigger: Trigger, a: seq<BlockerEntry>, b: seq<BlockerEntry>)
    ensures MergedEntries(trigger, [a, b]) == [MergedEntry(trigger, a), MergedEntry(trigger, b)]
  {
    assert [a, b][..1] == [a];
  }

  /**
   * Merging reads only selectors: a chunk none of whose entries has a
   * selector becomes an entry with the empty selector.
   */
  lemma MergedEntryDropsOtherPayloads(trigger: Trigger, chunk: seq<BlockerEntry>)
    requires forall i :: 0 <= i < |chunk| ==> chunk[i].action.selector.None?
    ensures MergedEntry(trigger, chunk).action.selector == Some("")
  {
    PresentSelectorsNone(chunk);
  }

  lemma {:induction false} PresentSelectorsNone(xs: seq<BlockerEntry>)
    requires forall i :: 0 <= i < |xs| ==> xs[i].action.selector.None?
    ensures PresentSelectors(xs) == []
    decreases |xs|
  {
    if |xs| > 0 {
      PresentSelectorsNone(xs[..|xs| - 1]);
    }
  }
}
