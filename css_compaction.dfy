/**
 * `compactCssRules`: a css bucket is split into domain-restricted entries,
 * entries restricted only by `unlessDomain`, and generic ones; the generic
 * entries whose trigger is the catch-all cosmetic URL filter are folded into
 * wide entries of at most 250 selectors, the other generic entries pass
 * through.  The catch-all filter (`URL_FILTER_COSMETIC_RULES`, defined by the
 * entry factory) is the parameter `cosmeticFilter`.
 */
module CssCompaction {
  import opened Wrappers
  import opened Lists
  import opened BlockerEntries

  /** How selectors of a merged entry are joined. */
  const SELECTOR_SEPARATOR: string := ", "

  /**
   * `createWideRule`: one css-display-none entry for the catch-all filter, with
   * no domain list, whose only payload is the selectors joined by ", ".
   */
  function CreateWideRule(wideSelectors: seq<string>, cosmeticFilter: string): (r: BlockerEntry)
    ensures r.trigger.urlFilter == cosmeticFilter
    ensures r.trigger.ifDomain.None? && r.trigger.unlessDomain.None?
    ensures r.action.kind == CssDisplayNone && r.action.selector.Some?
    ensures r.action.css.None? && r.action.script.None? && r.action.scriptlet.None?
    ensures |wideSelectors| == 1 ==> r.action.selector == Some(wideSelectors[0])
  {
    BlockerEntry(
      Trigger(cosmeticFilter, None, None),
      Action(CssDisplayNone, Some(Join(wideSelectors, SELECTOR_SEPARATOR)), None, None, None))
  }

  /** The wide entry's selector starts with the first selector merged and ends with the last. */
  lemma WideRuleSelectors(wideSelectors: seq<string>, cosmeticFilter: string)
    requires |wideSelectors| > 0
    ensures var sel := CreateWideRule(wideSelectors, cosmeticFilter).action.selector.value;
      |sel| >= |wideSelectors[0]| && sel[..|wideSelectors[0]|] == wideSelectors[0] &&
      |sel| >= |wideSelectors[|wideSelectors| - 1]| &&
      sel[|sel| - |wideSelectors[|wideSelectors| - 1]|..] == wideSelectors[|wideSelectors| - 1]
  {
    JoinEnds(wideSelectors, SELECTOR_SEPARATOR);
  }

  datatype CompactCssRulesData = CompactCssRulesData(
    cssBlockingWide: seq<BlockerEntry>,
    cssBlockingDomainSensitive: seq<BlockerEntry>,
    cssBlockingGenericDomainSensitive: seq<BlockerEntry>)

  /** Where the partition of Compiler.swift:369-381 sends an entry. */
  datatype Route = DomainSensitive | GenericDomainSensitive | Fold | PassThrough

  function RouteOf(e: BlockerEntry, cosmeticFilter: string): Route {
    if e.trigger.ifDomain.Some? then DomainSensitive
    else if e.trigger.unlessDomain.Some? then GenericDomainSensitive
    else if e.action.selector.Some? && e.trigger.urlFilter == cosmeticFilter then Fold
    else PassThrough
  }

  /** The entries of `xs` on `route`, in order. */
  function OnRoute(xs: seq<BlockerEntry>, route: Route, cosmeticFilter: string): (r: seq<BlockerEntry>)
    ensures |r| <= |xs|
    decreases |xs|
  {
    if |xs| == 0 then []
    else
      var last := xs[|xs| - 1];
      OnRoute(xs[..|xs| - 1], route, cosmeticFilter) + (if RouteOf(last, cosmeticFilter) == route then [last] else [])
  }

  /** The selectors of `xs`, in order (every folded entry has one). */
  function Selectors(xs: seq<BlockerEntry>): (r: seq<string>)
    ensures |r| == |xs|
    decreases |xs|
  {
    if |xs| == 0 then [] else Selectors(xs[..|xs| - 1]) + [xs[|xs| - 1].action.selector.GetOr("")]
  }

  /** The state of the source's loop after `xs`: the wide list so far and the pending selectors. */
  function WideFold(xs: seq<BlockerEntry>, cosmeticFilter: string): (seq<BlockerEntry>, seq<string>)
    decreases |xs|
  {
    if |xs| == 0 then ([], [])
    else
      var (wide, pending) := WideFold(xs[..|xs| - 1], cosmeticFilter);
      var e := xs[|xs| - 1];
      match RouteOf(e, cosmeticFilter)
      case Fold =>
        var p := pending + [e.action.selector.value];
        if |p| >= MAX_SELECTORS_PER_WIDE_RULE then (wide + [CreateWideRule(p, cosmeticFilter)], []) else (wide, p)
      case PassThrough => (wide + [e], pending)
      case _ => (wide, pending)
  }

  /** The wide list, with the last partial accumulator flushed. */
  function WideOutput(xs: seq<BlockerEntry>, cosmeticFilter: string): seq<BlockerEntry> {
    var (wide, pending) := WideFold(xs, cosmeticFilter);
    wide + (if |pending| > 0 then [CreateWideRule(pending, cosmeticFilter)] else [])
  }

  /** What `compactCssRules` returns. */
  function CompactCss(xs: seq<BlockerEntry>, cosmeticFilter: string): CompactCssRulesData {
    CompactCssRulesData(
      WideOutput(xs, cosmeticFilter),
      OnRoute(xs, DomainSensitive, cosmeticFilter),
      OnRoute(xs, GenericDomainSensitive, cosmeticFilter))
  }

  /** The source's procedure. */
  method CompactCssRules(cssBlocking: seq<BlockerEntry>, cosmeticFilter: string) returns (r: CompactCssRulesData)
    ensures r == CompactCss(cssBlocking, cosmeticFilter)
  {
    var cssBlockingWide: seq<BlockerEntry> := [];
    var cssBlockingDomainSensitive: seq<BlockerEntry> := [];
    var cssBlockingGenericDomainSensitive: seq<BlockerEntry> := [];
    var wideSelectors: seq<string> := [];

    for i := 0 to |cssBlocking|
      invariant (cssBlockingWide, wideSelectors) == WideFold(cssBlocking[..i], cosmeticFilter)
      invariant cssBlockingDomainSensitive == OnRoute(cssBlocking[..i], DomainSensitive, cosmeticFilter)
      invariant cssBlockingGenericDomainSensitive == OnRoute(cssBlocking[..i], GenericDomainSensitive, cosmeticFilter)
    {
      var entry := cssBlocking[i];
      assert cssBlocking[..i + 1][..i] == cssBlocking[..i];
      if entry.trigger.ifDomain.Some? {
        cssBlockingDomainSensitive := cssBlockingDomainSensitive + [entry];
      } else if entry.trigger.unlessDomain.Some? {
        cssBlockingGenericDomainSensitive := cssBlockingGenericDomainSensitive + [entry];
      } else if entry.action.selector.Some? && entry.trigger.urlFilter == cosmeticFilter {
        wideSelectors := wideSelectors + [entry.action.selector.value];
        if |wideSelectors| >= MAX_SELECTORS_PER_WIDE_RULE {
          cssBlockingWide := cssBlockingWide + [CreateWideRule(wideSelectors, cosmeticFilter)];
          wideSelectors := [];
        }
      } else {
        cssBlockingWide := cssBlockingWide + [entry];
      }
    }
    assert cssBlocking[..|cssBlocking|] == cssBlocking;

    if |wideSelectors| > 0 {
      cssBlockingWide := cssBlockingWide + [CreateWideRule(wideSelectors, cosmeticFilter)];
    }
    r := CompactCssRulesData(cssBlockingWide, cssBlockingDomainSensitive, cssBlockingGenericDomainSensitive);
  }

  // ---------------------------------------------------------------------------
  // The wide list characterised by chunks
  // ---------------------------------------------------------------------------

  /** The wide entries made from each chunk of selectors, in order. */
  function WideRules(chunks: seq<seq<string>>, cosmeticFilter: string): (r: seq<BlockerEntry>)
    ensures |r| == |chunks|
    decreases |chunks|
  {
    if |chunks| == 0 then []
    else WideRules(chunks[..|chunks| - 1], cosmeticFilter) + [CreateWideRule(chunks[|chunks| - 1], cosmeticFilter)]
  }

  /** Routing a sequence extended by one entry. */
  lemma OnRouteSnoc(xs: seq<BlockerEntry>, e: BlockerEntry, route: Route, cosmeticFilter: string)
    ensures OnRoute(xs + [e], route, cosmeticFilter) ==
      OnRoute(xs, route, cosmeticFilter) + (if RouteOf(e, cosmeticFilter) == route then [e] else [])
  {
    assert (xs + [e])[..|xs|] == xs;
  }

  /** The selectors of the entries on the folding route. */
  function Folded(xs: seq<BlockerEntry>, cosmeticFilter: string): seq<string> {
    Selectors(OnRoute(xs, Fold, cosmeticFilter))
  }

  /** The selectors already flushed into wide entries after `xs` (the pending ones excluded). */
  function Emitted(xs: seq<BlockerEntry>, cosmeticFilter: string): seq<string>
    decreases |xs|
  {
    if |xs| == 0 then []
    else
      var init := xs[..|xs| - 1];
      var e := xs[|xs| - 1];
      var pending := WideFold(init, cosmeticFilter).1;
      if RouteOf(e, cosmeticFilter) == Fold && |pending| + 1 >= MAX_SELECTORS_PER_WIDE_RULE
      then Emitted(init, cosmeticFilter) + (pending + [e.action.selector.value])
      else Emitted(init, cosmeticFilter)
  }

  /** The folded selectors after one more entry. */
  lemma FoldedSnoc(xs: seq<BlockerEntry>, cosmeticFilter: string)
    requires |xs| > 0
    ensures var e := xs[|xs| - 1];
      Folded(xs, cosmeticFilter) == Folded(xs[..|xs| - 1], cosmeticFilter) +
        (if RouteOf(e, cosmeticFilter) == Fold then [e.action.selector.value] else [])
  {
    var init := xs[..|xs| - 1];
    var e := xs[|xs| - 1];
    assert xs == init + [e];
    OnRouteSnoc(init, e, Fold, cosmeticFilter);
    var folded := OnRoute(init, Fold, cosmeticFilter);
    if RouteOf(e, cosmeticFilter) == Fold {
      assert (folded + [e])[..|folded|] == folded;
      assert Selectors(folded + [e]) == Selectors(folded) + [e.action.selector.value];
    } else {
      assert folded + [] == folded;
    }
  }

  /** The domain and pass-through routes of the wide list: only generic entries, the pass-through ones in order. */
  lemma {:induction false} WideFoldRoutes(xs: seq<BlockerEntry>, cosmeticFilter: string)
    ensures var wide := WideFold(xs, cosmeticFilter).0;
      OnRoute(wide, PassThrough, cosmeticFilter) == OnRoute(xs, PassThrough, cosmeticFilter) &&
      OnRoute(wide, DomainSensitive, cosmeticFilter) == [] &&
      OnRoute(wide, GenericDomainSensitive, cosmeticFilter) == []
    decreases |xs|
  {
    if |xs| > 0 {
      var init := xs[..|xs| - 1];
      var e := xs[|xs| - 1];
      assert xs == init + [e];
      WideFoldRoutes(init, cosmeticFilter);
      OnRouteSnoc(init, e, PassThrough, cosmeticFilter);
      var wide := WideFold(init, cosmeticFilter).0;
      var pending := WideFold(init, cosmeticFilter).1;
      var added := WideFold(xs, cosmeticFilter).0[|wide|..];
      assert WideFold(xs, cosmeticFilter).0 == wide + added;
      if RouteOf(e, cosmeticFilter) == Fold && |pending| + 1 >= MAX_SELECTORS_PER_WIDE_RULE {
        assert RouteOf(added[0], cosmeticFilter) == Fold;
      }
      if added != [] {
        assert |added| == 1;
        assert added == [added[0]];
        OnRouteSnoc(wide, added[0], PassThrough, cosmeticFilter);
        OnRouteSnoc(wide, added[0], DomainSensitive, cosmeticFilter);
        OnRouteSnoc(wide, added[0], GenericDomainSensitive, cosmeticFilter);
      } else {
        assert wide + added == wide;
      }
    }
  }

  /** One more foldable selector: either it waits, or it completes a chunk that is flushed. */
  lemma FoldStep(done: seq<string>, pending: seq<string>, s: string, folded: seq<BlockerEntry>, cosmeticFilter: string)
    requires |pending| < MAX_SELECTORS_PER_WIDE_RULE && FullChunks(done, MAX_SELECTORS_PER_WIDE_RULE)
    requires folded == WideRules(Chunks(done, MAX_SELECTORS_PER_WIDE_RULE), cosmeticFilter)
    ensures var p := pending + [s];
      |p| >= MAX_SELECTORS_PER_WIDE_RULE ==>
        FullChunks(done + p, MAX_SELECTORS_PER_WIDE_RULE) &&
        folded + [CreateWideRule(p, cosmeticFilter)] == WideRules(Chunks(done + p, MAX_SELECTORS_PER_WIDE_RULE), cosmeticFilter)
  {
    var n := MAX_SELECTORS_PER_WIDE_RULE;
    var p := pending + [s];
    if |p| >= n {
      FullChunksAppend(done, p, n);
      ChunksAppendLast(done, p, n);
      var cs := Chunks(done, n);
      assert (cs + [p])[..|cs|] == cs;
    }
  }

  /**
   * The invariant of the loop after `xs`: the folded selectors are the flushed
   * ones followed by fewer than 250 pending ones, the flushed ones are whole
   * chunks of 250, and each flushed chunk is one wide entry, in order.
   */
  predicate FoldInvariant(xs: seq<BlockerEntry>, cosmeticFilter: string) {
    var (wide, pending) := WideFold(xs, cosmeticFilter);
    var done := Emitted(xs, cosmeticFilter);
    Folded(xs, cosmeticFilter) == done + pending &&
    |pending| < MAX_SELECTORS_PER_WIDE_RULE &&
    FullChunks(done, MAX_SELECTORS_PER_WIDE_RULE) &&
    OnRoute(wide, Fold, cosmeticFilter) == WideRules(Chunks(done, MAX_SELECTORS_PER_WIDE_RULE), cosmeticFilter)
  }

  /** A foldable entry that completes a chunk: the chunk is flushed as one wide entry. */
  lemma FoldFlushes(xs: seq<BlockerEntry>, cosmeticFilter: string)
    requires |xs| > 0 && FoldInvariant(xs[..|xs| - 1], cosmeticFilter)
    requires var e := xs[|xs| - 1];
      RouteOf(e, cosmeticFilter) == Fold &&
      |WideFold(xs[..|xs| - 1], cosmeticFilter).1| + 1 >= MAX_SELECTORS_PER_WIDE_RULE
    ensures FoldInvariant(xs, cosmeticFilter)
  {
    var init := xs[..|xs| - 1];
    var e := xs[|xs| - 1];
    FoldedSnoc(xs, cosmeticFilter);
    var (wide, pending) := WideFold(init, cosmeticFilter);
    var done := Emitted(init, cosmeticFilter);
    var s := e.action.selector.value;
    FoldStep(done, pending, s, OnRoute(wide, Fold, cosmeticFilter), cosmeticFilter);
    var w := CreateWideRule(pending + [s], cosmeticFilter);
    assert WideFold(xs, cosmeticFilter) == (wide + [w], []);
    assert Emitted(xs, cosmeticFilter) == done + (pending + [s]);
    OnRouteSnoc(wide, w, Fold, cosmeticFilter);
    assert done + pending + [s] == done + (pending + [s]) + [];
  }

  /** A foldable entry that does not complete a chunk: its selector waits. */
  lemma FoldWaits(xs: seq<BlockerEntry>, cosmeticFilter: string)
    requires |xs| > 0 && FoldInvariant(xs[..|xs| - 1], cosmeticFilter)
    requires var e := xs[|xs| - 1];
      RouteOf(e, cosmeticFilter) == Fold &&
      |WideFold(xs[..|xs| - 1], cosmeticFilter).1| + 1 < MAX_SELECTORS_PER_WIDE_RULE
    ensures FoldInvariant(xs, cosmeticFilter)
  {
    var init := xs[..|xs| - 1];
    var e := xs[|xs| - 1];
    FoldedSnoc(xs, cosmeticFilter);
    var (wide, pending) := WideFold(init, cosmeticFilter);
    var done := Emitted(init, cosmeticFilter);
    var s := e.action.selector.value;
    assert WideFold(xs, cosmeticFilter) == (wide, pending + [s]);
    assert Emitted(xs, cosmeticFilter) == done;
    assert done + pending + [s] == done + (pending + [s]);
  }

  /** An entry that is not folded leaves the folded selectors and the folded wide entries alone. */
  lemma FoldSkips(xs: seq<BlockerEntry>, cosmeticFilter: string)
    requires |xs| > 0 && FoldInvariant(xs[..|xs| - 1], cosmeticFilter)
    requires RouteOf(xs[|xs| - 1], cosmeticFilter) != Fold
    ensures FoldInvariant(xs, cosmeticFilter)
  {
    var init := xs[..|xs| - 1];
    var e := xs[|xs| - 1];
    FoldedSnoc(xs, cosmeticFilter);
    var (wide, pending) := WideFold(init, cosmeticFilter);
    assert Folded(xs, cosmeticFilter) == Folded(init, cosmeticFilter);
    assert Emitted(xs, cosmeticFilter) == Emitted(init, cosmeticFilter);
    if RouteOf(e, cosmeticFilter) == PassThrough {
      assert WideFold(xs, cosmeticFilter) == (wide + [e], pending);
      OnRouteSnoc(wide, e, Fold, cosmeticFilter);
    } else {
      assert WideFold(xs, cosmeticFilter) == (wide, pending);
    }
  }

  /**
   * The loop keeps its invariant: the folded selectors are the flushed ones
   * followed by fewer than 250 pending ones, the flushed ones are whole chunks
   * of 250, and each flushed chunk is one wide entry, in order.
   */
  lemma {:induction false} WideFoldChunks(xs: seq<BlockerEntry>, cosmeticFilter: string)
    ensures var (wide, pending) := WideFold(xs, cosmeticFilter);
      var done := Emitted(xs, cosmeticFilter);
      Folded(xs, cosmeticFilter) == done + pending &&
      |pending| < MAX_SELECTORS_PER_WIDE_RULE &&
      FullChunks(done, MAX_SELECTORS_PER_WIDE_RULE) &&
      OnRoute(wide, Fold, cosmeticFilter) == WideRules(Chunks(done, MAX_SELECTORS_PER_WIDE_RULE), cosmeticFilter)
    decreases |xs|
  {
    if |xs| == 0 {
      assert Folded(xs, cosmeticFilter) == [];
    } else {
      var init := xs[..|xs| - 1];
      WideFoldChunks(init, cosmeticFilter);
      assert FoldInvariant(init, cosmeticFilter);
      if RouteOf(xs[|xs| - 1], cosmeticFilter) != Fold {
        FoldSkips(xs, cosmeticFilter);
      } else if |WideFold(init, cosmeticFilter).1| + 1 >= MAX_SELECTORS_PER_WIDE_RULE {
        FoldFlushes(xs, cosmeticFilter);
      } else {
        FoldWaits(xs, cosmeticFilter);
      }
      assert FoldInvariant(xs, cosmeticFilter);
    }
  }

  /**
   * The wide list holds only generic entries: the foldable selectors cut into
   * chunks of 250 and merged in order, and the other generic entries
   * unchanged and in order.
   */
  lemma WideOutputByChunks(xs: seq<BlockerEntry>, cosmeticFilter: string)
    ensures var out := WideOutput(xs, cosmeticFilter);
      OnRoute(out, Fold, cosmeticFilter) ==
        WideRules(Chunks(Folded(xs, cosmeticFilter), MAX_SELECTORS_PER_WIDE_RULE), cosmeticFilter) &&
      OnRoute(out, PassThrough, cosmeticFilter) == OnRoute(xs, PassThrough, cosmeticFilter) &&
      OnRoute(out, DomainSensitive, cosmeticFilter) == [] &&
      OnRoute(out, GenericDomainSensitive, cosmeticFilter) == []
  {
    var n := MAX_SELECTORS_PER_WIDE_RULE;
    WideFoldChunks(xs, cosmeticFilter);
    WideFoldRoutes(xs, cosmeticFilter);
    var wide := WideFold(xs, cosmeticFilter).0;
    var pending := WideFold(xs, cosmeticFilter).1;
    var done := Emitted(xs, cosmeticFilter);
    if |pending| > 0 {
      var w := CreateWideRule(pending, cosmeticFilter);
      OnRouteSnoc(wide, w, Fold, cosmeticFilter);
      OnRouteSnoc(wide, w, PassThrough, cosmeticFilter);
      OnRouteSnoc(wide, w, DomainSensitive, cosmeticFilter);
      OnRouteSnoc(wide, w, GenericDomainSensitive, cosmeticFilter);
      ChunksAppendLast(done, pending, n);
      var cs := Chunks(done, n);
      assert (cs + [pending])[..|cs|] == cs;
    } else {
      assert wide + [] == wide;
      assert done + pending == done;
    }
  }

  /** Every entry lands in exactly one of the three outputs, and the domain buckets keep input order. */
  lemma {:induction false} RoutesPartition(xs: seq<BlockerEntry>, cosmeticFilter: string)
    ensures |OnRoute(xs, DomainSensitive, cosmeticFilter)| + |OnRoute(xs, GenericDomainSensitive, cosmeticFilter)| +
            |OnRoute(xs, Fold, cosmeticFilter)| + |OnRoute(xs, PassThrough, cosmeticFilter)| == |xs|
    decreases |xs|
  {
    if |xs| > 0 {
      RoutesPartition(xs[..|xs| - 1], cosmeticFilter);
    }
  }

  /** Routing by entry: an entry is on a route exactly when `RouteOf` says so. */
  lemma {:induction false} OnRouteMembers(xs: seq<BlockerEntry>, route: Route, cosmeticFilter: string, e: BlockerEntry)
    ensures e in OnRoute(xs, route, cosmeticFilter) <==> e in xs && RouteOf(e, cosmeticFilter) == route
    decreases |xs|
  {
    if |xs| > 0 {
      OnRouteMembers(xs[..|xs| - 1], route, cosmeticFilter, e);
      assert xs == xs[..|xs| - 1] + [xs[|xs| - 1]];
    }
  }

  /** A sequence whose every entry is on `route` is kept whole. */
  lemma {:induction false} OnRouteAll(xs: seq<BlockerEntry>, route: Route, cosmeticFilter: string)
    requires forall i :: 0 <= i < |xs| ==> RouteOf(xs[i], cosmeticFilter) == route
    ensures OnRoute(xs, route, cosmeticFilter) == xs
    decreases |xs|
  {
    if |xs| > 0 {
      OnRouteAll(xs[..|xs| - 1], route, cosmeticFilter);
      assert xs == xs[..|xs| - 1] + [xs[|xs| - 1]];
    }
  }

  /** The number of wide entries merged from folded selectors is ceil(k / 250) for k selectors. */
  lemma WideEntryCount(xs: seq<BlockerEntry>, cosmeticFilter: string)
    requires |Folded(xs, cosmeticFilter)| > 0
    ensures var k := |OnRoute(WideOutput(xs, cosmeticFilter), Fold, cosmeticFilter)|;
      var m := |Folded(xs, cosmeticFilter)|;
      (k - 1) * MAX_SELECTORS_PER_WIDE_RULE < m <= k * MAX_SELECTORS_PER_WIDE_RULE
  {
    WideOutputByChunks(xs, cosmeticFilter);
    ChunksCount(Folded(xs, cosmeticFilter), MAX_SELECTORS_PER_WIDE_RULE);
  }

  /** 600 elements cut into chunks of 250. */
  lemma ChunksOfSixHundred<T>(xs: seq<T>)
    requires |xs| == 600
    ensures Chunks(xs, 250) == [xs[..250], xs[250..500], xs[500..]]
  {
    var tail := xs[250..];
    assert tail[..250] == xs[250..500];
    assert tail[250..] == xs[500..];
    assert Chunks(tail[250..], 250) == [xs[500..]];
    assert Chunks(tail, 250) == [xs[250..500]] + [xs[500..]];
  }

  /**
   * 600 foldable entries become three wide entries holding the selectors
   * 1-250, 251-500 and 501-600, in that order.
   */
  lemma SixHundredSelectors(xs: seq<BlockerEntry>, cosmeticFilter: string)
    requires |xs| == 600
    requires forall i :: 0 <= i < |xs| ==> RouteOf(xs[i], cosmeticFilter) == Fold
    ensures var sels := Selectors(xs);
      WideOutput(xs, cosmeticFilter) == [
        CreateWideRule(sels[..250], cosmeticFilter),
        CreateWideRule(sels[250..500], cosmeticFilter),
        CreateWideRule(sels[500..], cosmeticFilter)]
  {
    var sels := Selectors(xs);
    var out := WideOutput(xs, cosmeticFilter);
    OnRouteAll(xs, Fold, cosmeticFilter);
    WideOutputByChunks(xs, cosmeticFilter);
    forall route | route != Fold
      ensures OnRoute(xs, route, cosmeticFilter) == []
    {
      if OnRoute(xs, route, cosmeticFilter) != [] {
        var e := OnRoute(xs, route, cosmeticFilter)[0];
        OnRouteMembers(xs, route, cosmeticFilter, e);
      }
    }
    forall i | 0 <= i < |out|
      ensures RouteOf(out[i], cosmeticFilter) == Fold
    {
      OnRouteMembers(out, RouteOf(out[i], cosmeticFilter), cosmeticFilter, out[i]);
    }
    OnRouteAll(out, Fold, cosmeticFilter);
    ChunksOfSixHundred(sels);
    var cs := Chunks(sels, 250);
    assert cs[..2][..1] == [sels[..250]];
    assert WideRules(cs[..2], cosmeticFilter) ==
      [CreateWideRule(sels[..250], cosmeticFilter), CreateWideRule(sels[250..500], cosmeticFilter)];
  }

  /** An empty bucket compacts to three empty ones. */
  lemma CompactCssNothing(cosmeticFilter: string)
    ensures CompactCss([], cosmeticFilter) == CompactCssRulesData([], [], [])
  {
    assert WideFold([], cosmeticFilter) == ([], []);
  }
}
