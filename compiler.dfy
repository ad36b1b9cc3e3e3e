/**
 * `Compiler.compileRules`: rules are turned into entries by the entry
 * factory and routed into buckets by action type; `$specifichide` network
 * rules instead contribute a wildcard domain.  Then exceptions are applied
 * per bucket, css buckets are compacted, and the specifichide domains are
 * removed from the domain-scoped css buckets.  A cancellation observed at any
 * of the checkpoints yields an empty result.
 */
module Compiler {
  import opened Wrappers
  import opened BlockerEntries
  import opened ActionExceptions
  import opened Specifichide
  import opened CssCompaction
  import opened DomainCompaction

  /** What the compiler reads of a network rule. */
  datatype NetworkView = NetworkView(specifichide: bool, urlRuleText: string)

  /** What the compiler reads of a rule; `text` stands for everything the entry factory reads. */
  datatype RuleView = RuleView(text: string, isScript: bool, isScriptlet: bool, network: Option<NetworkView>)

  /** The result of the URL-pattern domain extraction. */
  datatype ExtractedDomain = ExtractedDomain(domain: string, patternMatchesPath: bool)

  /** The places where `compileRules` polls for cancellation, in the order reached. */
  datatype Checkpoint =
    | BeforeRule(index: nat)          // at the top of every loop iteration
    | AfterClassification
    | AfterCssCompaction
    | AfterCssSpecifichide
    | AdvancedStart
    | AfterExtendedCompaction
    | AfterExtendedSpecifichide
    | AfterInjects
    | AfterInjectsSpecifichide

  /**
   * The collaborators: the entry factory, the domain extraction of network
   * patterns, the catch-all cosmetic URL filter, and the cancellation flag as
   * seen at each checkpoint.
   */
  datatype Environment = Environment(
    createBlockerEntry: RuleView -> Option<BlockerEntry>,
    extractDomain: string -> ExtractedDomain,
    cosmeticFilter: string,
    isCancelled: Checkpoint -> bool)

  /** The buckets of the classification loop. */
  datatype Bucket =
    | BlockTyped | CssBlocking | CssInjects | ExtendedCss | Scriptlets | Scripts
    | ScriptletExceptions | ScriptExceptions | CssExceptions | CosmeticCssExceptions | IgnorePreviousTyped
    | Unrouted

  /**
   * The bucket an entry goes to by its action type; exceptions are routed by
   * the originating rule's flags first and then by their payloads.
   */
  function BucketOf(rule: RuleView, item: BlockerEntry): Bucket {
    match item.action.kind
    case Block => BlockTyped
    case CssDisplayNone => CssBlocking
    case CssInject => CssInjects
    case CssExtended => ExtendedCss
    case Scriptlet => Scriptlets
    case Script => Scripts
    case IgnorePreviousRules =>
      if rule.isScriptlet then ScriptletExceptions
      else if rule.isScript then ScriptExceptions
      else if item.action.selector.Some? && item.action.selector.value != "" then CssExceptions
      else if item.action.css.Some? && item.action.css.value != "" then CosmeticCssExceptions
      else IgnorePreviousTyped
    case OtherKind(_) => Unrouted
  }

  /** The wildcard domain a `$specifichide` network rule contributes, if it is one whose domain can be excluded. */
  function SpecifichideOf(rule: RuleView, env: Environment): Option<string> {
    if rule.network.Some? && rule.network.value.specifichide then
      var res := env.extractDomain(rule.network.value.urlRuleText);
      if res.domain != "" && !res.patternMatchesPath then Some("*" + res.domain) else None
    else None
  }

  /** What one iteration of the loop does with a rule. */
  datatype Outcome = SpecifichideDomain(domain: string) | NoEntry | Routed(bucket: Bucket, item: BlockerEntry)

  function OutcomeOf(rule: RuleView, env: Environment): Outcome {
    match SpecifichideOf(rule, env)
    case Some(d) => SpecifichideDomain(d)
    case None => FactoryOutcome(rule, env)
  }

  /** What happens to a rule handed to the entry factory. */
  function FactoryOutcome(rule: RuleView, env: Environment): Outcome {
    match env.createBlockerEntry(rule)
    case None => NoEntry
    case Some(item) => Routed(BucketOf(rule, item), item)
  }

  /** The loop's locals: one list per bucket and the specifichide domains. */
  datatype Buckets = Buckets(
    blockTyped: seq<BlockerEntry>,
    cssBlocking: seq<BlockerEntry>,
    cssInjects: seq<BlockerEntry>,
    extendedCssBlocking: seq<BlockerEntry>,
    scriptlets: seq<BlockerEntry>,
    scriptRules: seq<BlockerEntry>,
    scriptletsExceptions: seq<BlockerEntry>,
    scriptExceptionRules: seq<BlockerEntry>,
    cssExceptions: seq<BlockerEntry>,
    cosmeticCssExceptions: seq<BlockerEntry>,
    ignorePreviousTyped: seq<BlockerEntry>,
    specifichideExceptionDomains: seq<string>)

  const NoBuckets := Buckets([], [], [], [], [], [], [], [], [], [], [], [])

  /** The list of bucket `k`; `Unrouted` has none. */
  function Field(b: Buckets, k: Bucket): seq<BlockerEntry> {
    match k
    case BlockTyped => b.blockTyped
    case CssBlocking => b.cssBlocking
    case CssInjects => b.cssInjects
    case ExtendedCss => b.extendedCssBlocking
    case Scriptlets => b.scriptlets
    case Scripts => b.scriptRules
    case ScriptletExceptions => b.scriptletsExceptions
    case ScriptExceptions => b.scriptExceptionRules
    case CssExceptions => b.cssExceptions
    case CosmeticCssExceptions => b.cosmeticCssExceptions
    case IgnorePreviousTyped => b.ignorePreviousTyped
    case Unrouted => []
  }

  /** Appending an entry to bucket `k`; an unrouted entry is dropped. */
  function Add(b: Buckets, k: Bucket, item: BlockerEntry): Buckets {
    match k
    case BlockTyped => b.(blockTyped := b.blockTyped + [item])
    case CssBlocking => b.(cssBlocking := b.cssBlocking + [item])
    case CssInjects => b.(cssInjects := b.cssInjects + [item])
    case ExtendedCss => b.(extendedCssBlocking := b.extendedCssBlocking + [item])
    case Scriptlets => b.(scriptlets := b.scriptlets + [item])
    case Scripts => b.(scriptRules := b.scriptRules + [item])
    case ScriptletExceptions => b.(scriptletsExceptions := b.scriptletsExceptions + [item])
    case ScriptExceptions => b.(scriptExceptionRules := b.scriptExceptionRules + [item])
    case CssExceptions => b.(cssExceptions := b.cssExceptions + [item])
    case CosmeticCssExceptions => b.(cosmeticCssExceptions := b.cosmeticCssExceptions + [item])
    case IgnorePreviousTyped => b.(ignorePreviousTyped := b.ignorePreviousTyped + [item])
    case Unrouted => b
  }

  /** The buckets after the classification loop over `rules`. */
  function Classify(rules: seq<RuleView>, env: Environment): Buckets
    decreases |rules|
  {
    if |rules| == 0 then NoBuckets
    else
      var b := Classify(rules[..|rules| - 1], env);
      match OutcomeOf(rules[|rules| - 1], env)
      case SpecifichideDomain(d) => b.(specifichideExceptionDomains := b.specifichideExceptionDomains + [d])
      case NoEntry => b
      case Routed(k, item) => Add(b, k, item)
  }

  /** The aggregate output. */
  datatype CompilationResult = CompilationResult(
    rulesCount: nat,
    cssBlockingWide: seq<BlockerEntry>,
    cssBlockingGenericDomainSensitive: seq<BlockerEntry>,
    cssBlockingDomainSensitive: seq<BlockerEntry>,
    extendedCssBlockingWide: seq<BlockerEntry>,
    extendedCssBlockingGenericDomainSensitive: seq<BlockerEntry>,
    extendedCssBlockingDomainSensitive: seq<BlockerEntry>,
    cssInjects: seq<BlockerEntry>,
    script: seq<BlockerEntry>,
    scriptlets: seq<BlockerEntry>,
    blockTyped: seq<BlockerEntry>,
    ignorePreviousTyped: seq<BlockerEntry>)

  /** `CompilationResult()`: what a cancelled compilation returns. */
  const EmptyResult := CompilationResult(0, [], [], [], [], [], [], [], [], [], [], [])

  // ---------------------------------------------------------------------------
  // The pipeline after classification
  // ---------------------------------------------------------------------------

  /** The css-display-none bucket after its exceptions, compacted. */
  function CssCompacted(b: Buckets, env: Environment): CompactCssRulesData {
    CompactCss(ActionExceptionsResult(b.cssBlocking, b.cssExceptions, SELECTOR_KEY), env.cosmeticFilter)
  }

  /** The extended-css bucket after its exceptions, split by `compactCssRules`. */
  function ExtendedCompacted(b: Buckets, env: Environment): CompactCssRulesData {
    CompactCss(ActionExceptionsResult(b.extendedCssBlocking, b.cssExceptions + b.cosmeticCssExceptions, CSS_KEY), env.cosmeticFilter)
  }

  /** A bucket after the specifichide domains are taken out. */
  function Specifichidden(xs: seq<BlockerEntry>, b: Buckets): seq<BlockerEntry> {
    WithoutEmptyIfDomain(StripAll(xs, b.specifichideExceptionDomains))
  }

  /** The result of a compilation that is not cancelled, for the domain visit orders taken. */
  function Assemble(rules: seq<RuleView>, env: Environment, optimize: bool, advanced: bool,
                    genericOrder: seq<string>, domainOrder: seq<string>): CompilationResult
  {
    var b := Classify(rules, env);
    var css := CssCompacted(b, env);
    var basic := CompilationResult(
      |rules|,
      if optimize then [] else css.cssBlockingWide,
      Compacted(css.cssBlockingGenericDomainSensitive, true, genericOrder),
      Specifichidden(Compacted(css.cssBlockingDomainSensitive, false, domainOrder), b),
      [], [], [], [], [], [],
      b.blockTyped, b.ignorePreviousTyped);
    if !advanced then basic
    else
      var ext := ExtendedCompacted(b, env);
      basic.(
        extendedCssBlockingWide := if optimize then [] else ext.cssBlockingWide,
        extendedCssBlockingGenericDomainSensitive := ext.cssBlockingGenericDomainSensitive,
        extendedCssBlockingDomainSensitive := Specifichidden(ext.cssBlockingDomainSensitive, b),
        cssInjects := Specifichidden(ActionExceptionsResult(b.cssInjects, b.cssExceptions + b.cosmeticCssExceptions, CSS_KEY), b),
        script := ActionExceptionsResult(b.scriptRules, b.scriptExceptionRules, SCRIPT_KEY),
        scriptlets := ActionExceptionsResult(b.scriptlets, b.scriptletsExceptions, SCRIPTLET_KEY))
  }

  /** No cancellation is seen before any rule. */
  predicate ScanCompletes(rules: seq<RuleView>, env: Environment) {
    forall i :: 0 <= i < |rules| ==> !env.isCancelled(BeforeRule(i))
  }

  /** Some checkpoint the compilation reaches sees a cancellation. */
  predicate Cancelled(rules: seq<RuleView>, env: Environment, advanced: bool) {
    !ScanCompletes(rules, env) ||
    env.isCancelled(AfterClassification) || env.isCancelled(AfterCssCompaction) || env.isCancelled(AfterCssSpecifichide) ||
    (advanced &&
      (env.isCancelled(AdvancedStart) || env.isCancelled(AfterExtendedCompaction) || env.isCancelled(AfterExtendedSpecifichide) ||
       env.isCancelled(AfterInjects) || env.isCancelled(AfterInjectsSpecifichide)))
  }

  /** What `compileRules` returns. */
  function CompileSpec(rules: seq<RuleView>, env: Environment, optimize: bool, advanced: bool,
                       genericOrder: seq<string>, domainOrder: seq<string>): CompilationResult
  {
    if Cancelled(rules, env, advanced) then EmptyResult
    else Assemble(rules, env, optimize, advanced, genericOrder, domainOrder)
  }

  // ---------------------------------------------------------------------------
  // The source's procedure
  // ---------------------------------------------------------------------------

  /** The routing of one entry by its action type (the if-chain of the loop body). */
  method RouteEntry(rule: RuleView, item: BlockerEntry, b: Buckets) returns (r: Buckets)
    ensures r == Add(b, BucketOf(rule, item), item)
  {
    r := b;
    if item.action.kind == Block {
      r := r.(blockTyped := r.blockTyped + [item]);
    } else if item.action.kind == CssDisplayNone {
      r := r.(cssBlocking := r.cssBlocking + [item]);
    } else if item.action.kind == CssInject {
      r := r.(cssInjects := r.cssInjects + [item]);
    } else if item.action.kind == CssExtended {
      r := r.(extendedCssBlocking := r.extendedCssBlocking + [item]);
    } else if item.action.kind == Scriptlet {
      r := r.(scriptlets := r.scriptlets + [item]);
    } else if item.action.kind == Script {
      r := r.(scriptRules := r.scriptRules + [item]);
    } else if item.action.kind == IgnorePreviousRules {
      // Exceptions are told apart by the originating rule first.
      if rule.isScriptlet {
        r := r.(scriptletsExceptions := r.scriptletsExceptions + [item]);
      } else if rule.isScript {
        r := r.(scriptExceptionRules := r.scriptExceptionRules + [item]);
      } else if item.action.selector.Some? && item.action.selector.value != "" {
        r := r.(cssExceptions := r.cssExceptions + [item]);
      } else if item.action.css.Some? && item.action.css.value != "" {
        r := r.(cosmeticCssExceptions := r.cosmeticCssExceptions + [item]);
      } else {
        r := r.(ignorePreviousTyped := r.ignorePreviousTyped + [item]);
      }
    }
  }

  /**
   * The classification loop, its bucket arrays held in one `Buckets` value;
   * `cancelled` reports a cancellation seen at the top of an iteration.
   */
  method ClassifyRules(rules: seq<RuleView>, env: Environment) returns (b: Buckets, cancelled: bool)
    ensures cancelled == !ScanCompletes(rules, env)
    ensures !cancelled ==> b == Classify(rules, env)
  {
    b := NoBuckets;
    for i := 0 to |rules|
      invariant forall k :: 0 <= k < i ==> !env.isCancelled(BeforeRule(k))
      invariant b == Classify(rules[..i], env)
    {
      if env.isCancelled(BeforeRule(i)) {
        return NoBuckets, true;
      }
      var rule := rules[i];
      assert rules[..i + 1][..i] == rules[..i];

      if rule.network.Some? {
        var networkRule := rule.network.value;
        if networkRule.specifichide {
          var res := env.extractDomain(networkRule.urlRuleText);
          if res.domain != "" && !res.patternMatchesPath {
            // The rule only contributes its domain, with a wildcard prepended.
            b := b.(specifichideExceptionDomains := b.specifichideExceptionDomains + ["*" + res.domain]);
            continue;
          }
        }
      }

      var created := env.createBlockerEntry(rule);
      if created.None? {
        continue;
      }
      b := RouteEntry(rule, created.value, b);
    }
    assert rules[..|rules|] == rules;
    cancelled := false;
  }

  /**
   * The source's procedure.  `genericOrder` and `domainOrder` are the orders
   * in which the two domain compactions visit their dictionaries' keys.
   */
  method CompileRules(rules: seq<RuleView>, env: Environment, optimize: bool, advancedBlockingEnabled: bool)
    returns (result: CompilationResult, genericOrder: seq<string>, domainOrder: seq<string>)
    ensures result == CompileSpec(rules, env, optimize, advancedBlockingEnabled, genericOrder, domainOrder)
    ensures !Cancelled(rules, env, advancedBlockingEnabled) ==>
      var css := CssCompacted(Classify(rules, env), env);
      Enumerates(genericOrder, css.cssBlockingGenericDomainSensitive) &&
      Enumerates(domainOrder, css.cssBlockingDomainSensitive)
  {
    genericOrder, domainOrder := [], [];
    var b, cancelled := ClassifyRules(rules, env);
    if cancelled || env.isCancelled(AfterClassification) {
      return EmptyResult, genericOrder, domainOrder;
    }
    result := EmptyResult.(rulesCount := |rules|, blockTyped := b.blockTyped, ignorePreviousTyped := b.ignorePreviousTyped);

    // css-display-none: exceptions, then compaction.
    var cssBlocking, _ := ApplyActionExceptions(b.cssBlocking, b.cssExceptions, SELECTOR_KEY);
    var cssCompact := CompactCssRules(cssBlocking, env.cosmeticFilter);
    if !optimize {
      result := result.(cssBlockingWide := cssCompact.cssBlockingWide);
    }
    var generic, domain;
    generic, genericOrder := CompactDomainCssRules(cssCompact.cssBlockingGenericDomainSensitive, true);
    domain, domainOrder := CompactDomainCssRules(cssCompact.cssBlockingDomainSensitive, false);
    result := result.(cssBlockingGenericDomainSensitive := generic, cssBlockingDomainSensitive := domain);
    if env.isCancelled(AfterCssCompaction) {
      return EmptyResult, genericOrder, domainOrder;
    }

    var hidden, _ := ApplySpecifichide(result.cssBlockingDomainSensitive, b.specifichideExceptionDomains);
    result := result.(cssBlockingDomainSensitive := hidden);
    if env.isCancelled(AfterCssSpecifichide) {
      return EmptyResult, genericOrder, domainOrder;
    }

    if advancedBlockingEnabled {
      result := CompileAdvanced(b, env, optimize, result);
    }
  }

  /** The advanced-blocking part of the pipeline, on top of the basic result `basic`. */
  method CompileAdvanced(b: Buckets, env: Environment, optimize: bool, basic: CompilationResult)
    returns (result: CompilationResult)
    ensures var ext := ExtendedCompacted(b, env);
      var cancelled := env.isCancelled(AdvancedStart) || env.isCancelled(AfterExtendedCompaction) ||
        env.isCancelled(AfterExtendedSpecifichide) || env.isCancelled(AfterInjects) || env.isCancelled(AfterInjectsSpecifichide);
      result == if cancelled then EmptyResult else basic.(
        extendedCssBlockingWide := if optimize then basic.extendedCssBlockingWide else ext.cssBlockingWide,
        extendedCssBlockingGenericDomainSensitive := ext.cssBlockingGenericDomainSensitive,
        extendedCssBlockingDomainSensitive := Specifichidden(ext.cssBlockingDomainSensitive, b),
        cssInjects := Specifichidden(ActionExceptionsResult(b.cssInjects, b.cssExceptions + b.cosmeticCssExceptions, CSS_KEY), b),
        script := ActionExceptionsResult(b.scriptRules, b.scriptExceptionRules, SCRIPT_KEY),
        scriptlets := ActionExceptionsResult(b.scriptlets, b.scriptletsExceptions, SCRIPTLET_KEY))
  {
    result := basic;
    if env.isCancelled(AdvancedStart) {
      return EmptyResult;
    }

    // Extended css: exceptions by css payload, split but not domain-compacted.
    var extendedCssBlocking, _ := ApplyActionExceptions(b.extendedCssBlocking, b.cssExceptions + b.cosmeticCssExceptions, CSS_KEY);
    var extendedCssCompact := CompactCssRules(extendedCssBlocking, env.cosmeticFilter);
    if !optimize {
      result := result.(extendedCssBlockingWide := extendedCssCompact.cssBlockingWide);
    }
    result := result.(
      extendedCssBlockingGenericDomainSensitive := extendedCssCompact.cssBlockingGenericDomainSensitive,
      extendedCssBlockingDomainSensitive := extendedCssCompact.cssBlockingDomainSensitive);
    if env.isCancelled(AfterExtendedCompaction) {
      return EmptyResult;
    }

    var extendedHidden, _ := ApplySpecifichide(result.extendedCssBlockingDomainSensitive, b.specifichideExceptionDomains);
    result := result.(extendedCssBlockingDomainSensitive := extendedHidden);
    if env.isCancelled(AfterExtendedSpecifichide) {
      return EmptyResult;
    }

    // css-inject: exceptions by css payload, then specifichide.
    var cssInjects, _ := ApplyActionExceptions(b.cssInjects, b.cssExceptions + b.cosmeticCssExceptions, CSS_KEY);
    result := result.(cssInjects := cssInjects);
    if env.isCancelled(AfterInjects) {
      return EmptyResult;
    }
    var injectsHidden, _ := ApplySpecifichide(result.cssInjects, b.specifichideExceptionDomains);
    result := result.(cssInjects := injectsHidden);
    if env.isCancelled(AfterInjectsSpecifichide) {
      return EmptyResult;
    }

    // Scripts and scriptlets: exceptions only.
    var scriptRules, _ := ApplyActionExceptions(b.scriptRules, b.scriptExceptionRules, SCRIPT_KEY);
    result := result.(script := scriptRules);
    var scriptlets, _ := ApplyActionExceptions(b.scriptlets, b.scriptletsExceptions, SCRIPTLET_KEY);
    result := result.(scriptlets := scriptlets);
  }

  // ---------------------------------------------------------------------------
  // Properties of the classification
  // ---------------------------------------------------------------------------

  /** The entries of `rules` routed to bucket `k`, in rule order. */
  function RoutedTo(rules: seq<RuleView>, env: Environment, k: Bucket): seq<BlockerEntry>
    decreases |rules|
  {
    if |rules| == 0 then []
    else
      var o := OutcomeOf(rules[|rules| - 1], env);
      RoutedTo(rules[..|rules| - 1], env, k) + (if o.Routed? && o.bucket == k && k != Unrouted then [o.item] else [])
  }

  /** The specifichide domains of `rules`, in rule order. */
  function SpecifichideDomains(rules: seq<RuleView>, env: Environment): seq<string>
    decreases |rules|
  {
    if |rules| == 0 then []
    else
      var o := OutcomeOf(rules[|rules| - 1], env);
      SpecifichideDomains(rules[..|rules| - 1], env) + (if o.SpecifichideDomain? then [o.domain] else [])
  }

  /** The number of rules that end in no bucket: no entry, or an action type the compiler does not route. */
  function Unplaced(rules: seq<RuleView>, env: Environment): nat
    decreases |rules|
  {
    if |rules| == 0 then 0
    else
      var o := OutcomeOf(rules[|rules| - 1], env);
      Unplaced(rules[..|rules| - 1], env) + (if o.NoEntry? || (o.Routed? && o.bucket == Unrouted) then 1 else 0)
  }

  /** The total number of entries in the buckets. */
  function Size(b: Buckets): nat {
    |b.blockTyped| + |b.cssBlocking| + |b.cssInjects| + |b.extendedCssBlocking| + |b.scriptlets| + |b.scriptRules| +
    |b.scriptletsExceptions| + |b.scriptExceptionRules| + |b.cssExceptions| + |b.cosmeticCssExceptions| + |b.ignorePreviousTyped|
  }

  /** Adding an entry grows exactly its own bucket by that entry. */
  lemma AddField(b: Buckets, k: Bucket, item: BlockerEntry, k': Bucket)
    ensures Field(Add(b, k, item), k') == Field(b, k') + (if k == k' && k != Unrouted then [item] else [])
    ensures Add(b, k, item).specifichideExceptionDomains == b.specifichideExceptionDomains
    ensures Size(Add(b, k, item)) == Size(b) + (if k == Unrouted then 0 else 1)
  {
  }

  /**
   * Classification sends every entry the factory produces to the bucket of
   * its action type and nowhere else, keeping rule order, and collects the
   * specifichide domains in rule order.
   */
  lemma {:induction false} ClassifyByBucket(rules: seq<RuleView>, env: Environment, k: Bucket)
    ensures Field(Classify(rules, env), k) == RoutedTo(rules, env, k)
    ensures Classify(rules, env).specifichideExceptionDomains == SpecifichideDomains(rules, env)
    decreases |rules|
  {
    if |rules| > 0 {
      var init := rules[..|rules| - 1];
      ClassifyByBucket(init, env, k);
      var o := OutcomeOf(rules[|rules| - 1], env);
      if o.Routed? {
        assert Classify(rules, env) == Add(Classify(init, env), o.bucket, o.item);
        AddField(Classify(init, env), o.bucket, o.item, k);
      } else if o.NoEntry? {
        assert Classify(rules, env) == Classify(init, env);
        assert RoutedTo(rules, env, k) == RoutedTo(init, env, k) + [];
      } else {
        assert Field(Classify(rules, env), k) == Field(Classify(init, env), k);
        assert RoutedTo(rules, env, k) == RoutedTo(init, env, k) + [];
      }
    }
  }

  /** An entry routed to one of the action buckets has that bucket's action type. */
  lemma {:induction false} RoutedKinds(rules: seq<RuleView>, env: Environment, k: Bucket, e: BlockerEntry)
    requires e in RoutedTo(rules, env, k)
    ensures k == BlockTyped ==> e.action.kind == Block
    ensures k == CssBlocking ==> e.action.kind == CssDisplayNone
    ensures k == CssInjects ==> e.action.kind == CssInject
    ensures k == ExtendedCss ==> e.action.kind == CssExtended
    ensures k == Scriptlets ==> e.action.kind == Scriptlet
    ensures k == Scripts ==> e.action.kind == Script
    decreases |rules|
  {
    var init := rules[..|rules| - 1];
    var o := OutcomeOf(rules[|rules| - 1], env);
    if e in RoutedTo(init, env, k) {
      RoutedKinds(init, env, k, e);
    } else {
      assert o.Routed? && o.bucket == k && e == o.item;
      assert BucketOf(rules[|rules| - 1], e) == k;
    }
  }

  /**
   * The drop test of `applyActionExceptions` is only ever applied to entries of
   * the five cosmetic buckets, whose action types are all cosmetic; whatever
   * their triggers become, Swift's precedence `A || (B && cosmetic)` then
   * decides like `(A || B) && cosmetic`.
   */
  lemma PrecedenceUnobservable(rules: seq<RuleView>, env: Environment, e: BlockerEntry, t: Trigger)
    requires var b := Classify(rules, env);
      e in b.cssBlocking || e in b.cssInjects || e in b.extendedCssBlocking || e in b.scriptRules || e in b.scriptlets
    ensures IsCosmetic(e.action.kind)
    ensures var a := t.ifDomain == Some([]) && t.unlessDomain.None?;
      var b := t.unlessDomain == Some([]) && t.ifDomain.None?;
      Disabled(e.(trigger := t)) == ((a || b) && IsCosmetic(e.action.kind))
  {
    var b := Classify(rules, env);
    var k :=
      if e in b.cssBlocking then CssBlocking
      else if e in b.cssInjects then CssInjects
      else if e in b.extendedCssBlocking then ExtendedCss
      else if e in b.scriptRules then Scripts
      else Scriptlets;
    ClassifyByBucket(rules, env, k);
    RoutedKinds(rules, env, k, e);
    DropPrecedence(e.(trigger := t));
  }

  /** Nothing is lost: every rule yields a bucketed entry, a specifichide domain, or is counted as unplaced. */
  lemma {:induction false} ClassifyConserves(rules: seq<RuleView>, env: Environment)
    ensures Size(Classify(rules, env)) + |Classify(rules, env).specifichideExceptionDomains| + Unplaced(rules, env) == |rules|
    decreases |rules|
  {
    if |rules| > 0 {
      var init := rules[..|rules| - 1];
      ClassifyConserves(init, env);
      var o := OutcomeOf(rules[|rules| - 1], env);
      if o.Routed? {
        AddField(Classify(init, env), o.bucket, o.item, Unrouted);
      }
    }
  }

  /**
   * A `$specifichide` network rule with a non-empty extracted domain and no
   * path contributes `"*" + domain` and no entry; with an empty domain or a
   * path it goes through the entry factory like any other rule.
   */
  lemma SpecifichideRule(rule: RuleView, env: Environment)
    requires rule.network.Some? && rule.network.value.specifichide
    ensures var res := env.extractDomain(rule.network.value.urlRuleText);
      (res.domain != "" && !res.patternMatchesPath ==> OutcomeOf(rule, env) == SpecifichideDomain("*" + res.domain)) &&
      (res.domain == "" || res.patternMatchesPath ==> OutcomeOf(rule, env) == FactoryOutcome(rule, env))
  {
  }

  /** Except for exceptions, the bucket depends on the action type alone, not on the rule. */
  lemma BucketByActionType(rule: RuleView, other: RuleView, item: BlockerEntry)
    requires !item.action.kind.IgnorePreviousRules?
    ensures BucketOf(rule, item) == BucketOf(other, item)
    ensures item.action.kind.OtherKind? <==> BucketOf(rule, item) == Unrouted
  {
  }

  /**
   * Exceptions are routed by the rule's scriptlet flag, then its script flag,
   * then a non-empty selector, then a non-empty css payload; the rest are
   * generic ignore-previous entries.
   */
  lemma ExceptionRouting(rule: RuleView, item: BlockerEntry)
    requires item.action.kind == IgnorePreviousRules
    ensures var k := BucketOf(rule, item);
      var hasSelector := item.action.selector.Some? && item.action.selector.value != "";
      var hasCss := item.action.css.Some? && item.action.css.value != "";
      (k == ScriptletExceptions <==> rule.isScriptlet) &&
      (k == ScriptExceptions <==> !rule.isScriptlet && rule.isScript) &&
      (k == CssExceptions <==> !rule.isScriptlet && !rule.isScript && hasSelector) &&
      (k == CosmeticCssExceptions <==> !rule.isScriptlet && !rule.isScript && !hasSelector && hasCss) &&
      (k == IgnorePreviousTyped <==> !rule.isScriptlet && !rule.isScript && !hasSelector && !hasCss)
  {
  }

  // ---------------------------------------------------------------------------
  // Properties of the whole compilation
  // ---------------------------------------------------------------------------

  /** With `optimize` both wide buckets are left empty. */
  lemma OptimizeDropsWide(rules: seq<RuleView>, env: Environment, advanced: bool, go: seq<string>, do: seq<string>)
    ensures var r := CompileSpec(rules, env, true, advanced, go, do);
      r.cssBlockingWide == [] && r.extendedCssBlockingWide == []
  {
  }

  /** Without advanced blocking, the extended-css, css-inject, script and scriptlet outputs are empty. */
  lemma BasicModeOmitsAdvanced(rules: seq<RuleView>, env: Environment, optimize: bool, go: seq<string>, do: seq<string>)
    ensures var r := CompileSpec(rules, env, optimize, false, go, do);
      r.extendedCssBlockingWide == [] && r.extendedCssBlockingGenericDomainSensitive == [] &&
      r.extendedCssBlockingDomainSensitive == [] && r.cssInjects == [] && r.script == [] && r.scriptlets == []
  {
  }

  /** A completed compilation counts every rule and keeps the block and ignore-previous entries in rule order. */
  lemma CompletedCounts(rules: seq<RuleView>, env: Environment, optimize: bool, advanced: bool, go: seq<string>, do: seq<string>)
    requires !Cancelled(rules, env, advanced)
    ensures var r := CompileSpec(rules, env, optimize, advanced, go, do);
      r.rulesCount == |rules| &&
      r.blockTyped == RoutedTo(rules, env, BlockTyped) &&
      r.ignorePreviousTyped == RoutedTo(rules, env, IgnorePreviousTyped)
  {
    ClassifyByBucket(rules, env, BlockTyped);
    ClassifyByBucket(rules, env, IgnorePreviousTyped);
  }

  /**
   * The specifichide domains are gone from the domain-scoped css output:
   * every entry left keeps an `ifDomain` that is absent or non-empty and
   * holds none of them; the same holds for the extended-css domain bucket and
   * for css-inject in advanced mode.
   */
  lemma SpecifichideApplied(rules: seq<RuleView>, env: Environment, optimize: bool, advanced: bool,
                            go: seq<string>, do: seq<string>, e: BlockerEntry)
    requires !Cancelled(rules, env, advanced)
    ensures var r := CompileSpec(rules, env, optimize, advanced, go, do);
      e in r.cssBlockingDomainSensitive || e in r.extendedCssBlockingDomainSensitive || e in r.cssInjects ==>
        e.trigger.ifDomain != Some([]) &&
        (e.trigger.ifDomain.Some? ==> forall x :: x in SpecifichideDomains(rules, env) ==> x !in e.trigger.ifDomain.value)
  {
    var b := Classify(rules, env);
    ClassifyByBucket(rules, env, Unrouted);
    var r := CompileSpec(rules, env, optimize, advanced, go, do);
    var css := CssCompacted(b, env);
    if e in r.cssBlockingDomainSensitive {
      SpecifichideResult(Compacted(css.cssBlockingDomainSensitive, false, do), b.specifichideExceptionDomains, e);
    } else if advanced && e in r.extendedCssBlockingDomainSensitive {
      SpecifichideResult(ExtendedCompacted(b, env).cssBlockingDomainSensitive, b.specifichideExceptionDomains, e);
    } else if advanced && e in r.cssInjects {
      SpecifichideResult(ActionExceptionsResult(b.cssInjects, b.cssExceptions + b.cosmeticCssExceptions, CSS_KEY),
        b.specifichideExceptionDomains, e);
    }
  }

  /**
   * The extended-css buckets are split but not domain-compacted: the
   * generic-domain-sensitive one holds exactly the surviving extended-css
   * entries with only an `unlessDomain`, unchanged.
   */
  lemma ExtendedNotCompacted(rules: seq<RuleView>, env: Environment, optimize: bool, go: seq<string>, do: seq<string>, e: BlockerEntry)
    requires !Cancelled(rules, env, true)
    ensures var r := CompileSpec(rules, env, optimize, true, go, do);
      var b := Classify(rules, env);
      var survivors := ActionExceptionsResult(b.extendedCssBlocking, b.cssExceptions + b.cosmeticCssExceptions, CSS_KEY);
      e in r.extendedCssBlockingGenericDomainSensitive <==>
        e in survivors && e.trigger.ifDomain.None? && e.trigger.unlessDomain.Some?
  {
    var b := Classify(rules, env);
    var survivors := ActionExceptionsResult(b.extendedCssBlocking, b.cssExceptions + b.cosmeticCssExceptions, CSS_KEY);
    OnRouteMembers(survivors, GenericDomainSensitive, env.cosmeticFilter, e);
  }

  /** A compaction of nothing yields nothing, whatever the visit order. */
  lemma {:induction false} CompactedNothing(useUnlessDomain: bool, order: seq<string>)
    ensures Compacted([], useUnlessDomain, order) == []
    decreases |order|
  {
    if |order| > 0 {
      CompactedNothing(useUnlessDomain, order[..|order| - 1]);
    }
  }

  /**
   * End to end: a generic element-hiding rule `##.ad` and its generic
   * exception `#@#.ad` leave every css-display-none output empty.
   */
  lemma GenericExceptionCancelsRule(r1: RuleView, r2: RuleView, env: Environment, optimize: bool, advanced: bool,
                                    go: seq<string>, do: seq<string>)
    requires r1.network.None? && r2.network.None? && !r2.isScript && !r2.isScriptlet
    requires env.createBlockerEntry(r1) == Some(BlockerEntry(Trigger(".*", None, None), Action(CssDisplayNone, Some(".ad"), None, None, None)))
    requires env.createBlockerEntry(r2) == Some(BlockerEntry(Trigger(".*", None, None), Action(IgnorePreviousRules, Some(".ad"), None, None, None)))
    ensures var r := CompileSpec([r1, r2], env, optimize, advanced, go, do);
      r.cssBlockingWide == [] && r.cssBlockingGenericDomainSensitive == [] && r.cssBlockingDomainSensitive == []
  {
    RuleAndException(r1, r2, env);
    GenericExceptionDropsEntry();
    NoCssSurvivors([r1, r2], env, optimize, advanced, go, do);
  }

  /** The two rules of `GenericExceptionCancelsRule` land in the css blocking bucket and its exceptions. */
  lemma RuleAndException(r1: RuleView, r2: RuleView, env: Environment)
    requires r1.network.None? && r2.network.None? && !r2.isScript && !r2.isScriptlet
    requires env.createBlockerEntry(r1) == Some(BlockerEntry(Trigger(".*", None, None), Action(CssDisplayNone, Some(".ad"), None, None, None)))
    requires env.createBlockerEntry(r2) == Some(BlockerEntry(Trigger(".*", None, None), Action(IgnorePreviousRules, Some(".ad"), None, None, None)))
    ensures var b := Classify([r1, r2], env);
      b.cssBlocking == [BlockerEntry(Trigger(".*", None, None), Action(CssDisplayNone, Some(".ad"), None, None, None))] &&
      b.cssExceptions == [BlockerEntry(Trigger(".*", None, None), Action(IgnorePreviousRules, Some(".ad"), None, None, None))]
  {
    var rules := [r1, r2];
    var e1 := BlockerEntry(Trigger(".*", None, None), Action(CssDisplayNone, Some(".ad"), None, None, None));
    var e2 := BlockerEntry(Trigger(".*", None, None), Action(IgnorePreviousRules, Some(".ad"), None, None, None));
    assert rules[..1] == [r1];
    assert [r1][..0] == [];
    assert OutcomeOf(r1, env) == Routed(CssBlocking, e1);
    assert OutcomeOf(r2, env) == Routed(CssExceptions, e2);
    assert Classify([r1], env) == Add(NoBuckets, CssBlocking, e1);
    assert Classify(rules, env) == Add(Classify([r1], env), CssExceptions, e2);
  }

  /** When no css-display-none entry survives its exceptions, all three css-display-none outputs are empty. */
  lemma NoCssSurvivors(rules: seq<RuleView>, env: Environment, optimize: bool, advanced: bool, go: seq<string>, do: seq<string>)
    requires var b := Classify(rules, env); ActionExceptionsResult(b.cssBlocking, b.cssExceptions, SELECTOR_KEY) == []
    ensures var r := CompileSpec(rules, env, optimize, advanced, go, do);
      r.cssBlockingWide == [] && r.cssBlockingGenericDomainSensitive == [] && r.cssBlockingDomainSensitive == []
  {
    var b := Classify(rules, env);
    CompactCssNothing(env.cosmeticFilter);
    CompactedNothing(true, go);
    CompactedNothing(false, do);
    assert StripAll([], b.specifichideExceptionDomains) == [];
  }
}
