/**
 * `applyExceptionDomains`: one exception's domain constraint applied to a
 * blocking entry's trigger.  A constrained rule is narrowed (the exception's
 * domains that it lists are removed), an unconstrained one is negated (the
 * exception's domains are added to its `unlessDomain`), and a fully generic
 * exception disables the rule by giving it an empty `ifDomain`.
 */
module ExceptionDomains {
  import opened Wrappers
  import opened Lists
  import opened BlockerEntries

  /**
   * The pair the source captures before its loop (Compiler.swift:202-211):
   * the exception's domains and the rule's list of the same kind, `ifDomain`
   * taking precedence over `unlessDomain`.
   */
  function Snapshot(exc: Trigger, rule: Trigger): (Option<seq<string>>, Option<seq<string>>) {
    if exc.ifDomain.Some? then (exc.ifDomain, rule.ifDomain)
    else if exc.unlessDomain.Some? then (exc.unlessDomain, rule.unlessDomain)
    else (None, None)
  }

  /** The snapshot list is present and non-empty: the rule is narrowed rather than negated. */
  predicate Constrained(domainsList: Option<seq<string>>) {
    domainsList.Some? && |domainsList.value| > 0
  }

  /**
   * The effect of the loop over the exception domains `es` against the
   * snapshot `domainsList`.  When narrowing, the domains of `es` that the
   * snapshot lists are removed from `ifDomain` when that list is present and
   * from `unlessDomain` otherwise; when negating, `es` is appended to
   * `unlessDomain`, created if absent.
   */
  function LoopEffect(rule: Trigger, es: seq<string>, domainsList: Option<seq<string>>): Trigger {
    if Constrained(domainsList) then
      var gone := Common(es, domainsList.value);
      if rule.ifDomain.Some? then rule.(ifDomain := Some(Without(rule.ifDomain.value, gone)))
      else if rule.unlessDomain.Some? then rule.(unlessDomain := Some(Without(rule.unlessDomain.value, gone)))
      else rule
    else if es == [] then rule
    else rule.(unlessDomain := Some(rule.unlessDomain.GetOr([]) + es))
  }

  /** The trigger `rule` becomes once the exception with trigger `exc` is applied. */
  function WithException(exc: Trigger, rule: Trigger): Trigger {
    var (exceptionDomains, domainsList) := Snapshot(exc, rule);
    if exceptionDomains.None? then rule.(ifDomain := Some([]))
    else LoopEffect(rule, exceptionDomains.value, domainsList)
  }

  /** The source's procedure, editing a copy of the rule's trigger (the `inout` parameter). */
  method ApplyExceptionDomains(exceptionTrigger: Trigger, ruleTrigger: Trigger) returns (t: Trigger)
    ensures t == WithException(exceptionTrigger, ruleTrigger)
  {
    var exceptionDomains: Option<seq<string>> := None;
    var domainsList: Option<seq<string>> := None;
    if exceptionTrigger.ifDomain.Some? {
      exceptionDomains := exceptionTrigger.ifDomain;
      domainsList := ruleTrigger.ifDomain;
    } else if exceptionTrigger.unlessDomain.Some? {
      exceptionDomains := exceptionTrigger.unlessDomain;
      domainsList := ruleTrigger.unlessDomain;
    }

    t := ruleTrigger;
    if exceptionDomains.None? {
      t := t.(ifDomain := Some([]));
      return;
    }

    var es := exceptionDomains.value;
    if t.ifDomain.Some? {
      WithoutNothing(t.ifDomain.value);
    }
    if t.unlessDomain.Some? {
      WithoutNothing(t.unlessDomain.value);
    }
    for j := 0 to |es|
      invariant t == LoopEffect(ruleTrigger, es[..j], domainsList)
    {
      var domain := es[j];
      assert es[..j + 1] == es[..j] + [domain];
      LoopEffectSnoc(ruleTrigger, es[..j], domainsList, domain);
      if domainsList.Some? && |domainsList.value| > 0 {
        if domain !in domainsList.value {
          continue;
        }
        if t.ifDomain.Some? {
          t := t.(ifDomain := Some(Without(t.ifDomain.value, [domain])));
        } else if t.unlessDomain.Some? {
          t := t.(unlessDomain := Some(Without(t.unlessDomain.value, [domain])));
        }
      } else {
        if t.unlessDomain.None? {
          t := t.(unlessDomain := Some([]));
        }
        t := t.(unlessDomain := Some(t.unlessDomain.value + [domain]));
      }
    }
    assert es[..|es|] == es;
  }

  /** One more exception domain, as one pass of the source's loop body handles it. */
  lemma LoopEffectSnoc(rule: Trigger, es: seq<string>, domainsList: Option<seq<string>>, d: string)
    ensures var t := LoopEffect(rule, es, domainsList);
      LoopEffect(rule, es + [d], domainsList) ==
        if Constrained(domainsList) then
          if d !in domainsList.value then t
          else if t.ifDomain.Some? then t.(ifDomain := Some(Without(t.ifDomain.value, [d])))
          else if t.unlessDomain.Some? then t.(unlessDomain := Some(Without(t.unlessDomain.value, [d])))
          else t
        else t.(unlessDomain := Some(t.unlessDomain.GetOr([]) + [d]))
  {
    var esd := es + [d];
    assert esd[..|esd| - 1] == es;
    if Constrained(domainsList) {
      var gone := Common(es, domainsList.value);
      if d in domainsList.value {
        assert Common(esd, domainsList.value) == gone + [d];
        if rule.ifDomain.Some? {
          WithoutSnoc(rule.ifDomain.value, gone, d);
        } else if rule.unlessDomain.Some? {
          WithoutSnoc(rule.unlessDomain.value, gone, d);
        }
      } else {
        assert Common(esd, domainsList.value) == gone + [] == gone;
      }
    } else if es == [] {
      assert rule.unlessDomain.GetOr([]) + esd == rule.unlessDomain.GetOr([]) + [d];
    } else {
      assert rule.unlessDomain.GetOr([]) + esd == (rule.unlessDomain.GetOr([]) + es) + [d];
    }
  }

  // ---------------------------------------------------------------------------
  // Properties
  // ---------------------------------------------------------------------------

  /** A fully generic exception empties the rule's `ifDomain` and changes nothing else. */
  lemma GenericExceptionDisables(exc: Trigger, rule: Trigger)
    requires exc.ifDomain.None? && exc.unlessDomain.None?
    ensures var t := WithException(exc, rule);
      t.ifDomain == Some([]) && t.unlessDomain == rule.unlessDomain && t.urlFilter == rule.urlFilter
  {
  }

  /**
   * Narrowing: against a non-empty matching list, the domain lists only
   * shrink; the edited list (`ifDomain` if present, else `unlessDomain`) loses
   * exactly the exception domains that the matching list holds, and presence
   * of either list never changes.
   */
  lemma NarrowingShrinks(exc: Trigger, rule: Trigger)
    requires exc.ifDomain.Some? || exc.unlessDomain.Some?
    requires Constrained(Snapshot(exc, rule).1)
    ensures var t := WithException(exc, rule);
      var es := Snapshot(exc, rule).0.value;
      var ds := Snapshot(exc, rule).1.value;
      t.urlFilter == rule.urlFilter &&
      t.ifDomain.Some? == rule.ifDomain.Some? &&
      t.unlessDomain.Some? == rule.unlessDomain.Some? &&
      (rule.ifDomain.Some? ==>
        t.unlessDomain == rule.unlessDomain &&
        |t.ifDomain.value| <= |rule.ifDomain.value| &&
        forall d :: d in t.ifDomain.value <==> d in rule.ifDomain.value && !(d in es && d in ds)) &&
      (rule.ifDomain.None? ==>
        t.ifDomain == rule.ifDomain &&
        |t.unlessDomain.value| <= |rule.unlessDomain.value| &&
        forall d :: d in t.unlessDomain.value <==> d in rule.unlessDomain.value && !(d in es && d in ds))
  {
    var es := Snapshot(exc, rule).0.value;
    var ds := Snapshot(exc, rule).1.value;
    var gone := Common(es, ds);
    var edited := if rule.ifDomain.Some? then rule.ifDomain.value else rule.unlessDomain.value;
    forall d
      ensures d in Without(edited, gone) <==> d in edited && !(d in es && d in ds)
    {
      WithoutMembers(edited, gone, d);
      CommonMembers(es, ds, d);
    }
  }

  /**
   * Exception domains that the matching list lacks are ignored: keeping only
   * those it holds gives the same trigger.
   */
  lemma {:induction false} UnlistedDomainsIgnored(rule: Trigger, es: seq<string>, ds: seq<string>)
    requires |ds| > 0
    ensures LoopEffect(rule, Common(es, ds), Some(ds)) == LoopEffect(rule, es, Some(ds))
  {
    CommonIdempotent(es, ds);
  }

  /**
   * Negation: against an absent or empty matching list, `ifDomain` is left
   * alone and the exception domains are appended, in order, to `unlessDomain`
   * (which is created when absent and there is something to add).
   */
  lemma NegationAppends(exc: Trigger, rule: Trigger)
    requires exc.ifDomain.Some? || exc.unlessDomain.Some?
    requires !Constrained(Snapshot(exc, rule).1)
    ensures var t := WithException(exc, rule);
      var es := Snapshot(exc, rule).0.value;
      t.urlFilter == rule.urlFilter && t.ifDomain == rule.ifDomain &&
      t.unlessDomain == (if es == [] then rule.unlessDomain else Some(rule.unlessDomain.GetOr([]) + es))
  {
  }

  /**
   * Removal edits `ifDomain` whenever it is present, even when the match was
   * made against the rule's `unlessDomain` (an exception carrying only an
   * `unlessDomain`).
   */
  lemma RemovalPrefersIfDomain(exc: Trigger, rule: Trigger)
    requires exc.ifDomain.None? && exc.unlessDomain.Some?
    requires rule.ifDomain.Some? && rule.unlessDomain.Some? && |rule.unlessDomain.value| > 0
    ensures var t := WithException(exc, rule);
      t.unlessDomain == rule.unlessDomain &&
      t.ifDomain == Some(Without(rule.ifDomain.value, Common(exc.unlessDomain.value, rule.unlessDomain.value)))
  {
  }

  /** Narrowing `["a.com", "b.com"]` by an exception on `["a.com"]` leaves `["b.com"]`. */
  lemma NarrowingExample()
    ensures var rule := Trigger(".*", Some(["a.com", "b.com"]), None);
      WithException(Trigger(".*", Some(["a.com"]), None), rule) == rule.(ifDomain := Some(["b.com"]))
  {
    var es: seq<string> := ["a.com"];
    var ds: seq<string> := ["a.com", "b.com"];
    assert es[..0] == [];
    assert Common(es, ds) == Common([], ds) + ["a.com"] == ["a.com"];
    assert "b.com" != "a.com" by {
      assert "b.com"[0] != "a.com"[0];
    }
    assert ds[1..] == ["b.com"] && ds[1..][1..] == [];
    assert Without(ds[1..], es) == ["b.com"] + Without([], es);
    assert Without(ds, es) == [] + Without(ds[1..], es) == ["b.com"];
    var rule := Trigger(".*", Some(ds), None);
    assert WithException(Trigger(".*", Some(es), None), rule) == LoopEffect(rule, es, Some(ds));
    assert LoopEffect(rule, es, Some(ds)) == rule.(ifDomain := Some(Without(ds, Common(es, ds))));
  }

  /** An unrestricted entry and an exception on `["x.com"]`: the entry becomes unless-`x.com`. */
  lemma NegationExample()
    ensures var rule := Trigger(".*", None, None);
      WithException(Trigger(".*", Some(["x.com"]), None), rule) == rule.(unlessDomain := Some(["x.com"]))
  {
    var es: seq<string> := ["x.com"];
    assert [] + es == es;
  }
}
