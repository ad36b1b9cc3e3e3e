/**
 * The compiled unit of the content blocker, `BlockerEntry`, as the compiler
 * reads and rewrites it: a trigger (URL filter plus the two optional domain
 * lists) and an action (its type and the four optional payloads).  Absent and
 * empty domain lists are different values throughout.
 */
module BlockerEntries {
  import opened Wrappers

  /** The type strings of the seven action types the compiler distinguishes. */
  const KNOWN_KIND_NAMES: set<string> :=
    {"block", "css-display-none", "css-inject", "css-extended", "scriptlet", "script", "ignore-previous-rules"}

  /** Any other type string: one of the seven known names is never spelled as `OtherKind`. */
  type UnknownKindName = name: string | name !in KNOWN_KIND_NAMES witness "other"

  /** The action types the compiler distinguishes; any other type string is `OtherKind`. */
  datatype ActionKind =
    | Block                 // "block"
    | CssDisplayNone        // "css-display-none"
    | CssInject             // "css-inject"
    | CssExtended           // "css-extended"
    | Scriptlet             // "scriptlet"
    | Script                // "script"
    | IgnorePreviousRules   // "ignore-previous-rules"
    | OtherKind(name: UnknownKindName)

  datatype Action = Action(
    kind: ActionKind,
    selector: Option<string>,
    css: Option<string>,
    script: Option<string>,
    scriptlet: Option<string>)

  datatype Trigger = Trigger(
    urlFilter: string,
    ifDomain: Option<seq<string>>,
    unlessDomain: Option<seq<string>>)

  datatype BlockerEntry = BlockerEntry(trigger: Trigger, action: Action)

  /** Most selectors merged into one wide entry (Compiler.swift:7). */
  const MAX_SELECTORS_PER_WIDE_RULE: nat := 250

  /** Most entries merged into one domain-scoped entry (Compiler.swift:8). */
  const MAX_SELECTORS_PER_DOMAIN_RULE: nat := 250

  /** The cosmetic action types (Compiler.swift:14-20). */
  const COSMETIC_ACTIONS: seq<ActionKind> := [CssDisplayNone, CssInject, CssExtended, Scriptlet, Script]

  predicate IsCosmetic(k: ActionKind) {
    k in COSMETIC_ACTIONS
  }

  /** Exactly the five listed types are cosmetic; blocking and exceptions are not. */
  lemma CosmeticKinds(k: ActionKind)
    ensures IsCosmetic(k) <==> !(k.Block? || k.IgnorePreviousRules? || k.OtherKind?)
  {
  }

  /** The payload key names the compiler passes as `actionValue`. */
  const SELECTOR_KEY: string := "selector"
  const CSS_KEY: string := "css"
  const SCRIPT_KEY: string := "script"
  const SCRIPTLET_KEY: string := "scriptlet"

  /** `getActionValue`: the payload field named by `key`, absent for any other name. */
  function ActionValue(entry: BlockerEntry, key: string): (v: Option<string>)
    ensures key !in {SELECTOR_KEY, CSS_KEY, SCRIPT_KEY, SCRIPTLET_KEY} ==> v == None
  {
    if key == SELECTOR_KEY then entry.action.selector
    else if key == CSS_KEY then entry.action.css
    else if key == SCRIPT_KEY then entry.action.script
    else if key == SCRIPTLET_KEY then entry.action.scriptlet
    else None
  }

  /** The payload depends on the action alone: rewriting a trigger never changes it. */
  lemma ActionValueIgnoresTrigger(entry: BlockerEntry, t: Trigger, key: string)
    ensures ActionValue(entry.(trigger := t), key) == ActionValue(entry, key)
  {
  }
}
