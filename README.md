# Regex filter plugin: rule engine, rule store and configuration sync

A Dafny model of the core of `RegexFilterPlugin`, a chat-bot plugin that rewrites outgoing text with an
ordered list of regular-expression rules. The model covers four parts:

- **Hydration.** `__init__` turns the configuration's `replace_rules` and `delete_rules` buckets into one
  ordered rule list, and falls back to three built-in rules when nothing loads.
- **Sequential application.** `_apply_rules_to_text` runs every rule on the output of the previous one,
  isolates each rule's `re.error`, and reports the 1-based positions of the rules that changed the text.
- **Rule-store mutation.** `add_regex_rule`, `remove_regex_rule`, `_add_rule_to_config` and
  `_remove_rule_from_config` keep the in-memory list and the configuration buckets in step.
- **Toggles.** `toggle_listen_all` and `toggle_plugin` flip the two flags and store them.

Layout:

- `regex_engine.dfy` (`RegexEngine`): the regex engine as a value `Engine(compiles, sub)`.
  `sub` returns either the substituted text or `RegexError`. No regex semantics are modelled, so
  every result holds for every engine.
- `rules.dfy` (`Rules`): the rule record `[pattern, replacement, action, description]` and the built-in
  rules.
- `rule_engine.dfy` (`RuleEngine`): the rule pipeline as functions, with its lemmas.
- `config_document.dfy` (`ConfigDocument`): raw records, hydration, and the search
  `_remove_rule_from_config` performs.
- `rule_store.dfy` (`RuleStore`): add and remove as transitions of (rule list, buckets), with lemmas.
  It holds both the as-written removal and the corrected one.
- `plugin.dfy` (`Plugin`): the classes `Config` and `RegexFilterPlugin`. Their fields are updated in place,
  The constructor and the add and remove methods are proved to produce the transitions defined in the
  pure modules. The toggles state their new state directly.

The configuration object is a `Config` with two fields: `buckets` maps a bucket name to its records, and
`flags` maps a key to a boolean. `save_config()` is an opaque step that only increments `saves`. A record
is one of three kinds. `Bare` is a string that carries only a pattern. `Entry` is a dictionary whose
`"pattern"` and `"replacement"` keys may be missing. `Scalar` is any other value, which hydration reads
through `str()`.

Where the code differs from what a reader might expect, the model follows the code:

- The built-in default rules are never written back to the configuration (main.py:55-60). The
  constructor's contract includes `unchanged(config)`.
- Add and remove change memory before the configuration, with no rollback. Removal matches a record on
  its pattern only, not on its replacement.
- Only the `replace` and `delete` actions exist here. Append and prepend are not part of this source.

## Model

| member | source | states |
|---|---|---|
| `Plugin.RegexFilterPlugin.constructor` | main.py:9-62 | the rule list is `InitialRules` of the buckets; `enabled` defaults to true and `listen_all_responses` to false; the configuration is left unchanged, so the defaults are not written back |
| `ConfigDocument.LoadBucket` | main.py:19-52 | each loaded rule carries the bucket's action and a non-empty pattern that compiles; no more rules than records |
| `ConfigDocument.LoadBucketMembership` | main.py:19-52 | a rule is loaded from a bucket iff some record of that bucket with a non-empty, compiling pattern produces it |
| `ConfigDocument.HydratedMembership` | main.py:18-52 | a rule is hydrated iff it comes from a surviving replace record or a surviving delete record; empty and non-compiling patterns are dropped |
| `ConfigDocument.HydratedOrder` | main.py:18-52 | every replace-bucket rule comes before every delete-bucket rule |
| `ConfigDocument.BareReplaceRecordHasEmptyReplacement` | main.py:20-32 | a bare-string replace record becomes a replace rule with an empty replacement |
| `ConfigDocument.DefaultsExactlyWhenNothingLoaded` | main.py:54-60 | the rule list is the three built-in rules iff hydration produced no rule; otherwise it is the hydrated list |
| `ConfigDocument.LookupFrom` | main.py:107-116 | the search as written stops at the first dictionary whose pattern matches, or raises at the first non-dictionary record; every record before the stop is a non-matching dictionary |
| `ConfigDocument.FindRecord` | main.py:108-116 | the search loop returns exactly the as-written search result |
| `ConfigDocument.LookupByPattern` | main.py:108-116 | corrected search: never raises; finds the first record whose hydrated pattern matches, and no earlier record matches |
| `ConfigDocument.BareRecordMakesLookupRaise` | main.py:109-111 | concrete buckets with a bare string: the as-written search raises where the corrected search finds the record |
| `ConfigDocument.LoadableRecordIsFound` | main.py:108-114 | every record that survives hydration is found by the corrected search for its pattern |
| `RuleEngine.Pipeline` | main.py:127-138 | applied positions are strictly increasing and each lies in 1..len(rules) |
| `RuleEngine.AppliedIffChanged` | main.py:127-138 | position i+1 is reported exactly when rule i changed the text it received |
| `RuleEngine.PipelineIsLeftToRight` | main.py:127-135 | the output is the left-to-right composition of the rules, each applied to the previous rule's output |
| `RuleEngine.RaisingRuleIsSkipped` | main.py:131-141 | a rule whose substitution raises leaves the text unchanged and is not reported, and the next rule runs on the text from before it |
| `RuleEngine.NothingMatchesIsNoOp` | main.py:127-143 | when no rule changes the input, the input is returned with no applied position |
| `Plugin.RegexFilterPlugin.ApplyRulesToText` | main.py:119-143 | the loop computes `ApplyRules`; empty text comes back unchanged with no applied rule; positions lie in 1..len(rules) |
| `RuleStore.ConfigAfterAdd` | main.py:65-86 | the record is appended to the end of its action's bucket and no other bucket changes; an empty configuration or an unsupported action changes nothing |
| `RuleStore.AddRule` | main.py:218-251 | an empty pattern or a non-compiling pattern leaves everything unchanged; an empty replacement means delete, otherwise replace; on success the list grows by one, the new rule is last and earlier rules are untouched |
| `RuleStore.ConfigRemoveAt` | main.py:89-116 | an index outside 0..len(rules)-1, an empty configuration or an unsupported action removes nothing; otherwise a record is removed iff the bucket holds a dictionary with the rule's pattern preceded only by dictionaries with other patterns, and then exactly that record is dropped and the rest keep their order; the helper raises iff a non-dictionary record comes before any such match; the buckets change only when a record is removed |
| `RuleStore.ConfigRemoveRule` | main.py:89-116 | corrected config removal never raises and changes the buckets only when it removes a record |
| `RuleStore.AsWrittenSyncsTheNextRule` | main.py:286-294 | removing rule `index` syncs the configuration as if rule `index+1` were removed; removing the last rule never touches the configuration |
| `RuleStore.AsWrittenRemovesWrongRecord` | main.py:290-294 | concrete case: removing rule 1 of two drops the second rule's record and keeps the first's |
| `RuleStore.AsWrittenRaisesOnBareRecord` | main.py:108-111 | concrete case: hydrating `delete_rules = ["x", "y"]` gives rules `[x, y]`; removing rule 1 raises on the bare string `"x"` after rule `x` has left memory, and the configuration keeps both records |
| `RuleStore.AsWrittenAddRemoveKeepsRecord` | main.py:218-294 | adding a rule and then removing it at its position restores the list but leaves the new record in the configuration |
| `RuleStore.CorrectedRemovesTheRemovedRule` | main.py:284-294 | corrected removal drops the rule from memory, and removes a record iff its bucket holds one with the rule's pattern; it drops the first such record and keeps the rest in order |
| `RuleStore.CorrectedAddRemoveRoundTrip` | main.py:218-294 | with the corrected removal, and when no record of the bucket already had that pattern, adding a rule and then removing it restores the list and the configuration; the one exception is a non-empty configuration without the bucket key, which is left holding that key with an empty list |
| `Plugin.RegexFilterPlugin.AddRuleToConfig` | main.py:65-86 | the buckets become `ConfigAfterAdd` of the old buckets; the flags do not change; one save happens iff a record was written |
| `Plugin.RegexFilterPlugin.RemoveRuleFromConfig` | main.py:89-116 | the buckets and the result are `ConfigRemoveAt` of the current rule list; one save happens iff a record was removed |
| `Plugin.RegexFilterPlugin.AddRegexRule` | main.py:211-251 | the new list, buckets and outcome are `AddRule` of the old state; the flags do not change; one save happens on success with a non-empty configuration |
| `Plugin.RegexFilterPlugin.RemoveRegexRule` | main.py:284-297 | the new state is `RemoveRuleAsWritten` of the old state, including its mismatched configuration sync |
| `Plugin.RegexFilterPlugin.RemoveRegexRuleCorrected` | main.py:284-297 | the new state is `RemoveRuleCorrected` of the old state |
| `Plugin.RegexFilterPlugin.ToggleListenAll` | main.py:317-327 | the flag is negated; unless the configuration is empty, it is stored under `listen_all_responses` and saved once |
| `Plugin.RegexFilterPlugin.TogglePlugin` | main.py:329-339 | `enabled` is negated; unless the configuration is empty, it is stored under `enabled` and saved once |
| `Plugin.ToggleTwice` | main.py:317-339 | toggling both flags twice restores them; with a non-empty configuration the stored values agree with the fields |

## Left out

- The host hooks `on_llm_response` and `on_decorating_result` (main.py:145-209) are not modelled. They are
  glue over the host's response and message-segment types, which are not part of this model.
- The response text of the commands and the formatting in `list_regex_rules` and `test_regex`
  (main.py:254-315) are not modelled. They only render strings for the user.
- Regex semantics are not modelled. `re.compile` and `re.sub` are the abstract `Engine`.
- Logging is not modelled. The I/O of `save_config()` is not modelled either; it is counted in `saves`.
- Plugin registration and `terminate` (main.py:7, main.py:341-343) are lifecycle plumbing and are left out.
- Configuration values of other types are not modelled: a bucket that is not a list, a flag that is not a
  boolean, or a dictionary field that is not a string. A missing configuration (`config=None`) is modelled
  as an empty `Config`.
- `_apply_rules_to_text` receiving `None` is not modelled. Text is always a string, and `if not text`
  becomes `text == ""`.
- Plugin.RegexFilterPlugin.RemoveRegexRule: if `_remove_rule_from_config` raises, the model returns an
  `AttributeError` outcome instead of propagating an exception. The rule has still left memory, as it
  does in the source.

## Findings

| source | as written | input that shows it | evidently intended | confidence | as-written member | corrected member |
|---|---|---|---|---|---|---|
| main.py:290-294 | `remove_regex_rule` pops rule `index-1` and only then calls `_remove_rule_from_config(index-1)`. That helper reads the shortened list, so it gets the next rule, or finds the index out of range | rules `[a->x, b->y]` with `replace_rules = [{a,x},{b,y}]`; removing rule 1 drops `{b,y}` and keeps `{a,x}` | drop the record of the rule that was removed | high; not executed | `RuleStore.AsWrittenRemovesWrongRecord` | `RuleStore.CorrectedRemovesTheRemovedRule` |
| main.py:109-111 | the removal search calls `r.get("pattern")` on every record. Hydration accepts bare-string records (main.py:21-22), but `get` raises `AttributeError` on them | `delete_rules = ["x", "y"]` hydrates to rules `[x, y]`; removing rule 1 searches for `y`, and `get` raises on the bare string `"x"` after rule `x` has left memory | read each record's pattern the way hydration reads it | medium; not executed | `RuleStore.AsWrittenRaisesOnBareRecord` | `ConfigDocument.LoadableRecordIsFound` |
