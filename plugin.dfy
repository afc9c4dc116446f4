/**
 * `RegexFilterPlugin` and the configuration object it holds. The plugin's
 * rule list and flags are fields its command handlers update in place. The
 * constructor and the add and remove methods are proved to produce the
 * transitions of the pure modules; the toggles state their new state directly.
 */
module Plugin {
  import opened RegexEngine
  import opened Rules
  import opened RuleEngine
  import opened ConfigDocument
  import opened RuleStore

  /**
   * The host's configuration mapping: the rule buckets and the boolean
   * settings. `saves` counts the calls of `save_config`, whose I/O is not
   * modelled.
   */
  class Config {
    var buckets: Buckets
    var flags: map<string, bool>
    var saves: nat

    constructor (buckets: Buckets, flags: map<string, bool>)
      ensures this.buckets == buckets && this.flags == flags && saves == 0
    {
      this.buckets := buckets;
      this.flags := flags;
      saves := 0;
    }

    /** An empty mapping is falsy, and every helper that writes to it then returns early. */
    predicate IsEmpty()
      reads this
    {
      |buckets| == 0 && |flags| == 0
    }

    method Save()
      modifies this`saves
      ensures saves == old(saves) + 1
    {
      saves := saves + 1;
    }
  }

  class RegexFilterPlugin {
    const engine: Engine
    const config: Config
    var rules: seq<Rule>
    var enabled: bool
    var listenAllResponses: bool

    /**
     * `__init__`: reads the two flags, loads the replace bucket then the
     * delete bucket, and falls back to the built-in rules when nothing loads.
     * The fallback rules are not written to the configuration.
     */
    constructor (engine: Engine, config: Config)
      ensures this.engine == engine && this.config == config
      ensures rules == InitialRules(engine, config.buckets)
      ensures enabled == FlagOr(config.flags, ENABLED_KEY, true)
      ensures listenAllResponses == FlagOr(config.flags, LISTEN_ALL_KEY, false)
      ensures unchanged(config)
    {
      this.engine := engine;
      this.config := config;
      enabled := FlagOr(config.flags, ENABLED_KEY, true);
      listenAllResponses := FlagOr(config.flags, LISTEN_ALL_KEY, false);
      rules := [];
      new;
      var replaceRecords := Bucket(config.buckets, REPLACE_KEY);
      var i := 0;
      while i < |replaceRecords|
        modifies this`rules
        invariant i <= |replaceRecords|
        invariant rules == LoadBucket(engine, replaceRecords[..i], Replace)
      {
        var rec := replaceRecords[i];
        if Loadable(engine, rec) {
          rules := rules + [LoadedRule(rec, Replace)];
        }
        assert replaceRecords[..i + 1][..i] == replaceRecords[..i];
        i := i + 1;
      }
      assert replaceRecords[..i] == replaceRecords;
      var loaded := rules;
      var deleteRecords := Bucket(config.buckets, DELETE_KEY);
      var j := 0;
      while j < |deleteRecords|
        modifies this`rules
        invariant j <= |deleteRecords|
        invariant rules == loaded + LoadBucket(engine, deleteRecords[..j], Delete)
      {
        var rec := deleteRecords[j];
        if Loadable(engine, rec) {
          rules := rules + [LoadedRule(rec, Delete)];
        }
        assert deleteRecords[..j + 1][..j] == deleteRecords[..j];
        j := j + 1;
      }
      assert deleteRecords[..j] == deleteRecords;
      if rules == [] {
        rules := DefaultRules();
      }
    }

    /** `_add_rule_to_config`: append the record to its bucket and save, unless the configuration is empty. */
    method AddRuleToConfig(pattern: string, replacement: string, action: Action)
      modifies config
      ensures config.buckets == ConfigAfterAdd(old(config.buckets), old(config.IsEmpty()), pattern, replacement, action)
      ensures config.flags == old(config.flags)
      ensures config.saves == old(config.saves) + (if old(config.IsEmpty()) || action.Other? then 0 else 1)
    {
      if config.IsEmpty() {
        return;
      }
      var key := BucketKey(action);
      if key.None? {
        return;
      }
      var records := Bucket(config.buckets, key.value);
      records := records + [RecordFor(pattern, replacement, action)];
      config.buckets := config.buckets[key.value := records];
      config.Save();
    }

    /**
     * `_remove_rule_from_config(index)`: look up `rules[index]` and pop the
     * first matching dictionary of its bucket, saving only when one was popped.
     */
    method RemoveRuleFromConfig(index: int) returns (removal: ConfigRemoval)
      modifies config
      ensures (config.buckets, removal) == ConfigRemoveAt(rules, old(config.buckets), old(config.IsEmpty()), index)
      ensures config.flags == old(config.flags)
      ensures config.saves == old(config.saves) + (if removal == RecordRemoved then 1 else 0)
    {
      if config.IsEmpty() || index < 0 || index >= |rules| {
        return NothingRemoved;
      }
      var rule := rules[index];
      var key := BucketKey(rule.action);
      if key.None? {
        return NothingRemoved;
      }
      var records := Bucket(config.buckets, key.value);
      var search := FindRecord(records, rule.pattern);
      match search
      case Found(j) =>
        config.buckets := config.buckets[key.value := records[..j] + records[j + 1..]];
        config.Save();
        removal := RecordRemoved;
      case Absent =>
        removal := NothingRemoved;
      case Unreadable(_) =>
        removal := AttributeError;
    }

    /**
     * `_apply_rules_to_text`: run every rule in order on the running text and
     * collect the 1-based positions of the rules that changed it.
     */
    method ApplyRulesToText(text: string) returns (modified: string, applied: seq<nat>)
      ensures (modified, applied) == ApplyRules(engine, rules, text)
      ensures text == "" ==> modified == "" && applied == []
      ensures forall k :: 0 <= k < |applied| ==> 1 <= applied[k] <= |rules|
    {
      if text == "" {
        return text, [];
      }
      modified := text;
      applied := [];
      var i := 0;
      while i < |rules|
        invariant i <= |rules|
        invariant (modified, applied) == Pipeline(engine, rules[..i], text)
      {
        var rule := rules[i];
        var before := modified;
        var outcome := Substituted(modified);
        if rule.action == Replace {
          outcome := engine.sub(rule.pattern, rule.replacement, modified);
        } else if rule.action == Delete {
          outcome := engine.sub(rule.pattern, "", modified);
        }
        if outcome.Substituted? {
          modified := outcome.text;
        }
        if before != modified {
          applied := applied + [i + 1];
        }
        assert rules[..i + 1][..i] == rules[..i];
        i := i + 1;
      }
      assert rules[..i] == rules;
    }

    /** `add_regex_rule`: validate, append the rule to memory, then sync the configuration. */
    method AddRegexRule(pattern: string, replacement: string) returns (outcome: AddOutcome)
      modifies this`rules, config
      ensures (Store(rules, config.buckets), outcome)
        == AddRule(engine, Store(old(rules), old(config.buckets)), old(config.IsEmpty()), pattern, replacement)
      ensures config.flags == old(config.flags)
      ensures config.saves == old(config.saves) + (if outcome.Added? && !old(config.IsEmpty()) then 1 else 0)
    {
      if pattern == "" {
        return MissingPattern;
      }
      var action := ActionFor(replacement);
      if !engine.compiles(pattern) {
        return InvalidPattern;
      }
      var rule := AddedRule(pattern, replacement);
      rules := rules + [rule];
      AddRuleToConfig(pattern, replacement, action);
      outcome := Added(action);
    }

    /**
     * `remove_regex_rule` as written: pop the rule from memory, then call
     * `_remove_rule_from_config(index - 1)` on the shortened list.
     */
    method RemoveRegexRule(index: int) returns (outcome: RemoveOutcome)
      modifies this`rules, config
      ensures (Store(rules, config.buckets), outcome)
        == RemoveRuleAsWritten(Store(old(rules), old(config.buckets)), old(config.IsEmpty()), index)
      ensures config.flags == old(config.flags)
      ensures config.saves == old(config.saves) + (if outcome.RuleRemoved? && outcome.config == RecordRemoved then 1 else 0)
    {
      if index < 1 || index > |rules| {
        return IndexOutOfRange;
      }
      var removed := rules[index - 1];
      rules := Without(rules, index);
      var removal := RemoveRuleFromConfig(index - 1);
      outcome := RuleRemoved(removed, removal);
    }

    /**
     * Corrected `remove_regex_rule`: the configuration record is looked up for
     * the removed rule itself, with the corrected search, before it is popped.
     */
    method RemoveRegexRuleCorrected(index: int) returns (outcome: RemoveOutcome)
      modifies this`rules, config
      ensures (Store(rules, config.buckets), outcome)
        == RemoveRuleCorrected(Store(old(rules), old(config.buckets)), old(config.IsEmpty()), index)
      ensures config.flags == old(config.flags)
      ensures config.saves == old(config.saves) + (if outcome.RuleRemoved? && outcome.config == RecordRemoved then 1 else 0)
    {
      if index < 1 || index > |rules| {
        return IndexOutOfRange;
      }
      var removed := rules[index - 1];
      var removal := NothingRemoved;
      var key := BucketKey(removed.action);
      if !config.IsEmpty() && key.Some? {
        var records := Bucket(config.buckets, key.value);
        var search := LookupByPattern(records, removed.pattern, 0);
        if search.Found? {
          var j := search.index;
          config.buckets := config.buckets[key.value := records[..j] + records[j + 1..]];
          config.Save();
          removal := RecordRemoved;
        }
      }
      rules := Without(rules, index);
      outcome := RuleRemoved(removed, removal);
    }

    /** `toggle_listen_all`: flip the flag and, unless the configuration is empty, store and save it. */
    method ToggleListenAll()
      modifies this`listenAllResponses, config
      ensures listenAllResponses == !old(listenAllResponses)
      ensures config.buckets == old(config.buckets)
      ensures old(config.IsEmpty()) ==> config.flags == old(config.flags) && config.saves == old(config.saves)
      ensures !old(config.IsEmpty()) ==>
        config.flags == old(config.flags)[LISTEN_ALL_KEY := listenAllResponses] && config.saves == old(config.saves) + 1
    {
      listenAllResponses := !listenAllResponses;
      if !config.IsEmpty() {
        config.flags := config.flags[LISTEN_ALL_KEY := listenAllResponses];
        config.Save();
      }
    }

    /** `toggle_plugin`: flip `enabled` and, unless the configuration is empty, store and save it. */
    method TogglePlugin()
      modifies this`enabled, config
      ensures enabled == !old(enabled)
      ensures config.buckets == old(config.buckets)
      ensures old(config.IsEmpty()) ==> config.flags == old(config.flags) && config.saves == old(config.saves)
      ensures !old(config.IsEmpty()) ==>
        config.flags == old(config.flags)[ENABLED_KEY := enabled] && config.saves == old(config.saves) + 1
    {
      enabled := !enabled;
      if !config.IsEmpty() {
        config.flags := config.flags[ENABLED_KEY := enabled];
        config.Save();
      }
    }
  }

  /**
   * Toggling twice restores both flags; with a non-empty configuration the
   * stored value then agrees with the field and two saves were made.
   */
  method ToggleTwice(plugin: RegexFilterPlugin)
    modifies plugin, plugin.config
    ensures plugin.enabled == old(plugin.enabled) && plugin.listenAllResponses == old(plugin.listenAllResponses)
    ensures plugin.rules == old(plugin.rules) && plugin.config.buckets == old(plugin.config.buckets)
    ensures !old(plugin.config.IsEmpty()) ==>
      ENABLED_KEY in plugin.config.flags && plugin.config.flags[ENABLED_KEY] == plugin.enabled &&
      LISTEN_ALL_KEY in plugin.config.flags && plugin.config.flags[LISTEN_ALL_KEY] == plugin.listenAllResponses &&
      plugin.config.saves == old(plugin.config.saves) + 4
  {
    plugin.TogglePlugin();
    plugin.TogglePlugin();
    plugin.ToggleListenAll();
    plugin.ToggleListenAll();
  }
}
