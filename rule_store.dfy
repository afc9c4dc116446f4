/**
 * The rule store and its synchronisation with the configuration document:
 * `add_regex_rule` with `_add_rule_to_config`, and `remove_regex_rule` with
 * `_remove_rule_from_config`, as transitions of the pair (rule list, buckets).
 * `configEmpty` is whether the configuration mapping is empty, in which case
 * both helpers return without touching it.
 */
module RuleStore {
  import opened RegexEngine
  import opened Rules
  import opened ConfigDocument

  /** The in-memory rule list together with the configuration's rule buckets. */
  datatype Store = Store(rules: seq<Rule>, buckets: Buckets)

  datatype AddOutcome = MissingPattern | InvalidPattern | Added(action: Action)

  /** What the configuration helper did when a rule was removed; `AttributeError` means it raised. */
  datatype ConfigRemoval = RecordRemoved | NothingRemoved | AttributeError

  datatype RemoveOutcome = IndexOutOfRange | RuleRemoved(rule: Rule, config: ConfigRemoval)

  /** The action `add_regex_rule` infers: no replacement text means delete. */
  function ActionFor(replacement: string): Action
  {
    if replacement == "" then Delete else Replace
  }

  /** The rule `add_regex_rule` appends. */
  function AddedRule(pattern: string, replacement: string): Rule
  {
    var action := ActionFor(replacement);
    if action == Delete then Rule(pattern, replacement, Delete, "动态添加的删除规则: " + pattern)
    else Rule(pattern, replacement, Replace, "动态添加的替换规则: " + pattern + " -> " + replacement)
  }

  /** The bucket a rule of this action is stored under; None for an unsupported action. */
  function BucketKey(action: Action): Option<string>
  {
    match action
    case Replace => Some(REPLACE_KEY)
    case Delete => Some(DELETE_KEY)
    case Other(_) => None
  }

  /** The record `_add_rule_to_config` writes: a delete record carries no replacement. */
  function RecordFor(pattern: string, replacement: string, action: Action): Record
  {
    Entry(Some(pattern), if action == Delete then None else Some(replacement))
  }

  /**
   * `_add_rule_to_config`: the record is appended to the end of its action's
   * bucket; an empty configuration or an unsupported action leaves it alone.
   */
  function ConfigAfterAdd(buckets: Buckets, configEmpty: bool, pattern: string, replacement: string, action: Action): (b: Buckets)
    ensures configEmpty || action.Other? ==> b == buckets
    ensures !configEmpty && !action.Other? ==>
      var key := BucketKey(action).value;
      key in b && b[key] == Bucket(buckets, key) + [RecordFor(pattern, replacement, action)] &&
      forall other :: other != key ==> (other in b <==> other in buckets) && (other in b ==> b[other] == buckets[other])
  {
    if configEmpty then buckets
    else
      match BucketKey(action)
      case None => buckets
      case Some(key) => buckets[key := Bucket(buckets, key) + [RecordFor(pattern, replacement, action)]]
  }

  /** `add_regex_rule`: reject an empty or non-compiling pattern, else append the rule, then sync the configuration. */
  function AddRule(engine: Engine, s: Store, configEmpty: bool, pattern: string, replacement: string): (r: (Store, AddOutcome))
    ensures pattern == "" <==> r.1 == MissingPattern
    ensures r.1 == InvalidPattern <==> pattern != "" && !engine.compiles(pattern)
    ensures !r.1.Added? ==> r.0 == s
    ensures r.1.Added? ==>
      r.1.action == ActionFor(replacement) &&
      |r.0.rules| == |s.rules| + 1 && r.0.rules[..|s.rules|] == s.rules &&
      r.0.rules[|s.rules|].pattern == pattern && r.0.rules[|s.rules|].replacement == replacement &&
      r.0.rules[|s.rules|].action == r.1.action &&
      r.0.buckets == ConfigAfterAdd(s.buckets, configEmpty, pattern, replacement, r.1.action)
  {
    if pattern == "" then (s, MissingPattern)
    else if !engine.compiles(pattern) then (s, InvalidPattern)
    else
      var rule := AddedRule(pattern, replacement);
      (Store(s.rules + [rule], ConfigAfterAdd(s.buckets, configEmpty, pattern, replacement, rule.action)), Added(rule.action))
  }

  /** The buckets with record `j` of bucket `key` popped. */
  function WithoutRecord(buckets: Buckets, key: string, j: nat): Buckets
    requires j < |Bucket(buckets, key)|
  {
    var records := Bucket(buckets, key);
    buckets[key := records[..j] + records[j + 1..]]
  }

  /**
   * `_remove_rule_from_config(index)` as written: it looks up `rules[index]`
   * (of the list it is given) and pops the first dictionary in that rule's
   * bucket whose "pattern" equals the rule's pattern.
   */
  function ConfigRemoveAt(rules: seq<Rule>, buckets: Buckets, configEmpty: bool, index: int): (r: (Buckets, ConfigRemoval))
    ensures configEmpty || index < 0 || index >= |rules| ==> r == (buckets, NothingRemoved)
    ensures r.1 != RecordRemoved ==> r.0 == buckets
    ensures r.1 == RecordRemoved ==>
      0 <= index < |rules| && BucketKey(rules[index].action).Some? &&
      var key := BucketKey(rules[index].action).value;
      var records := Bucket(buckets, key);
      exists j :: 0 <= j < |records| && records[j].Entry? && records[j].pattern == Some(rules[index].pattern) &&
        (forall k :: 0 <= k < j ==> Skipped(records[k], rules[index].pattern)) &&
        r.0 == buckets[key := records[..j] + records[j + 1..]]
    ensures !configEmpty && 0 <= index < |rules| && BucketKey(rules[index].action).None? ==> r == (buckets, NothingRemoved)
    ensures !configEmpty && 0 <= index < |rules| && BucketKey(rules[index].action).Some? ==>
      var records := Bucket(buckets, BucketKey(rules[index].action).value);
      var p := rules[index].pattern;
      (r.1 == RecordRemoved <==>
        exists j :: 0 <= j < |records| && records[j].Entry? && records[j].pattern == Some(p) &&
          forall k :: 0 <= k < j ==> Skipped(records[k], p)) &&
      (r.1 == AttributeError <==>
        exists j :: 0 <= j < |records| && !records[j].Entry? &&
          forall k :: 0 <= k < j ==> Skipped(records[k], p))
  {
    if configEmpty || index < 0 || index >= |rules| then (buckets, NothingRemoved)
    else
      var rule := rules[index];
      match BucketKey(rule.action)
      case None => (buckets, NothingRemoved)
      case Some(key) =>
        match LookupFrom(Bucket(buckets, key), rule.pattern, 0)
        case Found(j) => (WithoutRecord(buckets, key, j), RecordRemoved)
        case Absent => (buckets, NothingRemoved)
        case Unreadable(_) => (buckets, AttributeError)
  }

  /** The rule list with rule `index` (1-based) popped. */
  function Without(rules: seq<Rule>, index: int): seq<Rule>
    requires 1 <= index <= |rules|
  {
    rules[..index - 1] + rules[index..]
  }

  /**
   * `remove_regex_rule` as written: the rule is popped from memory first, and
   * only then is `_remove_rule_from_config(index - 1)` called, which reads the
   * list after the pop.
   */
  function RemoveRuleAsWritten(s: Store, configEmpty: bool, index: int): (Store, RemoveOutcome)
  {
    if index < 1 || index > |s.rules| then (s, IndexOutOfRange)
    else
      var rules := Without(s.rules, index);
      var (buckets, removal) := ConfigRemoveAt(rules, s.buckets, configEmpty, index - 1);
      (Store(rules, buckets), RuleRemoved(s.rules[index - 1], removal))
  }

  /**
   * Corrected `_remove_rule_from_config` for the rule being removed: pop the
   * first record of its bucket whose pattern, read as hydration reads it, is
   * the rule's pattern.
   */
  function ConfigRemoveRule(rule: Rule, buckets: Buckets, configEmpty: bool): (r: (Buckets, ConfigRemoval))
    ensures r.1 != AttributeError
    ensures r.1 != RecordRemoved ==> r.0 == buckets
  {
    if configEmpty then (buckets, NothingRemoved)
    else
      match BucketKey(rule.action)
      case None => (buckets, NothingRemoved)
      case Some(key) =>
        match LookupByPattern(Bucket(buckets, key), rule.pattern, 0)
        case Found(j) => (WithoutRecord(buckets, key, j), RecordRemoved)
        case _ => (buckets, NothingRemoved)
  }

  /** Corrected `remove_regex_rule`: the configuration is synced for the rule that is removed. */
  function RemoveRuleCorrected(s: Store, configEmpty: bool, index: int): (Store, RemoveOutcome)
  {
    if index < 1 || index > |s.rules| then (s, IndexOutOfRange)
    else
      var rule := s.rules[index - 1];
      var (buckets, removal) := ConfigRemoveRule(rule, s.buckets, configEmpty);
      (Store(Without(s.rules, index), buckets), RuleRemoved(rule, removal))
  }

  /**
   * As written, removing rule `index` syncs the configuration for rule
   * `index + 1`, the one that moved into its place; removing the last rule
   * never touches the configuration.
   */
  lemma AsWrittenSyncsTheNextRule(s: Store, configEmpty: bool, index: int)
    requires 1 <= index <= |s.rules|
    ensures var (after, outcome) := RemoveRuleAsWritten(s, configEmpty, index);
      after.rules == Without(s.rules, index) && outcome.RuleRemoved? && outcome.rule == s.rules[index - 1] &&
      (after.buckets, outcome.config) == ConfigRemoveAt(s.rules, s.buckets, configEmpty, index)
  {
  }

  /** Concrete case: removing rule 1 of two deletes the second rule's record and keeps the first's. */
  lemma AsWrittenRemovesWrongRecord()
    ensures var a := Rule("a", "x", Replace, "a");
      var b := Rule("b", "y", Replace, "b");
      var ra := Entry(Some("a"), Some("x"));
      var rb := Entry(Some("b"), Some("y"));
      RemoveRuleAsWritten(Store([a, b], map[REPLACE_KEY := [ra, rb]]), false, 1)
        == (Store([b], map[REPLACE_KEY := [ra]]), RuleRemoved(a, RecordRemoved))
  {
    var a := Rule("a", "x", Replace, "a");
    var b := Rule("b", "y", Replace, "b");
    var ra := Entry(Some("a"), Some("x"));
    var rb := Entry(Some("b"), Some("y"));
    var buckets := map[REPLACE_KEY := [ra, rb]];
    assert Without([a, b], 1) == [b];
    assert Bucket(buckets, REPLACE_KEY) == [ra, rb];
    assert LookupFrom([ra, rb], "b", 0) == Found(1);
    assert [ra, rb][..1] + [ra, rb][2..] == [ra];
    assert WithoutRecord(buckets, REPLACE_KEY, 1) == map[REPLACE_KEY := [ra]];
    assert ConfigRemoveAt([b], buckets, false, 0) == (map[REPLACE_KEY := [ra]], RecordRemoved);
  }

  /**
   * Concrete case: hydrating `delete_rules = ["x", "y"]` loads two delete
   * rules; removing rule 1 then looks up rule "y" and raises on the bare
   * string "x", after rule "x" has left memory.
   */
  lemma AsWrittenRaisesOnBareRecord(engine: Engine)
    requires engine.compiles("x") && engine.compiles("y")
    ensures var b := map[DELETE_KEY := [Bare("x"), Bare("y")]];
      var x := Rule("x", "", Delete, "删除规则: x");
      var y := Rule("y", "", Delete, "删除规则: y");
      InitialRules(engine, b) == [x, y] &&
      RemoveRuleAsWritten(Store(InitialRules(engine, b), b), false, 1)
        == (Store([y], b), RuleRemoved(x, AttributeError))
  {
    var b := map[DELETE_KEY := [Bare("x"), Bare("y")]];
    var x := Rule("x", "", Delete, "删除规则: x");
    var y := Rule("y", "", Delete, "删除规则: y");
    assert Bucket(b, REPLACE_KEY) == [];
    assert Bucket(b, DELETE_KEY) == [Bare("x"), Bare("y")];
    assert Loadable(engine, Bare("x")) && LoadedRule(Bare("x"), Delete) == x;
    assert Loadable(engine, Bare("y")) && LoadedRule(Bare("y"), Delete) == y;
    assert [Bare("x")][..0] == [];
    assert LoadBucket(engine, [Bare("x")], Delete) == [x];
    assert [Bare("x"), Bare("y")][..1] == [Bare("x")];
    assert LoadBucket(engine, [Bare("x"), Bare("y")], Delete) == [x, y];
    assert Hydrated(engine, b) == [x, y];
    assert Without([x, y], 1) == [y];
    assert LookupFrom([Bare("x"), Bare("y")], "y", 0) == Unreadable(0);
  }

  /**
   * As written, adding a rule and removing it again (by the position add gave
   * it) restores the rule list but leaves the new record in the configuration.
   */
  lemma AsWrittenAddRemoveKeepsRecord(engine: Engine, s: Store, configEmpty: bool, pattern: string, replacement: string)
    requires pattern != "" && engine.compiles(pattern)
    ensures var added := AddRule(engine, s, configEmpty, pattern, replacement).0;
      var removed := RemoveRuleAsWritten(added, configEmpty, |s.rules| + 1).0;
      removed.rules == s.rules && removed.buckets == added.buckets
  {
  }

  /**
   * Corrected removal drops the removed rule from memory and, when the
   * configuration holds a record with its pattern in its bucket, drops the
   * first such record and keeps the others in order.
   */
  lemma CorrectedRemovesTheRemovedRule(s: Store, configEmpty: bool, index: int)
    requires 1 <= index <= |s.rules|
    ensures var (after, outcome) := RemoveRuleCorrected(s, configEmpty, index);
      var rule := s.rules[index - 1];
      after.rules == Without(s.rules, index) && outcome == RuleRemoved(rule, outcome.config) &&
      (outcome.config == RecordRemoved <==>
        !configEmpty && BucketKey(rule.action).Some? &&
        exists rec :: rec in Bucket(s.buckets, BucketKey(rule.action).value) && RecordPattern(rec) == rule.pattern) &&
      (outcome.config == RecordRemoved ==>
        var key := BucketKey(rule.action).value;
        var records := Bucket(s.buckets, key);
        exists j :: 0 <= j < |records| && RecordPattern(records[j]) == rule.pattern &&
          (forall k :: 0 <= k < j ==> RecordPattern(records[k]) != rule.pattern) &&
          after.buckets == s.buckets[key := records[..j] + records[j + 1..]])
  {
  }

  /**
   * Corrected round trip: when the bucket held no record with the pattern,
   * adding a rule and removing it by the position add gave it restores both
   * the rule list and the configuration, except that a bucket key that was
   * missing before the add is left behind holding an empty list.
   */
  lemma CorrectedAddRemoveRoundTrip(engine: Engine, s: Store, configEmpty: bool, pattern: string, replacement: string)
    requires pattern != "" && engine.compiles(pattern)
    requires forall rec :: rec in Bucket(s.buckets, BucketKey(ActionFor(replacement)).value) ==> RecordPattern(rec) != pattern
    ensures var added := AddRule(engine, s, configEmpty, pattern, replacement).0;
      var key := BucketKey(ActionFor(replacement)).value;
      RemoveRuleCorrected(added, configEmpty, |s.rules| + 1).0
        == if !configEmpty && key !in s.buckets then Store(s.rules, s.buckets[key := []]) else s
  {
    var (added, outcome) := AddRule(engine, s, configEmpty, pattern, replacement);
    var rule := AddedRule(pattern, replacement);
    assert added.rules == s.rules + [rule];
    assert added.rules[|s.rules|] == rule;
    assert Without(added.rules, |s.rules| + 1) == s.rules;
    if !configEmpty {
      var key := BucketKey(rule.action).value;
      var old_records := Bucket(s.buckets, key);
      var records := Bucket(added.buckets, key);
      assert records == old_records + [RecordFor(pattern, replacement, rule.action)];
      var search := LookupByPattern(records, pattern, 0);
      assert search == Found(|old_records|) by {
        assert RecordPattern(records[|old_records|]) == pattern;
      }
      assert records[..|old_records|] + records[|old_records| + 1..] == old_records;
      if key in s.buckets {
        assert added.buckets[key := old_records] == s.buckets;
      } else {
        assert added.buckets[key := old_records] == s.buckets[key := []];
      }
    }
  }
}
