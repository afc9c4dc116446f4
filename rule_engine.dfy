/**
 * Sequential rule application (`_apply_rules_to_text`): the rules run in list
 * order, each on the output of the previous one, each isolated from the
 * `re.error` of the others, and the 1-based positions of the rules that changed
 * the text are reported.
 */
module RuleEngine {
  import opened RegexEngine
  import opened Rules

  /** The replacement template `re.sub` is called with: the rule's replacement, or "" for a deletion. */
  function Template(rule: Rule): (t: string)
  {
    match rule.action
    case Replace => rule.replacement
    case Delete => ""
    case Other(_) => ""
  }

  /** True when the rule's substitution raises `re.error` on `text`. */
  predicate Raises(engine: Engine, rule: Rule, text: string)
  {
    !rule.action.Other? && engine.sub(rule.pattern, Template(rule), text).RegexError?
  }

  /** The text after one rule: substituted, or unchanged when the action is unknown or the engine raised. */
  function StepText(engine: Engine, rule: Rule, text: string): string
  {
    if rule.action.Other? then text
    else
      match engine.sub(rule.pattern, Template(rule), text)
      case Substituted(t) => t
      case RegexError => text
  }

  /**
   * The loop of `_apply_rules_to_text` after all of `rules`: the text and the
   * positions of the rules that changed it, in the order they ran.
   */
  function Pipeline(engine: Engine, rules: seq<Rule>, text: string): (r: (string, seq<nat>))
    ensures forall k :: 0 <= k < |r.1| ==> 1 <= r.1[k] <= |rules|
    ensures forall k, l :: 0 <= k < l < |r.1| ==> r.1[k] < r.1[l]
    decreases |rules|
  {
    if rules == [] then (text, [])
    else
      var prev := Pipeline(engine, rules[..|rules| - 1], text);
      var next := StepText(engine, rules[|rules| - 1], prev.0);
      (next, if next != prev.0 then prev.1 + [|rules|] else prev.1)
  }

  /** `_apply_rules_to_text`: empty text is returned at once with no applied rule. */
  function ApplyRules(engine: Engine, rules: seq<Rule>, text: string): (string, seq<nat>)
  {
    if text == "" then (text, []) else Pipeline(engine, rules, text)
  }

  /** The text rule `i` (0-based) receives: the output of the rules before it. */
  function TextBefore(engine: Engine, rules: seq<Rule>, text: string, i: nat): string
    requires i <= |rules|
  {
    Pipeline(engine, rules[..i], text).0
  }

  /** Reference definition: the strict left-to-right composition of the rules' substitutions. */
  function Compose(engine: Engine, rules: seq<Rule>, text: string): string
    decreases |rules|
  {
    if rules == [] then text else Compose(engine, rules[1..], StepText(engine, rules[0], text))
  }

  lemma {:induction false} ComposeSnoc(engine: Engine, rules: seq<Rule>, rule: Rule, text: string)
    ensures Compose(engine, rules + [rule], text) == StepText(engine, rule, Compose(engine, rules, text))
    decreases |rules|
  {
    if rules == [] {
      assert [rule][1..] == [];
    } else {
      assert (rules + [rule])[1..] == rules[1..] + [rule];
      ComposeSnoc(engine, rules[1..], rule, StepText(engine, rules[0], text));
    }
  }

  /** Each rule is applied to the output of the previous rule, the first to the input text. */
  lemma {:induction false} PipelineIsLeftToRight(engine: Engine, rules: seq<Rule>, text: string)
    ensures Pipeline(engine, rules, text).0 == Compose(engine, rules, text)
    decreases |rules|
  {
    if rules != [] {
      var n := |rules|;
      PipelineIsLeftToRight(engine, rules[..n - 1], text);
      ComposeSnoc(engine, rules[..n - 1], rules[n - 1], text);
      assert rules[..n - 1] + [rules[n - 1]] == rules;
    }
  }

  /** Position `i + 1` is reported exactly when rule `i` changed the text it received. */
  lemma {:induction false} AppliedIffChanged(engine: Engine, rules: seq<Rule>, text: string, i: nat)
    requires i < |rules|
    ensures i + 1 in Pipeline(engine, rules, text).1
        <==> StepText(engine, rules[i], TextBefore(engine, rules, text, i)) != TextBefore(engine, rules, text, i)
    decreases |rules|
  {
    var n := |rules|;
    var prefix := rules[..n - 1];
    if i == n - 1 {
      assert prefix == rules[..i];
      assert n !in Pipeline(engine, prefix, text).1;
    } else {
      assert prefix[..i] == rules[..i];
      AppliedIffChanged(engine, prefix, text, i);
    }
  }

  /**
   * A rule whose substitution raises leaves the text as it was, is not
   * reported, and the next rule runs on the text from before it.
   */
  lemma RaisingRuleIsSkipped(engine: Engine, rules: seq<Rule>, text: string, i: nat)
    requires i < |rules|
    requires Raises(engine, rules[i], TextBefore(engine, rules, text, i))
    ensures TextBefore(engine, rules, text, i + 1) == TextBefore(engine, rules, text, i)
    ensures i + 1 !in Pipeline(engine, rules, text).1
    ensures i + 1 < |rules| ==>
      TextBefore(engine, rules, text, i + 2) == StepText(engine, rules[i + 1], TextBefore(engine, rules, text, i))
  {
    assert rules[..i + 1][..i] == rules[..i];
    AppliedIffChanged(engine, rules, text, i);
    if i + 1 < |rules| {
      assert rules[..i + 2][..i + 1] == rules[..i + 1];
    }
  }

  /** When no rule changes the input, the input comes back with no applied rule. */
  lemma {:induction false} NothingMatchesIsNoOp(engine: Engine, rules: seq<Rule>, text: string)
    requires forall k :: 0 <= k < |rules| ==> StepText(engine, rules[k], text) == text
    ensures Pipeline(engine, rules, text) == (text, [])
    decreases |rules|
  {
    if rules != [] {
      NothingMatchesIsNoOp(engine, rules[..|rules| - 1], text);
    }
  }
}
