/** The rule record the plugin keeps in memory: `[pattern, replacement, action, description]`. */
module Rules {

  /** The action of a rule. Only `Replace` and `Delete` are ever created; any other name is ignored when applied. */
  datatype Action = Replace | Delete | Other(name: string)

  datatype Rule = Rule(pattern: string, replacement: string, action: Action, description: string)

  /** The three built-in rules used when the configuration yields no rule at all. */
  function DefaultRules(): seq<Rule>
  {
    [ Rule("不可以", "可以", Replace, "将\"不可以\"替换为\"可以\""),
      Rule("(糟糕|坏|不好)", "好", Replace, "将\"糟糕\"、\"坏\"或\"不好\"替换为\"好\""),
      Rule("问题", "", Delete, "删除所有\"问题\"") ]
  }
}
