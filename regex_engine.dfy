/**
 * The regular-expression engine the plugin delegates to (Python's `re` module).
 * Its semantics are not modelled: an engine is a value handed to the plugin,
 * so every property proved below holds for every engine.
 */
module RegexEngine {

  /** What one `re.sub` call produces: the rewritten text, or a `re.error` raised while matching. */
  datatype SubOutcome = Substituted(text: string) | RegexError

  /**
   * `compiles(p)` says whether `re.compile(p)` succeeds;
   * `sub(p, repl, text)` is `re.sub(p, repl, text)`.
   */
  datatype Engine = Engine(compiles: string -> bool, sub: (string, string, string) -> SubOutcome)
}
