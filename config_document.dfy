/**
 * The configuration document as the plugin reads it: buckets of raw rule
 * records under "replace_rules" and "delete_rules", how `__init__` hydrates
 * them into rules, and how `_remove_rule_from_config` searches a bucket.
 */
module ConfigDocument {
  import opened RegexEngine
  import opened Rules

  datatype Option<T> = None | Some(value: T)

  /**
   * One raw record of a bucket: a bare string (pattern only), a dictionary
   * whose "pattern" and "replacement" keys may be missing, or any other value,
   * which hydration reads through its string form.
   */
  datatype Record = Bare(text: string) | Entry(pattern: Option<string>, replacement: Option<string>) | Scalar(shown: string)

  /** Bucket name to records; a missing key reads as an empty bucket. */
  type Buckets = map<string, seq<Record>>

  const REPLACE_KEY: string := "replace_rules"
  const DELETE_KEY: string := "delete_rules"
  const ENABLED_KEY: string := "enabled"
  const LISTEN_ALL_KEY: string := "listen_all_responses"

  function Bucket(buckets: Buckets, key: string): seq<Record>
  {
    if key in buckets then buckets[key] else []
  }

  function FlagOr(flags: map<string, bool>, key: string, default: bool): bool
  {
    if key in flags then flags[key] else default
  }

  /** The pattern hydration reads from a record (a missing "pattern" key reads as ""). */
  function RecordPattern(rec: Record): string
  {
    match rec
    case Bare(s) => s
    case Entry(p, _) => if p.Some? then p.value else ""
    case Scalar(s) => s
  }

  /** The replacement hydration reads from a replace-bucket record: only a dictionary carries one. */
  function RecordReplacement(rec: Record): string
  {
    match rec
    case Entry(_, r) => if r.Some? then r.value else ""
    case _ => ""
  }

  /** A record survives hydration when its pattern is non-empty and compiles. */
  predicate Loadable(engine: Engine, rec: Record)
  {
    RecordPattern(rec) != "" && engine.compiles(RecordPattern(rec))
  }

  /** The rule a surviving record of the replace or delete bucket becomes. */
  function LoadedRule(rec: Record, action: Action): Rule
    requires action == Replace || action == Delete
  {
    var p := RecordPattern(rec);
    if action == Replace then
      var r := RecordReplacement(rec);
      Rule(p, r, Replace, "替换规则: " + p + " -> " + r)
    else
      Rule(p, "", Delete, "删除规则: " + p)
  }

  /** One loading loop of `__init__`: the surviving records of a bucket, in bucket order, as rules. */
  function LoadBucket(engine: Engine, records: seq<Record>, action: Action): (r: seq<Rule>)
    requires action == Replace || action == Delete
    ensures |r| <= |records|
    ensures forall k :: 0 <= k < |r| ==> r[k].action == action && r[k].pattern != "" && engine.compiles(r[k].pattern)
    decreases |records|
  {
    if records == [] then []
    else
      var last := records[|records| - 1];
      LoadBucket(engine, records[..|records| - 1], action)
        + (if Loadable(engine, last) then [LoadedRule(last, action)] else [])
  }

  /** The rules both loading loops produce: the replace bucket's, then the delete bucket's. */
  function Hydrated(engine: Engine, buckets: Buckets): seq<Rule>
  {
    LoadBucket(engine, Bucket(buckets, REPLACE_KEY), Replace) + LoadBucket(engine, Bucket(buckets, DELETE_KEY), Delete)
  }

  /** The rule list after `__init__`: the hydrated rules, or the built-in defaults when there are none. */
  function InitialRules(engine: Engine, buckets: Buckets): seq<Rule>
  {
    var loaded := Hydrated(engine, buckets);
    if loaded == [] then DefaultRules() else loaded
  }

  /** A rule is loaded from a bucket exactly when some surviving record of it produces that rule. */
  lemma {:induction false} LoadBucketMembership(engine: Engine, records: seq<Record>, action: Action, rule: Rule)
    requires action == Replace || action == Delete
    ensures rule in LoadBucket(engine, records, action)
        <==> exists rec :: rec in records && Loadable(engine, rec) && rule == LoadedRule(rec, action)
    decreases |records|
  {
    if records != [] {
      var init := records[..|records| - 1];
      var last := records[|records| - 1];
      LoadBucketMembership(engine, init, action, rule);
      assert records == init + [last];
      if exists rec :: rec in records && Loadable(engine, rec) && rule == LoadedRule(rec, action) {
        var rec :| rec in records && Loadable(engine, rec) && rule == LoadedRule(rec, action);
        if rec != last {
          assert rec in init;
        }
      }
    }
  }

  /** Every rule from the replace bucket comes before every rule from the delete bucket. */
  lemma HydratedOrder(engine: Engine, buckets: Buckets)
    ensures var r := Hydrated(engine, buckets);
      forall i, j :: 0 <= i < |r| && 0 <= j < |r| && r[i].action == Replace && r[j].action == Delete ==> i < j
  {
  }

  /**
   * Hydration keeps exactly the surviving records: a rule is hydrated iff a
   * record of the replace bucket or of the delete bucket with a non-empty,
   * compiling pattern produces it.
   */
  lemma HydratedMembership(engine: Engine, buckets: Buckets, rule: Rule)
    ensures rule in Hydrated(engine, buckets) <==>
      ((exists rec :: rec in Bucket(buckets, REPLACE_KEY) && Loadable(engine, rec) && rule == LoadedRule(rec, Replace)) ||
       (exists rec :: rec in Bucket(buckets, DELETE_KEY) && Loadable(engine, rec) && rule == LoadedRule(rec, Delete)))
  {
    LoadBucketMembership(engine, Bucket(buckets, REPLACE_KEY), Replace, rule);
    LoadBucketMembership(engine, Bucket(buckets, DELETE_KEY), Delete, rule);
  }

  /** A bare-string record of the replace bucket becomes a replace rule with an empty replacement. */
  lemma BareReplaceRecordHasEmptyReplacement(engine: Engine, buckets: Buckets, s: string)
    requires Bare(s) in Bucket(buckets, REPLACE_KEY)
    requires s != "" && engine.compiles(s)
    ensures Rule(s, "", Replace, "替换规则: " + s + " -> ") in Hydrated(engine, buckets)
  {
    assert LoadedRule(Bare(s), Replace) == Rule(s, "", Replace, "替换规则: " + s + " -> ");
    HydratedMembership(engine, buckets, LoadedRule(Bare(s), Replace));
  }

  /**
   * The built-in defaults are the rule list exactly when hydration produced
   * nothing (a hydrated rule's description never matches a default's), and
   * the rule list is never empty.
   */
  lemma DefaultsExactlyWhenNothingLoaded(engine: Engine, buckets: Buckets)
    ensures InitialRules(engine, buckets) == DefaultRules() <==> Hydrated(engine, buckets) == []
    ensures |InitialRules(engine, buckets)| == if Hydrated(engine, buckets) == [] then 3 else |Hydrated(engine, buckets)|
  {
    var loaded := Hydrated(engine, buckets);
    if loaded != [] {
      var first := loaded[0];
      HydratedMembership(engine, buckets, first);
      var d := DefaultRules()[0].description;
      assert d[0] == '将';
      if first.action == Replace {
        var rec :| rec in Bucket(buckets, REPLACE_KEY) && Loadable(engine, rec) && first == LoadedRule(rec, Replace);
        assert first.description[0] == '替';
      } else {
        var rec :| rec in Bucket(buckets, DELETE_KEY) && Loadable(engine, rec) && first == LoadedRule(rec, Delete);
        assert first.description[0] == '删';
      }
      assert first.description != d;
    }
  }

  /** The outcome of searching a bucket for a record. */
  datatype Search = Found(index: nat) | Absent | Unreadable(index: nat)

  /** A record the search of `_remove_rule_from_config` steps over: a dictionary whose "pattern" differs. */
  predicate Skipped(rec: Record, pattern: string)
  {
    rec.Entry? && rec.pattern != Some(pattern)
  }

  /**
   * The search loop of `_remove_rule_from_config` from position `from`: it
   * calls `r.get("pattern")` on every record, so it stops at the first
   * dictionary whose pattern matches, or at the first record that is not a
   * dictionary, where `get` raises.
   */
  function LookupFrom(records: seq<Record>, pattern: string, from: nat): (s: Search)
    requires from <= |records|
    ensures s.Found? ==> from <= s.index < |records| && records[s.index].Entry? && records[s.index].pattern == Some(pattern)
    ensures s.Unreadable? ==> from <= s.index < |records| && !records[s.index].Entry?
    ensures forall j :: from <= j < |records| && (s.Absent? || j < s.index) ==> Skipped(records[j], pattern)
    decreases |records| - from
  {
    if from == |records| then Absent
    else if !records[from].Entry? then Unreadable(from)
    else if records[from].pattern == Some(pattern) then Found(from)
    else LookupFrom(records, pattern, from + 1)
  }

  /** The search loop of `_remove_rule_from_config`, run over a bucket. */
  method FindRecord(records: seq<Record>, pattern: string) returns (s: Search)
    ensures s == LookupFrom(records, pattern, 0)
  {
    var i := 0;
    while i < |records|
      invariant i <= |records|
      invariant LookupFrom(records, pattern, i) == LookupFrom(records, pattern, 0)
    {
      if !records[i].Entry? {
        return Unreadable(i);
      }
      if records[i].pattern == Some(pattern) {
        return Found(i);
      }
      i := i + 1;
    }
    return Absent;
  }

  /**
   * Corrected search: the first record whose pattern, read as hydration reads
   * it, is `pattern`. It never raises, so a bare-string record can be found.
   */
  function LookupByPattern(records: seq<Record>, pattern: string, from: nat): (s: Search)
    requires from <= |records|
    ensures !s.Unreadable?
    ensures s.Found? ==> from <= s.index < |records| && RecordPattern(records[s.index]) == pattern
    ensures forall j :: from <= j < |records| && (s.Absent? || j < s.index) ==> RecordPattern(records[j]) != pattern
    decreases |records| - from
  {
    if from == |records| then Absent
    else if RecordPattern(records[from]) == pattern then Found(from)
    else LookupByPattern(records, pattern, from + 1)
  }

  /** The as-written search raises on a bucket holding a bare string before the wanted record. */
  lemma BareRecordMakesLookupRaise()
    ensures LookupFrom([Bare("x"), Entry(Some("y"), None)], "y", 0) == Unreadable(0)
    ensures LookupFrom([Bare("y")], "y", 0) == Unreadable(0)
    ensures LookupByPattern([Bare("x"), Entry(Some("y"), None)], "y", 0) == Found(1)
    ensures LookupByPattern([Bare("y")], "y", 0) == Found(0)
  {
  }

  /** Any record that survives hydration is found again by the corrected search for its pattern. */
  lemma LoadableRecordIsFound(engine: Engine, records: seq<Record>, rec: Record)
    requires rec in records && Loadable(engine, rec)
    ensures LookupByPattern(records, RecordPattern(rec), 0).Found?
  {
  }
}
