/**
 * The endpoint limit tables of the two rate limiters. Both look a path up the same
 * way: the entry whose key is the path, else the first entry in insertion order whose
 * key is a prefix of the path, else the default.
 */
module Limits {
  import opened Wrappers
  import opened Text

  /** At most `requests` calls per `window` seconds. */
  datatype Limit = Limit(requests: nat, window: nat)

  /** One entry of a limits dict, in insertion order. */
  datatype Rule = Rule(path: string, limit: Limit)

  /** The first rule whose key is the path. */
  function ExactRule(table: seq<Rule>, path: string): (r: Option<nat>)
    ensures r.Some? ==> r.value < |table| && table[r.value].path == path
    ensures r.Some? ==> forall j :: 0 <= j < r.value ==> table[j].path != path
    ensures r.None? <==> forall j :: 0 <= j < |table| ==> table[j].path != path
  {
    if table == [] then None
    else if table[0].path == path then Some(0)
    else
      match ExactRule(table[1..], path)
      case None => None
      case Some(i) => Some(i + 1)
  }

  /** The first rule whose key is a prefix of the path. */
  function PrefixRule(table: seq<Rule>, path: string): (r: Option<nat>)
    ensures r.Some? ==> r.value < |table| && StartsWith(path, table[r.value].path)
    ensures r.Some? ==> forall j :: 0 <= j < r.value ==> !StartsWith(path, table[j].path)
    ensures r.None? <==> forall j :: 0 <= j < |table| ==> !StartsWith(path, table[j].path)
  {
    if table == [] then None
    else if StartsWith(path, table[0].path) then Some(0)
    else
      match PrefixRule(table[1..], path)
      case None => None
      case Some(i) => Some(i + 1)
  }

  /** The limit of a path: exact key, then first prefix, then the default. */
  function LimitFor(table: seq<Rule>, default: Limit, path: string): (r: Limit)
    ensures (exists i :: 0 <= i < |table| && table[i].path == path) ==>
              exists i :: 0 <= i < |table| && table[i].path == path && r == table[i].limit
    ensures (exists i :: 0 <= i < |table| && StartsWith(path, table[i].path)) ==>
              exists i :: 0 <= i < |table| && StartsWith(path, table[i].path) && r == table[i].limit
  {
    match ExactRule(table, path)
    case Some(i) => table[i].limit
    case None =>
      match PrefixRule(table, path)
      case Some(i) => table[i].limit
      case None => default
  }

  /**
   * The lookup, rule by rule: a listed path gets the limit of its own entry; an unlisted
   * one the limit of the first entry that prefixes it; a path no entry prefixes the
   * default.
   */
  lemma LimitForSpec(table: seq<Rule>, default: Limit, path: string)
    ensures forall i :: (0 <= i < |table| && table[i].path == path && (forall j :: 0 <= j < i ==> table[j].path != path))
              ==> LimitFor(table, default, path) == table[i].limit
    ensures (forall j :: 0 <= j < |table| ==> table[j].path != path) ==>
              forall i :: (0 <= i < |table| && StartsWith(path, table[i].path) && (forall j :: 0 <= j < i ==> !StartsWith(path, table[j].path)))
                ==> LimitFor(table, default, path) == table[i].limit
    ensures (forall j :: 0 <= j < |table| ==> !StartsWith(path, table[j].path)) ==> LimitFor(table, default, path) == default
  {
  }

  /** Every answer is a limit of the table or the default. */
  lemma LimitForIsConfigured(table: seq<Rule>, default: Limit, path: string)
    ensures LimitFor(table, default, path) == default || exists i :: 0 <= i < |table| && LimitFor(table, default, path) == table[i].limit
  {
  }

  /** A bound every configured limit meets holds for every lookup. */
  lemma LimitForWithin(table: seq<Rule>, default: Limit, path: string, p: Limit -> bool)
    requires p(default) && forall i :: 0 <= i < |table| ==> p(table[i].limit)
    ensures p(LimitFor(table, default, path))
  {
    LimitForIsConfigured(table, default, path);
  }
}
