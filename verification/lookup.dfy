/**
 * The "dict keyed by a normalised name, then get_close_matches(q, list(d.keys()), n=1)"
 * idiom, used both when saving an edital and when correcting an extracted advisor.
 *
 * The column holds the key of every row in table order. The dict keeps the first
 * occurrence's position among its keys and the last row's value for a repeated key.
 */
module Lookup {
  import opened Wrappers
  import opened Similarity
  import opened Store
  import opened Matching

  /**
   * Row i is the one a lookup of q picks: its key reaches the cutoff, outranks every
   * other key that does (score first, then Python's string order, as heapq.nlargest
   * breaks ties), and no later row shares it.
   */
  ghost predicate Chosen(ratio: (string, string) -> real, col: seq<string>, q: string, cutoff: real, i: int) {
    && 0 <= i < |col|
    && ratio(col[i], q) >= cutoff
    && (forall j :: 0 <= j < |col| && ratio(col[j], q) >= cutoff ==> RanksAbove(ratio, q, col[i], col[j]))
    && (forall j :: i < j < |col| ==> col[j] != col[i])
  }

  /** The row the best close match of q designates, if any key reaches the cutoff. */
  function BestLast(ratio: (string, string) -> real, col: seq<string>, q: string, cutoff: real): (r: Option<nat>)
    requires 0.0 <= cutoff <= 1.0
    ensures r.Some? ==> Chosen(ratio, col, q, cutoff, r.value)
    ensures r.None? <==> forall j :: 0 <= j < |col| ==> ratio(col[j], q) < cutoff
  {
    var ms := CloseMatches(ratio, q, Dedupe(col), 1, cutoff);
    KeysOfDict(col);
    if ms == [] then None
    else
      match LastOf(col, ms[0])
      case None => assert false; None
      case Some(i) =>
        BestIsChosen(ratio, col, q, cutoff, i);
        Some(i)
  }

  /** Every key of the column is a key of the dict. */
  lemma KeysOfDict(col: seq<string>)
    ensures forall j :: 0 <= j < |col| ==> col[j] in Dedupe(col)
  {
  }

  /** The last holder of the best close match is the chosen row. */
  lemma BestIsChosen(ratio: (string, string) -> real, col: seq<string>, q: string, cutoff: real, i: nat)
    requires 0.0 <= cutoff <= 1.0
    requires var ms := CloseMatches(ratio, q, Dedupe(col), 1, cutoff);
      ms != [] && LastOf(col, ms[0]) == Some(i)
    ensures Chosen(ratio, col, q, cutoff, i)
  {
    CloseMatchesBest(ratio, q, Dedupe(col), cutoff);
    KeysOfDict(col);
    forall j | 0 <= j < |col| && ratio(col[j], q) >= cutoff ensures RanksAbove(ratio, q, col[i], col[j]) {
      assert col[j] in Dedupe(col);
    }
  }

  /** At most one row is chosen: the best key is unique and so is its last holder. */
  lemma ChosenUnique(ratio: (string, string) -> real, col: seq<string>, q: string, cutoff: real, a: int, b: int)
    requires Chosen(ratio, col, q, cutoff, a) && Chosen(ratio, col, q, cutoff, b)
    ensures a == b
  {
    assert RanksAbove(ratio, q, col[a], col[b]) && RanksAbove(ratio, q, col[b], col[a]);
    if col[a] != col[b] {
      StrLessTotal(col[a], col[b]);
      assert false;
    }
  }

  /** The lookup, against the reference description: it answers with the chosen row whenever there is one. */
  lemma BestLastIsChosen(ratio: (string, string) -> real, col: seq<string>, q: string, cutoff: real, i: int)
    requires 0.0 <= cutoff <= 1.0
    requires Chosen(ratio, col, q, cutoff, i)
    ensures BestLast(ratio, col, q, cutoff) == Some(i)
  {
    var r := BestLast(ratio, col, q, cutoff);
    ChosenUnique(ratio, col, q, cutoff, i, r.value);
  }

  /** A query that is one of the keys is always found. */
  lemma KnownKeyIsFound(ratio: (string, string) -> real, col: seq<string>, q: string, cutoff: real)
    requires ValidRatio(ratio)
    requires 0.0 <= cutoff <= 1.0
    requires q in col
    ensures BestLast(ratio, col, q, cutoff).Some?
  {
    var j :| 0 <= j < |col| && col[j] == q;
    assert ratio(q, q) == 1.0;
  }

  /** A query that is one of the keys picks a row whose key scores 1 against it. */
  lemma KnownKeyScoresOne(ratio: (string, string) -> real, col: seq<string>, q: string, cutoff: real)
    requires ValidRatio(ratio)
    requires 0.0 <= cutoff <= 1.0
    requires q in col
    ensures var r := BestLast(ratio, col, q, cutoff);
      r.Some? && ratio(col[r.value], q) == 1.0
  {
    KnownKeyIsFound(ratio, col, q, cutoff);
    var r := BestLast(ratio, col, q, cutoff);
    var j :| 0 <= j < |col| && col[j] == q;
    assert ratio(q, q) == 1.0;
    assert RanksAbove(ratio, q, col[r.value], col[j]);
  }
}
