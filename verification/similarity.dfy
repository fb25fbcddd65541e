/**
 * The similarity primitives of the matching engine: difflib.get_close_matches over an
 * abstract ratio, and the Jaccard score of two token sets.
 *
 * The ratio is a parameter `ratio(possibility, query)`, SequenceMatcher's ratio with the
 * possibility as the first sequence and the query as the second. Its internals are not
 * modelled; lemmas that need its range or its value on equal strings say so with
 * ValidRatio.
 */
module Similarity {

  /** The two facts about SequenceMatcher.ratio the engine relies on. */
  ghost predicate ValidRatio(ratio: (string, string) -> real) {
    && (forall a, b :: 0.0 <= ratio(a, b) <= 1.0)
    && (forall a :: ratio(a, a) == 1.0)
  }

  /** Python's `a < b` on str: lexicographic by code point, a proper prefix first. */
  predicate StrLess(a: string, b: string)
    decreases |a|
  {
    if a == [] then b != []
    else if b == [] then false
    else if a[0] != b[0] then a[0] < b[0]
    else StrLess(a[1..], b[1..])
  }

  lemma StrLessIrreflexive(a: string)
    ensures !StrLess(a, a)
  {
  }

  lemma {:induction false} StrLessAsymmetric(a: string, b: string)
    requires StrLess(a, b)
    ensures !StrLess(b, a)
    decreases |a|
  {
    if a != [] && b != [] && a[0] == b[0] {
      StrLessAsymmetric(a[1..], b[1..]);
    }
  }

  lemma {:induction false} StrLessTransitive(a: string, b: string, c: string)
    requires StrLess(a, b) && StrLess(b, c)
    ensures StrLess(a, c)
    decreases |a|
  {
    if a != [] && a[0] == b[0] && b[0] == c[0] {
      StrLessTransitive(a[1..], b[1..], c[1..]);
    }
  }

  lemma {:induction false} StrLessTotal(a: string, b: string)
    requires a != b
    ensures StrLess(a, b) || StrLess(b, a)
    decreases |a|
  {
    if a != [] && b != [] && a[0] == b[0] {
      assert a == [a[0]] + a[1..] && b == [b[0]] + b[1..];
      StrLessTotal(a[1..], b[1..]);
    }
  }

  /**
   * get_close_matches ranks with heapq.nlargest on (score, key) tuples: a ranks at
   * least as high as b when its tuple is not smaller.
   */
  predicate RanksAbove(ratio: (string, string) -> real, q: string, a: string, b: string) {
    ratio(a, q) > ratio(b, q) || (ratio(a, q) == ratio(b, q) && !StrLess(a, b))
  }

  lemma RanksAboveTotal(ratio: (string, string) -> real, q: string, a: string, b: string)
    ensures RanksAbove(ratio, q, a, b) || RanksAbove(ratio, q, b, a)
  {
    if ratio(a, q) == ratio(b, q) && StrLess(a, b) {
      StrLessAsymmetric(a, b);
    }
  }

  lemma RanksAboveTransitive(ratio: (string, string) -> real, q: string, a: string, b: string, c: string)
    requires RanksAbove(ratio, q, a, b) && RanksAbove(ratio, q, b, c)
    ensures RanksAbove(ratio, q, a, c)
  {
    if ratio(a, q) == ratio(b, q) == ratio(c, q) && StrLess(a, c) {
      if a == b {
      } else {
        StrLessTotal(a, b);
        StrLessTransitive(b, a, c);
      }
    }
  }

  /** Best first: every entry ranks at least as high as every later one. */
  predicate Ranked(ratio: (string, string) -> real, q: string, s: seq<string>) {
    forall i, j :: 0 <= i < j < |s| ==> RanksAbove(ratio, q, s[i], s[j])
  }

  /** The possibilities whose score reaches the cutoff, in their original order. */
  function Qualifying(ratio: (string, string) -> real, q: string, keys: seq<string>, cutoff: real): (r: seq<string>)
    ensures multiset(r) <= multiset(keys)
    ensures forall k :: k in r <==> k in keys && ratio(k, q) >= cutoff
  {
    if keys == [] then []
    else
      var rest := Qualifying(ratio, q, keys[1..], cutoff);
      assert keys == [keys[0]] + keys[1..];
      if ratio(keys[0], q) >= cutoff then [keys[0]] + rest else rest
  }

  /** The qualifying possibilities keep their order: the filter distributes over concatenation. */
  lemma {:induction false} QualifyingOrder(ratio: (string, string) -> real, q: string, a: seq<string>, b: seq<string>, k: string, cutoff: real)
    ensures Qualifying(ratio, q, a + b, cutoff) == Qualifying(ratio, q, a, cutoff) + Qualifying(ratio, q, b, cutoff)
    ensures Qualifying(ratio, q, [k], cutoff) == if ratio(k, q) >= cutoff then [k] else []
  {
    assert [k][1..] == [];
    if a == [] {
      assert a + b == b;
    } else {
      assert (a + b)[0] == a[0];
      assert (a + b)[1..] == a[1..] + b;
      QualifyingOrder(ratio, q, a[1..], b, k, cutoff);
    }
  }

  function Insert(ratio: (string, string) -> real, q: string, x: string, s: seq<string>): (r: seq<string>)
    requires Ranked(ratio, q, s)
    ensures Ranked(ratio, q, r)
    ensures multiset(r) == multiset(s) + multiset{x}
  {
    if s == [] then [x]
    else if RanksAbove(ratio, q, x, s[0]) then
      InsertFront(ratio, q, x, s);
      [x] + s
    else
      RanksAboveTotal(ratio, q, x, s[0]);
      var t := Insert(ratio, q, x, s[1..]);
      InsertBehind(ratio, q, x, s, t);
      assert s == [s[0]] + s[1..];
      [s[0]] + t
  }

  /** A ranking stays one when an element ranking above all its entries goes in front. */
  lemma RankedCons(ratio: (string, string) -> real, q: string, h: string, t: seq<string>)
    requires Ranked(ratio, q, t)
    requires forall j :: 0 <= j < |t| ==> RanksAbove(ratio, q, h, t[j])
    ensures Ranked(ratio, q, [h] + t)
  {
    var s := [h] + t;
    forall a, b | 0 <= a < b < |s| ensures RanksAbove(ratio, q, s[a], s[b]) {
      assert s[b] == t[b - 1];
      if a > 0 {
        assert s[a] == t[a - 1];
      }
    }
  }

  lemma InsertFront(ratio: (string, string) -> real, q: string, x: string, s: seq<string>)
    requires Ranked(ratio, q, s) && s != [] && RanksAbove(ratio, q, x, s[0])
    ensures Ranked(ratio, q, [x] + s)
  {
    forall j | 0 <= j < |s| ensures RanksAbove(ratio, q, x, s[j]) {
      if j > 0 { RanksAboveTransitive(ratio, q, x, s[0], s[j]); }
    }
    RankedCons(ratio, q, x, s);
  }

  lemma InsertBehind(ratio: (string, string) -> real, q: string, x: string, s: seq<string>, t: seq<string>)
    requires Ranked(ratio, q, s) && s != [] && RanksAbove(ratio, q, s[0], x)
    requires Ranked(ratio, q, t) && multiset(t) == multiset(s[1..]) + multiset{x}
    ensures Ranked(ratio, q, [s[0]] + t)
  {
    forall j | 0 <= j < |t| ensures RanksAbove(ratio, q, s[0], t[j]) {
      assert t[j] in multiset(t);
      if t[j] != x {
        assert t[j] in multiset(s[1..]);
        var k :| 0 <= k < |s[1..]| && s[1..][k] == t[j];
        assert s[k + 1] == t[j];
      }
    }
    RankedCons(ratio, q, s[0], t);
  }

  /** Insertion sort into ranking order. */
  function Rank(ratio: (string, string) -> real, q: string, s: seq<string>): (r: seq<string>)
    ensures Ranked(ratio, q, r)
    ensures multiset(r) == multiset(s)
  {
    if s == [] then []
    else
      assert s == [s[0]] + s[1..];
      Insert(ratio, q, s[0], Rank(ratio, q, s[1..]))
  }

  /**
   * difflib.get_close_matches(q, keys, n, cutoff): the possibilities scoring at least
   * cutoff, best first, at most n of them. Python rejects n <= 0 and a cutoff outside
   * [0, 1] with ValueError.
   */
  function CloseMatches(ratio: (string, string) -> real, q: string, keys: seq<string>, n: nat, cutoff: real): (r: seq<string>)
    requires n > 0 && 0.0 <= cutoff <= 1.0
    ensures |r| <= n
    ensures multiset(r) <= multiset(keys)
    ensures forall k :: k in r ==> k in keys && ratio(k, q) >= cutoff
    ensures Ranked(ratio, q, r)
    ensures forall k :: k in keys && ratio(k, q) >= cutoff && k !in r ==>
              |r| == n && forall j :: 0 <= j < |r| ==> RanksAbove(ratio, q, r[j], k)
    ensures r == [] <==> forall k :: k in keys ==> ratio(k, q) < cutoff
  {
    var cands := Qualifying(ratio, q, keys, cutoff);
    var sorted := Rank(ratio, q, cands);
    var m := if |sorted| < n then |sorted| else n;
    CloseMatchesOfRanking(ratio, q, keys, n, cutoff, sorted, m);
    sorted[..m]
  }

  /** The first min(n, len) entries of a ranking of the qualifying possibilities meet the contract of get_close_matches. */
  lemma CloseMatchesOfRanking(ratio: (string, string) -> real, q: string, keys: seq<string>, n: nat, cutoff: real,
                              sorted: seq<string>, m: nat)
    requires n > 0
    requires Ranked(ratio, q, sorted) && multiset(sorted) == multiset(Qualifying(ratio, q, keys, cutoff))
    requires m == if |sorted| < n then |sorted| else n
    ensures var r := sorted[..m];
      && |r| <= n
      && multiset(r) <= multiset(keys)
      && (forall k :: k in r ==> k in keys && ratio(k, q) >= cutoff)
      && Ranked(ratio, q, r)
      && (forall k :: k in keys && ratio(k, q) >= cutoff && k !in r ==>
            |r| == n && forall j :: 0 <= j < |r| ==> RanksAbove(ratio, q, r[j], k))
      && (r == [] <==> forall k :: k in keys ==> ratio(k, q) < cutoff)
  {
    var cands := Qualifying(ratio, q, keys, cutoff);
    TopOfRanking(ratio, q, cands, sorted, m);
    if sorted[..m] == [] {
      assert |sorted| == 0;
      assert multiset(cands) == multiset{};
      assert cands == [];
    }
  }

  /** A prefix of a ranking of the candidates keeps the best of them and nothing else. */
  lemma TopOfRanking(ratio: (string, string) -> real, q: string, cands: seq<string>, sorted: seq<string>, m: nat)
    requires Ranked(ratio, q, sorted) && multiset(sorted) == multiset(cands)
    requires m <= |sorted|
    ensures multiset(sorted[..m]) <= multiset(cands)
    ensures forall k :: k in sorted[..m] ==> k in cands
    ensures Ranked(ratio, q, sorted[..m])
    ensures forall k :: k in cands && k !in sorted[..m] ==>
              m < |sorted| && forall j :: 0 <= j < m ==> RanksAbove(ratio, q, sorted[j], k)
    ensures sorted[..m] == [] ==> m == 0
    ensures m == 0 <==> sorted[..m] == []
    ensures m == |sorted| ==> forall k :: k in cands ==> k in sorted[..m]
  {
    var r := sorted[..m];
    assert sorted == r + sorted[m..];
    assert forall k :: k in sorted <==> k in multiset(sorted);
    assert forall k :: k in r ==> k in sorted;
    LeftOutRanksLower(ratio, q, cands, sorted, m);
  }

  lemma LeftOutRanksLower(ratio: (string, string) -> real, q: string, cands: seq<string>, sorted: seq<string>, m: nat)
    requires Ranked(ratio, q, sorted) && multiset(sorted) == multiset(cands)
    requires m <= |sorted|
    ensures forall k :: k in cands && k !in sorted[..m] ==>
              m < |sorted| && forall j :: 0 <= j < m ==> RanksAbove(ratio, q, sorted[j], k)
  {
    forall k | k in cands && k !in sorted[..m]
      ensures m < |sorted| && forall j :: 0 <= j < m ==> RanksAbove(ratio, q, sorted[j], k)
    {
      assert k in multiset(sorted);
      var idx :| 0 <= idx < |sorted| && sorted[idx] == k;
      assert idx >= m;
    }
  }

  /** Whether the single best match, if any, exists: the n = 1 calls only test this and r[0]. */
  lemma CloseMatchesBest(ratio: (string, string) -> real, q: string, keys: seq<string>, cutoff: real)
    requires 0.0 <= cutoff <= 1.0
    ensures var r := CloseMatches(ratio, q, keys, 1, cutoff);
      r != [] ==> forall k :: k in keys && ratio(k, q) >= cutoff ==> RanksAbove(ratio, q, r[0], k)
  {
    var r := CloseMatches(ratio, q, keys, 1, cutoff);
    if r != [] {
      forall k | k in keys && ratio(k, q) >= cutoff ensures RanksAbove(ratio, q, r[0], k) {
        if k == r[0] {
          StrLessIrreflexive(k);
        }
      }
    }
  }

  /** A query that is itself a possibility is matched at any cutoff. */
  lemma ExactKeyIsClose(ratio: (string, string) -> real, q: string, keys: seq<string>, n: nat, cutoff: real)
    requires ValidRatio(ratio)
    requires n > 0 && 0.0 <= cutoff <= 1.0
    requires q in keys
    ensures CloseMatches(ratio, q, keys, n, cutoff) != []
  {
    assert ratio(q, q) == 1.0;
  }

  /** The Jaccard score |a ∩ b| / |a ∪ b| of two token sets, exact. */
  function JaccardScore(a: set<string>, b: set<string>): (r: real)
    ensures a != {} ==> 0.0 <= r <= 1.0
  {
    if a + b == {} then 0.0
    else
      assert a * b <= a + b;
      SubsetCard(a * b, a + b);
      (|a * b| as real) / (|a + b| as real)
  }

  lemma SubsetCard(x: set<string>, y: set<string>)
    requires x <= y
    ensures |x| <= |y|
  {
    assert y == x + (y - x);
  }

  /** Comparing the score with 0.6 is the integer test 5|a ∩ b| >= 3|a ∪ b|. */
  lemma JaccardThreshold(a: set<string>, b: set<string>)
    requires a + b != {}
    ensures JaccardScore(a, b) >= 0.6 <==> 5 * |a * b| >= 3 * |a + b|
  {
    var i := |a * b| as real;
    var u := |a + b| as real;
    assert u > 0.0;
    assert JaccardScore(a, b) == i / u;
    DivAtLeast(i, u, 0.6);
  }

  lemma DivAtLeast(i: real, u: real, c: real)
    requires u > 0.0
    ensures i / u >= c <==> i >= c * u
  {
    var d := i / u;
    assert d * u == i;
    if d >= c {
      assert (d - c) * u >= 0.0;
    } else {
      assert (c - d) * u > 0.0;
    }
  }

  /** Equal non-empty token sets score 1. */
  lemma JaccardOfSame(a: set<string>)
    requires a != {}
    ensures JaccardScore(a, a) == 1.0
  {
    assert a * a == a && a + a == a;
  }
}
