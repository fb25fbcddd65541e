/**
 * The matching steps both slot-filling engines share: advisor resolution, the
 * four-layer project cascade and the duplicate-candidate test
 * (backend/database.py and backend/database_optimized.py).
 */
module Matching {
  import opened Text
  import opened Keys
  import opened Similarity
  import opened Store
  import opened Wrappers

  const AdvisorTopN: nat := 5
  const AdvisorCutoff: real := 0.75
  const JaccardCutoff: real := 0.6
  const FuzzyCutoff: real := 0.8
  const DuplicateCutoff: real := 0.95

  // ---------------------------------------------------------------------------
  // Advisor resolution

  /** The advisor map: each engine key with the distinct original spellings behind it. */
  datatype AdvisorIndex = AdvisorIndex(keys: seq<string>, originals: map<string, seq<string>>)

  /** idx maps each key of a name in `advisors` to the distinct names having that key. */
  ghost predicate IndexOf(idx: AdvisorIndex, advisors: seq<string>, key: string -> string) {
    && Distinct(idx.keys)
    && (forall k :: k in idx.keys <==> k in idx.originals)
    && (forall k :: k in idx.originals ==> Distinct(idx.originals[k]) && idx.originals[k] != [])
    && (forall k, o :: k in idx.originals ==> (o in idx.originals[k] <==> o in advisors && key(o) == k))
    && (forall o :: o in advisors ==> key(o) in idx.originals)
  }

  /** One step of the defaultdict(list) build loop. */
  function AddAdvisor(idx: AdvisorIndex, o: string, k: string): AdvisorIndex {
    if k in idx.originals then
      if o in idx.originals[k] then idx
      else AdvisorIndex(idx.keys, idx.originals[k := idx.originals[k] + [o]])
    else AdvisorIndex(idx.keys + [k], idx.originals[k := [o]])
  }

  function BuildIndex(advisors: seq<string>, key: string -> string): (idx: AdvisorIndex)
    ensures IndexOf(idx, advisors, key)
  {
    if advisors == [] then AdvisorIndex([], map[])
    else
      var init := advisors[..|advisors| - 1];
      var o := advisors[|advisors| - 1];
      assert advisors == init + [o];
      var prev := BuildIndex(init, key);
      AddAdvisorKeepsIndex(prev, init, o, key);
      AddAdvisor(prev, o, key(o))
  }

  /** The advisor map of the engine, keyed by _get_match_key. */
  function BuildAdvisorIndex(advisors: seq<string>): (idx: AdvisorIndex)
    ensures IndexOf(idx, advisors, DbKeyOf)
  {
    BuildIndex(advisors, DbKeyOf)
  }

  lemma AddAdvisorKeepsIndex(prev: AdvisorIndex, init: seq<string>, o: string, key: string -> string)
    requires IndexOf(prev, init, key)
    ensures IndexOf(AddAdvisor(prev, o, key(o)), init + [o], key)
  {
    var k := key(o);
    if k in prev.originals && o in prev.originals[k] {
      assert forall o' :: o' in init + [o] <==> o' in init || o' == o;
    } else if k in prev.originals {
      AppendOriginal(prev, init, o, key);
    } else {
      NewAdvisorKey(prev, init, o, key);
    }
  }

  lemma AppendOriginal(prev: AdvisorIndex, init: seq<string>, o: string, key: string -> string)
    requires IndexOf(prev, init, key)
    requires key(o) in prev.originals && o !in prev.originals[key(o)]
    ensures IndexOf(AddAdvisor(prev, o, key(o)), init + [o], key)
  {
    var k := key(o);
    var idx := AddAdvisor(prev, o, k);
    assert idx.originals == prev.originals[k := prev.originals[k] + [o]];
    assert forall o' :: o' in init + [o] <==> o' in init || o' == o;
    assert Distinct(idx.originals[k]);
  }

  lemma NewAdvisorKey(prev: AdvisorIndex, init: seq<string>, o: string, key: string -> string)
    requires IndexOf(prev, init, key)
    requires key(o) !in prev.originals
    ensures IndexOf(AddAdvisor(prev, o, key(o)), init + [o], key)
  {
    var k := key(o);
    var idx := AddAdvisor(prev, o, k);
    assert idx.keys == prev.keys + [k];
    assert idx.originals == prev.originals[k := [o]];
    assert forall o' :: o' in init + [o] <==> o' in init || o' == o;
    assert k !in prev.keys;
    assert Distinct(idx.keys);
  }

  /** The originals of the given keys, in key order, with repetitions. */
  function Gather(idx: AdvisorIndex, ks: seq<string>): (r: seq<string>)
    requires forall k :: k in ks ==> k in idx.originals
    ensures forall o :: o in r <==> exists k :: k in ks && o in idx.originals[k]
  {
    if ks == [] then []
    else
      assert ks == [ks[0]] + ks[1..];
      idx.originals[ks[0]] + Gather(idx, ks[1..])
  }

  /** The up to five advisor keys close enough to the draft's advisor key. */
  function AdvisorKeyMatches(ratio: (string, string) -> real, idx: AdvisorIndex, q: string): (r: seq<string>)
    ensures |r| <= AdvisorTopN
    ensures forall k :: k in r ==> k in idx.keys && ratio(k, q) >= AdvisorCutoff
    ensures r == [] <==> forall k :: k in idx.keys ==> ratio(k, q) < AdvisorCutoff
  {
    CloseMatches(ratio, q, idx.keys, AdvisorTopN, AdvisorCutoff)
  }

  /**
   * The advisor names a draft resolves to: the union of the originals of every matched
   * key, without repetitions.
   */
  function MatchedAdvisors(ratio: (string, string) -> real, idx: AdvisorIndex, q: string): (r: seq<string>)
    requires forall k :: k in idx.keys ==> k in idx.originals
    ensures Distinct(r)
  {
    Dedupe(Gather(idx, AdvisorKeyMatches(ratio, idx, q)))
  }

  /**
   * Resolution yields loaded names only: exactly those whose key is among the matched
   * keys, and nothing at all exactly when no key reaches the cutoff.
   */
  lemma MatchedAdvisorsSound(ratio: (string, string) -> real, advisors: seq<string>, q: string)
    ensures var idx := BuildAdvisorIndex(advisors);
      var r := MatchedAdvisors(ratio, idx, q);
      && (forall o :: o in r <==> o in advisors && DbKeyOf(o) in AdvisorKeyMatches(ratio, idx, q))
      && (r == [] <==> AdvisorKeyMatches(ratio, idx, q) == [])
      && (forall o :: o in r ==> ratio(DbKeyOf(o), q) >= AdvisorCutoff)
  {
    var idx := BuildAdvisorIndex(advisors);
    GatheredNames(idx, advisors, DbKeyOf, AdvisorKeyMatches(ratio, idx, q));
  }

  lemma GatheredNames(idx: AdvisorIndex, advisors: seq<string>, key: string -> string, ks: seq<string>)
    requires IndexOf(idx, advisors, key)
    requires forall k :: k in ks ==> k in idx.keys
    ensures forall o :: o in Dedupe(Gather(idx, ks)) <==> o in advisors && key(o) in ks
    ensures Dedupe(Gather(idx, ks)) == [] <==> ks == []
  {
    var g := Gather(idx, ks);
    forall o ensures o in g <==> o in advisors && key(o) in ks {
      if o in advisors && key(o) in ks {
        assert o in idx.originals[key(o)];
      }
    }
    if ks != [] {
      var o := idx.originals[ks[0]][0];
      assert o in g;
    }
  }

  /**
   * A draft whose advisor key is the key of a loaded advisor always resolves to some
   * names. That advisor is among them unless five other keys sorting after its key
   * also score 1 and fill the top five.
   */
  lemma KnownAdvisorResolves(ratio: (string, string) -> real, advisors: seq<string>, o: string)
    requires ValidRatio(ratio)
    requires o in advisors
    ensures var idx := BuildAdvisorIndex(advisors);
      var q := DbKeyOf(o);
      var ks := AdvisorKeyMatches(ratio, idx, q);
      && MatchedAdvisors(ratio, idx, q) != []
      && (o in MatchedAdvisors(ratio, idx, q)
          || (|ks| == AdvisorTopN && forall j :: 0 <= j < |ks| ==> ratio(ks[j], q) == 1.0 && StrLess(q, ks[j])))
  {
    var idx := BuildAdvisorIndex(advisors);
    var q := DbKeyOf(o);
    var ks := AdvisorKeyMatches(ratio, idx, q);
    assert ratio(q, q) == 1.0;
    assert q in idx.keys;
    MatchedAdvisorsSound(ratio, advisors, q);
    if q !in ks {
      KnownAdvisorAmongTop(ratio, idx.keys, q, ks);
    }
  }

  /**
   * With scores at most 1, a key outranks q for the query q only when it scores 1 and
   * sorts after q.
   */
  lemma KnownAdvisorAmongTop(ratio: (string, string) -> real, keys: seq<string>, q: string, ks: seq<string>)
    requires ValidRatio(ratio)
    requires q in keys && ks == CloseMatches(ratio, q, keys, AdvisorTopN, AdvisorCutoff)
    requires q !in ks
    ensures |ks| == AdvisorTopN
    ensures forall j :: 0 <= j < |ks| ==> ratio(ks[j], q) == 1.0 && StrLess(q, ks[j])
  {
    assert ratio(q, q) == 1.0;
    forall j | 0 <= j < |ks| ensures ratio(ks[j], q) == 1.0 && StrLess(q, ks[j]) {
      assert RanksAbove(ratio, q, ks[j], q);
      assert ks[j] != q;
      StrLessTotal(ks[j], q);
    }
  }

  // ---------------------------------------------------------------------------
  // The project cascade
  //
  // Every layer looks only at the project keys, so the cascade works on the key column
  // of the candidate projects and answers with an index into it.

  /** The project key of a stored project. */
  function PKey(p: Project): string {
    ProjectKeyOf(p.name)
  }

  function KeyColumn(ps: seq<Project>): (r: seq<string>)
    ensures |r| == |ps| && forall j :: 0 <= j < |ps| ==> r[j] == PKey(ps[j])
  {
    if ps == [] then [] else [PKey(ps[0])] + KeyColumn(ps[1..])
  }

  /** The first key satisfying f. */
  function FirstWhere(ks: seq<string>, f: string -> bool): (r: Option<nat>)
    ensures r.Some? ==> r.value < |ks| && f(ks[r.value]) && forall j :: 0 <= j < r.value ==> !f(ks[j])
    ensures r.None? ==> forall j :: 0 <= j < |ks| ==> !f(ks[j])
  {
    if ks == [] then None
    else if f(ks[0]) then Some(0)
    else
      match FirstWhere(ks[1..], f)
      case None => None
      case Some(i) => Some(i + 1)
  }

  /** The last position holding k: the entry a dict comprehension keeps for a repeated key. */
  function LastOf(ks: seq<string>, k: string): (r: Option<nat>)
    ensures r.Some? ==> r.value < |ks| && ks[r.value] == k && forall j :: r.value < j < |ks| ==> ks[j] != k
    ensures r.None? ==> k !in ks
  {
    if ks == [] then None
    else if ks[|ks| - 1] == k then Some(|ks| - 1)
    else
      assert ks == ks[..|ks| - 1] + [ks[|ks| - 1]];
      LastOf(ks[..|ks| - 1], k)
  }

  /** set(key.split()) */
  function TokenSet(k: string): set<string> {
    set w | w in Words(k)
  }

  ghost predicate Eligible(dw: set<string>, ks: seq<string>, j: int) {
    0 <= j < |ks| && dw != {} && TokenSet(ks[j]) != {}
  }

  function Score(dw: set<string>, ks: seq<string>, j: int): real
    requires 0 <= j < |ks|
  {
    JaccardScore(dw, TokenSet(ks[j]))
  }

  /** What the scan loop knows after looking at the first i keys. */
  ghost predicate ScanInv(dw: set<string>, ks: seq<string>, i: nat, best: Option<nat>, high: real) {
    && i <= |ks|
    && (best.None? ==> high == 0.0)
    && (best.Some? ==> best.value < i && Eligible(dw, ks, best.value) && Score(dw, ks, best.value) == high
                       && forall j :: 0 <= j < best.value && Eligible(dw, ks, j) ==> Score(dw, ks, j) < high)
    && (forall j :: 0 <= j < i && Eligible(dw, ks, j) ==> Score(dw, ks, j) <= high)
  }

  /** The layer-3 loop: only a strictly higher score replaces the best so far. */
  function JaccardScan(dw: set<string>, ks: seq<string>, i: nat, best: Option<nat>, high: real): (r: (Option<nat>, real))
    requires ScanInv(dw, ks, i, best, high)
    ensures ScanInv(dw, ks, |ks|, r.0, r.1)
    decreases |ks| - i
  {
    if i == |ks| then (best, high)
    else
      var w := TokenSet(ks[i]);
      if dw == {} || w == {} then
        ScanSkip(dw, ks, i, best, high);
        JaccardScan(dw, ks, i + 1, best, high)
      else
        var s := JaccardScore(dw, w);
        if s > high then
          ScanRaise(dw, ks, i, best, high);
          JaccardScan(dw, ks, i + 1, Some(i), s)
        else
          ScanKeep(dw, ks, i, best, high);
          JaccardScan(dw, ks, i + 1, best, high)
  }

  lemma ScanSkip(dw: set<string>, ks: seq<string>, i: nat, best: Option<nat>, high: real)
    requires ScanInv(dw, ks, i, best, high) && i < |ks|
    requires dw == {} || TokenSet(ks[i]) == {}
    ensures ScanInv(dw, ks, i + 1, best, high)
  {
    assert !Eligible(dw, ks, i);
  }

  lemma ScanRaise(dw: set<string>, ks: seq<string>, i: nat, best: Option<nat>, high: real)
    requires ScanInv(dw, ks, i, best, high) && i < |ks|
    requires Eligible(dw, ks, i) && Score(dw, ks, i) > high
    ensures ScanInv(dw, ks, i + 1, Some(i), Score(dw, ks, i))
  {
  }

  lemma ScanKeep(dw: set<string>, ks: seq<string>, i: nat, best: Option<nat>, high: real)
    requires ScanInv(dw, ks, i, best, high) && i < |ks|
    requires Eligible(dw, ks, i) && Score(dw, ks, i) <= high
    ensures ScanInv(dw, ks, i + 1, best, high)
  {
  }

  /** Layer 3: the first key with the highest Jaccard score, if that score reaches 0.6. */
  function JaccardPick(dk: string, ks: seq<string>): (r: Option<nat>)
    ensures r.Some? ==> JaccardHit(dk, ks, r.value)
    ensures r.None? ==> NoJaccard(dk, ks)
  {
    var (b, h) := JaccardScan(TokenSet(dk), ks, 0, None, 0.0);
    if h >= JaccardCutoff then b else None
  }

  /** ks[i] is the first maximum of the Jaccard scores, and reaches the cutoff. */
  ghost predicate JaccardHit(dk: string, ks: seq<string>, i: int) {
    var dw := TokenSet(dk);
    && Eligible(dw, ks, i)
    && Score(dw, ks, i) >= JaccardCutoff
    && (forall j :: Eligible(dw, ks, j) ==> Score(dw, ks, j) <= Score(dw, ks, i))
    && (forall j :: j < i && Eligible(dw, ks, j) ==> Score(dw, ks, j) < Score(dw, ks, i))
  }

  ghost predicate NoJaccard(dk: string, ks: seq<string>) {
    var dw := TokenSet(dk);
    forall j :: Eligible(dw, ks, j) ==> Score(dw, ks, j) < JaccardCutoff
  }

  /**
   * Layer 4: the best key at ratio >= 0.8 among the distinct keys (list(match_map.keys())),
   * and the last project carrying it (the value match_map keeps).
   */
  function FuzzyPick(ratio: (string, string) -> real, dk: string, ks: seq<string>): (r: Option<nat>)
    ensures r.Some? ==> FuzzyHit(ratio, dk, ks, r.value)
    ensures r.None? ==> NoFuzzy(ratio, dk, ks)
  {
    var ms := CloseMatches(ratio, dk, Dedupe(ks), 1, FuzzyCutoff);
    if ms == [] then None
    else
      CloseMatchesBest(ratio, dk, Dedupe(ks), FuzzyCutoff);
      LastOf(ks, ms[0])
  }

  /**
   * ks[i] is the best-ranked key among those at ratio >= 0.8, at its last position.
   */
  ghost predicate FuzzyHit(ratio: (string, string) -> real, dk: string, ks: seq<string>, i: int) {
    && 0 <= i < |ks|
    && ratio(ks[i], dk) >= FuzzyCutoff
    && (forall j :: i < j < |ks| ==> ks[j] != ks[i])
    && (forall j :: 0 <= j < |ks| && ratio(ks[j], dk) >= FuzzyCutoff ==> RanksAbove(ratio, dk, ks[i], ks[j]))
  }

  ghost predicate NoFuzzy(ratio: (string, string) -> real, dk: string, ks: seq<string>) {
    forall j :: 0 <= j < |ks| ==> ratio(ks[j], dk) < FuzzyCutoff
  }

  datatype Layer = ExactLayer | SubstringLayer | JaccardLayer | FuzzyLayer

  datatype Hit = Hit(layer: Layer, index: nat)

  ghost predicate ExactHit(dk: string, ks: seq<string>, i: int) {
    0 <= i < |ks| && ks[i] == dk && forall j :: 0 <= j < i ==> ks[j] != dk
  }

  ghost predicate NoExact(dk: string, ks: seq<string>) {
    forall j :: 0 <= j < |ks| ==> ks[j] != dk
  }

  ghost predicate SubstringHit(dk: string, ks: seq<string>, i: int) {
    0 <= i < |ks| && Contains(ks[i], dk) && forall j :: 0 <= j < i ==> !Contains(ks[j], dk)
  }

  ghost predicate NoSubstring(dk: string, ks: seq<string>) {
    forall j :: 0 <= j < |ks| ==> !Contains(ks[j], dk)
  }

  /**
   * The four layers over the candidates' project keys, first success wins: an equal
   * key, then the draft key as a substring, then Jaccard, then the fuzzy ratio.
   */
  function Cascade(ratio: (string, string) -> real, dk: string, ks: seq<string>): (r: Option<Hit>)
    ensures r.Some? ==> r.value.index < |ks|
    ensures r.Some? && r.value.layer == ExactLayer ==> ExactHit(dk, ks, r.value.index)
    ensures r.Some? && r.value.layer == SubstringLayer ==> NoExact(dk, ks) && SubstringHit(dk, ks, r.value.index)
    ensures r.Some? && r.value.layer == JaccardLayer ==>
              NoExact(dk, ks) && NoSubstring(dk, ks) && JaccardHit(dk, ks, r.value.index)
    ensures r.Some? && r.value.layer == FuzzyLayer ==>
              NoExact(dk, ks) && NoSubstring(dk, ks) && NoJaccard(dk, ks) && FuzzyHit(ratio, dk, ks, r.value.index)
    ensures r.None? ==> NoExact(dk, ks) && NoSubstring(dk, ks) && NoJaccard(dk, ks) && NoFuzzy(ratio, dk, ks)
  {
    match FirstWhere(ks, k => k == dk)
    case Some(i) => Some(Hit(ExactLayer, i))
    case None =>
      match FirstWhere(ks, k => Contains(k, dk))
      case Some(i) => Some(Hit(SubstringLayer, i))
      case None =>
        match JaccardPick(dk, ks)
        case Some(i) => Some(Hit(JaccardLayer, i))
        case None =>
          match FuzzyPick(ratio, dk, ks)
          case Some(i) => Some(Hit(FuzzyLayer, i))
          case None => None
  }

  /** _find_best_project_match: the cascade on the draft title's project key. */
  function FindBestProject(ratio: (string, string) -> real, title: Values.Json, ps: seq<Project>): (r: Option<nat>)
    ensures r.Some? ==> r.value < |ps|
    ensures r.None? ==> NoExact(ProjectKey(title), KeyColumn(ps)) && NoSubstring(ProjectKey(title), KeyColumn(ps))
    ensures r.None? ==> NoJaccard(ProjectKey(title), KeyColumn(ps)) && NoFuzzy(ratio, ProjectKey(title), KeyColumn(ps))
  {
    match Cascade(ratio, ProjectKey(title), KeyColumn(ps))
    case Some(h) => Some(h.index)
    case None => None
  }

  /**
   * The empty draft key occurs in every key, so unless some candidate key is itself
   * empty the first candidate is taken at the substring layer.
   */
  lemma EmptyKeyTakesFirst(ratio: (string, string) -> real, ks: seq<string>)
    requires ks != []
    requires forall j :: 0 <= j < |ks| ==> ks[j] != ""
    ensures Cascade(ratio, "", ks) == Some(Hit(SubstringLayer, 0))
  {
    EmptyIsContained(ks[0]);
  }

  lemma EmptyIsContained(s: string)
    ensures Contains(s, "")
  {
    assert StartsWith(s, "");
  }

  /** A draft key that is one of the candidate keys is found at layer 1, at or before it. */
  lemma EqualKeyIsExact(ratio: (string, string) -> real, dk: string, ks: seq<string>, i: nat)
    requires i < |ks| && ks[i] == dk
    ensures Cascade(ratio, dk, ks).Some?
    ensures Cascade(ratio, dk, ks).value.layer == ExactLayer
    ensures Cascade(ratio, dk, ks).value.index <= i
  {
  }

  // ---------------------------------------------------------------------------
  // Duplicate candidates

  /**
   * The anti-duplication test: some already-filled candidate's engine key has ratio at
   * least 0.95 with the new candidate's key.
   */
  function IsDuplicate(ratio: (string, string) -> real, cand: string, existing: seq<string>): (r: bool)
    ensures r <==> exists c :: c in existing && ratio(DbKeyOf(c), DbKeyOf(cand)) >= DuplicateCutoff
  {
    var keys := DbKeys(existing);
    var ms := CloseMatches(ratio, DbKeyOf(cand), keys, 1, DuplicateCutoff);
    assert forall c :: c in existing ==> DbKeyOf(c) in keys;
    existing != [] && ms != []
  }

  function DbKeys(cs: seq<string>): (r: seq<string>)
    ensures |r| == |cs|
    ensures forall j :: 0 <= j < |cs| ==> r[j] == DbKeyOf(cs[j])
    ensures forall k :: k in r <==> exists c :: c in cs && DbKeyOf(c) == k
  {
    if cs == [] then []
    else
      assert cs == [cs[0]] + cs[1..];
      [DbKeyOf(cs[0])] + DbKeys(cs[1..])
  }

  /** A candidate already on the list is always a duplicate of itself. */
  lemma SelfIsDuplicate(ratio: (string, string) -> real, cand: string, existing: seq<string>)
    requires ValidRatio(ratio)
    requires cand in existing
    ensures IsDuplicate(ratio, cand, existing)
  {
    assert ratio(DbKeyOf(cand), DbKeyOf(cand)) == 1.0;
  }
}
