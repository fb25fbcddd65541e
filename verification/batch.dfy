/**
 * atualizar_bolsas_com_resultado_otimizado (backend/database_optimized.py): the batch
 * engine. Everything is loaded once into in-memory indices, the drafts are matched
 * against those indices, and the claimed slots are written in one bulk upsert.
 *
 * A draft's target depends only on the projects table and the advisor index, which the
 * loop never changes; the loop itself only threads the slot index, the filled-candidate
 * index and the pending updates.
 */
module Batch {
  import opened Values
  import opened Wrappers
  import opened Keys
  import opened Similarity
  import opened Store
  import opened Matching
  import opened RowByRow

  /** The key of the available-slot index: (projeto_id, numero_perfil). */
  type SlotKey = (string, string)

  function KeyOf(s: Slot): SlotKey {
    (s.projectId, s.perfil)
  }

  /** An available slot with a truthy project id and perfil: the rows the index keeps. */
  predicate Indexed(s: Slot) {
    s.status == Disponivel && s.projectId != "" && s.perfil != ""
  }

  /**
   * bolsas_por_projeto_perfil: each key maps to the LAST available slot with that key in
   * table order, because later rows overwrite earlier ones.
   */
  function SlotIndex(slots: seq<Slot>): (m: map<SlotKey, Slot>)
    ensures forall k :: k in m ==> m[k] in slots && Indexed(m[k]) && KeyOf(m[k]) == k
    ensures forall s :: s in slots && Indexed(s) ==> KeyOf(s) in m
  {
    if slots == [] then map[]
    else
      var rest := SlotIndex(slots[1..]);
      var s := slots[0];
      assert slots == [s] + slots[1..];
      if Indexed(s) && KeyOf(s) !in rest then rest[KeyOf(s) := s] else rest
  }

  /** The slot an index key holds is one that no later indexed slot with that key follows. */
  lemma {:induction false} SlotIndexKeepsLast(slots: seq<Slot>, k: SlotKey)
    requires k in SlotIndex(slots)
    ensures exists i :: 0 <= i < |slots| && slots[i] == SlotIndex(slots)[k]
              && forall j :: i < j < |slots| ==> !(Indexed(slots[j]) && KeyOf(slots[j]) == k)
  {
    var rest := SlotIndex(slots[1..]);
    var s := slots[0];
    if Indexed(s) && KeyOf(s) == k && k !in rest {
      forall j | 0 < j < |slots| ensures !(Indexed(slots[j]) && KeyOf(slots[j]) == k) {
        assert slots[j] in slots[1..];
      }
    } else {
      SlotIndexKeepsLast(slots[1..], k);
      var i :| 0 <= i < |slots[1..]| && slots[1..][i] == rest[k]
                && forall j :: i < j < |slots[1..]| ==> !(Indexed(slots[1..][j]) && KeyOf(slots[1..][j]) == k);
      assert slots[i + 1] == SlotIndex(slots)[k];
      forall j | i + 1 < j < |slots| ensures !(Indexed(slots[j]) && KeyOf(slots[j]) == k) {
        assert slots[j] == slots[1..][j - 1];
      }
    }
  }

  /** Different keys of an index hold slots with different ids. */
  predicate IdsApart(index: map<SlotKey, Slot>) {
    forall k1, k2 :: k1 in index && k2 in index && k1 != k2 ==> index[k1].id != index[k2].id
  }

  lemma {:induction false} SlotIndexIdsApart(slots: seq<Slot>)
    requires DistinctIds(slots)
    ensures IdsApart(SlotIndex(slots))
  {
    var m := SlotIndex(slots);
    forall k1, k2 | k1 in m && k2 in m && k1 != k2 ensures m[k1].id != m[k2].id {
      var i1 :| 0 <= i1 < |slots| && slots[i1] == m[k1];
      var i2 :| 0 <= i2 < |slots| && slots[i2] == m[k2];
      assert i1 != i2;
    }
  }

  /** A project's list in a filled-candidate index; a missing project has none. */
  function Get(m: map<string, seq<string>>, pid: string): seq<string> {
    if pid in m then m[pid] else []
  }

  /**
   * candidatos_por_projeto: the truthy candidates of the filled slots with a truthy
   * project id, per project, in table order.
   */
  function FilledIndex(slots: seq<Slot>): (m: map<string, seq<string>>)
    ensures "" !in m
    ensures forall pid :: pid in m ==> m[pid] != []
  {
    if slots == [] then map[]
    else
      var rest := FilledIndex(slots[1..]);
      var s := slots[0];
      if s.status == Preenchida && s.projectId != "" && s.candidate != "" then
        rest[s.projectId := [s.candidate] + Get(rest, s.projectId)]
      else rest
  }

  /** The index holds, per project, what the row-by-row engine asks the store for. */
  lemma {:induction false} FilledIndexAgrees(slots: seq<Slot>, pid: string)
    ensures Get(FilledIndex(slots), pid) == if pid == "" then [] else FilledCandidates(slots, pid)
  {
    if slots != [] {
      FilledIndexAgrees(slots[1..], pid);
    }
  }

  /**
   * The loop is written over the pairwise test of the duplicate check, close(c, cand):
   * the filled candidate c is close enough to cand. The engine's test is DuplicateClose.
   */
  predicate AnyClose(close: (string, string) -> bool, cand: string, existing: seq<string>) {
    exists c :: c in existing && close(c, cand)
  }

  /** The engine's pairwise test: the two engine keys have ratio at least 0.95. */
  function DuplicateClose(ratio: (string, string) -> real): (string, string) -> bool {
    (c: string, cand: string) => ratio(DbKeyOf(c), DbKeyOf(cand)) >= DuplicateCutoff
  }

  /** Over DuplicateClose, the loop's test is the anti-duplication test of the row-by-row engine. */
  lemma {:induction false} DuplicateCloseAgrees(ratio: (string, string) -> real, cand: string, existing: seq<string>)
    ensures AnyClose(DuplicateClose(ratio), cand, existing) == IsDuplicate(ratio, cand, existing)
  {
  }

  /** Every candidate is close to itself. */
  ghost predicate Reflexive(close: (string, string) -> bool) {
    forall c :: close(c, c)
  }

  lemma {:induction false} DuplicateCloseIsReflexive(ratio: (string, string) -> real)
    requires ValidRatio(ratio)
    ensures Reflexive(DuplicateClose(ratio))
  {
    forall c ensures DuplicateClose(ratio)(c, c) {
      assert ratio(DbKeyOf(c), DbKeyOf(c)) == 1.0;
    }
  }

  /** One pending row of the bulk upsert: {id, status 'preenchida', candidato_aprovado}. */
  datatype Update = Update(slotId: string, candidate: string)

  /** What the loop threads: the slot index, the filled-candidate index and the pending updates. */
  datatype BatchState = BatchState(index: map<SlotKey, Slot>, filled: map<string, seq<string>>, updates: seq<Update>)

  /**
   * Steps 3.5 to 3.7 for a chosen project: the duplicate test against the project's
   * filled candidates, the index lookup, and the claim.
   */
  function Pick(close: (string, string) -> bool, st: BatchState, pid: string, perfil: Option<string>, cand: string, viaFallback: bool): (r: (BatchState, Outcome))
    ensures r.0.updates == st.updates + if r.1.Filled? then [Update(r.1.slot, cand)] else []
  {
    if AnyClose(close, cand, Get(st.filled, pid)) then (st, Duplicate)
    else if perfil.None? || (pid, perfil.value) !in st.index then (st, NoSlot)
    else
      var key := (pid, perfil.value);
      var slot := st.index[key];
      var after := BatchState(st.index - {key}, st.filled[pid := Get(st.filled, pid) + [cand]], st.updates + [Update(slot.id, cand)]);
      (after, Filled(slot.id, pid, viaFallback))
  }

  /** Which of the three things a pick does, and when. */
  lemma {:induction false} PickOutcome(close: (string, string) -> bool, st: BatchState, pid: string, perfil: Option<string>, cand: string, viaFallback: bool)
    ensures var r := Pick(close, st, pid, perfil, cand, viaFallback);
      && (r.1 == Duplicate <==> AnyClose(close, cand, Get(st.filled, pid)))
      && (r.1 == NoSlot <==> !AnyClose(close, cand, Get(st.filled, pid)) && (perfil.None? || (pid, perfil.value) !in st.index))
      && (r.1.Filled? || r.1 == Duplicate || r.1 == NoSlot)
      && (!r.1.Filled? ==> r.0 == st)
  {
  }

  /** A filled pick claims the project's key for the perfil, and only that. */
  lemma {:induction false} PickClaims(close: (string, string) -> bool, st: BatchState, pid: string, perfil: Option<string>, cand: string, viaFallback: bool)
    ensures var r := Pick(close, st, pid, perfil, cand, viaFallback);
      r.1.Filled? ==>
        && perfil.Some? && Claims(st, r.0, (pid, perfil.value), cand)
        && r.1.project == pid && r.1.viaFallback == viaFallback && r.1.slot == st.index[(pid, perfil.value)].id
  {
    var r := Pick(close, st, pid, perfil, cand, viaFallback);
    if r.1.Filled? {
      var key := (pid, perfil.value);
      var filled := st.filled[pid := Get(st.filled, pid) + [cand]];
      assert r.0 == BatchState(st.index - {key}, filled, st.updates + [Update(st.index[key].id, cand)]);
      assert forall p :: p != pid ==> Get(filled, p) == Get(st.filled, p);
    }
  }

  /**
   * A claim of the indexed key for cand: the key leaves the index, cand joins the
   * project's filled list, one update for the key's slot is queued, and nothing else
   * changes.
   */
  ghost predicate Claims(before: BatchState, after: BatchState, key: SlotKey, cand: string) {
    && key in before.index
    && key !in after.index
    && (forall k :: k in after.index <==> k in before.index && k != key)
    && (forall k :: k in after.index ==> after.index[k] == before.index[k])
    && Get(after.filled, key.0) == Get(before.filled, key.0) + [cand]
    && (forall p :: p != key.0 ==> Get(after.filled, p) == Get(before.filled, p))
    && after.updates == before.updates + [Update(before.index[key].id, cand)]
  }

  /**
   * One iteration of the batch loop. Unlike the row-by-row engine, the fallback project
   * goes through the duplicate test too.
   */
  function BatchStep(close: (string, string) -> bool, st: BatchState, t: Target): (r: (BatchState, Outcome))
    ensures !r.1.Filled? ==> r.0.updates == st.updates
    ensures r.1.Filled? ==> !t.Skip? && r.0.updates == st.updates + [Update(r.1.slot, t.cand)]
  {
    match t
    case Skip(why) => (st, Skipped(why))
    case Direct(pid, perfil, cand) => Pick(close, st, pid, perfil, cand, false)
    case ViaFallback(pid, perfil, cand) => Pick(close, st, pid, perfil, cand, true)
  }

  /** A skipped draft changes nothing; every other draft is picked, with the fallback flag. */
  lemma {:induction false} BatchStepSpec(close: (string, string) -> bool, st: BatchState, t: Target)
    ensures t.Skip? ==> BatchStep(close, st, t) == (st, Skipped(t.why))
    ensures !t.Skip? ==> BatchStep(close, st, t) == Pick(close, st, t.pid, t.perfil, t.cand, t.ViaFallback?)
  {
  }

  /** The number of filled outcomes. */
  function FilledCount(outs: seq<Outcome>): (n: nat)
    ensures n <= |outs|
  {
    if outs == [] then 0 else (if outs[0].Filled? then 1 else 0) + FilledCount(outs[1..])
  }

  /** The loop over the targets, with the outcome of every draft. */
  function BatchFold(close: (string, string) -> bool, st: BatchState, ts: seq<Target>): (r: (BatchState, seq<Outcome>))
    ensures |r.1| == |ts|
    ensures st.updates <= r.0.updates
    ensures |r.0.updates| == |st.updates| + FilledCount(r.1)
    decreases |ts|
  {
    if ts == [] then (st, [])
    else
      var step := BatchStep(close, st, ts[0]);
      var rest := BatchFold(close, step.0, ts[1..]);
      assert ([step.1] + rest.1)[1..] == rest.1;
      (rest.0, [step.1] + rest.1)
  }

  /** The index as it was before the loop, with the ids it held. */
  ghost predicate FromIndex(index0: map<SlotKey, Slot>, st: BatchState) {
    forall k :: k in st.index ==> k in index0 && st.index[k] == index0[k]
  }

  /** No slot id is queued twice. */
  predicate DistinctUpdates(ups: seq<Update>) {
    forall i, j :: 0 <= i < j < |ups| ==> ups[i].slotId != ups[j].slotId
  }

  /**
   * What the loop keeps true of its state against the index it started from: the
   * index only loses keys, queued ids are unique, none of them is still indexed, and each
   * is the slot of a key that was claimed.
   */
  ghost predicate Sound(index0: map<SlotKey, Slot>, st: BatchState) {
    && FromIndex(index0, st)
    && DistinctUpdates(st.updates)
    && (forall j, k :: 0 <= j < |st.updates| && k in st.index ==> st.updates[j].slotId != st.index[k].id)
    && (forall j :: 0 <= j < |st.updates| ==> exists k :: k in index0 && k !in st.index && index0[k].id == st.updates[j].slotId)
  }

  lemma {:induction false} BatchStepSound(close: (string, string) -> bool, index0: map<SlotKey, Slot>, st: BatchState, t: Target)
    requires IdsApart(index0) && Sound(index0, st)
    ensures Sound(index0, BatchStep(close, st, t).0)
  {
    var r := BatchStep(close, st, t);
    BatchStepSpec(close, st, t);
    if !t.Skip? {
      PickOutcome(close, st, t.pid, t.perfil, t.cand, t.ViaFallback?);
      PickClaims(close, st, t.pid, t.perfil, t.cand, t.ViaFallback?);
      if r.1.Filled? {
        ClaimSound(index0, st, r.0, (t.pid, t.perfil.value), t.cand);
      }
    }
  }

  lemma {:induction false} ClaimSound(index0: map<SlotKey, Slot>, st: BatchState, a: BatchState, key: SlotKey, cand: string)
    requires IdsApart(index0) && Sound(index0, st) && Claims(st, a, key, cand)
    ensures Sound(index0, a)
  {
    var n := |st.updates|;
    assert a.updates[n].slotId == index0[key].id;
    assert forall j :: 0 <= j < n ==> a.updates[j] == st.updates[j];
    forall j, k | 0 <= j < |a.updates| && k in a.index ensures a.updates[j].slotId != a.index[k].id {
      if j == n {
        assert k != key && a.index[k] == index0[k];
      }
    }
    forall j | 0 <= j < |a.updates|
      ensures exists k :: k in index0 && k !in a.index && index0[k].id == a.updates[j].slotId
    {
      if j == n {
        assert key in index0 && key !in a.index;
      } else {
        assert a.updates[j] == st.updates[j];
        assert forall k :: k in a.index ==> k in st.index;
      }
    }
  }

  lemma {:induction false} BatchFoldSound(close: (string, string) -> bool, index0: map<SlotKey, Slot>, st: BatchState, ts: seq<Target>)
    requires IdsApart(index0) && Sound(index0, st)
    ensures Sound(index0, BatchFold(close, st, ts).0)
    decreases |ts|
  {
    if ts != [] {
      BatchStepSound(close, index0, st, ts[0]);
      BatchFoldSound(close, index0, BatchStep(close, st, ts[0]).0, ts[1..]);
    }
  }

  /** b is a state the loop can reach from a: the index only shrinks, filled lists only grow. */
  ghost predicate Later(a: BatchState, b: BatchState) {
    && (forall k :: k in b.index ==> k in a.index)
    && (forall p, c :: c in Get(a.filled, p) ==> c in Get(b.filled, p))
  }

  /** A target that cannot fill anything in this state. */
  predicate Dead(close: (string, string) -> bool, st: BatchState, t: Target) {
    || t.Skip?
    || AnyClose(close, t.cand, Get(st.filled, t.pid))
    || t.perfil.None?
    || (t.pid, t.perfil.value) !in st.index
  }

  lemma {:induction false} DeadStaysDead(close: (string, string) -> bool, a: BatchState, b: BatchState, t: Target)
    requires Later(a, b) && Dead(close, a, t)
    ensures Dead(close, b, t)
  {
    if !t.Skip? && AnyClose(close, t.cand, Get(a.filled, t.pid)) {
      var c :| c in Get(a.filled, t.pid) && close(c, t.cand);
      assert c in Get(b.filled, t.pid);
    }
  }

  /** A dead target leaves the state alone. */
  lemma {:induction false} DeadIsNoOp(close: (string, string) -> bool, st: BatchState, t: Target)
    requires Dead(close, st, t)
    ensures BatchStep(close, st, t).0 == st && !BatchStep(close, st, t).1.Filled?
  {
    BatchStepSpec(close, st, t);
    if !t.Skip? {
      PickOutcome(close, st, t.pid, t.perfil, t.cand, t.ViaFallback?);
    }
  }

  /** Every step moves forward; a filled step records its candidate for the project. */
  lemma {:induction false} StepIsLater(close: (string, string) -> bool, st: BatchState, t: Target)
    ensures Later(st, BatchStep(close, st, t).0)
    ensures BatchStep(close, st, t).1.Filled? ==> t.cand in Get(BatchStep(close, st, t).0.filled, t.pid)
  {
    var r := BatchStep(close, st, t);
    BatchStepSpec(close, st, t);
    if !t.Skip? {
      PickOutcome(close, st, t.pid, t.perfil, t.cand, t.ViaFallback?);
      PickClaims(close, st, t.pid, t.perfil, t.cand, t.ViaFallback?);
      if r.1.Filled? {
        ClaimIsLater(st, r.0, (t.pid, t.perfil.value), t.cand);
        assert Get(r.0.filled, t.pid) == Get(st.filled, t.pid) + [t.cand];
      }
    }
  }

  /** A step kills its own target: once filled, its candidate is a duplicate of itself. */
  lemma {:induction false} StepKills(close: (string, string) -> bool, st: BatchState, t: Target)
    requires Reflexive(close)
    ensures Dead(close, BatchStep(close, st, t).0, t)
  {
    var r := BatchStep(close, st, t);
    StepIsLater(close, st, t);
    if r.1.Filled? {
      KnownCandidateIsDuplicate(close, t.cand, Get(r.0.filled, t.pid));
    } else {
      DeadWhenNotFilled(close, st, t);
    }
  }

  lemma {:induction false} DeadWhenNotFilled(close: (string, string) -> bool, st: BatchState, t: Target)
    requires !BatchStep(close, st, t).1.Filled?
    ensures BatchStep(close, st, t).0 == st && Dead(close, st, t)
  {
    BatchStepSpec(close, st, t);
    if !t.Skip? {
      PickOutcome(close, st, t.pid, t.perfil, t.cand, t.ViaFallback?);
    }
  }

  /** A candidate already on the list is its own duplicate. */
  lemma {:induction false} KnownCandidateIsDuplicate(close: (string, string) -> bool, cand: string, existing: seq<string>)
    requires Reflexive(close) && cand in existing
    ensures AnyClose(close, cand, existing)
  {
    assert close(cand, cand);
  }

  lemma {:induction false} ClaimIsLater(a: BatchState, b: BatchState, key: SlotKey, cand: string)
    requires Claims(a, b, key, cand)
    ensures Later(a, b)
  {
    forall p, c | c in Get(a.filled, p) ensures c in Get(b.filled, p) {
      if p == key.0 {
        assert Get(b.filled, p) == Get(a.filled, p) + [cand];
      }
    }
  }

  lemma {:induction false} LaterTransitive(a: BatchState, b: BatchState, c: BatchState)
    requires Later(a, b) && Later(b, c)
    ensures Later(a, c)
  {
  }

  lemma {:induction false} FoldIsLater(close: (string, string) -> bool, st: BatchState, ts: seq<Target>)
    ensures Later(st, BatchFold(close, st, ts).0)
    decreases |ts|
  {
    if ts != [] {
      var next := BatchStep(close, st, ts[0]).0;
      StepIsLater(close, st, ts[0]);
      FoldIsLater(close, next, ts[1..]);
      LaterTransitive(st, next, BatchFold(close, st, ts).0);
    }
  }

  /** After the loop, no target of the batch can fill anything any more. */
  lemma {:induction false} FoldKillsAll(close: (string, string) -> bool, st: BatchState, ts: seq<Target>)
    requires Reflexive(close)
    ensures forall j :: 0 <= j < |ts| ==> Dead(close, BatchFold(close, st, ts).0, ts[j])
    decreases |ts|
  {
    if ts != [] {
      var next := BatchStep(close, st, ts[0]).0;
      var last := BatchFold(close, st, ts).0;
      StepKills(close, st, ts[0]);
      FoldIsLater(close, next, ts[1..]);
      DeadStaysDead(close, next, last, ts[0]);
      FoldKillsAll(close, next, ts[1..]);
      forall j | 0 < j < |ts| ensures Dead(close, last, ts[j]) {
        assert ts[j] == ts[1..][j - 1];
      }
    }
  }

  /** Targets that are all dead go by without a trace. */
  lemma {:induction false} FoldOfDead(close: (string, string) -> bool, st: BatchState, ts: seq<Target>)
    requires forall j :: 0 <= j < |ts| ==> Dead(close, st, ts[j])
    ensures BatchFold(close, st, ts).0 == st
    ensures FilledCount(BatchFold(close, st, ts).1) == 0
    decreases |ts|
  {
    if ts != [] {
      DeadIsNoOp(close, st, ts[0]);
      forall j | 0 <= j < |ts| - 1 ensures Dead(close, st, ts[1..][j]) {
        assert ts[1..][j] == ts[j + 1];
      }
      FoldOfDead(close, st, ts[1..]);
    }
  }

  /** The loop over a + b is the loop over b from where the loop over a ends. */
  lemma {:induction false} FoldAppend(close: (string, string) -> bool, st: BatchState, a: seq<Target>, b: seq<Target>)
    ensures var left := BatchFold(close, st, a);
      var right := BatchFold(close, left.0, b);
      BatchFold(close, st, a + b) == (right.0, left.1 + right.1)
    decreases |a|
  {
    if a == [] {
      assert a + b == b;
      var right := BatchFold(close, st, b);
      assert [] + right.1 == right.1;
    } else {
      assert (a + b)[0] == a[0] && (a + b)[1..] == a[1..] + b;
      var step := BatchStep(close, st, a[0]);
      FoldAppend(close, step.0, a[1..], b);
      var restA := BatchFold(close, step.0, a[1..]);
      var right := BatchFold(close, restA.0, b);
      assert ([step.1] + restA.1) + right.1 == [step.1] + (restA.1 + right.1);
    }
  }

  /**
   * Feeding the same drafts twice in one batch fills nothing more than feeding them once:
   * every draft of the second copy is a duplicate, already claimed, or skipped.
   */
  lemma {:induction false} BatchRepeatIsNoOp(close: (string, string) -> bool, st: BatchState, ts: seq<Target>)
    requires Reflexive(close)
    ensures BatchFold(close, st, ts + ts).0 == BatchFold(close, st, ts).0
    ensures FilledCount(BatchFold(close, st, ts + ts).1) == FilledCount(BatchFold(close, st, ts).1)
  {
    var once := BatchFold(close, st, ts);
    FoldAppend(close, st, ts, ts);
    FoldKillsAll(close, st, ts);
    FoldOfDead(close, once.0, ts);
    FilledCountAppend(once.1, BatchFold(close, once.0, ts).1);
  }

  lemma {:induction false} FilledCountAppend(a: seq<Outcome>, b: seq<Outcome>)
    ensures FilledCount(a + b) == FilledCount(a) + FilledCount(b)
  {
    if a == [] {
      assert a + b == b;
    } else {
      assert (a + b)[0] == a[0] && (a + b)[1..] == a[1..] + b;
      FilledCountAppend(a[1..], b);
    }
  }

  /** The state the loop is in when it reaches target j. */
  function StateAt(close: (string, string) -> bool, st: BatchState, ts: seq<Target>, j: nat): BatchState
    requires j <= |ts|
  {
    BatchFold(close, st, ts[..j]).0
  }

  /** Target j is stepped from StateAt(j), and its outcome is the j-th one reported. */
  lemma {:induction false} StateAtNext(close: (string, string) -> bool, st: BatchState, ts: seq<Target>, j: nat)
    requires j < |ts|
    ensures StateAt(close, st, ts, j + 1) == BatchStep(close, StateAt(close, st, ts, j), ts[j]).0
    ensures BatchFold(close, st, ts).1[j] == BatchStep(close, StateAt(close, st, ts, j), ts[j]).1
  {
    var sj := StateAt(close, st, ts, j);
    assert ts[..j + 1] == ts[..j] + [ts[j]];
    FoldAppend(close, st, ts[..j], [ts[j]]);
    assert [ts[j]][1..] == [];
    assert ts == ts[..j] + ts[j..];
    FoldAppend(close, st, ts[..j], ts[j..]);
    assert ts[j..][0] == ts[j];
  }

  /** Later states only know more candidates, hold fewer keys and queue more updates. */
  lemma {:induction false} StateAtLater(close: (string, string) -> bool, st: BatchState, ts: seq<Target>, i: nat, j: nat)
    requires i <= j <= |ts|
    ensures Later(StateAt(close, st, ts, i), StateAt(close, st, ts, j))
    ensures StateAt(close, st, ts, i).updates <= StateAt(close, st, ts, j).updates
    decreases j - i
  {
    if i < j {
      StateAtNext(close, st, ts, i);
      StepIsLater(close, st := StateAt(close, st, ts, i), t := ts[i]);
      StateAtLater(close, st, ts, i + 1, j);
      LaterTransitive(StateAt(close, st, ts, i), StateAt(close, st, ts, i + 1), StateAt(close, st, ts, j));
    }
  }

  lemma {:induction false} StateAtEnd(close: (string, string) -> bool, st: BatchState, ts: seq<Target>)
    ensures StateAt(close, st, ts, |ts|) == BatchFold(close, st, ts).0
  {
    assert ts[..|ts|] == ts;
  }

  /**
   * Once a candidate is claimed for a project, a later draft for the same project whose
   * candidate key is at least 0.95 close to it is skipped as a duplicate, whether it came
   * through the cascade or the fallback.
   */
  lemma {:induction false} LaterCloseCandidateIsDuplicate(close: (string, string) -> bool, st: BatchState, ts: seq<Target>, i: nat, j: nat)
    requires i < j < |ts| && !ts[i].Skip? && !ts[j].Skip? && ts[j].pid == ts[i].pid
    requires BatchFold(close, st, ts).1[i].Filled?
    requires close(ts[i].cand, ts[j].cand)
    ensures BatchFold(close, st, ts).1[j] == Duplicate
  {
    ClaimedCandidateStays(close, st, ts, i, j);
    StateAtNext(close, st, ts, j);
    KnownCloseIsDuplicate(close, StateAt(close, st, ts, j), ts[j], ts[i].cand);
  }

  lemma {:induction false} ClaimedCandidateStays(close: (string, string) -> bool, st: BatchState, ts: seq<Target>, i: nat, j: nat)
    requires i < j <= |ts| && !ts[i].Skip? && BatchFold(close, st, ts).1[i].Filled?
    ensures ts[i].cand in Get(StateAt(close, st, ts, j).filled, ts[i].pid)
  {
    StateAtNext(close, st, ts, i);
    StepIsLater(close, StateAt(close, st, ts, i), ts[i]);
    StateAtLater(close, st, ts, i + 1, j);
  }

  /** A draft for a project that already has a close enough candidate is a duplicate. */
  lemma {:induction false} KnownCloseIsDuplicate(close: (string, string) -> bool, st: BatchState, t: Target, c: string)
    requires !t.Skip? && c in Get(st.filled, t.pid)
    requires close(c, t.cand)
    ensures BatchStep(close, st, t).1 == Duplicate
  {
    BatchStepSpec(close, st, t);
    PickOutcome(close, st, t.pid, t.perfil, t.cand, t.ViaFallback?);
  }

  /** One advisor's projects in table order: a projetos_por_orientador lookup. */
  function OwnedBy(projects: seq<Project>, o: string): (r: seq<Project>)
    ensures forall p :: p in r <==> p in projects && p.advisor == o && o != ""
  {
    if projects == [] then []
    else
      assert projects == [projects[0]] + projects[1..];
      (if o != "" && projects[0].advisor == o then [projects[0]] else []) + OwnedBy(projects[1..], o)
  }

  /**
   * projetos_do_orientador: the lookups concatenated over the matched advisors, so the
   * projects come grouped by advisor rather than in table order.
   */
  function BatchProjects(projects: seq<Project>, names: seq<string>): (r: seq<Project>)
    ensures forall p :: p in r <==> p in projects && p.advisor != "" && p.advisor in names
  {
    if names == [] then []
    else
      assert names == [names[0]] + names[1..];
      OwnedBy(projects, names[0]) + BatchProjects(projects, names[1..])
  }

  /**
   * Steps 3.1 to 3.4 for one draft. The fallback takes the sole project when the cascade
   * finds nothing; unlike the row-by-row engine, a cascade hit is used whatever its id.
   */
  function BatchTarget(ratio: (string, string) -> real, idx: AdvisorIndex, projects: seq<Project>, d: Draft): (t: Target)
    requires forall k :: k in idx.keys ==> k in idx.originals
    ensures !t.Skip? ==> t.perfil == NormalizePerfil(d.perfil) && t.cand == NormalizeForDb(d.candidate)
  {
    if !Truthy(d.advisor) || !Truthy(d.project) then Skip(Incomplete)
    else if AdvisorKeyMatches(ratio, idx, DbKey(d.advisor)) == [] then Skip(NoAdvisor)
    else
      var ps := BatchProjects(projects, MatchedAdvisors(ratio, idx, DbKey(d.advisor)));
      if ps == [] then Skip(NoProjects)
      else
        var best := FindBestProject(ratio, d.project, ps);
        var perfil := NormalizePerfil(d.perfil);
        var cand := NormalizeForDb(d.candidate);
        if best.Some? then Direct(ps[best.value].id, perfil, cand)
        else if |ps| == 1 then ViaFallback(ps[0].id, perfil, cand)
        else Skip(Ambiguous)
  }

  /** The target, characterised by the steps that decide it. */
  lemma {:induction false} BatchTargetSpec(ratio: (string, string) -> real, idx: AdvisorIndex, projects: seq<Project>, d: Draft)
    requires forall k :: k in idx.keys ==> k in idx.originals
    ensures var t := BatchTarget(ratio, idx, projects, d);
      var ps := BatchProjects(projects, MatchedAdvisors(ratio, idx, DbKey(d.advisor)));
      var best := FindBestProject(ratio, d.project, ps);
      && (t == Skip(Incomplete) <==> !Truthy(d.advisor) || !Truthy(d.project))
      && (t == Skip(NoAdvisor) ==> forall k :: k in idx.keys ==> ratio(k, DbKey(d.advisor)) < AdvisorCutoff)
      && (t == Skip(NoProjects) ==> ps == [])
      && (t.Direct? ==> best.Some? && t.pid == ps[best.value].id)
      && (t.ViaFallback? ==> best.None? && |ps| == 1 && t.pid == ps[0].id)
      && (t == Skip(Ambiguous) ==> best.None? && |ps| > 1)
  {
  }

  function BatchTargets(ratio: (string, string) -> real, idx: AdvisorIndex, projects: seq<Project>, drafts: seq<Draft>): (ts: seq<Target>)
    requires forall k :: k in idx.keys ==> k in idx.originals
    ensures |ts| == |drafts|
  {
    if drafts == [] then [] else [BatchTarget(ratio, idx, projects, drafts[0])] + BatchTargets(ratio, idx, projects, drafts[1..])
  }

  lemma {:induction false} BatchTargetsAt(ratio: (string, string) -> real, idx: AdvisorIndex, projects: seq<Project>, drafts: seq<Draft>, j: nat)
    requires forall k :: k in idx.keys ==> k in idx.originals
    requires j < |drafts|
    ensures BatchTargets(ratio, idx, projects, drafts)[j] == BatchTarget(ratio, idx, projects, drafts[j])
  {
    if j > 0 {
      BatchTargetsAt(ratio, idx, projects, drafts[1..], j - 1);
    }
  }

  /** Which of the store reads succeeded, and whether the bulk upsert did. */
  datatype Loads = Loads(projectsOk: bool, slotsOk: bool, filledOk: bool, upsertOk: bool)

  /** The state before the loop; a failed read of the filled candidates leaves that index empty. */
  function InitialState(db: Db, filledOk: bool): BatchState {
    BatchState(SlotIndex(db.slots), if filledOk then FilledIndex(db.slots) else map[], [])
  }

  /**
   * Steps 1 to 3: the loop's final state and every draft's outcome, or None when the run
   * stops first: no drafts, no advisors, or a failed read of the projects or the slots.
   */
  function BatchLoop(ratio: (string, string) -> real, db: Db, drafts: seq<Draft>, loads: Loads): (r: Option<(BatchState, seq<Outcome>)>)
    ensures r.Some? ==> |r.value.1| == |drafts| && |r.value.0.updates| == FilledCount(r.value.1)
    ensures r.None? <==> drafts == [] || AllAdvisors(db.projects) == [] || !loads.projectsOk || !loads.slotsOk
  {
    if drafts == [] then None
    else
      var advisors := AllAdvisors(db.projects);
      if advisors == [] || !loads.projectsOk || !loads.slotsOk then None
      else
        var idx := BuildAdvisorIndex(advisors);
        Some(BatchFold(DuplicateClose(ratio), InitialState(db, loads.filledOk), BatchTargets(ratio, idx, db.projects, drafts)))
  }

  /** upsert(updates): each pending update fills the slot with its id, in order. */
  function ApplyUpdates(slots: seq<Slot>, ups: seq<Update>): (r: seq<Slot>)
    ensures SameShape(slots, r)
    decreases |ups|
  {
    if ups == [] then slots else ApplyUpdates(FillSlot(slots, ups[0].slotId, ups[0].candidate), ups[1..])
  }

  /**
   * atualizar_bolsas_com_resultado_otimizado: the store after the run and the count it
   * reports. Nothing is written, and 0 is reported, when the run stops early, when there
   * is nothing to write, or when the upsert fails.
   */
  function RunBatch(ratio: (string, string) -> real, db: Db, drafts: seq<Draft>, loads: Loads): (r: (Db, nat))
    ensures r.1 <= |drafts|
    ensures r.0.projects == db.projects && SameShape(db.slots, r.0.slots)
    ensures r.1 == 0 ==> r.0 == db
    ensures !loads.upsertOk ==> r == (db, 0)
    ensures BatchLoop(ratio, db, drafts, loads).None? ==> r == (db, 0)
    ensures BatchLoop(ratio, db, drafts, loads).Some? && loads.upsertOk ==>
              r.1 == FilledCount(BatchLoop(ratio, db, drafts, loads).value.1)
  {
    match BatchLoop(ratio, db, drafts, loads)
    case None => (db, 0)
    case Some(res) =>
      if res.0.updates == [] || !loads.upsertOk then (db, 0)
      else (Db(db.projects, ApplyUpdates(db.slots, res.0.updates)), |res.0.updates|)
  }

  /** Every pending update names an available slot of the table. */
  ghost predicate AvailableIds(slots: seq<Slot>, ups: seq<Update>) {
    forall j :: 0 <= j < |ups| ==> HasAvailable(slots, ups[j].slotId)
  }

  ghost predicate HasAvailable(slots: seq<Slot>, id: string) {
    exists i :: 0 <= i < |slots| && slots[i].id == id && slots[i].status == Disponivel
  }

  /** What the upsert may assume of its updates: unique table ids, distinct available targets. */
  ghost predicate Applicable(slots: seq<Slot>, ups: seq<Update>) {
    DistinctIds(slots) && DistinctUpdates(ups) && AvailableIds(slots, ups)
  }

  /** After the first update, the remaining ones are still applicable. */
  lemma {:induction false} ApplyFirst(slots: seq<Slot>, ups: seq<Update>) returns (i0: nat)
    requires Applicable(slots, ups) && ups != []
    ensures i0 < |slots| && slots[i0].id == ups[0].slotId && slots[i0].status == Disponivel
    ensures Applicable(FillSlot(slots, ups[0].slotId, ups[0].candidate), ups[1..])
    ensures forall j :: 0 <= j < |ups| - 1 ==> ups[1..][j].slotId != ups[0].slotId
  {
    assert HasAvailable(slots, ups[0].slotId);
    i0 :| 0 <= i0 < |slots| && slots[i0].id == ups[0].slotId && slots[i0].status == Disponivel;
    var next := FillSlot(slots, ups[0].slotId, ups[0].candidate);
    UpdatesTail(ups);
    SameShapeKeepsIds(slots, next);
    StillAvailable(slots, ups);
  }

  lemma {:induction false} UpdatesTail(ups: seq<Update>)
    requires DistinctUpdates(ups) && ups != []
    ensures DistinctUpdates(ups[1..])
    ensures forall j :: 0 <= j < |ups| - 1 ==> ups[1..][j].slotId != ups[0].slotId
  {
    var rest := ups[1..];
    forall a, b | 0 <= a < b < |rest| ensures rest[a].slotId != rest[b].slotId {
      assert rest[a] == ups[a + 1] && rest[b] == ups[b + 1];
    }
    forall j | 0 <= j < |rest| ensures rest[j].slotId != ups[0].slotId {
      assert rest[j] == ups[j + 1];
    }
  }

  lemma {:induction false} StillAvailable(slots: seq<Slot>, ups: seq<Update>)
    requires DistinctUpdates(ups) && AvailableIds(slots, ups) && ups != []
    ensures AvailableIds(FillSlot(slots, ups[0].slotId, ups[0].candidate), ups[1..])
  {
    var next := FillSlot(slots, ups[0].slotId, ups[0].candidate);
    var rest := ups[1..];
    assert AvailableIds(slots, ups);
    forall j | 0 <= j < |rest|
      ensures HasAvailable(next, rest[j].slotId)
    {
      assert rest[j] == ups[j + 1];
      assert HasAvailable(slots, ups[j + 1].slotId);
      var i :| 0 <= i < |slots| && slots[i].id == ups[j + 1].slotId && slots[i].status == Disponivel;
      assert ups[0].slotId != ups[j + 1].slotId;
      assert next[i] == slots[i];
    }
    assert AvailableIds(next, rest);
  }

  /**
   * With unique slot ids, and pending updates that name distinct available slots, the
   * upsert removes exactly one available slot per update and leaves the others alone.
   */
  lemma {:induction false} ApplyUpdatesCounts(slots: seq<Slot>, ups: seq<Update>)
    requires Applicable(slots, ups)
    ensures AvailableCount(ApplyUpdates(slots, ups)) + |ups| == AvailableCount(slots)
    ensures forall i :: 0 <= i < |slots| && slots[i].status != Disponivel ==> ApplyUpdates(slots, ups)[i] == slots[i]
    decreases |ups|
  {
    if ups != [] {
      var i0 := ApplyFirst(slots, ups);
      FillOneAvailable(slots, i0, ups[0].candidate);
      FillKeepsTheRest(slots, i0, ups[0].candidate);
      ApplyUpdatesCounts(FillSlot(slots, ups[0].slotId, ups[0].candidate), ups[1..]);
    }
  }

  /** The slot an update names ends up filled with the update's candidate. */
  lemma {:induction false} ApplyUpdatesFills(slots: seq<Slot>, ups: seq<Update>, i: nat, j: nat)
    requires Applicable(slots, ups)
    requires i < |slots| && j < |ups| && slots[i].id == ups[j].slotId
    ensures ApplyUpdates(slots, ups)[i] == slots[i].(status := Preenchida, candidate := ups[j].candidate)
    decreases |ups|
  {
    var i0 := ApplyFirst(slots, ups);
    var next := FillSlot(slots, ups[0].slotId, ups[0].candidate);
    if j == 0 {
      ApplyUpdatesKeeps(next, ups[1..], i);
    } else {
      assert ups[1..][j - 1] == ups[j];
      ApplyUpdatesFills(next, ups[1..], i, j - 1);
    }
  }

  /** A slot no update names is left as it was. */
  lemma {:induction false} ApplyUpdatesKeeps(slots: seq<Slot>, ups: seq<Update>, i: nat)
    requires i < |slots| && forall j :: 0 <= j < |ups| ==> slots[i].id != ups[j].slotId
    ensures ApplyUpdates(slots, ups)[i] == slots[i]
    decreases |ups|
  {
    if ups != [] {
      var next := FillSlot(slots, ups[0].slotId, ups[0].candidate);
      forall j | 0 <= j < |ups| - 1 ensures next[i].id != ups[1..][j].slotId {
        assert ups[1..][j] == ups[j + 1];
      }
      ApplyUpdatesKeeps(next, ups[1..], i);
    }
  }

  lemma {:induction false} InitialSound(db: Db, filledOk: bool)
    ensures Sound(SlotIndex(db.slots), InitialState(db, filledOk))
  {
  }

  /** A sound final state names distinct available slots of the table it was built from. */
  lemma {:induction false} SoundApplicable(slots: seq<Slot>, st: BatchState)
    requires DistinctIds(slots) && Sound(SlotIndex(slots), st)
    ensures Applicable(slots, st.updates)
  {
    var index0 := SlotIndex(slots);
    forall j | 0 <= j < |st.updates|
      ensures HasAvailable(slots, st.updates[j].slotId)
    {
      assert st.updates[j] in st.updates;
      var k :| k in index0 && k !in st.index && index0[k].id == st.updates[j].slotId;
      var i :| 0 <= i < |slots| && slots[i] == index0[k];
    }
    assert AvailableIds(slots, st.updates);
    assert DistinctUpdates(st.updates);
  }

  /** The loop, when the run gets that far, ends sound against the slot index it built. */
  lemma {:induction false} BatchLoopSound(ratio: (string, string) -> real, db: Db, drafts: seq<Draft>, loads: Loads)
    requires DistinctIds(db.slots)
    ensures BatchLoop(ratio, db, drafts, loads).Some? ==>
              Sound(SlotIndex(db.slots), BatchLoop(ratio, db, drafts, loads).value.0)
  {
    if BatchLoop(ratio, db, drafts, loads).Some? {
      SlotIndexIdsApart(db.slots);
      InitialSound(db, loads.filledOk);
      var idx := BuildAdvisorIndex(AllAdvisors(db.projects));
      BatchFoldSound(DuplicateClose(ratio), SlotIndex(db.slots), InitialState(db, loads.filledOk), BatchTargets(ratio, idx, db.projects, drafts));
    }
  }

  /**
   * With unique slot ids, the reported count is exactly the number of slots that stopped
   * being available, and no slot that was not available is touched.
   */
  lemma {:induction false} RunBatchCounts(ratio: (string, string) -> real, db: Db, drafts: seq<Draft>, loads: Loads)
    requires DistinctIds(db.slots)
    ensures var r := RunBatch(ratio, db, drafts, loads);
      && r.1 + AvailableCount(r.0.slots) == AvailableCount(db.slots)
      && forall i :: 0 <= i < |db.slots| && db.slots[i].status != Disponivel ==> r.0.slots[i] == db.slots[i]
  {
    var loop := BatchLoop(ratio, db, drafts, loads);
    if loop.Some? && loop.value.0.updates != [] && loads.upsertOk {
      BatchLoopSound(ratio, db, drafts, loads);
      SoundApplicable(db.slots, loop.value.0);
      ApplyUpdatesCounts(db.slots, loop.value.0.updates);
    }
  }

  /** A filled outcome queues its candidate for the slot its key held before the loop. */
  lemma {:induction false} FilledIsQueued(close: (string, string) -> bool, index0: map<SlotKey, Slot>, st: BatchState, ts: seq<Target>, j: nat)
    requires IdsApart(index0) && Sound(index0, st)
    requires j < |ts| && BatchFold(close, st, ts).1[j].Filled?
    ensures !ts[j].Skip? && ts[j].perfil.Some? && (ts[j].pid, ts[j].perfil.value) in index0
    ensures Update(index0[(ts[j].pid, ts[j].perfil.value)].id, ts[j].cand) in BatchFold(close, st, ts).0.updates
  {
    var sj := StateAt(close, st, ts, j);
    var t := ts[j];
    StateAtNext(close, st, ts, j);
    BatchFoldSound(close, index0, st, ts[..j]);
    BatchStepSpec(close, sj, t);
    PickClaims(close, sj, t.pid, t.perfil, t.cand, t.ViaFallback?);
    var next := StateAt(close, st, ts, j + 1);
    assert next.updates == sj.updates + [Update(index0[(t.pid, t.perfil.value)].id, t.cand)];
    assert next.updates[|sj.updates|] == Update(index0[(t.pid, t.perfil.value)].id, t.cand);
    StateAtLater(close, st, ts, j + 1, |ts|);
    StateAtEnd(close, st, ts);
  }

  /**
   * The slot a filled draft got, once written, holds its candidate: the candidate is then
   * on that project's filled list of the store.
   */
  lemma {:induction false} WrittenIsFilled(ratio: (string, string) -> real, db: Db, drafts: seq<Draft>, loads: Loads, j: nat)
    requires DistinctIds(db.slots) && loads.upsertOk
    requires BatchLoop(ratio, db, drafts, loads).Some?
    requires j < |drafts| && BatchLoop(ratio, db, drafts, loads).value.1[j].Filled?
    ensures var t := BatchTargets(ratio, BuildAdvisorIndex(AllAdvisors(db.projects)), db.projects, drafts)[j];
      && !t.Skip? && t.pid != ""
      && (t.cand != "" ==> t.cand in FilledCandidates(RunBatch(ratio, db, drafts, loads).0.slots, t.pid))
  {
    var idx := BuildAdvisorIndex(AllAdvisors(db.projects));
    var ts := BatchTargets(ratio, idx, db.projects, drafts);
    var close := DuplicateClose(ratio);
    var run := BatchFold(close, InitialState(db, loads.filledOk), ts);
    assert BatchLoop(ratio, db, drafts, loads) == Some(run);
    FoldWritesFilled(close, db, loads.filledOk, ts, j);
    assert RunBatch(ratio, db, drafts, loads).0.slots == ApplyUpdates(db.slots, run.0.updates);
  }

  /** The same, for any targets folded from the loaded store. */
  lemma {:induction false} FoldWritesFilled(close: (string, string) -> bool, db: Db, filledOk: bool, ts: seq<Target>, j: nat)
    requires DistinctIds(db.slots)
    requires j < |ts| && BatchFold(close, InitialState(db, filledOk), ts).1[j].Filled?
    ensures !ts[j].Skip? && ts[j].pid != ""
    ensures ts[j].cand != "" ==>
              ts[j].cand in FilledCandidates(ApplyUpdates(db.slots, BatchFold(close, InitialState(db, filledOk), ts).0.updates), ts[j].pid)
  {
    var st0 := InitialState(db, filledOk);
    var run := BatchFold(close, st0, ts);
    var index0 := SlotIndex(db.slots);
    SlotIndexIdsApart(db.slots);
    InitialSound(db, filledOk);
    FilledIsQueued(close, index0, st0, ts, j);
    var t := ts[j];
    var slot := index0[(t.pid, t.perfil.value)];
    var m :| 0 <= m < |run.0.updates| && run.0.updates[m] == Update(slot.id, t.cand);
    var i :| 0 <= i < |db.slots| && db.slots[i] == slot;
    BatchFoldSound(close, index0, st0, ts);
    SoundApplicable(db.slots, run.0);
    var written := ApplyUpdates(db.slots, run.0.updates);
    ApplyUpdatesFills(db.slots, run.0.updates, i, m);
    assert written[i] in written;
  }

  /**
   * Re-running the same drafts against the store a successful run wrote skips every draft
   * that run filled, as a duplicate, provided its candidate name is not empty: the filled
   * slot now carries the candidate, and a candidate is always close to itself.
   */
  lemma {:induction false} RerunSkipsFilled(ratio: (string, string) -> real, db: Db, drafts: seq<Draft>, loads: Loads, loads2: Loads, j: nat)
    requires ValidRatio(ratio) && DistinctIds(db.slots)
    requires loads.upsertOk && loads2.projectsOk && loads2.slotsOk && loads2.filledOk
    requires BatchLoop(ratio, db, drafts, loads).Some?
    requires j < |drafts| && BatchLoop(ratio, db, drafts, loads).value.1[j].Filled?
    requires NormalizeForDb(drafts[j].candidate) != ""
    ensures BatchLoop(ratio, RunBatch(ratio, db, drafts, loads).0, drafts, loads2).Some?
    ensures BatchLoop(ratio, RunBatch(ratio, db, drafts, loads).0, drafts, loads2).value.1[j] == Duplicate
  {
    var idx := BuildAdvisorIndex(AllAdvisors(db.projects));
    var ts := BatchTargets(ratio, idx, db.projects, drafts);
    var close := DuplicateClose(ratio);
    var db2 := RunBatch(ratio, db, drafts, loads).0;
    WrittenIsFilled(ratio, db, drafts, loads, j);
    BatchTargetsAt(ratio, idx, db.projects, drafts, j);
    var t := ts[j];
    FilledIndexAgrees(db2.slots, t.pid);
    var st2 := InitialState(db2, true);
    assert t.cand in Get(st2.filled, t.pid);
    assert BatchLoop(ratio, db2, drafts, loads2) == Some(BatchFold(close, st2, ts));
    assert ts[..0] == [];
    StateAtLater(close, st2, ts, 0, j);
    StateAtNext(close, st2, ts, j);
    DuplicateCloseIsReflexive(ratio);
    KnownCloseIsDuplicate(close, StateAt(close, st2, ts, j), t, t.cand);
  }
}
