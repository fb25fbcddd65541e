/**
 * SupabaseManager.atualizar_bolsas_com_resultado (backend/database.py): the
 * row-by-row engine. Each draft is resolved against the store as it stands after the
 * previous drafts, and at most one available slot is filled per draft.
 */
module RowByRow {
  import opened Values
  import opened Wrappers
  import opened Keys
  import opened Similarity
  import opened Store
  import opened Matching

  /** Why a draft was passed over before any slot was looked at. */
  datatype Reason =
    | Incomplete          // advisor or project title missing
    | NoAdvisor           // no advisor key reaches 0.75
    | Ambiguous           // no usable cascade hit and the advisors do not own exactly one project
    | NoProjects          // the matched advisors own no project (checked by the batch engine only)

  /** What happened to one draft. */
  datatype Outcome =
    | Skipped(reason: Reason)
    | Duplicate           // a close enough candidate is already filled for the project
    | NoSlot              // a project was chosen but it has no available slot for the perfil
    | Filled(slot: string, project: string, viaFallback: bool)

  /** Fill the first fitting slot, if there is one. */
  function Claim(db: Db, pid: string, perfil: Option<string>, cand: string, viaFallback: bool): (r: (Db, Outcome))
    ensures r.0.projects == db.projects && SameShape(db.slots, r.0.slots)
    ensures r.1.Filled? || r.1 == NoSlot
    ensures r.1 == NoSlot ==> r.0 == db
    ensures r.1.Filled? ==> r.1.project == pid && r.1.viaFallback == viaFallback
    ensures r.1.Filled? ==> exists i :: Claimed(db, r.0, i, r.1.slot, pid, perfil, cand)
    ensures r.1 == NoSlot <==> FirstAvailable(db.slots, pid, perfil).None?
    ensures r.1.Filled? ==>
              FirstAvailable(db.slots, pid, perfil).Some?
              && r.1.slot == db.slots[FirstAvailable(db.slots, pid, perfil).value].id
  {
    match FirstAvailable(db.slots, pid, perfil)
    case None => (db, NoSlot)
    case Some(i) =>
      var r := (Db(db.projects, FillSlot(db.slots, db.slots[i].id, cand)), Filled(db.slots[i].id, pid, viaFallback));
      assert Claimed(db, r.0, i, r.1.slot, pid, perfil, cand);
      r
  }

  /** after is before with the available slot i, of the project and perfil, given to cand. */
  ghost predicate Claimed(before: Db, after: Db, i: int, id: string, pid: string, perfil: Option<string>, cand: string) {
    && 0 <= i < |before.slots| && before.slots[i].id == id && perfil.Some?
    && Fits(before.slots[i], pid, perfil.value)
    && after.slots == FillSlot(before.slots, id, cand)
  }

  /** The projects of the advisors a draft resolves to, as the `.in_('orientador', ...)` query returns them. */
  function AdvisorProjects(ratio: (string, string) -> real, idx: AdvisorIndex, projects: seq<Project>, d: Draft): seq<Project>
    requires forall k :: k in idx.keys ==> k in idx.originals
  {
    ProjectsOf(projects, MatchedAdvisors(ratio, idx, DbKey(d.advisor)))
  }

  /**
   * Where a draft is headed before the store's slots are consulted, with its perfil and
   * candidate normalised for the store.
   */
  datatype Target =
    | Skip(why: Reason)
    | Direct(pid: string, perfil: Option<string>, cand: string)
    | ViaFallback(pid: string, perfil: Option<string>, cand: string)

  /**
   * A cascade hit with a truthy id goes to that project; otherwise the advisors' sole
   * project, if they own exactly one.
   */
  function RowTarget(ratio: (string, string) -> real, idx: AdvisorIndex, projects: seq<Project>, d: Draft): (t: Target)
    requires forall k :: k in idx.keys ==> k in idx.originals
    ensures !t.Skip? ==> t.perfil == NormalizePerfil(d.perfil) && t.cand == NormalizeForDb(d.candidate)
    ensures t != Skip(NoProjects)
  {
    if !Truthy(d.advisor) || !Truthy(d.project) then Skip(Incomplete)
    else if AdvisorKeyMatches(ratio, idx, DbKey(d.advisor)) == [] then Skip(NoAdvisor)
    else
      var ps := AdvisorProjects(ratio, idx, projects, d);
      var best := FindBestProject(ratio, d.project, ps);
      Route(ps, best, NormalizePerfil(d.perfil), NormalizeForDb(d.candidate))
  }

  /** After the cascade: its hit when the project has an id, else the sole project, else none. */
  function Route(ps: seq<Project>, best: Option<nat>, perfil: Option<string>, cand: string): (t: Target)
    requires best.Some? ==> best.value < |ps|
    ensures !t.Skip? ==> t.perfil == perfil && t.cand == cand
    ensures t.Skip? ==> t == Skip(Ambiguous) && |ps| != 1
    ensures t.Direct? ==> best.Some? && t.pid == ps[best.value].id && t.pid != ""
    ensures t.ViaFallback? ==> |ps| == 1 && t.pid == ps[0].id && (best.None? || ps[0].id == "")
    ensures best.Some? && ps[best.value].id != "" ==> t == Direct(ps[best.value].id, perfil, cand)
    ensures |ps| == 1 && (best.None? || ps[0].id == "") ==> t == ViaFallback(ps[0].id, perfil, cand)
  {
    if best.Some? && ps[best.value].id != "" then Direct(ps[best.value].id, perfil, cand)
    else if |ps| == 1 then ViaFallback(ps[0].id, perfil, cand)
    else Skip(Ambiguous)
  }

  /** The target, characterised layer by layer. */
  lemma RowTargetSpec(ratio: (string, string) -> real, idx: AdvisorIndex, projects: seq<Project>, d: Draft)
    requires forall k :: k in idx.keys ==> k in idx.originals
    ensures var t := RowTarget(ratio, idx, projects, d);
      var ps := AdvisorProjects(ratio, idx, projects, d);
      var best := FindBestProject(ratio, d.project, ps);
      && (t == Skip(Incomplete) <==> !Truthy(d.advisor) || !Truthy(d.project))
      && (t == Skip(NoAdvisor) ==> forall k :: k in idx.keys ==> ratio(k, DbKey(d.advisor)) < AdvisorCutoff)
      && (t.Direct? ==> best.Some? && t.pid == ps[best.value].id && t.pid != "")
      && (t.ViaFallback? ==> |ps| == 1 && t.pid == ps[0].id && (best.None? || ps[0].id == ""))
      && (t == Skip(Ambiguous) ==> |ps| != 1)
      && (Truthy(d.advisor) && Truthy(d.project) && AdvisorKeyMatches(ratio, idx, DbKey(d.advisor)) == [] ==> t == Skip(NoAdvisor))
      && (Truthy(d.advisor) && Truthy(d.project) && AdvisorKeyMatches(ratio, idx, DbKey(d.advisor)) != [] ==>
            && (best.Some? ==> best.value < |ps|)
            && (best.Some? && ps[best.value].id != "" ==> t == Direct(ps[best.value].id, NormalizePerfil(d.perfil), NormalizeForDb(d.candidate)))
            && (|ps| == 1 && (best.None? || ps[0].id == "") ==> t == ViaFallback(ps[0].id, NormalizePerfil(d.perfil), NormalizeForDb(d.candidate))))
  {
    var t := RowTarget(ratio, idx, projects, d);
    if !Truthy(d.advisor) || !Truthy(d.project) {
      assert t == Skip(Incomplete);
    } else if AdvisorKeyMatches(ratio, idx, DbKey(d.advisor)) == [] {
      assert t == Skip(NoAdvisor);
    }
  }

  /** One iteration of the loop over the drafts, once the draft's target is known. */
  function StepRow(ratio: (string, string) -> real, db: Db, t: Target): (r: (Db, Outcome))
    ensures r.0.projects == db.projects && SameShape(db.slots, r.0.slots)
    ensures !r.1.Filled? ==> r.0 == db
    ensures r.1.Filled? ==> !t.Skip? && exists i :: Claimed(db, r.0, i, r.1.slot, r.1.project, t.perfil, t.cand)
  {
    match t
    case Skip(why) => (db, Skipped(why))
    case Direct(pid, perfil, cand) =>
      if IsDuplicate(ratio, cand, FilledCandidates(db.slots, pid)) then (db, Duplicate)
      else Claim(db, pid, perfil, cand, false)
    case ViaFallback(pid, perfil, cand) => Claim(db, pid, perfil, cand, true)
  }

  /**
   * A direct hit runs the duplicate test against the project's filled candidates; the
   * fallback path does not. Past the duplicate test, NoSlot means no slot fits.
   */
  lemma StepRowSpec(ratio: (string, string) -> real, db: Db, t: Target)
    ensures var r := StepRow(ratio, db, t);
      && (t.Skip? <==> r.1.Skipped?)
      && (t.Skip? ==> r.1.reason == t.why)
      && (t.Direct? ==> (r.1 == Duplicate <==> IsDuplicate(ratio, t.cand, FilledCandidates(db.slots, t.pid))))
      && (t.Direct? && r.1.Filled? ==> r.1.project == t.pid && !r.1.viaFallback)
      && (t.ViaFallback? ==> r.1 != Duplicate && (r.1.Filled? ==> r.1.project == t.pid && r.1.viaFallback))
      && (!t.Skip? && r.1 != Duplicate ==> (r.1 == NoSlot <==> FirstAvailable(db.slots, t.pid, t.perfil).None?))
  {
  }

  /** The targets of the drafts, in order. */
  function Targets(ratio: (string, string) -> real, idx: AdvisorIndex, projects: seq<Project>, drafts: seq<Draft>): (ts: seq<Target>)
    requires forall k :: k in idx.keys ==> k in idx.originals
    ensures |ts| == |drafts|
  {
    if drafts == [] then [] else [RowTarget(ratio, idx, projects, drafts[0])] + Targets(ratio, idx, projects, drafts[1..])
  }

  /** Every draft gets its own target: the projects table is the same for all of them. */
  lemma {:induction false} TargetsAt(ratio: (string, string) -> real, idx: AdvisorIndex, projects: seq<Project>, drafts: seq<Draft>, j: nat)
    requires forall k :: k in idx.keys ==> k in idx.originals
    requires j < |drafts|
    ensures Targets(ratio, idx, projects, drafts)[j] == RowTarget(ratio, idx, projects, drafts[j])
  {
    if j > 0 {
      TargetsAt(ratio, idx, projects, drafts[1..], j - 1);
    }
  }

  /** The loop, counting the slots it fills. */
  function RowFold(ratio: (string, string) -> real, db: Db, ts: seq<Target>): (r: (Db, nat))
    ensures r.1 <= |ts|
    ensures r.0.projects == db.projects && SameShape(db.slots, r.0.slots)
    ensures r.1 == 0 ==> r.0 == db
    decreases |ts|
  {
    if ts == [] then (db, 0)
    else
      var step := StepRow(ratio, db, ts[0]);
      var rest := RowFold(ratio, step.0, ts[1..]);
      (rest.0, rest.1 + if step.1.Filled? then 1 else 0)
  }

  /**
   * atualizar_bolsas_com_resultado: 0 for no drafts or when no advisor can be loaded;
   * otherwise the advisor map is built once and the drafts are processed in order.
   */
  function UpdateSlots(ratio: (string, string) -> real, db: Db, drafts: seq<Draft>): (r: (Db, nat))
    ensures r.1 <= |drafts|
    ensures r.0.projects == db.projects && SameShape(db.slots, r.0.slots)
    ensures drafts == [] || AllAdvisors(db.projects) == [] ==> r == (db, 0)
  {
    if drafts == [] then (db, 0)
    else
      var advisors := AllAdvisors(db.projects);
      if advisors == [] then (db, 0)
      else
        var idx := BuildAdvisorIndex(advisors);
        RowFold(ratio, db, Targets(ratio, idx, db.projects, drafts))
  }

  /**
   * With unique slot ids, the count is exactly the number of slots that stopped being
   * available, and no slot that was already filled is touched.
   */
  lemma {:induction false} RowFoldCounts(ratio: (string, string) -> real, db: Db, ts: seq<Target>)
    requires DistinctIds(db.slots)
    ensures var r := RowFold(ratio, db, ts);
      && r.1 + AvailableCount(r.0.slots) == AvailableCount(db.slots)
      && forall i :: 0 <= i < |db.slots| && db.slots[i].status != Disponivel ==> r.0.slots[i] == db.slots[i]
    decreases |ts|
  {
    if ts != [] {
      var step := StepRow(ratio, db, ts[0]);
      StepRowCounts(ratio, db, ts[0]);
      assert DistinctIds(step.0.slots);
      RowFoldCounts(ratio, step.0, ts[1..]);
    }
  }

  lemma StepRowCounts(ratio: (string, string) -> real, db: Db, t: Target)
    requires DistinctIds(db.slots)
    ensures var r := StepRow(ratio, db, t);
      && AvailableCount(r.0.slots) + (if r.1.Filled? then 1 else 0) == AvailableCount(db.slots)
      && forall i :: 0 <= i < |db.slots| && db.slots[i].status != Disponivel ==> r.0.slots[i] == db.slots[i]
  {
    var r := StepRow(ratio, db, t);
    if r.1.Filled? {
      var i :| Claimed(db, r.0, i, r.1.slot, r.1.project, t.perfil, t.cand);
      FillOneAvailable(db.slots, i, t.cand);
      FillKeepsTheRest(db.slots, i, t.cand);
      assert forall j :: 0 <= j < |db.slots| && db.slots[j].status != Disponivel ==> j != i;
    }
  }

  /** The whole run, from the loaded store. */
  lemma UpdateSlotsCounts(ratio: (string, string) -> real, db: Db, drafts: seq<Draft>)
    requires DistinctIds(db.slots)
    ensures var r := UpdateSlots(ratio, db, drafts);
      && r.1 + AvailableCount(r.0.slots) == AvailableCount(db.slots)
      && forall i :: 0 <= i < |db.slots| && db.slots[i].status != Disponivel ==> r.0.slots[i] == db.slots[i]
  {
    if drafts != [] && AllAdvisors(db.projects) != [] {
      var idx := BuildAdvisorIndex(AllAdvisors(db.projects));
      RowFoldCounts(ratio, db, Targets(ratio, idx, db.projects, drafts));
    }
  }
}
