/**
 * The rows the matching engine reads and writes, and the approval drafts it consumes.
 *
 * Store columns that may be null are strings here, with "" standing for null: every
 * reader of those columns in the engine only tests them for truthiness or feeds them
 * to a key function, and both treat null and "" alike.
 */
module Store {
  import opened Values
  import opened Wrappers

  /** A row of `projetos`: id, nome_projeto and orientador. */
  datatype Project = Project(id: string, name: string, advisor: string)

  datatype Status = Disponivel | Preenchida | OtherStatus

  /** A row of `bolsas`: id, projeto_id, numero_perfil, status and candidato_aprovado. */
  datatype Slot = Slot(id: string, projectId: string, perfil: string, status: Status, candidate: string)

  /** One approval record extracted from a result PDF; every field may be missing. */
  datatype Draft = Draft(advisor: Json, project: Json, perfil: Json, candidate: Json)

  /** The two tables the engine works on. */
  datatype Db = Db(projects: seq<Project>, slots: seq<Slot>)

  predicate Distinct(s: seq<string>) {
    forall i, j :: 0 <= i < j < |s| ==> s[i] != s[j]
  }

  /**
   * The distinct elements of s. Python's list(set(s)) has no fixed order; the model
   * keeps first occurrences.
   */
  function Dedupe(s: seq<string>): (r: seq<string>)
    ensures Distinct(r)
    ensures forall x :: x in r <==> x in s
    ensures |r| <= |s|
  {
    if s == [] then []
    else
      var init := Dedupe(s[..|s| - 1]);
      assert s == s[..|s| - 1] + [s[|s| - 1]];
      if s[|s| - 1] in init then init else init + [s[|s| - 1]]
  }

  /** A sequence that is already duplicate-free is left alone. */
  lemma {:induction false} DedupeOfDistinct(s: seq<string>)
    requires Distinct(s)
    ensures Dedupe(s) == s
  {
    if s != [] {
      var init := s[..|s| - 1];
      DedupeOfDistinct(init);
      assert s[|s| - 1] !in init;
      assert s == init + [s[|s| - 1]];
    }
  }

  /** SupabaseManager.get_all_orientadores: the distinct truthy advisor names of the projects. */
  function AllAdvisors(ps: seq<Project>): (r: seq<string>)
    ensures Distinct(r)
    ensures forall o :: o in r <==> o != "" && exists p :: p in ps && p.advisor == o
  {
    Dedupe(AdvisorColumn(ps))
  }

  function AdvisorColumn(ps: seq<Project>): (r: seq<string>)
    ensures forall o :: o in r <==> o != "" && exists p :: p in ps && p.advisor == o
  {
    if ps == [] then []
    else
      assert ps == [ps[0]] + ps[1..];
      (if ps[0].advisor != "" then [ps[0].advisor] else []) + AdvisorColumn(ps[1..])
  }

  /** The projects whose advisor is one of the names, in table order (`.in_('orientador', names)`). */
  function ProjectsOf(ps: seq<Project>, names: seq<string>): (r: seq<Project>)
    ensures |r| <= |ps|
    ensures forall p :: p in r <==> p in ps && p.advisor in names
  {
    if ps == [] then []
    else
      assert ps == [ps[0]] + ps[1..];
      (if ps[0].advisor in names then [ps[0]] else []) + ProjectsOf(ps[1..], names)
  }

  /** The truthy candidates already filled for a project, in table order. */
  /** Some filled slot of the project holds the candidate c. */
  predicate FilledWith(slots: seq<Slot>, pid: string, c: string) {
    exists s :: s in slots && s.projectId == pid && s.status == Preenchida && s.candidate == c
  }

  function FilledCandidates(slots: seq<Slot>, pid: string): (r: seq<string>)
    ensures forall c :: c in r <==> c != "" && FilledWith(slots, pid, c)
  {
    FilledColumnMembers(slots, pid);
    FilledColumn(slots, pid)
  }

  /** The candidate column of the project's filled slots with a truthy name, in table order. */
  function FilledColumn(slots: seq<Slot>, pid: string): seq<string> {
    if slots == [] then []
    else
      var s := slots[0];
      (if s.projectId == pid && s.status == Preenchida && s.candidate != "" then [s.candidate] else [])
        + FilledColumn(slots[1..], pid)
  }

  lemma {:induction false} FilledColumnMembers(slots: seq<Slot>, pid: string)
    ensures forall c :: c in FilledColumn(slots, pid) <==> c != "" && FilledWith(slots, pid, c)
  {
    if slots != [] {
      FilledColumnMembers(slots[1..], pid);
      assert forall x :: x in slots <==> x == slots[0] || x in slots[1..];
    }
  }

  /** The projects keep table order: the selection distributes over concatenation. */
  lemma {:induction false} ProjectsOfOrder(a: seq<Project>, b: seq<Project>, p: Project, names: seq<string>)
    ensures ProjectsOf(a + b, names) == ProjectsOf(a, names) + ProjectsOf(b, names)
    ensures ProjectsOf([p], names) == if p.advisor in names then [p] else []
  {
    assert [p][1..] == [];
    if a == [] {
      assert a + b == b;
    } else {
      assert (a + b)[0] == a[0];
      assert (a + b)[1..] == a[1..] + b;
      var h := if a[0].advisor in names then [a[0]] else [];
      assert ProjectsOf(a + b, names) == h + ProjectsOf(a[1..] + b, names);
      assert ProjectsOf(a, names) == h + ProjectsOf(a[1..], names);
      ProjectsOfOrder(a[1..], b, p, names);
    }
  }

  /** The candidates keep table order and repetition: one per filled slot of the project with a truthy name. */
  lemma FilledCandidatesOrder(a: seq<Slot>, b: seq<Slot>, s: Slot, pid: string)
    ensures FilledCandidates(a + b, pid) == FilledCandidates(a, pid) + FilledCandidates(b, pid)
    ensures FilledCandidates([s], pid) == if s.projectId == pid && s.status == Preenchida && s.candidate != "" then [s.candidate] else []
  {
    FilledColumnAppend(a, b, pid);
    assert [s][1..] == [];
    assert FilledColumn([s], pid) == (if s.projectId == pid && s.status == Preenchida && s.candidate != "" then [s.candidate] else []) + FilledColumn([], pid);
  }

  lemma {:induction false} FilledColumnAppend(a: seq<Slot>, b: seq<Slot>, pid: string)
    ensures FilledColumn(a + b, pid) == FilledColumn(a, pid) + FilledColumn(b, pid)
  {
    if a == [] {
      assert a + b == b;
    } else {
      assert (a + b)[0] == a[0];
      assert (a + b)[1..] == a[1..] + b;
      FilledColumnAppend(a[1..], b, pid);
    }
  }

  /** The number of available slots. */
  function AvailableCount(slots: seq<Slot>): (n: nat)
    ensures n <= |slots|
  {
    if slots == [] then 0
    else (if slots[0].status == Disponivel then 1 else 0) + AvailableCount(slots[1..])
  }

  predicate DistinctIds(slots: seq<Slot>) {
    forall i, j :: 0 <= i < j < |slots| ==> slots[i].id != slots[j].id
  }

  /** Two slot tables that differ at most in status and candidate. */
  predicate SameShape(a: seq<Slot>, b: seq<Slot>) {
    |a| == |b| && forall i :: 0 <= i < |a| ==> a[i].id == b[i].id && a[i].projectId == b[i].projectId && a[i].perfil == b[i].perfil
  }

  /**
   * The first available slot of the project with the perfil: the select ... limit(1).
   * A missing perfil or project id matches no row.
   */
  function FirstAvailable(slots: seq<Slot>, pid: string, perfil: Option<string>): (r: Option<nat>)
    ensures r.Some? ==> r.value < |slots| && perfil.Some? && pid != "" && Fits(slots[r.value], pid, perfil.value)
    ensures r.Some? ==> forall j :: 0 <= j < r.value ==> !Fits(slots[j], pid, perfil.value)
    ensures r.None? && perfil.Some? && pid != "" ==> forall j :: 0 <= j < |slots| ==> !Fits(slots[j], pid, perfil.value)
  {
    if perfil.None? || pid == "" then None else FirstFit(slots, pid, perfil.value)
  }

  predicate Fits(s: Slot, pid: string, perfil: string) {
    s.projectId == pid && s.perfil == perfil && s.status == Disponivel
  }

  function FirstFit(slots: seq<Slot>, pid: string, perfil: string): (r: Option<nat>)
    ensures r.Some? ==> r.value < |slots| && Fits(slots[r.value], pid, perfil)
    ensures r.Some? ==> forall j :: 0 <= j < r.value ==> !Fits(slots[j], pid, perfil)
    ensures r.None? ==> forall j :: 0 <= j < |slots| ==> !Fits(slots[j], pid, perfil)
  {
    if slots == [] then None
    else if Fits(slots[0], pid, perfil) then Some(0)
    else
      match FirstFit(slots[1..], pid, perfil)
      case None => None
      case Some(i) => Some(i + 1)
  }

  /** update({'status': 'preenchida', 'candidato_aprovado': cand}).eq('id', id) */
  function FillSlot(slots: seq<Slot>, id: string, cand: string): (r: seq<Slot>)
    ensures SameShape(slots, r)
    ensures forall i :: 0 <= i < |slots| && slots[i].id == id ==> r[i].status == Preenchida && r[i].candidate == cand
    ensures forall i :: 0 <= i < |slots| && slots[i].id != id ==> r[i] == slots[i]
  {
    if slots == [] then []
    else
      var s := slots[0];
      [if s.id == id then s.(status := Preenchida, candidate := cand) else s] + FillSlot(slots[1..], id, cand)
  }

  /** Filling one available slot by a unique id removes exactly one available slot. */
  lemma {:induction false} FillOneAvailable(slots: seq<Slot>, i: nat, cand: string)
    requires DistinctIds(slots) && i < |slots| && slots[i].status == Disponivel
    ensures AvailableCount(FillSlot(slots, slots[i].id, cand)) + 1 == AvailableCount(slots)
  {
    var id := slots[i].id;
    var h, t := slots[0], slots[1..];
    var h' := if h.id == id then h.(status := Preenchida, candidate := cand) else h;
    assert FillSlot(slots, id, cand) == [h'] + FillSlot(t, id, cand);
    AvailableCons(h', FillSlot(t, id, cand));
    TailIds(slots);
    if i == 0 {
      FillNoneOfTheRest(t, id, cand);
    } else {
      assert t[i - 1] == slots[i];
      FillOneAvailable(t, i - 1, cand);
    }
  }

  /** The tail of a table with unique ids has unique ids, none of them the head's. */
  lemma TailIds(slots: seq<Slot>)
    requires DistinctIds(slots) && slots != []
    ensures DistinctIds(slots[1..])
    ensures forall j :: 0 <= j < |slots| - 1 ==> slots[1..][j].id != slots[0].id
  {
    var t := slots[1..];
    forall a, b | 0 <= a < b < |t| ensures t[a].id != t[b].id {
      assert t[a] == slots[a + 1] && t[b] == slots[b + 1];
    }
    forall j | 0 <= j < |t| ensures t[j].id != slots[0].id {
      assert t[j] == slots[j + 1];
    }
  }

  lemma AvailableCons(h: Slot, t: seq<Slot>)
    ensures AvailableCount([h] + t) == (if h.status == Disponivel then 1 else 0) + AvailableCount(t)
  {
    assert ([h] + t)[1..] == t;
  }

  lemma {:induction false} FillNoneOfTheRest(slots: seq<Slot>, id: string, cand: string)
    requires forall j :: 0 <= j < |slots| ==> slots[j].id != id
    ensures FillSlot(slots, id, cand) == slots
  {
    if slots != [] {
      FillNoneOfTheRest(slots[1..], id, cand);
    }
  }

  /** Filling an available slot by a unique id leaves every other slot as it was. */
  lemma FillKeepsTheRest(slots: seq<Slot>, i: nat, cand: string)
    requires DistinctIds(slots) && i < |slots| && slots[i].status == Disponivel
    ensures forall j :: 0 <= j < |slots| && j != i ==> FillSlot(slots, slots[i].id, cand)[j] == slots[j]
  {
  }

  /** Tables of the same shape have the same ids. */
  lemma SameShapeKeepsIds(a: seq<Slot>, b: seq<Slot>)
    requires SameShape(a, b) && DistinctIds(a)
    ensures DistinctIds(b)
  {
    forall i, j | 0 <= i < j < |b| ensures b[i].id != b[j].id {
      assert a[i].id == b[i].id && a[j].id == b[j].id;
    }
  }
}
