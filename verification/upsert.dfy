/**
 * SupabaseManager.upsert_edital (backend/database.py): the payload sent to the
 * transactional RPC when an edital is saved. The parsed projects are matched against
 * the projects already stored for the same link, so that re-saving an edital updates
 * projects instead of duplicating them.
 */
module Upsert {
  import opened Values
  import opened Wrappers
  import opened Keys
  import opened Similarity
  import opened Store
  import opened Lookup

  /** get_close_matches(..., n=1, cutoff=0.85) decides whether a parsed project is already stored. */
  const ProjectCutoff: real := 0.85

  /** A row of `editais`: id and link. */
  datatype EditalRow = EditalRow(id: string, link: string)

  /** A row of `projetos` as the upsert reads it: id, edital_id and nome_projeto. */
  datatype StoredProject = StoredProject(id: string, editalId: string, name: string)

  /** One entry of detalhe_bolsas from the parser; vagas is None when the key is absent. */
  datatype ParsedBolsa = ParsedBolsa(tipo: Json, valor: Json, vagas: Option<Json>, perfil: Json, requisitos: Json)

  datatype ParsedProject = ParsedProject(name: Json, advisor: Json, centro: Json, resumo: Json, bolsas: seq<ParsedBolsa>)

  datatype ParsedEdital = ParsedEdital(titulo: Json, fim: Json, publicacao: Json, projetos: seq<ParsedProject>)

  datatype BolsaPayload = BolsaPayload(tipo: Json, remuneracao: Json, vagas: Json, perfil: Option<string>, requisito: Json)

  /** A project of the payload; id None asks the RPC to create the project. */
  datatype ProjectPayload = ProjectPayload(id: Option<string>, name: string, advisor: string, centro: Json, resumo: Json, bolsas: seq<BolsaPayload>)

  datatype EditalPayload = EditalPayload(titulo: Json, link: string, fim: Json, publicacao: Json, projetos: seq<ProjectPayload>)

  /** The id of the first edital stored under the link, if any. */
  function FindEdital(editais: seq<EditalRow>, url: string): (r: Option<string>)
    ensures r.Some? ==> exists i :: 0 <= i < |editais| && editais[i].link == url && editais[i].id == r.value
                          && forall j :: 0 <= j < i ==> editais[j].link != url
    ensures r.None? <==> forall i :: 0 <= i < |editais| ==> editais[i].link != url
  {
    if editais == [] then None
    else if editais[0].link == url then Some(editais[0].id)
    else
      var r := FindEdital(editais[1..], url);
      assert forall j :: 1 <= j < |editais| ==> editais[j] == editais[1..][j - 1];
      r
  }

  /** The stored projects of the edital, in table order; none when there is no (truthy) edital id. */
  function ExistingProjects(projects: seq<StoredProject>, eid: Option<string>): (r: seq<StoredProject>)
    ensures eid.None? || eid == Some("") ==> r == []
    ensures forall p :: p in r <==> eid.Some? && eid.value != "" && p in projects && p.editalId == eid.value
  {
    if eid.None? || eid.value == "" || projects == [] then []
    else
      assert projects == [projects[0]] + projects[1..];
      (if projects[0].editalId == eid.value then [projects[0]] else []) + ExistingProjects(projects[1..], eid)
  }

  /*
   * The functions below take the project match key as a parameter `key`;
   * UpsertEdital instantiates it with ProjectKeyOf (_get_project_match_key).
   */

  /** The match key of each stored project, in order. */
  function StoredKeys(key: string -> string, ps: seq<StoredProject>): (r: seq<string>)
    ensures |r| == |ps| && forall j :: 0 <= j < |ps| ==> r[j] == key(ps[j].name)
  {
    if ps == [] then [] else [key(ps[0].name)] + StoredKeys(key, ps[1..])
  }

  /** The key of a parsed title: a title that is not a string has the empty key. */
  function TitleKey(key: string -> string, v: Json): string {
    if v.JStr? then key(v.s) else ""
  }

  /** The id the fuzzy match gives a parsed project whose match key is q. */
  function MatchedId(ratio: (string, string) -> real, key: string -> string, ps: seq<StoredProject>, q: string): (r: Option<string>)
    ensures r.Some? ==> exists i :: 0 <= i < |ps| && Chosen(ratio, StoredKeys(key, ps), q, ProjectCutoff, i) && ps[i].id == r.value
    ensures r.None? ==> forall j :: 0 <= j < |ps| ==> ratio(StoredKeys(key, ps)[j], q) < ProjectCutoff
  {
    var col := StoredKeys(key, ps);
    var b := BestLast(ratio, col, q, ProjectCutoff);
    if b.None? then None
    else
      assert Chosen(ratio, col, q, ProjectCutoff, b.value);
      assert ratio(col[b.value], q) >= ProjectCutoff;
      Some(ps[b.value].id)
  }

  /** A parsed project whose key is the key of a stored project is always matched. */
  lemma StoredKeyIsMatched(ratio: (string, string) -> real, key: string -> string, ps: seq<StoredProject>, q: string)
    requires ValidRatio(ratio)
    requires q in StoredKeys(key, ps)
    ensures MatchedId(ratio, key, ps, q).Some?
  {
    KnownKeyIsFound(ratio, StoredKeys(key, ps), q, ProjectCutoff);
  }

  /** bolsa.get('vagas', 1), and the perfil normalised to two digits. */
  function NormalizeBolsa(b: ParsedBolsa): (r: BolsaPayload)
    ensures r.vagas == (if b.vagas.None? then JInt(1) else b.vagas.value)
    ensures r.perfil == NormalizePerfil(b.perfil)
    ensures r.tipo == b.tipo && r.remuneracao == b.valor && r.requisito == b.requisitos
  {
    BolsaPayload(b.tipo, b.valor, if b.vagas.None? then JInt(1) else b.vagas.value, NormalizePerfil(b.perfil), b.requisitos)
  }

  function NormalizeBolsas(bs: seq<ParsedBolsa>): (r: seq<BolsaPayload>)
    ensures |r| == |bs| && forall j :: 0 <= j < |bs| ==> r[j] == NormalizeBolsa(bs[j])
  {
    if bs == [] then [] else [NormalizeBolsa(bs[0])] + NormalizeBolsas(bs[1..])
  }

  /** The payload entry of one parsed project. */
  function BuildProject(ratio: (string, string) -> real, key: string -> string, existing: seq<StoredProject>, p: ParsedProject): (r: ProjectPayload)
    ensures r.id == MatchedId(ratio, key, existing, TitleKey(key, p.name))
    ensures r.name == NormalizeForDb(p.name) && r.advisor == NormalizeForDb(p.advisor)
    ensures r.centro == p.centro && r.resumo == p.resumo
    ensures r.bolsas == NormalizeBolsas(p.bolsas)
  {
    ProjectPayload(MatchedId(ratio, key, existing, TitleKey(key, p.name)), NormalizeForDb(p.name), NormalizeForDb(p.advisor),
                   p.centro, p.resumo, NormalizeBolsas(p.bolsas))
  }

  function BuildProjects(ratio: (string, string) -> real, key: string -> string, existing: seq<StoredProject>, ps: seq<ParsedProject>): (r: seq<ProjectPayload>)
    ensures |r| == |ps| && forall j :: 0 <= j < |ps| ==> r[j] == BuildProject(ratio, key, existing, ps[j])
  {
    if ps == [] then [] else [BuildProject(ratio, key, existing, ps[0])] + BuildProjects(ratio, key, existing, ps[1..])
  }

  /** The payload handed to handle_edital_upsert. */
  function BuildPayload(ratio: (string, string) -> real, key: string -> string, e: ParsedEdital, url: string,
                        editais: seq<EditalRow>, projects: seq<StoredProject>): (r: EditalPayload)
    ensures r.link == url && r.titulo == e.titulo && r.fim == e.fim && r.publicacao == e.publicacao
    ensures |r.projetos| == |e.projetos|
  {
    var existing := ExistingProjects(projects, FindEdital(editais, url));
    EditalPayload(e.titulo, url, e.fim, e.publicacao, BuildProjects(ratio, key, existing, e.projetos))
  }

  /**
   * upsert_edital: None without a client; otherwise the id the RPC answers with, or None
   * when it answers with nothing (the raised exception is caught and reported).
   */
  function UpsertEdital(hasClient: bool, rpc: EditalPayload -> string, ratio: (string, string) -> real,
                        e: ParsedEdital, url: string, editais: seq<EditalRow>, projects: seq<StoredProject>): (r: Option<string>)
    ensures !hasClient ==> r.None?
    ensures hasClient ==> (r.Some? <==> rpc(BuildPayload(ratio, ProjectKeyOf, e, url, editais, projects)) != "")
    ensures r.Some? ==> r.value == rpc(BuildPayload(ratio, ProjectKeyOf, e, url, editais, projects))
  {
    if !hasClient then None
    else
      var id := rpc(BuildPayload(ratio, ProjectKeyOf, e, url, editais, projects));
      if id != "" then Some(id) else None
  }

  /** Every payload project carries the parsed project's names and bolsas, normalised for the store. */
  lemma PayloadFields(ratio: (string, string) -> real, key: string -> string, e: ParsedEdital, url: string,
                      editais: seq<EditalRow>, projects: seq<StoredProject>, j: nat)
    requires j < |e.projetos|
    ensures var r := BuildPayload(ratio, key, e, url, editais, projects).projetos[j];
      var p := e.projetos[j];
      && r.name == NormalizeForDb(p.name) && r.advisor == NormalizeForDb(p.advisor)
      && |r.bolsas| == |p.bolsas|
      && (forall b :: 0 <= b < |p.bolsas| ==>
            r.bolsas[b].perfil == NormalizePerfil(p.bolsas[b].perfil)
            && (p.bolsas[b].vagas.None? ==> r.bolsas[b].vagas == JInt(1)))
  {
    var existing := ExistingProjects(projects, FindEdital(editais, url));
    var ps := BuildProjects(ratio, key, existing, e.projetos);
    assert ps[j] == BuildProject(ratio, key, existing, e.projetos[j]);
  }

  /**
   * A payload id is either None or the id of a project stored for the same link whose
   * key reaches the cutoff against the parsed title's key.
   */
  lemma PayloadIdIsStored(ratio: (string, string) -> real, key: string -> string, e: ParsedEdital, url: string,
                          editais: seq<EditalRow>, projects: seq<StoredProject>, j: nat)
    requires j < |e.projetos|
    ensures var r := BuildPayload(ratio, key, e, url, editais, projects).projetos[j];
      var eid := FindEdital(editais, url);
      r.id.Some? ==> eid.Some? && exists s :: (s in projects && s.editalId == eid.value && s.id == r.id.value
                       && ratio(key(s.name), TitleKey(key, e.projetos[j].name)) >= ProjectCutoff)
  {
    var existing := ExistingProjects(projects, FindEdital(editais, url));
    var ps := BuildProjects(ratio, key, existing, e.projetos);
    assert ps[j] == BuildProject(ratio, key, existing, e.projetos[j]);
    var q := TitleKey(key, e.projetos[j].name);
    var id := MatchedId(ratio, key, existing, q);
    if id.Some? {
      var i :| 0 <= i < |existing| && Chosen(ratio, StoredKeys(key, existing), q, ProjectCutoff, i) && existing[i].id == id.value;
      assert existing[i] in existing;
    }
  }

  /** A link with no stored edital sends every project as new. */
  lemma NewEditalHasNoIds(ratio: (string, string) -> real, key: string -> string, e: ParsedEdital, url: string,
                          editais: seq<EditalRow>, projects: seq<StoredProject>)
    requires forall i :: 0 <= i < |editais| ==> editais[i].link != url
    ensures forall j :: 0 <= j < |e.projetos| ==> BuildPayload(ratio, key, e, url, editais, projects).projetos[j].id.None?
  {
    assert ExistingProjects(projects, FindEdital(editais, url)) == [];
  }

  /**
   * The id depends on the parsed title's key alone, so two parsed projects whose titles
   * share a key are sent with the same id, possibly the same existing one.
   */
  lemma SameKeySameId(ratio: (string, string) -> real, key: string -> string, e: ParsedEdital, url: string,
                      editais: seq<EditalRow>, projects: seq<StoredProject>, a: nat, b: nat)
    requires a < |e.projetos| && b < |e.projetos|
    requires TitleKey(key, e.projetos[a].name) == TitleKey(key, e.projetos[b].name)
    ensures BuildPayload(ratio, key, e, url, editais, projects).projetos[a].id
         == BuildPayload(ratio, key, e, url, editais, projects).projetos[b].id
  {
  }

  /**
   * Saving an edital again under the same link matches every project whose title key is
   * the key of one of the projects stored for that link.
   */
  lemma ResaveMatchesStored(ratio: (string, string) -> real, key: string -> string, e: ParsedEdital, url: string,
                            editais: seq<EditalRow>, projects: seq<StoredProject>, j: nat, s: StoredProject)
    requires ValidRatio(ratio)
    requires j < |e.projetos|
    requires FindEdital(editais, url) == Some(s.editalId) && s.editalId != ""
    requires s in projects && key(s.name) == TitleKey(key, e.projetos[j].name)
    ensures BuildPayload(ratio, key, e, url, editais, projects).projetos[j].id.Some?
  {
    var existing := ExistingProjects(projects, FindEdital(editais, url));
    assert s in existing;
    var i :| 0 <= i < |existing| && existing[i] == s;
    assert StoredKeys(key, existing)[i] == TitleKey(key, e.projetos[j].name);
    StoredKeyIsMatched(ratio, key, existing, TitleKey(key, e.projetos[j].name));
  }
}
