/**
 * The deterministic parts of UenfParser (backend/parser.py): stage and modality
 * classification, the splitting of an edital's text into project blocks, the mapping
 * and filtering of the rows of a result table, and the choice of stage in
 * parse_noticia. The PDF text and the table the language model returns are inputs.
 */
module Parser {
  import opened Wrappers
  import opened Chars
  import opened Text
  import opened Values
  import opened Keys
  import opened Store
  import opened Lookup
  import opened Upsert

  // ---------------------------------------------------------------------------
  // Classification

  datatype Etapa = Resultado | Entrevista | Homologacao | Inscricao

  const ResultTitleWords: seq<string> := ["resultado", "convocação", "convocacao"]
  const ResultTextPhrases: seq<string> := ["homologação do resultado", "resultado final"]

  /**
   * _classify_etapa: a result title or a result text wins, then an interview title,
   * then a homologation title; anything else is an inscription.
   */
  function ClassifyEtapa(titulo: string, texto: string): (r: Etapa)
    ensures r == Resultado <==> ContainsAny(LowerStr(titulo), ResultTitleWords) || ContainsAny(LowerStr(texto), ResultTextPhrases)
    ensures r == Entrevista <==> r != Resultado && Contains(LowerStr(titulo), "entrevista")
    ensures r == Homologacao <==> r != Resultado && !Contains(LowerStr(titulo), "entrevista") && Contains(LowerStr(titulo), "homologadas")
  {
    var t := LowerStr(titulo);
    var x := LowerStr(texto);
    if Contains(t, "resultado") || Contains(t, "convocação") || Contains(t, "convocacao") then
      assert Contains(t, ResultTitleWords[0]) || Contains(t, ResultTitleWords[1]) || Contains(t, ResultTitleWords[2]);
      Resultado
    else if Contains(x, "homologação do resultado") || Contains(x, "resultado final") then
      assert Contains(x, ResultTextPhrases[0]) || Contains(x, ResultTextPhrases[1]);
      Resultado
    else if Contains(t, "entrevista") then Entrevista
    else if Contains(t, "homologadas") then Homologacao
    else Inscricao
  }

  /** The stage does not depend on the case of the title or the text. */
  lemma EtapaIgnoresCase(titulo: string, texto: string)
    ensures ClassifyEtapa(LowerStr(titulo), LowerStr(texto)) == ClassifyEtapa(titulo, texto)
  {
    LowerStrIdempotent(titulo);
    LowerStrIdempotent(texto);
  }

  datatype Modalidade = ApoioAcademico | Extensao

  const ApoioWords: seq<string> := ["proac", "apoio acadêmico", "apoio academico"]

  /**
   * _classify_modalidade: ProAC or "apoio acadêmico" (with or without the accent) makes
   * an apoio_academico edital; every other title, PROEX or not, is extensao.
   */
  function ClassifyModalidade(titulo: string): (r: Modalidade)
    ensures r == ApoioAcademico <==> ContainsAny(LowerStr(titulo), ApoioWords)
  {
    var t := LowerStr(titulo);
    if Contains(t, "proac") || Contains(t, "apoio acadêmico") || Contains(t, "apoio academico") then
      assert Contains(t, ApoioWords[0]) || Contains(t, ApoioWords[1]) || Contains(t, ApoioWords[2]);
      ApoioAcademico
    else Extensao
  }

  /** The modality does not depend on the case of the title. */
  lemma ModalidadeIgnoresCase(titulo: string)
    ensures ClassifyModalidade(LowerStr(titulo)) == ClassifyModalidade(titulo)
  {
    LowerStrIdempotent(titulo);
  }

  // ---------------------------------------------------------------------------
  // Block markers: re.finditer(r'PROGRAMA:|DADOS\s+DO(S)?\s+PROJETO(S)?', text, re.IGNORECASE)

  /** The lower-case literal lit occurs at i, ignoring case. */
  predicate LitAt(text: string, i: nat, lit: string) {
    i + |lit| <= |text| && forall k :: 0 <= k < |lit| ==> Lower(text[i + k]) == lit[k]
  }

  /** The length of the run of whitespace starting at i (greedy `\s+` when positive). */
  function SpacesFrom(text: string, i: nat): (n: nat)
    requires i <= |text|
    ensures i + n <= |text|
    ensures forall k :: i <= k < i + n ==> IsSpace(text[k])
    ensures i + n == |text| || !IsSpace(text[i + n])
    decreases |text| - i
  {
    if i == |text| || !IsSpace(text[i]) then 0 else 1 + SpacesFrom(text, i + 1)
  }

  /** The optional `(S)?`: one character when an s (either case) is at j. */
  function OptS(text: string, j: nat): (n: nat)
    ensures n <= 1
    ensures n == 1 <==> j < |text| && Lower(text[j]) == 's'
  {
    if j < |text| && Lower(text[j]) == 's' then 1 else 0
  }

  /**
   * The end of a match of the DADOS alternative at i. Neither `\s+` nor `(S)?` can give
   * back a character and still let the match go on, so the greedy choice is the match.
   */
  function DadosAt(text: string, i: nat): (r: Option<nat>)
    ensures r.Some? ==> i + 15 <= r.value <= |text| && LitAt(text, i, "dados")
  {
    if !LitAt(text, i, "dados") then None
    else
      var w1 := SpacesFrom(text, i + 5);
      var b := i + 5 + w1;
      if w1 == 0 || !LitAt(text, b, "do") then None
      else
        var c := b + 2 + OptS(text, b + 2);
        if c > |text| then None
        else
          var w2 := SpacesFrom(text, c);
          var d := c + w2;
          if w2 == 0 || !LitAt(text, d, "projeto") then None
          else if d + 7 + OptS(text, d + 7) > |text| then None
          else Some(d + 7 + OptS(text, d + 7))
  }

  /** One match of the pattern: where it starts and ends, and which alternative matched. */
  datatype Marker = Marker(start: nat, end: nat, programa: bool)

  /** The match at i, the first alternative tried first. */
  function MarkerAt(text: string, i: nat): (r: Option<Marker>)
    ensures r.Some? ==> r.value.start == i < r.value.end <= |text|
    ensures r.Some? ==> (r.value.programa <==> LitAt(text, i, "programa:"))
  {
    if LitAt(text, i, "programa:") then Some(Marker(i, i + 9, true))
    else
      match DadosAt(text, i)
      case None => None
      case Some(e) => Some(Marker(i, e, false))
  }

  /**
   * A matcher for a text of length n: at(p) is the match starting at p, if any. The scan
   * below is finditer over any such matcher; Markers instantiates it with MarkerAt.
   */
  ghost predicate Matcher(at: nat -> Option<Marker>, n: nat) {
    forall p: nat :: at(p).Some? ==> at(p).value.start == p < at(p).value.end <= n
  }

  /** The matcher of the block pattern over a text. */
  function MatchAt(text: string): (at: nat -> Option<Marker>)
    ensures Matcher(at, |text|)
  {
    (p: nat) => MarkerAt(text, p)
  }

  /** A sequence of matches in text order, none overlapping the next. */
  ghost predicate Sound(at: nat -> Option<Marker>, from: nat, ms: seq<Marker>) {
    && (forall k :: 0 <= k < |ms| ==> from <= ms[k].start && at(ms[k].start) == Some(ms[k]))
    && (forall k :: 0 <= k < |ms| - 1 ==> ms[k].end <= ms[k + 1].start)
  }

  /** Position p lies inside one of the matches. */
  ghost predicate Covered(ms: seq<Marker>, p: int) {
    exists k :: 0 <= k < |ms| && ms[k].start <= p < ms[k].end
  }

  /** finditer from position i: the leftmost match, then the search resumes at its end. */
  function Scan(at: nat -> Option<Marker>, n: nat, i: nat): (r: seq<Marker>)
    requires Matcher(at, n) && i <= n
    ensures forall k :: 0 <= k < |r| ==> i <= r[k].start < r[k].end <= n
    decreases n - i
  {
    if i == n then []
    else
      match at(i)
      case Some(m) => [m] + Scan(at, n, m.end)
      case None => Scan(at, n, i + 1)
  }

  /** The matches of the whole text. */
  function Markers(text: string): (r: seq<Marker>)
    ensures forall k :: 0 <= k < |r| ==> r[k].start < r[k].end <= |text|
  {
    Scan(MatchAt(text), |text|, 0)
  }

  /** The scan finds matches only, in text order, without overlap. */
  lemma {:induction false} ScanSound(at: nat -> Option<Marker>, n: nat, i: nat)
    requires Matcher(at, n) && i <= n
    ensures Sound(at, i, Scan(at, n, i))
    decreases n - i
  {
    if i < n {
      match at(i)
      case Some(m) =>
        ScanSound(at, n, m.end);
        var rest := Scan(at, n, m.end);
        var r := [m] + rest;
        assert forall k :: 0 < k < |r| ==> r[k] == rest[k - 1];
        if rest != [] {
          assert r[0].end <= r[1].start;
        }
      case None =>
        ScanSound(at, n, i + 1);
    }
  }

  /** Every position where the pattern matches is a match found or lies inside one. */
  lemma {:induction false} ScanComplete(at: nat -> Option<Marker>, n: nat, i: nat)
    requires Matcher(at, n) && i <= n
    ensures forall p :: i <= p < n && at(p).Some? ==> Covered(Scan(at, n, i), p)
    decreases n - i
  {
    if i < n {
      match at(i)
      case Some(m) =>
        ScanComplete(at, n, m.end);
        var rest := Scan(at, n, m.end);
        var r := [m] + rest;
        forall p | i <= p < n && at(p).Some? ensures Covered(r, p) {
          if p < m.end {
            assert r[0].start <= p < r[0].end;
          } else {
            var k :| 0 <= k < |rest| && rest[k].start <= p < rest[k].end;
            assert r[k + 1] == rest[k];
          }
        }
      case None =>
        ScanComplete(at, n, i + 1);
    }
  }

  /**
   * The markers of a text are exactly finditer's matches: each is a match of the pattern,
   * they do not overlap, and every position where the pattern matches is one of them or
   * lies inside one.
   */
  lemma MarkersSpec(text: string)
    ensures Sound(MatchAt(text), 0, Markers(text))
    ensures forall p :: 0 <= p < |text| && MarkerAt(text, p).Some? ==> Covered(Markers(text), p)
  {
    ScanSound(MatchAt(text), |text|, 0);
    ScanComplete(MatchAt(text), |text|, 0);
  }

  /** Matches in text order have strictly increasing starts. */
  lemma SoundIncreasing(at: nat -> Option<Marker>, n: nat, from: nat, ms: seq<Marker>)
    requires Matcher(at, n) && Sound(at, from, ms)
    ensures forall a, b :: 0 <= a < b < |ms| ==> ms[a].start < ms[b].start
  {
    forall a, b | 0 <= a < b < |ms| ensures ms[a].start < ms[b].start {
      StartsIncrease(at, n, from, ms, a, b);
    }
  }

  lemma {:induction false} StartsIncrease(at: nat -> Option<Marker>, n: nat, from: nat, ms: seq<Marker>, a: nat, b: nat)
    requires Matcher(at, n) && Sound(at, from, ms)
    requires a < b < |ms|
    ensures ms[a].start < ms[b].start
    decreases b - a
  {
    assert at(ms[a].start) == Some(ms[a]);
    if b > a + 1 {
      StartsIncrease(at, n, from, ms, a + 1, b);
    }
  }

  // ---------------------------------------------------------------------------
  // Blocks

  /**
   * A marker is passed over when the previous match is PROGRAMA:, this one is a DADOS
   * match, and it starts fewer than 400 characters after the previous one.
   */
  predicate Suppressed(ms: seq<Marker>, k: nat)
    requires 0 < k < |ms|
  {
    ms[k - 1].programa && !ms[k].programa && ms[k].start - ms[k - 1].start < 400
  }

  /** The starts of the markers from k on that are not passed over. */
  function KeptFrom(ms: seq<Marker>, k: nat): (r: seq<nat>)
    requires 0 < k <= |ms|
    ensures forall x :: x in r <==> exists j :: k <= j < |ms| && !Suppressed(ms, j) && ms[j].start == x
    decreases |ms| - k
  {
    if k == |ms| then []
    else
      var rest := KeptFrom(ms, k + 1);
      if Suppressed(ms, k) then rest else [ms[k].start] + rest
  }

  predicate Increasing(s: seq<nat>) {
    forall a, b :: 0 <= a < b < |s| ==> s[a] < s[b]
  }

  /** KeptFrom lists the starts it keeps in marker order. */
  lemma {:induction false} KeptFromOrder(ms: seq<Marker>, k: nat)
    requires 0 < k <= |ms|
    requires forall a, b :: 0 <= a < b < |ms| ==> ms[a].start < ms[b].start
    ensures Increasing(KeptFrom(ms, k))
    decreases |ms| - k
  {
    if k < |ms| {
      KeptFromOrder(ms, k + 1);
      var rest := KeptFrom(ms, k + 1);
      var r := KeptFrom(ms, k);
      if !Suppressed(ms, k) {
        assert r == [ms[k].start] + rest;
        forall a, b | 0 <= a < b < |r| ensures r[a] < r[b] {
          assert r[b] == rest[b - 1];
          if a > 0 {
            assert r[a] == rest[a - 1];
          } else {
            assert rest[b - 1] in rest;
            var j :| k + 1 <= j < |ms| && !Suppressed(ms, j) && ms[j].start == rest[b - 1];
            assert ms[k].start < ms[j].start;
          }
        }
      }
    }
  }

  /** split_indices: the first marker always starts a block. */
  function SplitIndices(ms: seq<Marker>): (r: seq<nat>)
    ensures r == [] <==> ms == []
    ensures r != [] ==> r[0] == ms[0].start
    ensures forall x :: x in r <==> (ms != [] && x == ms[0].start) || exists j :: 0 < j < |ms| && !Suppressed(ms, j) && ms[j].start == x
  {
    if ms == [] then [] else [ms[0].start] + KeptFrom(ms, 1)
  }

  /** Positions in increasing order, all within the text. */
  predicate Cuts(idx: seq<nat>, n: nat) {
    Increasing(idx) && forall a :: 0 <= a < |idx| ==> idx[a] <= n
  }

  /** The split indices of the markers of a text are cuts of the text. */
  lemma SplitIndicesAreCuts(text: string)
    ensures Cuts(SplitIndices(Markers(text)), |text|)
  {
    var ms := Markers(text);
    ScanSound(MatchAt(text), |text|, 0);
    SoundIncreasing(MatchAt(text), |text|, 0, ms);
    SplitIndicesOrdered(ms, |text|);
  }

  /** Markers in increasing order within n give increasing split indices within n. */
  lemma SplitIndicesOrdered(ms: seq<Marker>, n: nat)
    requires forall a, b :: 0 <= a < b < |ms| ==> ms[a].start < ms[b].start
    requires forall k :: 0 <= k < |ms| ==> ms[k].start <= n
    ensures Cuts(SplitIndices(ms), n)
  {
    if ms != [] {
      KeptFromOrder(ms, 1);
      var r := SplitIndices(ms);
      var rest := KeptFrom(ms, 1);
      assert r == [ms[0].start] + rest;
      forall a, b | 0 <= a < b < |r| ensures r[a] < r[b] {
        assert r[b] == rest[b - 1];
        if a > 0 {
          assert r[a] == rest[a - 1];
        } else {
          assert rest[b - 1] in rest;
          var j :| 1 <= j < |ms| && !Suppressed(ms, j) && ms[j].start == rest[b - 1];
          assert ms[0].start < ms[j].start;
        }
      }
      forall a | 0 <= a < |r| ensures r[a] <= n {
        assert r[a] in r;
      }
    }
  }

  /** The end of block k: the next cut, or the end of the text. */
  function BlockEnd(idx: seq<nat>, k: nat, n: nat): nat
    requires k < |idx|
  {
    if k + 1 < |idx| then idx[k + 1] else n
  }

  /** blocos_de_texto: text[start:end] for each cut. */
  function Blocks(text: string, idx: seq<nat>): (r: seq<string>)
    requires Cuts(idx, |text|)
    ensures |r| == |idx|
  {
    if idx == [] then []
    else
      CutsTail(idx, |text|);
      [text[idx[0]..BlockEnd(idx, 0, |text|)]] + Blocks(text, idx[1..])
  }

  lemma CutsTail(idx: seq<nat>, n: nat)
    requires Cuts(idx, n) && idx != []
    ensures Cuts(idx[1..], n)
  {
    var tail := idx[1..];
    forall a, b | 0 <= a < b < |tail| ensures tail[a] < tail[b] {
      assert tail[a] == idx[a + 1] && tail[b] == idx[b + 1];
    }
  }

  /** Block k is the text from cut k up to the next cut, or to the end after the last one. */
  lemma {:induction false} BlocksAt(text: string, idx: seq<nat>, k: nat)
    requires Cuts(idx, |text|) && k < |idx|
    ensures Blocks(text, idx)[k] == text[idx[k]..BlockEnd(idx, k, |text|)]
  {
    if k > 0 {
      CutsTail(idx, |text|);
      BlocksAt(text, idx[1..], k - 1);
      assert BlockEnd(idx, k, |text|) == BlockEnd(idx[1..], k - 1, |text|);
    }
  }

  /** The blocks follow each other without gap or overlap and run from the first cut to the end. */
  lemma {:induction false} BlocksCover(text: string, idx: seq<nat>)
    requires Cuts(idx, |text|) && idx != []
    ensures Concat(Blocks(text, idx)) == text[idx[0]..]
  {
    var tail := idx[1..];
    CutsTail(idx, |text|);
    var head := text[idx[0]..BlockEnd(idx, 0, |text|)];
    var rest := Blocks(text, tail);
    assert Blocks(text, idx) == [head] + rest;
    ConcatCons(head, rest);
    if tail != [] {
      BlocksCover(text, tail);
      assert text[idx[0]..] == text[idx[0]..idx[1]] + text[idx[1]..];
    }
  }

  lemma ConcatCons(w: string, ws: seq<string>)
    ensures Concat([w] + ws) == w + Concat(ws)
  {
    assert ([w] + ws)[1..] == ws;
  }

  /**
   * The project blocks of an edital's text: None for a text shorter than 100 characters
   * or one without markers.
   */
  function SplitBlocks(text: string): (r: Option<seq<string>>)
    ensures r.None? <==> |text| < 100 || Markers(text) == []
    ensures r.Some? ==> |r.value| == |SplitIndices(Markers(text))|
  {
    if |text| < 100 then None
    else
      var ms := Markers(text);
      if ms == [] then None
      else
        SplitIndicesAreCuts(text);
        Some(Blocks(text, SplitIndices(ms)))
  }

  /**
   * The blocks start at the first marker, each starts at a split index, which is where a
   * pattern match starts, and together they are exactly the text from the first marker on.
   */
  lemma SplitBlocksSpec(text: string)
    requires SplitBlocks(text).Some?
    ensures var ms := Markers(text);
      var idx := SplitIndices(ms);
      var bs := SplitBlocks(text).value;
      && Concat(bs) == text[ms[0].start..]
      && forall k :: 0 <= k < |bs| ==> (
        && idx[k] <= |text| && StartsWith(text[idx[k]..], bs[k])
        && exists j :: 0 <= j < |ms| && ms[j].start == idx[k])
  {
    var ms := Markers(text);
    var idx := SplitIndices(ms);
    SplitIndicesAreCuts(text);
    BlocksCover(text, idx);
    forall k | 0 <= k < |idx| ensures exists j :: 0 <= j < |ms| && ms[j].start == idx[k] {
      assert idx[k] in idx;
    }
    BlocksArePrefixes(text, idx);
  }

  /** Each block is a prefix of the text from its cut. */
  lemma BlocksArePrefixes(text: string, idx: seq<nat>)
    requires Cuts(idx, |text|)
    ensures forall k :: 0 <= k < |idx| ==> StartsWith(text[idx[k]..], Blocks(text, idx)[k])
  {
    var bs := Blocks(text, idx);
    forall k | 0 <= k < |idx| ensures StartsWith(text[idx[k]..], bs[k]) {
      BlocksAt(text, idx, k);
      assert text[idx[k]..][..|bs[k]|] == bs[k];
    }
  }

  // ---------------------------------------------------------------------------
  // Result tables

  const OrientadorAliases: seq<string> := ["COORDENADOR", "ORIENTADOR"]
  const CandidatoAliases: seq<string> := ["CANDIDATO", "DISCENTE", "BOLSISTA", "NOME"]
  const PerfilAliases: seq<string> := ["PERFIL", "Nº PERFIL"]
  const ColocacaoAliases: seq<string> := ["COLOCAÇÃO", "CLASSIFICAÇÃO"]
  const ProjetoAliases: seq<string> := ["PROJETO"]

  /** headers.index(x): the first position of x. */
  function IndexOf(headers: seq<string>, x: string): (r: nat)
    requires x in headers
    ensures r < |headers| && headers[r] == x && forall j :: 0 <= j < r ==> headers[j] != x
  {
    if headers[0] == x then 0 else 1 + IndexOf(headers[1..], x)
  }

  /** get_col_index: the position of the first alias present in the headers, or -1. */
  function ColIndex(headers: seq<string>, aliases: seq<string>): (r: int)
    ensures r == -1 <==> forall a :: 0 <= a < |aliases| ==> aliases[a] !in headers
    ensures r != -1 ==> 0 <= r < |headers| && exists a :: (0 <= a < |aliases| && headers[r] == aliases[a]
              && (forall b :: 0 <= b < a ==> aliases[b] !in headers)
              && (forall j :: 0 <= j < r ==> headers[j] != aliases[a]))
  {
    if aliases == [] then -1
    else if aliases[0] in headers then IndexOf(headers, aliases[0])
    else
      var r := ColIndex(headers, aliases[1..]);
      assert forall a :: 1 <= a < |aliases| ==> aliases[a] == aliases[1..][a - 1];
      r
  }

  /** The five columns a result page needs. */
  datatype Columns = Columns(orientador: nat, candidato: nat, perfil: nat, colocacao: nat, projeto: nat)

  /** A page missing any of the five columns is skipped. */
  function MapColumns(headers: seq<string>): (r: Option<Columns>)
    ensures r.None? ==> (ColIndex(headers, OrientadorAliases) == -1 || ColIndex(headers, CandidatoAliases) == -1
                     || ColIndex(headers, PerfilAliases) == -1 || ColIndex(headers, ColocacaoAliases) == -1
                     || ColIndex(headers, ProjetoAliases) == -1)
    ensures r.Some? ==> (r.value.orientador == ColIndex(headers, OrientadorAliases)
                     && r.value.candidato == ColIndex(headers, CandidatoAliases)
                     && r.value.perfil == ColIndex(headers, PerfilAliases)
                     && r.value.colocacao == ColIndex(headers, ColocacaoAliases)
                     && r.value.projeto == ColIndex(headers, ProjetoAliases))
  {
    var o := ColIndex(headers, OrientadorAliases);
    var c := ColIndex(headers, CandidatoAliases);
    var p := ColIndex(headers, PerfilAliases);
    var l := ColIndex(headers, ColocacaoAliases);
    var j := ColIndex(headers, ProjetoAliases);
    if o == -1 || c == -1 || p == -1 || l == -1 || j == -1 then None
    else Some(Columns(o, c, p, l, j))
  }

  function MaxColumn(c: Columns): nat {
    var m1 := if c.orientador > c.candidato then c.orientador else c.candidato;
    var m2 := if m1 > c.perfil then m1 else c.perfil;
    var m3 := if m2 > c.colocacao then m2 else c.colocacao;
    if m3 > c.projeto then m3 else c.projeto
  }

  /**
   * A row is kept when it has a cell for every column, its colocação does not say
   * RESERVA, and its stripped perfil is all digits.
   */
  predicate KeepRow(c: Columns, row: seq<Json>) {
    && |row| > MaxColumn(c)
    && !Contains(UpperStr(PyStr(row[c.colocacao])), "RESERVA")
    && IsDigitToken(Strip(PyStr(row[c.perfil])))
  }

  /** The match key of each known advisor, in order. */
  function KnownKeys(key: string -> string, known: seq<string>): (r: seq<string>)
    ensures |r| == |known| && forall j :: 0 <= j < |known| ==> r[j] == key(known[j])
  {
    if known == [] then [] else [key(known[0])] + KnownKeys(key, known[1..])
  }

  /** The key of a raw cell: a cell that is not a string has the empty key. */
  function CellKey(key: string -> string, v: Json): string {
    if v.JStr? then key(v.s) else ""
  }

  /** The cutoff for replacing an extracted advisor by a known one. */
  const AdvisorFixCutoff: real := 0.8

  /**
   * The advisor of a kept row: the known advisor the best close match of its key
   * designates, or the raw cell when there are no known advisors or no key reaches 0.8.
   * `key` is get_match_key of backend/utils.py.
   */
  function CorrectAdvisor(ratio: (string, string) -> real, key: string -> string, known: seq<string>, raw: Json): (r: Json)
    ensures r != raw ==> exists i :: (0 <= i < |known| && r == JStr(known[i])
              && Chosen(ratio, KnownKeys(key, known), CellKey(key, raw), AdvisorFixCutoff, i))
    ensures known == [] || (forall j :: 0 <= j < |known| ==> ratio(key(known[j]), CellKey(key, raw)) < AdvisorFixCutoff) ==> r == raw
    ensures (exists j :: 0 <= j < |known| && ratio(key(known[j]), CellKey(key, raw)) >= AdvisorFixCutoff) ==>
              exists i :: (0 <= i < |known| && r == JStr(known[i])
                && Chosen(ratio, KnownKeys(key, known), CellKey(key, raw), AdvisorFixCutoff, i))
  {
    if known == [] then raw
    else
      var col := KnownKeys(key, known);
      var b := BestLast(ratio, col, CellKey(key, raw), AdvisorFixCutoff);
      if b.None? then raw
      else
        assert ratio(col[b.value], CellKey(key, raw)) >= AdvisorFixCutoff;
        JStr(known[b.value])
  }

  /** The draft a kept row yields: exactly the four fields the matching engines read. */
  function RowDraft(ratio: (string, string) -> real, key: string -> string, known: seq<string>, c: Columns, row: seq<Json>): (d: Draft)
    requires |row| > MaxColumn(c)
    ensures d.project == row[c.projeto] && d.perfil == row[c.perfil] && d.candidate == row[c.candidato]
    ensures d.advisor == CorrectAdvisor(ratio, key, known, row[c.orientador])
  {
    Draft(CorrectAdvisor(ratio, key, known, row[c.orientador]), row[c.projeto], row[c.perfil], row[c.candidato])
  }

  /** The drafts of the kept rows, in row order. */
  function PageRows(ratio: (string, string) -> real, key: string -> string, known: seq<string>, c: Columns, rows: seq<seq<Json>>): (r: seq<Draft>)
    ensures |r| <= |rows|
    ensures (forall j :: 0 <= j < |rows| ==> KeepRow(c, rows[j])) ==> |r| == |rows|
    decreases |rows|
  {
    if rows == [] then []
    else
      var rest := PageRows(ratio, key, known, c, rows[1..]);
      assert forall j :: 1 <= j < |rows| ==> rows[j] == rows[1..][j - 1];
      if KeepRow(c, rows[0]) then [RowDraft(ratio, key, known, c, rows[0])] + rest else rest
  }

  /** Row filtering is a filter: a draft comes from a kept row, and every kept row gives one. */
  lemma PageRowsSpec(ratio: (string, string) -> real, key: string -> string, known: seq<string>, c: Columns, rows: seq<seq<Json>>)
    ensures var r := PageRows(ratio, key, known, c, rows);
      && (forall d :: d in r ==> exists j :: 0 <= j < |rows| && KeepRow(c, rows[j]) && d == RowDraft(ratio, key, known, c, rows[j]))
      && (forall j :: 0 <= j < |rows| && KeepRow(c, rows[j]) ==> RowDraft(ratio, key, known, c, rows[j]) in r)
  {
    PageRowsSound(ratio, key, known, c, rows);
    PageRowsComplete(ratio, key, known, c, rows);
  }

  lemma {:induction false} PageRowsSound(ratio: (string, string) -> real, key: string -> string, known: seq<string>, c: Columns, rows: seq<seq<Json>>)
    ensures forall d :: d in PageRows(ratio, key, known, c, rows) ==>
      exists j :: 0 <= j < |rows| && KeepRow(c, rows[j]) && d == RowDraft(ratio, key, known, c, rows[j])
    decreases |rows|
  {
    if rows != [] {
      var tail := rows[1..];
      PageRowsSound(ratio, key, known, c, tail);
      var rest := PageRows(ratio, key, known, c, tail);
      var head := if KeepRow(c, rows[0]) then [RowDraft(ratio, key, known, c, rows[0])] else [];
      var r := PageRows(ratio, key, known, c, rows);
      assert r == head + rest;
      forall d | d in r
        ensures exists j :: 0 <= j < |rows| && KeepRow(c, rows[j]) && d == RowDraft(ratio, key, known, c, rows[j])
      {
        if d in rest {
          var j :| 0 <= j < |tail| && KeepRow(c, tail[j]) && d == RowDraft(ratio, key, known, c, tail[j]);
          assert tail[j] == rows[j + 1];
        } else {
          assert d in head;
          assert KeepRow(c, rows[0]) && d == RowDraft(ratio, key, known, c, rows[0]);
        }
      }
    }
  }

  lemma {:induction false} PageRowsComplete(ratio: (string, string) -> real, key: string -> string, known: seq<string>, c: Columns, rows: seq<seq<Json>>)
    ensures forall j :: 0 <= j < |rows| && KeepRow(c, rows[j]) ==> RowDraft(ratio, key, known, c, rows[j]) in PageRows(ratio, key, known, c, rows)
    decreases |rows|
  {
    if rows != [] {
      var tail := rows[1..];
      PageRowsComplete(ratio, key, known, c, tail);
      var rest := PageRows(ratio, key, known, c, tail);
      var head := if KeepRow(c, rows[0]) then [RowDraft(ratio, key, known, c, rows[0])] else [];
      var r := PageRows(ratio, key, known, c, rows);
      assert r == head + rest;
      forall j | 0 <= j < |rows| && KeepRow(c, rows[j])
        ensures RowDraft(ratio, key, known, c, rows[j]) in r
      {
        if j > 0 {
          assert rows[j] == tail[j - 1];
        }
      }
    }
  }

  /** One page as the language model returned it. */
  datatype Page = Page(headers: seq<string>, rows: seq<seq<Json>>)

  /** The drafts of one page: nothing without headers or rows, or when a column is missing. */
  function PageDrafts(ratio: (string, string) -> real, key: string -> string, known: seq<string>, p: Page): (r: seq<Draft>)
    ensures p.headers == [] || p.rows == [] || MapColumns(UpperAll(p.headers)).None? ==> r == []
    ensures |r| <= |p.rows|
  {
    var hs := UpperAll(p.headers);
    if hs == [] || p.rows == [] then []
    else
      match MapColumns(hs)
      case None => []
      case Some(c) => PageRows(ratio, key, known, c, p.rows)
  }

  /** [h.upper() for h in headers] */
  function UpperAll(hs: seq<string>): (r: seq<string>)
    ensures |r| == |hs| && forall j :: 0 <= j < |hs| ==> r[j] == UpperStr(hs[j])
  {
    if hs == [] then [] else [UpperStr(hs[0])] + UpperAll(hs[1..])
  }

  /** _parse_resultado_com_ia: the pages' drafts, in page order. */
  function ResultDrafts(ratio: (string, string) -> real, key: string -> string, known: seq<string>, pages: seq<Page>): (r: seq<Draft>)
    ensures pages == [] ==> r == []
  {
    if pages == [] then [] else PageDrafts(ratio, key, known, pages[0]) + ResultDrafts(ratio, key, known, pages[1..])
  }

  /** Every draft of a page comes from a kept row of it, under the page's column mapping. */
  lemma PageDraftsFromRows(ratio: (string, string) -> real, key: string -> string, known: seq<string>, p: Page, d: Draft)
    requires d in PageDrafts(ratio, key, known, p)
    ensures MapColumns(UpperAll(p.headers)).Some?
    ensures var c := MapColumns(UpperAll(p.headers)).value;
      exists j :: 0 <= j < |p.rows| && KeepRow(c, p.rows[j]) && d == RowDraft(ratio, key, known, c, p.rows[j])
  {
    var hs := UpperAll(p.headers);
    var c := MapColumns(hs).value;
    assert PageDrafts(ratio, key, known, p) == PageRows(ratio, key, known, c, p.rows);
    PageRowsSpec(ratio, key, known, c, p.rows);
  }

  /** Every draft of a result PDF is a draft of one of its pages. */
  lemma {:induction false} ResultDraftsFromPages(ratio: (string, string) -> real, key: string -> string, known: seq<string>, pages: seq<Page>, d: Draft)
    requires d in ResultDrafts(ratio, key, known, pages)
    ensures exists i :: 0 <= i < |pages| && d in PageDrafts(ratio, key, known, pages[i])
  {
    if d !in PageDrafts(ratio, key, known, pages[0]) {
      ResultDraftsFromPages(ratio, key, known, pages[1..], d);
      var i :| 0 <= i < |pages[1..]| && d in PageDrafts(ratio, key, known, pages[1..][i]);
      assert pages[1..][i] == pages[i + 1];
    }
  }

  // ---------------------------------------------------------------------------
  // parse_noticia

  const ResultadoWords: seq<string> := ["resultado", "classificados"]
  const InscricaoWords: seq<string> := ["inscreve", "inscrições", "inscrição", "seletivo", "seleção"]

  /**
   * The stage parse_noticia processes a notice as: result keywords win, inscription
   * keywords count only when there are project PDFs, and anything else is dropped.
   */
  function NoticiaStage(titulo: string, pdfCount: nat): (r: Option<Etapa>)
    ensures r.Some? ==> r.value == Resultado || r.value == Inscricao
    ensures r == Some(Resultado) <==> ContainsAny(LowerStr(titulo), ResultadoWords)
    ensures r == Some(Inscricao) <==> !ContainsAny(LowerStr(titulo), ResultadoWords) && ContainsAny(LowerStr(titulo), InscricaoWords) && pdfCount > 0
  {
    var t := LowerStr(titulo);
    if ContainsAny(t, ResultadoWords) then Some(Resultado)
    else if ContainsAny(t, InscricaoWords) && pdfCount > 0 then Some(Inscricao)
    else None
  }

  /**
   * One of the notice's PDFs, read both ways: as the pages of a result table and as the
   * projects extracted from its blocks. Which reading is used depends on the stage.
   */
  datatype PdfItem = PdfItem(centro: Json, pages: seq<Page>, projetos: seq<ParsedProject>)

  /** What parse_noticia returns for a notice it processes. */
  datatype Noticia = Noticia(titulo: string, etapa: Etapa, modalidade: Modalidade, dataFim: Option<string>,
                             publicacao: Json, projetos: seq<ParsedProject>, aprovados: seq<Draft>)

  /** Every project of a PDF is tagged with the PDF's centro; the PDFs' projects are concatenated. */
  function TagCentros(pdfs: seq<PdfItem>): (r: seq<ParsedProject>)
    ensures forall p :: p in r ==> exists k :: 0 <= k < |pdfs| && p.centro == pdfs[k].centro
  {
    if pdfs == [] then []
    else
      var here := seq(|pdfs[0].projetos|, j requires 0 <= j < |pdfs[0].projetos| => pdfs[0].projetos[j].(centro := pdfs[0].centro));
      var rest := TagCentros(pdfs[1..]);
      assert forall p :: p in rest ==> exists k :: 0 <= k < |pdfs| && p.centro == pdfs[k].centro by {
        forall p | p in rest ensures exists k :: 0 <= k < |pdfs| && p.centro == pdfs[k].centro {
          var k :| 0 <= k < |pdfs[1..]| && p.centro == pdfs[1..][k].centro;
          assert pdfs[1..][k] == pdfs[k + 1];
        }
      }
      here + rest
  }

  /**
   * parse_noticia, with the closing date as already extracted: a result notice collects
   * the drafts of every PDF, an inscription notice the projects of every PDF.
   */
  function ParseNoticia(ratio: (string, string) -> real, titulo: string, publicacao: Json, dataFim: Option<string>,
                        pdfs: seq<PdfItem>, known: seq<string>): (r: Option<Noticia>)
    ensures r.None? <==> NoticiaStage(titulo, |pdfs|).None?
    ensures r.Some? ==> (r.value.etapa == NoticiaStage(titulo, |pdfs|).value
                     && r.value.modalidade == ClassifyModalidade(titulo) && r.value.titulo == titulo)
    ensures r.Some? && r.value.etapa == Resultado ==> r.value.projetos == [] && r.value.dataFim.None?
    ensures r.Some? && r.value.etapa == Inscricao ==> r.value.aprovados == []
  {
    match NoticiaStage(titulo, |pdfs|)
    case None => None
    case Some(Resultado) =>
      Some(Noticia(titulo, Resultado, ClassifyModalidade(titulo), None, publicacao, [], AllResultDrafts(ratio, known, pdfs)))
    case Some(_) =>
      Some(Noticia(titulo, Inscricao, ClassifyModalidade(titulo), dataFim, publicacao, TagCentros(pdfs), []))
  }

  /** The drafts of every result PDF, in PDF order, with get_match_key as the advisor key. */
  function AllResultDrafts(ratio: (string, string) -> real, known: seq<string>, pdfs: seq<PdfItem>): seq<Draft> {
    if pdfs == [] then [] else ResultDrafts(ratio, UtilsKeyOf, known, pdfs[0].pages) + AllResultDrafts(ratio, known, pdfs[1..])
  }
}
