/**
 * The deterministic decisions of the notice scraper: reading a publication date,
 * recognising a centro code, sorting a notice's PDF links, and choosing which notices
 * of a listing page go on to PDF processing.
 *
 * HTTP, HTML parsing, temporary files and the locale-dependent strptime attempt are
 * not modelled; what they produce (link texts and hrefs, the date text, the result of
 * the locale attempt) is passed in.
 */
module Scraper {
  import opened Wrappers
  import opened Chars
  import opened Text
  import opened Parser

  // ---------------------------------------------------------------------------
  // ISO dates: strptime(s, '%Y-%m-%d') and strftime('%Y-%m-%d')

  datatype Date = Date(year: nat, month: nat, day: nat)

  predicate Leap(y: nat) {
    y % 4 == 0 && (y % 100 != 0 || y % 400 == 0)
  }

  function DaysIn(y: nat, m: nat): (n: nat)
    ensures 28 <= n <= 31
  {
    if m == 2 then (if Leap(y) then 29 else 28)
    else if m == 4 || m == 6 || m == 9 || m == 11 then 30
    else 31
  }

  /** A date datetime.date accepts. */
  predicate ValidDate(d: Date) {
    1 <= d.year <= 9999 && 1 <= d.month <= 12 && 1 <= d.day <= DaysIn(d.year, d.month)
  }

  /** date <= date */
  predicate DateLe(a: Date, b: Date) {
    a.year < b.year || (a.year == b.year && (a.month < b.month || (a.month == b.month && a.day <= b.day)))
  }

  predicate AllAsciiDigits(s: string) {
    forall i :: 0 <= i < |s| ==> IsAsciiDigit(s[i])
  }

  /** int(s) for a string of ASCII digits. */
  function DigitsValue(s: string): nat
    requires AllAsciiDigits(s)
  {
    if s == [] then 0 else DigitsValue(s[..|s| - 1]) * 10 + (s[|s| - 1] as int - '0' as int)
  }

  /** int(t) for two ASCII digits, a leading zero allowed. */
  function TwoDigitValue(t: string): nat
    requires |t| == 2 && AllAsciiDigits(t)
  {
    (t[0] as int - '0' as int) * 10 + (t[1] as int - '0' as int)
  }

  /** The `%m` group, 1[0-2]|0[1-9]|[1-9], matched against the whole text before the next '-'. */
  function MonthField(t: string): (r: Option<nat>)
    ensures r.Some? ==> 1 <= r.value <= 12
  {
    if |t| == 2 && t[0] == '1' && '0' <= t[1] <= '2' then Some(10 + (t[1] as int - '0' as int))
    else if |t| == 2 && t[0] == '0' && '1' <= t[1] <= '9' then Some(t[1] as int - '0' as int)
    else if |t| == 1 && '1' <= t[0] <= '9' then Some(t[0] as int - '0' as int)
    else None
  }

  /**
   * The `%d` group, 3[01]|[12]\d|0[1-9]|[1-9]| [1-9], at the end of the format: the first
   * alternative that matches a prefix wins, and strptime then rejects any text left over.
   * The result is the day number when the winner spans the whole text.
   */
  function DayField(t: string): (r: Option<nat>)
    ensures r.Some? ==> 1 <= r.value <= 31
  {
    var len :=
      if |t| >= 2 && t[0] == '3' && (t[1] == '0' || t[1] == '1') then 2
      else if |t| >= 2 && (t[0] == '1' || t[0] == '2') && IsAsciiDigit(t[1]) then 2
      else if |t| >= 2 && t[0] == '0' && '1' <= t[1] <= '9' then 2
      else if |t| >= 1 && '1' <= t[0] <= '9' then 1
      else if |t| >= 2 && t[0] == ' ' && '1' <= t[1] <= '9' then 2
      else 0;
    if len == 0 || len != |t| then None
    else if len == 1 then Some(t[0] as int - '0' as int)
    else if t[0] == ' ' then Some(t[1] as int - '0' as int)
    else Some(TwoDigitValue(t))
  }

  /**
   * datetime.strptime(s, '%Y-%m-%d'): four digits, '-', the month group, '-', the day
   * group and nothing more, naming a day of the calendar; None where Python raises
   * ValueError.
   */
  function StrpIso(s: string): (r: Option<Date>)
    ensures r.Some? ==> ValidDate(r.value)
  {
    if |s| < 5 || !AllAsciiDigits(s[..4]) || s[4] != '-' then None
    else
      var rest := s[5..];
      match FindChar(rest, '-')
      case None => None
      case Some(j) =>
        var m := MonthField(rest[..j]);
        var d := DayField(rest[j + 1..]);
        if m.None? || d.None? then None
        else
          var date := Date(DigitsValue(s[..4]), m.value, d.value);
          if ValidDate(date) then Some(date) else None
  }

  /** date.strftime('%Y-%m-%d') for a year of four digits. */
  function IsoText(d: Date): (r: string)
    requires ValidDate(d) && d.year >= 1000
  {
    NatToString(d.year) + "-" + ZFill(NatToString(d.month), 2) + "-" + ZFill(NatToString(d.day), 2)
  }

  function Pow10(n: nat): (r: nat)
    ensures r >= 1
  {
    if n == 0 then 1 else 10 * Pow10(n - 1)
  }

  /** k digits stand for a number below 10^k. */
  lemma {:induction false} DigitsBelow(s: string)
    requires AllAsciiDigits(s)
    ensures DigitsValue(s) < Pow10(|s|)
  {
    if s != [] {
      DigitsBelow(s[..|s| - 1]);
    }
  }

  /** The digits of n read back give n. */
  lemma {:induction false} DigitsOfNat(n: nat)
    ensures AllAsciiDigits(NatToString(n)) && DigitsValue(NatToString(n)) == n
  {
    if n >= 10 {
      DigitsOfNat(n / 10);
      var s := NatToString(n);
      assert s[..|s| - 1] == NatToString(n / 10);
    }
  }

  lemma NatToStringLength(n: nat)
    ensures n < 10 ==> |NatToString(n)| == 1
    ensures 10 <= n < 100 ==> |NatToString(n)| == 2
    ensures 1000 <= n < 10000 ==> |NatToString(n)| == 4
  {
    if n >= 10 {
      NatToStringLength(n / 10);
    }
  }

  /** Two digits naming n, zero-padded. */
  lemma TwoDigits(n: nat)
    requires 1 <= n <= 31
    ensures var t := ZFill(NatToString(n), 2);
      |t| == 2 && AllAsciiDigits(t) && TwoDigitValue(t) == n
  {
    NatToStringLength(n);
    DigitsOfNat(n);
    var s := NatToString(n);
    if n < 10 {
      assert ZFill(s, 2) == "0" + s;
    } else {
      assert s[..1] == NatToString(n / 10);
    }
  }

  /** strptime reads back what strftime writes. */
  lemma StrpIsoOfIsoText(d: Date)
    requires ValidDate(d) && d.year >= 1000
    ensures StrpIso(IsoText(d)) == Some(d)
  {
    var y := NatToString(d.year);
    var mm := ZFill(NatToString(d.month), 2);
    var dd := ZFill(NatToString(d.day), 2);
    NatToStringLength(d.year);
    DigitsOfNat(d.year);
    TwoDigits(d.month);
    TwoDigits(d.day);
    IsoFields(y, mm, dd);
  }

  /** The fields of "yyyy-mm-dd" for four digits and two two-digit groups. */
  lemma IsoFields(y: string, mm: string, dd: string)
    requires |y| == 4 && AllAsciiDigits(y)
    requires |mm| == 2 && AllAsciiDigits(mm) && |dd| == 2 && AllAsciiDigits(dd)
    ensures var s := y + "-" + mm + "-" + dd;
      var date := Date(DigitsValue(y), TwoDigitValue(mm), TwoDigitValue(dd));
      StrpIso(s) == if ValidDate(date) then Some(date) else None
  {
    var s := y + "-" + mm + "-" + dd;
    assert s[..4] == y;
    var rest := s[5..];
    assert rest == mm + "-" + dd;
    assert FindChar(rest, '-') == Some(2) by {
      assert FindChar(rest[1..], '-') == Some(1);
    }
    assert rest[..2] == mm;
    assert rest[3..] == dd;
    MonthOfTwoDigits(mm);
    DayOfTwoDigits(dd);
  }

  /** Two digits match the month group exactly when they name a month. */
  lemma MonthOfTwoDigits(mm: string)
    requires |mm| == 2 && AllAsciiDigits(mm)
    ensures var mv := TwoDigitValue(mm);
      MonthField(mm) == if 1 <= mv <= 12 then Some(mv) else None
  {
  }

  /** Two digits match the day group exactly when they name a day from 1 to 31. */
  lemma DayOfTwoDigits(dd: string)
    requires |dd| == 2 && AllAsciiDigits(dd)
    ensures var dv := TwoDigitValue(dd);
      DayField(dd) == if 1 <= dv <= 31 then Some(dv) else None
  {
  }

  // ---------------------------------------------------------------------------
  // _parse_publication_date

  /** month_map: both spellings of March give 03. */
  const MonthMap: map<string, string> := map[
    "janeiro" := "01", "fevereiro" := "02", "março" := "03", "marco" := "03", "abril" := "04",
    "maio" := "05", "junho" := "06", "julho" := "07", "agosto" := "08",
    "setembro" := "09", "outubro" := "10", "novembro" := "11", "dezembro" := "12"]

  /** date_str.lower().replace(',', '').replace(' de ', ' ') */
  function Cleaned(s: string): string {
    ReplaceAll(ReplaceAll(LowerStr(s), ",", ""), " de ", " ")
  }

  /** The tokens of the cleaned text. */
  function DateTokens(s: string): seq<string> {
    Words(Cleaned(s))
  }

  /**
   * The manual fallback: three tokens, month name first, give "{year}-{MM}-{day.zfill(2)}";
   * day and year are copied as they are.
   */
  function ManualDate(s: string): (r: Option<string>)
    ensures r.Some? <==> |DateTokens(s)| == 3 && DateTokens(s)[0] in MonthMap
  {
    var parts := DateTokens(s);
    if |parts| == 3 && parts[0] in MonthMap then
      Some(parts[2] + "-" + MonthMap[parts[0]] + "-" + ZFill(parts[1], 2))
    else None
  }

  /** Every month name starts with a letter. */
  lemma MonthNamesStartWithLetters(t: string)
    requires t in MonthMap
    ensures t != [] && 'a' <= t[0] <= 'z'
  {
  }

  /**
   * The fallback reads the month first: a text that starts with a digit, as the day-first
   * "15 de março de 2025" does, is not parsed.
   */
  lemma DayFirstIsNotParsed(s: string)
    requires s != [] && '0' <= s[0] <= '9'
    ensures ManualDate(s).None?
  {
    var l := LowerStr(s);
    assert l[0] == s[0];
    ReplaceAllHead(l, ",", "");
    var x := ReplaceAll(l, ",", "");
    ReplaceAllHead(x, " de ", " ");
    var y := ReplaceAll(x, " de ", " ");
    assert y == Cleaned(s);
    assert !IsSpace(y[0]);
    WordsHead(y);
    if DateTokens(s)[0] in MonthMap {
      MonthNamesStartWithLetters(DateTokens(s)[0]);
    }
  }

  lemma DayFirstExample(s: string)
    requires s == "15 de março de 2025"
    ensures ManualDate(s).None?
  {
    DayFirstIsNotParsed(s);
  }

  /**
   * _parse_publication_date: None for an empty string; otherwise the locale-dependent
   * strptime attempt, given as `locale`, and the manual fallback when it fails.
   */
  function PublicationDate(locale: string -> Option<string>, s: string): (r: Option<string>)
    ensures s == [] ==> r.None?
    ensures s != [] && locale(s).None? ==> r == ManualDate(s)
    ensures s != [] && locale(s).Some? ==> r == locale(s)
  {
    if s == [] then None
    else if locale(s).Some? then locale(s)
    else ManualDate(s)
  }

  /** The fallback ignores letter case. */
  lemma ManualDateIgnoresCase(s: string)
    ensures ManualDate(LowerStr(s)) == ManualDate(s)
  {
    LowerStrIdempotent(s);
  }

  /**
   * A fallback date whose year is four digits and whose day is one or two digits naming a
   * day of that month is read back by strptime as that date.
   */
  lemma ManualDateParses(s: string)
    requires ManualDate(s).Some?
    requires var p := DateTokens(s);
      && |p[2]| == 4 && AllAsciiDigits(p[2]) && DigitsValue(p[2]) >= 1
      && 1 <= |p[1]| <= 2 && AllAsciiDigits(p[1])
    requires var p := DateTokens(s);
      var mm := MonthMap[p[0]];
      1 <= DigitsValue(p[1]) <= DaysIn(DigitsValue(p[2]), TwoDigitValue(mm))
    ensures var p := DateTokens(s);
      StrpIso(ManualDate(s).value) == Some(Date(DigitsValue(p[2]), TwoDigitValue(MonthMap[p[0]]), DigitsValue(p[1])))
  {
    var p := DateTokens(s);
    MonthMapValues(p[0]);
    DateOfParts(p[2], MonthMap[p[0]], p[1]);
  }

  /** The ISO text of a four-digit year, a month number and a day of that month reads back as that date. */
  lemma DateOfParts(y: string, mm: string, day: string)
    requires |y| == 4 && AllAsciiDigits(y) && DigitsValue(y) >= 1
    requires |mm| == 2 && AllAsciiDigits(mm) && 1 <= TwoDigitValue(mm) <= 12
    requires 1 <= |day| <= 2 && AllAsciiDigits(day)
    requires 1 <= DigitsValue(day) <= DaysIn(DigitsValue(y), TwoDigitValue(mm))
    ensures StrpIso(y + "-" + mm + "-" + ZFill(day, 2)) == Some(Date(DigitsValue(y), TwoDigitValue(mm), DigitsValue(day)))
  {
    DigitsBelow(y);
    assert Pow10(4) == 10000;
    var dd := ZFill(day, 2);
    DayDigits(day);
    assert ValidDate(Date(DigitsValue(y), TwoDigitValue(mm), DigitsValue(day)));
    IsoFields(y, mm, dd);
  }

  /**
   * A fallback date whose day is two digits past the end of the month, such as
   * "fevereiro 30, 2025", is rejected by strptime.
   */
  lemma ManualDateBadDay(s: string)
    requires ManualDate(s).Some?
    requires var p := DateTokens(s);
      && |p[2]| == 4 && AllAsciiDigits(p[2])
      && 1 <= |p[1]| <= 2 && AllAsciiDigits(p[1])
    requires var p := DateTokens(s);
      DigitsValue(p[1]) > DaysIn(DigitsValue(p[2]), TwoDigitValue(MonthMap[p[0]]))
    ensures StrpIso(ManualDate(s).value).None?
  {
    var p := DateTokens(s);
    MonthMapValues(p[0]);
    DayDigits(p[1]);
    IsoFields(p[2], MonthMap[p[0]], ZFill(p[1], 2));
  }

  /** The number a two-digit month text stands for. */

  /** Every month number of month_map is two digits from 01 to 12. */
  lemma MonthMapValues(name: string)
    requires name in MonthMap
    ensures var mm := MonthMap[name];
      |mm| == 2 && AllAsciiDigits(mm) && 1 <= TwoDigitValue(mm) <= 12
  {
  }

  /** One or two digits, zero-filled, keep their value. */
  lemma DayDigits(t: string)
    requires 1 <= |t| <= 2 && AllAsciiDigits(t)
    ensures var dd := ZFill(t, 2);
      |dd| == 2 && AllAsciiDigits(dd) && TwoDigitValue(dd) == DigitsValue(t)
  {
    if |t| == 1 {
      assert ZFill(t, 2) == "0" + t;
      assert t[..0] == [];
    } else {
      assert t[..1][..0] == [];
    }
  }

  // ---------------------------------------------------------------------------
  // _extract_centro_from_text and link triage

  /** The centro codes, longest first as sorted(..., key=len, reverse=True) leaves them. */
  const CentroOrder: seq<string> := ["ccta", "cbb", "cct", "cch"]

  /** The first code of `codes` that occurs in s. */
  function FirstCode(s: string, codes: seq<string>): (r: Option<nat>)
    ensures r.Some? ==> r.value < |codes| && Contains(s, codes[r.value]) && forall j :: 0 <= j < r.value ==> !Contains(s, codes[j])
    ensures r.None? ==> forall j :: 0 <= j < |codes| ==> !Contains(s, codes[j])
  {
    if codes == [] then None
    else if Contains(s, codes[0]) then Some(0)
    else
      match FirstCode(s, codes[1..])
      case None => None
      case Some(i) => Some(i + 1)
  }

  /** The centro a text names, case-insensitively, trying ccta before the three-letter codes. */
  function ExtractCentro(text: string): (r: Option<string>)
    ensures r.Some? ==> r.value in CentroOrder && Contains(LowerStr(text), r.value)
    ensures r.None? <==> forall j :: 0 <= j < |CentroOrder| ==> !Contains(LowerStr(text), CentroOrder[j])
  {
    match FirstCode(LowerStr(text), CentroOrder)
    case None => None
    case Some(i) => Some(CentroOrder[i])
  }

  /** A text naming ccta is a ccta text, although it also contains "cct". */
  lemma CctaWins(text: string)
    requires Contains(LowerStr(text), "ccta")
    ensures ExtractCentro(text) == Some("ccta")
  {
  }

  /** A code is reported only when every code tried before it is absent. */
  lemma CentroIsFirst(text: string, j: nat)
    requires ExtractCentro(text).Some? && j < |CentroOrder|
    requires CentroOrder[j] == ExtractCentro(text).value
    ensures forall k :: 0 <= k < j ==> !Contains(LowerStr(text), CentroOrder[k])
  {
    var i := FirstCode(LowerStr(text), CentroOrder).value;
    assert CentroOrder[i] == CentroOrder[j];
    assert i == j;
  }

  /** The centro does not depend on letter case. */
  lemma CentroIgnoresCase(text: string)
    ensures ExtractCentro(LowerStr(text)) == ExtractCentro(text)
  {
    LowerStrIdempotent(text);
  }

  /** An `a` tag of the notice page: its stripped text and its href. */
  datatype Link = Link(text: string, href: string)

  /** A project PDF and the centro its link names. */
  datatype ProjectPdf = ProjectPdf(href: string, centro: string)

  /** The links sorted out: the principal PDF, if any, and the project PDFs in page order. */
  datatype Triage = Triage(principal: Option<string>, projects: seq<ProjectPdf>)

  const ExclusionWords: seq<string> := ["boletim", "epidemiológico", "errata"]

  predicate Excluded(l: Link) {
    ContainsAny(LowerStr(l.text), ExclusionWords)
  }

  /** find_all('a', href=lambda href: href and href.endswith('.pdf')) */
  function PdfLinks(tags: seq<Link>): (r: seq<Link>)
    ensures forall l :: l in r <==> l in tags && l.href != "" && EndsWith(l.href, ".pdf")
  {
    if tags == [] then []
    else
      assert tags == [tags[0]] + tags[1..];
      (if tags[0].href != "" && EndsWith(tags[0].href, ".pdf") then [tags[0]] else []) + PdfLinks(tags[1..])
  }

  /** The links that are not excluded and name a centro, with that centro. */
  function ProjectLinks(links: seq<Link>): (r: seq<ProjectPdf>)
    ensures forall p :: p in r ==> exists l :: l in links && !Excluded(l) && l.href == p.href && ExtractCentro(l.text) == Some(p.centro)
    ensures forall l :: l in links && !Excluded(l) && ExtractCentro(l.text).Some? ==> ProjectPdf(l.href, ExtractCentro(l.text).value) in r
  {
    if links == [] then []
    else
      assert links == [links[0]] + links[1..];
      var l := links[0];
      (if !Excluded(l) && ExtractCentro(l.text).Some? then [ProjectPdf(l.href, ExtractCentro(l.text).value)] else [])
        + ProjectLinks(links[1..])
  }

  /** A link the first pass may take as the principal PDF: not excluded, and naming no centro. */
  predicate PrincipalCandidate(l: Link) {
    !Excluded(l) && ExtractCentro(l.text).None?
  }

  /** The hrefs of the links that are not excluded and name no centro, in page order. */
  function PrincipalCandidates(links: seq<Link>): (r: seq<string>)
    ensures r == [] <==> forall j :: 0 <= j < |links| ==> !PrincipalCandidate(links[j])
  {
    if links == [] then []
    else
      var rest := PrincipalCandidates(links[1..]);
      assert forall j :: 1 <= j < |links| ==> links[j] == links[1..][j - 1];
      if PrincipalCandidate(links[0]) then [links[0].href] + rest
      else rest
  }

  /** The first candidate is the href of the first link the first pass may take. */
  lemma {:induction false} FirstCandidateIsFirst(links: seq<Link>)
    requires PrincipalCandidates(links) != []
    ensures exists i :: 0 <= i < |links| && links[i].href == PrincipalCandidates(links)[0] && PrincipalCandidate(links[i])
              && forall j :: 0 <= j < i ==> !PrincipalCandidate(links[j])
  {
    if PrincipalCandidate(links[0]) {
      assert links[0].href == PrincipalCandidates(links)[0];
    } else {
      var t := links[1..];
      assert PrincipalCandidates(links) == PrincipalCandidates(t);
      FirstCandidateIsFirst(t);
      var i :| 0 <= i < |t| && t[i].href == PrincipalCandidates(t)[0] && PrincipalCandidate(t[i])
               && forall j :: 0 <= j < i ==> !PrincipalCandidate(t[j]);
      assert links[i + 1] == t[i];
      forall j | 0 <= j < i + 1 ensures !PrincipalCandidate(links[j]) {
        if j > 0 {
          assert links[j] == t[j - 1];
        }
      }
    }
  }

  /** The href of the first link that is not excluded. */
  function FirstNotExcluded(links: seq<Link>): (r: Option<string>)
    ensures r.None? <==> forall j :: 0 <= j < |links| ==> Excluded(links[j])
  {
    if links == [] then None
    else if !Excluded(links[0]) then Some(links[0].href)
    else
      var r := FirstNotExcluded(links[1..]);
      assert forall j :: 1 <= j < |links| ==> links[j] == links[1..][j - 1];
      r
  }

  /** The links as _download_pdfs_to_temp_files sorts them, fallback pass included. */
  function TriageLinks(tags: seq<Link>): (r: Triage)
    ensures r.projects == ProjectLinks(PdfLinks(tags))
  {
    var links := PdfLinks(tags);
    var projects := ProjectLinks(links);
    var candidates := PrincipalCandidates(links);
    var principal := if candidates != [] then Some(candidates[0]) else None;
    var principal' :=
      if projects == [] && (principal.None? || principal.value == "") && links != [] then FirstNotExcluded(links)
      else principal;
    Triage(principal', projects)
  }

  /**
   * The principal PDF is the first PDF link that is neither excluded nor names a centro,
   * and there is none exactly when every PDF link is excluded or names a centro: the
   * fallback pass never finds a link the first pass missed.
   */
  lemma TriagePrincipal(tags: seq<Link>)
    ensures var links := PdfLinks(tags);
      var r := TriageLinks(tags);
      && (r.principal.None? <==> forall j :: 0 <= j < |links| ==> !PrincipalCandidate(links[j]))
      && (r.principal.Some? ==> r.principal == Some(PrincipalCandidates(links)[0]))
  {
    var links := PdfLinks(tags);
    var candidates := PrincipalCandidates(links);
    var r := TriageLinks(tags);
    if candidates == [] {
      FallbackFindsNothing(links);
      assert r.principal.None?;
    } else {
      CandidateIsTruthy(tags);
      assert r.principal == Some(candidates[0]);
    }
  }

  /** With no candidate and no project PDF, every PDF link is excluded. */
  lemma FallbackFindsNothing(links: seq<Link>)
    requires PrincipalCandidates(links) == []
    ensures ProjectLinks(links) == [] ==> FirstNotExcluded(links).None?
  {
    if ProjectLinks(links) == [] {
      forall j | 0 <= j < |links| ensures Excluded(links[j]) {
        assert links[j] in links;
      }
    }
  }

  /** The first candidate is the href of a PDF link, hence not empty. */
  lemma CandidateIsTruthy(tags: seq<Link>)
    requires PrincipalCandidates(PdfLinks(tags)) != []
    ensures PrincipalCandidates(PdfLinks(tags))[0] != ""
  {
    var links := PdfLinks(tags);
    FirstCandidateIsFirst(links);
    var i :| 0 <= i < |links| && links[i].href == PrincipalCandidates(links)[0];
    assert links[i] in links;
  }

  /** Every project PDF is a PDF link that is not excluded, with the centro its text names. */
  lemma TriageProjects(tags: seq<Link>, p: ProjectPdf)
    requires p in TriageLinks(tags).projects
    ensures exists l :: l in tags && l.href != "" && EndsWith(l.href, ".pdf") && !Excluded(l) && l.href == p.href && ExtractCentro(l.text) == Some(p.centro)
  {
  }

  // ---------------------------------------------------------------------------
  // fetch_news

  /** Which kinds of keyword a notice title carries. */
  datatype Kind = Kind(inscricao: bool, resultado: bool)

  /**
   * The title filter of fetch_news: the title must mention proex or extensão and carry an
   * inscription or a result keyword (the lists parse_noticia uses).
   */
  function NoticeKind(titulo: string): (r: Option<Kind>)
    ensures r.Some? <==> (
      && (Contains(LowerStr(titulo), "proex") || Contains(LowerStr(titulo), "extensão"))
      && (ContainsAny(LowerStr(titulo), InscricaoWords) || ContainsAny(LowerStr(titulo), ResultadoWords)))
    ensures r.Some? ==> (r.value.inscricao <==> ContainsAny(LowerStr(titulo), InscricaoWords))
    ensures r.Some? ==> (r.value.resultado <==> ContainsAny(LowerStr(titulo), ResultadoWords))
  {
    var t := LowerStr(titulo);
    if !Contains(t, "proex") && !Contains(t, "extensão") then None
    else
      var k := Kind(ContainsAny(t, InscricaoWords), ContainsAny(t, ResultadoWords));
      if !k.inscricao && !k.resultado then None else Some(k)
  }

  /** A notice the scraper treats as a result is one parse_noticia treats as a result too. */
  lemma ScraperAndParserAgree(titulo: string, pdfCount: nat)
    requires NoticeKind(titulo).Some?
    ensures NoticeKind(titulo).value.resultado ==> NoticiaStage(titulo, pdfCount) == Some(Resultado)
    ensures !NoticeKind(titulo).value.resultado && pdfCount > 0 ==> NoticiaStage(titulo, pdfCount) == Some(Inscricao)
  {
  }

  /** What fetch_news does with a notice whose PDFs it has: nothing, or one of the two parses. */
  datatype Route = Ignore | AsInscricao | AsResultado

  /** The branch of fetch_news taken for a notice, given its principal PDF and project PDFs. */
  function RouteOf(k: Kind, hasPrincipal: bool, projectCount: nat): (r: Route)
    ensures r == AsInscricao <==> k.inscricao && hasPrincipal && projectCount > 0
    ensures r == AsResultado <==> k.resultado && !k.inscricao && projectCount > 0
  {
    if k.resultado && projectCount == 0 then Ignore
    else if k.inscricao && !(hasPrincipal && projectCount > 0) then Ignore
    else if k.inscricao && hasPrincipal && projectCount > 0 then AsInscricao
    else if k.resultado && projectCount > 0 then AsResultado
    else Ignore
  }

  /** A notice on the listing page: its title and what _parse_publication_date made of its date. */
  datatype Item = Item(titulo: string, pub: Option<string>)

  /** The outcome of a listing page: an uncaught ValueError, or the titles that reach the PDF stage. */
  datatype Fetch = Raised | Listed(titles: seq<string>)

  /** The notice is older than or as old as the stored date and is passed over. */
  predicate TooOld(it: Item, latest: Option<Date>) {
    && it.pub.Some? && it.pub.value != [] && latest.Some?
    && StrpIso(it.pub.value).Some? && DateLe(StrpIso(it.pub.value).value, latest.value)
  }

  /** The notice passes the title filter and its date does not hold it back. */
  predicate Reaches(it: Item, latest: Option<Date>) {
    NoticeKind(it.titulo).Some? && !TooOld(it, latest) && !Breaks(it, latest)
  }

  /** The notice passes the title filter but strptime rejects its date: fetch_news raises. */
  predicate Breaks(it: Item, latest: Option<Date>) {
    && NoticeKind(it.titulo).Some? && it.pub.Some? && it.pub.value != [] && latest.Some?
    && StrpIso(it.pub.value).None?
  }

  /** The loop of fetch_news over the notices in processing order. */
  function Walk(items: seq<Item>, latest: Option<Date>): (r: Fetch)
    ensures r.Raised? <==> exists i :: 0 <= i < |items| && Breaks(items[i], latest)
    ensures r.Listed? ==> forall t :: t in r.titles ==> exists i :: 0 <= i < |items| && Reaches(items[i], latest) && items[i].titulo == t
    ensures r.Listed? ==> forall i :: 0 <= i < |items| && Reaches(items[i], latest) ==> items[i].titulo in r.titles
  {
    if items == [] then Listed([])
    else
      var it := items[0];
      var rest := Walk(items[1..], latest);
      assert forall i :: 1 <= i < |items| ==> items[i] == items[1..][i - 1];
      if NoticeKind(it.titulo).None? || TooOld(it, latest) then rest
      else if Breaks(it, latest) then Raised
      else
        match rest
        case Raised => Raised
        case Listed(ts) => Listed([it.titulo] + ts)
  }

  function Reverse<T>(s: seq<T>): (r: seq<T>)
    ensures |r| == |s| && forall i :: 0 <= i < |s| ==> r[i] == s[|s| - 1 - i]
  {
    if s == [] then [] else Reverse(s[1..]) + [s[0]]
  }

  /**
   * fetch_news on one listing page, with the stored latest date as text (empty when there
   * is none): the page's notices are processed last first.
   */
  function FetchNews(stored: string, page: seq<Item>): (r: Fetch)
    ensures stored != [] && StrpIso(stored).None? ==> r.Raised?
    ensures stored == [] ==> r.Listed?
    ensures r.Listed? ==> forall t :: t in r.titles ==> NoticeKind(t).Some?
  {
    if stored == [] then Walk(Reverse(page), None)
    else
      match StrpIso(stored)
      case None => Raised
      case Some(d) => Walk(Reverse(page), Some(d))
  }

  /**
   * fetch_news raises exactly when a stored date is unreadable, or when a stored date
   * exists and some notice passing the title filter has a date strptime rejects;
   * otherwise the titles reaching the PDF stage are exactly those of the notices that
   * pass the filter and are newer than the stored date.
   */
  lemma FetchNewsSpec(stored: string, page: seq<Item>)
    ensures var latest := if stored == [] then None else StrpIso(stored);
      var r := FetchNews(stored, page);
      && (r.Raised? <==> (stored != [] && latest.None?) || exists i :: 0 <= i < |page| && Breaks(page[i], latest))
      && (r.Listed? ==> forall t :: t in r.titles ==> exists i :: 0 <= i < |page| && Reaches(page[i], latest) && page[i].titulo == t)
      && (r.Listed? ==> forall i :: 0 <= i < |page| && Reaches(page[i], latest) ==> page[i].titulo in r.titles)
  {
    var latest := if stored == [] then None else StrpIso(stored);
    var rev := Reverse(page);
    assert forall i :: 0 <= i < |page| ==> page[i] == rev[|page| - 1 - i];
    assert forall i :: 0 <= i < |rev| ==> rev[i] == page[|page| - 1 - i];
  }

  /** Without a stored date nothing raises and no notice is passed over for its date. */
  lemma NoStoredDateKeepsAll(page: seq<Item>)
    ensures FetchNews([], page).Listed?
    ensures forall i :: 0 <= i < |page| && NoticeKind(page[i].titulo).Some? ==> page[i].titulo in FetchNews([], page).titles
  {
    FetchNewsSpec([], page);
  }
}
