/**
 * The API's output hardening: HTML escaping of text sent to Telegram, URL
 * normalisation, the CORS origin check and headers, and the alert message template.
 */
module Security {
  import opened Chars
  import opened Text

  // ---------------------------------------------------------------------------
  // html.escape(text, quote=True)

  /** The characters html.escape replaces. */
  predicate Special(c: char) {
    c == '&' || c == '<' || c == '>' || c == '"' || c == '\''
  }

  /** Characters that cannot open a tag or close an attribute. */
  predicate Inert(c: char) {
    c != '<' && c != '>' && c != '"' && c != '\''
  }

  function EscapeChar(c: char): (r: string)
    ensures |r| >= 1 && forall i :: 0 <= i < |r| ==> Inert(r[i])
    ensures !Special(c) ==> r == [c]
  {
    if c == '&' then "&amp;"
    else if c == '<' then "&lt;"
    else if c == '>' then "&gt;"
    else if c == '"' then "&quot;"
    else if c == '\'' then "&#x27;"
    else [c]
  }

  /** html.escape with quote=True: & first, then < > " ' as entities. */
  function Escape(s: string): (r: string)
    ensures |r| >= |s|
  {
    if s == [] then [] else EscapeChar(s[0]) + Escape(s[1..])
  }

  /** No raw angle bracket or quote survives escaping. */
  lemma {:induction false} EscapeIsInert(s: string)
    ensures forall i :: 0 <= i < |Escape(s)| ==> Inert(Escape(s)[i])
  {
    if s != [] {
      var h := EscapeChar(s[0]);
      var t := Escape(s[1..]);
      EscapeIsInert(s[1..]);
      assert Escape(s) == h + t;
      forall i | 0 <= i < |h + t| ensures Inert((h + t)[i]) {
        if i >= |h| {
          assert (h + t)[i] == t[i - |h|];
        }
      }
    }
  }

  /** The decoder of the five entities html.escape writes; any other text is kept. */
  function Unescape(s: string): string
    decreases |s|
  {
    if s == [] then []
    else if s[0] != '&' then [s[0]] + Unescape(s[1..])
    else if StartsWith(s, "&amp;") then "&" + Unescape(s[5..])
    else if StartsWith(s, "&lt;") then "<" + Unescape(s[4..])
    else if StartsWith(s, "&gt;") then ">" + Unescape(s[4..])
    else if StartsWith(s, "&quot;") then "\"" + Unescape(s[6..])
    else if StartsWith(s, "&#x27;") then "'" + Unescape(s[6..])
    else [s[0]] + Unescape(s[1..])
  }

  lemma UnescapeChar(c: char, t: string)
    ensures Unescape(EscapeChar(c) + t) == [c] + Unescape(t)
  {
    var e := EscapeChar(c);
    var s := e + t;
    assert s[..|e|] == e;
    assert s[|e|..] == t;
    if c == '&' {
    } else if c == '<' {
      DiffersAt(s, "&amp;", 1);
    } else if c == '>' {
      DiffersAt(s, "&amp;", 1);
      DiffersAt(s, "&lt;", 1);
    } else if c == '"' {
      DiffersAt(s, "&amp;", 1);
      DiffersAt(s, "&lt;", 1);
      DiffersAt(s, "&gt;", 1);
    } else if c == '\'' {
      DiffersAt(s, "&amp;", 1);
      DiffersAt(s, "&lt;", 1);
      DiffersAt(s, "&gt;", 1);
      DiffersAt(s, "&quot;", 1);
    } else {
      assert s[0] == c;
      assert s[1..] == t;
    }
  }

  /** Escaping loses nothing: decoding the escaped text gives the text back. */
  lemma {:induction false} EscapeRoundTrip(s: string)
    ensures Unescape(Escape(s)) == s
  {
    if s != [] {
      EscapeRoundTrip(s[1..]);
      UnescapeChar(s[0], Escape(s[1..]));
      assert [s[0]] + s[1..] == s;
    }
  }

  lemma {:induction false} EscapeAppend(a: string, b: string)
    ensures Escape(a + b) == Escape(a) + Escape(b)
  {
    if a == [] {
      assert a + b == b;
    } else {
      assert (a + b)[0] == a[0];
      assert (a + b)[1..] == a[1..] + b;
      EscapeAppend(a[1..], b);
    }
  }

  /** Text without special characters is left as it is. */
  lemma {:induction false} EscapePlain(s: string)
    requires forall i :: 0 <= i < |s| ==> !Special(s[i])
    ensures Escape(s) == s
  {
    if s != [] {
      EscapePlain(s[1..]);
      assert [s[0]] + s[1..] == s;
    }
  }

  /** sanitize_telegram_html: "" for empty text, the escaped text otherwise. */
  function SanitizeTelegramHtml(text: string): (r: string)
    ensures text == [] <==> r == []
    ensures forall i :: 0 <= i < |r| ==> Inert(r[i])
    ensures Unescape(r) == text
  {
    EscapeRoundTrip(text);
    EscapeIsInert(text);
    if text == [] then [] else Escape(text)
  }

  // ---------------------------------------------------------------------------
  // sanitize_url

  predicate HasScheme(u: string) {
    StartsWith(u, "http://") || StartsWith(u, "https://")
  }

  /** The stripped URL, with https:// put in front unless it already names http or https. */
  function WithScheme(u: string): (r: string)
    ensures HasScheme(r)
    ensures HasScheme(u) ==> r == u
    ensures !HasScheme(u) ==> r == "https://" + u
  {
    if HasScheme(u) then u
    else
      assert ("https://" + u)[..8] == "https://";
      "https://" + u
  }

  lemma EscapeKeepsPrefix(p: string, u: string)
    requires StartsWith(u, p) && forall i :: 0 <= i < |p| ==> !Special(p[i])
    ensures StartsWith(Escape(u), p)
  {
    var rest := u[|p|..];
    assert u == p + rest;
    EscapePlain(p);
    EscapeAppend(p, rest);
    assert Escape(u)[..|p|] == p;
  }

  lemma EscapeKeepsScheme(u: string)
    requires HasScheme(u)
    ensures HasScheme(Escape(u))
  {
    if StartsWith(u, "http://") {
      EscapeKeepsPrefix("http://", u);
    } else {
      EscapeKeepsPrefix("https://", u);
    }
  }

  /**
   * sanitize_url: "" for empty input; otherwise the stripped URL with its scheme made
   * explicit, escaped. Every non-empty input gets an http or https URL, and decoding the
   * result gives the normalised URL.
   */
  function SanitizeUrl(url: string): (r: string)
    ensures url == [] ==> r == []
    ensures url != [] ==> HasScheme(r) && Unescape(r) == WithScheme(Strip(url))
    ensures forall i :: 0 <= i < |r| ==> Inert(r[i])
  {
    if url == [] then []
    else
      var u := WithScheme(Strip(url));
      EscapeKeepsScheme(u);
      EscapeRoundTrip(u);
      EscapeIsInert(u);
      Escape(u)
  }

  // ---------------------------------------------------------------------------
  // validate_origin and build_cors_headers

  /** origin.lower().strip() */
  function Clean(s: string): string {
    Strip(LowerStr(s))
  }

  /**
   * One allowed entry accepts a cleaned origin when they are equal after cleaning, or
   * when the entry is '*.d' and the origin ends with d (taken as written, with no dot
   * boundary).
   */
  predicate Accepts(allowed: string, clean: string) {
    || clean == Clean(allowed)
    || (StartsWith(allowed, "*.") && EndsWith(clean, allowed[2..]))
  }

  function FirstAccepting(allowed: seq<string>, clean: string): (r: bool)
    ensures r <==> exists i :: 0 <= i < |allowed| && Accepts(allowed[i], clean)
  {
    if allowed == [] then false
    else if Accepts(allowed[0], clean) then true
    else
      assert forall i :: 1 <= i < |allowed| ==> allowed[i] == allowed[1..][i - 1];
      FirstAccepting(allowed[1..], clean)
  }

  /** validate_origin: no origin is valid when empty; otherwise some entry must accept it. */
  function ValidateOrigin(origin: string, allowed: seq<string>): (r: bool)
    ensures r <==> origin != [] && exists i :: 0 <= i < |allowed| && Accepts(allowed[i], Clean(origin))
  {
    origin != [] && FirstAccepting(allowed, Clean(origin))
  }

  /** A listed origin is valid, whatever its case or surrounding blanks. */
  lemma ListedOriginIsValid(origin: string, allowed: seq<string>, i: nat)
    requires origin != [] && i < |allowed| && Clean(origin) == Clean(allowed[i])
    ensures ValidateOrigin(origin, allowed)
  {
  }

  /** No allowed list accepts anything. */
  lemma EmptyListRejects(origin: string)
    ensures !ValidateOrigin(origin, [])
  {
  }

  /** A wildcard entry accepts every origin whose cleaned form ends with its domain. */
  lemma WildcardAccepts(w: string, origin: string)
    requires origin != [] && StartsWith(w, "*.") && EndsWith(Clean(origin), w[2..])
    ensures ValidateOrigin(origin, [w])
  {
    assert [w][0] == w;
  }

  /**
   * The wildcard has no dot boundary: '*.vercel.app' accepts 'https://evilvercel.app',
   * whose host is not a subdomain of vercel.app.
   */
  lemma WildcardWithoutDotBoundary()
    ensures ValidateOrigin("https://evil" + "vercel.app", ["*." + "vercel.app"])
  {
    EvilOriginIsClean();
    EvilOriginSplits();
    WildcardSuffix("https://evil", "vercel.app");
  }

  /** Any host that merely ends with the domain passes its wildcard, dot or no dot. */
  lemma WildcardSuffix(host: string, d: string)
    requires host != [] && Clean(host + d) == host + d
    ensures ValidateOrigin(host + d, ["*." + d])
  {
    var w := "*." + d;
    assert w[..2] == "*.";
    assert w[2..] == d;
    assert (host + d)[|host + d| - |d|..] == d;
    WildcardAccepts(w, host + d);
  }

  lemma EvilOriginSplits()
    ensures "https://evil" + "vercel.app" == "https://evilvercel.app"
  {
  }

  lemma EvilOriginIsClean()
    ensures Clean("https://evilvercel.app") == "https://evilvercel.app"
  {
    EvilOriginIsLower();
    EvilOriginIsStripped();
  }

  lemma EvilOriginIsLower()
    ensures LowerStr("https://evilvercel.app") == "https://evilvercel.app"
  {
    LowerOfLower("https://evilvercel.app");
  }

  lemma EvilOriginIsStripped()
    ensures Strip("https://evilvercel.app") == "https://evilvercel.app"
  {
    StripUnpadded("https://evilvercel.app");
  }

  lemma StripUnpadded(s: string)
    requires s != [] && !IsSpace(s[0]) && !IsSpace(s[|s| - 1])
    ensures Strip(s) == s
  {
  }

  /** Lower-case letters and URL punctuation are their own lower case. */
  lemma LowerOfLower(s: string)
    requires forall i :: 0 <= i < |s| ==> 'a' <= s[i] <= 'z' || s[i] == ':' || s[i] == '/' || s[i] == '.'
    ensures LowerStr(s) == s
  {
  }

  const AllowMethods := "GET, POST, OPTIONS"
  const AllowHeaders := "Content-Type, Authorization, X-API-Key"
  const MaxAge := "86400"

  /**
   * build_cors_headers with the allowed list given: a valid origin is echoed with
   * credentials allowed; otherwise the first allowed origin is named, without
   * credentials; with no allowed origins there are no CORS headers.
   */
  function BuildCorsHeaders(origin: string, allowed: seq<string>): (r: map<string, string>)
    ensures ValidateOrigin(origin, allowed) ==>
      && "Access-Control-Allow-Origin" in r && r["Access-Control-Allow-Origin"] == origin
      && "Access-Control-Allow-Credentials" in r && r["Access-Control-Allow-Credentials"] == "true"
    ensures !ValidateOrigin(origin, allowed) && allowed != [] ==>
      && "Access-Control-Allow-Origin" in r && r["Access-Control-Allow-Origin"] == allowed[0]
      && "Access-Control-Allow-Credentials" !in r
    ensures r != map[] ==>
      && "Access-Control-Allow-Methods" in r && r["Access-Control-Allow-Methods"] == AllowMethods
      && "Access-Control-Max-Age" in r && r["Access-Control-Max-Age"] == MaxAge
    ensures r == map[] <==> allowed == []
  {
    if ValidateOrigin(origin, allowed) then
      map["Access-Control-Allow-Origin" := origin,
          "Access-Control-Allow-Methods" := AllowMethods,
          "Access-Control-Allow-Headers" := AllowHeaders,
          "Access-Control-Allow-Credentials" := "true",
          "Access-Control-Max-Age" := MaxAge]
    else if allowed != [] then
      map["Access-Control-Allow-Origin" := allowed[0],
          "Access-Control-Allow-Methods" := AllowMethods,
          "Access-Control-Allow-Headers" := AllowHeaders,
          "Access-Control-Max-Age" := MaxAge]
    else map[]
  }

  // ---------------------------------------------------------------------------
  // create_telegram_safe_message

  /** The emoji, the heading and the default closing line of each kind of notice. */
  datatype Style = Style(emoji: string, heading: string, fallback: string)

  const SeeAdvisors := "\U{2705} Veja orientadores e projetos"

  function StyleOf(tipo: string): Style {
    if tipo == "extensao" then Style("\U{1F393}", "BOLSA DE EXTENSÃO", SeeAdvisors)
    else if tipo == "apoio_academico" then Style("\U{1F4DA}", "APOIO ACADÊMICO", SeeAdvisors)
    else Style("\U{1F4CB}", "NOVO EDITAL", "\U{1F4A1} Nova oportunidade disponível!")
  }

  /** The fixed text after the closing line. */
  const Footer := "\n\n\U{1F4BB} <a href=\"https://bolsasextensao.vercel.app/\">Ver todas as bolsas</a>\n\n<i>Para cancelar alertas, digite /stop</i>"

  function HeadLine(st: Style): string {
    st.emoji + " <b>" + st.heading + " UENF!</b>\n\n\U{1F4CB} "
  }

  const LinkPrefix := "\n\n\U{1F517} "
  const LinkSuffix := "Acessar Edital</a>\n\n"

  /** The opening tag of the link to the notice. */
  function Anchor(url: string): string {
    "<a href=\"" + url + "\">"
  }

  lemma ContainsMiddle(a: string, b: string, c: string)
    ensures Contains(a + b + c, b)
  {
    assert (a + b + c)[|a|..|a| + |b|] == b;
    ContainsAt(a + b + c, b, |a|);
  }

  /** Where the pieces of a message of six parts can be found in it. */
  lemma SixParts(a: string, b: string, c: string, d: string, e: string, f: string)
    ensures StartsWith(a + b + c + d + e + f, a)
    ensures Contains(a + b + c + d + e + f, c)
    ensures Contains(a + b + c + d + e + f, e)
    ensures EndsWith(a + b + c + d + e + f, f)
  {
    var r := a + b + c + d + e + f;
    assert r[..|a|] == a;
    assert r == (a + b) + c + (d + e + f);
    ContainsMiddle(a + b, c, d + e + f);
    assert r == (a + b + c + d) + e + f;
    ContainsMiddle(a + b + c + d, e, f);
    assert r[|r| - |f|..] == f;
  }

  /**
   * create_telegram_safe_message: the heading of the notice's kind, the escaped title,
   * the sanitised link inside the href, and the escaped extra line, or the kind's
   * default line when none is given.
   */
  function CreateTelegramSafeMessage(tipo: string, titulo: string, link: string, extra: string): (r: string)
    ensures StartsWith(r, HeadLine(StyleOf(tipo)) + SanitizeTelegramHtml(titulo))
    ensures Contains(r, Anchor(SanitizeUrl(link)))
    ensures extra != [] ==> Contains(r, SanitizeTelegramHtml(extra))
    ensures extra == [] ==> Contains(r, StyleOf(tipo).fallback)
    ensures EndsWith(r, Footer)
  {
    var st := StyleOf(tipo);
    var more := if extra != [] then SanitizeTelegramHtml(extra) else st.fallback;
    var pre := HeadLine(st) + SanitizeTelegramHtml(titulo);
    var anchor := Anchor(SanitizeUrl(link));
    SixParts(pre, LinkPrefix, anchor, LinkSuffix, more, Footer);
    pre + LinkPrefix + anchor + LinkSuffix + more + Footer
  }

  /**
   * Whatever the title, link and extra line hold, they reach the message without a raw
   * angle bracket or quote, so they cannot open a tag or leave the href attribute.
   */
  lemma MessageFieldsAreInert(titulo: string, link: string, extra: string)
    ensures forall i :: 0 <= i < |SanitizeTelegramHtml(titulo)| ==> Inert(SanitizeTelegramHtml(titulo)[i])
    ensures forall i :: 0 <= i < |SanitizeUrl(link)| ==> Inert(SanitizeUrl(link)[i])
    ensures forall i :: 0 <= i < |SanitizeTelegramHtml(extra)| ==> Inert(SanitizeTelegramHtml(extra)[i])
  {
  }
}
