/**
 * The comparison keys of the matching engine.
 *
 * There are two accent- and punctuation-insensitive keys. The parser's key
 * (backend/utils.py) turns hyphen, colon and parentheses into spaces before deleting
 * the remaining punctuation. The engine's key (backend/database.py) deletes them, so
 * "Bolsas-UENF" becomes "BOLSAS UENF" in one and "BOLSASUENF" in the other. The
 * project key filters the engine's key further, and there is a minimal normaliser for
 * values written to the store.
 */
module Keys {
  import opened Chars
  import opened Text
  import opened Values
  import opened Wrappers

  /** A key: single interior spaces between runs of upper-case, accent-free word characters. */
  predicate IsKey(k: string) {
    Canonical(k) && forall i :: 0 <= i < |k| ==> k[i] == ' ' || IsKeyChar(k[i])
  }

  predicate AllPlain(s: string) {
    forall i :: 0 <= i < |s| ==> IsPlain(s[i])
  }

  /** NFD decomposition followed by dropping every category-Mn character. */
  function StripAccents(s: string): (r: string)
    ensures AllPlain(r)
    ensures AllPlain(s) ==> r == s
  {
    if s == [] then []
    else
      DeaccentIsPlain(s[0]);
      Deaccent(s[0]) + StripAccents(s[1..])
  }

  lemma {:induction false} StripAccentsAppend(a: string, b: string)
    ensures StripAccents(a + b) == StripAccents(a) + StripAccents(b)
  {
    if a != [] {
      assert (a + b)[0] == a[0];
      assert (a + b)[1..] == a[1..] + b;
      StripAccentsAppend(a[1..], b);
      calc {
        StripAccents(a + b);
        Deaccent(a[0]) + StripAccents(a[1..] + b);
        Deaccent(a[0]) + (StripAccents(a[1..]) + StripAccents(b));
        (Deaccent(a[0]) + StripAccents(a[1..])) + StripAccents(b);
      }
    } else {
      assert a + b == b;
    }
  }

  predicate IsStructural(c: char) {
    c == '-' || c == ':' || c == '(' || c == ')'
  }

  /** re.sub(r'[\-:\(\)]', ' ', s) */
  function SpaceOutStructural(s: string): (r: string)
    ensures |r| == |s|
    ensures forall i :: 0 <= i < |s| ==> r[i] == if IsStructural(s[i]) then ' ' else s[i]
  {
    if s == [] then [] else [if IsStructural(s[0]) then ' ' else s[0]] + SpaceOutStructural(s[1..])
  }

  lemma SpaceOutAppend(a: string, b: string)
    ensures SpaceOutStructural(a + b) == SpaceOutStructural(a) + SpaceOutStructural(b)
  {
  }

  predicate IsWordOrSpace(c: char) {
    IsWord(c) || IsSpace(c)
  }

  /** re.sub(r'[^\w\s]', '', s) */
  function DropPunctuation(s: string): (r: string)
    ensures forall i :: 0 <= i < |r| ==> IsWordOrSpace(r[i]) && r[i] in s
    ensures (forall i :: 0 <= i < |s| ==> IsWordOrSpace(s[i])) ==> r == s
  {
    Filter(s, IsWordOrSpace)
  }

  /** Punctuation is dropped character by character: the kept characters keep their order. */
  lemma DropPunctuationOrder(a: string, b: string, c: char)
    ensures DropPunctuation(a + b) == DropPunctuation(a) + DropPunctuation(b)
    ensures DropPunctuation([c]) == if IsWordOrSpace(c) then [c] else []
  {
    FilterAppend(a, b, IsWordOrSpace);
    assert [c][1..] == [];
  }

  /** Upper-casing a string of plain characters: word characters become key characters, others are kept. */
  lemma {:induction false} UpperOfPlain(s: string)
    requires AllPlain(s)
    ensures forall i :: 0 <= i < |UpperStr(s)| ==>
      (IsWord(UpperStr(s)[i]) ==> IsKeyChar(UpperStr(s)[i])) && (!IsWord(UpperStr(s)[i]) ==> UpperStr(s)[i] in s)
  {
    if s != [] {
      UpperOfPlain(s[1..]);
      var u, rest := Upper(s[0]), UpperStr(s[1..]);
      assert UpperStr(s) == u + rest;
      if IsWord(s[0]) {
        UpperOfPlainWord(s[0]);
      } else {
        NonWordPlainIsCaseless(s[0]);
      }
      forall i | 0 <= i < |UpperStr(s)|
        ensures (IsWord(UpperStr(s)[i]) ==> IsKeyChar(UpperStr(s)[i])) && (!IsWord(UpperStr(s)[i]) ==> UpperStr(s)[i] in s)
      {
        if i >= |u| {
          assert UpperStr(s)[i] == rest[i - |u|];
        }
      }
    }
  }

  lemma {:induction false} UpperOfCaseless(s: string)
    requires forall i :: 0 <= i < |s| ==> Upper(s[i]) == [s[i]]
    ensures UpperStr(s) == s
  {
    if s != [] {
      UpperOfCaseless(s[1..]);
    }
  }

  /** A suffix of canonical text that starts at a non-space character is canonical. */
  lemma CanonicalSuffix(k: string, m: nat)
    requires Canonical(k) && m < |k| && !IsSpace(k[m])
    ensures Canonical(k[m..])
  {
    var tail := k[m..];
    forall i | 0 <= i < |tail| && IsSpace(tail[i])
      ensures tail[i] == ' ' && 0 < i < |tail| - 1 && !IsSpace(tail[i + 1])
    {
      assert tail[i] == k[m + i];
      assert i + 1 < |tail| ==> tail[i + 1] == k[m + i + 1];
    }
  }

  /** Canonical text is its own collapse, so " ".join(k.split()) == k. */
  lemma {:induction false} CollapseOfCanonical(k: string)
    requires Canonical(k)
    ensures Collapse(k) == k
    ensures k != [] ==> Words(k) != []
    decreases |k|
  {
    if k != [] {
      assert !IsSpace(k[0]);
      var n := WordLen(k);
      if n == |k| {
        assert k[..n] == k && k[n..] == [];
        assert Words(k) == [k];
      } else {
        var tail := k[n + 1..];
        assert k[n] == ' ' && n + 1 < |k| && !IsSpace(k[n + 1]);
        CanonicalSuffix(k, n + 1);
        CollapseOfCanonical(tail);
        assert k[n..] == " " + tail;
        WordsAfterBlank(" ", tail);
        assert Words(k) == [k[..n]] + Words(tail);
        SplitAtSpace(k, n);
      }
    }
  }

  lemma SplitAtSpace(k: string, n: nat)
    requires n < |k| && k[n] == ' '
    ensures k == k[..n] + " " + k[n + 1..]
  {
    var r := k[..n] + " " + k[n + 1..];
    assert |r| == |k|;
    forall i | 0 <= i < |k| ensures r[i] == k[i] {
      if i > n {
        assert r[i] == k[n + 1..][i - n - 1];
      }
    }
  }

  /** The characters of a collapsed string of key characters and whitespace make a key. */
  lemma CollapseIsKey(s: string)
    requires forall i :: 0 <= i < |s| ==> IsSpace(s[i]) || IsKeyChar(s[i])
    ensures IsKey(Collapse(s))
  {
    CollapseChars(s, IsKeyChar);
  }

  /** The characters of a key are left alone by every stage of either key function. */
  lemma KeyStagesAreIdentity(k: string)
    requires IsKey(k)
    ensures StripAccents(k) == k
    ensures SpaceOutStructural(k) == k
    ensures DropPunctuation(k) == k
    ensures UpperStr(k) == k
    ensures Collapse(k) == k
  {
    forall i | 0 <= i < |k|
      ensures IsPlain(k[i]) && Upper(k[i]) == [k[i]] && IsWordOrSpace(k[i]) && !IsStructural(k[i])
    {
      if k[i] == ' ' {
        SpaceIsPlainAndCaseless(k[i]);
      } else {
        KeyCharFacts(k[i]);
      }
    }
    assert SpaceOutStructural(k) == k;
    UpperOfCaseless(k);
    CollapseOfCanonical(k);
  }

  /** The character-wise stages of get_match_key, before whitespace is collapsed. */
  function UtilsPre(s: string): (r: string)
    ensures forall i :: 0 <= i < |r| ==> IsSpace(r[i]) || IsKeyChar(r[i])
  {
    var plain := StripAccents(s);
    var spaced := SpaceOutStructural(plain);
    var cleaned := DropPunctuation(spaced);
    assert AllPlain(cleaned) by {
      forall i | 0 <= i < |cleaned| ensures IsPlain(cleaned[i]) {
        if !IsSpace(cleaned[i]) {
          assert cleaned[i] in spaced;
        } else {
          SpaceIsPlainAndCaseless(cleaned[i]);
        }
      }
    }
    UpperOfPlain(cleaned);
    UpperStr(cleaned)
  }

  /** The stages before the collapse work character by character. */
  lemma UtilsPreAppend(a: string, b: string)
    ensures UtilsPre(a + b) == UtilsPre(a) + UtilsPre(b)
  {
    StripAccentsAppend(a, b);
    SpaceOutAppend(StripAccents(a), StripAccents(b));
    FilterAppend(SpaceOutStructural(StripAccents(a)), SpaceOutStructural(StripAccents(b)), IsWordOrSpace);
    UpperStrAppend(DropPunctuation(SpaceOutStructural(StripAccents(a))), DropPunctuation(SpaceOutStructural(StripAccents(b))));
  }

  /** backend/utils.py get_match_key on a string. */
  function UtilsKeyOf(s: string): (k: string)
    ensures IsKey(k)
  {
    CollapseIsKey(UtilsPre(s));
    Collapse(UtilsPre(s))
  }

  /** backend/utils.py get_match_key: non-strings give "". */
  function MatchKey(v: Json): (k: string)
    ensures IsKey(k)
    ensures !v.JStr? ==> k == ""
  {
    if v.JStr? then UtilsKeyOf(v.s) else ""
  }

  /** SupabaseManager._get_match_key on a string: upper-case first, then delete all punctuation. */
  function DbKeyOf(s: string): (k: string)
    ensures IsKey(k)
  {
    CollapseIsKey(DbPre(s));
    Collapse(DbPre(s))
  }

  /** The character-wise stages of the engine's key, before whitespace is collapsed. */
  function DbPre(s: string): (r: string)
    ensures forall i :: 0 <= i < |r| ==> IsSpace(r[i]) || IsKeyChar(r[i])
  {
    var plain := StripAccents(s);
    var upper := UpperStr(plain);
    UpperOfPlain(plain);
    var cleaned := DropPunctuation(upper);
    assert forall i :: 0 <= i < |cleaned| ==> IsSpace(cleaned[i]) || IsKeyChar(cleaned[i]) by {
      forall i | 0 <= i < |cleaned| ensures IsSpace(cleaned[i]) || IsKeyChar(cleaned[i]) {
        assert cleaned[i] in upper;
      }
    }
    cleaned
  }

  lemma DbPreAppend(a: string, b: string)
    ensures DbPre(a + b) == DbPre(a) + DbPre(b)
  {
    StripAccentsAppend(a, b);
    UpperStrAppend(StripAccents(a), StripAccents(b));
    FilterAppend(UpperStr(StripAccents(a)), UpperStr(StripAccents(b)), IsWordOrSpace);
  }

  /** SupabaseManager._get_match_key: non-strings give "". */
  function DbKey(v: Json): (k: string)
    ensures IsKey(k)
    ensures !v.JStr? ==> k == ""
  {
    if v.JStr? then DbKeyOf(v.s) else ""
  }

  /** Both key functions map a key to itself. */
  lemma KeysFixKeys(k: string)
    requires IsKey(k)
    ensures UtilsKeyOf(k) == k
    ensures DbKeyOf(k) == k
  {
    KeyStagesAreIdentity(k);
  }

  lemma MatchKeyIdempotent(v: Json)
    ensures MatchKey(JStr(MatchKey(v))) == MatchKey(v)
  {
    KeysFixKeys(MatchKey(v));
  }

  lemma DbKeyIdempotent(v: Json)
    ensures DbKey(JStr(DbKey(v))) == DbKey(v)
  {
    KeysFixKeys(DbKey(v));
  }

  // Local laws of the two keys. Each one says how a single character or a whitespace
  // run of the input shows in the key, whatever surrounds it.

  /** Two middle parts with the same character-wise image give the same key. */
  lemma UtilsSplice(a: string, m: string, m': string, b: string)
    requires UtilsPre(m) == UtilsPre(m')
    ensures UtilsKeyOf(a + m + b) == UtilsKeyOf(a + m' + b)
  {
    UtilsPreAppend(a, m);
    UtilsPreAppend(a + m, b);
    UtilsPreAppend(a, m');
    UtilsPreAppend(a + m', b);
  }

  lemma DbSplice(a: string, m: string, m': string, b: string)
    requires DbPre(m) == DbPre(m')
    ensures DbKeyOf(a + m + b) == DbKeyOf(a + m' + b)
  {
    DbPreAppend(a, m);
    DbPreAppend(a + m, b);
    DbPreAppend(a, m');
    DbPreAppend(a + m', b);
  }

  /** A middle part with an empty character-wise image does not change the key. */
  lemma UtilsDelete(a: string, m: string, b: string)
    requires UtilsPre(m) == []
    ensures UtilsKeyOf(a + m + b) == UtilsKeyOf(a + b)
  {
    UtilsPreAppend(a, m);
    UtilsPreAppend(a + m, b);
    UtilsPreAppend(a, b);
    assert UtilsPre(a) + [] == UtilsPre(a);
  }

  lemma DbDelete(a: string, m: string, b: string)
    requires DbPre(m) == []
    ensures DbKeyOf(a + m + b) == DbKeyOf(a + b)
  {
    DbPreAppend(a, m);
    DbPreAppend(a + m, b);
    DbPreAppend(a, b);
    assert DbPre(a) + [] == DbPre(a);
  }

  /** Whitespace passes through the character-wise stages of both keys unchanged. */
  lemma PreOfBlank(w: string)
    requires AllSpace(w)
    ensures UtilsPre(w) == w && DbPre(w) == w
  {
    forall i | 0 <= i < |w| ensures IsPlain(w[i]) && Upper(w[i]) == [w[i]] && !IsWord(w[i]) {
      SpaceIsPlainAndCaseless(w[i]);
    }
    assert StripAccents(w) == w;
    assert SpaceOutStructural(w) == w;
    UpperOfCaseless(w);
  }

  /** What the parser's character-wise stages make of one character. */
  function UtilsCharImage(c: char): string {
    var d := Deaccent(c);
    if d == [] then []
    else
      var e := if IsStructural(d[0]) then ' ' else d[0];
      if IsWordOrSpace(e) then Upper(e) else []
  }

  /** What the engine's character-wise stages make of one character. */
  function DbCharImage(c: char): string {
    var d := Deaccent(c);
    if d == [] then [] else Filter(Upper(d[0]), IsWordOrSpace)
  }

  lemma PreOfChar(c: char)
    ensures UtilsPre([c]) == UtilsCharImage(c)
    ensures DbPre([c]) == DbCharImage(c)
  {
    var d := Deaccent(c);
    assert StripAccents([c]) == d by { assert [c][1..] == []; }
    if d != [] {
      assert d == [d[0]];
      var e := if IsStructural(d[0]) then ' ' else d[0];
      assert SpaceOutStructural(d) == [e];
      assert DropPunctuation([e]) == if IsWordOrSpace(e) then [e] else [];
      assert UpperStr([e]) == Upper(e) by { assert [e][1..] == []; }
      assert UpperStr(d) == Upper(d[0]) by { assert d[1..] == []; }
    }
  }

  /** Both keys read a whitespace run in the middle as one space. */
  lemma WhitespaceLaw(a: string, w: string, b: string)
    requires w != [] && AllSpace(w)
    ensures UtilsKeyOf(a + w + b) == UtilsKeyOf(a + " " + b)
    ensures DbKeyOf(a + w + b) == DbKeyOf(a + " " + b)
  {
    PreOfBlank(w);
    PreOfBlank(" ");
    UtilsPreAppend(a, w);
    UtilsPreAppend(a + w, b);
    UtilsPreAppend(a, " ");
    UtilsPreAppend(a + " ", b);
    WordsSplitAtBlank(UtilsPre(a), w, UtilsPre(b));
    WordsSplitAtBlank(UtilsPre(a), " ", UtilsPre(b));
    DbPreAppend(a, w);
    DbPreAppend(a + w, b);
    DbPreAppend(a, " ");
    DbPreAppend(a + " ", b);
    WordsSplitAtBlank(DbPre(a), w, DbPre(b));
    WordsSplitAtBlank(DbPre(a), " ", DbPre(b));
  }

  /** Both keys ignore leading whitespace. */
  lemma LeadingBlankLaw(w: string, b: string)
    requires AllSpace(w)
    ensures UtilsKeyOf(w + b) == UtilsKeyOf(b) && DbKeyOf(w + b) == DbKeyOf(b)
  {
    PreOfBlank(w);
    UtilsPreAppend(w, b);
    WordsAfterBlank(w, UtilsPre(b));
    DbPreAppend(w, b);
    WordsAfterBlank(w, DbPre(b));
  }

  /** Both keys ignore trailing whitespace. */
  lemma TrailingBlankLaw(a: string, w: string)
    requires w != [] && AllSpace(w)
    ensures UtilsKeyOf(a + w) == UtilsKeyOf(a) && DbKeyOf(a + w) == DbKeyOf(a)
  {
    TrailingBlankWords(UtilsPre(a), w);
    TrailingBlankWords(DbPre(a), w);
    PreOfBlank(w);
    UtilsPreAppend(a, w);
    DbPreAppend(a, w);
  }

  lemma TrailingBlankWords(x: string, w: string)
    requires w != [] && AllSpace(w)
    ensures Words(x + w) == Words(x)
  {
    assert x + w == x + w + [];
    WordsSplitAtBlank(x, w, []);
    assert Words([]) == [];
    assert Words(x) + [] == Words(x);
  }

  /**
   * Hyphen, colon and parentheses: the parser's key reads them as a space, the
   * engine's key deletes them, so "Bolsas-UENF" and "Bolsas UENF" share a parser key
   * while "Bolsas-UENF" and "BolsasUENF" share an engine key.
   */
  lemma StructuralLaw(a: string, c: char, b: string)
    requires IsStructural(c)
    ensures UtilsKeyOf(a + [c] + b) == UtilsKeyOf(a + " " + b)
    ensures DbKeyOf(a + [c] + b) == DbKeyOf(a + b)
  {
    PreOfChar(c);
    StructuralImages(c);
    PreOfBlank(" ");
    UtilsSplice(a, [c], " ", b);
    DbDelete(a, [c], b);
  }

  /**
   * Other punctuation (a plain character that is neither a word character nor
   * whitespace, such as '/' or '.') is deleted by both keys, gluing its neighbours:
   * "01/2025" gives "012025".
   */
  lemma PunctuationLaw(a: string, c: char, b: string)
    requires IsPlain(c) && !IsWordOrSpace(c)
    ensures !IsStructural(c) ==> UtilsKeyOf(a + [c] + b) == UtilsKeyOf(a + b)
    ensures DbKeyOf(a + [c] + b) == DbKeyOf(a + b)
  {
    PreOfChar(c);
    NonWordPlainIsCaseless(c);
    assert Deaccent(c) == [c];
    assert Filter([c], IsWordOrSpace) == [];
    assert DbCharImage(c) == [];
    DbDelete(a, [c], b);
    if !IsStructural(c) {
      assert UtilsCharImage(c) == [];
      UtilsDelete(a, [c], b);
    }
  }

  /** Accents: a precomposed letter counts as its base letter ("EXTENSÃO" as "EXTENSAO"). */
  lemma AccentLaw(a: string, c: char, b: string)
    ensures UtilsKeyOf(a + [c] + b) == UtilsKeyOf(a + Deaccent(c) + b)
    ensures DbKeyOf(a + [c] + b) == DbKeyOf(a + Deaccent(c) + b)
  {
    assert StripAccents([c]) == Deaccent(c) by { assert [c][1..] == []; }
    DeaccentIsPlain(c);
    assert StripAccents(Deaccent(c)) == Deaccent(c);
    UtilsSplice(a, [c], Deaccent(c), b);
    DbSplice(a, [c], Deaccent(c), b);
  }

  lemma LetterImages(c: char)
    requires 'a' <= c <= 'z'
    ensures Upper(c) == [(c as int - 32) as char]
    ensures UtilsCharImage(c) == Upper(c) == UtilsCharImage((c as int - 32) as char)
    ensures DbCharImage(c) == Upper(c) == DbCharImage((c as int - 32) as char)
  {
    var u := (c as int - 32) as char;
    assert Deaccent(c) == [c] && Deaccent(u) == [u];
    assert Upper(u) == [u] && IsWordOrSpace(u) && !IsStructural(u) && !IsStructural(c);
    assert Filter([u], IsWordOrSpace) == [u];
  }

  /** Case: an ASCII lower-case letter counts as its capital. */
  lemma CaseLaw(a: string, c: char, b: string)
    requires 'a' <= c <= 'z'
    ensures UtilsKeyOf(a + [c] + b) == UtilsKeyOf(a + Upper(c) + b)
    ensures DbKeyOf(a + [c] + b) == DbKeyOf(a + Upper(c) + b)
  {
    var u := (c as int - 32) as char;
    PreOfChar(c);
    PreOfChar(u);
    LetterImages(c);
    UtilsSplice(a, [c], [u], b);
    DbSplice(a, [c], [u], b);
  }

  /** The masculine ordinal indicator U+00BA. */
  const Ordinal: char := '\U{BA}'

  /** The ordinal indicator is a word character without case or accent, so "Nº" keeps it. */
  lemma OrdinalIsKeyChar()
    ensures IsKeyChar(Ordinal)
  {
  }

  /** The empty string has the empty key. */
  lemma KeysOfEmpty()
    ensures UtilsKeyOf("") == "" && DbKeyOf("") == "" && ProjectKeyOf("") == ""
  {
    PreOfBlank("");
    assert Words("") == [];
    assert FilterTokens([], StopWords, EditalTerms) == [];
  }

  lemma ExtensaoIsKept()
    ensures KeepToken("EXTENSAO", StopWords, EditalTerms)
  {
    assert !IsPyDigit("EXTENSAO"[0]);
  }

  /** Classification of the structural characters. */
  lemma StructuralImages(c: char)
    requires IsStructural(c)
    ensures UtilsCharImage(c) == " " && DbCharImage(c) == []
  {
    assert Deaccent(c) == [c];
    assert Upper(c) == [c];
    assert !IsWordOrSpace(c);
    assert Filter([c], IsWordOrSpace) == [];
  }

  /** "EXTENSAO", the de-accented form of a listed term, survives the project key filter. */
  lemma DeaccentedExtensaoSurvives(s: string)
    requires "EXTENSAO" in Words(DbKeyOf(s))
    ensures "EXTENSAO" in Words(ProjectKeyOf(s))
  {
    var ws := Words(DbKeyOf(s));
    ExtensaoIsKept();
    var j :| 0 <= j < |ws| && ws[j] == "EXTENSAO";
    ProjectKeyTokens(s);
    assert ws[j] in FilterTokens(ws, StopWords, EditalTerms);
  }

  /** SupabaseManager._normalize_text_for_db: upper-case and collapse whitespace, keep accents. */
  function NormalizeForDb(v: Json): (r: string)
    ensures Canonical(r)
    ensures !v.JStr? ==> r == ""
    ensures v.JStr? ==> NonSpace(r) == NonSpace(UpperStr(v.s))
    ensures v.JStr? ==> Words(r) == Words(UpperStr(v.s))
  {
    if v.JStr? then
      CollapseKeepsContent(UpperStr(v.s));
      CollapseKeepsWords(UpperStr(v.s));
      Collapse(UpperStr(v.s))
    else ""
  }

  /** Every character of an upper-cased text is its own upper case. */
  lemma {:induction false} UpperStrIsUpper(s: string)
    ensures forall i :: 0 <= i < |UpperStr(s)| ==> Upper(UpperStr(s)[i]) == [UpperStr(s)[i]]
  {
    if s != [] {
      UpperStrIsUpper(s[1..]);
      var h := Upper(s[0]);
      var u := UpperStr(s);
      assert forall i :: 0 <= i < |h| ==> Upper(h[i]) == [h[i]];
      assert u == h + UpperStr(s[1..]);
      assert forall i :: |h| <= i < |u| ==> u[i] == UpperStr(s[1..])[i - |h|];
    }
  }

  /** Normalising a normalised text changes nothing. */
  lemma NormalizeForDbIdempotent(v: Json)
    ensures NormalizeForDb(JStr(NormalizeForDb(v))) == NormalizeForDb(v)
  {
    var s := if v.JStr? then v.s else "";
    var u := UpperStr(s);
    UpperStrIsUpper(s);
    CollapseChars(u, (x: char) => Upper(x) == [x]);
    UpperOfCaseless(Collapse(u));
    CollapseIdempotent(u);
    if !v.JStr? {
      CollapseOfCanonical("");
    }
  }

  // The word lists of backend/database.py, including the accented entries.
  const StopWords: set<string> := {
    "A", "O", "E", "UM", "UMA", "DE", "DO", "DA", "EM", "NO", "NA", "COM", "POR", "PARA", "SE",
    "SÃO", "AS", "OS", "DOS", "DAS", "NOS", "NAS", "PELO", "PELA", "PRA", "AO", "AOS", "QUE",
    "QUANDO", "COMO", "ONDE", "QUEM", "QUAL", "SEU", "SUA"
  }

  const EditalTerms: set<string> := {
    "EDITAL", "PROJETO", "BOLSA", "PROEX", "PIBEX", "EXTENSÃO", "PESQUISA", "SELEÇÃO",
    "BOLSISTA", "RESULTADO", "INSCRIÇÃO", "CLASSIFICAÇÃO", "CANDIDATO", "PROGRAMA", "ANO",
    "PUBLICO", "PRIVADO", "INSTITUCIONAL", "VOLUNTARIA"
  }

  /** The entries above that contain an accented letter. */
  const AccentedTerms: set<string> := {"SÃO", "EXTENSÃO", "SELEÇÃO", "INSCRIÇÃO", "CLASSIFICAÇÃO"}

  /** Python's str.isdigit: non-empty and every character a digit. */
  predicate IsDigitToken(w: string) {
    |w| > 0 && forall i :: 0 <= i < |w| ==> IsPyDigit(w[i])
  }

  predicate KeepToken(w: string, stop: set<string>, terms: set<string>) {
    w !in stop && w !in terms && !IsDigitToken(w)
  }

  /** The tokens that survive the word lists, in their original order. */
  function FilterTokens(ws: seq<string>, stop: set<string>, terms: set<string>): (r: seq<string>)
    ensures |r| <= |ws|
    ensures forall j :: 0 <= j < |r| ==> r[j] in ws && KeepToken(r[j], stop, terms)
    ensures forall j :: 0 <= j < |ws| && KeepToken(ws[j], stop, terms) ==> ws[j] in r
    ensures (forall j :: 0 <= j < |ws| ==> KeepToken(ws[j], stop, terms)) ==> r == ws
  {
    if ws == [] then []
    else (if KeepToken(ws[0], stop, terms) then [ws[0]] else []) + FilterTokens(ws[1..], stop, terms)
  }

  /**
   * The comprehension keeps order and repetition: filtering distributes over
   * concatenation, and a single token is kept exactly when it passes.
   */
  lemma {:induction false} FilterTokensOrder(a: seq<string>, b: seq<string>, w: string, stop: set<string>, terms: set<string>)
    ensures FilterTokens(a + b, stop, terms) == FilterTokens(a, stop, terms) + FilterTokens(b, stop, terms)
    ensures FilterTokens([w], stop, terms) == if KeepToken(w, stop, terms) then [w] else []
  {
    assert [w][1..] == [];
    if a == [] {
      assert a + b == b;
    } else {
      assert (a + b)[0] == a[0];
      assert (a + b)[1..] == a[1..] + b;
      FilterTokensOrder(a[1..], b, w, stop, terms);
    }
  }

  lemma GoodFilterTokens(ws: seq<string>, stop: set<string>, terms: set<string>)
    requires GoodWords(ws)
    ensures GoodWords(FilterTokens(ws, stop, terms))
  {
    var r := FilterTokens(ws, stop, terms);
    forall j | 0 <= j < |r| ensures |r[j]| > 0 && NoSpace(r[j]) {
      assert r[j] in ws;
    }
  }

  /** The tokens a project key keeps. */
  function KeptTokens(s: string): seq<string> {
    FilterTokens(Words(DbKeyOf(s)), StopWords, EditalTerms)
  }

  lemma KeptTokensAreGood(s: string)
    ensures GoodWords(KeptTokens(s))
    ensures forall j, m :: 0 <= j < |KeptTokens(s)| && 0 <= m < |KeptTokens(s)[j]| ==> IsKeyChar(KeptTokens(s)[j][m])
  {
    var ws := Words(DbKeyOf(s));
    var kept := KeptTokens(s);
    WordsAreGood(DbKeyOf(s));
    GoodFilterTokens(ws, StopWords, EditalTerms);
    WordsChars(DbKeyOf(s), IsKeyChar);
    forall j, m | 0 <= j < |kept| && 0 <= m < |kept[j]| ensures IsKeyChar(kept[j][m]) {
      assert kept[j] in ws;
    }
  }

  function ProjectKeyOf(s: string): (k: string)
    ensures IsKey(k)
  {
    KeptTokensAreGood(s);
    JoinChars(KeptTokens(s), IsKeyChar);
    JoinCanonical(KeptTokens(s));
    Join(KeptTokens(s))
  }

  /** SupabaseManager._get_project_match_key: non-strings give "". */
  function ProjectKey(v: Json): (k: string)
    ensures IsKey(k)
    ensures !v.JStr? ==> k == ""
  {
    if v.JStr? then ProjectKeyOf(v.s) else ""
  }

  /** The tokens of a project key are exactly the kept tokens of the engine's key, in order. */
  lemma ProjectKeyTokens(s: string)
    ensures Words(ProjectKeyOf(s)) == FilterTokens(Words(DbKeyOf(s)), StopWords, EditalTerms)
  {
    KeptTokensAreGood(s);
    WordsOfJoin(KeptTokens(s));
  }

  /** Every accented list entry has a character that cannot occur in a key. */
  lemma AccentedTermsHaveNonKeyChar()
    ensures forall t :: t in AccentedTerms ==> exists i :: 0 <= i < |t| && !IsKeyChar(t[i])
  {
    forall t | t in AccentedTerms ensures exists i :: 0 <= i < |t| && !IsKeyChar(t[i]) {
      if t == "SÃO" {
        assert !IsKeyChar(t[1]);
      } else if t == "EXTENSÃO" {
        assert !IsKeyChar(t[6]);
      } else if t == "SELEÇÃO" {
        assert !IsKeyChar(t[4]);
      } else if t == "INSCRIÇÃO" {
        assert !IsKeyChar(t[6]);
      } else {
        assert t == "CLASSIFICAÇÃO";
        assert !IsKeyChar(t[10]);
      }
    }
  }

  /** A key contains no accented letter, so no token of it is one of the accented list entries. */
  lemma KeyTokensAreNotAccented(k: string)
    requires IsKey(k)
    ensures forall j :: 0 <= j < |Words(k)| ==> Words(k)[j] !in AccentedTerms
  {
    WordsChars(k, IsKeyChar);
    AccentedTermsHaveNonKeyChar();
  }

  /** The accented entries of STOP_WORDS and EDITAL_TERMS never remove anything. */
  lemma AccentedTermsAreDead(s: string)
    ensures ProjectKeyOf(s) == Join(FilterTokens(Words(DbKeyOf(s)), StopWords - AccentedTerms, EditalTerms - AccentedTerms))
  {
    var ws := Words(DbKeyOf(s));
    KeyTokensAreNotAccented(DbKeyOf(s));
    SameFilter(ws, StopWords, EditalTerms, StopWords - AccentedTerms, EditalTerms - AccentedTerms);
  }

  lemma {:induction false} SameFilter(ws: seq<string>, s1: set<string>, t1: set<string>, s2: set<string>, t2: set<string>)
    requires forall j :: 0 <= j < |ws| ==> (KeepToken(ws[j], s1, t1) <==> KeepToken(ws[j], s2, t2))
    ensures FilterTokens(ws, s1, t1) == FilterTokens(ws, s2, t2)
  {
    if ws != [] {
      SameFilter(ws[1..], s1, t1, s2, t2);
    }
  }

  /** A project key is a fixed point of the project key function. */
  lemma ProjectKeyIdempotent(s: string)
    ensures ProjectKeyOf(ProjectKeyOf(s)) == ProjectKeyOf(s)
  {
    var pk := ProjectKeyOf(s);
    KeysFixKeys(pk);
    ProjectKeyTokens(s);
    var kept := Words(pk);
    assert forall j :: 0 <= j < |kept| ==> KeepToken(kept[j], StopWords, EditalTerms);
    assert FilterTokens(kept, StopWords, EditalTerms) == kept;
    CollapseOfCanonical(pk);
    calc {
      ProjectKeyOf(pk);
      Join(FilterTokens(Words(DbKeyOf(pk)), StopWords, EditalTerms));
      Join(FilterTokens(kept, StopWords, EditalTerms));
      Join(kept);
      pk;
    }
  }

  /** SupabaseManager._normalize_perfil: falsy values give None, others str().strip().zfill(2). */
  function NormalizePerfil(v: Json): (r: Option<string>)
    ensures r.None? <==> !Truthy(v)
    ensures r.Some? ==> |r.value| >= 2
    ensures var t := Strip(PyStr(v));
      && (r.Some? && |t| >= 2 ==> r.value == t)
      && (r.Some? && |t| == 1 && t[0] != '+' && t[0] != '-' ==> r.value == "0" + t)
      && (r.Some? && |t| == 1 && (t[0] == '+' || t[0] == '-') ==> r.value == t + "0")
      && (r.Some? && t == [] ==> r.value == "00")
  {
    if Truthy(v) then
      var t := Strip(PyStr(v));
      var z := ZFill(t, 2);
      assert |t| == 1 && t[0] != '+' && t[0] != '-' ==> z == [z[0]] + z[1..] == "0" + t;
      assert |t| == 1 && (t[0] == '+' || t[0] == '-') ==> z == [z[0]] + z[1..] == t + "0";
      Some(z)
    else None
  }

  /** A normalised perfil is normalised again to itself: zfill(2) leaves a stripped text padded. */
  lemma NormalizePerfilIdempotent(v: Json)
    requires Truthy(v)
    ensures NormalizePerfil(JStr(NormalizePerfil(v).value)) == NormalizePerfil(v)
  {
    var t := Strip(PyStr(v));
    var z := NormalizePerfil(v).value;
    assert !IsSpace('0');
    if |t| < 2 {
      assert z[0] != ' ' ==> !IsSpace(z[0]);
      assert !IsSpace(z[|z| - 1]);
    }
    assert !IsSpace(z[0]) && !IsSpace(z[|z| - 1]);
  }

  /** The perfil 1, as a number or as text, is stored as "01". */
  lemma PerfilOneIsPadded()
    ensures NormalizePerfil(JInt(1)) == Some("01") && NormalizePerfil(JStr("1")) == Some("01")
  {
    assert IntToString(1) == "1";
    assert !IsSpace('1');
    assert Strip("1") == "1";
    assert ZFill("1", 2) == "01";
    assert NormalizePerfil(JStr("1")) == Some("01");
  }
}
