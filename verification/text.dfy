/**
 * String operations of the Python and JavaScript standard libraries that the system
 * relies on: str.split() / " ".join(...), strip, substring tests, replace, zfill,
 * integer printing, and character-wise mapping and filtering.
 */
module Text {
  import opened Chars
  import opened Wrappers

  predicate NoSpace(w: string) {
    forall i :: 0 <= i < |w| ==> !IsSpace(w[i])
  }

  /** What str.split() produces: non-empty tokens without whitespace. */
  predicate GoodWords(ws: seq<string>) {
    forall j :: 0 <= j < |ws| ==> |ws[j]| > 0 && NoSpace(ws[j])
  }

  /** The number of leading whitespace characters. */
  function SpaceRun(s: string): (n: nat)
    ensures n <= |s|
    ensures forall i :: 0 <= i < n ==> IsSpace(s[i])
    ensures n == |s| || !IsSpace(s[n])
  {
    if s == [] || !IsSpace(s[0]) then 0 else 1 + SpaceRun(s[1..])
  }

  /** Leading whitespace removed (str.lstrip()). */
  function DropSpaces(s: string): (r: string)
    ensures r == [] || !IsSpace(r[0])
  {
    s[SpaceRun(s)..]
  }

  /** The length of the longest prefix without whitespace. */
  function WordLen(s: string): (n: nat)
    ensures n <= |s|
    ensures forall i :: 0 <= i < n ==> !IsSpace(s[i])
    ensures n == |s| || IsSpace(s[n])
  {
    if s == [] || IsSpace(s[0]) then 0 else 1 + WordLen(s[1..])
  }

  /** Python's str.split() with no separator. */
  function Words(s: string): seq<string>
  {
    if s == [] then []
    else if IsSpace(s[0]) then Words(s[1..])
    else
      var n := WordLen(s);
      [s[..n]] + Words(s[n..])
  }

  /** The tokens are non-empty and hold no whitespace. */
  lemma {:induction false} WordsAreGood(s: string)
    ensures GoodWords(Words(s))
  {
    if s != [] {
      if IsSpace(s[0]) {
        WordsAreGood(s[1..]);
      } else {
        var n := WordLen(s);
        WordsAreGood(s[n..]);
        assert Words(s) == [s[..n]] + Words(s[n..]);
      }
    }
  }

  /** Every character of a token of s.split() is a non-space character of s. */
  lemma {:induction false} WordsChars(s: string, p: char -> bool)
    requires forall i :: 0 <= i < |s| && !IsSpace(s[i]) ==> p(s[i])
    ensures forall j, k :: 0 <= j < |Words(s)| && 0 <= k < |Words(s)[j]| ==> p(Words(s)[j][k])
  {
    if s != [] {
      if IsSpace(s[0]) {
        assert forall i :: 0 <= i < |s[1..]| ==> s[1..][i] == s[i + 1];
        WordsChars(s[1..], p);
      } else {
        var n := WordLen(s);
        var rest := s[n..];
        assert forall i :: 0 <= i < |rest| ==> rest[i] == s[n + i];
        WordsChars(rest, p);
        var ws := Words(s);
        assert ws == [s[..n]] + Words(rest);
        forall j, k | 0 <= j < |ws| && 0 <= k < |ws[j]|
          ensures p(ws[j][k])
        {
          if j == 0 {
            assert ws[0][k] == s[k];
          } else {
            assert ws[j] == Words(rest)[j - 1];
          }
        }
      }
    }
  }

  /** " ".join(ws). */
  function Join(ws: seq<string>): string {
    if ws == [] then ""
    else if |ws| == 1 then ws[0]
    else ws[0] + " " + Join(ws[1..])
  }

  /** A string in which every whitespace character is a single interior ' '. */
  predicate Canonical(k: string) {
    forall i :: 0 <= i < |k| && IsSpace(k[i]) ==> k[i] == ' ' && 0 < i < |k| - 1 && !IsSpace(k[i + 1])
  }

  /** The characters of s other than whitespace, in order. */
  function NonSpace(s: string): string {
    if s == [] then [] else (if IsSpace(s[0]) then [] else [s[0]]) + NonSpace(s[1..])
  }

  function Concat(ws: seq<string>): string {
    if ws == [] then [] else ws[0] + Concat(ws[1..])
  }

  /** A token, one space and canonical text that starts with a token make canonical text. */
  lemma CanonicalGlue(w: string, j: string)
    requires w != [] && NoSpace(w)
    requires Canonical(j) && j != [] && !IsSpace(j[0])
    ensures Canonical(w + " " + j)
  {
    var k := w + " " + j;
    assert forall i :: 0 <= i < |w| ==> k[i] == w[i];
    forall i | 0 <= i < |k| && IsSpace(k[i])
      ensures k[i] == ' ' && 0 < i < |k| - 1 && !IsSpace(k[i + 1])
    {
      if i > |w| {
        assert k[i] == j[i - |w| - 1];
        if i + 1 < |k| {
          assert k[i + 1] == j[i - |w|];
        }
      } else if i == |w| {
        assert k[i + 1] == j[0];
      }
    }
  }

  lemma {:induction false} JoinCanonical(ws: seq<string>)
    requires GoodWords(ws)
    ensures Canonical(Join(ws))
    ensures |ws| > 0 ==> Join(ws) != [] && !IsSpace(Join(ws)[0])
  {
    if |ws| == 1 {
      assert Join(ws) == ws[0];
    } else if |ws| > 1 {
      JoinCanonical(ws[1..]);
      var w, j := ws[0], Join(ws[1..]);
      assert Join(ws) == w + " " + j;
      CanonicalGlue(w, j);
      assert Join(ws)[0] == w[0];
    }
  }

  lemma WordLenOfJoin(w: string, rest: string)
    requires NoSpace(w)
    requires rest == [] || IsSpace(rest[0])
    ensures WordLen(w + rest) == |w|
  {
    if w != [] {
      assert (w + rest)[1..] == w[1..] + rest;
      WordLenOfJoin(w[1..], rest);
    } else {
      assert w + rest == rest;
    }
  }

  /** Leading whitespace does not change the tokens. */
  lemma {:induction false} WordsAfterBlank(b: string, rest: string)
    requires forall i :: 0 <= i < |b| ==> IsSpace(b[i])
    ensures Words(b + rest) == Words(rest)
  {
    if b != [] {
      assert (b + rest)[0] == b[0];
      assert (b + rest)[1..] == b[1..] + rest;
      WordsAfterBlank(b[1..], rest);
    } else {
      assert b + rest == rest;
    }
  }

  /** A leading token followed by whitespace (or nothing) is the first token. */
  lemma WordsAfterWord(w: string, rest: string)
    requires w != [] && NoSpace(w)
    requires rest == [] || IsSpace(rest[0])
    ensures Words(w + rest) == [w] + Words(rest)
  {
    WordLenOfJoin(w, rest);
    assert (w + rest)[0] == w[0];
    assert (w + rest)[..|w|] == w;
    assert (w + rest)[|w|..] == rest;
  }

  lemma WordsOfGlue(w: string, j: string)
    requires w != [] && NoSpace(w)
    ensures Words(w + " " + j) == [w] + Words(j)
  {
    assert w + " " + j == w + (" " + j);
    WordsAfterWord(w, " " + j);
    WordsAfterBlank(" ", j);
  }

  lemma {:induction false} WordsOfJoin(ws: seq<string>)
    requires GoodWords(ws)
    ensures Words(Join(ws)) == ws
  {
    if |ws| == 1 {
      assert ws[0] + [] == ws[0];
      WordsAfterWord(ws[0], []);
    } else if |ws| > 1 {
      assert Join(ws) == ws[0] + " " + Join(ws[1..]);
      WordsOfGlue(ws[0], Join(ws[1..]));
      WordsOfJoin(ws[1..]);
      assert ws == [ws[0]] + ws[1..];
    }
  }

  predicate AllSpace(s: string) {
    forall i :: 0 <= i < |s| ==> IsSpace(s[i])
  }

  /** Splitting just before whitespace: the tokens on each side, concatenated. */
  lemma {:induction false} WordsSplit(x: string, z: string)
    requires z != [] && IsSpace(z[0])
    ensures Words(x + z) == Words(x) + Words(z)
    decreases |x|, 1
  {
    if x == [] {
      assert x + z == z;
    } else if IsSpace(x[0]) {
      WordsSplitSpace(x, z);
    } else {
      WordsSplitWord(x, z);
    }
  }

  lemma {:induction false} WordsSplitSpace(x: string, z: string)
    requires z != [] && IsSpace(z[0])
    requires x != [] && IsSpace(x[0])
    ensures Words(x + z) == Words(x) + Words(z)
    decreases |x|, 0
  {
    WordsSplit(x[1..], z);
    SplitAfterSpace(x, z);
  }

  lemma {:induction false} WordsSplitWord(x: string, z: string)
    requires z != [] && IsSpace(z[0])
    requires x != [] && !IsSpace(x[0])
    ensures Words(x + z) == Words(x) + Words(z)
    decreases |x|, 0
  {
    var n := WordLen(x);
    if n == |x| {
      WordsSplitLastWord(x, z);
    } else {
      WordsSplit(x[n..], z);
      SplitAfterWord(x, n, z);
      ConcatAssoc([x[..n]], Words(x[n..]), Words(z));
    }
  }

  lemma ConcatAssoc(u: seq<string>, a: seq<string>, b: seq<string>)
    ensures u + (a + b) == (u + a) + b
  {
  }

  lemma WordsSplitLastWord(x: string, z: string)
    requires z != [] && IsSpace(z[0])
    requires x != [] && NoSpace(x)
    ensures Words(x + z) == Words(x) + Words(z)
  {
    WordsAfterWord(x, z);
    assert x + [] == x;
    WordsAfterWord(x, []);
  }

  /** Splitting at a whitespace run: the tokens on each side, concatenated. */
  lemma WordsSplitAtBlank(x: string, w: string, y: string)
    requires w != [] && AllSpace(w)
    ensures Words(x + w + y) == Words(x) + Words(y)
  {
    assert x + w + y == x + (w + y);
    WordsSplit(x, w + y);
    WordsAfterBlank(w, y);
  }

  lemma SplitAfterSpace(x: string, z: string)
    requires x != [] && IsSpace(x[0])
    ensures Words(x + z) == Words(x[1..] + z) && Words(x) == Words(x[1..])
  {
    assert x + z == [x[0]] + (x[1..] + z);
    WordsAfterBlank([x[0]], x[1..] + z);
    assert x == [x[0]] + x[1..];
    WordsAfterBlank([x[0]], x[1..]);
  }

  lemma SplitAfterWord(x: string, n: nat, z: string)
    requires x != [] && !IsSpace(x[0]) && n == WordLen(x) && n < |x|
    ensures Words(x + z) == [x[..n]] + Words(x[n..] + z)
    ensures Words(x) == [x[..n]] + Words(x[n..])
  {
    var u, rest := x[..n], x[n..];
    assert x == u + rest;
    assert x + z == u + (rest + z);
    WordsAfterWord(u, rest + z);
    WordsAfterWord(u, rest);
  }

  /** " ".join(s.split()): whitespace runs collapsed to one space, ends trimmed. */
  function Collapse(s: string): (r: string)
    ensures Canonical(r)
  {
    WordsAreGood(s);
    JoinCanonical(Words(s));
    Join(Words(s))
  }

  /** Collapsing whitespace keeps the tokens of s.split(), so the word breaks stay where they were. */
  lemma CollapseKeepsWords(s: string)
    ensures Words(Collapse(s)) == Words(s)
  {
    WordsAreGood(s);
    WordsOfJoin(Words(s));
  }

  lemma CollapseIdempotent(s: string)
    ensures Collapse(Collapse(s)) == Collapse(s)
  {
    WordsAreGood(s);
    WordsOfJoin(Words(s));
  }

  lemma CollapseOfJoin(ws: seq<string>)
    requires GoodWords(ws)
    ensures Collapse(Join(ws)) == Join(ws)
  {
    WordsOfJoin(ws);
  }

  lemma NonSpaceAppend(a: string, b: string)
    ensures NonSpace(a + b) == NonSpace(a) + NonSpace(b)
  {
    if a != [] {
      assert (a + b)[0] == a[0];
      assert (a + b)[1..] == a[1..] + b;
      NonSpaceAppend(a[1..], b);
      var h := if IsSpace(a[0]) then [] else [a[0]];
      calc {
        NonSpace(a + b);
        h + NonSpace(a[1..] + b);
        h + (NonSpace(a[1..]) + NonSpace(b));
        (h + NonSpace(a[1..])) + NonSpace(b);
      }
    } else {
      assert a + b == b;
    }
  }

  lemma NonSpaceOfWord(w: string)
    requires NoSpace(w)
    ensures NonSpace(w) == w
  {
    if w != [] {
      NonSpaceOfWord(w[1..]);
    }
  }

  lemma {:induction false} NonSpaceOfJoin(ws: seq<string>)
    requires GoodWords(ws)
    ensures NonSpace(Join(ws)) == Concat(ws)
  {
    if ws == [] {
    } else if |ws| == 1 {
      NonSpaceOfWord(ws[0]);
      assert Concat(ws[1..]) == [];
    } else {
      NonSpaceOfJoin(ws[1..]);
      NonSpaceAppend(ws[0] + " ", Join(ws[1..]));
      NonSpaceAppend(ws[0], " ");
      NonSpaceOfWord(ws[0]);
      assert NonSpace(" ") == [];
    }
  }

  lemma {:induction false} NonSpaceOfWords(s: string)
    ensures Concat(Words(s)) == NonSpace(s)
  {
    if s != [] {
      if IsSpace(s[0]) {
        NonSpaceOfWords(s[1..]);
      } else {
        var n := WordLen(s);
        var w, rest := s[..n], s[n..];
        NonSpaceOfWords(rest);
        calc {
          Concat(Words(s));
          { assert Words(s) == [w] + Words(rest); }
          w + Concat(Words(rest));
          w + NonSpace(rest);
          { NonSpaceOfWord(w); }
          NonSpace(w) + NonSpace(rest);
          { assert s == w + rest; NonSpaceAppend(w, rest); }
          NonSpace(s);
        }
      }
    }
  }

  /** Collapsing whitespace keeps every other character, in order. */
  lemma CollapseKeepsContent(s: string)
    ensures NonSpace(Collapse(s)) == NonSpace(s)
  {
    WordsAreGood(s);
    NonSpaceOfJoin(Words(s));
    NonSpaceOfWords(s);
  }

  lemma JoinChars(ws: seq<string>, p: char -> bool)
    requires forall j, k :: 0 <= j < |ws| && 0 <= k < |ws[j]| ==> p(ws[j][k])
    ensures forall i :: 0 <= i < |Join(ws)| ==> Join(ws)[i] == ' ' || p(Join(ws)[i])
  {
    if |ws| > 1 {
      JoinChars(ws[1..], p);
      var w, j := ws[0], Join(ws[1..]);
      assert Join(ws) == w + " " + j;
      forall i | 0 <= i < |Join(ws)|
        ensures Join(ws)[i] == ' ' || p(Join(ws)[i])
      {
        if i < |w| {
          assert Join(ws)[i] == ws[0][i];
        } else if i > |w| {
          assert Join(ws)[i] == j[i - |w| - 1];
        }
      }
    }
  }

  /** Every character of " ".join(s.split()) is a space or a non-space character of s. */
  lemma CollapseChars(s: string, p: char -> bool)
    requires forall i :: 0 <= i < |s| && !IsSpace(s[i]) ==> p(s[i])
    ensures forall i :: 0 <= i < |Collapse(s)| ==> Collapse(s)[i] == ' ' || p(Collapse(s)[i])
  {
    WordsChars(s, p);
    JoinChars(Words(s), p);
  }

  /** Python's str.strip() with no argument. */
  function Strip(s: string): (r: string)
    ensures |r| <= |s|
    ensures r == [] || (!IsSpace(r[0]) && !IsSpace(r[|r| - 1]))
    ensures r == [] <==> forall i :: 0 <= i < |s| ==> IsSpace(s[i])
    ensures (s == [] || (!IsSpace(s[0]) && !IsSpace(s[|s| - 1]))) ==> r == s
  {
    DropTrailing(DropSpaces(s))
  }

  function DropTrailing(s: string): (r: string)
    ensures |r| <= |s| && r == s[..|r|]
    ensures r == [] || !IsSpace(r[|r| - 1])
    ensures s != [] && !IsSpace(s[0]) ==> r != []
    ensures s != [] && !IsSpace(s[|s| - 1]) ==> r == s
  {
    if s == [] || !IsSpace(s[|s| - 1]) then s else DropTrailing(s[..|s| - 1])
  }

  /** Python's s.lower() / JavaScript's s.toLowerCase(), which keep the length. */
  function LowerStr(s: string): (r: string)
    ensures |r| == |s|
    ensures forall i :: 0 <= i < |s| ==> r[i] == Lower(s[i])
  {
    if s == [] then [] else [Lower(s[0])] + LowerStr(s[1..])
  }

  /** Lower-casing twice is lower-casing once. */
  lemma LowerStrIdempotent(s: string)
    ensures LowerStr(LowerStr(s)) == LowerStr(s)
  {
    var l := LowerStr(s);
    assert forall i :: 0 <= i < |s| ==> LowerStr(l)[i] == Lower(Lower(s[i])) == Lower(s[i]);
  }

  /** Python's s.upper() / JavaScript's s.toUpperCase(), which may lengthen (ß -> SS). */
  function UpperStr(s: string): string {
    if s == [] then [] else Upper(s[0]) + UpperStr(s[1..])
  }

  lemma UpperStrAppend(a: string, b: string)
    ensures UpperStr(a + b) == UpperStr(a) + UpperStr(b)
  {
    if a != [] {
      assert (a + b)[0] == a[0];
      assert (a + b)[1..] == a[1..] + b;
      UpperStrAppend(a[1..], b);
      calc {
        UpperStr(a + b);
        Upper(a[0]) + UpperStr(a[1..] + b);
        Upper(a[0]) + (UpperStr(a[1..]) + UpperStr(b));
        (Upper(a[0]) + UpperStr(a[1..])) + UpperStr(b);
      }
    } else {
      assert a + b == b;
    }
  }

  /** The characters of s that satisfy p, in order. */
  function Filter(s: string, p: char -> bool): (r: string)
    ensures |r| <= |s|
    ensures forall i :: 0 <= i < |r| ==> p(r[i]) && r[i] in s
    ensures (forall i :: 0 <= i < |s| ==> p(s[i])) ==> r == s
  {
    if s == [] then []
    else (if p(s[0]) then [s[0]] else []) + Filter(s[1..], p)
  }

  lemma FilterAppend(a: string, b: string, p: char -> bool)
    ensures Filter(a + b, p) == Filter(a, p) + Filter(b, p)
  {
    if a != [] {
      assert (a + b)[0] == a[0];
      assert (a + b)[1..] == a[1..] + b;
      FilterAppend(a[1..], b, p);
      var h := if p(a[0]) then [a[0]] else [];
      calc {
        Filter(a + b, p);
        h + Filter(a[1..] + b, p);
        h + (Filter(a[1..], p) + Filter(b, p));
        (h + Filter(a[1..], p)) + Filter(b, p);
      }
    } else {
      assert a + b == b;
    }
  }

  predicate StartsWith(s: string, p: string) {
    |p| <= |s| && s[..|p|] == p
  }

  predicate EndsWith(s: string, p: string) {
    |p| <= |s| && s[|s| - |p|..] == p
  }

  /** A string that differs from a prefix candidate at a position inside both does not start with it. */
  lemma DiffersAt(path: string, key: string, i: nat)
    requires i < |path| && i < |key| && path[i] != key[i]
    ensures !StartsWith(path, key)
  {
    if |key| <= |path| {
      assert path[..|key|][i] == path[i];
    }
  }

  /** A string that agrees with a prefix candidate on its length starts with it. */
  lemma AgreesOn(path: string, key: string)
    requires |key| <= |path| && forall i :: 0 <= i < |key| ==> path[i] == key[i]
    ensures StartsWith(path, key)
  {
    assert path[..|key|] == key;
  }

  /** Python's `pat in s`; the empty pattern occurs in every string. */
  predicate Contains(s: string, pat: string)
    decreases |s|
  {
    StartsWith(s, pat) || (s != [] && Contains(s[1..], pat))
  }

  lemma ContainsAt(s: string, pat: string, i: nat)
    requires i + |pat| <= |s| && s[i..i + |pat|] == pat
    ensures Contains(s, pat)
    decreases i
  {
    if i > 0 {
      assert s[1..][i - 1..i - 1 + |pat|] == pat;
      ContainsAt(s[1..], pat, i - 1);
    }
  }

  predicate ContainsAny(s: string, pats: seq<string>) {
    exists j :: 0 <= j < |pats| && Contains(s, pats[j])
  }

  /** Python's s.replace(pat, rep): left to right, non-overlapping. */
  function ReplaceAll(s: string, pat: string, rep: string): string
    requires |pat| > 0
    decreases |s|
  {
    if |s| < |pat| then s
    else if s[..|pat|] == pat then rep + ReplaceAll(s[|pat|..], pat, rep)
    else [s[0]] + ReplaceAll(s[1..], pat, rep)
  }

  /** A text that does not start like the pattern keeps its first character. */
  lemma ReplaceAllHead(s: string, pat: string, rep: string)
    requires |pat| > 0 && s != [] && s[0] != pat[0]
    ensures ReplaceAll(s, pat, rep) != [] && ReplaceAll(s, pat, rep)[0] == s[0]
  {
    if |s| >= |pat| {
      assert s[..|pat|][0] != pat[0];
    }
  }

  /** A text that starts with a non-space character has a first token that starts with it. */
  lemma WordsHead(s: string)
    requires s != [] && !IsSpace(s[0])
    ensures Words(s) != [] && Words(s)[0] != [] && Words(s)[0][0] == s[0]
  {
    assert WordLen(s) >= 1;
  }

  /** The first position of c in s. */
  function FindChar(s: string, c: char): (r: Option<nat>)
    ensures r.Some? ==> r.value < |s| && s[r.value] == c && forall j :: 0 <= j < r.value ==> s[j] != c
    ensures r.None? ==> forall j :: 0 <= j < |s| ==> s[j] != c
  {
    if s == [] then None
    else if s[0] == c then Some(0)
    else
      match FindChar(s[1..], c)
      case None => None
      case Some(i) => Some(i + 1)
  }

  function Repeat(c: char, n: nat): (r: string)
    ensures |r| == n && forall i :: 0 <= i < n ==> r[i] == c
  {
    if n == 0 then [] else [c] + Repeat(c, n - 1)
  }

  /** Python's s.zfill(width): zeros inserted after an optional sign. */
  function ZFill(s: string, width: nat): (r: string)
    ensures |r| == if |s| >= width then |s| else width
    ensures |s| >= width ==> r == s
    ensures |s| < width && (s == [] || (s[0] != '+' && s[0] != '-')) ==>
      r[width - |s|..] == s && forall i :: 0 <= i < width - |s| ==> r[i] == '0'
    ensures |s| < width && s != [] && (s[0] == '+' || s[0] == '-') ==>
      r[0] == s[0] && r[width - |s| + 1..] == s[1..] && forall i :: 1 <= i <= width - |s| ==> r[i] == '0'
  {
    if |s| >= width then s
    else if s != [] && (s[0] == '+' || s[0] == '-') then [s[0]] + Repeat('0', width - |s|) + s[1..]
    else Repeat('0', width - |s|) + s
  }

  function DigitChar(d: nat): (c: char)
    requires d < 10
    ensures IsAsciiDigit(c)
  {
    ('0' as int + d) as char
  }

  function NatToString(n: nat): (r: string)
    ensures |r| > 0 && forall i :: 0 <= i < |r| ==> IsAsciiDigit(r[i])
  {
    if n < 10 then [DigitChar(n)] else NatToString(n / 10) + [DigitChar(n % 10)]
  }

  /** Python's str(int) / JavaScript's template interpolation of an integer. */
  function IntToString(i: int): string {
    if i < 0 then "-" + NatToString(-i) else NatToString(i)
  }
}
