/**
 * The frontend's display casing of project titles and person names: lower-case the
 * text, split it on single spaces (empty segments included), recase each segment and
 * join again with single spaces.
 */
module Formatters {
  import opened Chars
  import opened Text
  import opened Wrappers

  predicate IsAscii(c: char) {
    c < '\U{80}'
  }

  predicate AllAscii(s: string) {
    forall i :: 0 <= i < |s| ==> IsAscii(s[i])
  }

  /** No character of w is c. */
  predicate Free(w: string, c: char) {
    forall i :: 0 <= i < |w| ==> w[i] != c
  }

  /** Lower-case ASCII: every character is ASCII and its own lower case. */
  predicate LowerAscii(w: string) {
    forall i :: 0 <= i < |w| ==> IsAscii(w[i]) && Lower(w[i]) == w[i]
  }

  // ---------------------------------------------------------------------------
  // JavaScript's s.split(c) for a one-character separator, and its inverse join

  /** s.split(c): the maximal runs between separators, empty runs included. */
  function SplitOn(s: string, c: char): (r: seq<string>)
    ensures |r| >= 1
    ensures forall k :: 0 <= k < |r| ==> Free(r[k], c)
    ensures forall k, x :: 0 <= k < |r| && x in r[k] ==> x in s
    decreases |s|
  {
    match FindChar(s, c)
    case None => [s]
    case Some(i) =>
      var rest := SplitOn(s[i + 1..], c);
      assert forall x :: x in s[..i] ==> x in s;
      assert forall x :: x in s[i + 1..] ==> x in s;
      assert forall k :: 1 <= k < |[s[..i]] + rest| ==> ([s[..i]] + rest)[k] == rest[k - 1];
      [s[..i]] + rest
  }

  /** Joining the segments with spaces gives the text back. */
  lemma {:induction false} JoinSplit(s: string)
    ensures Join(SplitOn(s, ' ')) == s
    decreases |s|
  {
    match FindChar(s, ' ')
    case None =>
    case Some(i) =>
      var rest := SplitOn(s[i + 1..], ' ');
      JoinSplit(s[i + 1..]);
      assert SplitOn(s, ' ') == [s[..i]] + rest;
      assert ([s[..i]] + rest)[1..] == rest;
      assert s == s[..i] + " " + s[i + 1..];
  }

  /** The first separator of a + [c] + b is the one after a, when a has none. */
  lemma FindAfter(a: string, b: string, c: char)
    requires Free(a, c)
    ensures FindChar(a + [c] + b, c) == Some(|a|)
  {
    var s := a + [c] + b;
    assert s[|a|] == c;
    assert forall j :: 0 <= j < |a| ==> s[j] == a[j];
  }

  /** A separator-free head followed by the separator splits off as the first segment. */
  lemma SplitCons(a: string, b: string, c: char)
    requires Free(a, c)
    ensures SplitOn(a + [c] + b, c) == [a] + SplitOn(b, c)
  {
    FindAfter(a, b, c);
    var s := a + [c] + b;
    assert s[..|a|] == a;
    assert s[|a| + 1..] == b;
  }

  /** Splitting space-joined, space-free segments gives the segments back. */
  lemma {:induction false} SplitJoin(ws: seq<string>)
    requires |ws| >= 1 && forall k :: 0 <= k < |ws| ==> Free(ws[k], ' ')
    ensures SplitOn(Join(ws), ' ') == ws
  {
    if |ws| == 1 {
      assert Join(ws) == ws[0];
    } else {
      var tail := Join(ws[1..]);
      assert Join(ws) == ws[0] + [' '] + tail;
      SplitCons(ws[0], tail, ' ');
      SplitJoin(ws[1..]);
      assert ws == [ws[0]] + ws[1..];
    }
  }

  /** [f(w) for w in ws] */
  function MapWords(f: string -> string, ws: seq<string>): (r: seq<string>)
    ensures |r| == |ws| && forall k :: 0 <= k < |ws| ==> r[k] == f(ws[k])
  {
    if ws == [] then [] else [f(ws[0])] + MapWords(f, ws[1..])
  }

  // ---------------------------------------------------------------------------
  // The two formatters

  /** word.charAt(0).toUpperCase() + word.slice(1); the empty word stays empty. */
  function Capitalize(w: string): (r: string)
    ensures w == [] <==> r == []
    ensures w != [] ==> |r| == |Upper(w[0])| + |w| - 1
    ensures w != [] ==> r[..|Upper(w[0])|] == Upper(w[0]) && r[|Upper(w[0])|..] == w[1..]
  {
    if w == [] then [] else Upper(w[0]) + w[1..]
  }

  /** The text lower-cased, split on spaces, each segment recased by f, joined again. */
  function FormatWords(s: string, f: string -> string): string {
    if s == [] then [] else Join(MapWords(f, SplitOn(LowerStr(s), ' ')))
  }

  /** formatProjectTitle */
  function FormatProjectTitle(title: string): (r: string)
    ensures title == [] ==> r == []
    ensures title != [] ==> SplitOn(r, ' ') == MapWords(Capitalize, SplitOn(LowerStr(title), ' '))
  {
    CapitalizeKeepsSpaces();
    assert title != [] ==> SplitOn(FormatWords(title, Capitalize), ' ') == MapWords(Capitalize, SplitOn(LowerStr(title), ' ')) by {
      if title != [] {
        SegmentsOfFormat(title, Capitalize);
      }
    }
    FormatWords(title, Capitalize)
  }

  /** The particles formatPersonName leaves in lower case. */
  const Particles: seq<string> := ["de", "da", "do", "dos", "das"]

  function PersonWord(w: string): string {
    if w in Particles then w else Capitalize(w)
  }

  /** formatPersonName */
  function FormatPersonName(name: string): (r: string)
    ensures name == [] ==> r == []
    ensures name != [] ==> SplitOn(r, ' ') == MapWords(PersonWord, SplitOn(LowerStr(name), ' '))
  {
    PersonWordKeepsSpaces();
    assert name != [] ==> SplitOn(FormatWords(name, PersonWord), ' ') == MapWords(PersonWord, SplitOn(LowerStr(name), ' ')) by {
      if name != [] {
        SegmentsOfFormat(name, PersonWord);
      }
    }
    FormatWords(name, PersonWord)
  }

  // ---------------------------------------------------------------------------
  // Laws of the shared shape, for any segment recasing f

  /** f introduces no space into a space-free segment. */
  ghost predicate KeepsSpaces(f: string -> string) {
    forall w :: Free(w, ' ') ==> Free(f(w), ' ')
  }

  /** Lower-casing f's result gives back any lower-case ASCII, space-free segment. */
  ghost predicate Recases(f: string -> string) {
    forall w :: Free(w, ' ') && LowerAscii(w) ==> LowerStr(f(w)) == w
  }

  /** The result splits back into the recased segments, so the segment count is kept. */
  lemma SegmentsOfFormat(s: string, f: string -> string)
    requires s != [] && KeepsSpaces(f)
    ensures SplitOn(FormatWords(s, f), ' ') == MapWords(f, SplitOn(LowerStr(s), ' '))
  {
    var segs := MapWords(f, SplitOn(LowerStr(s), ' '));
    SplitJoin(segs);
  }

  lemma LowerStrAppend(a: string, b: string)
    ensures LowerStr(a + b) == LowerStr(a) + LowerStr(b)
  {
  }

  lemma LowerOfLowerAscii(w: string)
    requires LowerAscii(w)
    ensures LowerStr(w) == w
  {
  }

  lemma {:induction false} LowerOfJoin(ws: seq<string>, f: string -> string)
    requires Recases(f) && forall k :: 0 <= k < |ws| ==> Free(ws[k], ' ') && LowerAscii(ws[k])
    ensures LowerStr(Join(MapWords(f, ws))) == Join(ws)
  {
    if |ws| == 1 {
      assert Join(MapWords(f, ws)) == f(ws[0]);
    } else if |ws| > 1 {
      var m := MapWords(f, ws);
      assert m[1..] == MapWords(f, ws[1..]);
      LowerOfJoin(ws[1..], f);
      LowerStrAppend(f(ws[0]) + " ", Join(m[1..]));
      LowerStrAppend(f(ws[0]), " ");
    }
  }

  /** The segments of lower-case ASCII text are lower-case ASCII. */
  lemma SegmentsAreLowerAscii(l: string)
    requires LowerAscii(l)
    ensures forall k :: 0 <= k < |SplitOn(l, ' ')| ==> LowerAscii(SplitOn(l, ' ')[k])
  {
    var segs := SplitOn(l, ' ');
    forall k, i | 0 <= k < |segs| && 0 <= i < |segs[k]|
      ensures IsAscii(segs[k][i]) && Lower(segs[k][i]) == segs[k][i]
    {
      assert segs[k][i] in segs[k];
      assert segs[k][i] in l;
      var j :| 0 <= j < |l| && l[j] == segs[k][i];
    }
  }

  lemma LowerOfAscii(s: string)
    requires AllAscii(s)
    ensures LowerAscii(LowerStr(s))
  {
  }

  /** Over ASCII, lower-casing the formatted text gives the lower-cased input. */
  lemma LowerOfFormat(s: string, f: string -> string)
    requires s != [] && AllAscii(s) && Recases(f)
    ensures LowerStr(FormatWords(s, f)) == LowerStr(s)
  {
    var l := LowerStr(s);
    LowerOfAscii(s);
    var segs := SplitOn(l, ' ');
    SegmentsAreLowerAscii(l);
    LowerOfJoin(segs, f);
    JoinSplit(l);
  }

  /** Over ASCII, formatting keeps the length and formatting twice is formatting once. */
  lemma FormatIdempotent(s: string, f: string -> string)
    requires AllAscii(s) && Recases(f)
    ensures |FormatWords(s, f)| == |s|
    ensures FormatWords(FormatWords(s, f), f) == FormatWords(s, f)
  {
    if s != [] {
      var r := FormatWords(s, f);
      LowerOfFormat(s, f);
      assert |LowerStr(r)| == |r|;
      assert r != [];
    }
  }

  // ---------------------------------------------------------------------------
  // The two recasings

  lemma UpperOfNonSpace(c: char)
    requires c != ' '
    ensures Free(Upper(c), ' ')
  {
  }

  lemma CapitalizeKeepsSpaces()
    ensures KeepsSpaces(Capitalize)
  {
    forall w | Free(w, ' ')
      ensures Free(Capitalize(w), ' ')
    {
      if w != [] {
        UpperOfNonSpace(w[0]);
        var u := Upper(w[0]);
        assert Capitalize(w) == u + w[1..];
        assert forall i :: |u| <= i < |u + w[1..]| ==> (u + w[1..])[i] == w[i - |u| + 1];
      }
    }
  }

  lemma PersonWordKeepsSpaces()
    ensures KeepsSpaces(PersonWord)
  {
    CapitalizeKeepsSpaces();
  }

  /** An ASCII character upper-cases to one ASCII character that lower-cases back. */
  lemma UpperOfAscii(c: char)
    requires IsAscii(c) && Lower(c) == c
    ensures |Upper(c)| == 1 && IsAscii(Upper(c)[0]) && Lower(Upper(c)[0]) == c
  {
  }

  lemma CapitalizeRecases()
    ensures Recases(Capitalize)
  {
    forall w | Free(w, ' ') && LowerAscii(w)
      ensures LowerStr(Capitalize(w)) == w
    {
      if w != [] {
        UpperOfAscii(w[0]);
        LowerOfLowerAscii(w[1..]);
        LowerStrAppend(Upper(w[0]), w[1..]);
        assert w == [w[0]] + w[1..];
      }
    }
  }

  lemma PersonWordRecases()
    ensures Recases(PersonWord)
  {
    CapitalizeRecases();
    forall w | Free(w, ' ') && LowerAscii(w)
      ensures LowerStr(PersonWord(w)) == w
    {
      LowerOfLowerAscii(w);
    }
  }

  // ---------------------------------------------------------------------------
  // The formatters' laws

  /**
   * Over ASCII a formatted title keeps its length, formatting it again changes nothing,
   * and in every segment each character after the first is lower case.
   */
  lemma ProjectTitleLaws(title: string)
    requires AllAscii(title)
    ensures |FormatProjectTitle(title)| == |title|
    ensures FormatProjectTitle(FormatProjectTitle(title)) == FormatProjectTitle(title)
    ensures var segs := SplitOn(FormatProjectTitle(title), ' ');
      forall k, j :: 0 <= k < |segs| && 1 <= j < |segs[k]| ==> Lower(segs[k][j]) == segs[k][j]
  {
    CapitalizeRecases();
    CapitalizeKeepsSpaces();
    CapitalizeKeepsTail();
    FormatIdempotent(title, Capitalize);
    if title != [] {
      TailsAreLower(title, Capitalize);
    }
  }

  /** The same laws for person names, particles included. */
  lemma PersonNameLaws(name: string)
    requires AllAscii(name)
    ensures |FormatPersonName(name)| == |name|
    ensures FormatPersonName(FormatPersonName(name)) == FormatPersonName(name)
    ensures var segs := SplitOn(FormatPersonName(name), ' ');
      forall k, j :: 0 <= k < |segs| && 1 <= j < |segs[k]| ==> Lower(segs[k][j]) == segs[k][j]
  {
    PersonWordRecases();
    PersonWordKeepsSpaces();
    PersonWordKeepsTail();
    FormatIdempotent(name, PersonWord);
    if name != [] {
      TailsAreLower(name, PersonWord);
    }
  }

  /** Recasing that keeps every character after the first of a lower-case ASCII segment. */
  ghost predicate KeepsTail(f: string -> string) {
    forall w :: LowerAscii(w) ==> |f(w)| == |w| && (forall j :: 1 <= j < |w| ==> f(w)[j] == w[j])
  }

  lemma CapitalizeKeepsTail()
    ensures KeepsTail(Capitalize)
  {
    forall w | LowerAscii(w)
      ensures |Capitalize(w)| == |w| && (forall j :: 1 <= j < |w| ==> Capitalize(w)[j] == w[j])
    {
      if w != [] {
        UpperOfAscii(w[0]);
      }
    }
  }

  lemma PersonWordKeepsTail()
    ensures KeepsTail(PersonWord)
  {
    CapitalizeKeepsTail();
  }

  /** When f keeps tails, every character after the first of each segment is lower case. */
  lemma TailsAreLower(s: string, f: string -> string)
    requires s != [] && AllAscii(s) && KeepsSpaces(f) && KeepsTail(f)
    ensures var segs := SplitOn(FormatWords(s, f), ' ');
      forall k, j :: 0 <= k < |segs| && 1 <= j < |segs[k]| ==> Lower(segs[k][j]) == segs[k][j]
  {
    SegmentsOfFormat(s, f);
    var l := LowerStr(s);
    LowerOfAscii(s);
    SegmentsAreLowerAscii(l);
  }

  /** Particles stay lower case inside a name: "MARIA DA SILVA" becomes "Maria da Silva". */
  lemma ParticleStaysLower(name: string)
    requires name == "MARIA DA SILVA"
    ensures FormatPersonName(name) == "Maria da Silva"
  {
    LowerOfMariaDaSilva(name);
    ThreeWordName(name, "maria", "da", "silva");
    PersonWordsOfMariaDaSilva();
  }

  /** A name that lower-cases to three space-free words is formatted word by word. */
  lemma ThreeWordName(name: string, a: string, b: string, c: string)
    requires LowerStr(name) == a + " " + b + " " + c
    requires Free(a, ' ') && Free(b, ' ') && Free(c, ' ')
    ensures FormatPersonName(name) == PersonWord(a) + " " + PersonWord(b) + " " + PersonWord(c)
  {
    assert name != [] by { assert |LowerStr(name)| > 0; }
    SplitThree(a, b, c);
    var ws := MapWords(PersonWord, [a, b, c]);
    assert ws == [PersonWord(a), PersonWord(b), PersonWord(c)];
    assert FormatPersonName(name) == Join(ws);
    JoinThree(PersonWord(a), PersonWord(b), PersonWord(c));
  }

  lemma SplitThree(a: string, b: string, c: string)
    requires Free(a, ' ') && Free(b, ' ') && Free(c, ' ')
    ensures SplitOn(a + " " + b + " " + c, ' ') == [a, b, c]
  {
    assert a + " " + b + " " + c == a + [' '] + (b + [' '] + c);
    SplitCons(a, b + [' '] + c, ' ');
    SplitCons(b, c, ' ');
    assert FindChar(c, ' ').None?;
  }

  lemma JoinThree(x: string, y: string, z: string)
    ensures Join([x, y, z]) == x + " " + y + " " + z
  {
    assert [x, y, z][1..] == [y, z];
    assert [y, z][1..] == [z];
    assert Join([z]) == z;
    assert Join([y, z]) == y + " " + z;
    assert Join([x, y, z]) == x + " " + (y + " " + z);
  }

  lemma LowerOfMariaDaSilva(s: string)
    requires s == "MARIA DA SILVA"
    ensures LowerStr(s) == "maria" + " " + "da" + " " + "silva"
  {
    LowerOfWords("MARIA", "DA", "SILVA");
    LowerOfThree(s, "MARIA", "DA", "SILVA");
  }

  /** Lower-casing three words joined by spaces lower-cases each word. */
  lemma LowerOfThree(s: string, m: string, d: string, v: string)
    requires s == m + " " + d + " " + v
    ensures LowerStr(s) == LowerStr(m) + LowerStr(" ") + LowerStr(d) + LowerStr(" ") + LowerStr(v)
  {
    LowerStrAppend(m + " " + d + " ", v);
    LowerStrAppend(m + " " + d, " ");
    LowerStrAppend(m + " ", d);
    LowerStrAppend(m, " ");
  }

  lemma LowerOfWords(m: string, d: string, v: string)
    requires m == "MARIA" && d == "DA" && v == "SILVA"
    ensures LowerStr(m) == "maria" && LowerStr(d) == "da" && LowerStr(v) == "silva" && LowerStr(" ") == " "
  {
    LowerWord(m, "maria");
    LowerWord(d, "da");
    LowerWord(v, "silva");
    LowerWord(" ", " ");
  }

  lemma LowerWord(w: string, l: string)
    requires |w| == |l| && forall i :: 0 <= i < |w| ==> Lower(w[i]) == l[i]
    ensures LowerStr(w) == l
  {
  }

  lemma PersonWordsOfMariaDaSilva()
    ensures PersonWord("maria") + " " + PersonWord("da") + " " + PersonWord("silva") == "Maria da Silva"
  {
    assert "da" == Particles[1];
    assert "maria" !in Particles && "silva" !in Particles;
    assert Upper('m') == "M" && Upper('s') == "S";
    assert Capitalize("maria") == "M" + "aria";
    assert Capitalize("silva") == "S" + "ilva";
  }
}
