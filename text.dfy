/** String helpers the fact widget relies on: the white space that
    JavaScript's `String.prototype.trim` removes, trimming itself, and the
    case-insensitive substring test a regular expression literal such as
    `/Religion/i` performs. */
module Text {

  /** The WhiteSpace and LineTerminator code points of ECMAScript, which
      `trim` strips from both ends of a string. */
  predicate IsJsSpace(c: char) {
    c in JsSpaces
  }

  const JsSpaces: set<char> := {
    '\t', '\n', '\U{0B}', '\U{0C}', '\r', ' ', '\U{A0}', '\U{1680}',
    '\U{2000}', '\U{2001}', '\U{2002}', '\U{2003}', '\U{2004}', '\U{2005}',
    '\U{2006}', '\U{2007}', '\U{2008}', '\U{2009}', '\U{200A}',
    '\U{2028}', '\U{2029}', '\U{202F}', '\U{205F}', '\U{3000}', '\U{FEFF}'
  }

  /** Every character of `s` is white space. */
  predicate AllSpace(s: string) {
    forall i :: 0 <= i < |s| ==> IsJsSpace(s[i])
  }

  /** Drops leading white space. */
  function TrimStart(s: string): (t: string)
    ensures |t| <= |s|
  {
    if |s| > 0 && IsJsSpace(s[0]) then TrimStart(s[1..]) else s
  }

  /** What `TrimStart` keeps is a suffix of its input that does not start
      with white space, and what it drops is all white space. */
  lemma {:induction false} TrimStartShape(s: string)
    ensures var t := TrimStart(s);
      t == s[|s| - |t|..] && (t == [] || !IsJsSpace(t[0])) && AllSpace(s[..|s| - |t|])
  {
    if |s| > 0 && IsJsSpace(s[0]) {
      TrimStartShape(s[1..]);
      var t := TrimStart(s);
      assert s[1..][|s| - 1 - |t|..] == s[|s| - |t|..];
      forall i | 0 <= i < |s| - |t| ensures IsJsSpace(s[i]) {
        if i > 0 {
          assert s[1..][..|s| - 1 - |t|][i - 1] == s[i];
        }
      }
    }
  }

  /** Drops trailing white space. */
  function TrimEnd(s: string): (t: string)
    ensures |t| <= |s|
  {
    if |s| > 0 && IsJsSpace(s[|s| - 1]) then TrimEnd(s[..|s| - 1]) else s
  }

  /** What `TrimEnd` keeps is a prefix of its input that does not end with
      white space, and what it drops is all white space. */
  lemma {:induction false} TrimEndShape(s: string)
    ensures var t := TrimEnd(s);
      t == s[..|t|] && (t == [] || !IsJsSpace(t[|t| - 1])) && AllSpace(s[|t|..])
  {
    if |s| > 0 && IsJsSpace(s[|s| - 1]) {
      var u := s[..|s| - 1];
      TrimEndShape(u);
      var t := TrimEnd(s);
      assert u[..|t|] == s[..|t|];
      forall i | |t| <= i < |s| ensures IsJsSpace(s[i]) {
        if i < |s| - 1 {
          assert u[|t|..][i - |t|] == s[i];
        }
      }
    }
  }

  /** `s.trim()`: the string without white space at either end. */
  function Trim(s: string): string {
    TrimEnd(TrimStart(s))
  }

  lemma SliceOfDrop(s: string, a: nat, n: nat)
    requires a + n <= |s|
    ensures s[a..][..n] == s[a..a + n] && s[a..][n..] == s[a + n..]
  {
  }

  /** Trimming keeps a contiguous piece of the input, everything cut
      off is white space, and what remains neither starts nor ends with it. */
  lemma TrimShape(s: string, a: nat)
    requires a == |s| - |TrimStart(s)|
    ensures a + |Trim(s)| <= |s|
    ensures Trim(s) == s[a..a + |Trim(s)|]
    ensures AllSpace(s[..a]) && AllSpace(s[a + |Trim(s)|..])
    ensures Trim(s) == [] || (!IsJsSpace(Trim(s)[0]) && !IsJsSpace(Trim(s)[|Trim(s)| - 1]))
  {
    var u := TrimStart(s);
    var t := Trim(s);
    TrimStartShape(s);
    TrimEndShape(u);
    assert u == s[a..];
    assert t == u[..|t|];
    SliceOfDrop(s, a, |t|);
    if t != [] {
      assert t[0] == u[0];
    }
  }

  /** Trimming a string a second time changes nothing. */
  lemma TrimIdempotent(s: string)
    ensures Trim(Trim(s)) == Trim(s)
  {
    var t := Trim(s);
    TrimShape(s, |s| - |TrimStart(s)|);
    assert TrimStart(t) == t;
    assert TrimEnd(t) == t;
  }

  /** The canonical form `/x/i` compares: ASCII lower-case letters are
      folded to upper case, every other character stands for itself. */
  function Upper(c: char): (u: char)
    ensures 'a' <= c <= 'z' ==> 'A' <= u <= 'Z' && u as int == c as int - 32
    ensures !('a' <= c <= 'z') ==> u == c
  {
    if 'a' <= c <= 'z' then (c as int - 32) as char else c
  }

  /** One character of the text matches one character of the pattern. */
  predicate SameLetter(c: char, p: char) {
    Upper(c) == Upper(p)
  }

  /** Against an ASCII letter of the pattern, a text character matches
      exactly when it is the same letter in either case. */
  lemma SameLetterOnLetters(c: char, p: char)
    requires 'A' <= p <= 'Z' || 'a' <= p <= 'z'
    ensures SameLetter(c, p) <==>
      ('A' <= c <= 'Z' || 'a' <= c <= 'z') &&
      (c == p || c as int == p as int + 32 || c as int == p as int - 32)
  {
  }

  /** The pattern matches the text at position `i`. */
  predicate OccursAt(text: string, pat: string, i: int) {
    0 <= i && i + |pat| <= |text| &&
    forall j :: 0 <= j < |pat| ==> SameLetter(text[i + j], pat[j])
  }

  /** The pattern matches a prefix of the text. */
  function StartsWithIC(text: string, pat: string): (b: bool)
    ensures b <==> OccursAt(text, pat, 0)
  {
    |pat| <= |text| && forall j :: 0 <= j < |pat| ==> SameLetter(text[j], pat[j])
  }

  lemma OccursShift(text: string, pat: string, i: nat)
    requires |text| > 0
    ensures OccursAt(text[1..], pat, i) <==> OccursAt(text, pat, i + 1)
  {
    if OccursAt(text, pat, i + 1) {
      forall j | 0 <= j < |pat| ensures SameLetter(text[1..][i + j], pat[j]) {
        assert text[1..][i + j] == text[i + 1 + j];
      }
    }
  }

  /** `/pat/i.test(text)`: the pattern matches somewhere in the text. */
  function ContainsIC(text: string, pat: string): bool
    decreases |text|
  {
    if StartsWithIC(text, pat) then true
    else if |text| == 0 then false
    else ContainsIC(text[1..], pat)
  }

  /** `ContainsIC` holds exactly when the pattern occurs at some position. */
  lemma {:induction false} ContainsICMeaning(text: string, pat: string)
    ensures ContainsIC(text, pat) <==> exists i :: OccursAt(text, pat, i)
    decreases |text|
  {
    if !StartsWithIC(text, pat) && |text| > 0 {
      ContainsICMeaning(text[1..], pat);
      if ContainsIC(text[1..], pat) {
        var i :| OccursAt(text[1..], pat, i);
        OccursShift(text, pat, i);
      }
      if exists i :: OccursAt(text, pat, i) {
        var i :| OccursAt(text, pat, i);
        assert i != 0;
        OccursShift(text, pat, i - 1);
      }
    }
  }

  /** An occurrence starts with a character matching the pattern's first one. */
  lemma FirstLetterOfOccurrence(text: string, pat: string, i: int)
    requires |pat| > 0 && OccursAt(text, pat, i)
    ensures 0 <= i < |text| && SameLetter(text[i], pat[0])
  {
  }

  /** A pattern whose first letter matches no character of the text does not occur. */
  lemma AbsentFirstLetter(text: string, pat: string)
    requires |pat| > 0
    requires forall i :: 0 <= i < |text| ==> !SameLetter(text[i], pat[0])
    ensures !ContainsIC(text, pat)
  {
    ContainsICMeaning(text, pat);
    if ContainsIC(text, pat) {
      var i :| OccursAt(text, pat, i);
      FirstLetterOfOccurrence(text, pat, i);
    }
  }

  /** A string that neither starts nor ends with white space is its own trim. */
  lemma TrimUnchanged(s: string)
    requires |s| > 0 && !IsJsSpace(s[0]) && !IsJsSpace(s[|s| - 1])
    ensures Trim(s) == s
  {
    assert TrimStart(s) == s;
    assert TrimEnd(s) == s;
  }

  /** A string free of white space. */
  predicate NoSpace(p: string) {
    forall j :: 0 <= j < |p| ==> !IsJsSpace(p[j])
  }

  /** A string of ASCII letters only. */
  predicate AsciiLetters(p: string) {
    forall j :: 0 <= j < |p| ==> 'A' <= p[j] <= 'Z' || 'a' <= p[j] <= 'z'
  }

  lemma LettersHaveNoSpace(p: string)
    requires AsciiLetters(p)
    ensures NoSpace(p)
  {
  }

  /** A character matching a pattern character that is not white space is
      not white space either: case folding only touches ASCII letters. */
  lemma MatchOfNonSpace(c: char, p: char)
    requires SameLetter(c, p) && !IsJsSpace(p)
    ensures !IsJsSpace(c)
  {
  }

  /** An occurrence inside a slice is an occurrence in the whole text, and back. */
  lemma OccursInSlice(s: string, pat: string, a: nat, b: nat, i: nat)
    requires a <= i && i + |pat| <= b <= |s|
    ensures OccursAt(s[a..b], pat, i - a) <==> OccursAt(s, pat, i)
  {
    forall j | 0 <= j < |pat|
      ensures SameLetter(s[a..b][i - a + j], pat[j]) == SameLetter(s[i + j], pat[j])
    {
      assert s[a..b][i - a + j] == s[i + j];
    }
  }

  /** An occurrence of a non-empty, space-free pattern lies inside the part
      of the text that trimming keeps. */
  lemma OccurrenceInsideTrim(s: string, pat: string, a: nat, i: nat)
    requires |pat| > 0 && NoSpace(pat) && OccursAt(s, pat, i)
    requires a == |s| - |TrimStart(s)|
    ensures a <= i && i + |pat| <= a + |Trim(s)|
  {
    TrimShape(s, a);
    var b := a + |Trim(s)|;
    forall j | 0 <= j < a ensures IsJsSpace(s[j]) {
      assert s[..a][j] == s[j];
    }
    forall j | b <= j < |s| ensures IsJsSpace(s[j]) {
      assert s[b..][j - b] == s[j];
    }
    var last := i + |pat| - 1;
    MatchOfNonSpace(s[i], pat[0]);
    MatchOfNonSpace(s[last], pat[|pat| - 1]);
  }

  /** Cutting white space off either end of a text does not change whether
      a non-empty, space-free pattern occurs in it. */
  lemma ContainsIgnoresTrim(s: string, pat: string)
    requires |pat| > 0 && NoSpace(pat)
    ensures ContainsIC(Trim(s), pat) == ContainsIC(s, pat)
  {
    ContainsICMeaning(s, pat);
    ContainsICMeaning(Trim(s), pat);
    if ContainsIC(s, pat) {
      var i: nat :| OccursAt(s, pat, i);
      OccurrenceSurvivesTrim(s, pat, i);
    }
    if ContainsIC(Trim(s), pat) {
      var i: nat :| OccursAt(Trim(s), pat, i);
      OccurrenceInTrimIsInText(s, pat, i);
    }
  }

  lemma OccurrenceSurvivesTrim(s: string, pat: string, i: nat)
    requires |pat| > 0 && NoSpace(pat) && OccursAt(s, pat, i)
    ensures exists j :: OccursAt(Trim(s), pat, j)
  {
    var a := |s| - |TrimStart(s)|;
    TrimShape(s, a);
    var b := a + |Trim(s)|;
    OccurrenceInsideTrim(s, pat, a, i);
    OccursInSlice(s, pat, a, b, i);
    assert OccursAt(Trim(s), pat, i - a);
  }

  lemma OccurrenceInTrimIsInText(s: string, pat: string, i: nat)
    requires OccursAt(Trim(s), pat, i)
    ensures exists j :: OccursAt(s, pat, j)
  {
    var a := |s| - |TrimStart(s)|;
    TrimShape(s, a);
    var b := a + |Trim(s)|;
    OccursInSlice(s, pat, a, b, a + i);
    assert OccursAt(s, pat, a + i);
  }
}
