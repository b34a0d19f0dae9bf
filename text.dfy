/**
 * String primitives that the JavaScript and Python sources take from their
 * standard libraries: character classes, case mapping, white space, substring
 * search, splitting and joining, and decimal digits. Characters are treated as
 * ASCII: case mapping and white space outside ASCII are not modelled.
 */
module Text {

  // ---------------------------------------------------------------------------
  // Character classes
  // ---------------------------------------------------------------------------

  /** The ASCII characters matched by `\s` and removed by `trim()` / `strip()`. */
  predicate IsSpace(c: char) {
    c == ' ' || c == '\t' || c == '\n' || c == '\r' || c == '\U{B}' || c == '\U{C}'
  }

  predicate IsDigit(c: char) { '0' <= c <= '9' }

  predicate IsUpper(c: char) { 'A' <= c <= 'Z' }

  predicate IsLower(c: char) { 'a' <= c <= 'z' }

  /** A cased character, in Python's sense, restricted to ASCII. */
  predicate IsLetter(c: char) { IsUpper(c) || IsLower(c) }

  /** The ASCII characters matched by `\w`. */
  predicate IsWordChar(c: char) { IsLetter(c) || IsDigit(c) || c == '_' }

  // ---------------------------------------------------------------------------
  // Case mapping
  // ---------------------------------------------------------------------------

  function UpperChar(c: char): (r: char)
    ensures !IsLower(r)
    ensures IsLower(c) ==> IsUpper(r)
    ensures !IsLower(c) ==> r == c
  {
    if IsLower(c) then (c as int - 32) as char else c
  }

  function LowerChar(c: char): (r: char)
    ensures !IsUpper(r)
    ensures IsUpper(c) ==> IsLower(r)
    ensures !IsUpper(c) ==> r == c
  {
    if IsUpper(c) then (c as int + 32) as char else c
  }

  /** `toUpperCase()` / `upper()`. */
  function Upper(s: string): (r: string)
    ensures |r| == |s|
    ensures forall i :: 0 <= i < |s| ==> r[i] == UpperChar(s[i])
  {
    seq(|s|, i requires 0 <= i < |s| => UpperChar(s[i]))
  }

  /** `toLowerCase()` / `lower()`. */
  function Lower(s: string): (r: string)
    ensures |r| == |s|
    ensures forall i :: 0 <= i < |s| ==> r[i] == LowerChar(s[i])
  {
    seq(|s|, i requires 0 <= i < |s| => LowerChar(s[i]))
  }

  lemma LowerLower(s: string)
    ensures Lower(Lower(s)) == Lower(s)
  {
  }

  lemma LowerAppend(a: string, b: string)
    ensures Lower(a + b) == Lower(a) + Lower(b)
  {
  }

  lemma UpperAppend(a: string, b: string)
    ensures Upper(a + b) == Upper(a) + Upper(b)
  {
  }

  // ---------------------------------------------------------------------------
  // Substrings
  // ---------------------------------------------------------------------------

  predicate StartsWith(s: string, p: string) {
    |p| <= |s| && s[..|p|] == p
  }

  /** `p` occurs in `s` at index `i`. */
  predicate OccursAt(s: string, p: string, i: int) {
    0 <= i && i + |p| <= |s| && s[i..i + |p|] == p
  }

  /** The lower-case pattern `p` occurs at `i` of `s` when case is ignored
      (a regular expression compiled case-insensitively). */
  predicate OccursAtIgnoreCase(s: string, p: string, i: nat) {
    i + |p| <= |s| && forall j :: 0 <= j < |p| ==> LowerChar(s[i + j]) == p[j]
  }

  /** The characters and the slice of the middle part of a concatenation. */
  lemma Middle(u: string, t: string, v: string)
    ensures forall i :: |u| <= i < |u| + |t| ==> (u + t + v)[i] == t[i - |u|]
    ensures (u + t + v)[|u|..|u| + |t|] == t
  {
    assert (u + t + v)[|u|..|u| + |t|] == (u + t)[|u|..];
  }

  lemma OccursAtIgnoreCaseSuffix(s: string, k: nat, p: string)
    requires k <= |s|
    ensures OccursAtIgnoreCase(s, p, k) <==> OccursAtIgnoreCase(s[k..], p, 0)
  {
    assert forall j :: 0 <= j < |s| - k ==> s[k..][j] == s[k + j];
  }

  /** `s.includes(p)` / `p in s`, as a left-to-right scan. */
  predicate Contains(s: string, p: string)
    decreases |s|
  {
    StartsWith(s, p) || (s != [] && Contains(s[1..], p))
  }

  lemma ContainsAt(s: string, p: string, i: int)
    requires OccursAt(s, p, i)
    ensures Contains(s, p)
    decreases i
  {
    if i > 0 {
      assert OccursAt(s[1..], p, i - 1) by {
        assert s[1..][i - 1..i - 1 + |p|] == s[i..i + |p|];
      }
      ContainsAt(s[1..], p, i - 1);
    }
  }

  lemma ContainsWitness(s: string, p: string) returns (i: nat)
    requires Contains(s, p)
    ensures OccursAt(s, p, i)
    decreases |s|
  {
    if StartsWith(s, p) {
      i := 0;
    } else {
      var j := ContainsWitness(s[1..], p);
      i := j + 1;
      assert s[1..][j..j + |p|] == s[i..i + |p|];
    }
  }

  /** `Contains` is exactly "occurs at some index". */
  lemma ContainsIff(s: string, p: string)
    ensures Contains(s, p) <==> exists i :: OccursAt(s, p, i)
  {
    if Contains(s, p) {
      var i := ContainsWitness(s, p);
    }
    forall i | OccursAt(s, p, i) ensures Contains(s, p) {
      ContainsAt(s, p, i);
    }
  }

  lemma ContainsInPrefix(s: string, t: string, p: string)
    requires Contains(s, p)
    ensures Contains(s + t, p)
  {
    var i := ContainsWitness(s, p);
    assert (s + t)[i..i + |p|] == s[i..i + |p|];
    ContainsAt(s + t, p, i);
  }

  lemma ContainsInSuffix(s: string, t: string, p: string)
    requires Contains(t, p)
    ensures Contains(s + t, p)
  {
    var i := ContainsWitness(t, p);
    assert (s + t)[|s| + i..|s| + i + |p|] == t[i..i + |p|];
    ContainsAt(s + t, p, |s| + i);
  }

  /** An occurrence of `w` clear of `p..e` survives replacing `l[p..e]` by `mid`. */
  lemma SpliceKeeps(l: string, p: nat, e: nat, mid: string, w: string, j: nat)
    requires p <= e <= |l| && OccursAt(l, w, j) && (j + |w| <= p || e <= j)
    ensures Contains(l[..p] + (mid + l[e..]), w)
  {
    if j + |w| <= p {
      KeepsBefore(l, p, w, j, mid + l[e..]);
    } else {
      KeepsAfter(l, e, w, j, l[..p], mid);
    }
  }

  lemma KeepsBefore(l: string, p: nat, w: string, j: nat, rest: string)
    requires j + |w| <= p <= |l| && OccursAt(l, w, j)
    ensures Contains(l[..p] + rest, w)
  {
    var head := l[..p];
    assert head[j..j + |w|] == l[j..j + |w|];
    ContainsAt(head, w, j);
    ContainsInPrefix(head, rest, w);
  }

  lemma KeepsAfter(l: string, e: nat, w: string, j: nat, head: string, mid: string)
    requires e <= j && OccursAt(l, w, j)
    ensures Contains(head + (mid + l[e..]), w)
  {
    var tail := l[e..];
    assert tail[j - e..j - e + |w|] == l[j..j + |w|];
    ContainsAt(tail, w, j - e);
    ContainsInSuffix(mid, tail, w);
    ContainsInSuffix(head, mid + tail, w);
  }

  /** A pattern holding a character that never occurs in `s` does not occur
      in `s`. */
  lemma NotContainsChar(s: string, p: string, k: nat)
    requires k < |p|
    requires forall i :: 0 <= i < |s| ==> s[i] != p[k]
    ensures !Contains(s, p)
  {
    if Contains(s, p) {
      var i := ContainsWitness(s, p);
      assert false;
    }
  }

  // ---------------------------------------------------------------------------
  // White space
  // ---------------------------------------------------------------------------

  predicate AllSpace(s: string) {
    forall i :: 0 <= i < |s| ==> IsSpace(s[i])
  }

  predicate NoSpace(s: string) {
    forall i :: 0 <= i < |s| ==> !IsSpace(s[i])
  }

  /** Number of leading white-space characters. */
  function LeadingSpaces(s: string): (n: nat)
    ensures n <= |s|
    ensures forall i :: 0 <= i < n ==> IsSpace(s[i])
    ensures n < |s| ==> !IsSpace(s[n])
  {
    if s != [] && IsSpace(s[0]) then 1 + LeadingSpaces(s[1..]) else 0
  }

  /** Index at which the trailing white space starts. */
  function TrailingStart(s: string): (n: nat)
    ensures n <= |s|
    ensures forall i :: n <= i < |s| ==> IsSpace(s[i])
    ensures n > 0 ==> !IsSpace(s[n - 1])
  {
    if s != [] && IsSpace(s[|s| - 1]) then TrailingStart(s[..|s| - 1]) else |s|
  }

  /** `trimStart()` / `lstrip()`. */
  function TrimStart(s: string): string {
    s[LeadingSpaces(s)..]
  }

  /** `trimEnd()` / `rstrip()`. */
  function TrimEnd(s: string): string {
    s[..TrailingStart(s)]
  }

  /** `trim()` / `strip()`. */
  function Trim(s: string): string {
    TrimEnd(TrimStart(s))
  }

  /** Blank: `s.trim() === ''`. */
  predicate IsBlank(s: string) {
    Trim(s) == []
  }

  /** Trimming keeps the slice between the leading and the trailing white space. */
  lemma TrimBounds(s: string) returns (a: nat, b: nat)
    ensures a <= b <= |s| && Trim(s) == s[a..b]
    ensures forall i :: 0 <= i < a ==> IsSpace(s[i])
    ensures forall i :: b <= i < |s| ==> IsSpace(s[i])
    ensures a < b ==> !IsSpace(s[a]) && !IsSpace(s[b - 1])
  {
    a := LeadingSpaces(s);
    var t := s[a..];
    var e := TrailingStart(t);
    b := a + e;
    forall i | b <= i < |s|
      ensures IsSpace(s[i])
    {
      assert s[i] == t[i - a];
    }
    if a < b {
      assert s[b - 1] == t[e - 1];
    }
  }

  /** Trimming removes exactly the white space around a word that neither
      starts nor ends with white space. */
  lemma TrimOfPadded(a: string, x: string, b: string)
    requires AllSpace(a) && AllSpace(b)
    requires x != [] ==> !IsSpace(x[0]) && !IsSpace(x[|x| - 1])
    ensures Trim(a + x + b) == x
  {
    var s := a + x + b;
    var i, j := TrimBounds(s);
    if x != [] {
      assert s[|a|] == x[0];
      assert s[|a| + |x| - 1] == x[|x| - 1];
      assert s[|a|..|a| + |x|] == x;
    }
  }

  /** The tail of a string from its first non-space character trims to the
      word that ends before its trailing white space. */
  lemma TrimFrom(s: string, i: nat, j: nat)
    requires i < j <= |s| && !IsSpace(s[i]) && !IsSpace(s[j - 1])
    requires AllSpace(s[j..])
    ensures Trim(s[i..]) == s[i..j]
  {
    var core, tail := s[i..j], s[j..];
    assert s[i..] == [] + core + tail;
    TrimOfPadded([], core, tail);
  }

  /** Padding a string that has leading white space up to `i` with a word
      and trailing white space trims to the tail from `i` plus the word. */
  lemma TrimPaddedAt(a: string, i: nat, y: string, post: string)
    requires i < |a| && AllSpace(a[..i]) && !IsSpace(a[i])
    requires y != [] && !IsSpace(y[|y| - 1]) && AllSpace(post)
    ensures Trim(a + (y + post)) == a[i..] + y
  {
    var x := a[i..] + y;
    assert a + (y + post) == a[..i] + x + post;
    assert x[0] == a[i];
    assert x[|x| - 1] == y[|y| - 1];
    TrimOfPadded(a[..i], x, post);
  }

  lemma TrimTrimmed(s: string)
    ensures Trim(Trim(s)) == Trim(s)
  {
    var a, b := TrimBounds(s);
    TrimOfPadded([], s[a..b], []);
    assert [] + s[a..b] + [] == s[a..b];
  }

  /** No white space at either end. */
  predicate Stripped(s: string) {
    s == [] || (!IsSpace(s[0]) && !IsSpace(s[|s| - 1]))
  }

  /** A string is stripped exactly when trimming leaves it unchanged. */
  lemma StrippedIff(s: string)
    ensures Stripped(s) <==> Trim(s) == s
  {
    if Stripped(s) {
      TrimOfPadded([], s, []);
      assert [] + s + [] == s;
    } else {
      var a, b := TrimBounds(s);
      assert a != 0 || b != |s|;
    }
  }

  lemma TrimStripped(s: string)
    ensures Stripped(Trim(s))
  {
    var a, b := TrimBounds(s);
    if a < b {
      assert Trim(s)[0] == s[a];
    }
  }

  lemma BlankIffAllSpace(s: string)
    ensures IsBlank(s) <==> AllSpace(s)
  {
    var a, b := TrimBounds(s);
    if a < b {
      assert !IsSpace(s[a]);
    }
  }

  /** Every white-space character is a plain space and no two are adjacent. */
  predicate SingleSpaced(s: string) {
    && (forall i :: 0 <= i < |s| && IsSpace(s[i]) ==> s[i] == ' ')
    && (forall i, j :: 0 <= i < |s| && j == i + 1 && j < |s| ==> !(IsSpace(s[i]) && IsSpace(s[j])))
  }

  /** Single-spaced with no white space at either end. */
  predicate Tidy(s: string) {
    SingleSpaced(s) && (s != [] ==> !IsSpace(s[0]) && !IsSpace(s[|s| - 1]))
  }

  /** Two words joined by one space make a tidy string. */
  lemma TidyPair(a: string, b: string)
    requires a != [] && b != [] && NoSpace(a) && NoSpace(b)
    ensures Tidy(a + " " + b)
  {
    var s := a + " " + b;
    forall i, j | 0 <= i < |s| && j == i + 1 && j < |s|
      ensures !(IsSpace(s[i]) && IsSpace(s[j]))
    {
      if i < |a| {
        assert s[i] == a[i];
      } else {
        assert s[j] == b[j - |a| - 1];
      }
    }
  }

  /** Replace every maximal run of white space with one space (`replace(/\s+/g, ' ')`). */
  function CollapseSpaces(s: string): (r: string)
    ensures SingleSpaced(r)
    ensures |r| == 0 <==> |s| == 0
    ensures r != [] ==> (IsSpace(r[0]) <==> IsSpace(s[0]))
    decreases |s|
  {
    if s == [] then []
    else if IsSpace(s[0]) then
      [' '] + CollapseSpaces(s[LeadingSpaces(s)..])
    else
      [s[0]] + CollapseSpaces(s[1..])
  }

  /** The non-space characters of `s`, in order. */
  function NonSpace(s: string): string
  {
    if s == [] then []
    else (if IsSpace(s[0]) then [] else [s[0]]) + NonSpace(s[1..])
  }

  lemma {:induction false} NonSpaceAppend(a: string, b: string)
    ensures NonSpace(a + b) == NonSpace(a) + NonSpace(b)
    decreases |a|
  {
    if a != [] {
      var h := if IsSpace(a[0]) then [] else [a[0]];
      assert (a + b)[0] == a[0];
      assert (a + b)[1..] == a[1..] + b;
      NonSpaceAppend(a[1..], b);
      calc {
        NonSpace(a + b);
        h + NonSpace(a[1..] + b);
        h + (NonSpace(a[1..]) + NonSpace(b));
        (h + NonSpace(a[1..])) + NonSpace(b);
      }
    } else {
      assert a + b == b;
    }
  }

  lemma NonSpaceSplit(s: string, k: nat)
    requires k <= |s|
    ensures NonSpace(s) == NonSpace(s[..k]) + NonSpace(s[k..])
  {
    assert s == s[..k] + s[k..];
    NonSpaceAppend(s[..k], s[k..]);
  }

  lemma {:induction false} NonSpaceOfSpaces(s: string)
    requires AllSpace(s)
    ensures NonSpace(s) == []
    decreases |s|
  {
    if s != [] {
      NonSpaceOfSpaces(s[1..]);
    }
  }

  lemma {:induction false} CollapseKeepsNonSpace(s: string)
    ensures NonSpace(CollapseSpaces(s)) == NonSpace(s)
    decreases |s|
  {
    if s != [] {
      if IsSpace(s[0]) {
        var n := LeadingSpaces(s);
        var rest := CollapseSpaces(s[n..]);
        CollapseKeepsNonSpace(s[n..]);
        NonSpaceSplit(s, n);
        NonSpaceOfSpaces(s[..n]);
        assert ([' '] + rest)[1..] == rest;
      } else {
        var rest := CollapseSpaces(s[1..]);
        CollapseKeepsNonSpace(s[1..]);
        assert ([s[0]] + rest)[1..] == rest;
      }
    }
  }

  lemma {:induction false} CollapseOfSingleSpaced(s: string)
    requires SingleSpaced(s)
    ensures CollapseSpaces(s) == s
    decreases |s|
  {
    if s != [] {
      assert SingleSpaced(s[1..]) by {
        forall i, j | 0 <= i && j == i + 1 && j < |s[1..]|
          ensures !(IsSpace(s[1..][i]) && IsSpace(s[1..][j]))
        {
          assert s[1..][i] == s[i + 1] && s[1..][j] == s[j + 1];
        }
      }
      CollapseOfSingleSpaced(s[1..]);
      if IsSpace(s[0]) {
        assert |s| > 1 ==> !IsSpace(s[1]);
        assert LeadingSpaces(s) == 1;
      }
      assert [s[0]] + s[1..] == s;
    }
  }

  lemma TrimKeepsSingleSpaced(c: string)
    requires SingleSpaced(c)
    ensures Tidy(Trim(c))
  {
    var a, b := TrimBounds(c);
    var r := c[a..b];
    forall i, j | 0 <= i && j == i + 1 && j < |r|
      ensures !(IsSpace(r[i]) && IsSpace(r[j]))
    {
      assert r[i] == c[a + i] && r[j] == c[a + j];
    }
  }

  lemma TrimKeepsNonSpace(c: string)
    ensures NonSpace(Trim(c)) == NonSpace(c)
  {
    var a, b := TrimBounds(c);
    var t := c[a..];
    var mid, tail := t[..b - a], t[b - a..];
    assert AllSpace(c[..a]) && AllSpace(tail);
    NonSpaceOfSpaces(c[..a]);
    NonSpaceOfSpaces(tail);
    calc {
      NonSpace(c);
      { NonSpaceSplit(c, a); }
      NonSpace(c[..a]) + NonSpace(t);
      NonSpace(t);
      { NonSpaceSplit(t, b - a); }
      NonSpace(mid) + NonSpace(tail);
      NonSpace(mid);
    }
    assert mid == Trim(c);
  }

  /** `re.sub(r'\s+', ' ', s).strip()`, and JavaScript's `replace(/\s+/g, ' ').trim()`. */
  function Squish(s: string): string
  {
    Trim(CollapseSpaces(s))
  }

  /** The result of `Squish` is tidy, keeps every non-space character in order,
      and leaves an already tidy string alone. */
  lemma SquishSpec(s: string)
    ensures Tidy(Squish(s))
    ensures NonSpace(Squish(s)) == NonSpace(s)
    ensures Tidy(s) ==> Squish(s) == s
  {
    TrimKeepsSingleSpaced(CollapseSpaces(s));
    CollapseKeepsNonSpace(s);
    TrimKeepsNonSpace(CollapseSpaces(s));
    if Tidy(s) {
      CollapseOfSingleSpaced(s);
      assert LeadingSpaces(s) == 0;
      assert TrailingStart(s) == |s|;
    }
  }

  /** Collapsing white space keeps every other character, and what it adds is a plain space. */
  lemma {:induction false} CollapseChars(s: string, p: char -> bool)
    requires forall i :: 0 <= i < |s| ==> p(s[i]) || IsSpace(s[i])
    ensures forall i :: 0 <= i < |CollapseSpaces(s)| ==> p(CollapseSpaces(s)[i]) || CollapseSpaces(s)[i] == ' '
    decreases |s|
  {
    if s != [] {
      var k := if IsSpace(s[0]) then LeadingSpaces(s) else 1;
      var t := s[k..];
      forall i | 0 <= i < |t|
        ensures p(t[i]) || IsSpace(t[i])
      {
        assert t[i] == s[k + i];
      }
      CollapseChars(t, p);
    }
  }

  /** A squished string holds only characters of the input and plain spaces. */
  lemma SquishChars(s: string, p: char -> bool)
    requires forall i :: 0 <= i < |s| ==> p(s[i]) || IsSpace(s[i])
    ensures forall i :: 0 <= i < |Squish(s)| ==> p(Squish(s)[i]) || Squish(s)[i] == ' '
  {
    CollapseChars(s, p);
    var a, b := TrimBounds(CollapseSpaces(s));
  }

  // ---------------------------------------------------------------------------
  // Python's str.title()
  // ---------------------------------------------------------------------------

  /** Title-casing with the flag "the previous character was cased". */
  function TitleFrom(s: string, afterCased: bool): (r: string)
    ensures |r| == |s|
    ensures forall i :: 0 <= i < |s| ==> (IsLetter(r[i]) <==> IsLetter(s[i]))
    ensures forall i :: 0 <= i < |s| ==> LowerChar(r[i]) == LowerChar(s[i])
    ensures forall i :: 0 <= i < |s| && !IsLetter(s[i]) ==> r[i] == s[i]
    ensures TitledFrom(r, afterCased)
    decreases |s|
  {
    if s == [] then []
    else
      var c := if !IsLetter(s[0]) then s[0]
               else if afterCased then LowerChar(s[0]) else UpperChar(s[0]);
      [c] + TitleFrom(s[1..], IsLetter(s[0]))
  }

  /** Every letter is upper case exactly when it starts a run of letters. */
  predicate TitledFrom(s: string, afterCased: bool) {
    forall i :: 0 <= i < |s| && IsLetter(s[i]) ==> (IsUpper(s[i]) <==> !CasedBefore(s, i, afterCased))
  }

  /** Whether the character before index `i` is cased; `afterCased` stands for the one before index 0. */
  predicate CasedBefore(s: string, i: int, afterCased: bool)
    requires 0 <= i <= |s|
  {
    if i == 0 then afterCased else IsLetter(s[i - 1])
  }

  /** `str.title()`. */
  function Title(s: string): (r: string)
  {
    TitleFrom(s, false)
  }

  predicate IsTitled(s: string) { TitledFrom(s, false) }

  /** A word of letters is title-cased by upper-casing its first letter and
      lower-casing the rest. */
  lemma TitleOfWord(w: string)
    requires w != [] && forall i :: 0 <= i < |w| ==> IsLetter(w[i])
    ensures Title(w) == [UpperChar(w[0])] + Lower(w[1..])
  {
    TitleAfterLetter(w[1..]);
  }

  lemma {:induction false} TitleAfterLetter(w: string)
    requires forall i :: 0 <= i < |w| ==> IsLetter(w[i])
    ensures TitleFrom(w, true) == Lower(w)
    decreases |w|
  {
    if w != [] {
      TitleAfterLetter(w[1..]);
      assert Lower(w) == [LowerChar(w[0])] + Lower(w[1..]);
    }
  }

  lemma {:induction false} TitleFromOfTitled(s: string, afterCased: bool)
    requires TitledFrom(s, afterCased)
    ensures TitleFrom(s, afterCased) == s
    decreases |s|
  {
    if s != [] {
      assert TitledFrom(s[1..], IsLetter(s[0])) by {
        forall i | 0 <= i < |s[1..]| && IsLetter(s[1..][i])
          ensures IsUpper(s[1..][i]) <==> !CasedBefore(s[1..], i, IsLetter(s[0]))
        {
          assert s[1..][i] == s[i + 1];
          assert CasedBefore(s, i + 1, afterCased) == CasedBefore(s[1..], i, IsLetter(s[0]));
        }
      }
      TitleFromOfTitled(s[1..], IsLetter(s[0]));
      if IsLetter(s[0]) {
        assert IsUpper(s[0]) <==> !afterCased;
      }
      assert [s[0]] + s[1..] == s;
    }
  }

  /** Title-casing changes only letters and keeps them letters, so it keeps
      a string tidy and keeps every character class closed under case. */
  lemma TitleKeepsTidy(s: string)
    requires Tidy(s)
    ensures Tidy(Title(s))
  {
    var r := Title(s);
    assert forall i :: 0 <= i < |s| ==> (IsSpace(r[i]) <==> IsSpace(s[i]));
  }

  lemma TitleChars(s: string, p: char -> bool)
    requires forall c :: IsLetter(c) ==> p(c)
    requires forall i :: 0 <= i < |s| ==> p(s[i])
    ensures forall i :: 0 <= i < |Title(s)| ==> p(Title(s)[i])
  {
  }

  // ---------------------------------------------------------------------------
  // Runs of characters, by index
  // ---------------------------------------------------------------------------

  /** End of the run of characters satisfying `p` that starts at `k`,
      stopping at `hi`: a greedy `p*`. */
  function RunEnd(s: string, k: nat, hi: nat, p: char -> bool): (r: nat)
    requires k <= hi <= |s|
    ensures k <= r <= hi
    decreases hi - k
  {
    if k < hi && p(s[k]) then RunEnd(s, k + 1, hi, p) else k
  }

  /** The run holds only characters satisfying `p`, and the next one does not. */
  lemma {:induction false} RunChars(s: string, k: nat, hi: nat, p: char -> bool)
    requires k <= hi <= |s|
    ensures forall i :: k <= i < RunEnd(s, k, hi, p) ==> p(s[i])
    ensures RunEnd(s, k, hi, p) < hi ==> !p(s[RunEnd(s, k, hi, p)])
    decreases hi - k
  {
    if k < hi && p(s[k]) {
      RunChars(s, k + 1, hi, p);
    }
  }

  /** A run ends at the first character that fails `p`. */
  lemma {:induction false} RunEndIs(s: string, k: nat, hi: nat, p: char -> bool, j: nat)
    requires k <= j < hi <= |s| && !p(s[j])
    requires forall i :: k <= i < j ==> p(s[i])
    ensures RunEnd(s, k, hi, p) == j
    decreases j - k
  {
    if k < j {
      RunEndIs(s, k + 1, hi, p, j);
    }
  }

  function SpaceEnd(s: string, k: nat, hi: nat): (r: nat)
    requires k <= hi <= |s|
    ensures k <= r <= hi
  {
    RunEnd(s, k, hi, IsSpace)
  }

  // ---------------------------------------------------------------------------
  // Splitting and joining on one character
  // ---------------------------------------------------------------------------

  /** `s.split(sep)` for a one-character separator (JavaScript and Python agree). */
  function Split(s: string, sep: char): (parts: seq<string>)
    ensures |parts| >= 1
    ensures forall i :: 0 <= i < |parts| ==> sep !in parts[i]
  {
    if s == [] then [[]]
    else
      var rest := Split(s[1..], sep);
      if s[0] == sep then [[]] + rest
      else [[s[0]] + rest[0]] + rest[1..]
  }

  /** `sep.join(parts)`. */
  function Join(parts: seq<string>, sep: char): string
  {
    if parts == [] then []
    else if |parts| == 1 then parts[0]
    else parts[0] + [sep] + Join(parts[1..], sep)
  }

  lemma {:induction false} SplitNoSep(s: string, sep: char)
    requires sep !in s
    ensures Split(s, sep) == [s]
    decreases |s|
  {
    if s != [] {
      SplitNoSep(s[1..], sep);
      assert [s[0]] + s[1..] == s;
    }
  }

  lemma {:induction false} SplitAtSep(a: string, b: string, sep: char)
    requires sep !in a
    ensures Split(a + [sep] + b, sep) == [a] + Split(b, sep)
    decreases |a|
  {
    var s := a + [sep] + b;
    if a == [] {
      assert s[1..] == b;
    } else {
      assert s[1..] == a[1..] + [sep] + b;
      SplitAtSep(a[1..], b, sep);
      assert [a[0]] + a[1..] == a;
    }
  }

  /** The first part of a split is the prefix of `s` before its first separator. */
  lemma {:induction false} SplitFirstPrefix(s: string, sep: char)
    ensures var a := Split(s, sep)[0];
      |a| <= |s| && s[..|a|] == a && (|a| == |s| || s[|a|] == sep)
    decreases |s|
  {
    if s != [] && s[0] != sep {
      SplitFirstPrefix(s[1..], sep);
      var a' := Split(s[1..], sep)[0];
      assert Split(s, sep)[0] == [s[0]] + a';
      assert s[..|a'| + 1] == [s[0]] + s[1..][..|a'|];
    }
  }

  lemma SplitFirstOf(x: string, y: string, sep: char)
    requires sep !in x
    requires y == [] || y[0] == sep
    ensures Split(x + y, sep)[0] == x
  {
    if y == [] {
      assert x + y == x;
      SplitNoSep(x, sep);
    } else {
      SplitAtSep(x, y[1..], sep);
      assert x + [sep] + y[1..] == x + y;
    }
  }

  /** Splitting a joined list gives the list back when no part holds the separator. */
  lemma {:induction false} SplitJoin(parts: seq<string>, sep: char)
    requires |parts| >= 1
    requires forall i :: 0 <= i < |parts| ==> sep !in parts[i]
    ensures Split(Join(parts, sep), sep) == parts
    decreases |parts|
  {
    if |parts| == 1 {
      SplitNoSep(parts[0], sep);
    } else {
      SplitJoin(parts[1..], sep);
      SplitAtSep(parts[0], Join(parts[1..], sep), sep);
      assert [parts[0]] + parts[1..] == parts;
    }
  }

  // ---------------------------------------------------------------------------
  // Python's str.split() without arguments
  // ---------------------------------------------------------------------------

  /** Length of the leading run of non-space characters. */
  function WordLength(s: string): (n: nat)
    ensures n <= |s|
    ensures forall i :: 0 <= i < n ==> !IsSpace(s[i])
    ensures n < |s| ==> IsSpace(s[n])
  {
    if s == [] || IsSpace(s[0]) then 0 else 1 + WordLength(s[1..])
  }

  /** The maximal runs of non-space characters, in order (`str.split()`):
      white space is skipped, and a non-space character starts a word that
      runs to the next white space. */
  function Words(s: string): seq<string>
    decreases |s|
  {
    if s == [] then []
    else if IsSpace(s[0]) then Words(s[1..])
    else
      var n := WordLength(s);
      [s[..n]] + Words(s[n..])
  }

  /** Every word is non-empty and free of white space. */
  lemma {:induction false} WordsShape(s: string)
    ensures forall i :: 0 <= i < |Words(s)| ==> Words(s)[i] != [] && NoSpace(Words(s)[i])
    decreases |s|
  {
    if s != [] && IsSpace(s[0]) {
      WordsShape(s[1..]);
    } else if s != [] {
      var n := WordLength(s);
      WordsShape(s[n..]);
      assert Words(s)[1..] == Words(s[n..]);
    }
  }

  /** White space before a word is skipped. */
  lemma WordsAfterSpace(c: char, t: string)
    requires IsSpace(c)
    ensures Words([c] + t) == Words(t)
  {
    assert ([c] + t)[1..] == t;
  }

  /** A word followed by nothing or by white space is the first word. */
  lemma WordsOfWordThen(w: string, t: string)
    requires w != [] && NoSpace(w)
    requires t == [] || IsSpace(t[0])
    ensures Words(w + t) == [w] + Words(t)
  {
    var s := w + t;
    var n := WordLength(s);
    assert forall i :: 0 <= i < |w| ==> s[i] == w[i];
    assert t != [] ==> s[|w|] == t[0];
    assert n == |w|;
    assert s[..n] == w;
    assert s[n..] == t;
  }

  /** `' '.join(words).split()` gives the words back. */
  lemma {:induction false} WordsOfJoin(ws: seq<string>)
    requires forall i :: 0 <= i < |ws| ==> ws[i] != [] && NoSpace(ws[i])
    ensures Words(Join(ws, ' ')) == ws
    decreases |ws|
  {
    if |ws| == 1 {
      WordsOfWordThen(ws[0], []);
      assert ws[0] + [] == ws[0];
    } else if ws != [] {
      WordsOfJoin(ws[1..]);
      WordsCons(ws[0], Join(ws[1..], ' '));
      assert [ws[0]] + ws[1..] == ws;
    }
  }

  lemma WordsCons(w: string, rest: string)
    requires w != [] && NoSpace(w)
    ensures Words(w + [' '] + rest) == [w] + Words(rest)
  {
    WordsAfterSpace(' ', rest);
    WordsOfWordThen(w, [' '] + rest);
    assert w + [' '] + rest == w + ([' '] + rest);
  }

  /** Words joined by single spaces start and end with a word character. */
  lemma {:induction false} JoinEnds(ws: seq<string>)
    requires |ws| >= 1
    requires forall i :: 0 <= i < |ws| ==> ws[i] != [] && NoSpace(ws[i])
    ensures var s := Join(ws, ' ');
      s != [] && !IsSpace(s[0]) && !IsSpace(s[|s| - 1])
    decreases |ws|
  {
    if |ws| > 1 {
      JoinEnds(ws[1..]);
    }
  }

  /** Each word lower-cased. */
  function LowerAll(ws: seq<string>): (r: seq<string>)
    ensures |r| == |ws| && forall i :: 0 <= i < |ws| ==> r[i] == Lower(ws[i])
  {
    seq(|ws|, i requires 0 <= i < |ws| => Lower(ws[i]))
  }

  /** Lower-casing a space-joined list lower-cases each part. */
  lemma {:induction false} LowerJoin(ws: seq<string>)
    ensures Lower(Join(ws, ' ')) == Join(LowerAll(ws), ' ')
    decreases |ws|
  {
    if |ws| > 1 {
      LowerJoin(ws[1..]);
      assert LowerAll(ws)[1..] == LowerAll(ws[1..]);
      LowerAppend(ws[0] + [' '], Join(ws[1..], ' '));
      LowerAppend(ws[0], [' ']);
    }
  }

  /** Lower-casing keeps a word a word. */
  lemma LowerWords(ws: seq<string>)
    requires forall i :: 0 <= i < |ws| ==> ws[i] != [] && NoSpace(ws[i])
    ensures forall i :: 0 <= i < |ws| ==> LowerAll(ws)[i] != [] && NoSpace(LowerAll(ws)[i])
  {
  }

  predicate NoUpper(s: string) {
    forall i :: 0 <= i < |s| ==> !IsUpper(s[i])
  }

  /** The words of a string without capitals have no capitals. */
  lemma {:induction false} NoUpperWords(s: string)
    requires NoUpper(s)
    ensures forall i :: 0 <= i < |Words(s)| ==> NoUpper(Words(s)[i])
    decreases |s|
  {
    if s != [] && IsSpace(s[0]) {
      NoUpperWords(s[1..]);
    } else if s != [] {
      var n := WordLength(s);
      NoUpperWords(s[n..]);
      assert Words(s)[1..] == Words(s[n..]);
    }
  }

  /** Joining parts without capitals by spaces makes no capitals. */
  lemma {:induction false} NoUpperJoin(ws: seq<string>)
    requires forall i :: 0 <= i < |ws| ==> NoUpper(ws[i])
    ensures NoUpper(Join(ws, ' '))
    decreases |ws|
  {
    if |ws| > 1 {
      NoUpperJoin(ws[1..]);
    }
  }

  /** `s.lower().strip()` has no capitals. */
  lemma NoUpperTrimLower(s: string)
    ensures NoUpper(Trim(Lower(s)))
  {
    var a, b := TrimBounds(Lower(s));
  }

  // ---------------------------------------------------------------------------
  // Decimal digits
  // ---------------------------------------------------------------------------

  predicate AllDigits(s: string) {
    forall i :: 0 <= i < |s| ==> IsDigit(s[i])
  }

  function DigitChar(d: nat): (c: char)
    requires d < 10
    ensures IsDigit(c)
  {
    ('0' as int + d) as char
  }

  function DigitValue(c: char): (d: nat)
    requires IsDigit(c)
    ensures d < 10 && DigitChar(d) == c
  {
    c as int - '0' as int
  }

  lemma DigitRoundTrip(d: nat)
    requires d < 10
    ensures DigitValue(DigitChar(d)) == d
  {
    assert (('0' as int + d) as char) as int == '0' as int + d;
  }

  /** The number a run of decimal digits denotes. */
  function DigitsValue(s: string): nat
    requires AllDigits(s)
  {
    if s == [] then 0 else DigitsValue(s[..|s| - 1]) * 10 + DigitValue(s[|s| - 1])
  }

  /** `String(n)` / `str(n)` for a natural number. */
  function NatToString(n: nat): (r: string)
    ensures r != [] && AllDigits(r)
  {
    if n < 10 then [DigitChar(n)] else NatToString(n / 10) + [DigitChar(n % 10)]
  }

  /** `String(n)` for an integer. */
  function IntToString(n: int): (r: string)
    ensures n >= 0 ==> r == NatToString(n)
    ensures n < 0 ==> r == "-" + NatToString(-n)
  {
    if n < 0 then "-" + NatToString(-n) else NatToString(n)
  }

  lemma {:induction false} NatToStringValue(n: nat)
    ensures DigitsValue(NatToString(n)) == n
  {
    if n >= 10 {
      NatToStringValue(n / 10);
      var s := NatToString(n);
      assert s[..|s| - 1] == NatToString(n / 10);
    }
  }

  lemma {:induction false} NatToStringLength(n: nat, k: nat)
    requires Pow10(k) <= n < Pow10(k + 1)
    ensures |NatToString(n)| == k + 1
  {
    if k > 0 {
      NatToStringLength(n / 10, k - 1);
    }
  }

  function Pow10(k: nat): (p: nat)
    ensures p >= 1
  {
    if k == 0 then 1 else 10 * Pow10(k - 1)
  }

  /** `String(n).padStart(width, "0")`. */
  function PadStart(s: string, width: nat, fill: char): (r: string)
    ensures |r| == if |s| >= width then |s| else width
    ensures r == Repeat(fill, |r| - |s|) + s
  {
    if |s| >= width then s else Repeat(fill, width - |s|) + s
  }

  function Repeat(c: char, n: nat): (r: string)
    ensures |r| == n && forall i :: 0 <= i < n ==> r[i] == c
  {
    seq(n, i => c)
  }

  /** Two-digit zero padding of a number below 100, as `pad` in the fetch script. */
  function Pad2(n: nat): (r: string)
    requires n < 100
    ensures |r| == 2 && AllDigits(r) && DigitsValue(r) == n
  {
    var s := NatToString(n);
    if n < 10 then
      assert s == [DigitChar(n)];
      var r := PadStart(s, 2, '0');
      assert r == ['0', DigitChar(n)];
      assert r[..1] == ['0'];
      assert DigitsValue(['0']) == 0 by {
        assert ['0'][..0] == [];
      }
      r
    else
      assert NatToString(n / 10) == [DigitChar(n / 10)];
      assert s == [DigitChar(n / 10), DigitChar(n % 10)];
      assert s[..1] == [DigitChar(n / 10)];
      assert DigitsValue([DigitChar(n / 10)]) == n / 10 by {
        assert [DigitChar(n / 10)][..0] == [];
      }
      PadStart(s, 2, '0')
  }
}
