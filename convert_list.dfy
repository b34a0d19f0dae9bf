/**
 * The scraper's clean-up of the crime list table (data_scraper/convert_list.py):
 * `clean_type`, `clean_location`, and the loop that turns the table's rows
 * into crime records. Each regular expression becomes a scanner over the
 * string; `\w`, `\s`, `\d` and case are those of ASCII.
 */
module ConvertList {
  import opened Wrappers
  import opened Text
  import opened Seqs

  // ===========================================================================
  // clean_type
  // ===========================================================================

  /** The separator "::" stands at index `k` of `s`. */
  predicate SepAt(s: string, k: int) {
    0 <= k && k + 1 < |s| && s[k] == ':' && s[k + 1] == ':'
  }

  /** Where the last part of `s.split("::")` starts. The scan from `i` finds
      separators left to right without overlap; `start` is where the part
      being scanned began. */
  function LastPartFrom(s: string, start: nat, i: nat): (r: nat)
    requires start <= i <= |s|
    ensures start <= r <= |s|
    decreases |s| - i
  {
    if i + 1 >= |s| then start
    else if SepAt(s, i) then LastPartFrom(s, i + 2, i + 2)
    else LastPartFrom(s, start, i + 1)
  }

  /** `s.split("::")[-1]`. */
  function LastPart(s: string): string {
    s[LastPartFrom(s, 0, 0)..]
  }

  /** Kept by `re.sub(r'[^\w\s]', '', s)`. */
  predicate Kept(c: char) {
    IsWordChar(c) || IsSpace(c)
  }

  /** The character classes of a cleaned type: word characters and plain spaces. */
  predicate TypeChar(c: char) {
    IsWordChar(c) || c == ' '
  }

  /** `clean_type`: the part after the last "::", without punctuation, with
      white space collapsed and trimmed, title-cased. */
  function CleanType(typeStr: string): string {
    if typeStr == [] then []
    else
      var t := if Contains(typeStr, "::") then LastPart(typeStr) else typeStr;
      Title(Squish(Filter(t, Kept)))
  }

  /** The last part starts right after a separator (or at 0 when there is
      none) and holds no separator. */
  lemma {:induction false} LastPartFromSpec(s: string, start: nat, i: nat)
    requires start <= i <= |s|
    requires forall k :: start <= k < i ==> !SepAt(s, k)
    requires start == 0 || SepAt(s, start - 2)
    ensures var r := LastPartFrom(s, start, i);
      && (r == 0 || SepAt(s, r - 2))
      && forall k :: r <= k ==> !SepAt(s, k)
    decreases |s| - i
  {
    if i + 1 < |s| {
      if SepAt(s, i) {
        LastPartFromSpec(s, i + 2, i + 2);
      } else {
        LastPartFromSpec(s, start, i + 1);
      }
    }
  }

  lemma SepAtOccurs(s: string, k: nat)
    requires SepAt(s, k)
    ensures Contains(s, "::")
  {
    assert s[k..k + 2] == "::";
    ContainsAt(s, "::", k);
  }

  /** A cleaned type is tidy (single spaces, none at either end), holds only
      word characters and spaces, and is title-cased; an empty type stays empty. */
  lemma CleanTypeSpec(typeStr: string)
    ensures var r := CleanType(typeStr);
      && (typeStr == [] ==> r == [])
      && Tidy(r)
      && (forall i :: 0 <= i < |r| ==> TypeChar(r[i]))
      && IsTitled(r)
  {
    if typeStr != [] {
      var t := if Contains(typeStr, "::") then LastPart(typeStr) else typeStr;
      var f := Filter(t, Kept);
      SquishChars(f, TypeChar);
      SquishSpec(f);
      TitleKeepsTidy(Squish(f));
      TitleChars(Squish(f), TypeChar);
    }
  }

  /** Cleaning a cleaned type changes nothing. */
  lemma CleanTypeIdempotent(typeStr: string)
    ensures CleanType(CleanType(typeStr)) == CleanType(typeStr)
  {
    var r := CleanType(typeStr);
    CleanTypeSpec(typeStr);
    if r != [] {
      NotContainsChar(r, "::", 0);
      FilterAll(r, Kept);
      SquishSpec(r);
      TitleFromOfTitled(r, false);
    }
  }

  /** Only the text after the last "::" counts: when `b` has no colon,
      `a::b` cleans like `b`, whatever `a` is. */
  lemma CleanTypeAfterSeparator(a: string, b: string)
    requires ':' !in b
    ensures CleanType(a + "::" + b) == CleanType(b)
  {
    var s := a + "::" + b;
    assert SepAt(s, |a|);
    SepAtOccurs(s, |a|);
    LastPartFromSpec(s, 0, 0);
    var r := LastPartFrom(s, 0, 0);
    assert r > |a| by {
      assert SepAt(s, |a|);
    }
    assert r == |a| + 1 || r == |a| + 2 by {
      assert forall k :: |a| + 2 <= k < |s| ==> s[k] == b[k - |a| - 2];
    }
    assert s[|a| + 2..] == b;
    var f := Filter(LastPart(s), Kept);
    if r == |a| + 1 {
      assert LastPart(s) == [':'] + b;
      assert ([':'] + b)[1..] == b;
    }
    assert f == Filter(b, Kept);
    if b != [] {
      NotContainsChar(b, "::", 0);
    }
  }

  /** A single word of letters after the last "::" comes out with its first
      letter upper-cased and the rest lower-cased. */
  lemma CleanTypeOfWord(a: string, w: string)
    requires w != [] && forall i :: 0 <= i < |w| ==> IsLetter(w[i])
    ensures CleanType(a + "::" + w) == [UpperChar(w[0])] + Lower(w[1..])
  {
    assert ':' !in w by {
      forall i | 0 <= i < |w|
        ensures w[i] != ':'
      {
        assert IsLetter(w[i]);
      }
    }
    CleanTypeAfterSeparator(a, w);
    CleanWord(w);
    TitleOfWord(w);
  }

  lemma CleanWord(w: string)
    requires w != [] && forall i :: 0 <= i < |w| ==> IsLetter(w[i])
    ensures CleanType(w) == Title(w)
  {
    NotContainsChar(w, "::", 0);
    FilterAll(w, Kept);
    assert Tidy(w) by {
      assert forall i :: 0 <= i < |w| ==> !IsSpace(w[i]);
    }
    SquishSpec(w);
  }

  /** The third example of the documentation: "ASSAULT::SIMPLE" gives "Simple". */
  lemma CleanTypeExample(a: string, b: string)
    requires |b| == 6 && b[0] == 'S' && b[1] == 'I' && b[2] == 'M' && b[3] == 'P' && b[4] == 'L' && b[5] == 'E'
    ensures CleanType(a + "::" + b) == "Simple"
  {
    CleanTypeOfWord(a, b);
    var t := b[1..];
    assert Lower(t) == "imple" by {
      assert |t| == 5 && t[0] == 'I' && t[1] == 'M' && t[2] == 'P' && t[3] == 'L' && t[4] == 'E';
    }
  }

  // ===========================================================================
  // clean_location
  // ===========================================================================

  const BlockWord: string := "block"
  const OfWord: string := "of"
  const PhelpsAve: string := "Phelps Ave"
  const PhelpsKey: string := "phelps ave"

  /** A match of `\b\d+\s*block\s+of\s+`, case ignored, starting at `i`:
      the index where it ends. Backtracking never helps this pattern, since
      each greedy run stops at a character the next part cannot start with. */
  function BlockOfAt(s: string, i: nat): (r: Option<nat>)
    ensures r.Some? ==> i < r.value <= |s|
  {
    if !(i < |s| && IsDigit(s[i]) && (i == 0 || !IsWordChar(s[i - 1]))) then None
    else
      var b := SpaceEnd(s, RunEnd(s, i, |s|, IsDigit), |s|);
      if !OccursAtIgnoreCase(s, BlockWord, b) then None
      else
        var o := SpaceEnd(s, b + 5, |s|);
        if o == b + 5 || !OccursAtIgnoreCase(s, OfWord, o) then None
        else
          var e := SpaceEnd(s, o + 2, |s|);
          if e == o + 2 then None else Some(e)
  }

  /** `re.sub(r'\b\d+\s*block\s+of\s+', '', s, flags=re.IGNORECASE)`, scanning
      from `i`: every match is deleted and the search resumes where it ended. */
  function RemoveBlocksFrom(s: string, i: nat): string
    requires i <= |s|
    decreases |s| - i
  {
    if i == |s| then []
    else match BlockOfAt(s, i)
      case Some(e) => RemoveBlocksFrom(s, e)
      case None => [s[i]] + RemoveBlocksFrom(s, i + 1)
  }

  /** `re.sub(r'^\d+\s*block\s*', '', s, flags=re.IGNORECASE)`. */
  function StripLeadingBlock(s: string): string {
    if s == [] || !IsDigit(s[0]) then s
    else
      var b := SpaceEnd(s, RunEnd(s, 0, |s|, IsDigit), |s|);
      if OccursAtIgnoreCase(s, BlockWord, b) then s[SpaceEnd(s, b + 5, |s|)..] else s
  }

  /** `re.sub(r'^\d+\s+', '', s)`. */
  function StripLeadingNumber(s: string): string {
    if s == [] || !IsDigit(s[0]) then s
    else
      var d := RunEnd(s, 0, |s|, IsDigit);
      var e := SpaceEnd(s, d, |s|);
      if e == d then s else s[e..]
  }

  /** The trimmed text before the first comma of the trimmed location. */
  function StreetPart(location: string): string {
    Trim(Split(Trim(location), ',')[0])
  }

  /** What follows the block-of removal: the leading block and number
      removals, white space, the Phelps Avenue rule and title case. */
  function Finish(loc: string): string {
    Title(PhelpsRule(Squish(StripLeadingNumber(StripLeadingBlock(loc)))))
  }

  /** Any location mentioning Phelps Avenue, in any case, becomes just that. */
  function PhelpsRule(loc: string): string {
    if Contains(Lower(loc), PhelpsKey) then PhelpsAve else loc
  }

  /** `clean_location`. */
  function CleanLocation(location: string): string {
    if location == [] then []
    else Finish(RemoveBlocksFrom(StreetPart(location), 0))
  }

  /** Deleting matches keeps only characters of the input. */
  lemma {:induction false} RemoveBlocksChars(s: string, i: nat, p: char -> bool)
    requires i <= |s|
    requires forall k :: i <= k < |s| ==> p(s[k])
    ensures forall k :: 0 <= k < |RemoveBlocksFrom(s, i)| ==> p(RemoveBlocksFrom(s, i)[k])
    decreases |s| - i
  {
    if i < |s| {
      match BlockOfAt(s, i)
      case Some(e) => RemoveBlocksChars(s, e, p);
      case None => RemoveBlocksChars(s, i + 1, p);
    }
  }

  /** With no match at or after `i`, nothing is deleted. */
  lemma {:induction false} RemoveBlocksNone(s: string, i: nat)
    requires i <= |s|
    requires forall k :: i <= k < |s| ==> BlockOfAt(s, k).None?
    ensures RemoveBlocksFrom(s, i) == s[i..]
    decreases |s| - i
  {
    if i < |s| {
      RemoveBlocksNone(s, i + 1);
      assert s[i..] == [s[i]] + s[i + 1..];
    }
  }

  predicate NotComma(c: char) {
    c != ','
  }

  lemma SliceChars(s: string, a: nat, b: nat, p: char -> bool)
    requires a <= b <= |s|
    requires forall k :: 0 <= k < |s| ==> p(s[k])
    ensures forall k :: 0 <= k < |s[a..b]| ==> p(s[a..b][k])
  {
  }

  lemma TrimChars(s: string, p: char -> bool)
    requires forall k :: 0 <= k < |s| ==> p(s[k])
    ensures forall k :: 0 <= k < |Trim(s)| ==> p(Trim(s)[k])
  {
    var a, b := TrimBounds(s);
    SliceChars(s, a, b, p);
  }

  lemma StripChars(s: string, p: char -> bool)
    requires forall k :: 0 <= k < |s| ==> p(s[k])
    ensures forall k :: 0 <= k < |StripLeadingNumber(StripLeadingBlock(s))| ==> p(StripLeadingNumber(StripLeadingBlock(s))[k])
  {
  }

  lemma PhelpsAveTidy()
    ensures Tidy(PhelpsAve) && NotComma(PhelpsAve[0])
    ensures forall k :: 0 <= k < |PhelpsAve| ==> NotComma(PhelpsAve[k])
  {
    TidyPair("Phelps", "Ave");
    assert PhelpsAve == "Phelps" + " " + "Ave";
  }

  /** The last steps keep a comma-free string comma-free and make it tidy
      and title-cased. */
  lemma FinishSpec(removed: string)
    requires forall k :: 0 <= k < |removed| ==> NotComma(removed[k])
    ensures var r := Finish(removed);
      && (forall k :: 0 <= k < |r| ==> r[k] != ',')
      && Tidy(r)
      && IsTitled(r)
  {
    var stripped := StripLeadingNumber(StripLeadingBlock(removed));
    StripChars(removed, NotComma);
    SquishChars(stripped, NotComma);
    SquishSpec(stripped);
    PhelpsRuleSpec(Squish(stripped));
    TitleKeepsTidy(PhelpsRule(Squish(stripped)));
    TitleChars(PhelpsRule(Squish(stripped)), NotComma);
  }

  lemma PhelpsRuleSpec(loc: string)
    requires Tidy(loc)
    requires forall k :: 0 <= k < |loc| ==> NotComma(loc[k])
    ensures Tidy(PhelpsRule(loc))
    ensures forall k :: 0 <= k < |PhelpsRule(loc)| ==> NotComma(PhelpsRule(loc)[k])
  {
    PhelpsAveTidy();
  }

  lemma StreetPartChars(location: string)
    ensures forall k :: 0 <= k < |StreetPart(location)| ==> NotComma(StreetPart(location)[k])
  {
    var part := Split(Trim(location), ',')[0];
    assert forall k :: 0 <= k < |part| ==> NotComma(part[k]);
    TrimChars(part, NotComma);
  }

  /** A cleaned location never holds a comma, is tidy and title-cased; an
      empty location stays empty. */
  lemma CleanLocationSpec(location: string)
    ensures var r := CleanLocation(location);
      && (location == [] ==> r == [])
      && (forall k :: 0 <= k < |r| ==> r[k] != ',')
      && Tidy(r)
      && IsTitled(r)
  {
    if location != [] {
      StreetPartChars(location);
      RemoveBlocksChars(StreetPart(location), 0, NotComma);
      FinishSpec(RemoveBlocksFrom(StreetPart(location), 0));
    }
  }

  /** Trimming the whole location first does not change the trimmed text
      before its first comma. */
  lemma StreetPartFirstComma(s: string)
    ensures StreetPart(s) == Trim(Split(s, ',')[0])
  {
    SplitFirstPrefix(s, ',');
    var a := Split(s, ',')[0];
    var rest := s[|a|..];
    assert s == a + rest;
    if rest == [] {
      assert s == a;
      TrimChars(a, NotComma);
      SplitNoSep(Trim(a), ',');
      TrimTrimmed(a);
    } else {
      CommaTail(a, rest);
    }
  }

  /** The part before a comma, followed by the rest from that comma on. */
  lemma CommaTail(a: string, rest: string)
    requires ',' !in a
    requires rest != [] && rest[0] == ','
    ensures Trim(Split(Trim(a + rest), ',')[0]) == Trim(a)
  {
    var i2, j2 := TrimBounds(rest);
    assert !IsSpace(rest[0]);
    assert i2 == 0;
    assert 0 < j2;
    var core2, post := rest[..j2], rest[j2..];
    assert rest == core2 + post;
    assert AllSpace(post);
    var i, j := TrimBounds(a);
    if i < j {
      CommaTailWord(a, i, j, core2, post);
    } else {
      assert AllSpace(a);
      assert a + rest == a + core2 + post;
      TrimOfPadded(a, core2, post);
      SplitFirstOf([], core2, ',');
      assert [] + core2 == core2;
    }
  }

  lemma CommaTailWord(a: string, i: nat, j: nat, core2: string, post: string)
    requires ',' !in a
    requires i < j <= |a| && Trim(a) == a[i..j]
    requires AllSpace(a[..i]) && AllSpace(a[j..])
    requires !IsSpace(a[i]) && !IsSpace(a[j - 1])
    requires core2 != [] && core2[0] == ',' && !IsSpace(core2[|core2| - 1])
    requires AllSpace(post)
    ensures Trim(Split(Trim(a + (core2 + post)), ',')[0]) == Trim(a)
  {
    TrimPaddedAt(a, i, core2, post);
    assert ',' !in a[i..];
    SplitFirstOf(a[i..], core2, ',');
    TrimFrom(a, i, j);
  }

  lemma FinishEmpty()
    ensures Finish([]) == []
  {
    assert Squish([]) == [];
    assert !Contains(Lower([]), PhelpsKey);
  }

  /** Only the text before the first comma matters. */
  lemma CleanLocationFirstComma(s: string)
    ensures CleanLocation(s) == CleanLocation(Split(s, ',')[0])
  {
    var a := Split(s, ',')[0];
    StreetPartFirstComma(s);
    StreetPartFirstComma(a);
    SplitNoSep(a, ',');
    if s != [] && a == [] {
      FinishEmpty();
    }
  }

  /** A street name as it appears after the number: tidy, with no digit and
      no comma. */
  predicate PlainStreet(street: string) {
    && street != []
    && Tidy(street)
    && forall k :: 0 <= k < |street| ==> !IsDigit(street[k]) && street[k] != ','
  }

  /** A comma-free string with no white space at either end is its own street part. */
  lemma StreetPartOfTrimmed(s: string)
    requires forall k :: 0 <= k < |s| ==> s[k] != ','
    requires s != [] ==> !IsSpace(s[0]) && !IsSpace(s[|s| - 1])
    ensures StreetPart(s) == s
  {
    TrimOfPadded([], s, []);
    assert [] + s + [] == s;
    SplitNoSep(s, ',');
  }

  /** A plain street is only title-cased, unless it mentions Phelps Avenue. */
  lemma CleanPlainStreet(street: string)
    requires PlainStreet(street)
    ensures !Contains(Lower(street), PhelpsKey) ==> CleanLocation(street) == Title(street)
    ensures Contains(Lower(street), PhelpsKey) ==> CleanLocation(street) == PhelpsAve
  {
    StreetPartOfTrimmed(street);
    RemoveBlocksNone(street, 0);
    SquishSpec(street);
    PhelpsAveTitled();
  }

  lemma PhelpsAveTitled()
    ensures Title(PhelpsAve) == PhelpsAve
  {
    assert IsTitled(PhelpsAve) by {
      assert forall i :: 0 <= i < |PhelpsAve| ==> PhelpsAve[i] == "Phelps Ave"[i];
    }
    TitleFromOfTitled(PhelpsAve, false);
  }

  /** Title-casing does not change the lower-case form. */
  lemma LowerTitle(s: string)
    ensures Lower(Title(s)) == Lower(s)
  {
  }

  /** Whatever the input, a cleaned location that mentions Phelps Avenue is
      exactly "Phelps Ave". */
  lemma CleanLocationPhelps(location: string)
    ensures Contains(Lower(CleanLocation(location)), PhelpsKey) ==> CleanLocation(location) == PhelpsAve
  {
    if location != [] {
      var loc := Squish(StripLeadingNumber(StripLeadingBlock(RemoveBlocksFrom(StreetPart(location), 0))));
      PhelpsAveTitled();
      LowerTitle(loc);
    }
  }

  /** The words of a phrase "<w1> <w2> " with a space before each, by index. */
  lemma PhraseChars(w1: string, w2: string)
    ensures var m := [' '] + w1 + [' '] + w2 + [' '];
      && |m| == |w1| + |w2| + 3
      && m[0] == ' ' && m[|w1| + 1] == ' ' && m[|w1| + |w2| + 2] == ' '
      && (forall j :: 0 <= j < |w1| ==> m[1 + j] == w1[j])
      && (forall j :: 0 <= j < |w2| ==> m[|w1| + 2 + j] == w2[j])
  {
  }

  /** "<digits> block of <street>", in any case, cleans like the street alone. */
  lemma BlockOfStreet(n: string, w1: string, w2: string, street: string)
    requires n != [] && AllDigits(n)
    requires Lower(w1) == BlockWord && Lower(w2) == OfWord
    requires PlainStreet(street)
    ensures CleanLocation(n + [' '] + w1 + [' '] + w2 + [' '] + street) == CleanLocation(street)
  {
    var m := [' '] + w1 + [' '] + w2 + [' '];
    var s := n + m + street;
    assert s == n + [' '] + w1 + [' '] + w2 + [' '] + street;
    BlockOfPhrase(n, w1, w2, street);
    RemoveBlocksAfter(s, |n| + 10, street);
    PhraseNoComma(w1, w2);
    PhraseStreetPart(n, m, street);
    assert CleanLocation(s) == Finish(street);
    PlainStreetPart(street);
  }

  lemma PhraseNoComma(w1: string, w2: string)
    requires Lower(w1) == BlockWord && Lower(w2) == OfWord
    ensures var m := [' '] + w1 + [' '] + w2 + [' '];
      forall k :: 0 <= k < |m| ==> m[k] != ','
  {
    PhraseChars(w1, w2);
    forall j | 0 <= j < 5
      ensures w1[j] != ','
    {
      assert LowerChar(w1[j]) == BlockWord[j];
    }
    forall j | 0 <= j < 2
      ensures w2[j] != ','
    {
      assert LowerChar(w2[j]) == OfWord[j];
    }
  }

  lemma PlainStreetPart(street: string)
    requires PlainStreet(street)
    ensures CleanLocation(street) == Finish(street)
  {
    StreetPartOfTrimmed(street);
    RemoveBlocksAfter(street, 0, street);
  }

  /** Digits, a comma-free phrase and a plain street make their own street part. */
  lemma PhraseStreetPart(n: string, m: string, street: string)
    requires n != [] && AllDigits(n) && PlainStreet(street)
    requires forall k :: 0 <= k < |m| ==> m[k] != ','
    ensures StreetPart(n + m + street) == n + m + street
  {
    var s := n + m + street;
    forall k | 0 <= k < |s|
      ensures s[k] != ','
    {
      if k < |n| {
        assert s[k] == n[k];
      } else if k < |n| + |m| {
        assert s[k] == m[k - |n|];
      } else {
        assert s[k] == street[k - |n| - |m|];
      }
    }
    assert s[|s| - 1] == street[|street| - 1];
    StreetPartOfTrimmed(s);
  }

  /** Past `k` the string is a plain street, so nothing more is removed. */
  lemma RemoveBlocksAfter(s: string, k: nat, street: string)
    requires k <= |s| && s[k..] == street && PlainStreet(street)
    ensures RemoveBlocksFrom(s, k) == street
  {
    forall i | k <= i < |s|
      ensures BlockOfAt(s, i).None?
    {
      assert s[i] == street[i - k];
    }
    RemoveBlocksNone(s, k);
  }

  lemma BlockOfPhrase(n: string, w1: string, w2: string, street: string)
    requires n != [] && AllDigits(n)
    requires Lower(w1) == BlockWord && Lower(w2) == OfWord
    requires PlainStreet(street)
    ensures var s := n + ([' '] + w1 + [' '] + w2 + [' ']) + street;
      && s[|n| + 10..] == street
      && BlockOfAt(s, 0) == Some(|n| + 10)
  {
    var m := [' '] + w1 + [' '] + w2 + [' '];
    var s := n + m + street;
    var d := |n|;
    PhraseChars(w1, w2);
    Middle(n, m, street);
    assert s[d + 10..] == street;

    assert OccursAtIgnoreCase(s, BlockWord, d + 1) by {
      forall j | 0 <= j < 5
        ensures LowerChar(s[d + 1 + j]) == BlockWord[j]
      {
        assert s[d + 1 + j] == w1[j];
      }
    }
    assert OccursAtIgnoreCase(s, OfWord, d + 7) by {
      forall j | 0 <= j < 2
        ensures LowerChar(s[d + 7 + j]) == OfWord[j]
      {
        assert s[d + 7 + j] == w2[j];
      }
    }
    BlockOfAtIs(s, d);
  }

  /** The block-of pattern, read by index. */
  lemma BlockOfAtIs(s: string, d: nat)
    requires 0 < d && d + 10 < |s|
    requires forall k :: 0 <= k < d ==> IsDigit(s[k])
    requires s[d] == ' ' && s[d + 6] == ' ' && s[d + 9] == ' '
    requires OccursAtIgnoreCase(s, BlockWord, d + 1) && OccursAtIgnoreCase(s, OfWord, d + 7)
    requires !IsSpace(s[d + 10])
    ensures BlockOfAt(s, 0) == Some(d + 10)
  {
    assert LowerChar(s[d + 1 + 0]) == BlockWord[0] && LowerChar(s[d + 7 + 0]) == OfWord[0];
    RunEndIs(s, 0, |s|, IsDigit, d);
    RunEndIs(s, d, |s|, IsSpace, d + 1);
    RunEndIs(s, d + 6, |s|, IsSpace, d + 7);
    RunEndIs(s, d + 9, |s|, IsSpace, d + 10);
  }

  /** With digits up to `d`, no match at 0, and no digit from `d` on, nothing
      is removed. */
  lemma RemoveBlocksNoneAfterDigits(s: string, d: nat)
    requires d <= |s|
    requires forall k :: 0 <= k < d ==> IsDigit(s[k])
    requires BlockOfAt(s, 0).None?
    requires forall k :: d <= k < |s| ==> !IsDigit(s[k])
    ensures RemoveBlocksFrom(s, 0) == s
  {
    forall k | 0 <= k < |s|
      ensures BlockOfAt(s, k).None?
    {
      if 0 < k < d {
        assert IsWordChar(s[k - 1]);
      }
    }
    RemoveBlocksNone(s, 0);
  }

  /** "<digits> block <street>", in any case and without "of", cleans like the
      street alone, provided the street does not itself start with "of". */
  lemma LeadingBlockStreet(n: string, w1: string, street: string)
    requires n != [] && AllDigits(n)
    requires Lower(w1) == BlockWord
    requires PlainStreet(street) && LowerChar(street[0]) != 'o'
    ensures CleanLocation(n + [' '] + w1 + [' '] + street) == CleanLocation(street)
  {
    var m := [' '] + w1 + [' '];
    var s := n + m + street;
    assert s == n + [' '] + w1 + [' '] + street;
    LeadingBlockPhrase(n, w1, street);
    BlockWordNoComma(w1);
    PhraseStreetPart(n, m, street);
    PlainStreetPart(street);
  }

  lemma BlockWordNoComma(w1: string)
    requires Lower(w1) == BlockWord
    ensures forall k :: 0 <= k < |[' '] + w1 + [' ']| ==> ([' '] + w1 + [' '])[k] != ','
  {
    forall j | 0 <= j < 5
      ensures w1[j] != ','
    {
      assert LowerChar(w1[j]) == BlockWord[j];
    }
  }

  lemma LeadingBlockPhrase(n: string, w1: string, street: string)
    requires n != [] && AllDigits(n)
    requires Lower(w1) == BlockWord
    requires PlainStreet(street) && LowerChar(street[0]) != 'o'
    ensures var s := n + ([' '] + w1 + [' ']) + street;
      && RemoveBlocksFrom(s, 0) == s
      && StripLeadingBlock(s) == street
  {
    var m := [' '] + w1 + [' '];
    var s := n + m + street;
    var d := |n|;
    Middle(n, m, street);
    assert s[d + 7..] == street;
    assert OccursAtIgnoreCase(s, BlockWord, d + 1) by {
      forall j | 0 <= j < 5
        ensures LowerChar(s[d + 1 + j]) == BlockWord[j]
      {
        assert s[d + 1 + j] == w1[j];
      }
    }
    forall k | d <= k < |s|
      ensures !IsDigit(s[k])
    {
      if k < d + 7 {
        assert s[k] == m[k - d];
        if 0 < k - d < 6 {
          assert LowerChar(w1[k - d - 1]) == BlockWord[k - d - 1];
        }
      } else {
        assert s[k] == street[k - d - 7];
      }
    }
    LeadingBlockAt(s, d);
    RemoveBlocksNoneAfterDigits(s, d);
  }

  /** A leading block number without "of", read by index. */
  lemma LeadingBlockAt(s: string, d: nat)
    requires 0 < d && d + 7 < |s|
    requires forall k :: 0 <= k < d ==> IsDigit(s[k])
    requires s[d] == ' ' && s[d + 6] == ' '
    requires OccursAtIgnoreCase(s, BlockWord, d + 1)
    requires !IsSpace(s[d + 7]) && LowerChar(s[d + 7]) != 'o'
    ensures BlockOfAt(s, 0).None?
    ensures StripLeadingBlock(s) == s[d + 7..]
  {
    assert LowerChar(s[d + 1 + 0]) == BlockWord[0];
    RunEndIs(s, 0, |s|, IsDigit, d);
    RunEndIs(s, d, |s|, IsSpace, d + 1);
    RunEndIs(s, d + 6, |s|, IsSpace, d + 7);
    assert !OccursAtIgnoreCase(s, OfWord, d + 7) by {
      assert OfWord[0] == 'o';
    }
  }

  /** "<digits> <street>" cleans like the street alone, unless the street
      starts with "block". */
  lemma LeadingNumberStreet(n: string, street: string)
    requires n != [] && AllDigits(n)
    requires PlainStreet(street) && !OccursAtIgnoreCase(street, BlockWord, 0)
    ensures CleanLocation(n + [' '] + street) == CleanLocation(street)
  {
    var s := n + [' '] + street;
    LeadingNumberStrips(n, street);
    PhraseStreetPart(n, [' '], street);
    FinishOfStripped(s, street);
    PlainStreetPart(street);
  }

  /** Nothing in "<digits> <street>" matches the block-of pattern, and the
      leading-number rule leaves just the street. */
  lemma LeadingNumberStrips(n: string, street: string)
    requires n != [] && AllDigits(n)
    requires PlainStreet(street) && !OccursAtIgnoreCase(street, BlockWord, 0)
    ensures RemoveBlocksFrom(n + [' '] + street, 0) == n + [' '] + street
    ensures StripLeadingNumber(StripLeadingBlock(n + [' '] + street)) == street
  {
    var s := n + [' '] + street;
    var d := |n|;
    assert s[d + 1..] == street;
    OccursAtIgnoreCaseSuffix(s, d + 1, BlockWord);
    assert s[d] == ' ';
    assert forall k :: d <= k < |s| ==> !IsDigit(s[k]) by {
      assert forall k :: d + 1 <= k < |s| ==> s[k] == street[k - d - 1];
    }
    RunEndIs(s, 0, |s|, IsDigit, d);
    RunEndIs(s, d, |s|, IsSpace, d + 1);
    RemoveBlocksNoneAfterDigits(s, d);
  }

  /** Once the leading rules have left a plain street, the rest of the
      cleaning is that of the street. */
  lemma FinishOfStripped(s: string, street: string)
    requires PlainStreet(street)
    requires StripLeadingNumber(StripLeadingBlock(s)) == street
    ensures Finish(s) == Finish(street)
  {
    assert !IsDigit(street[0]);
  }

  // ===========================================================================
  // Rows of the crime table
  // ===========================================================================

  /** One crime as written to crime_list.json. */
  datatype ListedCrime = ListedCrime(crimeType: string, recordId: string, time: string, location: string)

  /** The crime of a row's cell texts: cells 0 to 3, the type and the location cleaned. */
  function RowCrime(cells: seq<string>): (c: ListedCrime)
    requires |cells| >= 4
    ensures c.crimeType == CleanType(cells[0]) && c.location == CleanLocation(cells[3])
    ensures c.recordId == cells[1] && c.time == cells[2]
  {
    ListedCrime(CleanType(cells[0]), cells[1], cells[2], CleanLocation(cells[3]))
  }

  /** A row with at least the four cells the table promises. */
  predicate FullRow(cells: seq<string>) {
    |cells| >= 4
  }

  /** The crimes of the given body rows, short rows skipped. */
  function RowsCrimes(rows: seq<seq<string>>): seq<ListedCrime>
  {
    if rows == [] then []
    else (if FullRow(rows[0]) then [RowCrime(rows[0])] else []) + RowsCrimes(rows[1..])
  }

  lemma {:induction false} RowsCrimesAppend(rows: seq<seq<string>>, row: seq<string>)
    ensures RowsCrimes(rows + [row]) == RowsCrimes(rows) + (if FullRow(row) then [RowCrime(row)] else [])
    decreases |rows|
  {
    if rows == [] {
      assert rows + [row] == [row];
    } else {
      assert (rows + [row])[1..] == rows[1..] + [row];
      RowsCrimesAppend(rows[1..], row);
    }
  }

  /** The loop over the table's rows: the header row is skipped, and so is
      every row with fewer than four cells. */
  method ExtractCrimes(rows: seq<seq<string>>) returns (crimeData: seq<ListedCrime>)
    ensures crimeData == RowsCrimes(if rows == [] then [] else rows[1..])
  {
    crimeData := [];
    if rows == [] {
      return;
    }
    var i := 1;
    while i < |rows|
      invariant 1 <= i <= |rows|
      invariant crimeData == RowsCrimes(rows[1..i])
    {
      var cells := rows[i];
      RowsCrimesNext(rows, i);
      if |cells| < 4 {
        i := i + 1;
        continue;
      }
      var crime := ListedCrime(CleanType(cells[0]), cells[1], cells[2], CleanLocation(cells[3]));
      crimeData := crimeData + [crime];
      i := i + 1;
    }
    assert rows[1..i] == rows[1..];
  }

  lemma RowsCrimesNext(rows: seq<seq<string>>, i: nat)
    requires 1 <= i < |rows|
    ensures RowsCrimes(rows[1..i + 1])
      == RowsCrimes(rows[1..i]) + (if FullRow(rows[i]) then [RowCrime(rows[i])] else [])
  {
    RowsCrimesAppend(rows[1..i], rows[i]);
    assert rows[1..i + 1] == rows[1..i] + [rows[i]];
  }

  /** Reference reading of the loop: keep the full rows, then turn each into
      its crime, in order. */
  lemma {:induction false} RowsCrimesSpec(rows: seq<seq<string>>)
    ensures var full := Filter(rows, FullRow);
      && |RowsCrimes(rows)| == |full|
      && forall j :: 0 <= j < |full| ==> RowsCrimes(rows)[j] == RowCrime(full[j])
    decreases |rows|
  {
    if rows != [] {
      var rest := rows[1..];
      RowsCrimesSpec(rest);
      var full := Filter(rows, FullRow);
      var fullRest := Filter(rest, FullRow);
      var out := RowsCrimes(rows);
      var outRest := RowsCrimes(rest);
      if FullRow(rows[0]) {
        assert full == [rows[0]] + fullRest;
        assert out == [RowCrime(rows[0])] + outRest;
        forall j | 0 <= j < |full|
          ensures out[j] == RowCrime(full[j])
        {
          if j > 0 {
            assert out[j] == outRest[j - 1] && full[j] == fullRest[j - 1];
          }
        }
      } else {
        assert full == fullRest && out == outRest;
      }
    }
  }
}
