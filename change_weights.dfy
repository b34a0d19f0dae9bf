/**
 * Weighted crime scores per street (osm/change_weights.py): each category
 * count of the street-by-category counter is multiplied by the category's
 * weight and summed per street; the scores are then keyed by a normalised
 * street name (all words but the last, lower-cased) and looked up for road
 * names. Python floats are modelled as reals.
 */
module ChangeWeights {
  import opened Wrappers
  import opened Text
  import opened Dicts
  import CountCrimes

  type Counts = CountCrimes.Counts

  /** `crime_weights`. */
  const CrimeWeights: Dict<string, real> := [
    ("Murder", 5.0),
    ("Aggravated Assault", 3.0),
    ("Robbery", 2.5),
    ("Burglary", 1.5),
    ("Arson", 1.5),
    ("Simple Assault", 1.0)
  ]

  /** `weights.get(category, 1.0)`. */
  function Weight(weights: Dict<string, real>, category: string): real {
    GetOr(weights, category, 1.0)
  }

  /** The keys of the table have pairwise different lengths, hence are distinct. */
  lemma WeightKeyLengths()
    ensures |CrimeWeights[0].0| == 6 && |CrimeWeights[1].0| == 18 && |CrimeWeights[2].0| == 7
    ensures |CrimeWeights[3].0| == 8 && |CrimeWeights[4].0| == 5 && |CrimeWeights[5].0| == 14
  {
  }

  /** Each listed category weighs what the table lists for it. */
  lemma WeightListed(i: nat)
    requires i < |CrimeWeights|
    ensures Weight(CrimeWeights, CrimeWeights[i].0) == CrimeWeights[i].1
  {
    WeightKeyLengths();
    GetAt(CrimeWeights, CrimeWeights[i].0, i);
  }

  /** The weights by name: Murder 5, Aggravated Assault 3, Robbery 2.5,
      Burglary and Arson 1.5, Simple Assault 1. */
  lemma WeightTable()
    ensures Weight(CrimeWeights, "Murder") == 5.0 && Weight(CrimeWeights, "Aggravated Assault") == 3.0
    ensures Weight(CrimeWeights, "Robbery") == 2.5 && Weight(CrimeWeights, "Burglary") == 1.5
    ensures Weight(CrimeWeights, "Arson") == 1.5 && Weight(CrimeWeights, "Simple Assault") == 1.0
  {
    WeightListed(0);
    WeightListed(1);
    WeightListed(2);
    WeightListed(3);
    WeightListed(4);
    WeightListed(5);
  }

  /** Any category outside the table, such as "Shooting", weighs 1. */
  lemma WeightDefault(category: string)
    requires !HasKey(CrimeWeights, category)
    ensures Weight(CrimeWeights, category) == 1.0
  {
  }

  /** Every weight lies between 1 and 5. */
  lemma WeightRange(category: string)
    ensures 1.0 <= Weight(CrimeWeights, category) <= 5.0
  {
    GetOrIn(CrimeWeights, category, 1.0);
  }

  /** Σ count × weight over a street's categories. */
  function StreetScore(weights: Dict<string, real>, categories: Dict<string, int>): real {
    if categories == [] then 0.0
    else categories[0].1 as real * Weight(weights, categories[0].0) + StreetScore(weights, categories[1..])
  }

  lemma {:induction false} StreetScoreAppend(weights: Dict<string, real>, categories: Dict<string, int>,
                                             category: string, count: int)
    ensures StreetScore(weights, categories + [(category, count)])
      == StreetScore(weights, categories) + count as real * Weight(weights, category)
    decreases |categories|
  {
    if categories != [] {
      assert (categories + [(category, count)])[1..] == categories[1..] + [(category, count)];
      StreetScoreAppend(weights, categories[1..], category, count);
    }
  }

  lemma StreetScoreNext(weights: Dict<string, real>, categories: Dict<string, int>, j: nat)
    requires j < |categories|
    ensures StreetScore(weights, categories[..j + 1])
      == StreetScore(weights, categories[..j]) + categories[j].1 as real * Weight(weights, categories[j].0)
  {
    assert categories[..j + 1] == categories[..j] + [categories[j]];
    StreetScoreAppend(weights, categories[..j], categories[j].0, categories[j].1);
  }

  /** Every weight of the table lies between 1 and 5. */
  ghost predicate WeightsInRange(weights: Dict<string, real>) {
    forall c :: 1.0 <= Weight(weights, c) <= 5.0
  }

  lemma CrimeWeightsInRange()
    ensures WeightsInRange(CrimeWeights)
  {
    forall c {
      WeightRange(c);
    }
  }

  /** For non-negative counts the score is at least the number of crimes and
      at most five times it; in particular it is never negative. */
  lemma {:induction false} StreetScoreBounds(weights: Dict<string, real>, categories: Dict<string, int>)
    requires WeightsInRange(weights)
    requires forall i :: 0 <= i < |categories| ==> categories[i].1 >= 0
    ensures CountCrimes.StreetTotal(categories) as real <= StreetScore(weights, categories)
    ensures StreetScore(weights, categories) <= 5.0 * CountCrimes.StreetTotal(categories) as real
    decreases |categories|
  {
    if categories != [] {
      var rest := categories[1..];
      var count := categories[0].1 as real;
      var w := Weight(weights, categories[0].0);
      StreetScoreBounds(weights, rest);
      var term := ScaleBounds(count, w);
      assert StreetScore(weights, categories) == term + StreetScore(weights, rest);
      assert CountCrimes.StreetTotal(categories) as real == count + CountCrimes.StreetTotal(rest) as real;
    }
  }

  /** `count × weight`, between the count and five times it. */
  lemma ScaleBounds(count: real, w: real) returns (term: real)
    requires count >= 0.0 && 1.0 <= w <= 5.0
    ensures term == count * w
    ensures count <= term <= 5.0 * count
  {
    term := count * w;
    assert term - count == count * (w - 1.0);
    assert 5.0 * count - term == count * (5.0 - w);
  }

  /** Each street paired with its score, in the counter's order. */
  function ScorePairs(weights: Dict<string, real>, crimeData: Counts): (r: seq<(string, real)>)
    ensures |r| == |crimeData|
    ensures forall i :: 0 <= i < |r| ==> r[i] == (crimeData[i].0, StreetScore(weights, crimeData[i].1))
  {
    seq(|crimeData|, i requires 0 <= i < |crimeData| => (crimeData[i].0, StreetScore(weights, crimeData[i].1)))
  }

  /** The nested loops of change_weights.py that build `crime_scores`. */
  method ComputeScores(crimeData: Counts) returns (crimeScores: Dict<string, real>)
    ensures crimeScores == FromPairs(ScorePairs(CrimeWeights, crimeData))
  {
    crimeScores := ComputeScoresWith(CrimeWeights, crimeData);
  }

  /** The same loops over any weight table. */
  method ComputeScoresWith(weights: Dict<string, real>, crimeData: Counts) returns (crimeScores: Dict<string, real>)
    ensures crimeScores == FromPairs(ScorePairs(weights, crimeData))
  {
    crimeScores := [];
    var i := 0;
    while i < |crimeData|
      invariant 0 <= i <= |crimeData|
      invariant crimeScores == FromPairs(ScorePairs(weights, crimeData[..i]))
    {
      var (street, categories) := crimeData[i];
      var score: real := 0.0;
      var j := 0;
      while j < |categories|
        invariant 0 <= j <= |categories|
        invariant score == StreetScore(weights, categories[..j])
      {
        var (category, count) := categories[j];
        var weight := GetOr(weights, category, 1.0);
        StreetScoreNext(weights, categories, j);
        score := score + count as real * weight;
        j := j + 1;
      }
      assert categories[..j] == categories;
      ScorePairsNext(weights, crimeData, i);
      FromPairsAppend(ScorePairs(weights, crimeData[..i]), street, score);
      crimeScores := Put(crimeScores, street, score);
      i := i + 1;
    }
    assert crimeData[..i] == crimeData;
  }

  lemma ScorePairsNext(weights: Dict<string, real>, crimeData: Counts, i: nat)
    requires i < |crimeData|
    ensures ScorePairs(weights, crimeData[..i + 1])
      == ScorePairs(weights, crimeData[..i]) + [(crimeData[i].0, StreetScore(weights, crimeData[i].1))]
  {
  }

  /** Every street of the counter gets its score; since the counter's streets
      are distinct, no street's score is overwritten. */
  lemma ScoreOfStreet(weights: Dict<string, real>, crimeData: Counts, i: nat)
    requires DistinctKeys(crimeData) && i < |crimeData|
    ensures Get(FromPairs(ScorePairs(weights, crimeData)), crimeData[i].0)
      == Some(StreetScore(weights, crimeData[i].1))
  {
    FromPairsLast(ScorePairs(weights, crimeData), crimeData[i].0, i);
  }

  /** The scores built from a well-formed counter are at least 1 per crime. */
  lemma ScoresPositive(crimeData: Counts, i: nat)
    requires CountCrimes.WellFormed(crimeData) && i < |crimeData|
    ensures StreetScore(CrimeWeights, crimeData[i].1) >= CountCrimes.StreetTotal(crimeData[i].1) as real >= 1.0
  {
    var inner := crimeData[i].1;
    assert crimeData[i] in crimeData;
    assert forall k :: 0 <= k < |inner| ==> inner[k] in inner;
    CrimeWeightsInRange();
    StreetScoreBounds(CrimeWeights, inner);
    TotalAtLeastFirst(inner);
  }

  lemma {:induction false} TotalAtLeastFirst(inner: Dict<string, int>)
    requires inner != [] && forall e :: e in inner ==> e.1 >= 1
    ensures CountCrimes.StreetTotal(inner) >= 1
    decreases |inner|
  {
    if |inner| > 1 {
      assert forall e :: e in inner[1..] ==> e in inner;
      TotalAtLeastFirst(inner[1..]);
    }
  }

  /** A cell of the road table's `name` column: a string, or anything else
      pandas may hold there (a missing value, a list of names). */
  datatype Cell = Str(s: string) | NonString

  /** `normalize_street_name`. */
  function NormalizeStreetName(name: Cell): (key: string)
    ensures NoUpper(key)
  {
    match name
    case NonString => []
    case Str(s) =>
      if s == [] then []
      else
        NoUpperTrimLower(s);
        NoUpperWords(Trim(Lower(s)));
        KeyOfWords(Words(Trim(Lower(s))))
  }

  /** The key made from the words of a name: the only word, or all words but
      the last joined by single spaces. */
  function KeyOfWords(parts: seq<string>): (key: string)
    requires forall i :: 0 <= i < |parts| ==> NoUpper(parts[i])
    ensures NoUpper(key)
  {
    if |parts| <= 1 then (if parts == [] then [] else parts[0])
    else
      NoUpperJoin(parts[..|parts| - 1]);
      Join(parts[..|parts| - 1], ' ')
  }

  /** Anything but a string with a word in it normalises to the empty key. */
  lemma NormalizeEmpty(name: Cell)
    requires name.NonString? || IsBlank(name.s)
    ensures NormalizeStreetName(name) == []
  {
    if name.Str? && name.s != [] {
      var t := Lower(name.s);
      BlankIffAllSpace(name.s);
      BlankIffAllSpace(t);
      assert LeadingSpaces(Trim(t)) == 0;
    }
  }

  /** A name made of words: one word gives that word lower-cased, more words
      give all but the last, lower-cased and joined by single spaces. */
  lemma NormalizeWords(ws: seq<string>)
    requires |ws| >= 1
    requires forall i :: 0 <= i < |ws| ==> ws[i] != [] && NoSpace(ws[i])
    ensures NormalizeStreetName(Str(Join(ws, ' ')))
      == if |ws| == 1 then Lower(ws[0]) else Join(LowerAll(ws[..|ws| - 1]), ' ')
  {
    var s := Join(ws, ' ');
    JoinEnds(ws);
    WordsOfLowerJoin(ws);
    KeyOfLowerAll(ws);
    assert NormalizeStreetName(Str(s)) == KeyOfWords(Words(Trim(Lower(s))));
  }

  /** The key of lower-cased words. */
  lemma KeyOfLowerAll(ws: seq<string>)
    requires |ws| >= 1
    ensures forall i :: 0 <= i < |ws| ==> NoUpper(LowerAll(ws)[i])
    ensures KeyOfWords(LowerAll(ws))
      == if |ws| == 1 then Lower(ws[0]) else Join(LowerAll(ws[..|ws| - 1]), ' ')
  {
    assert LowerAll(ws)[..|ws| - 1] == LowerAll(ws[..|ws| - 1]);
  }

  /** `' '.join(ws).lower().strip().split()` is each word lower-cased. */
  lemma WordsOfLowerJoin(ws: seq<string>)
    requires |ws| >= 1
    requires forall i :: 0 <= i < |ws| ==> ws[i] != [] && NoSpace(ws[i])
    ensures Words(Trim(Lower(Join(ws, ' ')))) == LowerAll(ws)
  {
    LowerWords(ws);
    TrimLowerJoin(ws);
    WordsOfJoin(LowerAll(ws));
  }

  /** `' '.join(ws).lower().strip()` is the lower-cased words joined by spaces. */
  lemma TrimLowerJoin(ws: seq<string>)
    requires |ws| >= 1
    requires forall i :: 0 <= i < |ws| ==> ws[i] != [] && NoSpace(ws[i])
    ensures Trim(Lower(Join(ws, ' '))) == Join(LowerAll(ws), ' ')
  {
    var t := Join(LowerAll(ws), ' ');
    LowerJoin(ws);
    LowerWords(ws);
    JoinEnds(LowerAll(ws));
    StrippedIff(t);
  }

  /** The key ignores case: `name.lower()` is applied first. */
  lemma NormalizeIgnoresCase(s: string)
    ensures NormalizeStreetName(Str(s)) == NormalizeStreetName(Str(Lower(s)))
  {
    LowerLower(s);
  }

  /** `crime_lookup`: each street's score under its normalised name, in the
      order of `crime_scores`. */
  function LookupPairs(crimeScores: Dict<string, real>): (r: seq<(string, real)>)
    ensures |r| == |crimeScores|
    ensures forall i :: 0 <= i < |r| ==> r[i] == (NormalizeStreetName(Str(crimeScores[i].0)), crimeScores[i].1)
  {
    seq(|crimeScores|, i requires 0 <= i < |crimeScores| =>
      (NormalizeStreetName(Str(crimeScores[i].0)), crimeScores[i].1))
  }

  function CrimeLookup(crimeScores: Dict<string, real>): Dict<string, real> {
    FromPairs(LookupPairs(crimeScores))
  }

  /** `match_crime_score`. */
  function MatchCrimeScore(crimeLookup: Dict<string, real>, streetName: Cell): real {
    GetOr(crimeLookup, NormalizeStreetName(streetName), 0.0)
  }

  /** A road gets the score of the last street in `crime_scores` whose key
      equals its own: when two streets share a key, the later one wins. */
  lemma MatchLastStreet(crimeScores: Dict<string, real>, streetName: Cell, i: nat)
    requires i < |crimeScores|
    requires NormalizeStreetName(Str(crimeScores[i].0)) == NormalizeStreetName(streetName)
    requires forall j :: i < j < |crimeScores| ==>
      NormalizeStreetName(Str(crimeScores[j].0)) != NormalizeStreetName(streetName)
    ensures MatchCrimeScore(CrimeLookup(crimeScores), streetName) == crimeScores[i].1
  {
    FromPairsLast(LookupPairs(crimeScores), NormalizeStreetName(streetName), i);
  }

  /** A road whose key no street shares scores 0. */
  lemma MatchNoStreet(crimeScores: Dict<string, real>, streetName: Cell)
    requires forall j :: 0 <= j < |crimeScores| ==>
      NormalizeStreetName(Str(crimeScores[j].0)) != NormalizeStreetName(streetName)
    ensures MatchCrimeScore(CrimeLookup(crimeScores), streetName) == 0.0
  {
    FromPairsAbsent(LookupPairs(crimeScores), NormalizeStreetName(streetName));
  }
}
