/**
 * The street-by-category counter (data_scraper/count_crimes.py): for every
 * tagged record, the count under its stripped location and stripped category
 * goes up by one. The nested `defaultdict` is an association list of
 * association lists; a street or category seen for the first time is appended
 * with the count it gets, which is how `defaultdict` creates an entry on
 * first access.
 */
module CountCrimes {
  import opened Wrappers
  import opened Text
  import opened Dicts
  import AddType

  type Record = AddType.Record

  /** `{street: {category: count}}` */
  type Counts = Dict<string, Dict<string, int>>

  /** `counts[street][category] += 1` */
  function Increment(counts: Counts, street: string, category: string): Counts {
    var inner := GetOr(counts, street, []);
    Put(counts, street, Put(inner, category, GetOr(inner, category, 0) + 1))
  }

  /** A record the loop can read: both fields are present. */
  predicate Readable(record: Record) {
    "location" in record && "category" in record
  }

  /** The counts after the loop has read every record, in order. */
  function CountAll(data: seq<Record>): Counts
    requires forall i :: 0 <= i < |data| ==> Readable(data[i])
  {
    if data == [] then []
    else
      var last := data[|data| - 1];
      assert Readable(last);
      Increment(CountAll(data[..|data| - 1]), Trim(last["location"]), Trim(last["category"]))
  }

  /** Reference count: the records whose stripped location is `street` and
      whose stripped category is `category`. */
  function Occurrences(data: seq<Record>, street: string, category: string): nat
    requires forall i :: 0 <= i < |data| ==> Readable(data[i])
  {
    if data == [] then 0
    else
      var last := data[|data| - 1];
      assert Readable(last);
      Occurrences(data[..|data| - 1], street, category)
      + (if Trim(last["location"]) == street && Trim(last["category"]) == category then 1 else 0)
  }

  /** The loop of count_crimes.py. A record without a location or a category
      raises `KeyError` and stops the script before anything is written: the
      result is then the index of that record. */
  method CountCrimes(data: seq<Record>) returns (result: Result<Counts, nat>)
    ensures result.Ok? <==> forall i :: 0 <= i < |data| ==> Readable(data[i])
    ensures result.Ok? ==> result.value == CountAll(data)
    ensures result.Err? ==> (result.error < |data| && !Readable(data[result.error])
      && forall i :: 0 <= i < result.error ==> Readable(data[i]))
  {
    var counts: Counts := [];
    var i := 0;
    while i < |data|
      invariant 0 <= i <= |data|
      invariant forall k :: 0 <= k < i ==> Readable(data[k])
      invariant counts == CountAll(data[..i])
    {
      var record := data[i];
      if "location" !in record || "category" !in record {
        return Err(i);
      }
      var street := Trim(record["location"]);
      var category := Trim(record["category"]);
      CountAllNext(data, i);
      counts := Increment(counts, street, category);
      i := i + 1;
    }
    assert data[..i] == data;
    return Ok(counts);
  }

  lemma CountAllNext(data: seq<Record>, i: nat)
    requires i < |data| && forall k :: 0 <= k <= i ==> Readable(data[k])
    ensures CountAll(data[..i + 1])
      == Increment(CountAll(data[..i]), Trim(data[i]["location"]), Trim(data[i]["category"]))
  {
    assert data[..i + 1][..i] == data[..i];
  }

  /** The count stored under a street and a category, 0 when absent. */
  function CountOf(counts: Counts, street: string, category: string): int {
    GetOr(GetOr(counts, street, []), category, 0)
  }

  lemma IncrementCountOf(counts: Counts, street: string, category: string, s: string, c: string)
    ensures CountOf(Increment(counts, street, category), s, c)
      == CountOf(counts, s, c) + (if s == street && c == category then 1 else 0)
  {
    var inner := GetOr(counts, street, []);
    var v := GetOr(inner, category, 0) + 1;
    var inner' := Put(inner, category, v);
    assert Increment(counts, street, category) == Put(counts, street, inner');
    GetOrPut(counts, street, inner', s, []);
    if s == street {
      GetOrPut(inner, category, v, c, 0);
    }
  }

  /** `counts[s][c]` is the number of records with stripped location `s` and
      stripped category `c`. */
  lemma {:induction false} CountAllCounts(data: seq<Record>, s: string, c: string)
    requires forall i :: 0 <= i < |data| ==> Readable(data[i])
    ensures CountOf(CountAll(data), s, c) == Occurrences(data, s, c)
    decreases |data|
  {
    if data != [] {
      var last := data[|data| - 1];
      assert Readable(last);
      CountAllCounts(data[..|data| - 1], s, c);
      IncrementCountOf(CountAll(data[..|data| - 1]), Trim(last["location"]), Trim(last["category"]), s, c);
    }
  }

  /** Sum of the counts of one street. */
  function StreetTotal(inner: Dict<string, int>): int {
    if inner == [] then 0 else inner[0].1 + StreetTotal(inner[1..])
  }

  /** Sum of all counts. */
  function Total(counts: Counts): int {
    if counts == [] then 0 else StreetTotal(counts[0].1) + Total(counts[1..])
  }

  /** Assigning to a key swaps its old value out of the sum (the old value
      being 0 when the key is new). */
  lemma {:induction false} StreetTotalPut(inner: Dict<string, int>, k: string, v: int)
    ensures StreetTotal(Put(inner, k, v)) + GetOr(inner, k, 0) == StreetTotal(inner) + v
    decreases |inner|
  {
    if inner != [] && inner[0].0 != k {
      StreetTotalPut(inner[1..], k, v);
      assert Put(inner, k, v)[1..] == Put(inner[1..], k, v);
    } else if inner != [] {
      assert Put(inner, k, v)[1..] == inner[1..];
    }
  }

  lemma {:induction false} TotalPut(counts: Counts, k: string, v: Dict<string, int>)
    ensures Total(Put(counts, k, v)) + StreetTotal(GetOr(counts, k, [])) == Total(counts) + StreetTotal(v)
    decreases |counts|
  {
    if counts != [] && counts[0].0 != k {
      TotalPut(counts[1..], k, v);
      assert Put(counts, k, v)[1..] == Put(counts[1..], k, v);
    } else if counts != [] {
      assert Put(counts, k, v)[1..] == counts[1..];
    }
  }

  lemma IncrementTotal(counts: Counts, street: string, category: string)
    ensures Total(Increment(counts, street, category)) == Total(counts) + 1
  {
    var inner := GetOr(counts, street, []);
    var inner' := Put(inner, category, GetOr(inner, category, 0) + 1);
    StreetTotalPut(inner, category, GetOr(inner, category, 0) + 1);
    TotalPut(counts, street, inner');
  }

  /** Every record is counted exactly once. */
  lemma {:induction false} CountAllTotal(data: seq<Record>)
    requires forall i :: 0 <= i < |data| ==> Readable(data[i])
    ensures Total(CountAll(data)) == |data|
    decreases |data|
  {
    if data != [] {
      var last := data[|data| - 1];
      assert Readable(last);
      CountAllTotal(data[..|data| - 1]);
      IncrementTotal(CountAll(data[..|data| - 1]), Trim(last["location"]), Trim(last["category"]));
    }
  }

  /** The shape of the counter: keys distinct and stripped at both levels,
      no street without a category, no count below 1. */
  predicate WellFormed(counts: Counts) {
    DistinctKeys(counts) && forall e :: e in counts ==> InnerWellFormed(e.0, e.1)
  }

  predicate InnerWellFormed(street: string, inner: Dict<string, int>) {
    Stripped(street) && inner != [] && DistinctKeys(inner)
    && forall e :: e in inner ==> Stripped(e.0) && e.1 >= 1
  }

  /** The categories of a street of a well-formed counter. */
  lemma StreetOf(counts: Counts, street: string)
    requires WellFormed(counts)
    ensures var inner := GetOr(counts, street, []);
      inner == [] || InnerWellFormed(street, inner)
  {
    GetOrIn(counts, street, []);
  }

  /** Setting a category to a positive count keeps a street well formed. */
  lemma PutInner(street: string, inner: Dict<string, int>, category: string, v: int)
    requires inner == [] || InnerWellFormed(street, inner)
    requires Stripped(street) && Stripped(category) && v >= 1
    ensures InnerWellFormed(street, Put(inner, category, v))
  {
    PutKeys(inner, category, v);
    PutIn(inner, category, v);
  }

  /** Counting one more record of a category keeps a street well formed. */
  lemma IncrementInner(street: string, inner: Dict<string, int>, category: string)
    requires inner == [] || InnerWellFormed(street, inner)
    requires Stripped(street) && Stripped(category)
    ensures InnerWellFormed(street, Put(inner, category, GetOr(inner, category, 0) + 1))
  {
    var old_count := GetOr(inner, category, 0);
    GetOrIn(inner, category, 0);
    assert old_count >= 0 by {
      if old_count != 0 {
        assert (category, old_count) in inner;
      }
    }
    PutInner(street, inner, category, old_count + 1);
  }

  /** Setting a street to well-formed categories keeps the counter well formed. */
  lemma PutStreet(counts: Counts, street: string, inner: Dict<string, int>)
    requires WellFormed(counts) && InnerWellFormed(street, inner)
    ensures WellFormed(Put(counts, street, inner))
  {
    PutKeys(counts, street, inner);
    PutIn(counts, street, inner);
  }

  /** One increment keeps the counter well formed. */
  lemma IncrementWellFormed(counts: Counts, street: string, category: string)
    requires WellFormed(counts) && Stripped(street) && Stripped(category)
    ensures WellFormed(Increment(counts, street, category))
  {
    var inner := GetOr(counts, street, []);
    var inner' := Put(inner, category, GetOr(inner, category, 0) + 1);
    assert Increment(counts, street, category) == Put(counts, street, inner');
    StreetOf(counts, street);
    IncrementInner(street, inner, category);
    PutStreet(counts, street, inner');
  }

  /** The counter the loop builds is well formed: every street and category
      key is stripped and appears once, and every count is at least 1. */
  lemma {:induction false} CountAllWellFormed(data: seq<Record>)
    requires forall i :: 0 <= i < |data| ==> Readable(data[i])
    ensures WellFormed(CountAll(data))
    decreases |data|
  {
    if data != [] {
      var last := data[|data| - 1];
      assert Readable(last);
      CountAllWellFormed(data[..|data| - 1]);
      TrimStripped(last["location"]);
      TrimStripped(last["category"]);
      IncrementWellFormed(CountAll(data[..|data| - 1]), Trim(last["location"]), Trim(last["category"]));
    }
  }
}
