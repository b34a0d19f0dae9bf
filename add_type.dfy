/**
 * The category tagger (data_scraper/add_type.py): each record gets the first
 * category of a fixed list that its type mentions, and records that mention
 * none are dropped.
 */
module AddType {
  import opened Wrappers
  import opened Text
  import opened Seqs

  /** A JSON record of the crime list, keyed by field name. */
  type Record = map<string, string>

  const Categories: seq<string> :=
    ["Robbery", "Arson", "Simple Assault", "Aggravated Assault", "Murder", "Burglary", "Shooting"]

  /** `category in check or category.upper() in check`: a substring test that
      accepts the category as written or fully upper-cased, and no other case. */
  predicate Mentions(crimeType: string, category: string) {
    Contains(crimeType, category) || Contains(crimeType, Upper(category))
  }

  /** The first of `categories` that the type mentions. */
  function FirstCategory(crimeType: string, categories: seq<string>): (r: Option<string>)
    ensures r.Some? ==> exists k :: (0 <= k < |categories| && r.value == categories[k]
      && Mentions(crimeType, categories[k])
      && forall j :: 0 <= j < k ==> !Mentions(crimeType, categories[j]))
    ensures r.None? ==> forall j :: 0 <= j < |categories| ==> !Mentions(crimeType, categories[j])
  {
    if categories == [] then None
    else if Mentions(crimeType, categories[0]) then Some(categories[0])
    else
      var r := FirstCategory(crimeType, categories[1..]);
      assert forall j :: 1 <= j < |categories| ==> categories[j] == categories[1..][j - 1];
      if r.Some? then
        var k :| 0 <= k < |categories[1..]| && r.value == categories[1..][k]
          && Mentions(crimeType, categories[1..][k])
          && forall j :: 0 <= j < k ==> !Mentions(crimeType, categories[1..][j]);
        assert r.value == categories[k + 1];
        r
      else r
  }

  /** The first match is the category at the first index whose category the
      type mentions. */
  lemma FirstCategoryAt(crimeType: string, categories: seq<string>, k: nat)
    requires k < |categories| && Mentions(crimeType, categories[k])
    requires forall j :: 0 <= j < k ==> !Mentions(crimeType, categories[j])
    ensures FirstCategory(crimeType, categories) == Some(categories[k])
  {
    var r := FirstCategory(crimeType, categories);
    if r.Some? {
      var k' :| 0 <= k' < |categories| && r.value == categories[k']
        && Mentions(crimeType, categories[k'])
        && forall j :: 0 <= j < k' ==> !Mentions(crimeType, categories[j]);
      assert k' == k;
    }
  }

  /** Kept by the tagger: the record has a type that mentions a category. */
  predicate Tagged(categories: seq<string>, record: Record) {
    "type" in record && FirstCategory(record["type"], categories).Some?
  }

  /** The kept record, with its category added. */
  function WithCategory(categories: seq<string>, record: Record): (r: Record)
    requires Tagged(categories, record)
    ensures r.Keys == record.Keys + {"category"}
    ensures r["category"] in categories
    ensures forall key :: key in record && key != "category" ==> r[key] == record[key]
  {
    record["category" := FirstCategory(record["type"], categories).value]
  }

  /** What the tagger outputs for one record. */
  function TagOne(categories: seq<string>, record: Record): seq<Record> {
    if Tagged(categories, record) then [WithCategory(categories, record)] else []
  }

  /** The tagger's output, when every record has a type. */
  function TagAll(categories: seq<string>, data: seq<Record>): seq<Record> {
    if data == [] then []
    else TagOne(categories, data[0]) + TagAll(categories, data[1..])
  }

  lemma {:induction false} TagAllAppend(categories: seq<string>, data: seq<Record>, record: Record)
    ensures TagAll(categories, data + [record]) == TagAll(categories, data) + TagOne(categories, record)
    decreases |data|
  {
    if data == [] {
      assert data + [record] == [record];
    } else {
      assert (data + [record])[1..] == data[1..] + [record];
      TagAllAppend(categories, data[1..], record);
      assert TagAll(categories, data + [record])
        == TagOne(categories, data[0]) + (TagAll(categories, data[1..]) + TagOne(categories, record));
    }
  }

  lemma TagAllNext(categories: seq<string>, data: seq<Record>, i: nat)
    requires i < |data|
    ensures TagAll(categories, data[..i + 1]) == TagAll(categories, data[..i]) + TagOne(categories, data[i])
  {
    assert data[..i + 1] == data[..i] + [data[i]];
    TagAllAppend(categories, data[..i], data[i]);
  }

  /** The loop of add_type.py. A record without a type makes the membership
      test fail on `None`, which stops the script before anything is written:
      the result is then the index of that record. */
  method TagCategories(data: seq<Record>) returns (result: Result<seq<Record>, nat>)
    ensures result.Ok? <==> forall i :: 0 <= i < |data| ==> "type" in data[i]
    ensures result.Ok? ==> result.value == TagAll(Categories, data)
    ensures result.Err? ==> (result.error < |data| && "type" !in data[result.error]
      && forall i :: 0 <= i < result.error ==> "type" in data[i])
  {
    assert Categories != [];
    result := TagWith(Categories, data);
  }

  /** The same loop over any list of categories. The type is read inside the
      category loop, so with no categories no record is read: nothing fails
      and nothing is kept. */
  method TagWith(categories: seq<string>, data: seq<Record>) returns (result: Result<seq<Record>, nat>)
    ensures result.Ok? <==> categories == [] || forall i :: 0 <= i < |data| ==> "type" in data[i]
    ensures result.Ok? ==> result.value == TagAll(categories, data)
    ensures result.Err? ==> (categories != [] && result.error < |data| && "type" !in data[result.error]
      && forall i :: 0 <= i < result.error ==> "type" in data[i])
  {
    var ans: seq<Record> := [];
    var i := 0;
    while i < |data|
      invariant 0 <= i <= |data|
      invariant categories != [] ==> forall k :: 0 <= k < i ==> "type" in data[k]
      invariant ans == TagAll(categories, data[..i])
    {
      var myDict := data[i];
      TagAllNext(categories, data, i);
      if |categories| > 0 {
        if "type" !in myDict {
          return Err(i);
        }
        var found := FindCategory(categories, myDict["type"]);
        if found.Some? {
          myDict := myDict["category" := found.value];
          ans := ans + [myDict];
        }
      }
      i := i + 1;
    }
    assert data[..i] == data;
    return Ok(ans);
  }

  /** With no categories nothing is kept, whatever the records. */
  lemma {:induction false} TagAllNoCategories(data: seq<Record>)
    ensures TagAll([], data) == []
    decreases |data|
  {
    if data != [] {
      TagAllNoCategories(data[1..]);
    }
  }

  /** The inner loop of add_type.py: the first category, in list order, that
      the type mentions as written or upper-cased. */
  method FindCategory(categories: seq<string>, check: string) returns (found: Option<string>)
    ensures found == FirstCategory(check, categories)
  {
    var j := 0;
    while j < |categories|
      invariant 0 <= j <= |categories|
      invariant forall k :: 0 <= k < j ==> !Mentions(check, categories[k])
    {
      var category := categories[j];
      if Contains(check, category) || Contains(check, Upper(category)) {
        FirstCategoryAt(check, categories, j);
        return Some(category);
      }
      j := j + 1;
    }
    return None;
  }

  /** Reference reading: keep the records that mention a category, then add
      each one's category, in order. */
  lemma {:induction false} TagAllSpec(categories: seq<string>, data: seq<Record>)
    ensures var kept := Filter(data, r => Tagged(categories, r));
      && |TagAll(categories, data)| == |kept|
      && forall j :: 0 <= j < |kept| ==> TagAll(categories, data)[j] == WithCategory(categories, kept[j])
    decreases |data|
  {
    if data != [] {
      var rest := data[1..];
      TagAllSpec(categories, rest);
      var kept := Filter(data, r => Tagged(categories, r));
      var keptRest := Filter(rest, r => Tagged(categories, r));
      var out := TagAll(categories, data);
      var outRest := TagAll(categories, rest);
      if Tagged(categories, data[0]) {
        assert kept == [data[0]] + keptRest;
        assert out == [WithCategory(categories, data[0])] + outRest;
        forall j | 0 <= j < |kept|
          ensures out[j] == WithCategory(categories, kept[j])
        {
          if j > 0 {
            assert out[j] == outRest[j - 1] && kept[j] == keptRest[j - 1];
          }
        }
      } else {
        assert kept == keptRest && out == outRest;
      }
    }
  }

  /** Every category of the list starts with a capital letter. */
  predicate Capitalised(categories: seq<string>) {
    forall j :: 0 <= j < |categories| ==> categories[j] != [] && IsUpper(categories[j][0])
  }

  lemma CategoriesCapitalised()
    ensures Capitalised(Categories)
  {
  }

  /** Matching is case-sensitive: a type with no capital letter, such as
      "robbery", mentions no category and is dropped. */
  lemma LowerCaseTypeDropped(crimeType: string)
    requires forall i :: 0 <= i < |crimeType| ==> !IsUpper(crimeType[i])
    ensures FirstCategory(crimeType, Categories).None?
  {
    CategoriesCapitalised();
    NoCapitalNoCategory(crimeType, Categories);
  }

  lemma NoCapitalNoCategory(crimeType: string, categories: seq<string>)
    requires forall i :: 0 <= i < |crimeType| ==> !IsUpper(crimeType[i])
    requires Capitalised(categories)
    ensures FirstCategory(crimeType, categories).None?
  {
    forall j | 0 <= j < |categories|
      ensures !Mentions(crimeType, categories[j])
    {
      CapitalNotMentioned(crimeType, categories[j]);
    }
  }

  lemma CapitalNotMentioned(crimeType: string, c: string)
    requires forall i :: 0 <= i < |crimeType| ==> !IsUpper(crimeType[i])
    requires c != [] && IsUpper(c[0])
    ensures !Mentions(crimeType, c)
  {
    NotContainsChar(crimeType, c, 0);
    assert Upper(c)[0] == c[0];
    NotContainsChar(crimeType, Upper(c), 0);
  }
}
