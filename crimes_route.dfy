/**
 * The crime-report intake of the web application
 * (web-app/src/app/api/crimes/route.js): a submitted report is validated
 * field by field, given a record id made from the year and a random number,
 * and appended to the stored crime list. The clock, `Math.random`, the request
 * body parser and the file system are parameters.
 */
module CrimesRoute {
  import opened Wrappers
  import opened Text
  import opened Seqs

  /** A field of the JSON body: missing, a string, or another JSON value,
      which JavaScript treats as truthy or falsy (`null`, `0` and `false` are
      falsy; other numbers, `true`, arrays and objects are truthy). */
  datatype Field = Absent | Str(s: string) | Other(truthy: bool)

  /** The fields of a submitted report that the route reads. */
  datatype Report = Report(crimeType: Field, location: Field, time: Field, category: Field)

  /** The stored form of a report. */
  datatype Crime = Crime(crimeType: string, recordId: string, time: string, location: string, category: string)

  /** Calling `.trim()` on a value that is not a string throws a TypeError. */
  datatype Failure = TypeError

  const TypeRequired: string := "Crime type is required"
  const LocationRequired: string := "Location is required"
  const TimeRequired: string := "Time is required"
  const CategoryRequired: string := "Category is required"
  const InvalidCategory: string := "Invalid category"

  /** Every message, in the order the validator may emit them. */
  const ErrorOrder: seq<string> := [TypeRequired, LocationRequired, TimeRequired, CategoryRequired, InvalidCategory]

  const ValidCategories: seq<string> := [
    "Murder",
    "Shooting with Injuries",
    "Aggravated Assault",
    "Robbery",
    "Arson",
    "Burglary",
    "Simple Assault"
  ]

  predicate Truthy(f: Field) {
    match f
    case Absent => false
    case Str(s) => s != []
    case Other(t) => t
  }

  /** `!f || f.trim() === ''` holds: the field is falsy or a string of white
      space only (which is what trimming to the empty string means). */
  predicate Blank(f: Field) {
    !Truthy(f) || (f.Str? && AllSpace(f.s))
  }

  /** Evaluating `!f || f.trim() === ''` throws. */
  predicate Throws(f: Field) {
    f.Other? && f.truthy
  }

  /** The message for one required field: present when the field is blank. */
  function Required(f: Field, message: string): (r: seq<string>)
    ensures r == [message] || r == []
    ensures message in r <==> Blank(f)
  {
    if Blank(f) then [message] else []
  }

  /** `validCategories.includes(f)`: an exact, case-sensitive match. */
  predicate Listed(f: Field) {
    f.Str? && f.s in ValidCategories
  }

  /** The message for a category that is given but not one of the listed names. */
  function Invalid(category: Field): (r: seq<string>)
    ensures r == [InvalidCategory] || r == []
    ensures InvalidCategory in r <==> Truthy(category) && !Listed(category)
  {
    if Truthy(category) && !Listed(category) then [InvalidCategory] else []
  }

  /** Reference reading of `validateCrimeData`: the messages for the blank
      required fields, then the one for a category outside the list; a truthy
      field that is not a string makes the validator throw instead. */
  function ValidationErrors(data: Report): Result<seq<string>, Failure> {
    if Throws(data.crimeType) || Throws(data.location) || Throws(data.time) || Throws(data.category) then
      Err(TypeError)
    else
      Ok(Required(data.crimeType, TypeRequired) + Required(data.location, LocationRequired)
         + Required(data.time, TimeRequired) + Required(data.category, CategoryRequired)
         + Invalid(data.category))
  }

  /** One `if (!f || f.trim() === '')` test: true when the message is pushed. */
  method CheckRequired(f: Field) returns (result: Result<bool, Failure>)
    ensures result.Err? <==> Throws(f)
    ensures result.Ok? ==> (result.value <==> Blank(f))
  {
    if !Truthy(f) {
      return Ok(true);
    }
    match f {
      case Str(s) =>
        BlankIffAllSpace(s);
        return Ok(Trim(s) == []);
      case Other(_) => return Err(TypeError);
    }
  }

  /** `validateCrimeData`: pushes each message in turn into `errors`. */
  method ValidateCrimeData(data: Report) returns (result: Result<seq<string>, Failure>)
    ensures result == ValidationErrors(data)
  {
    var errors: seq<string> := [];
    var missing := CheckRequired(data.crimeType);
    if missing.Err? { return Err(TypeError); }
    if missing.value { errors := errors + [TypeRequired]; }
    assert errors == Required(data.crimeType, TypeRequired);
    missing := CheckRequired(data.location);
    if missing.Err? { return Err(TypeError); }
    if missing.value { errors := errors + [LocationRequired]; }
    assert errors == Required(data.crimeType, TypeRequired) + Required(data.location, LocationRequired);
    missing := CheckRequired(data.time);
    if missing.Err? { return Err(TypeError); }
    if missing.value { errors := errors + [TimeRequired]; }
    assert errors == Required(data.crimeType, TypeRequired) + Required(data.location, LocationRequired)
      + Required(data.time, TimeRequired);
    missing := CheckRequired(data.category);
    if missing.Err? { return Err(TypeError); }
    if missing.value { errors := errors + [CategoryRequired]; }
    assert errors == Required(data.crimeType, TypeRequired) + Required(data.location, LocationRequired)
      + Required(data.time, TimeRequired) + Required(data.category, CategoryRequired);
    if Truthy(data.category) && !Listed(data.category) {
      errors := errors + [InvalidCategory];
    }
    assert errors == Required(data.crimeType, TypeRequired) + Required(data.location, LocationRequired)
      + Required(data.time, TimeRequired) + Required(data.category, CategoryRequired)
      + Invalid(data.category);
    assert !Throws(data.crimeType) && !Throws(data.location) && !Throws(data.time) && !Throws(data.category);
    return Ok(errors);
  }

  /** A string with a character other than white space at its start is not blank. */
  lemma NotBlankAt0(s: string)
    requires s != [] && !IsSpace(s[0])
    ensures !IsBlank(s)
  {
    BlankIffAllSpace(s);
  }

  /** Every listed category starts with a capital letter, so none is blank. */
  lemma ValidCategoriesNotBlank(c: string)
    requires c in ValidCategories
    ensures c != [] && !IsBlank(c)
  {
    assert c[0] == 'M' || c[0] == 'S' || c[0] == 'A' || c[0] == 'R' || c[0] == 'B';
    NotBlankAt0(c);
  }

  /** A report passes exactly when its type, location and time are non-blank
      strings and its category is one of the listed names, as written. */
  lemma ValidIff(data: Report)
    ensures ValidationErrors(data) == Ok([]) <==>
      (data.crimeType.Str? && !IsBlank(data.crimeType.s)
       && data.location.Str? && !IsBlank(data.location.s)
       && data.time.Str? && !IsBlank(data.time.s)
       && data.category.Str? && data.category.s in ValidCategories)
  {
    if !Throws(data.crimeType) && !Throws(data.location) && !Throws(data.time) && !Throws(data.category) {
      RequiredEmpty(data.crimeType, TypeRequired);
      RequiredEmpty(data.location, LocationRequired);
      RequiredEmpty(data.time, TimeRequired);
      CategoryEmpty(data.category);
      EmptyConcat5(Required(data.crimeType, TypeRequired), Required(data.location, LocationRequired),
        Required(data.time, TimeRequired), Required(data.category, CategoryRequired), Invalid(data.category));
    }
  }

  /** A field that does not throw raises no message exactly when it is a
      non-blank string. */
  lemma RequiredEmpty(f: Field, message: string)
    requires !Throws(f)
    ensures Required(f, message) == [] <==> f.Str? && !IsBlank(f.s)
  {
    if f.Str? {
      BlankIffAllSpace(f.s);
    }
  }

  /** A category that does not throw raises no message exactly when it is one
      of the listed names. */
  lemma CategoryEmpty(f: Field)
    requires !Throws(f)
    ensures Required(f, CategoryRequired) == [] && Invalid(f) == [] <==> f.Str? && f.s in ValidCategories
  {
    if f.Str? && f.s in ValidCategories {
      ValidCategoriesNotBlank(f.s);
      BlankIffAllSpace(f.s);
    }
  }

  /** The messages come in a fixed order, each at most once: type, location,
      time, category required, invalid category. */
  lemma ErrorsInOrder(data: Report)
    requires ValidationErrors(data).Ok?
    ensures IsSubsequence(ValidationErrors(data).value, ErrorOrder)
  {
    OptionalChain(Required(data.crimeType, TypeRequired), Required(data.location, LocationRequired),
      Required(data.time, TimeRequired), Required(data.category, CategoryRequired), Invalid(data.category),
      TypeRequired, LocationRequired, TimeRequired, CategoryRequired, InvalidCategory);
  }

  /** A category of white space only is both missing and not a listed name. */
  lemma WhitespaceCategory(data: Report)
    requires !Throws(data.crimeType) && !Throws(data.location) && !Throws(data.time)
    requires data.category.Str? && data.category.s != [] && AllSpace(data.category.s)
    ensures ValidationErrors(data).Ok?
    ensures CategoryRequired in ValidationErrors(data).value
    ensures InvalidCategory in ValidationErrors(data).value
  {
    BlankIffAllSpace(data.category.s);
    if data.category.s in ValidCategories {
      ValidCategoriesNotBlank(data.category.s);
    }
  }

  /** A missing or empty category is only reported as missing. */
  lemma MissingCategory(data: Report)
    requires !Throws(data.crimeType) && !Throws(data.location) && !Throws(data.time)
    requires data.category == Absent || data.category == Str([])
    ensures ValidationErrors(data).Ok?
    ensures CategoryRequired in ValidationErrors(data).value
    ensures InvalidCategory !in ValidationErrors(data).value
  {
    assert InvalidCategory != TypeRequired && InvalidCategory != LocationRequired;
    assert InvalidCategory != TimeRequired && InvalidCategory != CategoryRequired;
  }

  /** Category membership is exact: a non-empty string that is not one of the
      listed names as written (a different case, surrounding spaces) is
      reported invalid. */
  lemma CategoryExact(data: Report)
    requires !Throws(data.crimeType) && !Throws(data.location) && !Throws(data.time)
    requires data.category.Str? && data.category.s != []
    ensures ValidationErrors(data).Ok?
    ensures InvalidCategory in ValidationErrors(data).value <==> data.category.s !in ValidCategories
  {
    var e := ValidationErrors(data).value;
    if data.category.s in ValidCategories {
      assert InvalidCategory != TypeRequired && InvalidCategory != LocationRequired;
      assert InvalidCategory != TimeRequired && InvalidCategory != CategoryRequired;
    }
  }

  // ---------------------------------------------------------------------------
  // Record ids
  // ---------------------------------------------------------------------------

  /** `s.slice(-2)`: the last two characters, or all of a shorter string. */
  function LastTwo(s: string): (r: string)
    ensures |s| >= 2 ==> |r| == 2 && s == s[..|s| - 2] + r
    ensures |s| < 2 ==> r == s
  {
    if |s| >= 2 then s[|s| - 2..] else s
  }

  /** `Math.floor(random * 90000) + 10000` for `random` in [0, 1). */
  function RandomNum(random: real): (n: int)
    requires 0.0 <= random < 1.0
    ensures 10000 <= n <= 99999
  {
    (random * 90000.0).Floor + 10000
  }

  /** `generateRecordId` with the year and `Math.random()` passed in. */
  function GenerateRecordId(year: int, random: real): string
    requires 0.0 <= random < 1.0
  {
    LastTwo(IntToString(year)) + "NB" + NatToString(RandomNum(random)) + "-1"
  }

  /** The last character of a number's decimal form is its last digit. */
  lemma NatToStringLast(m: nat)
    ensures var s := NatToString(m); s[|s| - 1] == DigitChar(m % 10)
  {
  }

  /** The last two characters of a number of two or more digits are its tens
      and units digits. */
  lemma LastTwoDigits(n: nat)
    requires n >= 10
    ensures LastTwo(NatToString(n)) == [DigitChar((n / 10) % 10), DigitChar(n % 10)]
  {
    var x := NatToString(n / 10);
    var s := NatToString(n);
    assert s == x + [DigitChar(n % 10)];
    NatToStringLast(n / 10);
    assert s[|s| - 2..] == [x[|x| - 1], DigitChar(n % 10)];
  }

  lemma TwoDigitsValue(n: nat)
    ensures ((n / 10) % 10) * 10 + n % 10 == n % 100
  {
    var q, r := n / 100, n % 100;
    assert n == 100 * q + r;
    assert n / 10 == 10 * q + r / 10;
    assert n % 10 == r % 10;
  }

  lemma TwoCharsValue(a: nat, b: nat)
    requires a < 10 && b < 10
    ensures DigitsValue([DigitChar(a), DigitChar(b)]) == a * 10 + b
  {
    var s := [DigitChar(a), DigitChar(b)];
    DigitRoundTrip(a);
    DigitRoundTrip(b);
    assert s[..1] == [DigitChar(a)];
    assert [DigitChar(a)][..0] == [];
    assert DigitsValue([DigitChar(a)]) == a;
    assert DigitsValue(s) == DigitsValue(s[..1]) * 10 + DigitValue(s[1]);
  }

  /** A five-digit number is written with five digits. */
  lemma FiveDigits(n: int)
    requires 10000 <= n <= 99999
    ensures |NatToString(n)| == 5 && DigitsValue(NatToString(n)) == n
  {
    assert Pow10(4) == 10000 && Pow10(5) == 100000;
    NatToStringLength(n, 4);
    NatToStringValue(n);
  }

  /** The layout of a record id: eleven characters, two digits worth `yy`,
      "NB", five digits worth `num`, and "-1". */
  predicate IdLayout(id: string, yy: int, num: int) {
    && |id| == 11
    && AllDigits(id[..2]) && DigitsValue(id[..2]) == yy
    && id[2] == 'N' && id[3] == 'B'
    && AllDigits(id[4..9]) && DigitsValue(id[4..9]) == num
    && id[9..] == "-1"
  }

  /** For a year of two or more digits the id has the layout above with the
      year's last two digits and a number from 10000 to 99999. */
  lemma RecordIdFormat(year: int, random: real)
    requires year >= 10 && 0.0 <= random < 1.0
    ensures IdLayout(GenerateRecordId(year, random), year % 100, RandomNum(random))
    ensures 10000 <= RandomNum(random) <= 99999
  {
    var yy := LastTwo(NatToString(year));
    var num := NatToString(RandomNum(random));
    YearDigits(year);
    FiveDigits(RandomNum(random));
    assert GenerateRecordId(year, random) == yy + "NB" + num + "-1";
    IdParts(yy, num);
  }

  /** The last two characters of a year of two or more digits are two digits
      worth the year modulo 100. */
  lemma YearDigits(year: int)
    requires year >= 10
    ensures var yy := LastTwo(NatToString(year));
      |yy| == 2 && AllDigits(yy) && DigitsValue(yy) == year % 100
  {
    var a, b := (year / 10) % 10, year % 10;
    LastTwoDigits(year);
    assert LastTwo(NatToString(year)) == [DigitChar(a), DigitChar(b)];
    TwoCharsValue(a, b);
    TwoDigitsValue(year);
    assert a * 10 + b == year % 100;
  }

  /** Where the parts of an id sit. */
  lemma IdParts(yy: string, num: string)
    requires |yy| == 2 && |num| == 5 && AllDigits(yy) && AllDigits(num)
    ensures IdLayout(yy + "NB" + num + "-1", DigitsValue(yy), DigitsValue(num))
  {
    var nb: string := "NB";
    var tail: string := "-1";
    assert |nb| == 2 && nb[0] == 'N' && nb[1] == 'B';
    assert |tail| == 2;
    var id := yy + nb + num + tail;
    assert forall i :: 0 <= i < 2 ==> id[i] == yy[i];
    assert forall i :: 0 <= i < 5 ==> id[4 + i] == num[i];
    assert forall i :: 0 <= i < 2 ==> id[9 + i] == tail[i];
    assert id[..2] == yy;
    assert id[4..9] == num;
    assert id[9..] == tail;
  }

  // ---------------------------------------------------------------------------
  // Posting a report
  // ---------------------------------------------------------------------------

  /** The record stored for a validated report: type, time and location
      trimmed, category as submitted. */
  function NewCrime(data: Report, recordId: string): (c: Crime)
    requires data.crimeType.Str? && data.location.Str? && data.time.Str? && data.category.Str?
    ensures c.recordId == recordId && c.category == data.category.s
    ensures c.crimeType == Trim(data.crimeType.s) && c.time == Trim(data.time.s)
    ensures c.location == Trim(data.location.s)
  {
    Crime(Trim(data.crimeType.s), recordId, Trim(data.time.s), Trim(data.location.s), data.category.s)
  }

  datatype Response = Created(crime: Crime) | BadRequest(errors: seq<string>) | ServerError

  function Status(r: Response): int {
    match r
    case Created(_) => 201
    case BadRequest(_) => 400
    case ServerError => 500
  }

  /** The stored crime list (src/data/file.json). */
  class CrimeStore {
    var records: seq<Crime>

    constructor(records: seq<Crime>)
      ensures this.records == records
    {
      this.records := records;
    }

    /** `POST`: `body` is the parsed request body, `None` when it does not
        parse to an object (not JSON, or JSON `null`, whose `data.type`
        throws); `fileOk` whether reading, parsing and writing the file
        succeed. */
    method Post(body: Option<Report>, year: int, random: real, fileOk: bool) returns (response: Response)
      requires 0.0 <= random < 1.0
      modifies this
      ensures response.BadRequest? <==>
        body.Some? && ValidationErrors(body.value).Ok? && ValidationErrors(body.value).value != []
      ensures response.BadRequest? ==> response.errors == ValidationErrors(body.value).value
      ensures response.Created? <==> body.Some? && ValidationErrors(body.value) == Ok([]) && fileOk
      ensures response.Created? ==> (StringFields(body.value)
        && response.crime == NewCrime(body.value, GenerateRecordId(year, random))
        && records == old(records) + [response.crime])
      ensures !response.Created? ==> records == old(records)
    {
      if body.None? {
        return ServerError;
      }
      var data := body.value;
      var validationErrors := ValidateCrimeData(data);
      if validationErrors.Err? {
        return ServerError;
      }
      if |validationErrors.value| > 0 {
        return BadRequest(validationErrors.value);
      }
      ValidIff(data);
      var recordId := GenerateRecordId(year, random);
      var newCrime := NewCrime(data, recordId);
      if !fileOk {
        return ServerError;
      }
      records := records + [newCrime];
      return Created(newCrime);
    }
  }

  /** A report that passed validation has string fields. */
  predicate StringFields(data: Report) {
    data.crimeType.Str? && data.location.Str? && data.time.Str? && data.category.Str?
  }
}
