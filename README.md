# New Brunswick crime lookup — a verified model of the record pipeline

This project models, in Dafny, the logic that carries crime records from the
city's public GIS service to the web application's map and to the weighted
road graph:

- **Retrieval** (`get_crimes.js`): the compact `YYYYMMDDHHmm` date token, the
  search request, the extraction of the results-layer handle from the first
  `<addlayer>…</addlayer>` element with its two error cases, and the list
  request that is sent only after a handle was extracted (module `GetCrimes`).
- **Scraper transforms** (`data_scraper/`): `clean_type`, `clean_location` and
  the row loop of `convert_list.py` (`ConvertList`); the first-match category
  tagger of `add_type.py` (`AddType`); the street × category counter of
  `count_crimes.py` (`CountCrimes`).
- **Road weights** (`osm/change_weights.py`): the weight table, the per-street
  scores, street-name normalisation, the lookup table and the road matcher
  (`ChangeWeights`).
- **Web application utilities** (`web-app/src/utils/`): the severity
  classifier and colours, the `"MM/DD/YYYY HH:mm"` parse, the display-type
  clean-up, the geocoding cache key, search, sort, time windows and the
  interval filter (`CrimeData`); the geocoding cache and the batcher
  (`Geocoding`, with the class `GeocodeCache`).
- **Report intake** (`web-app/src/app/api/crimes/route.js`): the ordered
  validator, the record id, and the POST handler appending to the stored list
  (`CrimesRoute`, with the class `CrimeStore`).

Support modules: `Wrappers` (Option, Result), `Text` (ASCII character classes,
case mapping, trimming, splitting, joining, substring search, decimal digits,
Python's `str.title`), `Seqs` (filter, subsequence, stable sort), `Dicts`
(insertion-ordered dictionaries as association lists) and `Calendar` (the
ECMAScript `MakeDay`/`MakeTime`/`MakeDate` arithmetic behind `new Date(y, m,
d, h, mi)`, `startOfDay`, `endOfDay` and `subDays`).

Choices that hold throughout:

- The wall clock, `Math.random`, the geocoding service, the HTTP server and
  the file system are parameters. Instants are integer milliseconds of local
  wall-clock time.
- Every regular expression is a hand-written scanner over `seq<char>` with
  leftmost-match search. The statute prefix of `crimeData.js:83` and the zip
  suffix of `crimeData.js:105` are proved sound and complete against a
  declarative statement of their patterns (`CrimeData.StatuteMatch`,
  `CrimeData.ZipMatch`). The other scanners (`ConvertList.BlockOfAt`,
  `ConvertList.StripLeadingBlock`, `ConvertList.StripLeadingNumber`,
  `GetCrimes.AddLayerAt` and the `[^\w\s]` and `\s+` rewrites) have no such
  statement: their contracts give properties of what they match and
  produce, and lemmas check them on built inputs.
- Python dicts and JavaScript `Map`s are insertion-ordered association lists
  (`Dicts.Dict`); a JSON record read by the scraper is a `map<string, string>`.
- The model follows the code, also where it departs from its documentation
  or from what a reader might expect:
  - `past_N` starts at midnight N days before today, so it spans N + 1
    calendar days (`web-app/src/utils/crimeData.js:161-190`);
  - a failed geocode is not cached and may be requested again
    (`web-app/src/utils/geocoding.js:29-33`);
  - an unclassified type is LOW, not "unknown"
    (`web-app/src/utils/crimeData.js:20`);
  - `clean_location` title-cases its result, so the documented
    "Chester CIR" comes out as "Chester Cir"
    (`data_scraper/convert_list.py:64`);
  - the leading-block rule `^\d+\s*block\s*` needs no space or word end
    after "block", so "12 blockade st" cleans to "Ade St"
    (`data_scraper/convert_list.py:54`);
  - an `<addlayer>` element holding only white space still matches (the group
    takes the last white-space character), so it is reported as an unexpected
    payload, not as a missing element (`get_crimes.js:60-67`).

## Model

| member | source | states |
|---|---|---|
| CrimeData.AnyKeywordIff | web-app/src/utils/crimeData.js:16 | `keywords.some(k => text.includes(k))` holds exactly when some keyword of the list occurs in the text |
| CrimeData.CrimeSeveritySpec | web-app/src/utils/crimeData.js:5-21 | the severity is HIGH iff the upper-cased type holds a HIGH keyword, MEDIUM iff it holds no HIGH but a MEDIUM keyword, LOW otherwise: HIGH is tried first and LOW is the default |
| CrimeData.LowKeywordNeverMatches | web-app/src/utils/crimeData.js:8-16 | the mixed-case LOW keyword "MV::Burglary" never occurs in an upper-cased type |
| CrimeData.SeverityColors | web-app/src/utils/crimeData.js:24-35 | the three severities get three different colours, none the grey fallback; every other string gets the grey |
| CrimeData.ParseTime | web-app/src/utils/crimeData.js:69-72 | a parsed instant lies within the time-value range of a valid `Date` (±8.64e15 ms) |
| CrimeData.NumberOfDigits | web-app/src/utils/crimeData.js:70-72 | a non-empty run of decimal digits converts to the number it spells |
| CrimeData.FieldComponents | web-app/src/utils/crimeData.js:69-71 | splitting "MM/DD/YYYY HH:mm" on space, "/" and ":" yields the five fields' numeric values, in order |
| CrimeData.ParseTimeComponents | web-app/src/utils/crimeData.js:69-72 | with numeric components, the parse succeeds with the `Date` of (year, month − 1, day, hours, minutes) exactly when that `Date` is valid, and fails with an invalid time otherwise |
| CrimeData.CivilDateValue | web-app/src/utils/crimeData.js:72 | valid components with a year from 100 on give a valid `Date` at exactly their instant |
| CrimeData.TwoDigitYears | web-app/src/utils/crimeData.js:72 | a year from 0 to 99 is read as 1900 + year by the `Date` constructor |
| CrimeData.ParseTimeField | web-app/src/utils/crimeData.js:68-72 | a time field written from valid components parses back to exactly their instant |
| CrimeData.StatuteAtSound | web-app/src/utils/crimeData.js:83 | a match reported by the statute-prefix scanner is a match of `2C:\d+-\d+[A-Z]*(\(\d+\))?(\s*\d+[A-Z]*)?::` |
| CrimeData.StatuteAtComplete | web-app/src/utils/crimeData.js:83 | every match of the statute pattern at a position is the one the scanner reports there |
| CrimeData.FindStatute | web-app/src/utils/crimeData.js:83 | the search returns the leftmost position where the pattern matches, or none when it matches nowhere |
| CrimeData.StripStatuteNoMatch | web-app/src/utils/crimeData.js:83 | a type without a statute prefix is left unchanged |
| CrimeData.StripStatuteLeftmost | web-app/src/utils/crimeData.js:83 | exactly the leftmost statute match is cut out, everything else is kept |
| CrimeData.DisplayTypeTidy | web-app/src/utils/crimeData.js:82-85 | the display type has single spaces and none at either end, and keeps every non-space character of the stripped type in order |
| CrimeData.DisplayTypeOfPrefixed | web-app/src/utils/crimeData.js:82-85 | a statute prefix followed by tidy text displays as that text |
| CrimeData.StatuteExample | web-app/src/utils/crimeData.js:83 | "2C:12-1B::" is a whole statute prefix |
| CrimeData.DisplayTypeExample | web-app/src/utils/crimeData.js:82-85 | "2C:12-1B::AGGRAVATED ASSAULT" displays as "AGGRAVATED ASSAULT" |
| CrimeData.DisplayTypeFirstOnly | web-app/src/utils/crimeData.js:83 | only the first statute prefix goes: "2C:1-1::A 2C:2-2::B" becomes "A 2C:2-2::B" |
| CrimeData.FormatCrime | web-app/src/utils/crimeData.js:65-87 | formatting succeeds exactly when the time field parses (else the parse error); a formatted record keeps the original record, has a tidy display type and its severity's colour, never the grey |
| CrimeData.FormatCrimeOfField | web-app/src/utils/crimeData.js:65-86 | a record whose time field was written from valid components keeps all its fields and gets that instant, the formatted date and time of that instant, its severity and its display type |
| CrimeData.ZipAt | web-app/src/utils/crimeData.js:105 | a match reported at a position is a match of `,?\s*08901` |
| CrimeData.ZipAtComplete | web-app/src/utils/crimeData.js:105 | every match of `,?\s*08901` at a position is the one the scanner reports |
| CrimeData.FindZip | web-app/src/utils/crimeData.js:105 | the search returns the leftmost zip match, or none when there is no match |
| CrimeData.ReplaceZipNoMatch | web-app/src/utils/crimeData.js:105 | without a zip match the location is unchanged |
| CrimeData.ReplaceZipLeftmost | web-app/src/utils/crimeData.js:105 | exactly the leftmost zip match is replaced by ", NJ 08901" |
| CrimeData.CityApartFromZip | web-app/src/utils/crimeData.js:99-105 | an occurrence of "new brunswick" (any case) never overlaps a zip match |
| CrimeData.ReplaceZipKeepsCity | web-app/src/utils/crimeData.js:104-105 | replacing the zip keeps "new brunswick" and, when a zip was found, adds ", nj" |
| CrimeData.CitySuffixNames | web-app/src/utils/crimeData.js:100 | the appended suffix names both the city and the state |
| CrimeData.NormalizeLocationAppends | web-app/src/utils/crimeData.js:95-109 | a location without the city gets ", New Brunswick, NJ" appended, so the input is a prefix of the key |
| CrimeData.NormalizeLocationKeeps | web-app/src/utils/crimeData.js:95-109 | a location that already names the city and ", nj" is its own key |
| CrimeData.NormalizeLocationNamesCity | web-app/src/utils/crimeData.js:95-109 | every key contains "new brunswick", ignoring case |
| CrimeData.NormalizeLocationIdempotent | web-app/src/utils/crimeData.js:95-109 | normalising a key again changes nothing |
| CrimeData.FilterCrimesSpec | web-app/src/utils/crimeData.js:112-123 | a blank query returns the input; otherwise the result is a subsequence of the input holding each record matching the lower-cased query in display type, location, severity or formatted date as often as the input does, and no other |
| CrimeData.SortCrimesByDate | web-app/src/utils/crimeData.js:126-128 | the sorted copy has the input's length |
| CrimeData.SortCrimesByDateSpec | web-app/src/utils/crimeData.js:126-128 | the sorted copy is a permutation of the input, most recent first, with records of the same instant in input order |
| CrimeData.PastWindow | web-app/src/utils/crimeData.js:131-140 | a token found in the `past_N` table comes with its entry's N and caption; a token not found is in no entry |
| CrimeData.TodayWindow | web-app/src/utils/crimeData.js:148-153 | 'today' starts at a midnight, holds `now`, and spans exactly one day |
| CrimeData.YesterdayWindow | web-app/src/utils/crimeData.js:154-160 | 'yesterday' starts at a midnight, spans exactly one day, and ends just before today starts |
| CrimeData.PastWindowRange | web-app/src/utils/crimeData.js:161-190 | `past_N` starts at midnight N days before today and ends at the end of today, so it holds `now` and spans N + 1 days, with the listed caption |
| CrimeData.PastWindowFound | web-app/src/utils/crimeData.js:134-138 | each `past_N` token selects its own entry and is neither 'today' nor 'yesterday' |
| CrimeData.AllTimeWindow | web-app/src/utils/crimeData.js:191-197 | 'all' and every unknown token give 'All time' from 2020-01-01 00:00 to the end of today |
| CrimeData.FilterCrimesByTimeRangeSpec | web-app/src/utils/crimeData.js:202-213 | an empty token or 'all' returns the input; otherwise the result is a subsequence holding each record whose instant lies in the window, both ends included, as often as the input does, and no other |
| Geocoding.GeocodeCache.constructor | web-app/src/utils/geocoding.js:4 | the cache starts empty, keyed by `normalizeLocation`, with no request sent |
| Geocoding.GeocodeCache.Lookup | web-app/src/utils/geocoding.js:8-13 | whatever is cached, the answer for an address is the service's answer for its normalised form, so addresses with the same key share it |
| Geocoding.GeocodeCache.GeocodeKey | web-app/src/utils/geocoding.js:11-33 | a cached key is answered with no request and no change; otherwise the key is sent once and stored only on success; the cache stays coherent and a key that resolves is never sent twice |
| Geocoding.GeocodeCache.GeocodeAddress | web-app/src/utils/geocoding.js:7-34 | the same, for the normalised address |
| Geocoding.GeocodeCache.Geocoded | web-app/src/utils/geocoding.js:47-53 | every record in input order, each with the service's answer for its location |
| Geocoding.GeocodeCache.GeocodeBatch | web-app/src/utils/geocoding.js:45-56 | a batch yields its records geocoded in order, keeping the cache coherent; every cached entry stays with its value, the entries added are exactly the batch's keys that resolve, the request log only grows, and the keys sent are exactly the batch's keys that were not cached before (`Grown`) |
| Geocoding.GeocodeCache.GeocodeCrimes | web-app/src/utils/geocoding.js:37-65 | the result is the accumulated list with unresolved records dropped, and the number of delays is one less than ⌈n/10⌉ batches (none for no records); over the whole run the cache and the request log grow as for one batch of all the records (`Grown`) |
| Geocoding.GeocodeCache.GeocodedAppend | web-app/src/utils/geocoding.js:56 | geocoding two lists one after the other is geocoding their concatenation |
| Geocoding.GeocodeCache.GeocodedPrefix | web-app/src/utils/geocoding.js:44-56 | the batches accumulated so far plus the next one are the geocoded prefix up to its end |
| Geocoding.CeilBatches | web-app/src/utils/geocoding.js:41-44 | when b slices of 10 are needed to cover n records (b − 1 fall short), b is (n + 9) / 10, the count the delay formula uses |
| Geocoding.ResolvedSpec | web-app/src/utils/geocoding.js:64 | the filtered list is a subsequence keeping exactly the records with coordinates, each as often as before |
| GetCrimes.PadIsPad2 | get_crimes.js:16 | `pad` of a number below 100 is its two-digit zero-padded decimal form |
| GetCrimes.YmdhmParts | get_crimes.js:14-24 | the token is the year's digits, then month + 1, day, hour and minute in two digits each |
| GetCrimes.YmdhmDecode | get_crimes.js:14-24 | cutting the last eight characters off the token and slicing them in pairs reads back year, month + 1, day, hour and minute |
| GetCrimes.YmdhmFourDigitYear | get_crimes.js:14-24 | a four-digit year gives a 12-character token that decodes to the components |
| GetCrimes.AddLayerAt | get_crimes.js:60 | a match of `<addlayer>\s*([^<]+)\s*<\/addlayer>` captures a non-empty group without "<" |
| GetCrimes.FindAddLayer | get_crimes.js:60 | the search returns the leftmost match and its group, or none when there is no match |
| GetCrimes.TrimAll | get_crimes.js:64 | every field trimmed, count and order kept |
| GetCrimes.ExtractHandle | get_crimes.js:59-68 | "not found" exactly when no element matches; "unexpected payload" with the whole group when it has fewer than three comma-separated fields; otherwise the trimmed third field |
| GetCrimes.NoTagNoHandle | get_crimes.js:60-63 | an overlay without "<" gives "not found" |
| GetCrimes.ElementAt | get_crimes.js:60 | an opening tag in any case, white space, a payload and the closing tag, with no "<" before, are the leftmost match and its group |
| GetCrimes.AddLayerOfElement | get_crimes.js:60 | an element placed after "<"-free text is found with its payload as the group |
| GetCrimes.HandleOfElement | get_crimes.js:59-68 | a payload of three or more fields gives its third field, trimmed |
| GetCrimes.ShortPayload | get_crimes.js:64-67 | a payload of fewer than three fields is reported whole as unexpected |
| GetCrimes.BlankPayload | get_crimes.js:60-67 | white space alone between the tags is reported as an unexpected payload of its last character |
| GetCrimes.BlankElementAt | get_crimes.js:60 | white space alone between the tags still matches, with its last character as the group |
| GetCrimes.HandleExample | get_crimes.js:59-68 | the payload "Crime,1,-2199,0,0,0" gives the handle "-2199" |
| GetCrimes.OrDefault | get_crimes.js:27-28 | a missing or empty argument gives the default date; a non-empty argument is returned unchanged |
| GetCrimes.TypesArgument | get_crimes.js:29 | only a missing types argument falls back to "" (every type); an empty one is kept |
| GetCrimes.FetchCrimes | get_crimes.js:26-88 | the search request (DSID "9119", action "search", the two tokens, the types) goes first; the overlay is written; the list request `{dsid: handle, action: "listcrimes"}` is sent only after a handle was extracted; every failure stops the run with its message and nothing after it happens |
| ConvertList.LastPartFromSpec | data_scraper/convert_list.py:19-20 | the last part of `split("::")` starts right after a separator (or at 0) and holds no separator |
| ConvertList.CleanTypeSpec | data_scraper/convert_list.py:15-31 | an empty type gives ""; a cleaned type has only word characters and single spaces, none at either end, and is title-cased |
| ConvertList.CleanTypeIdempotent | data_scraper/convert_list.py:5-31 | cleaning a cleaned type changes nothing |
| ConvertList.CleanTypeAfterSeparator | data_scraper/convert_list.py:18-20 | only the text after the last "::" counts: `a::b` cleans like `b` |
| ConvertList.CleanTypeOfWord | data_scraper/convert_list.py:18-29 | a word of letters after "::" comes out capitalised, the rest lower-cased |
| ConvertList.CleanWord | data_scraper/convert_list.py:22-29 | a single word of letters is only title-cased |
| ConvertList.CleanTypeExample | data_scraper/convert_list.py:13 | "ASSAULT::SIMPLE" cleans to "Simple" |
| ConvertList.BlockOfAt | data_scraper/convert_list.py:51 | a match of `\b\d+\s*block\s+of\s+` at a position ends after it |
| ConvertList.RemoveBlocksNone | data_scraper/convert_list.py:51 | with no block-of match from a position on, nothing there is removed |
| ConvertList.CleanLocationSpec | data_scraper/convert_list.py:42-65 | an empty location gives ""; a cleaned location has no comma, single spaces and none at either end, and is title-cased |
| ConvertList.StreetPartFirstComma | data_scraper/convert_list.py:45-48 | trimming before splitting at commas does not change the trimmed first part |
| ConvertList.CleanLocationFirstComma | data_scraper/convert_list.py:47-48 | the cleaned location depends only on the text before the first comma |
| ConvertList.CleanPlainStreet | data_scraper/convert_list.py:59-64 | a plain street is only title-cased, unless it mentions "phelps ave" |
| ConvertList.CleanLocationPhelps | data_scraper/convert_list.py:62-63 | any cleaned location mentioning "phelps ave" in any case is exactly "Phelps Ave" |
| ConvertList.BlockOfStreet | data_scraper/convert_list.py:38-51 | "<digits> block of <street>", in any case, cleans like the street alone |
| ConvertList.LeadingBlockStreet | data_scraper/convert_list.py:53-54 | "<digits> block <street>" without "of" cleans like the street alone |
| ConvertList.LeadingNumberStreet | data_scraper/convert_list.py:56-57 | "<digits> <street>" cleans like the street alone |
| ConvertList.FinishSpec | data_scraper/convert_list.py:54-64 | the last steps keep a comma-free string comma-free and make it tidy and title-cased |
| ConvertList.RowCrime | data_scraper/convert_list.py:84-96 | cells 0 to 3 in order: the type cleaned by `CleanType`, record id and time as given, the location cleaned by `CleanLocation` |
| ConvertList.RowsCrimesAppend | data_scraper/convert_list.py:78-98 | one more row adds its crime at the end exactly when it has four cells |
| ConvertList.ExtractCrimes | data_scraper/convert_list.py:76-98 | the loop's list is the crimes of the rows after the header, short rows skipped |
| ConvertList.RowsCrimesSpec | data_scraper/convert_list.py:76-98 | those crimes are the rows with four cells, in order, each mapped cell 0–3 to type, record id, time and location |
| AddType.FirstCategory | data_scraper/add_type.py:12-17 | the result is the first category of the list that the type mentions as written or upper-cased; none when no category is mentioned |
| AddType.FirstCategoryAt | data_scraper/add_type.py:12-17 | a mentioned category with no earlier mentioned category is the one chosen |
| AddType.WithCategory | data_scraper/add_type.py:15 | a kept record gets one `category` key, a listed category, and keeps every other field |
| AddType.TagAllAppend | data_scraper/add_type.py:10-17 | one more record adds its tagged form at the end when it is kept |
| AddType.TagCategories | data_scraper/add_type.py:8-17 | succeeds exactly when every record has a type, with the tagged list; otherwise stops at the first record without one |
| AddType.TagWith | data_scraper/add_type.py:10-17 | the same loop for any category list: since the type is read inside the category loop, an empty list reads no record, never fails and keeps nothing; otherwise it succeeds exactly when every record has a type, with the tagged list, and stops at the first record without one |
| AddType.TagAllNoCategories | data_scraper/add_type.py:10-17 | with no categories the output is empty, whatever the records |
| AddType.FindCategory | data_scraper/add_type.py:12-17 | the inner loop with its `break` finds the first mentioned category |
| AddType.TagAllSpec | data_scraper/add_type.py:10-17 | the output is the records that have a type mentioning a category, in order, each with its category added |
| AddType.CategoriesCapitalised | data_scraper/add_type.py:8 | every listed category starts with a capital letter |
| AddType.LowerCaseTypeDropped | data_scraper/add_type.py:14 | a type without capital letters, such as "robbery", mentions no category |
| AddType.NoCapitalNoCategory | data_scraper/add_type.py:14 | for any capitalised category list, a type without capital letters matches nothing |
| CountCrimes.CountCrimes | data_scraper/count_crimes.py:11-14 | succeeds exactly when every record has a location and a category, with the counter of all records; otherwise stops at the first unreadable record |
| CountCrimes.IncrementCountOf | data_scraper/count_crimes.py:14 | one increment raises exactly one count by one |
| CountCrimes.CountAllCounts | data_scraper/count_crimes.py:11-14 | `counts[s][c]` is the number of records with stripped location s and stripped category c |
| CountCrimes.StreetTotalPut | data_scraper/count_crimes.py:14 | assigning a count swaps its old value out of the street's sum |
| CountCrimes.TotalPut | data_scraper/count_crimes.py:14 | assigning a street's categories swaps its old sum out of the total |
| CountCrimes.IncrementTotal | data_scraper/count_crimes.py:14 | one increment raises the total by one |
| CountCrimes.CountAllTotal | data_scraper/count_crimes.py:11-14 | the sum of all counts is the number of records |
| CountCrimes.StreetOf | data_scraper/count_crimes.py:9-14 | a street of a well-formed counter is absent or has well-formed categories |
| CountCrimes.PutInner | data_scraper/count_crimes.py:14 | setting a stripped category to a positive count keeps a street well formed |
| CountCrimes.IncrementInner | data_scraper/count_crimes.py:14 | counting one more record of a category keeps a street well formed |
| CountCrimes.PutStreet | data_scraper/count_crimes.py:14 | setting a street to well-formed categories keeps the counter well formed |
| CountCrimes.IncrementWellFormed | data_scraper/count_crimes.py:12-14 | one increment keeps the counter well formed |
| CountCrimes.CountAllWellFormed | data_scraper/count_crimes.py:9-17 | the counter has distinct stripped keys at both levels, no empty street and no count below 1 |
| ChangeWeights.WeightKeyLengths | osm/change_weights.py:20-27 | the six weight names have pairwise different lengths, hence are distinct |
| ChangeWeights.WeightListed | osm/change_weights.py:20-36 | each listed category weighs what the table lists for it |
| ChangeWeights.WeightTable | osm/change_weights.py:20-36 | Murder 5, Aggravated Assault 3, Robbery 2.5, Burglary 1.5, Arson 1.5, Simple Assault 1 |
| ChangeWeights.WeightDefault | osm/change_weights.py:36 | any other category, such as "Shooting", weighs 1 |
| ChangeWeights.WeightRange | osm/change_weights.py:20-36 | every weight lies between 1 and 5 |
| ChangeWeights.CrimeWeightsInRange | osm/change_weights.py:20-27 | every entry of the table lies between 1 and 5 |
| ChangeWeights.StreetScoreAppend | osm/change_weights.py:35-37 | one more category adds count × weight to the score |
| ChangeWeights.StreetScoreNext | osm/change_weights.py:35-37 | the same, for the inner loop's prefix |
| ChangeWeights.StreetScoreBounds | osm/change_weights.py:32-38 | for non-negative counts a street's score lies between its number of crimes and five times it, so it is never negative |
| ChangeWeights.ScaleBounds | osm/change_weights.py:37 | one term count × weight lies between the count and five times it |
| ChangeWeights.ScorePairs | osm/change_weights.py:33-38 | each street paired with the sum of count × weight over its categories, in the counter's order |
| ChangeWeights.ComputeScores | osm/change_weights.py:32-38 | the nested loops build the dictionary of those pairs |
| ChangeWeights.ComputeScoresWith | osm/change_weights.py:32-38 | the same loops for any weight table |
| ChangeWeights.ScorePairsNext | osm/change_weights.py:33-38 | the outer loop's prefix grows by one street's pair |
| ChangeWeights.ScoreOfStreet | osm/change_weights.py:38 | every street of a counter with distinct streets gets its own score |
| ChangeWeights.ScoresPositive | osm/change_weights.py:32-38 | every street of the counted data scores at least its number of crimes, hence at least 1 |
| ChangeWeights.NormalizeStreetName | osm/change_weights.py:43-50 | a key has no upper-case letter |
| ChangeWeights.KeyOfWords | osm/change_weights.py:47-50 | the key made from lower-cased words has no upper-case letter |
| ChangeWeights.NormalizeEmpty | osm/change_weights.py:45-49 | a non-string, empty or blank name gives "" |
| ChangeWeights.NormalizeWords | osm/change_weights.py:47-50 | one word gives that word lower-cased; more give all but the last, lower-cased, joined by single spaces |
| ChangeWeights.NormalizeIgnoresCase | osm/change_weights.py:47 | the key ignores case |
| ChangeWeights.LookupPairs | osm/change_weights.py:53 | each street's score under its normalised name, in the scores' order |
| ChangeWeights.MatchLastStreet | osm/change_weights.py:53-60 | a road gets the score of the last street with its key: a later street overwrites an earlier one |
| ChangeWeights.MatchNoStreet | osm/change_weights.py:58-60 | a road whose key no street shares scores 0 |
| CrimesRoute.Required | web-app/src/app/api/crimes/route.js:17-31 | a required-field check yields its message once, exactly when the field is falsy or white space only |
| CrimesRoute.Invalid | web-app/src/app/api/crimes/route.js:43-45 | "Invalid category" once, exactly when the category is truthy and not one of the listed names |
| CrimesRoute.CheckRequired | web-app/src/app/api/crimes/route.js:17 | the test throws exactly on a truthy non-string, and otherwise is true exactly for a blank field |
| CrimesRoute.ValidateCrimeData | web-app/src/app/api/crimes/route.js:14-47 | the step-by-step pushes produce the reference list of messages, or the TypeError |
| CrimesRoute.ValidCategoriesNotBlank | web-app/src/app/api/crimes/route.js:33-41 | no listed category is empty or blank |
| CrimesRoute.ValidIff | web-app/src/app/api/crimes/route.js:14-47 | no message exactly when type, location and time are non-blank strings and the category is one of the listed names as written |
| CrimesRoute.RequiredEmpty | web-app/src/app/api/crimes/route.js:17-31 | a field that does not throw raises no message exactly when it is a non-blank string |
| CrimesRoute.CategoryEmpty | web-app/src/app/api/crimes/route.js:29-45 | a category that does not throw raises neither message exactly when it is a listed name |
| CrimesRoute.ErrorsInOrder | web-app/src/app/api/crimes/route.js:17-45 | the messages come in the order type, location, time, category required, invalid category, each at most once |
| CrimesRoute.WhitespaceCategory | web-app/src/app/api/crimes/route.js:29-45 | a white-space-only category gives both "Category is required" and "Invalid category" |
| CrimesRoute.MissingCategory | web-app/src/app/api/crimes/route.js:29-45 | a missing or empty category gives only "Category is required" |
| CrimesRoute.CategoryExact | web-app/src/app/api/crimes/route.js:43 | a non-empty string category is invalid exactly when it is not a listed name as written: case and surrounding spaces count |
| CrimesRoute.LastTwo | web-app/src/app/api/crimes/route.js:8 | `slice(-2)` is the last two characters, or the whole of a shorter string |
| CrimesRoute.RandomNum | web-app/src/app/api/crimes/route.js:9 | the random number lies in 10000..99999 |
| CrimesRoute.RecordIdFormat | web-app/src/app/api/crimes/route.js:6-11 | the id is 11 characters: two digits worth the year mod 100, "NB", five digits worth the random number, "-1" |
| CrimesRoute.YearDigits | web-app/src/app/api/crimes/route.js:8 | the last two characters of the year are two digits worth the year mod 100 |
| CrimesRoute.NewCrime | web-app/src/app/api/crimes/route.js:67-73 | the stored record has the trimmed type, time and location, the category as submitted, and the generated id |
| CrimesRoute.CrimeStore.constructor | web-app/src/app/api/crimes/route.js:77-78 | the store holds the list read from the file |
| CrimesRoute.CrimeStore.Post | web-app/src/app/api/crimes/route.js:50-101 | 400 with the messages exactly when validation yields some; 201 exactly when validation passes and the file succeeds, appending exactly the new record; otherwise 500; nothing is stored unless 201 |

## Left out

- Character classes and case mapping are those of ASCII; JavaScript and Python apply Unicode rules to `toUpperCase`, `lower`, `title`, `\s` and `\w`.
- Time zones and daylight saving are not modelled: instants are local wall-clock milliseconds, so `startOfDay`, `endOfDay` and `subDays` are plain arithmetic.
- The date-fns `format` calls for the displayed date and time are parameters of `CrimeData.FormatCrime`; `new Date(iso)` in `get_crimes.js` is the parameter `parseDate`.
- `getMarkerIcon` and `processCrimeData` in `web-app/src/utils/crimeData.js` are not modelled: the first builds a Google Maps icon, the second maps `formatCrimeData` over a bundled JSON file.
- `CrimeData.ParseTime`: a JavaScript `Number` conversion of a field with a sign, a fraction, an exponent, a `0x`, `0o` or `0b` radix prefix (`"0x1A"` is 26 in JavaScript) is not modelled; the model reports such a field as an invalid time, where the source builds a `Date` from the converted number.
- `CrimeData.FormatCrime`: a record without a `time` field, or without a `type` field (`crimeType.toUpperCase()` at `web-app/src/utils/crimeData.js:13`), makes the source throw; the model's record always has both, so neither failure is modelled.
- Coordinates are opaque values; latitude and longitude arithmetic is not modelled.
- `Geocoding.GeocodeCache.GeocodeCrimes`: `Promise.all` inside a batch is modelled as sequential calls. In the real code two records of one batch with the same address can both miss the cache, because every cache check runs before any answer arrives; the model's "never sent twice" holds for the sequential reading only.
- The 200 ms `setTimeout` delay is counted, not timed.
- A geocoder that throws and one that answers with no result are both `None`.
- HTTP headers, time-outs, status validation and redirects of `get_crimes.js` are not modelled; the server is a function from request to body or error message.
- File reads and writes, HTML parsing with BeautifulSoup, JSON parsing and printing are left out. A table row is the list of its cells' stripped texts, and a JSON record is a map from field name to string.
- `AddType.TagCategories` and `CountCrimes.CountCrimes`: JSON values other than strings (numbers, nested objects) are not modelled.
- `CountCrimes.CountCrimes`: the conversion to plain dicts at `data_scraper/count_crimes.py:17` is the identity on the association-list model.
- `ChangeWeights.ComputeScores`: Python floats are modelled as exact reals; rounding is not modelled.
- The scaling of road lengths by 0.05 per score unit, the pandas CSV I/O and the plotting in `osm/change_weights.py:62-90` are not modelled.
- `CrimesRoute.CrimeStore.Post`: the request body parse and the file read, parse and write are one parameter (`body`, `fileOk`). `Math.random` is the parameter `random`, required to lie in [0, 1) as the language promises.
- The GET handler of `web-app/src/app/api/crimes/route.js` only returns the stored file and is not modelled.
- `CrimesRoute.RecordIdFormat` is stated for years from 10 on; a one-digit year would give a one-character prefix.
- The map, sidebar, route planner and other React components, the route API and the Python routing services are not part of this model.
