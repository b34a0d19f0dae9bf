/**
 * The two-stage fetch script (`get_crimes.js`): a search request returns an
 * XML overlay naming a results layer inside `<addlayer>…</addlayer>`; the
 * third field of that element is the layer's handle, and a second request
 * lists the records of that layer.
 *
 * `new Date(iso)` is a parameter (`parseDate`, `None` for an invalid date) and
 * the HTTP server is a function from request to response body or error
 * message. The script's effects (requests sent, files written) are returned as
 * a trace.
 */
module GetCrimes {
  import opened Wrappers
  import opened Text
  import opened Seqs
  import opened Calendar

  const Endpoint: string := "https://newbrunswicknj.wthgis.com/tgis/custom.aspx"
  const SearchDsid: string := "9119"
  const OverlayFile: string := "overlay.xml"
  const ListFile: string := "list.html"
  const DefaultStart: string := "2025-06-11T00:00:00"
  const DefaultEnd: string := "2025-10-04T23:59:00"

  // ===========================================================================
  // The compact date token
  // ===========================================================================

  /** The script's `pad`: `String(n).padStart(2, "0")`. */
  function Pad(n: int): (r: string)
    ensures |r| >= 2
  {
    PadStart(IntToString(n), 2, '0')
  }

  /** `ymdhm`: year, then month, day, hour and minute padded to two digits.
      An invalid date makes every getter `NaN`. */
  function Ymdhm(d: Option<Civil>): (r: string)
    ensures |r| >= 9
  {
    match d
    case None => "NaNNaNNaNNaNNaN"
    case Some(c) => IntToString(c.year) + Pad(c.month + 1) + Pad(c.day) + Pad(c.hour) + Pad(c.minute)
  }

  /** A two-digit field is the zero-padded decimal form of the number. */
  lemma PadIsPad2(n: int)
    requires 0 <= n < 100
    ensures Pad(n) == Pad2(n)
  {
  }

  /** For a year from 0 on and components in the ranges a `Date` reports,
      the token is the year's decimal digits and four two-digit fields. */
  lemma YmdhmParts(c: Civil)
    requires c.year >= 0 && 0 <= c.month < 12 && 1 <= c.day <= 31 && 0 <= c.hour < 24 && 0 <= c.minute < 60
    ensures Ymdhm(Some(c)) == NatToString(c.year) + Pad2(c.month + 1) + Pad2(c.day) + Pad2(c.hour) + Pad2(c.minute)
  {
    var y, mo, d, h, mi := IntToString(c.year), Pad(c.month + 1), Pad(c.day), Pad(c.hour), Pad(c.minute);
    assert Ymdhm(Some(c)) == y + mo + d + h + mi;
    assert y == NatToString(c.year);
    PadIsPad2(c.month + 1);
    PadIsPad2(c.day);
    PadIsPad2(c.hour);
    PadIsPad2(c.minute);
  }

  /** `r` is a non-empty run of digits reading `year`, then four two-digit
      fields reading `month`, `day`, `hour` and `minute`. */
  predicate Decodes(r: string, year: int, month: int, day: int, hour: int, minute: int) {
    var n := |r| - 8;
    && n >= 1
    && AllDigits(r[..n]) && DigitsValue(r[..n]) == year
    && AllDigits(r[n..n + 2]) && DigitsValue(r[n..n + 2]) == month
    && AllDigits(r[n + 2..n + 4]) && DigitsValue(r[n + 2..n + 4]) == day
    && AllDigits(r[n + 4..n + 6]) && DigitsValue(r[n + 4..n + 6]) == hour
    && AllDigits(r[n + 6..]) && DigitsValue(r[n + 6..]) == minute
  }

  /** The token for a year from 0 on: the year's digits, then month, day,
      hour and minute in two digits each, so slicing the last eight characters
      off recovers every component. */
  lemma YmdhmDecode(c: Civil)
    requires c.year >= 0 && 0 <= c.month < 12 && 1 <= c.day <= 31 && 0 <= c.hour < 24 && 0 <= c.minute < 60
    ensures Decodes(Ymdhm(Some(c)), c.year, c.month + 1, c.day, c.hour, c.minute)
  {
    var y := NatToString(c.year);
    YmdhmParts(c);
    NatToStringValue(c.year);
    DecodeParts(y, Pad2(c.month + 1), Pad2(c.day), Pad2(c.hour), Pad2(c.minute));
  }

  /** Each slice of a concatenation of digit strings reads as its part. */
  lemma DecodeParts(y: string, mo: string, d: string, h: string, mi: string)
    requires y != [] && |mo| == 2 && |d| == 2 && |h| == 2 && |mi| == 2
    requires AllDigits(y) && AllDigits(mo) && AllDigits(d) && AllDigits(h) && AllDigits(mi)
    ensures Decodes(y + mo + d + h + mi, DigitsValue(y), DigitsValue(mo), DigitsValue(d), DigitsValue(h), DigitsValue(mi))
  {
    SliceFive(y, mo, d, h, mi);
  }

  /** The five parts of a concatenation of a string and four two-character
      strings. */
  lemma SliceFive(y: string, mo: string, d: string, h: string, mi: string)
    requires |mo| == 2 && |d| == 2 && |h| == 2 && |mi| == 2
    ensures var r := y + mo + d + h + mi;
            var n := |y|;
            && |r| == n + 8
            && r[..n] == y && r[n..n + 2] == mo && r[n + 2..n + 4] == d
            && r[n + 4..n + 6] == h && r[n + 6..] == mi
  {
  }

  /** A four-digit year gives the 12-character `YYYYMMDDHHmm` token. */
  lemma YmdhmFourDigitYear(c: Civil)
    requires 1000 <= c.year <= 9999 && 0 <= c.month < 12 && 1 <= c.day <= 31 && 0 <= c.hour < 24 && 0 <= c.minute < 60
    ensures |Ymdhm(Some(c))| == 12
    ensures Decodes(Ymdhm(Some(c)), c.year, c.month + 1, c.day, c.hour, c.minute)
  {
    FourDigits(c.year);
    YmdhmParts(c);
    YmdhmDecode(c);
  }

  lemma FourDigits(y: nat)
    requires 1000 <= y <= 9999
    ensures |NatToString(y)| == 4
  {
    assert Pow10(3) == 1000 && Pow10(4) == 10000;
    NatToStringLength(y, 3);
  }

  // ===========================================================================
  // The layer handle: /<addlayer>\s*([^<]+)\s*<\/addlayer>/i
  // ===========================================================================

  const OpenTag: string := "<addlayer>"
  const CloseTag: string := "</addlayer>"

  predicate NotLt(c: char) {
    c != '<'
  }

  /** The capture group of a match starting at `p`, if there is one. The
      leading `\s*` takes all the white space, then `[^<]+` runs to the next
      `<`, where the closing tag must stand; when the content is white space
      only, `\s*` gives back its last character to the group. */
  function AddLayerAt(s: string, p: nat): (r: Option<string>)
    ensures r.Some? ==> r.value != [] && forall i :: 0 <= i < |r.value| ==> r.value[i] != '<'
  {
    if !OccursAtIgnoreCase(s, OpenTag, p) then None
    else
      var w := SpaceEnd(s, p + 10, |s|);
      var q := RunEnd(s, w, |s|, NotLt);
      RunChars(s, w, |s|, NotLt);
      RunChars(s, p + 10, |s|, IsSpace);
      if q == p + 10 || !OccursAtIgnoreCase(s, CloseTag, q) then None
      else if w < q then Some(s[w..q])
      else Some(s[q - 1..q])
  }

  /** The leftmost match, as (start, capture group). */
  function FindAddLayer(s: string): (r: Option<(nat, string)>)
    ensures r.Some? ==> AddLayerAt(s, r.value.0) == Some(r.value.1)
    ensures r.Some? ==> forall k: nat :: k < r.value.0 ==> AddLayerAt(s, k).None?
    ensures r.None? ==> forall k: nat :: k <= |s| ==> AddLayerAt(s, k).None?
  {
    var at: nat -> Option<string> := (i: nat) => AddLayerAt(s, i);
    assert forall k: nat :: at(k) == AddLayerAt(s, k);
    Leftmost(at, 0, |s|)
  }

  /** The two errors the script throws before the second request. */
  datatype ExtractError = AddLayerNotFound | UnexpectedPayload(payload: string)

  function ErrorMessage(e: ExtractError): string {
    match e
    case AddLayerNotFound => "Could not find <addlayer> in overlay.xml"
    case UnexpectedPayload(payload) => "Unexpected <addlayer> payload: " + payload
  }

  /** `.map(s => s.trim())`. */
  function TrimAll(parts: seq<string>): (r: seq<string>)
    ensures |r| == |parts| && forall i :: 0 <= i < |parts| ==> r[i] == Trim(parts[i])
  {
    seq(|parts|, i requires 0 <= i < |parts| => Trim(parts[i]))
  }

  /** The handle: the third comma-separated field, trimmed, of the first
      `<addlayer>` element. */
  function ExtractHandle(overlay: string): (r: Result<string, ExtractError>)
    ensures r == Err(AddLayerNotFound) <==> FindAddLayer(overlay).None?
    ensures r.Err? && r.error.UnexpectedPayload? ==>
              && FindAddLayer(overlay) == Some((FindAddLayer(overlay).value.0, r.error.payload))
              && |Split(r.error.payload, ',')| < 3
    ensures r.Ok? ==>
              var payload := FindAddLayer(overlay).value.1;
              |Split(payload, ',')| >= 3 && r.value == Trim(Split(payload, ',')[2])
  {
    match FindAddLayer(overlay)
    case None => Err(AddLayerNotFound)
    case Some((_, payload)) =>
      var parts := TrimAll(Split(payload, ','));
      if |parts| < 3 then Err(UnexpectedPayload(payload)) else Ok(parts[2])
  }

  /** Without a `<` there is no element. */
  lemma NoTagNoHandle(overlay: string)
    requires forall i :: 0 <= i < |overlay| ==> overlay[i] != '<'
    ensures ExtractHandle(overlay) == Err(AddLayerNotFound)
  {
    NoMatchBefore(overlay, |overlay|);
    assert !OccursAtIgnoreCase(overlay, OpenTag, |overlay|);
  }

  /** No match can start inside text free of `<`. */
  lemma NoMatchBefore(s: string, n: nat)
    requires n <= |s| && forall i :: 0 <= i < n ==> s[i] != '<'
    ensures forall k: nat :: k < n ==> AddLayerAt(s, k).None?
  {
    forall k: nat | k < n
      ensures AddLayerAt(s, k).None?
    {
      assert LowerChar(s[k]) != OpenTag[0];
    }
  }

  /** Characters of the middle part of a concatenation. */
  /** A tag with no capital letter is found where it was placed. */
  lemma TagAtMiddle(u: string, t: string, v: string)
    requires forall j :: 0 <= j < |t| ==> !IsUpper(t[j])
    ensures OccursAtIgnoreCase(u + t + v, t, |u|)
  {
    Middle(u, t, v);
    forall j | 0 <= j < |t|
      ensures LowerChar((u + t + v)[|u| + j]) == t[j]
    {
      assert (u + t + v)[|u| + j] == t[j];
    }
  }

  lemma TagsLower()
    ensures forall j :: 0 <= j < |OpenTag| ==> !IsUpper(OpenTag[j])
    ensures forall j :: 0 <= j < |CloseTag| ==> !IsUpper(CloseTag[j])
  {
  }

  /** The leftmost match from its parts: no `<` before `p`, the opening tag
      at `p`, white space up to `w`, a non-space at `w`, no `<` up to `q`, the
      closing tag at `q`. */
  lemma ElementAt(s: string, p: nat, w: nat, q: nat)
    requires OccursAtIgnoreCase(s, OpenTag, p) && p + 10 <= w < q && OccursAtIgnoreCase(s, CloseTag, q)
    requires forall i :: 0 <= i < p ==> s[i] != '<'
    requires forall i :: p + 10 <= i < w ==> IsSpace(s[i])
    requires !IsSpace(s[w])
    requires forall i :: w <= i < q ==> s[i] != '<'
    ensures FindAddLayer(s) == Some((p, s[w..q]))
  {
    NoMatchBefore(s, p);
    RunEndIs(s, p + 10, |s|, IsSpace, w);
    assert LowerChar(s[q]) == CloseTag[0];
    RunEndIs(s, w, |s|, NotLt, q);
    assert AddLayerAt(s, p) == Some(s[w..q]);
  }

  /** The positions of an element's parts in the text around it. */
  lemma ElementChars(pre: string, c: string, post: string)
    ensures var s := pre + OpenTag + c + CloseTag + post;
            && (forall i :: 0 <= i < |pre| ==> s[i] == pre[i])
            && OccursAtIgnoreCase(s, OpenTag, |pre|)
            && (forall i :: 0 <= i < |c| ==> s[|pre| + 10 + i] == c[i])
            && s[|pre| + 10..|pre| + 10 + |c|] == c
            && OccursAtIgnoreCase(s, CloseTag, |pre| + 10 + |c|)
  {
    var s := pre + OpenTag + c + CloseTag + post;
    TagsLower();
    TagAtMiddle(pre, OpenTag, c + CloseTag + post);
    assert s == pre + OpenTag + (c + CloseTag + post);
    TagAtMiddle(pre + OpenTag + c, CloseTag, post);
    Middle(pre + OpenTag, c, CloseTag + post);
    assert s == (pre + OpenTag) + c + (CloseTag + post);
  }

  /** An element whose content is white space followed by a payload that
      starts with a non-space and holds no `<` captures exactly the payload. */
  lemma AddLayerOfElement(pre: string, sp: string, payload: string, post: string)
    requires forall i :: 0 <= i < |pre| ==> pre[i] != '<'
    requires AllSpace(sp)
    requires payload != [] && !IsSpace(payload[0])
    requires forall i :: 0 <= i < |payload| ==> payload[i] != '<'
    ensures FindAddLayer(pre + OpenTag + sp + payload + CloseTag + post) == Some((|pre|, payload))
  {
    var c := sp + payload;
    var s := pre + OpenTag + c + CloseTag + post;
    assert s == pre + OpenTag + sp + payload + CloseTag + post;
    ElementChars(pre, c, post);
    ElementOf(s, |pre|, sp, payload);
  }

  /** The leftmost match when the text between the tags is white space and
      then a payload. */
  lemma ElementOf(s: string, p: nat, sp: string, payload: string)
    requires p + 10 + |sp| + |payload| <= |s|
    requires OccursAtIgnoreCase(s, OpenTag, p) && OccursAtIgnoreCase(s, CloseTag, p + 10 + |sp| + |payload|)
    requires s[p + 10..p + 10 + |sp| + |payload|] == sp + payload
    requires forall i :: 0 <= i < p ==> s[i] != '<'
    requires AllSpace(sp)
    requires payload != [] && !IsSpace(payload[0])
    requires forall i :: 0 <= i < |payload| ==> payload[i] != '<'
    ensures FindAddLayer(s) == Some((p, payload))
  {
    var w := p + 10 + |sp|;
    var q := w + |payload|;
    forall i | p + 10 <= i < w
      ensures IsSpace(s[i])
    {
      assert s[i] == s[p + 10..q][i - p - 10] == sp[i - p - 10];
    }
    forall i | w <= i < q
      ensures s[i] != '<'
    {
      assert s[i] == s[p + 10..q][i - p - 10] == payload[i - w];
    }
    assert s[w] == payload[0];
    assert s[w..q] == s[p + 10..q][|sp|..] == payload;
    ElementAt(s, p, w, q);
  }

  /** A payload of at least three comma-separated fields gives its third
      field, trimmed. */
  lemma HandleOfElement(pre: string, sp: string, fields: seq<string>, post: string)
    requires forall i :: 0 <= i < |pre| ==> pre[i] != '<'
    requires AllSpace(sp)
    requires |fields| >= 3
    requires forall i :: 0 <= i < |fields| ==> ',' !in fields[i] && '<' !in fields[i]
    requires fields[0] != [] && !IsSpace(fields[0][0])
    ensures ExtractHandle(pre + OpenTag + sp + Join(fields, ',') + CloseTag + post) == Ok(Trim(fields[2]))
  {
    var payload := Join(fields, ',');
    JoinNoChar(fields, ',', '<');
    JoinStart(fields, ',');
    AddLayerOfElement(pre, sp, payload, post);
    SplitJoin(fields, ',');
  }

  /** A payload with fewer than three fields is reported whole. */
  lemma ShortPayload(pre: string, sp: string, payload: string, post: string)
    requires forall i :: 0 <= i < |pre| ==> pre[i] != '<'
    requires AllSpace(sp)
    requires payload != [] && !IsSpace(payload[0])
    requires forall i :: 0 <= i < |payload| ==> payload[i] != '<'
    requires |Split(payload, ',')| < 3
    ensures ExtractHandle(pre + OpenTag + sp + payload + CloseTag + post) == Err(UnexpectedPayload(payload))
  {
    AddLayerOfElement(pre, sp, payload, post);
  }

  /** White space alone between the tags still matches: the group is its last
      character, which has no comma, so the payload is reported as unexpected. */
  lemma BlankPayload(pre: string, sp: string, post: string)
    requires forall i :: 0 <= i < |pre| ==> pre[i] != '<'
    requires sp != [] && AllSpace(sp)
    ensures ExtractHandle(pre + OpenTag + sp + CloseTag + post) == Err(UnexpectedPayload([sp[|sp| - 1]]))
  {
    var s := pre + OpenTag + sp + CloseTag + post;
    ElementChars(pre, sp, post);
    var p := |pre|;
    var q := p + 10 + |sp|;
    BlankElementAt(s, p, q);
    assert s[q - 1] == sp[|sp| - 1];
    assert s[q - 1..q] == [sp[|sp| - 1]];
    SplitNoSep([sp[|sp| - 1]], ',');
  }

  /** The leftmost match when only white space stands between the tags. */
  lemma BlankElementAt(s: string, p: nat, q: nat)
    requires OccursAtIgnoreCase(s, OpenTag, p) && p + 10 < q && OccursAtIgnoreCase(s, CloseTag, q)
    requires forall i :: 0 <= i < p ==> s[i] != '<'
    requires forall i :: p + 10 <= i < q ==> IsSpace(s[i])
    ensures FindAddLayer(s) == Some((p, s[q - 1..q]))
  {
    NoMatchBefore(s, p);
    assert LowerChar(s[q]) == CloseTag[0];
    RunEndIs(s, p + 10, |s|, IsSpace, q);
    RunEndIs(s, q, |s|, NotLt, q);
    assert AddLayerAt(s, p) == Some(s[q - 1..q]);
  }

  /** The overlay the server is known to send: `Crime,1,-2199,0,0,0` names the
      layer `-2199`. */
  lemma HandleExample(pre: string, payload: string, post: string, handle: string)
    requires forall i :: 0 <= i < |pre| ==> pre[i] != '<'
    requires payload == "Crime,1,-2199,0,0,0" && handle == "-2199"
    ensures ExtractHandle(pre + OpenTag + payload + CloseTag + post) == Ok(handle)
  {
    var fields := ExampleFields(payload, handle);
    assert pre + OpenTag + payload + CloseTag + post == pre + OpenTag + [] + payload + CloseTag + post;
    HandleOfElement(pre, [], fields, post);
    TrimOfPadded([], handle, []);
    assert [] + handle + [] == handle;
  }

  lemma ExampleFields(payload: string, handle: string) returns (fields: seq<string>)
    requires payload == "Crime,1,-2199,0,0,0" && handle == "-2199"
    ensures |fields| >= 3 && Join(fields, ',') == payload && fields[2] == handle
    ensures forall i :: 0 <= i < |fields| ==> ',' !in fields[i] && '<' !in fields[i]
    ensures fields[0] != [] && !IsSpace(fields[0][0])
  {
    fields := ["Crime", "1", handle, "0", "0", "0"];
    JoinSix(fields, ',');
  }

  lemma JoinSix(f: seq<string>, sep: char)
    requires |f| == 6
    ensures Join(f, sep) == f[0] + [sep] + f[1] + [sep] + f[2] + [sep] + f[3] + [sep] + f[4] + [sep] + f[5]
  {
    assert f[4..][1..] == f[5..] == [f[5]];
    assert f[3..][1..] == f[4..];
    assert f[2..][1..] == f[3..];
    assert f[1..][1..] == f[2..];
    assert Join(f[4..], sep) == f[4] + [sep] + f[5];
    assert Join(f[3..], sep) == f[3] + [sep] + Join(f[4..], sep);
    assert Join(f[2..], sep) == f[2] + [sep] + Join(f[3..], sep);
    assert Join(f[1..], sep) == f[1] + [sep] + Join(f[2..], sep);
  }

  lemma {:induction false} JoinNoChar(parts: seq<string>, sep: char, c: char)
    requires c != sep
    requires forall i :: 0 <= i < |parts| ==> c !in parts[i]
    ensures c !in Join(parts, sep)
    decreases |parts|
  {
    if |parts| > 1 {
      JoinNoChar(parts[1..], sep, c);
    }
  }

  lemma JoinStart(parts: seq<string>, sep: char)
    requires |parts| >= 1 && parts[0] != []
    ensures Join(parts, sep) != [] && Join(parts, sep)[0] == parts[0][0]
  {
  }

  // ===========================================================================
  // The script: search, write the overlay, extract, list, write the list
  // ===========================================================================

  /** A GET of the endpoint with query parameters (headers and time-outs are
      not modelled). */
  datatype Request = Request(url: string, params: seq<(string, string)>)

  datatype Effect = Get(request: Request) | WriteFile(path: string, contents: string)

  /** How the process ends: normally, or with the message printed before exit
      code 1. */
  datatype Outcome = Completed | Failed(message: string)

  /** `process.argv[k] || fallback`: a missing or empty argument gives the
      fallback. */
  function OrDefault(arg: Option<string>, fallback: string): (r: string)
    ensures arg.None? || arg.value == [] ==> r == fallback
    ensures arg.Some? && arg.value != [] ==> r == arg.value
    ensures r == fallback <==> arg.None? || arg.value == [] || arg.value == fallback
  {
    if arg.None? || arg.value == [] then fallback else arg.value
  }

  /** The types argument: an empty argument is kept; only a missing one falls
      back to `""`, every type. */
  function TypesArgument(arg: Option<string>): (r: string)
    ensures arg.None? ==> r == []
    ensures arg.Some? ==> r == arg.value
  {
    if arg.None? then [] else arg.value
  }

  function SearchRequest(start: string, end: string, types: string): Request {
    Request(Endpoint, [("DSID", SearchDsid), ("action", "search"), ("start", start), ("end", end), ("types", types)])
  }

  function ListRequest(handle: string): Request {
    Request(Endpoint, [("dsid", handle), ("action", "listcrimes")])
  }

  /** `main`, run to its end or to the first error. The list request is sent
      only when a handle was extracted, and each file is written right after
      the response it holds. */
  method FetchCrimes(startArg: Option<string>, endArg: Option<string>, typesArg: Option<string>,
                     parseDate: string -> Option<Civil>, server: Request -> Result<string, string>)
    returns (effects: seq<Effect>, outcome: Outcome)
    ensures var search := SearchRequest(Ymdhm(parseDate(OrDefault(startArg, DefaultStart))),
                                        Ymdhm(parseDate(OrDefault(endArg, DefaultEnd))),
                                        TypesArgument(typesArg));
            && |effects| >= 1 && effects[0] == Get(search)
            && (server(search).Err? ==> effects == [Get(search)] && outcome == Failed(server(search).error))
            && (server(search).Ok? ==>
                  var overlay := server(search).value;
                  && |effects| >= 2 && effects[1] == WriteFile(OverlayFile, overlay)
                  && (ExtractHandle(overlay).Err? ==>
                        |effects| == 2 && outcome == Failed(ErrorMessage(ExtractHandle(overlay).error)))
                  && (ExtractHandle(overlay).Ok? ==>
                        var list := ListRequest(ExtractHandle(overlay).value);
                        && |effects| >= 3 && effects[2] == Get(list)
                        && (server(list).Err? ==> |effects| == 3 && outcome == Failed(server(list).error))
                        && (server(list).Ok? ==>
                              |effects| == 4 && effects[3] == WriteFile(ListFile, server(list).value)
                              && outcome == Completed)))
    ensures outcome == Completed <==> |effects| == 4
    ensures forall i :: 0 <= i < |effects| && effects[i].Get? && i > 0 ==>
              ExtractHandle(server(effects[0].request).value).Ok?
  {
    var startIso := OrDefault(startArg, DefaultStart);
    var endIso := OrDefault(endArg, DefaultEnd);
    var types := TypesArgument(typesArg);
    var start := Ymdhm(parseDate(startIso));
    var end := Ymdhm(parseDate(endIso));
    var search := SearchRequest(start, end, types);
    effects := [Get(search)];
    var overlayRes := server(search);
    if overlayRes.Err? {
      outcome := Failed(overlayRes.error);
      return;
    }
    var overlayText := overlayRes.value;
    effects := effects + [WriteFile(OverlayFile, overlayText)];
    var m := ExtractHandle(overlayText);
    if m.Err? {
      outcome := Failed(ErrorMessage(m.error));
      return;
    }
    var layerDsid := m.value;
    var list := ListRequest(layerDsid);
    effects := effects + [Get(list)];
    var listRes := server(list);
    if listRes.Err? {
      outcome := Failed(listRes.error);
      return;
    }
    effects := effects + [WriteFile(ListFile, listRes.value)];
    outcome := Completed;
  }
}
