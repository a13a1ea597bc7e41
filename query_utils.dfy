/**
 * The feed pipeline of QueryUtils.java: fetch the response text, then turn
 * `response.results` into articles.
 *
 * The network and the org.json text parser are outside the model. What the
 * server does is a parameter (`Exchange`), whether `new URL(..)` accepts the
 * request string is a parameter (`isValidUrl`), and the text parser is a
 * parameter (`parse`, None where `new JSONObject(..)` throws JSONException).
 */
module QueryUtils {
  import opened Wrappers
  import opened Articles
  import opened Json

  const HTTP_OK := 200

  const RESPONSE := "response"
  const RESULTS := "results"
  const SECTION_NAME := "sectionName"
  const WEB_TITLE := "webTitle"
  const WEB_DATE := "webPublicationDate"
  const URL := "webUrl"
  const TAGS := "tags"

  /** A request URL that `new URL(..)` accepted. */
  datatype Url = Url(text: string)

  /**
   * What happens once a connection is attempted: either connecting (or asking
   * for the status) throws IOException, or the server answers with a status
   * code and a body. The body is the sequence of lines the reader returns, or
   * None when getting or reading the stream throws IOException.
   */
  datatype Exchange =
    | ConnectionFailed
    | Answered(code: int, body: Option<seq<string>>)

  // ---------------------------------------------------------------- fetching

  /** The text a reader yields for `lines`: the lines joined, without their terminators. */
  function Concat(lines: seq<string>): (text: string)
    ensures lines != [] ==> lines[0] <= text
    ensures forall i :: 0 <= i < |lines| ==> |lines[i]| <= |text|
  {
    if lines == [] then "" else Concat(lines[..|lines| - 1]) + lines[|lines| - 1]
  }

  lemma {:induction false} ConcatAppend(a: seq<string>, b: seq<string>)
    ensures Concat(a + b) == Concat(a) + Concat(b)
  {
    if b == [] {
      assert a + b == a;
    } else {
      assert (a + b)[..|a + b| - 1] == a + b[..|b| - 1];
      ConcatAppend(a, b[..|b| - 1]);
    }
  }

  /** Appending one more line appends its text. */
  lemma ConcatSnoc(lines: seq<string>, line: string)
    ensures Concat(lines + [line]) == Concat(lines) + line
  {
    assert (lines + [line])[..|lines|] == lines;
  }

  /**
   * The joined text holds every line in place: the lines before it, the line,
   * the lines after it.
   */
  lemma ConcatSplit(before: seq<string>, line: string, after: seq<string>)
    ensures Concat(before + [line] + after) == Concat(before) + line + Concat(after)
  {
    ConcatAppend(before + [line], after);
    ConcatSnoc(before, line);
  }

  /** The joined text is empty exactly when every line is empty. */
  lemma {:induction false} ConcatEmpty(lines: seq<string>)
    ensures Concat(lines) == "" <==> forall i :: 0 <= i < |lines| ==> lines[i] == ""
  {
    if lines != [] {
      var init := lines[..|lines| - 1];
      ConcatEmpty(init);
      assert forall i :: 0 <= i < |init| ==> init[i] == lines[i];
    }
  }

  /** readFromStream: append each line the reader returns until it returns null. */
  method ReadFromStream(stream: Option<seq<string>>) returns (output: string)
    ensures stream.None? ==> output == ""
    ensures stream.Some? ==> output == Concat(stream.value)
  {
    output := "";
    if stream.Some? {
      var lines := stream.value;
      var i := 0;
      while i < |lines|
        invariant 0 <= i <= |lines|
        invariant output == Concat(lines[..i])
      {
        assert lines[..i + 1][..i] == lines[..i];
        output := output + lines[i];
        i := i + 1;
      }
      assert lines[..|lines|] == lines;
    }
  }

  /**
   * makeHttpRequest: "" unless the URL is present, the status is 200 and the
   * body could be read; then the body's lines joined.
   */
  method MakeHttpRequest(url: Option<Url>, exchange: Exchange) returns (jsonResponse: string)
    ensures url.None? ==> jsonResponse == ""
    ensures exchange.ConnectionFailed? ==> jsonResponse == ""
    ensures exchange.Answered? && exchange.code != HTTP_OK ==> jsonResponse == ""
    ensures exchange.Answered? && exchange.body.None? ==> jsonResponse == ""
    ensures url.Some? && exchange.Answered? && exchange.code == HTTP_OK && exchange.body.Some? ==>
      jsonResponse == Concat(exchange.body.value)
  {
    jsonResponse := "";
    if url.None? {
      return;
    }
    match exchange
    case ConnectionFailed =>
      // IOException from connect: caught and logged
    case Answered(code, body) =>
      if code == HTTP_OK {
        match body
        case Some(lines) =>
          jsonResponse := ReadFromStream(Some(lines));
        case None =>
          // IOException while reading: caught and logged
      }
      // any other status: logged
  }

  /** createUrl: None (null) where `new URL(..)` throws MalformedURLException. */
  function CreateUrl(stringUrl: string, isValidUrl: string -> bool): (url: Option<Url>)
    ensures url.Some? <==> isValidUrl(stringUrl)
    ensures url.Some? ==> url.value.text == stringUrl
  {
    if isValidUrl(stringUrl) then Some(Url(stringUrl)) else None
  }

  // -------------------------------------------------------------- extracting

  /**
   * The outcome of the body of the extraction loop for one record: an
   * article, a JSONException (which ends the loop), or the ClassCastException
   * of the `(JSONObject)` cast on a lone tag, which nothing catches.
   */
  datatype Conversion = Converted(art: Art) | Malformed | TagCastFails

  /**
   * A record the loop converts: an object with the four string fields and a
   * `tags` array whose single element, if it has exactly one, is an object
   * with a string `webTitle`.
   */
  predicate WellFormedRecord(record: Json)
  {
    record.JObject? &&
    var fields := record.fields;
    GetString(fields, SECTION_NAME).Some? && GetString(fields, WEB_TITLE).Some? &&
    GetString(fields, WEB_DATE).Some? && GetString(fields, URL).Some? &&
    GetArray(fields, TAGS).Some? &&
    var tags := GetArray(fields, TAGS).value;
    (|tags| == 1 ==> tags[0].JObject? && GetString(tags[0].fields, WEB_TITLE).Some?)
  }

  /** One iteration of the loop over `results`, in the order QueryUtils.java reads the fields. */
  function ConvertRecord(record: Json): (c: Conversion)
    ensures c.Converted? <==> WellFormedRecord(record)
  {
    if !record.JObject? then Malformed
    else
      var fields := record.fields;
      if GetString(fields, SECTION_NAME).None? || GetString(fields, WEB_TITLE).None? ||
         GetString(fields, WEB_DATE).None? || GetString(fields, URL).None? ||
         GetArray(fields, TAGS).None?
      then Malformed
      else
        var tags := GetArray(fields, TAGS).value;
        var art := Art(GetString(fields, SECTION_NAME).value, GetString(fields, WEB_TITLE).value,
                       GetString(fields, WEB_DATE).value, GetString(fields, URL).value, None);
        if |tags| != 1 then Converted(art)
        else if !tags[0].JObject? then TagCastFails
        else if GetString(tags[0].fields, WEB_TITLE).None? then Malformed
        else Converted(art.(author := GetString(tags[0].fields, WEB_TITLE)))
  }

  /**
   * A record is converted exactly when it is well formed; the article's fields
   * are the record's, and the author is the lone tag's `webTitle`, absent for
   * zero or several tags. The uncaught cast is reached exactly by a record whose
   * fields are all there and whose lone tag is not an object.
   */
  lemma ConvertRecordRules(record: Json)
    ensures ConvertRecord(record).Converted? <==> WellFormedRecord(record)
    ensures ConvertRecord(record).Converted? ==>
      var fields := record.fields;
      var tags := GetArray(fields, TAGS).value;
      Some(ConvertRecord(record).art.category) == GetString(fields, SECTION_NAME) &&
      Some(ConvertRecord(record).art.title) == GetString(fields, WEB_TITLE) &&
      Some(ConvertRecord(record).art.realiseDate) == GetString(fields, WEB_DATE) &&
      Some(ConvertRecord(record).art.url) == GetString(fields, URL) &&
      (|tags| == 1 ==> ConvertRecord(record).art.author == GetString(tags[0].fields, WEB_TITLE)) &&
      (|tags| != 1 ==> ConvertRecord(record).art.author == None)
    ensures ConvertRecord(record).TagCastFails? <==>
      record.JObject? &&
      var fields := record.fields;
      GetString(fields, SECTION_NAME).Some? && GetString(fields, WEB_TITLE).Some? &&
      GetString(fields, WEB_DATE).Some? && GetString(fields, URL).Some? &&
      GetArray(fields, TAGS).Some? &&
      |GetArray(fields, TAGS).value| == 1 && !GetArray(fields, TAGS).value[0].JObject?
  {
  }

  /**
   * The articles the loop collects from `records`: one per record, in order,
   * up to the first record that is not converted. A TagCastFails record also
   * ends the list here, whereas QueryUtils.java throws there; the two agree
   * only where CastSafe holds.
   */
  function ArtsOf(records: seq<Json>): (arts: seq<Art>)
    ensures |arts| <= |records|
    ensures forall i :: 0 <= i < |arts| ==> ConvertRecord(records[i]) == Converted(arts[i])
    ensures |arts| < |records| ==> !ConvertRecord(records[|arts|]).Converted?
  {
    if records == [] then []
    else match ConvertRecord(records[0])
      case Converted(art) => [art] + ArtsOf(records[1..])
      case _ => []
  }

  /** When every record is well formed, there is one article per record. */
  lemma ArtsOfWellFormed(records: seq<Json>)
    requires forall i :: 0 <= i < |records| ==> WellFormedRecord(records[i])
    ensures |ArtsOf(records)| == |records|
  {
    WellFormedRecordsConvert(records);
  }

  /**
   * A malformed record ends the loop: the articles are exactly those of the
   * records before the first malformed one. (When that record's lone tag is
   * not an object, QueryUtils.java throws instead: see CastSafe.)
   */
  lemma ArtsOfStopsAtFirstMalformed(records: seq<Json>, k: nat)
    requires k < |records|
    requires forall i :: 0 <= i < k ==> WellFormedRecord(records[i])
    requires !WellFormedRecord(records[k])
    ensures |ArtsOf(records)| == k
    ensures ArtsOf(records) == ArtsOf(records[..k])
  {
    WellFormedRecordsConvert(records);
    var prefix := records[..k];
    WellFormedRecordsConvert(prefix);
    assert forall i :: 0 <= i < k ==> prefix[i] == records[i];
    assert |ArtsOf(prefix)| == k;
  }

  /** Records after the first n never change the articles made from the first n. */
  lemma {:induction false} ArtsOfPrefix(records: seq<Json>, n: nat)
    requires n <= |records|
    ensures ArtsOf(records[..n]) <= ArtsOf(records)
  {
    if n > 0 {
      assert records[..n][0] == records[0] && records[..n][1..] == records[1..][..n - 1];
      if ConvertRecord(records[0]).Converted? {
        ArtsOfPrefix(records[1..], n - 1);
      }
    }
  }

  /** ConvertRecord's well-formedness rule for every record of a sequence. */
  lemma WellFormedRecordsConvert(records: seq<Json>)
    ensures forall i :: 0 <= i < |records| ==> (ConvertRecord(records[i]).Converted? <==> WellFormedRecord(records[i]))
  {
    forall i | 0 <= i < |records|
      ensures ConvertRecord(records[i]).Converted? <==> WellFormedRecord(records[i])
    {
      ConvertRecordRules(records[i]);
    }
  }

  /** `response.results`, when the document is an object holding an object `response` holding an array `results`. */
  function Results(doc: Option<Json>): (records: Option<seq<Json>>)
    ensures records.Some? ==> doc.Some? && doc.value.JObject?
    ensures records.Some? ==> GetObject(doc.value.fields, RESPONSE).Some?
  {
    match doc
    case Some(JObject(base)) =>
      (match GetObject(base, RESPONSE)
       case Some(response) => GetArray(response, RESULTS)
       case None => None)
    case _ => None
  }

  /**
   * The ClassCastException does not happen: the loop does not reach a record
   * whose lone tag is not an object.
   */
  predicate CastSafe(artJson: string, parse: string -> Option<Json>)
  {
    match Results(parse(artJson))
    case None => true
    case Some(records) =>
      |ArtsOf(records)| < |records| ==> !ConvertRecord(records[|ArtsOf(records)|]).TagCastFails?
  }

  /**
   * What extractFeatureFromJson returns: null for null or empty text; the
   * empty list when the document has no `response.results` array; otherwise
   * the articles collected before the first malformed record. As for ArtsOf,
   * this is what QueryUtils.java returns only where CastSafe holds.
   */
  function ExtractFeature(artJson: Option<string>, parse: string -> Option<Json>): (arts: Option<seq<Art>>)
    ensures arts.None? <==> artJson.None? || artJson.value == ""
    ensures arts.Some? && Results(parse(artJson.value)).Some? ==>
      |arts.value| <= |Results(parse(artJson.value)).value|
  {
    if artJson.None? || artJson.value == "" then None
    else match Results(parse(artJson.value))
      case None => Some([])
      case Some(records) => Some(ArtsOf(records))
  }

  /** Null comes back exactly for null or empty text, never for a non-empty one. */
  lemma ExtractNullExactlyForEmptyText(artJson: Option<string>, parse: string -> Option<Json>)
    ensures ExtractFeature(artJson, parse).None? <==> artJson.None? || artJson.value == ""
  {
  }

  /**
   * Text that is not an object with an object `response` holding an array
   * `results` gives the empty (non-null) list.
   */
  lemma ExtractMalformedDocument(artJson: string, parse: string -> Option<Json>)
    requires artJson != "" && Results(parse(artJson)).None?
    ensures ExtractFeature(Some(artJson), parse) == Some([])
  {
  }

  /**
   * A document with `results`: never more articles than records, article i is
   * made from record i, and the articles stop only at a record that is not
   * converted. (Non-null as a model result; QueryUtils.java returns it only
   * where CastSafe holds.)
   */
  lemma ExtractFromResults(artJson: string, parse: string -> Option<Json>, records: seq<Json>)
    requires artJson != "" && Results(parse(artJson)) == Some(records)
    ensures ExtractFeature(Some(artJson), parse).Some?
    ensures var arts := ExtractFeature(Some(artJson), parse).value;
      |arts| <= |records| &&
      (forall i :: 0 <= i < |arts| ==> ConvertRecord(records[i]) == Converted(arts[i])) &&
      ((forall i :: 0 <= i < |records| ==> WellFormedRecord(records[i])) ==> |arts| == |records|)
  {
    if forall i :: 0 <= i < |records| ==> WellFormedRecord(records[i]) {
      ArtsOfWellFormed(records);
    }
  }

  /**
   * A response of blank lines joins to the empty text, so the articles are
   * null, as for a failed request.
   */
  lemma BlankBodyGivesNull(lines: seq<string>, parse: string -> Option<Json>)
    requires forall i :: 0 <= i < |lines| ==> lines[i] == ""
    ensures ExtractFeature(Some(Concat(lines)), parse).None?
  {
    ConcatEmpty(lines);
  }

  /**
   * Two well-formed records, the first with one contributor tag and the
   * second with three: two articles, the first with an author, the second
   * without.
   */
  lemma TwoRecordSample(single: Json, several: Json)
    requires WellFormedRecord(single) && WellFormedRecord(several)
    requires |GetArray(single.fields, TAGS).value| == 1 && |GetArray(several.fields, TAGS).value| == 3
    ensures |ArtsOf([single, several])| == 2
    ensures ArtsOf([single, several])[0].author == GetString(GetArray(single.fields, TAGS).value[0].fields, WEB_TITLE)
    ensures ArtsOf([single, several])[1].author == None
  {
    ConvertRecordRules(single);
    ConvertRecordRules(several);
    ArtsOfWellFormed([single, several]);
  }

  /** extractFeatureFromJson: the list is filled by the loop and returned after the catch. */
  method ExtractFeatureFromJson(artJson: Option<string>, parse: string -> Option<Json>) returns (result: Option<seq<Art>>)
    requires artJson.Some? && artJson.value != "" ==> CastSafe(artJson.value, parse)
    ensures result == ExtractFeature(artJson, parse)
  {
    if artJson.None? || |artJson.value| == 0 {
      return None;
    }
    var arts: seq<Art> := [];
    var artArray := Results(parse(artJson.value));
    if artArray.Some? {
      var records := artArray.value;
      ghost var expected := ArtsOf(records);
      var i := 0;
      var thrown := false;
      while i < |records| && !thrown
        invariant 0 <= i <= |expected|
        invariant arts == expected[..i]
        invariant thrown ==> i == |expected|
        decreases |records| - i, !thrown
      {
        var conversion := ConvertRecord(records[i]);
        match conversion
        case Converted(art) =>
          arts := arts + [art];
          i := i + 1;
        case Malformed =>
          // JSONException: leave the loop, keep what was added
          thrown := true;
        case TagCastFails =>
          assert false;
      }
      assert arts == expected;
    }
    result := Some(arts);
  }

  /**
   * fetchArtData: build the URL, fetch the text, extract the articles. The
   * result is null whenever no text arrives.
   */
  method FetchArtData(requestUrl: string, isValidUrl: string -> bool, exchange: Exchange, parse: string -> Option<Json>)
    returns (arts: Option<seq<Art>>)
    requires isValidUrl(requestUrl) && exchange.Answered? && exchange.code == HTTP_OK && exchange.body.Some? ==>
      CastSafe(Concat(exchange.body.value), parse)
    ensures !isValidUrl(requestUrl) ==> arts.None?
    ensures exchange.ConnectionFailed? ==> arts.None?
    ensures exchange.Answered? && exchange.code != HTTP_OK ==> arts.None?
    ensures exchange.Answered? && exchange.body.None? ==> arts.None?
    ensures isValidUrl(requestUrl) && exchange.Answered? && exchange.code == HTTP_OK && exchange.body.Some? ==>
      arts == ExtractFeature(Some(Concat(exchange.body.value)), parse)
  {
    var url := CreateUrl(requestUrl, isValidUrl);
    var jsonResponse := MakeHttpRequest(url, exchange);
    arts := ExtractFeatureFromJson(Some(jsonResponse), parse);
  }
}
