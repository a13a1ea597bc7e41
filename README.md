# News feed client: verified model of the feed pipeline

This project models the core of an Android news reader that fetches an article
feed from a search API and shows it as a colour-coded list. It covers three
parts of the app:

- **Art**: the immutable article record. It has a category, a title, a
  publication date, a URL and an optional author.
- **QueryUtils**: the feed pipeline. `fetchArtData` builds the URL,
  `makeHttpRequest` fetches the response text, `readFromStream` joins the body's
  lines, and `extractFeatureFromJson` walks `response.results` and builds one
  article per record.
- **ArtAdapter**: the two display rules. `getCategoryColor` picks the category
  colour, and the date is rewritten inside `getView`.

Modules:

- `Wrappers`: `Option`, which stands for a nullable Java reference.
- `Articles`: the `Art` datatype. Its destructors are the getters.
- `Json`: an already-parsed org.json document (object, array, string, other),
  plus the accessors `getString`, `getJSONObject` and `getJSONArray`. Each
  accessor answers `None` where org.json throws `JSONException`.
- `QueryUtils`:
  - imperative methods `ReadFromStream`, `MakeHttpRequest`,
    `ExtractFeatureFromJson` and `FetchArtData`;
  - the functions that specify them: `Concat`, `ConvertRecord`, `ArtsOf`,
    `Results` and `ExtractFeature`;
  - lemmas about those functions.
- `ArtAdapter`: `CategoryColor` and `FormatDate`, with their lemmas.

Three things the app depends on are parameters of the model:

- The network: `Exchange` says whether connecting failed, or which status code
  and body lines came back, or that reading the body failed.
- URL validation by `java.net.URL`: the predicate `isValidUrl`.
- The org.json text parser: `parse`, which returns `None` where
  `new JSONObject(text)` throws.

The model follows the code, including where its behaviour may be surprising:

- Null or empty response text gives **null**, not an empty list
  (QueryUtils.java:144-146).
- A non-200 status does not surface a status error. `makeHttpRequest` returns
  `""`, so `fetchArtData` returns null.
- A malformed record does not abort the whole parse. The loop stops, and the
  articles already built are still returned: the result is a prefix
  (QueryUtils.java:149, 197-205).
- A body made only of blank lines also yields null, because the joined text is
  empty (`BlankBodyGivesNull`).

## Model

| member | source | states |
|---|---|---|
| Articles.GettersReturnArguments | app/src/main/java/com/exsample/android/newsapp/Art.java:20-46 | each getter returns exactly the constructor's argument, including a null (None) author |
| Articles.SameArgumentsSameArticle | app/src/main/java/com/exsample/android/newsapp/Art.java:5-46 | two articles are equal exactly when all five getters agree, so articles built from the same arguments are indistinguishable |
| ArtAdapter.CategoryColor | app/src/main/java/com/exsample/android/newsapp/ArtAdapter.java:85-124 | the colour is a named one exactly when the category is one of the ten strings (exact equality); the i-th category gets color<i+1>, everything else defaultColor |
| ArtAdapter.CategoryColorInjective | app/src/main/java/com/exsample/android/newsapp/ArtAdapter.java:87-121 | each named category gets one of color1..color10, and two named categories get the same colour only if they are the same category |
| ArtAdapter.CaseVariantsGetDefault | app/src/main/java/com/exsample/android/newsapp/ArtAdapter.java:87-121 | "film" and "NotACategory" get defaultColor; "Film" and "Music" get color3 and color4 |
| ArtAdapter.Replace | app/src/main/java/com/exsample/android/newsapp/ArtAdapter.java:67 | every character of the result comes from the replacement or is a non-target character of the input |
| ArtAdapter.FormatDate | app/src/main/java/com/exsample/android/newsapp/ArtAdapter.java:60-67 | the shown date contains no `T` and no `Z` |
| ArtAdapter.ReplaceChar | app/src/main/java/com/exsample/android/newsapp/ArtAdapter.java:67 | on one character, the target becomes the replacement and any other character stays; with ReplaceAppend this is String.replace's rule for a one-character target |
| ArtAdapter.ReplaceAppend | app/src/main/java/com/exsample/android/newsapp/ArtAdapter.java:67 | replacing in a concatenation replaces in each part: the replacement acts character by character |
| ArtAdapter.FormatDateCons | app/src/main/java/com/exsample/android/newsapp/ArtAdapter.java:66-67 | the rewrite maps each character on its own: `T` to a tab, `Z` to nothing, any other character to itself, in order |
| ArtAdapter.FormatDateAppend | app/src/main/java/com/exsample/android/newsapp/ArtAdapter.java:66-67 | rewriting a concatenation is the concatenation of the rewrites |
| ArtAdapter.FormatDateLength | app/src/main/java/com/exsample/android/newsapp/ArtAdapter.java:67 | the shown date is shorter than the input by exactly the number of `Z`s |
| ArtAdapter.FormatDateKeepsOthers | app/src/main/java/com/exsample/android/newsapp/ArtAdapter.java:66-67 | a string with no `T` and no `Z` is shown unchanged |
| ArtAdapter.FormatDateIdempotent | app/src/main/java/com/exsample/android/newsapp/ArtAdapter.java:67 | rewriting twice equals rewriting once |
| ArtAdapter.FormatDateTimestamp | app/src/main/java/com/exsample/android/newsapp/ArtAdapter.java:62-67 | a timestamp `<date>T<time>Z` is shown as `<date>`, a tab, `<time>` |
| ArtAdapter.FormatDateSample | app/src/main/java/com/exsample/android/newsapp/ArtAdapter.java:65-67 | "2018-05-09T16:49:09Z" is shown as "2018-05-09\t16:49:09" |
| QueryUtils.Concat | app/src/main/java/com/exsample/android/newsapp/QueryUtils.java:124-136 | the joined text starts with the first line read and is at least as long as every line |
| QueryUtils.ConcatAppend | app/src/main/java/com/exsample/android/newsapp/QueryUtils.java:124-136 | joining the lines of a concatenation joins each part in order |
| QueryUtils.ConcatSnoc | app/src/main/java/com/exsample/android/newsapp/QueryUtils.java:129-133 | reading one more line appends exactly that line's text |
| QueryUtils.ConcatSplit | app/src/main/java/com/exsample/android/newsapp/QueryUtils.java:124-136 | every line's text sits in the joined text between the text of the lines before it and the text of the lines after it |
| QueryUtils.ConcatEmpty | app/src/main/java/com/exsample/android/newsapp/QueryUtils.java:124-136 | the joined text is empty exactly when every line is empty |
| QueryUtils.ReadFromStream | app/src/main/java/com/exsample/android/newsapp/QueryUtils.java:124-136 | a null stream gives ""; otherwise the result is the in-order concatenation of the lines read, without terminators |
| QueryUtils.MakeHttpRequest | app/src/main/java/com/exsample/android/newsapp/QueryUtils.java:80-118 | "" for a null URL (nothing from the connection is consulted), a failed connection, a non-200 status or a failed read; otherwise the joined body lines |
| QueryUtils.CreateUrl | app/src/main/java/com/exsample/android/newsapp/QueryUtils.java:69-77 | null exactly when the string is rejected as a URL; otherwise the URL of that very string |
| QueryUtils.ConvertRecord | app/src/main/java/com/exsample/android/newsapp/QueryUtils.java:169-194 | one loop iteration yields an article exactly when the record is well formed (object, four string fields, `tags` array, a lone tag being an object with a string webTitle); a lone non-object tag yields TagCastFails, which the model's loop treats as its end while QueryUtils.java throws there |
| QueryUtils.ConvertRecordRules | app/src/main/java/com/exsample/android/newsapp/QueryUtils.java:166-194 | a record becomes an article exactly when it is well formed. The article's four fields are the record's sectionName, webTitle, webPublicationDate and webUrl. The author is the lone tag's webTitle when `tags` has exactly one element, and null for 0 or 2+ tags. The uncaught cast is reached exactly by a record with all fields whose lone tag is not an object |
| QueryUtils.ArtsOf | app/src/main/java/com/exsample/android/newsapp/QueryUtils.java:149-205 | at most one article per record; article i is the conversion of record i; the list stops only at a record that is not converted (a prefix). A TagCastFails record also ends the list, while QueryUtils.java throws there |
| QueryUtils.ArtsOfWellFormed | app/src/main/java/com/exsample/android/newsapp/QueryUtils.java:166-195 | N well-formed records give exactly N articles |
| QueryUtils.ArtsOfStopsAtFirstMalformed | app/src/main/java/com/exsample/android/newsapp/QueryUtils.java:149-205 | if record k is the first malformed one, the result is exactly the articles of records 0..k-1 |
| QueryUtils.ArtsOfPrefix | app/src/main/java/com/exsample/android/newsapp/QueryUtils.java:166-195 | the articles from the first n records are a prefix of the articles from all records |
| QueryUtils.Results | app/src/main/java/com/exsample/android/newsapp/QueryUtils.java:157-163 | `results` is found only in a document that is an object whose `response` is an object |
| QueryUtils.ExtractFeature | app/src/main/java/com/exsample/android/newsapp/QueryUtils.java:142-206 | null exactly for null or empty text; otherwise never more articles than `results` has records. A TagCastFails record ends the list, while QueryUtils.java throws there: the two agree only where CastSafe holds |
| QueryUtils.ExtractNullExactlyForEmptyText | app/src/main/java/com/exsample/android/newsapp/QueryUtils.java:142-146 | the result is null exactly for null or empty text |
| QueryUtils.ExtractMalformedDocument | app/src/main/java/com/exsample/android/newsapp/QueryUtils.java:149-205 | non-empty text whose document is not an object with an object `response` holding an array `results` gives the empty, non-null list |
| QueryUtils.ExtractFromResults | app/src/main/java/com/exsample/android/newsapp/QueryUtils.java:163-195 | with `results` present: non-null, no more articles than records, article i from record i, and one article per record when all are well formed |
| QueryUtils.BlankBodyGivesNull | app/src/main/java/com/exsample/android/newsapp/QueryUtils.java:124-146 | a body of blank lines joins to "" and so yields null |
| QueryUtils.TwoRecordSample | app/src/main/java/com/exsample/android/newsapp/QueryUtils.java:166-195 | a single-tag record and a three-tag record give two articles: the first has the tag's author, the second has none |
| QueryUtils.ExtractFeatureFromJson | app/src/main/java/com/exsample/android/newsapp/QueryUtils.java:142-206 | the list the loop fills and returns after the catch is exactly ExtractFeature of the text |
| QueryUtils.FetchArtData | app/src/main/java/com/exsample/android/newsapp/QueryUtils.java:49-66 | null for a rejected URL, a failed connection, a non-200 status or a failed read; otherwise the extraction of the joined body |

## Left out

- Network I/O in `makeHttpRequest`: `HttpURLConnection`, the 10000/15000 ms timeouts, the GET method, and `disconnect`/`close`. The outcome of the exchange is a parameter.
- An `IOException` thrown by `inputStream.close()` in the `finally` block is not modelled. In the app it escapes `makeHttpRequest` and makes `fetchArtData` return null.
- org.json's text grammar is not modelled: the parser is a parameter.
- org.json's `getString` coercion of every non-string value (numbers, booleans, `JSONObject.NULL`, nested objects and arrays) to text is not modelled. `GetString` answers None for every non-string value, which the model treats as a JSONException.
- The `ClassCastException` of the `(JSONObject)` cast on a lone tag (QueryUtils.java:184) is not caught by the `JSONException` handler. `ExtractFeatureFromJson` and `FetchArtData` require (`CastSafe`) that the loop never reaches such a record. Without that requirement, `ArtsOf`, `ExtractFeature`, `ArtsOfStopsAtFirstMalformed` and `ExtractFromResults` treat such a record as the end of the loop and return the prefix before it, while the app throws there.
- Logging (`Log.e`) is not modelled.
- MainActivity is not part of this model: lifecycle, loader management, the connectivity check, intents, and URL building with `Uri.Builder`.
- ArtLoader is not part of this model: background loading, and a null URL giving null before the call to `fetchArtData`.
- SettingsActivity is not part of this model: the preference screens.
- In `getView`, view inflation and `setText` are not modelled. Neither are the colour integers obtained through `ContextCompat.getColor` and `Integer.parseInt`: a colour is the resource key `Color(n)` / `DefaultColor`.
