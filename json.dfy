/**
 * An already-parsed JSON document, as the org.json classes hold it, and the
 * org.json accessors the feed extraction uses. GetObject and GetArray answer
 * None where org.json throws JSONException; GetString answers None for a
 * missing key and for every non-string value (org.json would coerce a present
 * non-string value to text instead).
 */
module Json {
  import opened Wrappers

  datatype Json =
    | JObject(fields: map<string, Json>)  // JSONObject
    | JArray(items: seq<Json>)            // JSONArray
    | JString(str: string)                // a string value
    | JOther                              // a number, a boolean or JSONObject.NULL

  /** JSONObject.getString: the key must be present and hold a string. */
  function GetString(obj: map<string, Json>, key: string): (value: Option<string>)
  {
    if key in obj && obj[key].JString? then Some(obj[key].str) else None
  }

  /** JSONObject.getJSONObject: the key must be present and hold an object. */
  function GetObject(obj: map<string, Json>, key: string): (value: Option<map<string, Json>>)
  {
    if key in obj && obj[key].JObject? then Some(obj[key].fields) else None
  }

  /** JSONObject.getJSONArray: the key must be present and hold an array. */
  function GetArray(obj: map<string, Json>, key: string): (value: Option<seq<Json>>)
  {
    if key in obj && obj[key].JArray? then Some(obj[key].items) else None
  }
}
