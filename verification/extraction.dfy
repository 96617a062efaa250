/** Turning the response text of the news endpoint into the ordered list of
    articles (`QueryUtils.extractFeatureFromJson`). The expected shape is
    `{ "response": { "results": [ { "sectionName", "webTitle",
    "webPublicationDate", "tags": [ { "webTitle" } ], "webUrl" } ] } }`. */
module Extraction {
  import opened Wrappers
  import opened Json
  import opened TechNewsRecord

  /** The author recorded when an article has no contributor tag. */
  const AuthorUnknown: string := "Author: unknown"

  /** `TextUtils.isEmpty`: null or of length zero. */
  predicate IsEmpty(text: Option<string>) {
    text.None? || |text.value| == 0
  }

  /** Member `key` of `m` is present and reads as the string `value`. */
  ghost predicate Field(lib: Library, m: Object, key: string, value: string) {
    key in m && AsString(lib, m[key]) == Some(value)
  }

  /** Record `record` of the results array stands for article `n`: it is an
      object whose section, title, date and url members read as n's fields,
      whose `tags` member is an array, and n's author is the fixed fallback
      when that array is empty and otherwise the `webTitle` of its first
      element, which must be an object. */
  ghost predicate Describes(lib: Library, record: Json, n: TechNews) {
    && record.JObject?
    && var m := record.members;
    && Field(lib, m, "sectionName", n.section)
    && Field(lib, m, "webTitle", n.title)
    && Field(lib, m, "webPublicationDate", n.date)
    && Field(lib, m, "webUrl", n.url)
    && "tags" in m && m["tags"].JArray?
    && var tags := m["tags"].items;
    && (if |tags| == 0 then n.author == AuthorUnknown
        else tags[0].JObject? && Field(lib, tags[0].members, "webTitle", n.author))
  }

  /** The `results` array of the response text, read straight off the tree:
      None when the text is not an object or lacks `response` (an object) or
      `response.results` (an array). */
  ghost function SchemaResults(lib: Library, text: string): Option<seq<Json>> {
    match lib.parse(text)
    case Some(JObject(base)) =>
      if "response" in base && base["response"].JObject?
         && "results" in base["response"].members
         && base["response"].members["results"].JArray?
      then Some(base["response"].members["results"].items)
      else None
    case _ => None
  }

  /** The author of one record: the fallback when `tags` is empty, otherwise
      `tags[0].webTitle`. */
  function AuthorOf(lib: Library, tags: seq<Json>): (r: Option<string>)
    ensures |tags| == 0 ==> r == Some(AuthorUnknown)
    ensures |tags| != 0 ==>
      (r.Some? <==> tags[0].JObject? && "webTitle" in tags[0].members
                    && AsString(lib, tags[0].members["webTitle"]).Some?)
    ensures |tags| != 0 && r.Some? ==> Field(lib, tags[0].members, "webTitle", r.value)
  {
    if |tags| != 0 then
      var first :- ArrayGetJsonObject(tags, 0);
      GetString(lib, first, "webTitle")
    else
      Some(AuthorUnknown)
  }

  /** The body of one loop iteration: one article from one record, or None
      where the Java code throws `JSONException`. */
  function BuildNews(lib: Library, current: Object): (r: Option<TechNews>)
    ensures r.Some? ==> Describes(lib, JObject(current), r.value)
    ensures r.None? ==> forall n :: !Describes(lib, JObject(current), n)
  {
    var section :- GetString(lib, current, "sectionName");
    var title :- GetString(lib, current, "webTitle");
    var date :- GetString(lib, current, "webPublicationDate");
    var tags :- GetJsonArray(current, "tags");
    var author :- AuthorOf(lib, tags);
    var url :- GetString(lib, current, "webUrl");
    Some(TechNews(section, title, date, author, url))
  }

  /** One element of the results array as an article: the element must be an
      object (`getJSONObject(i)`) and the object must make an article. */
  function ArticleOf(lib: Library, record: Json): (r: Option<TechNews>)
    ensures r.Some? ==> Describes(lib, record, r.value)
    ensures r.None? ==> forall n :: !Describes(lib, record, n)
  {
    var current :- AsObject(record);
    BuildNews(lib, current)
  }

  /** `articles` is what the loop over `results` leaves in the list: element k
      stands for record k, and unless every record was used, the record right
      after the last one used stands for no article (that is where the loop
      threw). */
  ghost predicate LongestDescribedPrefix(lib: Library, results: seq<Json>, articles: seq<TechNews>) {
    && |articles| <= |results|
    && (forall k :: 0 <= k < |articles| ==> Describes(lib, results[k], articles[k]))
    && (|articles| < |results| ==> forall n :: !Describes(lib, results[|articles|], n))
  }

  /** The `for` loop over the results array: records are mapped in array
      order, and the first record that throws ends the loop, keeping the
      articles built before it. */
  function ExtractArticles(lib: Library, results: seq<Json>): (r: seq<TechNews>)
    ensures LongestDescribedPrefix(lib, results, r)
    decreases |results|
  {
    if |results| == 0 then []
    else
      match ArticleOf(lib, results[0])
      case None => []
      case Some(news) => [news] + ExtractArticles(lib, results[1..])
  }

  /** `response.results` reached through the accessors the Java code calls. */
  function ResultsArray(lib: Library, text: string): (r: Option<seq<Json>>)
    ensures r == SchemaResults(lib, text)
  {
    var base :- ParseObject(lib, text);
    var response :- GetJsonObject(base, "response");
    GetJsonArray(response, "results")
  }

  /** `QueryUtils.extractFeatureFromJson`. None is Java's `null`, returned
      only for null or empty text; text that is not JSON, or lacks
      `response.results`, gives the empty list; otherwise the list holds the
      articles of the records up to the first malformed one. */
  function ExtractFeatureFromJson(lib: Library, text: Option<string>): (r: Option<seq<TechNews>>)
    ensures r.None? <==> IsEmpty(text)
    ensures !IsEmpty(text) && SchemaResults(lib, text.value).None? ==> r == Some([])
    ensures !IsEmpty(text) && SchemaResults(lib, text.value).Some? ==>
      r.Some? && LongestDescribedPrefix(lib, SchemaResults(lib, text.value).value, r.value)
  {
    if IsEmpty(text) then None
    else
      match ResultsArray(lib, text.value)
      case None => Some([])
      case Some(results) => Some(ExtractArticles(lib, results))
  }
}
