# News feed parsing and fetching, modelled in Dafny

The app asks a news REST endpoint (Guardian-style JSON) for technology
articles and shows them as a list. Its logic lives in `QueryUtils`:

- `fetchNewsData` builds a URL (`createUrl`);
- it performs one GET (`makeHttpRequest`) and reads the body line by line
  (`readFromStream`);
- it turns the body text into an ordered list of `TechNews` records
  (`extractFeatureFromJson`).

`TechNews` is a five-string value: section, title, publication date, author
and url.

This project models that pipeline as pure functions and methods, in seven modules:

- `Wrappers` (`wrappers.dfy`): `Option`. `None` stands for Java's `null`
  and for an exception the caller catches.
- `Json` (`json.dfy`): the JSON tree plus the org.json accessors the code
  calls (`new JSONObject`, `getJSONObject`, `getJSONArray`, `getString`,
  `JSONArray.getJSONObject`). Each accessor returns `None` where org.json
  throws `JSONException`.
  - Text-to-tree parsing is the function value `Library.parse`.
  - What `getString` does with a non-string value is the function value
    `Library.coerce`. Android's org.json turns such a value into text; the
    stock library throws.
  - Both stay abstract. Every result holds for any parser and any coercion
    of the tree. The tree keeps no member order, so a coercion that writes
    an object member back out as text in its original order is outside the
    model (see `Json.Json` under "Left out").
- `TechNewsRecord` (`tech_news.dfy`): the record and its getters. As a
  datatype value it is immutable after construction, as the Java class is.
- `Extraction` (`extraction.dfy`): `extractFeatureFromJson`.
  - The `for` loop is the recursive function `ExtractArticles`. It returns
    the articles built before the loop ended.
  - `Describes` says what it means for a results record to stand for an
    article. It is written against the JSON tree, not the accessors.
  - `LongestDescribedPrefix` is what the loop leaves behind. Each article
    describes the record at its position. Unless every record was used, the
    next record describes no article.
- `ExtractionProperties` (`extraction_properties.dfy`): lemmas about the
  extraction. They cover null versus empty lists, array order, the author
  fallback, fields copied unchanged, and the stop at the first malformed
  record. They also prove that the longest described prefix is unique, so
  it fully determines the result.
- `Request` (`request.dfy`): `createUrl`, `readFromStream`, `makeHttpRequest`
  and `fetchNewsData`, over an abstract `Network`.
  - `Network.urlParses` says which texts `new URL` accepts.
  - `Network.get` gives the `Exchange` a GET produces: a connection that
    is not HTTP (a `file:` or `ftp:` URL, say), a connection failure, or a
    status code plus what happened while reading and closing the body.
- `BodyText` (`body_text.dfy`): lemmas about the body text that
  `readFromStream` builds from the lines.

Behaviour of the code worth knowing:

- Only null or empty text gives `null` (`None`). Text that does not
  parse, lacks `response`/`results`, has an empty `results` array or has a
  malformed first record gives the empty list.
- A status other than 200 and an I/O failure are not reported as such.
  They give the body text `""`, which the extraction turns into `null`.
- If closing the stream throws in the `finally` block, the `IOException`
  escapes `makeHttpRequest`, even after a good read. `fetchNewsData` then
  passes `null` to the extraction, so the result is `null` again.
- A URL that parses but opens a connection that is not HTTP makes the
  `HttpURLConnection` cast throw a `ClassCastException`. No `catch` handles
  it, so `fetchNewsData` throws rather than returning (`Request.Fetched.Crashed`).
  The app itself always builds an `https` URL.
- A body made only of blank lines joins to `""` and gives `null`
  (`BodyText.ConcatIsEmptyIff` together with `Request.FetchNewsData`).
- The first malformed record ends the loop and drops every record after it.
  The model keeps this behaviour and states it exactly.

## Model

| member | source | states |
|---|---|---|
| `TechNewsRecord.GetSection` | app/src/main/java/com/example/android/news/TechNews.java:39-52 | the section returned is the one the record was constructed with |
| `TechNewsRecord.GetTitle` | app/src/main/java/com/example/android/news/TechNews.java:53-55 | the title returned is the one the record was constructed with |
| `TechNewsRecord.GetDate` | app/src/main/java/com/example/android/news/TechNews.java:56-58 | the date text returned is the one the record was constructed with |
| `TechNewsRecord.GetAuthor` | app/src/main/java/com/example/android/news/TechNews.java:59-61 | the author returned is the one the record was constructed with |
| `TechNewsRecord.GetUrl` | app/src/main/java/com/example/android/news/TechNews.java:62-64 | the url returned is the one the record was constructed with |
| `TechNewsRecord.ConstructorAndGettersAgree` | app/src/main/java/com/example/android/news/TechNews.java:8-64 | each getter gives back its constructor argument, and rebuilding a record from its five getters gives the same record: the fields set at construction are all there is |
| `Json.ParseObject` | app/src/main/java/com/example/android/news/QueryUtils.java:154 | `new JSONObject(text)` succeeds exactly when the text parses to an object, and yields that object's members |
| `Json.GetJsonObject` | app/src/main/java/com/example/android/news/QueryUtils.java:155 | `getJSONObject(key)` succeeds exactly when the member exists and is an object; no coercion |
| `Json.GetJsonArray` | app/src/main/java/com/example/android/news/QueryUtils.java:157 | `getJSONArray(key)` succeeds exactly when the member exists and is an array, and yields its elements |
| `Json.GetString` | app/src/main/java/com/example/android/news/QueryUtils.java:165 | `getString(key)` fails on a missing member, returns a string member as it is, and hands any other member to the library's coercion |
| `Json.ArrayGetJsonObject` | app/src/main/java/com/example/android/news/QueryUtils.java:161 | `JSONArray.getJSONObject(i)` succeeds exactly for an index inside the array whose element is an object |
| `Json.AccessorsReadBackStoredMember` | app/src/main/java/com/example/android/news/QueryUtils.java:155-180 | each accessor depends only on the member under its own key: it reads that member's value, and changing any other member leaves its result unchanged |
| `Extraction.AuthorOf` | app/src/main/java/com/example/android/news/QueryUtils.java:171-178 | empty `tags` gives `"Author: unknown"`; otherwise the author exists exactly when `tags[0]` is an object whose `webTitle` reads as a string, and is that string |
| `Extraction.BuildNews` | app/src/main/java/com/example/android/news/QueryUtils.java:163-184 | one loop iteration yields an article exactly when the record describes one, and then yields the article it describes |
| `Extraction.ArticleOf` | app/src/main/java/com/example/android/news/QueryUtils.java:161-184 | a results element yields an article exactly when it is an object that describes one |
| `Extraction.ExtractArticles` | app/src/main/java/com/example/android/news/QueryUtils.java:160-189 | the loop's list is the longest described prefix: article k comes from record k, in array order, never more articles than records, and the record after the last one used describes no article |
| `Extraction.ResultsArray` | app/src/main/java/com/example/android/news/QueryUtils.java:154-157 | the accessor chain `new JSONObject` → `response` → `results` reaches exactly the `response.results` array of the parsed tree, and fails when any level is missing or of the wrong kind |
| `Extraction.ExtractFeatureFromJson` | app/src/main/java/com/example/android/news/QueryUtils.java:140-190 | null exactly for null or empty text (`IsEmpty`, as `TextUtils.isEmpty` at line 142); the empty list when the text lacks `response.results`; otherwise the longest described prefix of `results` |
| `ExtractionProperties.LongestDescribedPrefixIsExtraction` | app/src/main/java/com/example/android/news/QueryUtils.java:152-189 | any list with the longest-described-prefix property equals the loop's list, so that property determines the result completely |
| `ExtractionProperties.ArticleOfIffDescribes` | app/src/main/java/com/example/android/news/QueryUtils.java:163-183 | building an article from a record gives `n` if and only if the record describes `n` |
| `ExtractionProperties.NullOrEmptyTextGivesNull` | app/src/main/java/com/example/android/news/QueryUtils.java:141-144 | null or empty text gives null, not an empty list |
| `ExtractionProperties.MalformedResponseGivesEmptyList` | app/src/main/java/com/example/android/news/QueryUtils.java:147-189 | non-empty text that does not parse to an object, or lacks an object `response` or an array `response.results`, gives the empty non-null list |
| `ExtractionProperties.NoUsableFirstRecordGivesEmptyList` | app/src/main/java/com/example/android/news/QueryUtils.java:147-189 | a `response.results` array that is empty, or whose first record is malformed, gives the empty non-null list |
| `ExtractionProperties.WellFormedRecordsAllMappedInOrder` | app/src/main/java/com/example/android/news/QueryUtils.java:160-185 | when every record is well formed, the list has one article per record and article k is the one built from record k |
| `ExtractionProperties.StopsAtFirstMalformedRecord` | app/src/main/java/com/example/android/news/QueryUtils.java:152-189 | when record j is the first malformed one, the list is exactly the articles of records 0..j-1, strictly shorter than `results` |
| `ExtractionProperties.ArticleFieldsComeFromRecord` | app/src/main/java/com/example/android/news/QueryUtils.java:163-183 | every article takes section, title, date and url unchanged from the record at its position, and its author from the tag rule |
| `ExtractionProperties.ExtractArticlesOfPrefix` | app/src/main/java/com/example/android/news/QueryUtils.java:160-185 | the list for a prefix of `results` is a prefix of the list for the whole array: later records never change earlier articles |
| `ExtractionProperties.ExtractArticlesAppend` | app/src/main/java/com/example/android/news/QueryUtils.java:160-185 | the loop over `a + b` equals the loop over `a` followed by the loop over `b` when every record of `a` was used, and the loop over `a` alone otherwise |
| `Request.ReadFromStream` | app/src/main/java/com/example/android/news/QueryUtils.java:122-134 | a null stream gives `""`; otherwise the result is the lines joined in order with nothing between them |
| `Request.CreateUrl` | app/src/main/java/com/example/android/news/QueryUtils.java:67-75 | null exactly when the URL parser rejects the text; otherwise a URL that keeps the text |
| `Request.MakeHttpRequest` | app/src/main/java/com/example/android/news/QueryUtils.java:80-116 | a URL whose connection is not HTTP fails the cast with an exception that is not an `IOException`; a null URL, a failed connection, a status other than 200, an unavailable stream and a failed read all give `""`; a clean 200 read gives the joined lines; a failing close after the stream was opened throws; non-empty text comes only from a clean 200 delivery |
| `Request.FetchNewsData` | app/src/main/java/com/example/android/news/QueryUtils.java:46-62 | it fails exactly when the URL parses but its connection is not HTTP, since only `IOException` is caught; otherwise a rejected URL or anything but a clean 200 delivery gives null; a clean delivery gives what the extraction makes of the joined body; the result is non-null exactly for a clean delivery with a non-empty body |
| `BodyText.ConcatAppend` | app/src/main/java/com/example/android/news/QueryUtils.java:127-131 | joining two runs of lines is joining their joined texts |
| `BodyText.ConcatIsEmptyIff` | app/src/main/java/com/example/android/news/QueryUtils.java:122-134 | the joined body is empty exactly when every line is empty |
| `BodyText.LineSitsBetweenItsNeighbours` | app/src/main/java/com/example/android/news/QueryUtils.java:127-133 | each line appears unchanged in the body, between the text of the lines before it and the text of the lines after it |
| `BodyText.ConcatKeepsNoLineTerminator` | app/src/main/java/com/example/android/news/QueryUtils.java:125-131 | lines without line terminators join to a body without line terminators |

## Left out

- Connection mechanics are not modelled: opening the connection, the
  10000 ms read timeout and 15000 ms connect timeout
  (`QueryUtils.java` lines 32-33 and 92-93), the GET method, `disconnect`
  and the logging. Only the outcome of an exchange is modelled (`Request.Exchange`).
- JSON text parsing and org.json's coercion of non-string values in
  `getString` are the abstract function values `Library.parse` and
  `Library.coerce`. So is the handling of repeated member names, which
  belongs to the parser.
- `BufferedReader` line splitting and UTF-8 decoding are not modelled. The
  lines arrive as a given sequence with their terminators already removed.
- Json.GetString: for a member that is not a string, the contract only says
  the result is the library's coercion `Library.coerce` of that member. It
  does not fix what that coercion is, because Android's org.json and the
  stock library differ.
- Json.Json: an object is a map from member names to values, so the order
  of its members is lost. Android's `getString` on an object-valued member
  writes the object back out in insertion order, so two objects that differ
  only in member order give different strings there but the same tree here.
  In the expected response shape these members are strings, where order
  plays no part.
- `MainActivity` is left out: UI, the list adapter, the connectivity check,
  intents, the preference listener, and the `Uri.Builder` query encoding of
  `page-size` and `orderby`. It is user-interface and lifecycle code.
- MainActivity's loading indicator and empty-state text are left out with
  the rest of MainActivity, as user-interface code. It hides the loader and
  shows "no internet connection", or "no news" after a load. When the
  `settings_section_key` preference changes (a key the query does not
  read), it clears the list, shows the loader and restarts loader 1.
  Nothing here models the ordering of loads.
- `TechNewsArrayAdapter` is left out: view inflation, and date formatting
  that falls back to the current clock time. That is a library call plus
  the wall clock.
- `TechNewsLoader` is left out: it runs the fetch on a background thread
  and returns null for a null URL. That is threading around
  `fetchNewsData`, which is modelled with a non-null URL text.
- The API key embedded in the endpoint URL is not modelled. It is a
  constant of `MainActivity`, not logic.
