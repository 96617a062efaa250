/** What the extraction promises about its result, stated against the JSON
    tree: null versus empty list, order, the author fallback, fields copied
    unchanged, and how the first malformed record ends the list. */
module ExtractionProperties {
  import opened Wrappers
  import opened Json
  import opened TechNewsRecord
  import opened Extraction

  /** A record stands for at most one article. */
  lemma DescribesIsFunctional(lib: Library, record: Json, a: TechNews, b: TechNews)
    requires Describes(lib, record, a) && Describes(lib, record, b)
    ensures a == b
  {
  }

  /** The article built from a record is exactly the one the record stands for. */
  lemma ArticleOfIffDescribes(lib: Library, record: Json, n: TechNews)
    ensures ArticleOf(lib, record) == Some(n) <==> Describes(lib, record, n)
  {
    if Describes(lib, record, n) {
      DescribesIsFunctional(lib, record, ArticleOf(lib, record).value, n);
    }
  }

  /** The longest described prefix of a results array is unique, so the
      recursive definition of the loop is the only list with that property. */
  lemma {:induction false} LongestDescribedPrefixIsExtraction(lib: Library, results: seq<Json>, a: seq<TechNews>)
    requires LongestDescribedPrefix(lib, results, a)
    ensures a == ExtractArticles(lib, results)
    decreases |results|
  {
    if |results| != 0 {
      if |a| == 0 {
        assert ArticleOf(lib, results[0]).None?;
      } else {
        ArticleOfIffDescribes(lib, results[0], a[0]);
        assert LongestDescribedPrefix(lib, results[1..], a[1..]);
        LongestDescribedPrefixIsExtraction(lib, results[1..], a[1..]);
      }
    }
  }

  /** Null or empty text gives null, not an empty list. */
  lemma NullOrEmptyTextGivesNull(lib: Library, text: Option<string>)
    requires text.None? || text == Some("")
    ensures ExtractFeatureFromJson(lib, text).None?
  {
  }

  /** Text that is not a JSON object, or an object without `response` or
      without `response.results`, gives an empty list that is not null. */
  lemma MalformedResponseGivesEmptyList(lib: Library, text: string)
    requires text != ""
    requires || lib.parse(text).None?
             || !lib.parse(text).value.JObject?
             || GetJsonObject(lib.parse(text).value.members, "response").None?
             || GetJsonArray(lib.parse(text).value.members["response"].members, "results").None?
    ensures ExtractFeatureFromJson(lib, Some(text)) == Some([])
  {
  }

  /** A `results` array that is empty, or whose first record is malformed,
      also gives the empty non-null list: the loop adds nothing. */
  lemma NoUsableFirstRecordGivesEmptyList(lib: Library, text: string)
    requires text != ""
    requires SchemaResults(lib, text).Some?
    requires var results := SchemaResults(lib, text).value;
      |results| == 0 || ArticleOf(lib, results[0]).None?
    ensures ExtractFeatureFromJson(lib, Some(text)) == Some([])
  {
  }

  /** When every record is well formed, the list has one article per record,
      in array order, article k built from record k. */
  lemma {:induction false} WellFormedRecordsAllMappedInOrder(lib: Library, results: seq<Json>)
    requires forall k :: 0 <= k < |results| ==> ArticleOf(lib, results[k]).Some?
    ensures |ExtractArticles(lib, results)| == |results|
    ensures forall k :: 0 <= k < |results| ==> ExtractArticles(lib, results)[k] == ArticleOf(lib, results[k]).value
    decreases |results|
  {
    if |results| != 0 {
      assert ArticleOf(lib, results[0]).Some?;
      assert forall k :: 0 <= k < |results| - 1 ==> results[1..][k] == results[k + 1];
      WellFormedRecordsAllMappedInOrder(lib, results[1..]);
    }
  }

  /** If record j is the first malformed one, the list is exactly the
      articles of records 0 .. j-1: a proper prefix of the full mapping. */
  lemma {:induction false} StopsAtFirstMalformedRecord(lib: Library, results: seq<Json>, j: nat)
    requires j < |results|
    requires ArticleOf(lib, results[j]).None?
    requires forall k :: 0 <= k < j ==> ArticleOf(lib, results[k]).Some?
    ensures |ExtractArticles(lib, results)| == j < |results|
    ensures forall k :: 0 <= k < j ==> ExtractArticles(lib, results)[k] == ArticleOf(lib, results[k]).value
    decreases j
  {
    if j != 0 {
      assert ArticleOf(lib, results[0]).Some?;
      assert forall k :: 0 <= k < |results| - 1 ==> results[1..][k] == results[k + 1];
      StopsAtFirstMalformedRecord(lib, results[1..], j - 1);
    }
  }

  /** Every article of the list copies section, title, date and url unchanged
      from the record at the same position, and its author follows the tag
      rule: the fallback when `tags` is empty, else `tags[0].webTitle`. */
  lemma ArticleFieldsComeFromRecord(lib: Library, results: seq<Json>, k: nat)
    requires k < |ExtractArticles(lib, results)|
    ensures var n := ExtractArticles(lib, results)[k];
      && results[k].JObject?
      && var m := results[k].members;
      && GetString(lib, m, "sectionName") == Some(n.section)
      && GetString(lib, m, "webTitle") == Some(n.title)
      && GetString(lib, m, "webPublicationDate") == Some(n.date)
      && GetString(lib, m, "webUrl") == Some(n.url)
      && GetJsonArray(m, "tags").Some?
      && var tags := GetJsonArray(m, "tags").value;
      && (|tags| == 0 ==> n.author == AuthorUnknown)
      && (|tags| != 0 ==> tags[0].JObject? && GetString(lib, tags[0].members, "webTitle") == Some(n.author))
  {
    assert Describes(lib, results[k], ExtractArticles(lib, results)[k]);
  }

  /** The loop over a longer array starts with the list of any prefix of it:
      looking at more records never changes the articles already built. */
  lemma ExtractArticlesOfPrefix(lib: Library, results: seq<Json>, j: nat)
    requires j <= |results|
    ensures ExtractArticles(lib, results[..j]) <= ExtractArticles(lib, results)
  {
    assert results == results[..j] + results[j..];
    ExtractArticlesAppend(lib, results[..j], results[j..]);
  }

  /** Running the loop over two arrays one after the other: the second
      array contributes only if every record of the first was well formed. */
  lemma {:induction false} ExtractArticlesAppend(lib: Library, a: seq<Json>, b: seq<Json>)
    ensures ExtractArticles(lib, a + b) ==
      if |ExtractArticles(lib, a)| == |a| then ExtractArticles(lib, a) + ExtractArticles(lib, b)
      else ExtractArticles(lib, a)
    decreases |a|
  {
    if |a| == 0 {
      assert a + b == b;
    } else {
      var ab := a + b;
      assert ab[0] == a[0];
      assert ab[1..] == a[1..] + b;
      var first := ArticleOf(lib, a[0]);
      if first.Some? {
        var rest := ExtractArticles(lib, a[1..]);
        ExtractArticlesAppend(lib, a[1..], b);
        assert ExtractArticles(lib, ab) == [first.value] + ExtractArticles(lib, a[1..] + b);
        assert ExtractArticles(lib, a) == [first.value] + rest;
        ConsAppendAssociates(first.value, rest, ExtractArticles(lib, b));
      }
    }
  }

  lemma ConsAppendAssociates<T>(x: T, p: seq<T>, q: seq<T>)
    ensures [x] + (p + q) == ([x] + p) + q
  {
  }
}
