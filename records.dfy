/**
 * The record-building half of `ParserInfo.parse_film_info` and the tag
 * mapping of `switch_tag`, once the page fields have been extracted. A
 * record is a document: a map from key to value, so that which keys a record
 * carries is part of its value, as it is for the dictionaries the source
 * builds.
 */
module Records {
  import opened Wrappers
  import opened Text
  import CodeNormalizer

  datatype Value = Null | Str(s: string) | Int(n: int) | Day(d: int) | Strs(items: seq<string>)

  type Doc = map<string, Value>

  const KeyCode := "code"
  const KeySearchCode := "search_code"
  const KeyUrl := "url"
  const KeyCount := "count"
  const KeyImgUrl := "img_url"
  const KeyModels := "models"
  const KeyTitle := "title"
  const KeyUpdateDate := "update_date"
  const KeyTags := "tags"

  /** The keys of the record built for a URL that is already catalogued. */
  const RefreshKeys: set<string> := {KeyUrl, KeyCount, KeyUpdateDate, KeyTags}

  /** The keys of the record built for a URL seen for the first time. */
  const FullKeys: set<string> :=
    {KeyCode, KeySearchCode, KeyUrl, KeyCount, KeyImgUrl, KeyModels, KeyTitle, KeyUpdateDate, KeyTags}

  /** What the field regexes find in a fetched page (view count, models, title, image, genre labels). */
  datatype PageFields = PageFields(count: nat, models: string, title: string, imgUrl: string, rawTags: seq<string>)

  /** What `parse_indexav` returns for a search code: a model and a title, each possibly absent. */
  datatype Enrichment = Enrichment(model: Option<string>, title: Option<string>)

  /**
   * Everything `parse_film_info` learns from outside about one URL: the
   * `watch-` code in it (if the URL has one), the fetched page's fields (none
   * when the page could not be fetched) and the enrichment lookup's answer.
   */
  datatype Fetched = Fetched(codeMatch: Option<string>, page: Option<PageFields>, enrichment: Enrichment)

  /** The label list comprehension of `switch_tag`. */
  function MapTags(dict: map<string, string>, tags: seq<string>): (r: seq<string>)
    ensures |r| == |tags|
    ensures forall i :: 0 <= i < |tags| ==> r[i] == if tags[i] in dict then dict[tags[i]] else tags[i]
  {
    if tags == [] then []
    else MapTags(dict, tags[..|tags| - 1]) + [if tags[|tags| - 1] in dict then dict[tags[|tags| - 1]] else tags[|tags| - 1]]
  }

  /** Mapping a concatenation maps each part. */
  lemma MapTagsAppend(dict: map<string, string>, a: seq<string>, b: seq<string>)
    ensures MapTags(dict, a + b) == MapTags(dict, a) + MapTags(dict, b)
  {
  }

  /** Labels that are not in the vocabulary pass through: no label is dropped. */
  lemma MapTagsUnknown(dict: map<string, string>, tags: seq<string>)
    requires forall i :: 0 <= i < |tags| ==> tags[i] !in dict
    ensures MapTags(dict, tags) == tags
  {
  }

  function OptionValue(o: Option<string>): Value {
    match o
    case None => Null
    case Some(s) => Str(s)
  }

  /**
   * The two branches of `parse_film_info` once code, search code, fields and
   * mapped tags are known: a refresh record for a catalogued URL, a full
   * record otherwise, where the enrichment is consulted only for a present
   * search code and each of its present fields overrides the page's.
   */
  function BuildRecord(url: string, code: string, searchCode: Option<string>, fields: PageFields,
                       tags: seq<string>, catalogued: bool, enrichment: Enrichment, now: int): Doc
  {
    if catalogued then
      map[KeyUrl := Str(url), KeyCount := Int(fields.count), KeyUpdateDate := Day(now), KeyTags := Strs(tags)]
    else
      var models := if searchCode.Some? && enrichment.model.Some? then enrichment.model.value else fields.models;
      var title := if searchCode.Some? && enrichment.title.Some? then enrichment.title.value else fields.title;
      map[KeyCode := Str(code), KeySearchCode := OptionValue(searchCode), KeyUrl := Str(url),
          KeyCount := Int(fields.count), KeyImgUrl := Str(fields.imgUrl), KeyModels := Str(models),
          KeyTitle := Str(title), KeyUpdateDate := Day(now), KeyTags := Strs(tags)]
  }

  /**
   * `parse_film_info(url)` given what it learns from outside: nothing when
   * the URL has no code or the page could not be fetched, otherwise the
   * record for the upper-cased code and its normalised search code.
   */
  function ExtractInfo(dict: map<string, string>, url: string, f: Fetched, catalogued: bool, now: int): Option<Doc> {
    if f.codeMatch.None? || f.page.None? then None
    else
      var code := ToUpper(f.codeMatch.value);
      Some(BuildRecord(url, code, CodeNormalizer.Normalize(code), f.page.value,
                       MapTags(dict, f.page.value.rawTags), catalogued, f.enrichment, now))
  }

  /**
   * Extraction fails exactly when the URL has no code or the page is
   * missing; a record always names its URL, the day it was built, the
   * page's view count and the mapped labels, in their order.
   */
  lemma ExtractInfoCommon(dict: map<string, string>, url: string, f: Fetched, catalogued: bool, now: int)
    ensures ExtractInfo(dict, url, f, catalogued, now).None? <==> f.codeMatch.None? || f.page.None?
    ensures ExtractInfo(dict, url, f, catalogued, now).Some? ==>
      var r := ExtractInfo(dict, url, f, catalogued, now).value;
      && RefreshKeys <= r.Keys
      && r[KeyUrl] == Str(url)
      && r[KeyUpdateDate] == Day(now)
      && r[KeyCount] == Int(f.page.value.count)
      && r[KeyTags].Strs?
      && |r[KeyTags].items| == |f.page.value.rawTags|
      && forall i :: 0 <= i < |f.page.value.rawTags| ==>
           var t := f.page.value.rawTags[i];
           r[KeyTags].items[i] == if t in dict then dict[t] else t
  {
  }

  /** A catalogued URL gets a record with exactly the refresh keys. */
  lemma ExtractInfoRefresh(dict: map<string, string>, url: string, f: Fetched, now: int)
    requires ExtractInfo(dict, url, f, true, now).Some?
    ensures ExtractInfo(dict, url, f, true, now).value.Keys == RefreshKeys
  {
  }

  /**
   * A new URL gets a record with exactly the full keys: its code is the
   * upper-cased match and its search code the normalised code; models and
   * title come from the enrichment where it has them and a search code
   * exists, and from the page otherwise.
   */
  lemma ExtractInfoFull(dict: map<string, string>, url: string, f: Fetched, now: int)
    requires ExtractInfo(dict, url, f, false, now).Some?
    ensures
      var r := ExtractInfo(dict, url, f, false, now).value;
      var code := ToUpper(f.codeMatch.value);
      var sc := CodeNormalizer.Normalize(code);
      && r.Keys == FullKeys
      && r[KeyCode] == Str(code)
      && (r[KeySearchCode] == Null <==> sc.None?)
      && (sc.Some? ==> r[KeySearchCode] == Str(sc.value))
      && r[KeyImgUrl] == Str(f.page.value.imgUrl)
      && r[KeyModels] == Str(if sc.Some? && f.enrichment.model.Some? then f.enrichment.model.value else f.page.value.models)
      && r[KeyTitle] == Str(if sc.Some? && f.enrichment.title.Some? then f.enrichment.title.value else f.page.value.title)
  {
  }

  /** Without a search code the enrichment answer cannot change the record. */
  lemma EnrichmentNeedsSearchCode(dict: map<string, string>, url: string, f: Fetched, e: Enrichment, catalogued: bool, now: int)
    requires f.codeMatch.Some? && CodeNormalizer.Normalize(ToUpper(f.codeMatch.value)).None?
    ensures ExtractInfo(dict, url, f, catalogued, now) == ExtractInfo(dict, url, f.(enrichment := e), catalogued, now)
  {
  }

  /**
   * Refreshing a catalogued URL twice from the same page gives records that
   * differ only in their update day.
   */
  lemma RefreshIdempotent(dict: map<string, string>, url: string, f: Fetched, now1: int, now2: int)
    requires ExtractInfo(dict, url, f, true, now1).Some?
    ensures ExtractInfo(dict, url, f, true, now2).Some?
    ensures ExtractInfo(dict, url, f, true, now1).value - {KeyUpdateDate}
         == ExtractInfo(dict, url, f, true, now2).value - {KeyUpdateDate}
  {
  }

  /** A known label is replaced and an unknown one kept, in place. */
  lemma MapTagsExample(dict: map<string, string>, tags: seq<string>)
    requires dict == map["Anal" := "anal"] && tags == ["Anal", "UnknownTag"]
    ensures MapTags(dict, tags) == ["anal", "UnknownTag"]
  {
  }
}
