/**
 * The `ParserInfo` object: its lazily loaded tag vocabulary and the three
 * collections of the document store it drives (`videos`, the canonical
 * records; `videos_update`, the working set; `videos_new`, the records new
 * to the canonical set). Its methods follow `switch_tag`,
 * `parse_film_info`, `parse_info_and_update` and `parse_start`; what they
 * do is stated through the functions of `Records` and `Store`.
 */
module Parser {
  import opened Wrappers
  import opened Text
  import opened Records
  import opened Store
  import CodeNormalizer

  /** The vocabulary in effect: the cached one once loaded, else what the vocabulary file holds. */
  function Effective(cache: Option<map<string, string>>, vocabulary: map<string, string>): map<string, string> {
    cache.GetOr(vocabulary)
  }

  class ParserInfo {
    /** `tags_dict`: `None` until the first `switch_tag` loads `tags.json`. */
    var tagsDict: Option<map<string, string>>
    /** The canonical collection `videos`; this object only reads it. */
    var videos: Collection
    /** The working collection `videos_update`. */
    var videosUpdate: Collection
    /** The collection `videos_new`. */
    var videosNew: Collection

    constructor (videos: Collection, videosUpdate: Collection, videosNew: Collection)
      ensures tagsDict == None
      ensures this.videos == videos && this.videosUpdate == videosUpdate && this.videosNew == videosNew
    {
      tagsDict := None;
      this.videos := videos;
      this.videosUpdate := videosUpdate;
      this.videosNew := videosNew;
    }

    /**
     * `switch_tag`: load the vocabulary (here given as the file's content)
     * on first use only, then map every label through it.
     */
    method SwitchTag(tags: seq<string>, vocabulary: map<string, string>) returns (r: seq<string>)
      modifies this`tagsDict
      ensures old(tagsDict).Some? ==> tagsDict == old(tagsDict)
      ensures tagsDict == Some(Effective(old(tagsDict), vocabulary))
      ensures r == MapTags(tagsDict.value, tags)
    {
      if tagsDict.None? {
        tagsDict := Some(vocabulary);
      }
      r := MapTags(tagsDict.value, tags);
    }

    /**
     * `parse_film_info(url)`, with the fetched page, the code in the URL and
     * the enrichment answer given by `f` and the clock by `now`; a URL is
     * already catalogued when the canonical collection holds it. The
     * vocabulary is loaded only when the extraction gets as far as the tags.
     */
    method ParseFilmInfo(url: string, f: Fetched, vocabulary: map<string, string>, now: int)
      returns (info: Option<Doc>)
      modifies this`tagsDict
      ensures info == ExtractInfo(Effective(old(tagsDict), vocabulary), url, f, url in videos, now)
      ensures tagsDict == if f.codeMatch.None? || f.page.None? then old(tagsDict)
                          else Some(Effective(old(tagsDict), vocabulary))
    {
      if f.codeMatch.None? || f.page.None? {
        return None;
      }
      var code := ToUpper(f.codeMatch.value);
      var searchCode := CodeNormalizer.Normalize(code);
      var page := f.page.value;
      var tags := SwitchTag(page.rawTags, vocabulary);
      info := Some(BuildRecord(url, code, searchCode, page, tags, url in videos, f.enrichment, now));
    }

    /**
     * `parse_info_and_update(urls, 'videos_update')`: for each URL in turn,
     * skip it when its stored update day is fresh, otherwise upsert its
     * extracted record or delete it when extraction fails.
     */
    method ParseInfoAndUpdate(urls: seq<string>, web: string -> Fetched, vocabulary: map<string, string>, today: int)
      modifies this`tagsDict, this`videosUpdate
      ensures videosUpdate == UpdateAll(Effective(old(tagsDict), vocabulary), videos, old(videosUpdate), urls, web, today)
      ensures Effective(tagsDict, vocabulary) == Effective(old(tagsDict), vocabulary)
      ensures old(tagsDict).Some? ==> tagsDict == old(tagsDict)
    {
      ghost var dict := Effective(tagsDict, vocabulary);
      var i := 0;
      while i < |urls|
        invariant 0 <= i <= |urls|
        invariant videosUpdate == UpdateAll(dict, videos, old(videosUpdate), urls[..i], web, today)
        invariant Effective(tagsDict, vocabulary) == dict
        invariant old(tagsDict).Some? ==> tagsDict == old(tagsDict)
      {
        UpdateAllSnoc(dict, videos, old(videosUpdate), urls, i, web, today);
        var url := urls[i];
        if ShouldSkip(LastUpdate(Get(videosUpdate, url)), today) {
          i := i + 1;
          continue;
        }
        var info := ParseFilmInfo(url, web(url), vocabulary, today);
        match info {
          case Some(d) =>
            videosUpdate := videosUpdate[url := Merge(Get(videosUpdate, url), d)];
          case None =>
            videosUpdate := videosUpdate - {url};
        }
        i := i + 1;
      }
      assert urls[..|urls|] == urls;
    }

    /**
     * The loop of `parse_start` over the link paginator's batches: strip
     * the whitespace from each link, register the batch, then refresh it.
     */
    method ProcessBatches(batches: seq<seq<string>>, web: string -> Fetched,
                          vocabulary: map<string, string>, today: int)
      modifies this`tagsDict, this`videosUpdate
      ensures videosUpdate == IngestAll(Effective(old(tagsDict), vocabulary), videos, old(videosUpdate), batches, web, today)
      ensures Effective(tagsDict, vocabulary) == Effective(old(tagsDict), vocabulary)
      ensures old(tagsDict).Some? ==> tagsDict == old(tagsDict)
    {
      ghost var dict := Effective(tagsDict, vocabulary);
      var b := 0;
      while b < |batches|
        invariant 0 <= b <= |batches|
        invariant videosUpdate == IngestAll(dict, videos, old(videosUpdate), batches[..b], web, today)
        invariant Effective(tagsDict, vocabulary) == dict
        invariant old(tagsDict).Some? ==> tagsDict == old(tagsDict)
      {
        IngestAllSnoc(dict, videos, old(videosUpdate), batches, b, web, today);
        var urlList := CleanUrls(batches[b]);
        videosUpdate := RegisterAll(videosUpdate, urlList);
        ParseInfoAndUpdate(urlList, web, vocabulary, today);
        b := b + 1;
      }
      assert batches[..|batches|] == batches;
    }

    /**
     * `parse_start`: refresh the backlog, then register and refresh each
     * batch of links (whitespace removed) in the order they come, and
     * finally upsert into `videos_new` the records of every URL the working
     * collection has and the canonical one lacks. The vocabulary in effect
     * is the same throughout, and a loaded one is never reloaded.
     */
    method ParseStart(backlog: seq<string>, batches: seq<seq<string>>, web: string -> Fetched,
                      vocabulary: map<string, string>, today: int)
      modifies this`tagsDict, this`videosUpdate, this`videosNew
      ensures var dict := Effective(old(tagsDict), vocabulary);
        videosUpdate == IngestAll(dict, videos, UpdateAll(dict, videos, old(videosUpdate), backlog, web, today),
                                  batches, web, today)
      ensures videosNew == Publish(old(videosNew), videosUpdate, NewUrls(videosUpdate, videos))
      ensures Effective(tagsDict, vocabulary) == Effective(old(tagsDict), vocabulary)
      ensures old(tagsDict).Some? ==> tagsDict == old(tagsDict)
    {
      ParseInfoAndUpdate(backlog, web, vocabulary, today);
      ProcessBatches(batches, web, vocabulary, today);
      var newUrls := NewUrls(videosUpdate, videos);
      videosNew := Publish(videosNew, videosUpdate, newUrls);
    }
  }
}
