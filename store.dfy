/**
 * The update collection as a map from URL to document, and the decisions of
 * `parse_info_and_update` and `parse_start` as functions over it: the
 * staleness gate, one URL's refresh step, a pass over a URL list, the
 * registration of a link batch and the copying of new records into the new
 * collection. Upserting a document sets the keys it carries and keeps the
 * others.
 */
module Store {
  import opened Wrappers
  import opened Text
  import opened Records

  type Collection = map<string, Doc>

  /** The largest gap, in days, for which a stored record is still fresh. */
  const FreshDays := 3

  function Get(c: Collection, url: string): Option<Doc> {
    if url in c then Some(c[url]) else None
  }

  /** The stored update day of a document, if it has one. */
  function LastUpdate(entry: Option<Doc>): Option<int> {
    if entry.Some? && KeyUpdateDate in entry.value && entry.value[KeyUpdateDate].Day? then
      Some(entry.value[KeyUpdateDate].d)
    else None
  }

  /** The staleness gate: skip when a stored update day is at most three days old. */
  function ShouldSkip(last: Option<int>, today: int): bool {
    last.Some? && today - last.value <= FreshDays
  }

  /** A gap of three days is skipped, four is processed, and no stored day is never skipped. */
  lemma ShouldSkipBoundary(d: int, today: int)
    ensures ShouldSkip(Some(d), d + 3)
    ensures !ShouldSkip(Some(d), d + 4)
    ensures !ShouldSkip(None, today)
  {
  }

  /** A longer gap never turns "process" back into "skip". */
  lemma ShouldSkipMonotone(d: int, today1: int, today2: int)
    requires today1 <= today2 && ShouldSkip(Some(d), today2)
    ensures ShouldSkip(Some(d), today1)
  {
  }

  /** An upsert: the new document's keys overwrite, the stored document's other keys stay. */
  function Merge(entry: Option<Doc>, d: Doc): (r: Doc)
    ensures r.Keys == d.Keys + (if entry.Some? then entry.value.Keys else {})
    ensures forall k :: k in d ==> r[k] == d[k]
    ensures entry.Some? ==> forall k :: k in entry.value && k !in d ==> r[k] == entry.value[k]
  {
    match entry
    case None => d
    case Some(e) => e + d
  }

  /**
   * What one iteration of `parse_info_and_update` leaves at `url`, given
   * what was stored there: unchanged when the gate skips it, the upserted
   * record when extraction succeeds, nothing when it fails.
   */
  function Outcome(dict: map<string, string>, canonical: Collection, entry: Option<Doc>, url: string,
                   f: Fetched, today: int): Option<Doc>
  {
    if ShouldSkip(LastUpdate(entry), today) then entry
    else match ExtractInfo(dict, url, f, url in canonical, today)
      case Some(d) => Some(Merge(entry, d))
      case None => None
  }

  /** One iteration of the loop in `parse_info_and_update`. */
  function Step(dict: map<string, string>, canonical: Collection, c: Collection, url: string,
                web: string -> Fetched, today: int): Collection
  {
    match Outcome(dict, canonical, Get(c, url), url, web(url), today)
    case Some(d) => c[url := d]
    case None => c - {url}
  }

  /** A step changes only its own URL's entry, into what `Outcome` says. */
  lemma StepAt(dict: map<string, string>, canonical: Collection, c: Collection, url: string,
               web: string -> Fetched, today: int, u: string)
    ensures Get(Step(dict, canonical, c, url, web, today), u) ==
      if u == url then Outcome(dict, canonical, Get(c, url), url, web(url), today) else Get(c, u)
  {
  }

  /** The whole loop of `parse_info_and_update` over `urls`, in order. */
  function UpdateAll(dict: map<string, string>, canonical: Collection, c: Collection, urls: seq<string>,
                     web: string -> Fetched, today: int): Collection
  {
    if urls == [] then c
    else Step(dict, canonical, UpdateAll(dict, canonical, c, urls[..|urls| - 1], web, today), urls[|urls| - 1], web, today)
  }

  /**
   * A second visit on the same day leaves what the first one did: a
   * skipped entry is skipped again, a record just written carries today's
   * date and so is skipped, and a URL whose extraction failed is gone and
   * fails again.
   */
  lemma OutcomeIdempotent(dict: map<string, string>, canonical: Collection, entry: Option<Doc>, url: string,
                          f: Fetched, today: int)
    ensures var once := Outcome(dict, canonical, entry, url, f, today);
      Outcome(dict, canonical, once, url, f, today) == once
  {
    if !ShouldSkip(LastUpdate(entry), today) {
      var info := ExtractInfo(dict, url, f, url in canonical, today);
      if info.Some? {
        ExtractInfoCommon(dict, url, f, url in canonical, today);
        assert LastUpdate(Some(Merge(entry, info.value))) == Some(today);
      }
    }
  }

  /**
   * After a pass each listed URL, however often it is listed, holds what
   * one step made of its former entry, and every other URL holds what it
   * held.
   */
  lemma {:induction false} UpdateAllAt(dict: map<string, string>, canonical: Collection, c: Collection,
                                       urls: seq<string>, web: string -> Fetched, today: int, u: string)
    ensures Get(UpdateAll(dict, canonical, c, urls, web, today), u) ==
      if u in urls then Outcome(dict, canonical, Get(c, u), u, web(u), today) else Get(c, u)
  {
    if urls != [] {
      var init := urls[..|urls| - 1];
      UpdateAllAt(dict, canonical, c, init, web, today, u);
      StepAt(dict, canonical, UpdateAll(dict, canonical, c, init, web, today), urls[|urls| - 1], web, today, u);
      assert u in urls <==> u in init || u == urls[|urls| - 1] by {
        assert urls == init + [urls[|urls| - 1]];
      }
      if u == urls[|urls| - 1] && u in init {
        OutcomeIdempotent(dict, canonical, Get(c, u), u, web(u), today);
      }
    }
  }

  /**
   * The loop's promise URL by URL: a listed URL the gate skips keeps its
   * entry, one whose extraction succeeds holds its stored document upserted
   * with the new record, one whose extraction fails is gone; URLs not listed
   * keep their entries.
   */
  lemma UpdateAllOutcome(dict: map<string, string>, canonical: Collection, c: Collection,
                         urls: seq<string>, web: string -> Fetched, today: int, u: string)
    ensures var r := UpdateAll(dict, canonical, c, urls, web, today);
      var info := ExtractInfo(dict, u, web(u), u in canonical, today);
      && (u !in urls ==> Get(r, u) == Get(c, u))
      && (u in urls && ShouldSkip(LastUpdate(Get(c, u)), today) ==> Get(r, u) == Get(c, u))
      && (u in urls && !ShouldSkip(LastUpdate(Get(c, u)), today) && info.None? ==> u !in r)
      && (u in urls && !ShouldSkip(LastUpdate(Get(c, u)), today) && info.Some? ==>
            u in r && r[u] == Merge(Get(c, u), info.value))
  {
    UpdateAllAt(dict, canonical, c, urls, web, today, u);
  }

  /** An entry, if there is one, is a document that names `u` as its URL. */
  predicate EntryKeyed(entry: Option<Doc>, u: string) {
    entry.Some? ==> KeyUrl in entry.value && entry.value[KeyUrl] == Str(u)
  }

  /** Every document is filed under the URL it names. */
  ghost predicate WellKeyed(c: Collection) {
    forall u :: EntryKeyed(Get(c, u), u)
  }

  /** One URL's step keeps its entry filed under that URL. */
  lemma OutcomeKeyed(dict: map<string, string>, canonical: Collection, entry: Option<Doc>, url: string,
                     f: Fetched, today: int)
    requires EntryKeyed(entry, url)
    ensures EntryKeyed(Outcome(dict, canonical, entry, url, f, today), url)
  {
    ExtractInfoCommon(dict, url, f, url in canonical, today);
  }

  /** A pass keeps every document filed under its own URL. */
  lemma {:induction false} UpdateAllWellKeyed(dict: map<string, string>, canonical: Collection, c: Collection,
                                              urls: seq<string>, web: string -> Fetched, today: int)
    requires WellKeyed(c)
    ensures WellKeyed(UpdateAll(dict, canonical, c, urls, web, today))
  {
    if urls != [] {
      var c' := UpdateAll(dict, canonical, c, urls[..|urls| - 1], web, today);
      UpdateAllWellKeyed(dict, canonical, c, urls[..|urls| - 1], web, today);
      var u := urls[|urls| - 1];
      OutcomeKeyed(dict, canonical, Get(c', u), u, web(u), today);
      forall v ensures EntryKeyed(Get(UpdateAll(dict, canonical, c, urls, web, today), v), v) {
        StepAt(dict, canonical, c', u, web, today, v);
        assert EntryKeyed(Get(c', v), v);
      }
    }
  }

  /** `{'url': url}`, the document a link is registered with. */
  function UrlDoc(url: string): Doc {
    map[KeyUrl := Str(url)]
  }

  /** Upserting the bare URL document into a document naming that URL changes nothing. */
  lemma MergeUrlDoc(e: Doc, u: string)
    requires KeyUrl in e && e[KeyUrl] == Str(u)
    ensures Merge(Some(e), UrlDoc(u)) == e
  {
    var m := Merge(Some(e), UrlDoc(u));
    assert m.Keys == e.Keys;
    forall k | k in e ensures m[k] == e[k] {}
  }

  /** Upserting a document naming `u` over the bare URL document gives that document. */
  lemma MergeOverUrlDoc(d: Doc, u: string)
    requires KeyUrl in d && d[KeyUrl] == Str(u)
    ensures Merge(Some(UrlDoc(u)), d) == d
  {
    var m := Merge(Some(UrlDoc(u)), d);
    assert m.Keys == d.Keys;
  }

  /** `update_json_list([{'url': u} for u in urls])`: every URL upserted with its bare document. */
  function RegisterAll(c: Collection, urls: seq<string>): Collection {
    if urls == [] then c
    else
      var u := urls[|urls| - 1];
      var c' := RegisterAll(c, urls[..|urls| - 1]);
      c'[u := Merge(Get(c', u), UrlDoc(u))]
  }

  /**
   * Registration leaves a stored document as it was (it already names its
   * URL) and files a bare URL document for each URL not stored before.
   */
  lemma {:induction false} RegisterAllAt(c: Collection, urls: seq<string>, u: string)
    requires WellKeyed(c)
    ensures Get(RegisterAll(c, urls), u) ==
      if u in c then Get(c, u) else if u in urls then Some(UrlDoc(u)) else None
  {
    if urls != [] {
      var v := urls[|urls| - 1];
      var init := urls[..|urls| - 1];
      assert urls == init + [v];
      RegisterAllAt(c, init, u);
      var c' := RegisterAll(c, init);
      if u == v {
        RegisterAllAt(c, init, v);
        if u in c {
          assert EntryKeyed(Get(c, u), u);
          MergeUrlDoc(c[u], u);
        } else {
          MergeUrlDoc(UrlDoc(u), u);
        }
      }
    }
  }

  /** Registration keeps every document filed under its own URL. */
  lemma RegisterAllWellKeyed(c: Collection, urls: seq<string>)
    requires WellKeyed(c)
    ensures WellKeyed(RegisterAll(c, urls))
  {
    forall u ensures EntryKeyed(Get(RegisterAll(c, urls), u), u) {
      RegisterAllAt(c, urls, u);
      assert EntryKeyed(Get(c, u), u);
    }
  }

  /** The link URLs of one batch with their whitespace removed. */
  function CleanUrls(batch: seq<string>): seq<string> {
    seq(|batch|, i requires 0 <= i < |batch| => RemoveSpaces(batch[i]))
  }

  /** Every registered link is whitespace-free, and a link without whitespace is registered as it is. */
  lemma CleanUrlsSpec(batch: seq<string>, i: nat)
    requires i < |batch|
    ensures |CleanUrls(batch)| == |batch|
    ensures forall k :: 0 <= k < |CleanUrls(batch)[i]| ==> !IsSpace(CleanUrls(batch)[i][k])
    ensures (forall k :: 0 <= k < |batch[i]| ==> !IsSpace(batch[i][k])) <==> CleanUrls(batch)[i] == batch[i]
  {
    RemoveSpacesNoSpace(batch[i]);
    RemoveSpacesUnchanged(batch[i]);
  }

  /** One batch of `parse_start`: register the cleaned URLs, then refresh them. */
  function IngestBatch(dict: map<string, string>, canonical: Collection, c: Collection, batch: seq<string>,
                       web: string -> Fetched, today: int): Collection
  {
    var urls := CleanUrls(batch);
    UpdateAll(dict, canonical, RegisterAll(c, urls), urls, web, today)
  }

  /** The batches in the order the link paginator yields them. */
  function IngestAll(dict: map<string, string>, canonical: Collection, c: Collection, batches: seq<seq<string>>,
                     web: string -> Fetched, today: int): Collection
  {
    if batches == [] then c
    else IngestBatch(dict, canonical, IngestAll(dict, canonical, c, batches[..|batches| - 1], web, today),
                     batches[|batches| - 1], web, today)
  }

  /** Refreshing one more URL is refreshing it after the earlier ones. */
  lemma UpdateAllSnoc(dict: map<string, string>, canonical: Collection, c: Collection, urls: seq<string>,
                      i: nat, web: string -> Fetched, today: int)
    requires i < |urls|
    ensures UpdateAll(dict, canonical, c, urls[..i + 1], web, today)
         == Step(dict, canonical, UpdateAll(dict, canonical, c, urls[..i], web, today), urls[i], web, today)
  {
    assert urls[..i + 1][..i] == urls[..i];
  }

  /** Ingesting one more batch is ingesting it after the earlier ones. */
  lemma IngestAllSnoc(dict: map<string, string>, canonical: Collection, c: Collection, batches: seq<seq<string>>,
                      b: nat, web: string -> Fetched, today: int)
    requires b < |batches|
    ensures IngestAll(dict, canonical, c, batches[..b + 1], web, today)
         == IngestBatch(dict, canonical, IngestAll(dict, canonical, c, batches[..b], web, today), batches[b], web, today)
  {
    assert batches[..b + 1][..b] == batches[..b];
  }

  /**
   * A batch of links ends with each cleaned URL present unless it
   * was stale and its extraction failed; one that was not stored before is
   * never skipped and, when extracted, holds exactly the new record.
   */
  lemma IngestBatchOutcome(dict: map<string, string>, canonical: Collection, c: Collection, batch: seq<string>,
                           web: string -> Fetched, today: int, u: string)
    requires WellKeyed(c) && u in CleanUrls(batch)
    ensures var r := IngestBatch(dict, canonical, c, batch, web, today);
      var info := ExtractInfo(dict, u, web(u), u in canonical, today);
      && (u in r <==> info.Some? || ShouldSkip(LastUpdate(Get(c, u)), today))
      && (u !in c && info.Some? ==> r[u] == info.value)
  {
    var urls := CleanUrls(batch);
    var reg := RegisterAll(c, urls);
    RegisterAllAt(c, urls, u);
    UpdateAllAt(dict, canonical, reg, urls, web, today, u);
    if u !in c {
      RegisteredOutcome(dict, canonical, u, web(u), today);
    }
  }

  /** A URL whose only document is the bare registration is never skipped, and its record replaces it. */
  lemma RegisteredOutcome(dict: map<string, string>, canonical: Collection, u: string, f: Fetched, today: int)
    ensures Outcome(dict, canonical, Some(UrlDoc(u)), u, f, today) == ExtractInfo(dict, u, f, u in canonical, today)
  {
    assert LastUpdate(Some(UrlDoc(u))).None?;
    var info := ExtractInfo(dict, u, f, u in canonical, today);
    if info.Some? {
      ExtractInfoCommon(dict, u, f, u in canonical, today);
      MergeOverUrlDoc(info.value, u);
    }
  }

  /** `update_url_set - old_url_set`: the URLs in the update collection and not in the canonical one. */
  function NewUrls(update: Collection, canonical: Collection): (r: set<string>)
    ensures forall u :: u in r <==> u in update && u !in canonical
  {
    update.Keys - canonical.Keys
  }

  /**
   * `update_json_list(get_film_info_list(urls), 'videos_new')`: each listed
   * URL's update document upserted into the new collection; what the new
   * collection held under other URLs stays.
   */
  function Publish(newColl: Collection, update: Collection, urls: set<string>): Collection
    requires urls <= update.Keys
  {
    map u | u in newColl.Keys + urls :: if u in urls then Merge(Get(newColl, u), update[u]) else newColl[u]
  }

  /**
   * Publishing adds exactly the listed URLs, each holding its update
   * document upserted over what the new collection had, and leaves every
   * other URL of the new collection alone.
   */
  lemma PublishSpec(newColl: Collection, update: Collection, urls: set<string>)
    requires urls <= update.Keys
    ensures var r := Publish(newColl, update, urls);
      && r.Keys == newColl.Keys + urls
      && (forall u :: u in urls ==> r[u] == Merge(Get(newColl, u), update[u]))
      && (forall u :: u in newColl && u !in urls ==> r[u] == newColl[u])
  {
  }

  /**
   * After publishing the new URLs, the new collection holds every URL of the
   * update collection that the canonical one lacks, with its update
   * document's keys; a URL of the canonical collection, or one deleted from
   * the update collection, is never published.
   */
  lemma PublishNew(newColl: Collection, update: Collection, canonical: Collection, u: string)
    requires NewUrls(update, canonical) <= update.Keys
    ensures var r := Publish(newColl, update, NewUrls(update, canonical));
      && (u in update && u !in canonical ==>
            (u in r && update[u].Keys <= r[u].Keys && forall k :: k in update[u] ==> r[u][k] == update[u][k]))
      && (u !in newColl ==> (u in r <==> u in update && u !in canonical))
  {
    PublishSpec(newColl, update, NewUrls(update, canonical));
  }

  /** Publishing twice from unchanged collections gives what publishing once did. */
  lemma PublishIdempotent(newColl: Collection, update: Collection, urls: set<string>)
    requires urls <= update.Keys
    ensures Publish(Publish(newColl, update, urls), update, urls) == Publish(newColl, update, urls)
  {
    var once := Publish(newColl, update, urls);
    PublishSpec(newColl, update, urls);
    PublishSpec(once, update, urls);
    forall u | u in urls
      ensures Merge(Get(once, u), update[u]) == once[u]
    {
      assert Merge(Get(once, u), update[u]) == once[u] + update[u];
    }
  }

  /**
   * With canonical URLs {A, B} and update URLs {A, B, C}, an empty new
   * collection receives exactly C's record.
   */
  lemma PublishExample(newColl: Collection, update: Collection, canonical: Collection)
    requires update.Keys == {"A", "B", "C"} && canonical.Keys == {"A", "B"} && newColl == map[]
    ensures Publish(newColl, update, NewUrls(update, canonical)) == map["C" := update["C"]]
  {
    assert NewUrls(update, canonical) == {"C"};
    PublishSpec(newColl, update, {"C"});
  }
}
