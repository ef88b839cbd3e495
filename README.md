# PPAV film-information parser, modelled in Dafny

The `ParserInfo` crawler keeps a document store of film records up to date.
Its work has four parts:

1. For each film page URL it reads the film code embedded in the URL
   (`watch-<code>`) and upper-cases it.
2. It normalises that code into a *search code* for the external index
   (`code_special_case`).
3. It builds one of two kinds of record. A URL already held by the canonical
   collection `videos` gets a short refresh record: URL, view count, day,
   tags. Any other URL gets a full record, which adds code, search code,
   image, models and title. The models and title may be overridden by the
   index's answer.
4. It drives the working collection `videos_update`. A URL whose stored
   update day is at most three days old is skipped. Any other URL has its
   record upserted, or is deleted when no record can be built. Each batch of
   crawled links is first registered as bare URL documents, with whitespace
   removed, and then processed. At the end, every record whose URL is in
   `videos_update` but not in `videos` is upserted into `videos_new`.

The model is split into six modules:

- `Wrappers`: the `Option` type.
- `Text`: character classes, Python's `p in s`, removal of a literal with
  `re.sub`, upper-casing and whitespace removal.
- `CodeNormalizer`: the leftmost-greedy search for `[0-9]+-[0-9]+` and the
  ordered rules of `code_special_case`.
- `Records`: documents as maps from field name to value, tag mapping, and
  the two record shapes.
- `Store`: collections as maps from URL to document, and these operations:
  - the staleness gate;
  - the per-URL upsert-or-delete step and its fold over a URL list;
  - registration of a batch;
  - computing the new-URL set and publishing it.
- `Parser`: the class `ParserInfo`. Its fields are the cached tag vocabulary
  and the three collections. Its methods are `SwitchTag`, `ParseFilmInfo`,
  `ParseInfoAndUpdate`, `ProcessBatches` (the batch loop of `parse_start`)
  and `ParseStart`, each proved equal to the functions of `Records` and
  `Store`.

Store behaviour is modelled in these terms:

- An upsert is a field-wise merge. The fields of the new document win, and
  fields it lacks are kept. This is how a refresh record leaves a stored
  title, models and image in place.
- `info_is_exists(url)` is membership of the URL in the canonical
  collection.
- A date is a whole day number. `update_date` is the day the record was
  built.

## Model

| member | source | states |
|---|---|---|
| CodeNormalizer.FindDigitPairSpec | python/parser_info.py:46-47 | The search for `([0-9]+-[0-9]+)` finds nothing exactly when the code holds no digit pair. Otherwise it returns the leftmost match, taken whole: nothing starts further left, and neither end can be extended by a digit. |
| CodeNormalizer.NormalizeTokyoHot | python/parser_info.py:40-41 | A code containing `TOKYO-HOT` always gets a search code, whatever other marker it has. That code equals the input exactly when `TOKYO-HOT-` does not occur, and it holds no character the input lacks. |
| CodeNormalizer.NormalizeTokyoHotFirst | python/parser_info.py:40-41 | Which characters go: when the first `TOKYO-HOT-` follows `a`, the search code of `a + TOKYO-HOT- + b` is `a` followed by `b` with its own occurrences removed. With `Text.RemoveAllUnchanged` this fixes the result completely. |
| CodeNormalizer.NormalizeGachinco | python/parser_info.py:42-43 | The same for `GACHINCO` and `GACHINCO-`, when `TOKYO-HOT` is absent. |
| CodeNormalizer.NormalizeGachincoFirst | python/parser_info.py:42-43 | The same first-occurrence decomposition for `GACHINCO-`, when `TOKYO-HOT` is absent. |
| CodeNormalizer.NormalizeCarib | python/parser_info.py:44-51 | Applies to `CARIB` without `CARIBPR`, when the earlier markers are absent. The result is `None` exactly when the code has no digit pair. Otherwise it is the first whole digit pair of the code, and it no longer contains `CARIB`. |
| CodeNormalizer.NormalizeUnderscored | python/parser_info.py:52-60 | Applies to `CARIBPR`, `PACO`, `10MU` or `1PONDO`, when no earlier rule applies. The result is `None` exactly when there is no digit pair. Otherwise it is the first whole digit pair with its hyphen turned into `_`, which gives the form digits `_` digits. |
| CodeNormalizer.NormalizeUnchanged | python/parser_info.py:61-62 | A code carrying none of the markers is returned unchanged. |
| CodeNormalizer.NormalizeCaribprExample | python/parser_info.py:52-60 | `CARIBPR-123456-789` normalises to `123456_789`. The marker is not mistaken for the `CARIB` rule. |
| CodeNormalizer.HyphenToUnderscore | python/parser_info.py:59 | `.replace('-', '_')` keeps the length, turns every hyphen into `_` and keeps every other character. |
| Text.RemoveAllUnchanged | python/parser_info.py:41 | `re.sub` of a literal leaves the string unchanged exactly when the literal does not occur in it. |
| Text.RemoveAllFirst | python/parser_info.py:41 | `re.sub` of a literal scans left to right. Everything before the first occurrence is kept, that occurrence is deleted, and removal carries on in what follows it. |
| Text.RemoveAllDeletesOnly | python/parser_info.py:41 | `re.sub` of a literal with `''` introduces no character: the result's multiset is contained in the input's. |
| Text.ToUpper | python/parser_info.py:79 | `.upper()` keeps the length. It turns each lower-case ASCII letter into its capital (code point minus 32) and keeps every other character. |
| Text.ToUpperIdempotent | python/parser_info.py:79 | Upper-casing twice is upper-casing once. |
| Text.RemoveSpacesNoSpace | python/parser_info.py:165 | `''.join(url.split())` leaves no whitespace character and does not lengthen the URL. |
| Text.RemoveSpacesUnchanged | python/parser_info.py:165 | A URL is left as it is exactly when it has no whitespace. |
| Text.RemoveSpacesAppend | python/parser_info.py:165 | Whitespace removal distributes over concatenation. |
| Text.RemoveSpacesChar | python/parser_info.py:165 | A single whitespace character is removed and any other character is kept. With `Text.RemoveSpacesAppend` this fixes the result character by character. |
| Records.MapTags | python/parser_info.py:68-69 | Each label becomes its vocabulary entry when it has one, and stays itself otherwise. Order and count are kept. |
| Records.MapTagsAppend | python/parser_info.py:68-69 | Label mapping is pointwise, so it distributes over concatenation. |
| Records.MapTagsUnknown | python/parser_info.py:68-69 | Labels missing from the vocabulary pass through unchanged. |
| Records.MapTagsExample | python/parser_info.py:68-69 | With `{Anal: anal}`, the labels `[Anal, UnknownTag]` become `[anal, UnknownTag]`. |
| Records.ExtractInfoCommon | python/parser_info.py:75-80 | Extraction fails exactly when the URL has no code or the page is missing. Every record names its URL, the day, the view count, and the mapped labels in order. |
| Records.ExtractInfoRefresh | python/parser_info.py:105-111 | A catalogued URL gets a record with exactly the keys `url`, `count`, `update_date`, `tags`. |
| Records.ExtractInfoFull | python/parser_info.py:113-130 | Any other URL gets exactly the nine keys. The code is the upper-cased code. The search code is null exactly when normalisation fails. An index answer overrides models or title only when a search code exists and that answer is present. |
| Records.EnrichmentNeedsSearchCode | python/parser_info.py:113-118 | Without a search code, the index answer cannot affect the record. |
| Records.RefreshIdempotent | python/parser_info.py:105-111 | Two refresh records for the same input differ at most in `update_date`. |
| Store.ShouldSkipBoundary | python/parser_info.py:136-142 | A gap of three days is skipped and a gap of four is processed. A URL with no stored day is never skipped. |
| Store.ShouldSkipMonotone | python/parser_info.py:137-140 | A URL skipped on some day is skipped on every earlier day. |
| Store.Merge | python/parser_info.py:147 | An upsert's document has the union of the keys. The new fields win and the other stored fields are kept. |
| Store.StepAt | python/parser_info.py:136-149 | One URL's step changes only that URL's entry, and changes it to that URL's outcome. |
| Store.OutcomeIdempotent | python/parser_info.py:136-149 | A second visit of a URL on the same day, with the same page, leaves what the first visit did. A just-written record carries today's date and is skipped, and a failed URL is gone and fails again. |
| Store.UpdateAllAt | python/parser_info.py:133-149 | After a pass over any URL list, repeats included, each listed URL holds the outcome of one step on its former entry. Every other URL is untouched. |
| Store.UpdateAllOutcome | python/parser_info.py:133-149 | For any URL list, the four cases per URL: not listed means unchanged; fresh means unchanged; failed extraction means deleted; otherwise the record is upserted over the stored one. |
| Store.UpdateAllWellKeyed | python/parser_info.py:144-149 | A pass keeps every document filed under the URL it names. |
| Store.RegisterAllAt | python/parser_info.py:165-167 | Registering a batch leaves stored documents as they were. It adds a bare `{url}` document for each new URL and nothing else. |
| Store.RegisterAllWellKeyed | python/parser_info.py:167 | Registration keeps every document filed under its URL. |
| Store.CleanUrlsSpec | python/parser_info.py:165 | Each registered link is the crawled link without whitespace, one for one. |
| Store.IngestBatchOutcome | python/parser_info.py:165-169 | For a URL of a batch, repeats allowed: it remains stored exactly when extraction succeeds or its stored day is fresh. A URL stored for the first time ends up holding exactly its extracted record. |
| Store.NewUrls | python/parser_info.py:174-176 | The new-URL set is exactly the URLs in `videos_update` that are not in `videos`. |
| Store.PublishSpec | python/parser_info.py:180-181 | `videos_new` gains exactly the new URLs, each upserted from `videos_update`. Its other entries are kept. |
| Store.PublishNew | python/parser_info.py:174-181 | Every new URL's `videos_update` fields are present in `videos_new`. A URL that `videos_new` lacked before is there afterwards exactly when it is new. |
| Store.PublishIdempotent | python/parser_info.py:180-181 | Publishing the same set twice is the same as publishing it once. |
| Store.PublishExample | python/parser_info.py:174-181 | With `{A, B, C}` being updated and `{A, B}` canonical, only `C` is published. |
| Parser.ParserInfo.constructor | python/parser_info.py:11-14 | A new parser has no vocabulary loaded. |
| Parser.ParserInfo.SwitchTag | python/parser_info.py:64-70 | The vocabulary is loaded on first use only and never replaced afterwards. The labels are mapped through the loaded vocabulary. |
| Parser.ParserInfo.ParseFilmInfo | python/parser_info.py:72-130 | The result equals `ExtractInfo` under the vocabulary in effect, with "catalogued" meaning membership in `videos`. The vocabulary stays unloaded when the method returns before reaching the tags. |
| Parser.ParserInfo.ParseInfoAndUpdate | python/parser_info.py:132-149 | The loop leaves `videos_update` equal to the fold of the per-URL step over the list. The vocabulary in effect is unchanged. |
| Parser.ParserInfo.ProcessBatches | python/parser_info.py:162-169 | The batch loop leaves `videos_update` equal to the fold of "register, then refresh" over the batches, with whitespace stripped from each link. The vocabulary in effect is unchanged, and a loaded one is kept. |
| Parser.ParserInfo.ParseStart | python/parser_info.py:151-181 | `videos_update` is the backlog pass followed, batch by batch, by registration and a pass. `videos_new` is the old `videos_new` with the new-URL records published into it. The vocabulary in effect is the same throughout, and a loaded one is never reloaded. |

## Left out

- Page fetching (`parse_webpage`) is not part of this model, and neither is the index lookup (`parse_indexav`). A `web` function gives each URL's already-extracted fields: the code match of the `watch-` pattern, the page fields, and the index's model and title answers.
- The HTML regular expressions of `parse_film_info` are left out. Their captures are inputs: count, models, title, image URL and raw labels.
- A page whose pattern does not match (Python raises `AttributeError` on `.group()` of `None`) is not modelled. Neither is an empty view count (`int('')` raises `ValueError`). The page fields are always present, and the count is a natural number.
- `mongodb.py` (`MongoOP`) is not part of this model. An upsert is taken to be a field-wise merge of the document into the stored one. A delete removes the URL's document.
- `get_unfinished_url_list` is a `backlog` parameter. The link paginator of `parser_link.py` is the sequence `batches`.
- `tags.json` and `config.json` are not read. The vocabulary is a parameter, taken by `SwitchTag` on first use. The store URI is not modelled.
- The clock (`datetime.now()`, `date.today()`) is one whole day number `today`. The time of day stored in `update_date` is not modelled.
- `print` output, the `film_infos` field (never read) and the `__main__` block are left out.
- Text.ToUpper: upper-cases ASCII letters only. Python's `.upper()` also maps non-ASCII letters, some of them to several characters (`ß` to `SS`).
- Store.IngestBatchOutcome: assumes a store whose documents are filed under their own URLs.
- `get_url_update_date` is read as the stored document's `update_date`. A document without one, such as a bare registered `{url}`, counts as having no date, so the gate never skips it.
- Store.PublishSpec: `update_json_list` upserts into `videos_new`, so entries it held from earlier runs stay. A rebuild as a snapshot would drop them; the code does not do that.
- Parser.ParserInfo.ParseStart: the fetches are a fixed function of the URL, so two visits of one URL see the same page. Concurrency and failures of the store are not modelled.
