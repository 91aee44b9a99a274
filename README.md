# IMDb TV API generator, request builder and dataset helper — a Dafny model

This project models the core of a small TypeScript repository with two parts.

**The IMDb TV generator** (`src/imdb/src/createApiInMemory.ts`) reads three IMDb
datasets row by row into two in-memory dictionaries:

- `title.episode` links each episode to its parent series and records the
  episode's season and episode numbers.
- `title.ratings` attaches a rating to a known series or a known episode.
- `title.basics` attaches titles, years, runtime, adult flag and genres.

It then walks the series dictionary in enumeration order. It skips every
series that lacks basics, a rating or episodes. For each other series it
walks the episode list. The walk collects the season and episode numbers
and builds a season → episode → item map. The episode item holds the
episode's title and rating, and an episode without a title or a rating gets
no item. Every visited episode is deleted. For the series it then:

- appends a search item `{id, title, start year}` to `search.json`, an
  array written piece by piece;
- writes a details file with the basics, the rating, the genres split at
  commas, the sorted season and episode indexes and the episode map.

Every handled series is deleted from its dictionary.

**The request helpers** (`src/api`):

- `ApiRequest` derives a request from an optional base request. It
  concatenates the base URLs, spreads the query parameters and the fetch
  options over the base's, and overrides the response type.
- `Api.prepareRequest` forms the URL from the base URL and
  `UrlBuilder.query`. That function renders the defined parameters as
  `?k=v&k=v`, in key order.
- `createDataset` turns a field-configuration object into an object from
  each property name to the configured `key`. It deletes each property of
  the configuration as it goes.

## Structure

- `options.dfy` (`Options`): an `Option` type; `GetOr` is JavaScript's `??`.
- `strings.dfy` (`Strings`): `Join` and `String.prototype.split` on one
  character, with their round trips.
- `records.dfy` (`Records`): a JavaScript plain object as a `Record` of
  keys in enumeration order plus a map. It gives assignment (a new key goes
  last, an existing key keeps its place), `delete`, and object spread.
- `url.dfy` (`Url`): `UrlBuilder.query` as a method with a loop, proved
  equal to the reference `QueryString`.
- `api.dfy` (`Api`): the `ApiRequest` class and the URL of `prepareRequest`.
- `dataset.dfy` (`Dataset`): `createDataset` as a loop that deletes from
  the configuration object.
- `sorted_index.dfy` (`SortedIndex`): ascending sorting of a set of numbers.
  `sortAsc` lives in `src/imdb/src/utils.ts`, which is not part of this
  model. It is taken to be an ascending numeric comparator, and
  `[...set].sort(sortAsc)` is modelled as the strictly increasing listing
  of the set.
- `imdb_data.dfy` (`ImdbData`): the rows, the dictionary entries and the
  output records.
- `imdb_walk.dfy` (`EpisodeWalk`): the walk over one series' episodes as a
  function, and what it computes.
- `imdb_assembly.dfy` (`Assembly`): the whole generation as a function
  (`Assemble`) and what it produces: the failure condition, the output
  order, the episodes consumed, and the contents of every details file.
- `imdb_in_memory.dfy` (`InMemory`): the generator's state as the class
  `ApiInMemory`. Its methods are the three row handlers and the generation
  loop, proved against `Assemble`.

The code fails where it dereferences a missing entry
(`createApiInMemory.ts:202` and 246). There the model has an explicit failure
result, `ok == false` or `None`, and gives the exact condition under which it
happens. The missing entry spread at 210 does not fail: spreading `undefined`
adds nothing, and `AddBasics` creates an entry without numbers.

## Notes on the code

- **Order of the passes.** The code reads episode links first
  (`createApiInMemory.ts:124`), then ratings (148), then basics (176). A
  rating is stored only on a series or episode that is already known
  (157-172). Ratings never decide which series or episodes are kept; only
  the guards at generation do (232, 264).
- **Search items.** A search item holds only id, title and start year
  (283-287).
- **Episodes without a title or a rating.** Such an episode gets no item in
  the episode map. Its numbers still enter both indexes, and its season
  still gets an entry, possibly empty (257-268).
- **Shared slots.** Two listed episodes with the same season and episode
  numbers share one slot of the episode map; the one listed last that has a
  title and a rating holds it (271).
- **Series-type rows for episode ids.** A `tvSeries`/`tvMiniSeries` basics
  row whose id is known only as an episode makes the code fail (202).
  `AddBasics` returns `ok == false` there.

## Model

| member | source | states |
|---|---|---|
| Url.Query | src/api/common/url.ts:21-37 | The loop returns exactly `QueryString(params)`: `""` when no parameter is defined (also when there are keys, all undefined), otherwise `?` followed by the `key=encode(value)` texts of the defined parameters in key order, joined by `&`, with the trailing `&` dropped |
| Url.QueryString | src/api/common/url.ts:21-37 | The query string is empty or starts with `?` |
| Url.QueryEmptyIff | src/api/common/url.ts:24-36 | The query string is empty if and only if every parameter value is `undefined` |
| Url.QueryIgnoresUndefined | src/api/common/url.ts:33 | Deleting a parameter whose value is `undefined` leaves the query string unchanged |
| Url.QuerySplitsIntoPairs | src/api/common/url.ts:28-36 | When keys and encoded values contain no `&`, splitting the query (after `?`) at `&` gives back exactly the `key=value` pairs of the defined parameters, in key order |
| Url.AccumulatedSnoc | src/api/common/url.ts:33 | Appending one `key=value&` to the accumulator `q` gives the accumulator of one more pair |
| Url.AccumulatedSlice | src/api/common/url.ts:36 | `q.slice(0, -1)` on the accumulator is `""` with no pairs, else `?` and the pairs joined by `&` |
| Url.PairsEmpty | src/api/common/url.ts:30-34 | No pair is produced if and only if every listed value is `undefined` |
| Api.ApiRequest.constructor | src/api/api.ts:43-60 | Without a base: the given base URL, params, request init and response type, or the defaults `""`, `{}`, `{}` and `json`. With a base: the base URL followed by the given one, the base params and init overridden key by key by the given ones (spread), and the given response type, else the base's |
| Api.PrepareUrl | src/api/api.ts:97-98 | The request URL is the base URL followed by the query string of the request's params |
| Records.Spread | src/api/api.ts:57-58 | `{...a, ...b}`: keys of `a` in their order, then `Fresh(b.keys, a.values)`, the keys of `b` that `a` lacks in `b`'s order; a key of `b` takes `b`'s value, any other key keeps `a`'s |
| Records.Fresh | src/api/api.ts:57-58 | The keys a spread appends are exactly the keys of `b` that `a` does not have |
| Records.FreshAppend | src/api/api.ts:57-58 | The appended keys of a concatenated order are those of each part, in order: together with `FreshSingleton` this fixes them as the keys of `b` `a` lacks, in `b`'s order |
| Records.FreshSingleton | src/api/api.ts:57-58 | A single key is appended exactly when `a` does not have it |
| Records.SpreadOntoEmpty | src/api/api.ts:44-57 | Spreading onto the default `{}` gives the spread object back unchanged |
| Records.SpreadEmpty | src/api/api.ts:57-58 | Spreading an absent (empty) object changes nothing |
| Options.GetOr | src/api/api.ts:59 | Definition of `??`: the value when present, else the default |
| Records.Assign | src/imdb/src/createApiInMemory.ts:137 | Assignment sets the key's value; the existing keys keep their order and at most one key is appended |
| Records.AssignTwice | src/imdb/src/createApiInMemory.ts:137-140 | Assigning a key twice is the same as assigning it once with the last value |
| Records.DeleteFirst | src/api/dataset.ts:25-27 | Deleting the first key being enumerated leaves the other keys in order and their values |
| Records.Delete | src/api/dataset.ts:27 | `delete obj[k]`: the key leaves the order, the other keys keep theirs, and the key and its value leave the object |
| Records.DeleteAbsent | src/api/dataset.ts:27 | Deleting a key the object does not have changes nothing |
| Records.Without | src/api/dataset.ts:27 | The order after `delete` holds exactly the other keys |
| Records.WithoutAppend | src/api/dataset.ts:27 | Deleting from a concatenated order deletes from each part, the parts and their order kept: with `WithoutSingleton` the other keys keep their relative order |
| Records.WithoutSingleton | src/api/dataset.ts:27 | A single key is removed exactly when it is the deleted key |
| Dataset.CreateDataset | src/api/dataset.ts:23-30 | The result has exactly the configuration's property names in its order, each mapped to that property's `key`. No `$type` property is created unless it was configured. The configuration object is left empty |
| Dataset.VisitNext | src/api/dataset.ts:25-28 | One iteration copies the next property's `key` into the result and deletes that property, keeping the visited and remaining parts in enumeration order |
| Strings.Split | src/imdb/src/createApiInMemory.ts:301 | `split(',')` gives at least one part, and no part contains the separator |
| Strings.JoinSplit | src/imdb/src/createApiInMemory.ts:301 | Joining the parts of a split with the separator gives back the original string |
| Strings.SplitJoin | src/imdb/src/createApiInMemory.ts:301 | Splitting a join of separator-free parts gives back the parts |
| ImdbData.IsSeriesType | src/imdb/src/createApiInMemory.ts:181 | Definition of the series test: the title type is `tvSeries` or `tvMiniSeries` |
| ImdbData.BasicsOf | src/imdb/src/createApiInMemory.ts:189-197 | Definition of the basics object of a row: title, start and end year, runtime, adult flag and genres |
| ImdbData.Truthy | src/imdb/src/createApiInMemory.ts:264 | Definition of JavaScript truthiness of a title or genres field: present and not the empty string (also used at 301) |
| ImdbData.Genres | src/imdb/src/createApiInMemory.ts:301 | A non-empty genres field gives a non-empty list of comma-free genres. An empty or null field gives `[]` |
| ImdbData.GenresRejoin | src/imdb/src/createApiInMemory.ts:301 | Joining the genres with commas restores the original field |
| SortedIndex.SortAsc | src/imdb/src/createApiInMemory.ts:302-303 | The listing of a number set is strictly increasing and holds exactly the set's elements |
| SortedIndex.Ascending | src/imdb/src/createApiInMemory.ts:302-303 | The reference listing is strictly increasing and has exactly the set's elements |
| SortedIndex.Least | src/imdb/src/createApiInMemory.ts:302-303 | Returns the smallest element of a non-empty set |
| InMemory.ApiInMemory.constructor | src/imdb/src/createApiInMemory.ts:67-68 | Both dictionaries start empty, with nothing written |
| InMemory.ApiInMemory.AddEpisodeLink | src/imdb/src/createApiInMemory.ts:126-145 | A row with an unknown season or episode number changes nothing. Otherwise the parent series is created (empty) if absent, the episode id is appended to its list, and the episode entry is replaced by one holding just the two numbers. Every listed episode stays in the episode dictionary with its numbers known |
| InMemory.ApiInMemory.AddRating | src/imdb/src/createApiInMemory.ts:150-173 | The rating is stored on the series with that id if there is one, else merged into the episode with that id if there is one, else dropped; nothing else changes |
| InMemory.ApiInMemory.AddBasics | src/imdb/src/createApiInMemory.ts:178-213 | Rows of other title types, or ids in neither dictionary, change nothing. Series-type basics replace the series' basics. Episode basics are merged into the episode entry (created when the id is only a series). Fails exactly for a series-type row whose id is only an episode |
| InMemory.ApiInMemory.WalkSeries | src/imdb/src/createApiInMemory.ts:238-280 | The episode loop computes exactly the walk `WalkEpisodes` over the series' list. It fails exactly when the walk does, and leaves the dictionary as the walk's remainder |
| InMemory.ApiInMemory.WriteSeries | src/imdb/src/createApiInMemory.ts:282-309 | Appends the series' search item to `search.json` (after a comma unless it is the first), and appends its details: basics, rating, genres, ascending indexes and the episode map |
| InMemory.ApiInMemory.HandleSeries | src/imdb/src/createApiInMemory.ts:228-315 | One iteration of the series loop keeps the output written so far plus the generation of the remaining series equal to the generation of all series |
| InMemory.ApiInMemory.WriteAllSeries | src/imdb/src/createApiInMemory.ts:222-315 | The loop over the series keys as they stood at the start, with `search.json` opened: it fails only where `Assemble` fails; otherwise `Assemble` yields exactly the search items written (joined by `,` after the `[`), the details written and the episodes left, the series dictionary is empty and the counter is the number of items |
| InMemory.ApiInMemory.Generate | src/imdb/src/createApiInMemory.ts:216-323 | Succeeds if and only if no episode id is listed twice among qualifying series. Then the series dictionary is empty, the consumed episodes are removed and the others stay, `search.json` is `[` + the search items joined by `,` + `]`, the details are `Assemble`'s, and the counter equals the number of qualifying series |
| InMemory.SerializedSnoc | src/imdb/src/createApiInMemory.ts:290-291 | Serializing one more search item appends exactly its text to the serialized items |
| InMemory.SearchStep | src/imdb/src/createApiInMemory.ts:290-291 | Writing one more item (with a comma after the first) extends the search array by that item |
| InMemory.SearchDocument | src/imdb/src/createApiInMemory.ts:220-318 | Definition of `search.json`: `[`, the serialized search items joined by `,`, then `]` |
| InMemory.RemainingStep | src/imdb/src/createApiInMemory.ts:228-314 | Deleting the series just handled leaves exactly the series not yet enumerated, in order |
| InMemory.LinkedAfterLink | src/imdb/src/createApiInMemory.ts:137-144 | After a link, every episode listed by any series is still in the episode dictionary with known numbers |
| EpisodeWalk.WalkSucceedsIff | src/imdb/src/createApiInMemory.ts:244-254 | The walk over an episode list succeeds if and only if the list has no repeated id and every id is still in the dictionary |
| EpisodeWalk.WalkConsumes | src/imdb/src/createApiInMemory.ts:264-279 | A successful walk removes exactly the listed episodes from the dictionary |
| EpisodeWalk.WalkIndexes | src/imdb/src/createApiInMemory.ts:257-261 | The season and episode indexes are exactly the season and episode numbers of the listed episodes, and the season keys of the map are exactly those season numbers |
| EpisodeWalk.WalkSlots | src/imdb/src/createApiInMemory.ts:261-276 | After a successful walk every slot (season, episode) of the map holds the item of the last listed episode with a title and a rating at those numbers; a slot no such listed episode has is as it was before the walk |
| EpisodeWalk.LastShownAt | src/imdb/src/createApiInMemory.ts:264-276 | Definition of the slot contents a list of episodes yields: the item (id, title, rating) of the last listed episode with a title and a rating at that season and number, else nothing |
| EpisodeWalk.LastShownAtSnoc | src/imdb/src/createApiInMemory.ts:271-276 | Listing one more episode: it takes the slot when it has a title and a rating there (a later write overwrites), otherwise the slot is unchanged |
| EpisodeWalk.LastShownAtListed | src/imdb/src/createApiInMemory.ts:264-276 | A slot holds an item exactly when some listed episode with a title and a rating is numbered there, and the item is that of such a listed episode |
| EpisodeWalk.VisitSlot | src/imdb/src/createApiInMemory.ts:261-276 | One visit writes the episode's item (id, title, rating) at its season and number when it has a title and a rating, and leaves every other slot as it was |
| EpisodeWalk.Visit | src/imdb/src/createApiInMemory.ts:245-279 | Definition of one iteration: fails on an id no longer in the dictionary; otherwise adds the numbers to the indexes, creates the season, places the item when titled and rated, and deletes the episode |
| EpisodeWalk.WalkEpisodes | src/imdb/src/createApiInMemory.ts:244-280 | Definition of the episode loop: the visits in list order, failing at the first failed visit |
| EpisodeWalk.Shown | src/imdb/src/createApiInMemory.ts:264 | Definition of the guard: an episode gets an item when its title is non-empty and it has a rating |
| EpisodeWalk.ItemOf | src/imdb/src/createApiInMemory.ts:271-276 | Definition of the episode map item: the episode's id, title, average rating and vote count |
| EpisodeWalk.Start | src/imdb/src/createApiInMemory.ts:239-242 | Definition of the walk's start: empty season and episode index sets and an empty map over the current episode dictionary |
| EpisodeWalk.NumbersStep | src/imdb/src/createApiInMemory.ts:257-258 | The numbers of a list are those of its first episode plus those of the rest of the list, once that episode is deleted |
| Assembly.AssembleSucceedsIff | src/imdb/src/createApiInMemory.ts:228-315 | Generation succeeds if and only if the episode lists of the qualifying series, together, repeat no id and all their ids are in the episode dictionary |
| Assembly.AssembleOrder | src/imdb/src/createApiInMemory.ts:228-315 | The search items, and the details files, follow exactly the qualifying series in enumeration order |
| Assembly.AssembleConsumes | src/imdb/src/createApiInMemory.ts:228-315 | After generation the episode dictionary is the original minus exactly the episodes of the qualifying series |
| Assembly.AssembleDescribes | src/imdb/src/createApiInMemory.ts:294-305 | Every details record carries its series' basics, rating and genres. Its indexes are strictly increasing and hold exactly the season and episode numbers of the series' episodes. The map has a key per season number, and at each season and number exactly the item of the last of the series' own episodes with a title and a rating there, and nothing where there is none |
| Assembly.DescribedItemsListed | src/imdb/src/createApiInMemory.ts:271-276 | Every item of a details record's episode map is one of that series' own listed episodes, titled and rated, at its own season and number, carrying its id, title and rating |
| Assembly.DescribedShownPlaced | src/imdb/src/createApiInMemory.ts:264-276 | Every listed episode of the series with a title and a rating has its slot filled in the details record's episode map |
| Assembly.Assemble | src/imdb/src/createApiInMemory.ts:228-315 | Definition of generation over the series in enumeration order: skip a series without basics, rating or episodes; otherwise walk its episodes (failing when the walk fails) and emit its search item and details, continuing on the dictionary the walk left |
| Assembly.Qualifies | src/imdb/src/createApiInMemory.ts:232 | Definition of the series guard: basics, a rating and at least one episode |
| Assembly.SearchItemOf | src/imdb/src/createApiInMemory.ts:283-287 | Definition of the search item: id, title and start year |
| Assembly.DetailsOf | src/imdb/src/createApiInMemory.ts:294-305 | Definition of the details record: the search item's fields, runtime, end year, adult flag, the series rating, the split genres, the ascending indexes and the episode map |
| Assembly.DetailsDescribe | src/imdb/src/createApiInMemory.ts:294-305 | The details built from one successful walk describe their series over the dictionary before that walk |
| Assembly.Qualifying | src/imdb/src/createApiInMemory.ts:232-236 | The ids kept are exactly the series with basics, a rating and at least one episode |
| Assembly.SearchItems | src/imdb/src/createApiInMemory.ts:283-287 | One search item per qualifying series, carrying its id, in order |
| Assembly.LinksListed | src/imdb/src/createApiInMemory.ts:244-246 | Every episode id listed by the qualifying series is in the episode dictionary with known numbers, given that all listed ids are |

## Left out

- Fetching the datasets, `gunzip`, decoding and the `papaparse` TSV
  parser. Rows arrive already parsed. A `\N` field is `None`, and the
  numeric columns are integers or reals.
- Dynamic typing of title columns. The parser would turn a numeric-looking
  title into a number (the title `0` would then be falsy). Titles are
  modelled as strings.
- Null rating fields. A rating row is taken to carry both numbers, so the
  `=== undefined` guard on an episode's rating (264) checks only whether a
  rating was attached.
- `JSON.stringify` of a search item is the parameter `stringify`. Details
  files are kept as the records written, in order (`seriesFiles`), not as
  their JSON text or file names.
- Directory clearing, file creation and the writer's `end` in
  `src/api/file-system.ts` are not part of this model. Nor are logging,
  timing and `Api.fetch`.
- The driver of the passes (the `try` block of `createApiInMemory.ts`,
  121-214, which runs the three dataset passes at 124, 148 and 176 and then
  generation) and hence the order of the passes. The handlers and
  generation are separate methods, and each states its effect on any valid
  state.
- Asynchrony: each row is handled to completion before the next.
- JavaScript's enumeration order puts integer-like keys first in ascending
  order. `Records` keeps insertion order only. IMDb ids (`tt…`) are never
  integer-like, nor are the query parameter and field names this
  repository's callers pass; `UrlBuilder.query` and `createDataset` accept
  any keys, and for integer-like ones the model's order is wrong. The episode map
  (keyed by numbers) is a `map`, with no order.
- Ratings are `real`; floating-point rounding is not modelled.
- `encodeURIComponent` is the parameter `encode`.
- InMemory.ApiInMemory.Generate: when it fails (the source throws part-way),
  the state left behind is not specified.
- EpisodeWalk.Visit: also fails on a listed episode with unknown numbers.
  The handlers can never build that case; the invariant `Valid` rules it
  out.
