/**
 * The in-memory IMDb API builder: two dictionaries filled row by row from
 * the episode, ratings and basics datasets, then drained series by series
 * into `search.json` and one details file per series.
 */
module InMemory {
  import opened Options
  import opened Strings
  import opened Records
  import opened SortedIndex
  import opened ImdbData
  import opened EpisodeWalk
  import opened Assembly

  /** Each search item serialized. */
  function Serialized(items: seq<SearchItem>, stringify: SearchItem -> string): seq<string>
  {
    seq(|items|, k requires 0 <= k < |items| => stringify(items[k]))
  }

  /** Serializing one more item appends its text. */
  lemma SerializedSnoc(items: seq<SearchItem>, item: SearchItem, stringify: SearchItem -> string)
    ensures Serialized(items + [item], stringify) == Serialized(items, stringify) + [stringify(item)]
  {
    var a, b := Serialized(items + [item], stringify), Serialized(items, stringify) + [stringify(item)];
    assert |a| == |b|;
    forall k | 0 <= k < |a|
      ensures a[k] == b[k]
    {
      if k < |items| {
        assert (items + [item])[k] == items[k];
      }
    }
  }

  /** The content of `search.json`: a JSON array of the serialized search items. */
  function SearchDocument(items: seq<SearchItem>, stringify: SearchItem -> string): string
  {
    "[" + Join(Serialized(items, stringify), ",") + "]"
  }

  /** Writing one more item, with a comma before it unless it is the first, extends the array text. */
  lemma SearchStep(items: seq<SearchItem>, item: SearchItem, stringify: SearchItem -> string)
    ensures "[" + Join(Serialized(items + [item], stringify), ",")
      == "[" + Join(Serialized(items, stringify), ",") + (if items != [] then "," else "") + stringify(item)
  {
    SerializedSnoc(items, item, stringify);
    JoinSnoc(Serialized(items, stringify), stringify(item), ",");
  }

  /** The series dictionary once the first `i` keys of `order` have been deleted. */
  ghost function Remaining(order: seq<Id>, i: nat, series: map<Id, SeriesEntry>): Record<SeriesEntry>
    requires i <= |order|
  {
    Record(order[i..], map k | k in order[i..] && k in series :: series[k])
  }

  /** Before any key is deleted the dictionary is all there. */
  lemma RemainingEnds(r: Record<SeriesEntry>)
    requires r.Valid()
    ensures Remaining(r.keys, 0, r.values) == r
  {
    assert r.keys[0..] == r.keys;
  }

  /** Once every key of `order` has been deleted the dictionary is empty. */
  lemma RemainingNone(order: seq<Id>, series: map<Id, SeriesEntry>)
    ensures Remaining(order, |order|, series) == Empty()
  {
    assert order[|order|..] == [];
  }

  /** What is left of a dictionary with duplicate-free keys is a well-formed dictionary. */
  lemma RemainingValid(order: seq<Id>, i: nat, series: map<Id, SeriesEntry>)
    requires i <= |order| && Distinct(order) && forall k :: k in order ==> k in series
    ensures Remaining(order, i, series).Valid()
  {
    var keys := order[i..];
    forall a, b | 0 <= a < b < |keys|
      ensures keys[a] != keys[b]
    {
      assert keys[a] == order[i + a] && keys[b] == order[i + b];
    }
  }

  /** Deleting the next key of a dictionary that still holds the rest of `order` leaves the rest after it. */
  lemma RemainingStep(order: seq<Id>, i: nat, series: map<Id, SeriesEntry>)
    requires i < |order| && Distinct(order) && forall k :: k in order ==> k in series
    ensures Remaining(order, i, series).Valid()
    ensures Remaining(order, i, series).values[order[i]] == series[order[i]]
    ensures Delete(Remaining(order, i, series), order[i]) == Remaining(order, i + 1, series)
  {
    var r := Remaining(order, i, series);
    RemainingValid(order, i, series);
    assert r.keys[0] == order[i] && r.keys[1..] == order[i + 1..];
    DeleteFirst(r);
    var later := order[i + 1..];
    assert order[i] !in later by {
      forall j | 0 <= j < |later|
        ensures later[j] != order[i]
      {
        assert later[j] == order[i + 1 + j];
      }
    }
    assert forall k :: k in order[i..] <==> k == order[i] || k in later;
  }

  /** Every episode listed under a series is in `eps`, with both numbers. */
  ghost predicate Linked(series: map<Id, SeriesEntry>, eps: map<Id, EpisodeEntry>)
  {
    forall k, id :: k in series && id in series[k].episodes ==> id in eps && eps[id].Placed()
  }

  /** Linking one more placed episode to a series keeps every listed episode linked. */
  lemma LinkedAfterLink(series: map<Id, SeriesEntry>, eps: map<Id, EpisodeEntry>, parent: Id, entry: SeriesEntry,
                        id: Id, episode: EpisodeEntry)
    requires Linked(series, eps) && episode.Placed()
    requires parent in series ==> entry == series[parent]
    requires parent !in series ==> entry.episodes == []
    ensures Linked(series[parent := entry.(episodes := entry.episodes + [id])], eps[id := episode])
  {
    var series' := series[parent := entry.(episodes := entry.episodes + [id])];
    forall k, x | k in series' && x in series'[k].episodes
      ensures x in eps[id := episode] && eps[id := episode][x].Placed()
    {
      if k == parent && x != id {
        assert x in entry.episodes;
      }
    }
  }

  /** The dictionaries as generation found them: `order` lists the series keys once each. */
  ghost predicate Snapshot(order: seq<Id>, series: map<Id, SeriesEntry>, eps: map<Id, EpisodeEntry>)
  {
    Distinct(order) && (forall k :: k in order ==> k in series) && Linked(series, eps)
  }

  class ApiInMemory {
    /** Series by id, in insertion order: `seriesDictionary`. */
    var seriesDictionary: Record<SeriesEntry>
    /** Episodes by id: `episodeDictionary`. */
    var episodeDictionary: map<Id, EpisodeEntry>
    /** What has been written to `search.json`. */
    var searchFile: string
    /** The details files written, in writing order (each is `<id>.json`). */
    var seriesFiles: seq<SeriesDetails>

    ghost predicate Valid()
      reads this
    {
      seriesDictionary.Valid() && Linked(seriesDictionary.values, episodeDictionary)
    }

    constructor ()
      ensures Valid()
      ensures seriesDictionary == Empty() && episodeDictionary == map[]
      ensures searchFile == "" && seriesFiles == []
    {
      seriesDictionary := Empty();
      episodeDictionary := map[];
      searchFile := "";
      seriesFiles := [];
    }

    /**
     * An episode row with both numbers known creates its series if needed,
     * appends the episode to the series' list and records the episode's
     * numbers, replacing any earlier entry; any other row is ignored.
     */
    method AddEpisodeLink(row: EpisodeRow)
      requires Valid()
      modifies this`seriesDictionary, this`episodeDictionary
      ensures Valid()
      ensures row.seasonNumber.None? || row.episodeNumber.None? ==>
        seriesDictionary == old(seriesDictionary) && episodeDictionary == old(episodeDictionary)
      ensures row.seasonNumber.Some? && row.episodeNumber.Some? ==>
        var before := if row.parentTconst in old(seriesDictionary.values)
          then old(seriesDictionary.values[row.parentTconst]) else SeriesEntry(None, None, []);
        seriesDictionary == Assign(old(seriesDictionary), row.parentTconst,
          before.(episodes := before.episodes + [row.tconst]))
        && episodeDictionary == old(episodeDictionary)[row.tconst :=
          EpisodeEntry(row.seasonNumber, row.episodeNumber, None, None)]
    {
      if row.seasonNumber.None? || row.episodeNumber.None? {
        return;
      }
      var parent := row.parentTconst;
      ghost var series0 := seriesDictionary;
      if parent !in seriesDictionary.values {
        seriesDictionary := Assign(seriesDictionary, parent, SeriesEntry(None, None, []));
      }
      var entry := seriesDictionary.values[parent];
      var episode := EpisodeEntry(row.seasonNumber, row.episodeNumber, None, None);
      if parent !in series0.values {
        AssignTwice(series0, parent, entry, entry.(episodes := entry.episodes + [row.tconst]));
      }
      LinkedAfterLink(series0.values, episodeDictionary, parent, entry, row.tconst, episode);
      seriesDictionary := Assign(seriesDictionary, parent, entry.(episodes := entry.episodes + [row.tconst]));
      episodeDictionary := episodeDictionary[row.tconst := episode];
    }

    /**
     * A rating goes to the series with that id if there is one, otherwise to
     * the episode with that id if there is one, otherwise nowhere.
     */
    method AddRating(row: RatingRow)
      requires Valid()
      modifies this`seriesDictionary, this`episodeDictionary
      ensures Valid()
      ensures var r := Some(Rating(row.averageRating, row.numVotes));
        if row.tconst in old(seriesDictionary.values) then
          seriesDictionary == Assign(old(seriesDictionary), row.tconst,
            old(seriesDictionary.values[row.tconst]).(rating := r))
          && episodeDictionary == old(episodeDictionary)
        else if row.tconst in old(episodeDictionary) then
          seriesDictionary == old(seriesDictionary)
          && episodeDictionary == old(episodeDictionary)[row.tconst := old(episodeDictionary[row.tconst]).(rating := r)]
        else
          seriesDictionary == old(seriesDictionary) && episodeDictionary == old(episodeDictionary)
    {
      var rating := Rating(row.averageRating, row.numVotes);
      if row.tconst in seriesDictionary.values {
        var entry := seriesDictionary.values[row.tconst];
        seriesDictionary := Assign(seriesDictionary, row.tconst, entry.(rating := Some(rating)));
        return;
      }
      if row.tconst in episodeDictionary {
        episodeDictionary := episodeDictionary[row.tconst := episodeDictionary[row.tconst].(rating := Some(rating))];
        return;
      }
    }

    /**
     * Basics of a series or episode whose id is in either dictionary are
     * stored: on the series for a series type, merged into the episode entry
     * (created empty if absent) for `tvEpisode`. `ok` is false where the
     * source fails: a series-type row whose id is only an episode.
     */
    method AddBasics(row: BasicsRow) returns (ok: bool)
      requires Valid()
      modifies this`seriesDictionary, this`episodeDictionary
      ensures Valid()
      ensures var id := row.tconst;
        ok <==> !(IsSeriesType(row.titleType) && id !in old(seriesDictionary.values) && id in old(episodeDictionary))
      ensures var id := row.tconst;
        var known := id in old(seriesDictionary.values) || id in old(episodeDictionary);
        if !ok || !known || !(IsSeriesType(row.titleType) || row.titleType == TvEpisode) then
          seriesDictionary == old(seriesDictionary) && episodeDictionary == old(episodeDictionary)
        else if IsSeriesType(row.titleType) then
          seriesDictionary == Assign(old(seriesDictionary), id,
            old(seriesDictionary.values[id]).(basics := Some(BasicsOf(row))))
          && episodeDictionary == old(episodeDictionary)
        else
          var before := if id in old(episodeDictionary) then old(episodeDictionary[id]) else EpisodeEntry(None, None, None, None);
          seriesDictionary == old(seriesDictionary)
          && episodeDictionary == old(episodeDictionary)[id := before.(basics := Some(BasicsOf(row)))]
    {
      var id := row.tconst;
      var isSeries := IsSeriesType(row.titleType);
      var isEpisode := row.titleType == TvEpisode;
      if (!isSeries && !isEpisode) || (id !in seriesDictionary.values && id !in episodeDictionary) {
        return true;
      }
      var basics := BasicsOf(row);
      if isSeries {
        if id !in seriesDictionary.values {
          return false;
        }
        var entry := seriesDictionary.values[id];
        seriesDictionary := Assign(seriesDictionary, id, entry.(basics := Some(basics)));
        return true;
      }
      var entry := if id in episodeDictionary then episodeDictionary[id] else EpisodeEntry(None, None, None, None);
      episodeDictionary := episodeDictionary[id := entry.(basics := Some(basics))];
      return true;
    }

    /**
     * The inner loop of generation over one series' episode ids: collects the
     * index sets and the episode map, and removes each visited episode from
     * the dictionary. `ok` is false where the source fails on an episode that
     * is no longer in the dictionary.
     */
    method WalkSeries(ids: seq<Id>, ghost eps0: map<Id, EpisodeEntry>)
      returns (ok: bool, seasons: set<int>, numbers: set<int>, episodeMap: EpisodeMap)
      requires SubMap(episodeDictionary, eps0)
      requires forall id :: id in ids && id in eps0 ==> eps0[id].Placed()
      modifies this`episodeDictionary
      ensures SubMap(episodeDictionary, eps0)
      ensures ok <==> WalkEpisodes(ids, Start(old(episodeDictionary))).Some?
      ensures ok ==>
        WalkEpisodes(ids, Start(old(episodeDictionary))).value == Walk(seasons, numbers, episodeMap, episodeDictionary)
    {
      ghost var w0 := Start(episodeDictionary);
      seasons, numbers, episodeMap := {}, {}, map[];
      for j := 0 to |ids|
        invariant SubMap(episodeDictionary, eps0)
        invariant WalkEpisodes(ids, w0) == WalkEpisodes(ids[j..], Walk(seasons, numbers, episodeMap, episodeDictionary))
      {
        var id := ids[j];
        assert ids[j..][1..] == ids[j + 1..];
        if id !in episodeDictionary {
          return false, seasons, numbers, episodeMap;
        }
        var episode := episodeDictionary[id];
        assert id in ids;
        var s, n := episode.seasonNumber.value, episode.episodeNumber.value;
        seasons := seasons + {s};
        numbers := numbers + {n};
        if s !in episodeMap {
          episodeMap := episodeMap[s := map[]];
        }
        if !Truthy(episode.Title()) || episode.rating.None? {
          episodeDictionary := episodeDictionary - {id};
          continue;
        }
        var item := EpisodeItem(id, episode.Title().value, episode.rating.value.averageRating, episode.rating.value.numVotes);
        episodeMap := episodeMap[s := episodeMap[s][n := item]];
        episodeDictionary := episodeDictionary - {id};
      }
      return true, seasons, numbers, episodeMap;
    }

    /**
     * The output of one qualifying series after its walk: its search item is
     * appended to `search.json` (after a comma unless it is the first), and its
     * details, with the index sets sorted ascending, are written to its file.
     */
    method WriteSeries(id: Id, entry: SeriesEntry, ghost w: Walk, seasons: set<int>, numbers: set<int>,
                       episodeMap: EpisodeMap, hasFirst: bool, stringify: SearchItem -> string)
      returns (item: SearchItem, details: SeriesDetails)
      requires Qualifies(entry)
      requires w.seasons == seasons && w.numbers == numbers && w.episodeMap == episodeMap
      modifies this`searchFile, this`seriesFiles
      ensures item == SearchItemOf(id, entry.basics.value) && details == DetailsOf(id, entry, w)
      ensures searchFile == old(searchFile) + (if hasFirst then "," else "") + stringify(item)
      ensures seriesFiles == old(seriesFiles) + [details]
    {
      var basics := entry.basics.value;
      item := SearchItem(id, basics.primaryTitle, basics.startYear);
      searchFile := searchFile + (if hasFirst then "," else "") + stringify(item);
      var seasonsIndex := SortAsc(seasons);
      var episodeIndex := SortAsc(numbers);
      details := SeriesDetails(id, basics.primaryTitle, basics.startYear, basics.runtimeMinutes,
        basics.endYear, basics.isAdult, entry.rating.value.averageRating, entry.rating.value.numVotes,
        Genres(basics.genres), seasonsIndex, episodeIndex, episodeMap);
      seriesFiles := seriesFiles + [details];
    }

    /**
     * Generation: `search.json` is opened with `[`, every series in
     * enumeration order is either skipped (no basics, rating or episodes) or
     * walked and written out as a search item and a details file, and the
     * array is closed with `]`. Every series is removed once handled. `ok` is
     * false where the source fails part-way; the partial output is then
     * unspecified. It fails exactly when an episode is linked twice among the
     * qualifying series.
     */
    method Generate(stringify: SearchItem -> string) returns (ok: bool, seriesCounter: nat)
      requires Valid()
      modifies this
      ensures ok <==> Assemble(old(seriesDictionary.keys), old(seriesDictionary.values), old(episodeDictionary)).Some?
      ensures ok ==>
        var e := Assemble(old(seriesDictionary.keys), old(seriesDictionary.values), old(episodeDictionary)).value;
        seriesDictionary == Empty() && episodeDictionary == e.rest && seriesFiles == e.details
        && searchFile == SearchDocument(e.items, stringify) && seriesCounter == |e.items|
      ensures ok <==> Distinct(Links(old(seriesDictionary.keys), old(seriesDictionary.values)))
      ensures ok ==>
        seriesCounter == |Qualifying(old(seriesDictionary.keys), old(seriesDictionary.values))|
        && episodeDictionary == old(episodeDictionary) - Elems(Links(old(seriesDictionary.keys), old(seriesDictionary.values)))
    {
      var order := seriesDictionary.keys;
      ghost var series := seriesDictionary.values;
      ghost var eps0 := episodeDictionary;
      LinksListed(order, series, eps0);
      AssembleSucceedsIff(order, series, eps0);
      if Assemble(order, series, eps0).Some? {
        AssembleOrder(order, series, eps0);
        AssembleConsumes(order, series, eps0);
      }
      RemainingEnds(seriesDictionary);
      assert Snapshot(order, series, eps0);
      searchFile := "[";
      seriesFiles := [];
      ghost var items;
      ok, seriesCounter, items := WriteAllSeries(order, series, eps0, stringify);
      if ok {
        searchFile := searchFile + "]";
      }
    }

    /**
     * The loop of generation over the series keys `order` as they stood when
     * it started, with `search.json` opened and no details written yet; the
     * array is left open. It fails only where generation fails, and otherwise
     * leaves exactly what generation emits and the dictionaries emptied of
     * what it used.
     */
    method WriteAllSeries(order: seq<Id>, ghost series: map<Id, SeriesEntry>, ghost eps0: map<Id, EpisodeEntry>,
                          stringify: SearchItem -> string)
      returns (ok: bool, seriesCounter: nat, ghost items: seq<SearchItem>)
      requires Snapshot(order, series, eps0)
      requires seriesDictionary == Remaining(order, 0, series) && episodeDictionary == eps0
      requires searchFile == "[" && seriesFiles == []
      modifies this
      ensures !ok ==> Assemble(order, series, eps0).None?
      ensures ok ==>
        Assemble(order, series, eps0) == Some(Emission(items, seriesFiles, episodeDictionary))
        && seriesDictionary == Empty()
        && searchFile == "[" + Join(Serialized(items, stringify), ",") && seriesCounter == |items|
    {
      items := [];
      var hasFirst := false;
      seriesCounter := 0;
      HandledNone(order, series, eps0);
      for i := 0 to |order|
        invariant seriesDictionary == Remaining(order, i, series)
        invariant SubMap(episodeDictionary, eps0)
        invariant HandledUpTo(order, series, eps0, i, items, seriesFiles, episodeDictionary)
        invariant searchFile == "[" + Join(Serialized(items, stringify), ",")
        invariant hasFirst == (items != []) && seriesCounter == |items|
      {
        var handled, emitted;
        handled, emitted, items := HandleSeries(order, i, series, eps0, items, hasFirst, stringify);
        if !handled {
          return false, seriesCounter, items;
        }
        if emitted {
          hasFirst := true;
          seriesCounter := seriesCounter + 1;
        }
      }
      HandledAll(order, series, eps0, items, seriesFiles, episodeDictionary);
      RemainingNone(order, series);
      ok := true;
    }

    /**
     * One iteration of generation: the series `order[i]` is skipped, or walked
     * and written out; its key is deleted once handled. `handled` is false
     * where the source fails on an episode it already removed.
     */
    method HandleSeries(order: seq<Id>, i: nat, ghost series: map<Id, SeriesEntry>, ghost eps0: map<Id, EpisodeEntry>,
                        ghost items: seq<SearchItem>, hasFirst: bool, stringify: SearchItem -> string)
      returns (handled: bool, emitted: bool, ghost items': seq<SearchItem>)
      requires i < |order| && Snapshot(order, series, eps0)
      requires seriesDictionary == Remaining(order, i, series) && SubMap(episodeDictionary, eps0)
      requires HandledUpTo(order, series, eps0, i, items, seriesFiles, episodeDictionary)
      requires searchFile == "[" + Join(Serialized(items, stringify), ",") && hasFirst == (items != [])
      modifies this
      ensures !handled ==> Assemble(order, series, eps0).None?
      ensures handled ==>
        |items'| == |items| + (if emitted then 1 else 0) && (items' != [] <==> emitted || items != [])
        && seriesDictionary == Remaining(order, i + 1, series) && SubMap(episodeDictionary, eps0)
        && HandledUpTo(order, series, eps0, i + 1, items', seriesFiles, episodeDictionary)
        && searchFile == "[" + Join(Serialized(items', stringify), ",")
    {
      var id := order[i];
      RemainingStep(order, i, series);
      var entry := seriesDictionary.values[id];
      if entry.basics.None? || entry.rating.None? || |entry.episodes| == 0 {
        SkipStep(order, series, eps0, i, items, seriesFiles, episodeDictionary);
        seriesDictionary := Delete(seriesDictionary, id);
        return true, false, items;
      }
      ghost var eps := episodeDictionary;
      var walked, seasons, numbers, episodeMap := WalkSeries(entry.episodes, eps0);
      if !walked {
        FailStep(order, series, eps0, i, items, seriesFiles, eps);
        return false, false, items;
      }
      ghost var w := Walk(seasons, numbers, episodeMap, episodeDictionary);
      EmitStep(order, series, eps0, i, items, seriesFiles, eps, w);
      var item, details;
      item, details := WriteSeries(id, entry, w, seasons, numbers, episodeMap, hasFirst, stringify);
      SearchStep(items, item, stringify);
      seriesDictionary := Delete(seriesDictionary, id);
      items' := items + [item];
      emitted := true;
      handled := true;
    }
  }
}
