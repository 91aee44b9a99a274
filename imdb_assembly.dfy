/**
 * What generation emits, as a function of the series keys in enumeration
 * order and the two dictionaries: the search items, the per-series details
 * and what is left of the episode dictionary.
 */
module Assembly {
  import opened Options
  import opened Strings
  import opened Records
  import opened SortedIndex
  import opened ImdbData
  import opened EpisodeWalk

  /** A series is emitted only when it has basics, a rating and at least one episode. */
  predicate Qualifies(s: SeriesEntry)
  {
    s.basics.Some? && s.rating.Some? && |s.episodes| > 0
  }

  /** The search item of an emitted series. */
  function SearchItemOf(id: Id, b: Basics): SearchItem
  {
    SearchItem(id, b.primaryTitle, b.startYear)
  }

  /** The details of an emitted series, from its entry and its finished walk. */
  ghost function DetailsOf(id: Id, s: SeriesEntry, w: Walk): SeriesDetails
    requires Qualifies(s)
  {
    var b := s.basics.value;
    SeriesDetails(id, b.primaryTitle, b.startYear, b.runtimeMinutes, b.endYear, b.isAdult,
      s.rating.value.averageRating, s.rating.value.numVotes, Genres(b.genres),
      Ascending(w.seasons), Ascending(w.numbers), w.episodeMap)
  }

  /** Everything generation produces. */
  datatype Emission = Emission(items: seq<SearchItem>, details: seq<SeriesDetails>, rest: map<Id, EpisodeEntry>)

  /** Output produced before the rest of an emission (`None` stays `None`). */
  function Then(items: seq<SearchItem>, details: seq<SeriesDetails>, o: Option<Emission>): (r: Option<Emission>)
    ensures r.Some? <==> o.Some?
  {
    match o
    case None => None
    case Some(e) => Some(Emission(items + e.items, details + e.details, e.rest))
  }

  /** Nothing produced first changes nothing. */
  lemma ThenNothing(o: Option<Emission>)
    ensures Then([], [], o) == o
  {
    if o.Some? {
      assert [] + o.value.items == o.value.items && [] + o.value.details == o.value.details;
    }
  }

  /** Output produced in two steps is the output of both, in order. */
  lemma ThenThen(items: seq<SearchItem>, details: seq<SeriesDetails>, item: SearchItem, d: SeriesDetails, o: Option<Emission>)
    ensures Then(items, details, Then([item], [d], o)) == Then(items + [item], details + [d], o)
  {
    if o.Some? {
      assert items + ([item] + o.value.items) == (items + [item]) + o.value.items;
      assert details + ([d] + o.value.details) == (details + [d]) + o.value.details;
    }
  }

  /**
   * Generation over the series `order`: a series without basics, rating or
   * episodes is skipped, every other one walks its episodes and emits its
   * search item and details. `None` when a walk fails.
   */
  ghost function Assemble(order: seq<Id>, series: map<Id, SeriesEntry>, eps: map<Id, EpisodeEntry>): Option<Emission>
    requires forall k :: k in order ==> k in series
    decreases |order|
  {
    if order == [] then Some(Emission([], [], eps))
    else
      var id := order[0];
      var s := series[id];
      if !Qualifies(s) then Assemble(order[1..], series, eps)
      else
        match WalkEpisodes(s.episodes, Start(eps))
        case None => None
        case Some(w) =>
          Then([SearchItemOf(id, s.basics.value)], [DetailsOf(id, s, w)], Assemble(order[1..], series, w.rest))
  }

  /** Generation with the first `i` series handled, `items` and `details` written so far, and `eps` left. */
  ghost predicate HandledUpTo(order: seq<Id>, series: map<Id, SeriesEntry>, eps0: map<Id, EpisodeEntry>,
                              i: nat, items: seq<SearchItem>, details: seq<SeriesDetails>, eps: map<Id, EpisodeEntry>)
    requires forall k :: k in order ==> k in series
    requires i <= |order|
  {
    Assemble(order, series, eps0) == Then(items, details, Assemble(order[i..], series, eps))
  }

  /** Before any series is handled, all of generation is still to come. */
  lemma HandledNone(order: seq<Id>, series: map<Id, SeriesEntry>, eps0: map<Id, EpisodeEntry>)
    requires forall k :: k in order ==> k in series
    ensures HandledUpTo(order, series, eps0, 0, [], [], eps0)
  {
    assert order[0..] == order;
    ThenNothing(Assemble(order, series, eps0));
  }

  /** Once every series is handled, generation is exactly what has been written and what is left. */
  lemma HandledAll(order: seq<Id>, series: map<Id, SeriesEntry>, eps0: map<Id, EpisodeEntry>,
                   items: seq<SearchItem>, details: seq<SeriesDetails>, eps: map<Id, EpisodeEntry>)
    requires forall k :: k in order ==> k in series
    requires HandledUpTo(order, series, eps0, |order|, items, details, eps)
    ensures Assemble(order, series, eps0) == Some(Emission(items, details, eps))
  {
    assert order[|order|..] == [];
    assert items + [] == items && details + [] == details;
  }

  /** Skipping a series that does not qualify keeps generation on track. */
  lemma SkipStep(order: seq<Id>, series: map<Id, SeriesEntry>, eps0: map<Id, EpisodeEntry>,
                 i: nat, items: seq<SearchItem>, details: seq<SeriesDetails>, eps: map<Id, EpisodeEntry>)
    requires forall k :: k in order ==> k in series
    requires i < |order| && !Qualifies(series[order[i]])
    requires HandledUpTo(order, series, eps0, i, items, details, eps)
    ensures HandledUpTo(order, series, eps0, i + 1, items, details, eps)
  {
    assert order[i..][1..] == order[i + 1..];
  }

  /** Emitting a qualifying series after a successful walk keeps generation on track. */
  lemma EmitStep(order: seq<Id>, series: map<Id, SeriesEntry>, eps0: map<Id, EpisodeEntry>,
                 i: nat, items: seq<SearchItem>, details: seq<SeriesDetails>, eps: map<Id, EpisodeEntry>, w: Walk)
    requires forall k :: k in order ==> k in series
    requires i < |order| && Qualifies(series[order[i]])
    requires WalkEpisodes(series[order[i]].episodes, Start(eps)) == Some(w)
    requires HandledUpTo(order, series, eps0, i, items, details, eps)
    ensures HandledUpTo(order, series, eps0, i + 1,
      items + [SearchItemOf(order[i], series[order[i]].basics.value)],
      details + [DetailsOf(order[i], series[order[i]], w)], w.rest)
  {
    assert order[i..][1..] == order[i + 1..];
    ThenThen(items, details, SearchItemOf(order[i], series[order[i]].basics.value),
      DetailsOf(order[i], series[order[i]], w), Assemble(order[i + 1..], series, w.rest));
  }

  /** A failed walk of a qualifying series makes generation fail. */
  lemma FailStep(order: seq<Id>, series: map<Id, SeriesEntry>, eps0: map<Id, EpisodeEntry>,
                 i: nat, items: seq<SearchItem>, details: seq<SeriesDetails>, eps: map<Id, EpisodeEntry>)
    requires forall k :: k in order ==> k in series
    requires i < |order| && Qualifies(series[order[i]])
    requires WalkEpisodes(series[order[i]].episodes, Start(eps)).None?
    requires HandledUpTo(order, series, eps0, i, items, details, eps)
    ensures Assemble(order, series, eps0).None?
  {
    assert order[i..][0] == order[i];
  }

  /** The series of `order` that qualify, in order. */
  function Qualifying(order: seq<Id>, series: map<Id, SeriesEntry>): (r: seq<Id>)
    requires forall k :: k in order ==> k in series
    ensures forall k :: k in r ==> k in order && Qualifies(series[k])
    ensures forall k :: k in order && Qualifies(series[k]) ==> k in r
  {
    if order == [] then []
    else if Qualifies(series[order[0]]) then [order[0]] + Qualifying(order[1..], series)
    else Qualifying(order[1..], series)
  }

  /** The episode lists of the qualifying series, concatenated in order. */
  function Links(order: seq<Id>, series: map<Id, SeriesEntry>): seq<Id>
    requires forall k :: k in order ==> k in series
  {
    if order == [] then []
    else if Qualifies(series[order[0]]) then series[order[0]].episodes + Links(order[1..], series)
    else Links(order[1..], series)
  }

  /** Every episode the qualifying series list is one that some series lists. */
  lemma {:induction false} LinksListed(order: seq<Id>, series: map<Id, SeriesEntry>, eps: map<Id, EpisodeEntry>)
    requires forall k :: k in order ==> k in series
    requires forall k, id :: k in series && id in series[k].episodes ==> id in eps && eps[id].Placed()
    ensures forall id :: id in Links(order, series) ==> id in eps && eps[id].Placed()
    decreases |order|
  {
    if order != [] {
      LinksListed(order[1..], series, eps);
      assert order[0] in series;
    }
  }

  /** What an emitted series' details say, given the episode dictionary before generation. */
  ghost predicate Describes(d: SeriesDetails, series: map<Id, SeriesEntry>, eps: map<Id, EpisodeEntry>)
  {
    d.id in series && Qualifies(series[d.id]) &&
    var s := series[d.id];
    var b := s.basics.value;
    d.primaryTitle == b.primaryTitle && d.startYear == b.startYear && d.runtimeMinutes == b.runtimeMinutes
    && d.endYear == b.endYear && d.isAdult == b.isAdult && d.genres == Genres(b.genres)
    && d.averageRating == s.rating.value.averageRating && d.numVotes == s.rating.value.numVotes
    && (forall id :: id in s.episodes ==> id in eps && eps[id].Placed())
    && StrictlyIncreasing(d.seasonsIndex) && Elems(d.seasonsIndex) == SeasonNumbers(s.episodes, eps)
    && StrictlyIncreasing(d.episodeIndex) && Elems(d.episodeIndex) == EpisodeNumbers(s.episodes, eps)
    && d.episodeMap.Keys == SeasonNumbers(s.episodes, eps)
    && (forall season, number :: Slot(d.episodeMap, season, number) == LastShownAt(s.episodes, eps, season, number))
  }

  /**
   * Generation succeeds exactly when no episode is linked twice among the
   * qualifying series and each of their episodes is in the dictionary.
   */
  lemma {:induction false} AssembleSucceedsIff(order: seq<Id>, series: map<Id, SeriesEntry>, eps: map<Id, EpisodeEntry>)
    requires forall k :: k in order ==> k in series
    requires forall id :: id in Links(order, series) && id in eps ==> eps[id].Placed()
    ensures Assemble(order, series, eps).Some?
        <==> Distinct(Links(order, series)) && forall id :: id in Links(order, series) ==> id in eps
    decreases |order|
  {
    if order != [] && Qualifies(series[order[0]]) {
      var ids := series[order[0]].episodes;
      var later := Links(order[1..], series);
      assert Links(order, series) == ids + later;
      WalkSucceedsIff(ids, Start(eps));
      if WalkEpisodes(ids, Start(eps)).Some? {
        var w := WalkEpisodes(ids, Start(eps)).value;
        WalkConsumes(ids, Start(eps));
        AssembleSucceedsIff(order[1..], series, w.rest);
        if Distinct(ids + later) {
          forall i, j | 0 <= i < |ids| && 0 <= j < |later|
            ensures ids[i] != later[j]
          {
            assert ids[i] == (ids + later)[i] && later[j] == (ids + later)[|ids| + j];
          }
          forall i, j | 0 <= i < j < |later|
            ensures later[i] != later[j]
          {
            assert later[i] == (ids + later)[|ids| + i] && later[j] == (ids + later)[|ids| + j];
          }
        }
        if Distinct(later) && forall id :: id in later ==> id in w.rest {
          DistinctConcat(ids, later);
        }
      } else if Distinct(ids + later) {
        forall i, j | 0 <= i < j < |ids|
          ensures ids[i] != ids[j]
        {
          assert ids[i] == (ids + later)[i] && ids[j] == (ids + later)[j];
        }
      }
    } else if order != [] {
      AssembleSucceedsIff(order[1..], series, eps);
    }
  }

  /** The search items of the listed series, in order. */
  function SearchItems(q: seq<Id>, series: map<Id, SeriesEntry>): (r: seq<SearchItem>)
    requires forall k :: k in q ==> k in series && Qualifies(series[k])
    ensures |r| == |q| && forall k :: 0 <= k < |q| ==> r[k].id == q[k]
  {
    if q == [] then []
    else
      assert q[0] in q && Qualifies(series[q[0]]);
      [SearchItemOf(q[0], series[q[0]].basics.value)] + SearchItems(q[1..], series)
  }

  /** The series ids of a list of details, in order. */
  function DetailIds(ds: seq<SeriesDetails>): seq<Id>
  {
    if ds == [] then [] else [ds[0].id] + DetailIds(ds[1..])
  }

  /**
   * The search items and the details come out in the enumeration order of the
   * qualifying series, one of each per series.
   */
  lemma {:induction false} AssembleOrder(order: seq<Id>, series: map<Id, SeriesEntry>, eps: map<Id, EpisodeEntry>)
    requires forall k :: k in order ==> k in series
    requires Assemble(order, series, eps).Some?
    ensures Assemble(order, series, eps).value.items == SearchItems(Qualifying(order, series), series)
    ensures DetailIds(Assemble(order, series, eps).value.details) == Qualifying(order, series)
    decreases |order|
  {
    if order != [] {
      var s := series[order[0]];
      if Qualifies(s) {
        var w := WalkEpisodes(s.episodes, Start(eps)).value;
        AssembleOrder(order[1..], series, w.rest);
        var e' := Assemble(order[1..], series, w.rest).value;
        var d := DetailsOf(order[0], s, w);
        assert ([d] + e'.details)[1..] == e'.details;
      } else {
        AssembleOrder(order[1..], series, eps);
      }
    }
  }

  /** After generation the episode dictionary holds exactly the episodes no qualifying series lists. */
  lemma {:induction false} AssembleConsumes(order: seq<Id>, series: map<Id, SeriesEntry>, eps: map<Id, EpisodeEntry>)
    requires forall k :: k in order ==> k in series
    requires Assemble(order, series, eps).Some?
    ensures Assemble(order, series, eps).value.rest == eps - Elems(Links(order, series))
    decreases |order|
  {
    if order != [] {
      var s := series[order[0]];
      if Qualifies(s) {
        var w := WalkEpisodes(s.episodes, Start(eps)).value;
        WalkConsumes(s.episodes, Start(eps));
        AssembleConsumes(order[1..], series, w.rest);
        assert Elems(Links(order, series)) == Elems(s.episodes) + Elems(Links(order[1..], series));
      } else {
        AssembleConsumes(order[1..], series, eps);
      }
    }
  }

  /** Numbers of listed episodes read the same in a sub-dictionary that still holds them. */
  lemma NumbersOnSubMap(ids: seq<Id>, rest: map<Id, EpisodeEntry>, eps: map<Id, EpisodeEntry>)
    requires SubMap(rest, eps) && forall id :: id in ids ==> id in rest
    ensures SeasonNumbers(ids, rest) == SeasonNumbers(ids, eps)
    ensures EpisodeNumbers(ids, rest) == EpisodeNumbers(ids, eps)
  {
    assert forall id :: id in ids ==> id in rest && id in eps && rest[id] == eps[id];
  }

  /** A description against a sub-dictionary holds against the whole one. */
  lemma DescribesLift(d: SeriesDetails, series: map<Id, SeriesEntry>, rest: map<Id, EpisodeEntry>, eps: map<Id, EpisodeEntry>)
    requires SubMap(rest, eps) && Describes(d, series, rest)
    ensures Describes(d, series, eps)
  {
    var ids := series[d.id].episodes;
    NumbersOnSubMap(ids, rest, eps);
    forall season, number
      ensures LastShownAt(ids, rest, season, number) == LastShownAt(ids, eps, season, number)
    {
      LastShownAtAgree(ids, rest, eps, season, number);
    }
  }

  /** The details of a series, from a successful walk over its episodes. */
  lemma DetailsDescribe(id: Id, series: map<Id, SeriesEntry>, eps: map<Id, EpisodeEntry>)
    requires id in series && Qualifies(series[id])
    requires WalkEpisodes(series[id].episodes, Start(eps)).Some?
    ensures Describes(DetailsOf(id, series[id], WalkEpisodes(series[id].episodes, Start(eps)).value), series, eps)
  {
    var ids := series[id].episodes;
    var w := WalkEpisodes(ids, Start(eps)).value;
    WalkConsumes(ids, Start(eps));
    WalkIndexes(ids, Start(eps));
    forall season, number
      ensures Slot(w.episodeMap, season, number) == LastShownAt(ids, eps, season, number)
    {
      WalkSlots(ids, Start(eps), season, number);
    }
    assert Elems(Ascending(w.seasons)) == w.seasons;
    assert Elems(Ascending(w.numbers)) == w.numbers;
  }

  /**
   * Every item of a described episode map is one of the series' own listed
   * episodes, with a title and a rating, at its own season and number.
   */
  lemma DescribedItemsListed(d: SeriesDetails, series: map<Id, SeriesEntry>, eps: map<Id, EpisodeEntry>,
                             season: int, number: int)
    requires Describes(d, series, eps)
    requires season in d.episodeMap && number in d.episodeMap[season]
    ensures var item := d.episodeMap[season][number];
      item.id in series[d.id].episodes && item.id in eps && ShownAt(eps[item.id], season, number)
      && item == ItemOf(item.id, eps[item.id])
  {
    assert Slot(d.episodeMap, season, number) == LastShownAt(series[d.id].episodes, eps, season, number);
    LastShownAtListed(series[d.id].episodes, eps, season, number);
  }

  /** Every listed episode with a title and a rating has its slot filled in a described episode map. */
  lemma DescribedShownPlaced(d: SeriesDetails, series: map<Id, SeriesEntry>, eps: map<Id, EpisodeEntry>, id: Id)
    requires Describes(d, series, eps)
    requires id in series[d.id].episodes && Shown(eps[id])
    ensures eps[id].seasonNumber.value in d.episodeMap
      && eps[id].episodeNumber.value in d.episodeMap[eps[id].seasonNumber.value]
  {
    var season, number := eps[id].seasonNumber.value, eps[id].episodeNumber.value;
    assert Slot(d.episodeMap, season, number) == LastShownAt(series[d.id].episodes, eps, season, number);
    LastShownAtListed(series[d.id].episodes, eps, season, number);
  }

  /**
   * Every emitted details record carries its series' basics and rating, its
   * genres, ascending duplicate-free indexes of the season and episode numbers
   * of all its listed episodes (shown or not), a season entry for each of
   * those seasons, and at every season and number the item of the last listed
   * episode shown there, and nothing where none is.
   */
  lemma {:induction false} AssembleDescribes(order: seq<Id>, series: map<Id, SeriesEntry>, eps: map<Id, EpisodeEntry>)
    requires forall k :: k in order ==> k in series
    requires Assemble(order, series, eps).Some?
    ensures forall d :: d in Assemble(order, series, eps).value.details ==> Describes(d, series, eps)
    decreases |order|
  {
    if order != [] {
      var s := series[order[0]];
      if Qualifies(s) {
        var w := WalkEpisodes(s.episodes, Start(eps)).value;
        WalkConsumes(s.episodes, Start(eps));
        DetailsDescribe(order[0], series, eps);
        AssembleDescribes(order[1..], series, w.rest);
        forall d | d in Assemble(order[1..], series, w.rest).value.details
          ensures Describes(d, series, eps)
        {
          DescribesLift(d, series, w.rest, eps);
        }
      } else {
        AssembleDescribes(order[1..], series, eps);
      }
    }
  }
}
