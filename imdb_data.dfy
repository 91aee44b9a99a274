/**
 * The records of the IMDb series pipeline: the typed rows of the three
 * datasets (with `\N` read as `None`), the entries of the two in-memory
 * dictionaries, and the records written out.
 */
module ImdbData {
  import opened Options
  import opened Strings

  /** An alphanumeric title identifier (`tconst`), such as `tt0386676`. */
  type Id = string

  /** The `TitleType` values the pipeline reacts to. */
  const TvEpisode := "tvEpisode"
  const TvMiniSeries := "tvMiniSeries"
  const TvSeries := "tvSeries"

  /** A row of `title.episode`: an episode, its series, and its place in it. */
  datatype EpisodeRow = EpisodeRow(tconst: Id, parentTconst: Id, seasonNumber: Option<int>, episodeNumber: Option<int>)

  /** A row of `title.ratings`. The average rating is carried, never computed with. */
  datatype RatingRow = RatingRow(tconst: Id, averageRating: real, numVotes: int)

  /** A row of `title.basics`, restricted to the columns the pipeline reads. */
  datatype BasicsRow = BasicsRow(
    tconst: Id,
    titleType: string,
    primaryTitle: Option<string>,
    startYear: Option<int>,
    endYear: Option<int>,
    runtimeMinutes: Option<int>,
    isAdult: int,
    genres: Option<string>)

  /** The title fields kept for a series or an episode (`pT`, `sY`, `eY`, `rM`, `iA`, `g`). */
  datatype Basics = Basics(
    primaryTitle: Option<string>,
    startYear: Option<int>,
    endYear: Option<int>,
    runtimeMinutes: Option<int>,
    isAdult: int,
    genres: Option<string>)

  /** The rating fields kept (`aR`, `nV`). */
  datatype Rating = Rating(averageRating: real, numVotes: int)

  /** A value of `seriesDictionary`: basics and rating once seen, and the linked episodes in link order. */
  datatype SeriesEntry = SeriesEntry(basics: Option<Basics>, rating: Option<Rating>, episodes: seq<Id>)

  /**
   * A value of `episodeDictionary`. The numbers are absent only for an entry
   * that a `tvEpisode` basics row created for an id that was not an episode.
   */
  datatype EpisodeEntry = EpisodeEntry(
    seasonNumber: Option<int>,
    episodeNumber: Option<int>,
    basics: Option<Basics>,
    rating: Option<Rating>)
  {
    /** Both numbers are known. */
    predicate Placed()
    {
      seasonNumber.Some? && episodeNumber.Some?
    }

    /** The episode's `pT`, `undefined` when no basics were merged in. */
    function Title(): Option<string>
    {
      if basics.Some? then basics.value.primaryTitle else None
    }
  }

  /** An element of `search.json`: `{id, pT, sY}`. */
  datatype SearchItem = SearchItem(id: Id, primaryTitle: Option<string>, startYear: Option<int>)

  /** An episode inside a series' episode map: `{id, pT, aR, nV}`. */
  datatype EpisodeItem = EpisodeItem(id: Id, primaryTitle: string, averageRating: real, numVotes: int)

  /** `eM`: season number to episode number to episode. */
  type EpisodeMap = map<int, map<int, EpisodeItem>>

  /** The content of `<id>.json`, in the field order the source builds it. */
  datatype SeriesDetails = SeriesDetails(
    id: Id,
    primaryTitle: Option<string>,
    startYear: Option<int>,
    runtimeMinutes: Option<int>,
    endYear: Option<int>,
    isAdult: int,
    averageRating: real,
    numVotes: int,
    genres: seq<string>,
    seasonsIndex: seq<int>,
    episodeIndex: seq<int>,
    episodeMap: EpisodeMap)

  /** `titleType` is `tvSeries` or `tvMiniSeries`. */
  predicate IsSeriesType(titleType: string)
  {
    titleType == TvSeries || titleType == TvMiniSeries
  }

  /** The basics a row carries. */
  function BasicsOf(row: BasicsRow): Basics
  {
    Basics(row.primaryTitle, row.startYear, row.endYear, row.runtimeMinutes, row.isAdult, row.genres)
  }

  /** A title is truthy in JavaScript when it is present and not the empty string. */
  predicate Truthy(title: Option<string>)
  {
    title.Some? && title.value != ""
  }

  /** `g`: the comma-separated genres split apart, or `[]` when the field is empty or null. */
  function Genres(genres: Option<string>): (r: seq<string>)
    ensures Truthy(genres) ==> |r| >= 1 && forall k :: 0 <= k < |r| ==> ',' !in r[k]
    ensures !Truthy(genres) ==> r == []
  {
    if Truthy(genres) then Split(genres.value, ',') else []
  }

  /** Nothing of the genres field is lost: its genres joined by commas give it back. */
  lemma GenresRejoin(genres: Option<string>)
    requires Truthy(genres)
    ensures Join(Genres(genres), ",") == genres.value
  {
    JoinSplit(genres.value, ',');
  }
}
