/**
 * The walk over one series' episode list during generation: every listed
 * episode adds its season and episode number to the index sets and creates
 * its season in the episode map; a titled, rated episode is also placed in
 * the map; and every visited episode is removed from the episode dictionary.
 */
module EpisodeWalk {
  import opened Options
  import opened Records
  import opened ImdbData

  /** The elements of a sequence. */
  function Elems<T>(s: seq<T>): set<T>
  {
    set x | x in s
  }

  /** `a` agrees with `b` on every key of `a`. */
  ghost predicate SubMap<K, V>(a: map<K, V>, b: map<K, V>)
  {
    forall k :: k in a ==> k in b && a[k] == b[k]
  }

  /** The walk's state: the two index sets, the episode map and what is left of the episode dictionary. */
  datatype Walk = Walk(seasons: set<int>, numbers: set<int>, episodeMap: EpisodeMap, rest: map<Id, EpisodeEntry>)

  /** The walk at the start of a series. */
  function Start(eps: map<Id, EpisodeEntry>): Walk
  {
    Walk({}, {}, map[], eps)
  }

  /** The episode is shown in the map: it has a non-empty title and a rating. */
  predicate Shown(e: EpisodeEntry)
  {
    Truthy(e.Title()) && e.rating.Some?
  }

  /** The entry of the episode map for a shown episode. */
  function ItemOf(id: Id, e: EpisodeEntry): EpisodeItem
    requires Shown(e)
  {
    EpisodeItem(id, e.Title().value, e.rating.value.averageRating, e.rating.value.numVotes)
  }

  /**
   * One step of the walk. `None` where the source fails: the episode was
   * already removed (it was listed twice), or, outside what the handlers can
   * build, its numbers are unknown.
   */
  function Visit(id: Id, w: Walk): Option<Walk>
  {
    if id !in w.rest || !w.rest[id].Placed() then None
    else
      var e := w.rest[id];
      var s := e.seasonNumber.value;
      var n := e.episodeNumber.value;
      var m := if s in w.episodeMap then w.episodeMap else w.episodeMap[s := map[]];
      var m' := if Shown(e) then m[s := m[s][n := ItemOf(id, e)]] else m;
      Some(Walk(w.seasons + {s}, w.numbers + {n}, m', w.rest - {id}))
  }

  /** The walk over a list of episode ids, in list order. */
  function WalkEpisodes(ids: seq<Id>, w: Walk): Option<Walk>
    decreases |ids|
  {
    if ids == [] then Some(w)
    else
      match Visit(ids[0], w)
      case None => None
      case Some(w') => WalkEpisodes(ids[1..], w')
  }

  /** The season numbers of the listed, placed episodes of `eps`. */
  ghost function SeasonNumbers(ids: seq<Id>, eps: map<Id, EpisodeEntry>): set<int>
  {
    set id | id in ids && id in eps && eps[id].Placed() :: eps[id].seasonNumber.value
  }

  /** The episode numbers of the listed, placed episodes of `eps`. */
  ghost function EpisodeNumbers(ids: seq<Id>, eps: map<Id, EpisodeEntry>): set<int>
  {
    set id | id in ids && id in eps && eps[id].Placed() :: eps[id].episodeNumber.value
  }

  /** Episode `e` has a title and a rating and is numbered season `s`, episode `n`. */
  predicate ShownAt(e: EpisodeEntry, s: int, n: int)
  {
    e.seasonNumber == Some(s) && e.episodeNumber == Some(n) && Shown(e)
  }

  /** What the episode map holds at season `s`, episode `n`, if anything. */
  function Slot(m: EpisodeMap, s: int, n: int): Option<EpisodeItem>
  {
    if s in m && n in m[s] then Some(m[s][n]) else None
  }

  /**
   * The item that listing `ids` puts at season `s`, episode `n`: that of the
   * last listed episode shown there, since a later one overwrites an earlier
   * one; `None` when no listed episode is shown there.
   */
  function LastShownAt(ids: seq<Id>, eps: map<Id, EpisodeEntry>, s: int, n: int): Option<EpisodeItem>
    decreases |ids|
  {
    if ids == [] then None
    else
      var later := LastShownAt(ids[1..], eps, s, n);
      if later.Some? then later
      else if ids[0] in eps && ShownAt(eps[ids[0]], s, n) then Some(ItemOf(ids[0], eps[ids[0]]))
      else None
  }

  /** Listing one more episode: it takes the slot if it is shown there, otherwise the slot is as before. */
  lemma {:induction false} LastShownAtSnoc(ids: seq<Id>, id: Id, eps: map<Id, EpisodeEntry>, s: int, n: int)
    ensures LastShownAt(ids + [id], eps, s, n)
      == if id in eps && ShownAt(eps[id], s, n) then Some(ItemOf(id, eps[id])) else LastShownAt(ids, eps, s, n)
    decreases |ids|
  {
    if ids == [] {
      assert [id][1..] == [];
    } else {
      assert (ids + [id])[1..] == ids[1..] + [id];
      LastShownAtSnoc(ids[1..], id, eps, s, n);
    }
  }

  /**
   * The slot holds an item exactly when some listed episode is shown there,
   * and the item is that of a listed episode shown there.
   */
  lemma {:induction false} LastShownAtListed(ids: seq<Id>, eps: map<Id, EpisodeEntry>, s: int, n: int)
    ensures forall id :: id in ids && id in eps && ShownAt(eps[id], s, n) ==> LastShownAt(ids, eps, s, n).Some?
    ensures LastShownAt(ids, eps, s, n).Some? ==>
      var item := LastShownAt(ids, eps, s, n).value;
      item.id in ids && item.id in eps && ShownAt(eps[item.id], s, n) && item == ItemOf(item.id, eps[item.id])
    decreases |ids|
  {
    if ids != [] {
      LastShownAtListed(ids[1..], eps, s, n);
      assert forall id :: id in ids <==> id == ids[0] || id in ids[1..];
    }
  }

  /** Only the listed episodes matter: a dictionary that agrees on them gives the same slots. */
  lemma {:induction false} LastShownAtAgree(ids: seq<Id>, a: map<Id, EpisodeEntry>, b: map<Id, EpisodeEntry>, s: int, n: int)
    requires forall id :: id in ids ==> (id in a <==> id in b) && (id in a ==> a[id] == b[id])
    ensures LastShownAt(ids, a, s, n) == LastShownAt(ids, b, s, n)
    decreases |ids|
  {
    if ids != [] {
      assert ids[0] in ids;
      LastShownAtAgree(ids[1..], a, b, s, n);
    }
  }

  /** Removing the first element keeps a list duplicate-free exactly when that element does not come back. */
  lemma DistinctCons<T>(s: seq<T>)
    requires s != []
    ensures Distinct(s) <==> Distinct(s[1..]) && s[0] !in s[1..]
  {
    if Distinct(s[1..]) && s[0] !in s[1..] {
      forall i, j | 0 <= i < j < |s|
        ensures s[i] != s[j]
      {
        if i == 0 {
          assert s[j] == s[1..][j - 1];
        } else {
          assert s[i] == s[1..][i - 1] && s[j] == s[1..][j - 1];
        }
      }
    }
    if Distinct(s) {
      forall i, j | 0 <= i < j < |s[1..]|
        ensures s[1..][i] != s[1..][j]
      {
        assert s[1..][i] == s[i + 1] && s[1..][j] == s[j + 1];
      }
      forall j | 0 <= j < |s[1..]|
        ensures s[1..][j] != s[0]
      {
        assert s[1..][j] == s[j + 1];
      }
    }
  }

  /**
   * The walk succeeds exactly when no id is listed twice and every listed id
   * is still in the dictionary; otherwise the source fails on the missing entry.
   */
  lemma {:induction false} WalkSucceedsIff(ids: seq<Id>, w: Walk)
    requires forall id :: id in ids && id in w.rest ==> w.rest[id].Placed()
    ensures WalkEpisodes(ids, w).Some? <==> Distinct(ids) && forall id :: id in ids ==> id in w.rest
    decreases |ids|
  {
    if ids != [] {
      DistinctCons(ids);
      if ids[0] in w.rest {
        var w' := Visit(ids[0], w).value;
        WalkSucceedsIff(ids[1..], w');
        assert forall id :: id in ids <==> id == ids[0] || id in ids[1..];
      }
    }
  }

  /** A successful walk removes exactly the listed episodes, each of which was present. */
  lemma {:induction false} WalkConsumes(ids: seq<Id>, w: Walk)
    requires WalkEpisodes(ids, w).Some?
    ensures forall id :: id in ids ==> id in w.rest && w.rest[id].Placed()
    ensures WalkEpisodes(ids, w).value.rest == w.rest - Elems(ids)
    decreases |ids|
  {
    if ids != [] {
      var w' := Visit(ids[0], w).value;
      WalkConsumes(ids[1..], w');
      assert forall id :: id in ids <==> id == ids[0] || id in ids[1..];
      assert Elems(ids) == {ids[0]} + Elems(ids[1..]);
    }
  }

  /** One visited episode accounts for the first id's numbers; the rest come from the remaining list. */
  lemma NumbersStep(ids: seq<Id>, eps: map<Id, EpisodeEntry>)
    requires ids != [] && ids[0] in eps && eps[ids[0]].Placed()
    ensures SeasonNumbers(ids, eps) == {eps[ids[0]].seasonNumber.value} + SeasonNumbers(ids[1..], eps - {ids[0]})
    ensures EpisodeNumbers(ids, eps) == {eps[ids[0]].episodeNumber.value} + EpisodeNumbers(ids[1..], eps - {ids[0]})
  {
    assert forall id :: id in ids <==> id == ids[0] || id in ids[1..];
  }

  /**
   * The index sets of a successful walk are the season and episode numbers
   * of all listed episodes, titled or not, and every one of those seasons
   * has an entry in the map.
   */
  lemma {:induction false} WalkIndexes(ids: seq<Id>, w: Walk)
    requires WalkEpisodes(ids, w).Some?
    ensures WalkEpisodes(ids, w).value.seasons == w.seasons + SeasonNumbers(ids, w.rest)
    ensures WalkEpisodes(ids, w).value.numbers == w.numbers + EpisodeNumbers(ids, w.rest)
    ensures WalkEpisodes(ids, w).value.episodeMap.Keys == w.episodeMap.Keys + SeasonNumbers(ids, w.rest)
    decreases |ids|
  {
    if ids != [] {
      var w' := Visit(ids[0], w).value;
      WalkIndexes(ids[1..], w');
      NumbersStep(ids, w.rest);
    }
  }

  /** A visit puts the visited episode's item at its slot when it is shown, and leaves every other slot alone. */
  lemma VisitSlot(id: Id, w: Walk, s: int, n: int)
    requires Visit(id, w).Some?
    ensures Slot(Visit(id, w).value.episodeMap, s, n)
      == if ShownAt(w.rest[id], s, n) then Some(ItemOf(id, w.rest[id])) else Slot(w.episodeMap, s, n)
  {
  }

  /**
   * After a successful walk every slot holds the item of the last listed
   * episode shown there, and a slot no listed episode is shown at is as it
   * was before the walk.
   */
  lemma {:induction false} WalkSlots(ids: seq<Id>, w: Walk, s: int, n: int)
    requires WalkEpisodes(ids, w).Some?
    ensures Slot(WalkEpisodes(ids, w).value.episodeMap, s, n)
      == if LastShownAt(ids, w.rest, s, n).Some? then LastShownAt(ids, w.rest, s, n) else Slot(w.episodeMap, s, n)
    decreases |ids|
  {
    if ids != [] {
      var id := ids[0];
      var w' := Visit(id, w).value;
      WalkSlots(ids[1..], w', s, n);
      VisitSlot(id, w, s, n);
      WalkConsumes(ids[1..], w');
      LastShownAtAgree(ids[1..], w'.rest, w.rest, s, n);
    }
  }
}
