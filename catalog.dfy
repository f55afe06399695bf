/**
  The film store as the handler queries it: film and genre records (the
  `film` and `genre` tables), lookup by primary key, the candidate query
  over a release-date window, and the final re-fetch of films by id.
 */
module Catalog {
  import opened Wrappers
  import opened Seqs
  import JsText

  /** A calendar date as (year, month, day), compared in that order. */
  datatype Date = Date(year: int, month: int, day: int)

  predicate DateLe(a: Date, b: Date) {
    || a.year < b.year
    || (a.year == b.year && (a.month < b.month || (a.month == b.month && a.day <= b.day)))
  }

  /** The columns of a film row that the handler reads. */
  datatype Film = Film(id: int, title: string, releaseDate: Date, genreId: int)

  datatype Genre = Genre(id: int, name: string)

  datatype Store = Store(films: seq<Film>, genres: seq<Genre>)

  function FilmId(f: Film): int { f.id }

  /** `id` is the primary key of the film table. */
  predicate UniqueIds(films: seq<Film>) {
    DistinctBy(films, FilmId)
  }

  predicate IdLe(a: Film, b: Film) { a.id <= b.id }

  lemma {:induction false} IdLeTotalPreorder()
    ensures TotalPreorder(IdLe)
  {
  }

  /** `ORDER BY id`. */
  function OrderById(films: seq<Film>): seq<Film> {
    SortBy(films, IdLe)
  }

  /**
    `Film.findById(key)` with the raw path text as key: the row whose id is
    written `key`, or null.
   */
  function FindFilm(films: seq<Film>, key: string): (r: Option<Film>)
    ensures r.Some? ==> r.value in films && JsText.Decimal(r.value.id) == key
    ensures r.None? ==> forall f :: f in films ==> JsText.Decimal(f.id) != key
  {
    if |films| == 0 then None
    else if JsText.Decimal(films[0].id) == key then Some(films[0])
    else FindFilm(films[1..], key)
  }

  /** A film whose id is `n` is found under the key `String(n)`. */
  lemma {:induction false} FindFilmByDecimal(films: seq<Film>, f: Film)
    requires UniqueIds(films) && f in films
    ensures FindFilm(films, JsText.Decimal(f.id)) == Some(f)
  {
    var r := FindFilm(films, JsText.Decimal(f.id));
    assert r.Some?;
    JsText.DecimalInjective(r.value.id, f.id);
    var i :| 0 <= i < |films| && films[i] == f;
    var j :| 0 <= j < |films| && films[j] == r.value;
    assert FilmId(films[i]) == FilmId(films[j]);
    assert i == j;
  }

  /** `Genre.findById(id)`: the genre row with that id, or null. */
  function FindGenre(genres: seq<Genre>, id: int): (r: Option<Genre>)
    ensures r.Some? ==> r.value in genres && r.value.id == id
    ensures r.None? ==> forall g :: g in genres ==> g.id != id
  {
    if |genres| == 0 then None
    else if genres[0].id == id then Some(genres[0])
    else FindGenre(genres[1..], id)
  }

  const WindowYears := 15

  /** `d.setFullYear(d.getFullYear() + k)`: month and day are kept. */
  function ShiftYears(d: Date, k: int): (r: Date)
    ensures r.year == d.year + k && r.month == d.month && r.day == d.day
  {
    d.(year := d.year + k)
  }

  function WindowStart(release: Date): Date { ShiftYears(release, -WindowYears) }

  function WindowEnd(release: Date): Date { ShiftYears(release, WindowYears) }

  /** `release_date BETWEEN start AND end`, both ends included. */
  predicate Between(d: Date, start: Date, end: Date) {
    DateLe(start, d) && DateLe(d, end)
  }

  /**
    The query of lines 90-98: films of genre `genreId` released between
    `start` and `end`, ordered by id.
   */
  function Candidates(films: seq<Film>, genreId: int, start: Date, end: Date): seq<Film> {
    OrderById(InGenreAndWindow(films, genreId, start, end))
  }

  /** The `where` clause of the candidate query, before ordering. */
  function InGenreAndWindow(films: seq<Film>, genreId: int, start: Date, end: Date): seq<Film> {
    Filter(films, (f: Film) => f.genreId == genreId && Between(f.releaseDate, start, end))
  }

  /** The release-date test of the candidate query, stated with years alone. */
  lemma {:induction false} InWindowIff(d: Date, release: Date)
    ensures Between(d, WindowStart(release), WindowEnd(release)) <==>
      || (release.year - WindowYears < d.year < release.year + WindowYears)
      || (d.year == release.year - WindowYears &&
          (d.month > release.month || (d.month == release.month && d.day >= release.day)))
      || (d.year == release.year + WindowYears &&
          (d.month < release.month || (d.month == release.month && d.day <= release.day)))
  {
  }

  /**
    A film is a candidate exactly when it is in the store, has the genre and
    lies in the window; the candidates come ordered by id, and with unique
    ids strictly ascending.
   */
  lemma {:induction false} CandidatesSpec(films: seq<Film>, genreId: int, start: Date, end: Date)
    ensures forall f :: f in Candidates(films, genreId, start, end) <==>
      f in films && f.genreId == genreId && Between(f.releaseDate, start, end)
    ensures SortedBy(Candidates(films, genreId, start, end), IdLe)
    ensures UniqueIds(films) ==> StrictlyAscending(Candidates(films, genreId, start, end))
  {
    var kept := InGenreAndWindow(films, genreId, start, end);
    var c := OrderById(kept);
    forall f ensures f in c <==> f in kept {
      assert f in c <==> f in multiset(c);
      assert f in kept <==> f in multiset(kept);
    }
    IdLeTotalPreorder();
    SortBySorted(kept, IdLe);
    if UniqueIds(films) {
      SubsequenceKeepsDistinct(kept, films, FilmId);
      SortByKeepsDistinct(kept, IdLe, FilmId);
      AscendingFromDistinct(c);
    }
  }

  /** The target film is always among its own candidates. */
  lemma {:induction false} TargetIsCandidate(films: seq<Film>, target: Film)
    requires target in films
    ensures target in Candidates(films, target.genreId,
      WindowStart(target.releaseDate), WindowEnd(target.releaseDate))
  {
    CandidatesSpec(films, target.genreId, WindowStart(target.releaseDate), WindowEnd(target.releaseDate));
  }

  predicate StrictlyAscending(films: seq<Film>) {
    forall i, j :: 0 <= i < j < |films| ==> films[i].id < films[j].id
  }

  lemma {:induction false} AscendingFromDistinct(films: seq<Film>)
    requires SortedBy(films, IdLe) && UniqueIds(films)
    ensures StrictlyAscending(films)
  {
    forall i, j | 0 <= i < j < |films| ensures films[i].id < films[j].id {
      assert IdLe(films[i], films[j]);
      assert FilmId(films[i]) != FilmId(films[j]);
    }
  }

  /**
    The re-fetch of lines 138-142: the films whose id is among `ids`,
    ordered by id (only id, title and release date are read from them).
   */
  function Refetch(films: seq<Film>, ids: seq<int>): seq<Film> {
    OrderById(WithIdIn(films, ids))
  }

  /** The `where: {id: {in: ids}}` clause, before ordering. */
  function WithIdIn(films: seq<Film>, ids: seq<int>): seq<Film> {
    Filter(films, (f: Film) => f.id in ids)
  }

  /**
    The re-fetched films are exactly the stored films with a requested id,
    in ascending id order; with unique ids there is at most one per
    requested id, so never more films than ids.
   */
  lemma {:induction false} RefetchSpec(films: seq<Film>, ids: seq<int>)
    ensures forall f :: f in Refetch(films, ids) <==> f in films && f.id in ids
    ensures SortedBy(Refetch(films, ids), IdLe)
    ensures UniqueIds(films) ==> StrictlyAscending(Refetch(films, ids)) && UniqueIds(Refetch(films, ids))
    ensures UniqueIds(films) ==> |Refetch(films, ids)| <= |ids|
  {
    var kept := WithIdIn(films, ids);
    var r := OrderById(kept);
    forall f ensures f in r <==> f in kept {
      assert f in r <==> f in multiset(r);
      assert f in kept <==> f in multiset(kept);
    }
    IdLeTotalPreorder();
    SortBySorted(kept, IdLe);
    if UniqueIds(films) {
      SubsequenceKeepsDistinct(kept, films, FilmId);
      SortByKeepsDistinct(kept, IdLe, FilmId);
      AscendingFromDistinct(r);
      DistinctBound(r, FilmId, ids);
    }
  }
}
