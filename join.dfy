/**
  The last stage of the handler (lines 138-156 of index.js): the selected
  ids are re-fetched from the film table, and each film found is joined with
  the first qualifying review entry for its id into one recommendation.
 */
module Join {
  import opened Wrappers
  import opened Seqs
  import opened Catalog
  import opened Reviews

  /** One element of the `recommendations` array of the answer. */
  datatype Recommendation = Recommendation(
    id: int,
    title: string,
    releaseDate: Date,
    genre: string,
    averageRating: real,
    reviews: nat)

  /**
    The reason a stage of the promise chain throws, so that its `catch`
    answers with status 500: `film.genre_id` on a missing film,
    `genre.name` on a missing genre, `filmDetailsAboveFourRaiting[0].film_id`
    when no entry matches a re-fetched film.
   */
  datatype Fault = FilmNotFound | GenreNotFound | NoReviewEntry

  /** `element => element.film_id == film.id` for a film with id `id`. */
  function ForFilm(id: int): RatedEntry -> bool {
    (e: RatedEntry) => e.entry.filmId == id
  }

  /** Line 145: the qualifying entries for a film, in the service's order. */
  function EntriesFor(q: seq<RatedEntry>, id: int): seq<RatedEntry> {
    Filter(q, ForFilm(id))
  }

  /** The object literal of lines 148-155, with the average left unrounded. */
  function Record(f: Film, e: RatedEntry, g: Genre): Recommendation {
    Recommendation(e.entry.filmId, f.title, f.releaseDate, g.name, e.averageRating, |e.entry.reviews|)
  }

  /**
    `recommendedFilms.map(...)`: the records in the order of `films`, or the
    fault of the first film whose record cannot be built. Within one record
    `id` is evaluated before `genre`, so a film without an entry fails with
    `NoReviewEntry` even when the genre is missing too.
   */
  function BuildRecommendations(films: seq<Film>, q: seq<RatedEntry>, genre: Option<Genre>): Result<seq<Recommendation>, Fault> {
    if |films| == 0 then Success([])
    else
      var matches := EntriesFor(q, films[0].id);
      if |matches| == 0 then Failure(NoReviewEntry)
      else if genre.None? then Failure(GenreNotFound)
      else match BuildRecommendations(films[1..], q, genre) {
        case Failure(fault) => Failure(fault)
        case Success(rest) => Success([Record(films[0], matches[0], genre.value)] + rest)
      }
  }

  /**
    `rec` is the record of film `f`: its id, title and release date, the
    genre's name, and the review count and average of the first qualifying
    entry for `f`.
   */
  ghost predicate Describes(rec: Recommendation, f: Film, q: seq<RatedEntry>, g: Genre) {
    && rec.id == f.id && rec.title == f.title && rec.releaseDate == f.releaseDate
    && rec.genre == g.name
    && exists k :: FirstSatisfying(q, ForFilm(f.id), k) && FromEntry(rec, q[k])
  }

  /** `rec` carries the review count and the average of rated entry `e`. */
  predicate FromEntry(rec: Recommendation, e: RatedEntry) {
    rec.averageRating == e.averageRating && rec.reviews == |e.entry.reviews|
  }

  /** `rec` shows the id, title and release date of stored film `f`. */
  predicate ShowsFilm(rec: Recommendation, f: Film) {
    f.id == rec.id && f.title == rec.title && f.releaseDate == rec.releaseDate
  }

  /**
    `rec` carries the id, the review count and the exact average of review
    entry `e`, which has at least five reviews and an average above 4.
   */
  predicate RatedBy(rec: Recommendation, e: ReviewEntry) {
    && e.filmId == rec.id && |e.reviews| == rec.reviews && rec.reviews >= MinReviews
    && rec.averageRating == Average(e.reviews) && rec.averageRating > RatingFloor
  }

  /** A film has an entry exactly when its id is among the qualifying ids. */
  lemma {:induction false} EntriesForNonEmptyIff(q: seq<RatedEntry>, id: int)
    ensures |EntriesFor(q, id)| > 0 <==> id in FilmIds(q)
  {
    var m := EntriesFor(q, id);
    if |m| > 0 {
      assert m[0] in m;
      var k :| 0 <= k < |q| && q[k] == m[0];
      assert FilmIds(q)[k] == id;
    }
    if id in FilmIds(q) {
      var k :| 0 <= k < |q| && FilmIds(q)[k] == id;
      assert q[k] in q && ForFilm(id)(q[k]);
      assert q[k] in m;
    }
  }

  /**
    The records are built exactly when every film has a qualifying entry and
    the genre was found (or there is no film). A failure is `NoReviewEntry`
    when the genre exists and `GenreNotFound` when every film has an entry.
   */
  lemma {:induction false} BuildRecommendationsOutcome(films: seq<Film>, q: seq<RatedEntry>, genre: Option<Genre>)
    ensures BuildRecommendations(films, q, genre).Success? <==>
      (forall f :: f in films ==> f.id in FilmIds(q)) && (|films| == 0 || genre.Some?)
    ensures BuildRecommendations(films, q, genre).Failure? && genre.Some? ==>
      BuildRecommendations(films, q, genre).error == NoReviewEntry
    ensures BuildRecommendations(films, q, genre).Failure? && (forall f :: f in films ==> f.id in FilmIds(q)) ==>
      BuildRecommendations(films, q, genre).error == GenreNotFound
  {
    if |films| > 0 {
      var f := films[0];
      EntriesForNonEmptyIff(q, f.id);
      BuildRecommendationsOutcome(films[1..], q, genre);
      assert forall g :: g in films <==> g == f || g in films[1..] by {
        assert films == [f] + films[1..];
      }
    }
  }

  /**
    Built records come one per film, in the films' order, each describing
    its film with the first qualifying entry for it.
   */
  lemma {:induction false} BuildRecommendationsRecords(films: seq<Film>, q: seq<RatedEntry>, genre: Option<Genre>)
    requires BuildRecommendations(films, q, genre).Success?
    ensures |films| > 0 ==> genre.Some?
    ensures var rs := BuildRecommendations(films, q, genre).value;
      |rs| == |films| && forall i :: 0 <= i < |films| ==> Describes(rs[i], films[i], q, genre.value)
  {
    if |films| > 0 {
      var f := films[0];
      var m := EntriesFor(q, f.id);
      var tail := BuildRecommendations(films[1..], q, genre);
      assert |m| > 0 && genre.Some? && tail.Success?;
      BuildRecommendationsRecords(films[1..], q, genre);
      FilterHeadIsFirst(q, ForFilm(f.id));
      var k :| FirstSatisfying(q, ForFilm(f.id), k) && q[k] == m[0];
      var rs := BuildRecommendations(films, q, genre).value;
      assert rs == [Record(f, m[0], genre.value)] + tail.value;
      assert q[k].entry.filmId == f.id && FromEntry(rs[0], q[k]);
      assert Describes(rs[0], f, q, genre.value);
      forall i | 0 < i < |films| ensures Describes(rs[i], films[i], q, genre.value) {
        assert rs[i] == tail.value[i - 1] && films[i] == films[1..][i - 1];
      }
    }
  }

  /** Lines 128-130: the ids the handler re-fetches. */
  function Selected(es: seq<ReviewEntry>): seq<int> {
    SelectIds(FilmIds(Qualifying(es)))
  }

  /**
    Lines 138-156: the selected films re-fetched from the store and joined
    with the qualifying entries.
   */
  function RecommendFrom(films: seq<Film>, es: seq<ReviewEntry>, genre: Option<Genre>): Result<seq<Recommendation>, Fault> {
    BuildRecommendations(Refetch(films, Selected(es)), Qualifying(es), genre)
  }

  /**
    Every re-fetched film has a qualifying entry, since its id was selected
    from the qualifying ids: the join never fails for want of an entry, only
    for a missing genre, and then only when some film was re-fetched.
   */
  lemma {:induction false} JoinNeverMissesEntry(films: seq<Film>, es: seq<ReviewEntry>, genre: Option<Genre>)
    ensures RecommendFrom(films, es, genre).Success? <==> genre.Some? || |Refetch(films, Selected(es))| == 0
    ensures RecommendFrom(films, es, genre).Failure? ==> RecommendFrom(films, es, genre).error == GenreNotFound
  {
    var ids := Selected(es);
    var fetched := Refetch(films, ids);
    var q := Qualifying(es);
    RefetchSpec(films, ids);
    SelectIdsSpec(FilmIds(q));
    BuildRecommendationsOutcome(fetched, q, genre);
    assert forall f :: f in fetched ==> f.id in FilmIds(q);
  }

  /**
    Each recommendation is a stored film whose id was selected, with the
    target's genre name, and the review count and exact average of a
    qualifying entry for it: at least five reviews, average above 4.
   */
  lemma {:induction false} RecommendationsAreQualified(films: seq<Film>, es: seq<ReviewEntry>, g: Genre)
    requires RecommendFrom(films, es, Some(g)).Success?
    ensures forall rec :: rec in RecommendFrom(films, es, Some(g)).value ==>
      && rec.id in Selected(es)
      && rec.genre == g.name
      && (exists f :: f in films && ShowsFilm(rec, f))
      && (exists e :: e in es && RatedBy(rec, e))
  {
    var ids := Selected(es);
    var fetched := Refetch(films, ids);
    var q := Qualifying(es);
    var rs := RecommendFrom(films, es, Some(g)).value;
    RefetchSpec(films, ids);
    BuildRecommendationsRecords(fetched, q, Some(g));
    forall rec | rec in rs
      ensures rec.id in ids && rec.genre == g.name
      ensures exists f :: f in films && ShowsFilm(rec, f)
      ensures exists e :: e in es && RatedBy(rec, e)
    {
      var i :| 0 <= i < |rs| && rs[i] == rec;
      var f := fetched[i];
      assert f in fetched && Describes(rec, f, q, g);
      var k :| FirstSatisfying(q, ForFilm(f.id), k) && FromEntry(rec, q[k]);
      assert q[k] in q;
      QualifyingSound(es, q[k]);
      AverageAboveIff(q[k].entry.reviews, RatingFloor);
      assert ForFilm(f.id)(q[k]);
      assert ShowsFilm(rec, f);
      assert RatedBy(rec, q[k].entry);
    }
  }

  /**
    With unique film ids the answer holds at most ten recommendations, in
    strictly ascending id order.
   */
  lemma {:induction false} RecommendationsBoundedAndOrdered(films: seq<Film>, es: seq<ReviewEntry>, genre: Option<Genre>)
    requires UniqueIds(films)
    requires RecommendFrom(films, es, genre).Success?
    ensures |RecommendFrom(films, es, genre).value| <= MaxRecommendations
    ensures forall i, j :: 0 <= i < j < |RecommendFrom(films, es, genre).value| ==>
      RecommendFrom(films, es, genre).value[i].id < RecommendFrom(films, es, genre).value[j].id
  {
    var ids := Selected(es);
    var fetched := Refetch(films, ids);
    var q := Qualifying(es);
    var rs := RecommendFrom(films, es, genre).value;
    RefetchSpec(films, ids);
    SelectIdsSpec(FilmIds(q));
    BuildRecommendationsRecords(fetched, q, genre);
    forall i, j | 0 <= i < j < |rs| ensures rs[i].id < rs[j].id {
      assert Describes(rs[i], fetched[i], q, genre.value) && Describes(rs[j], fetched[j], q, genre.value);
    }
  }
}
