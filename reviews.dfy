/**
  What the handler computes from the review service's answer (lines
  107-130 of index.js): entries with too few reviews are dropped, each
  survivor gets its average rating, entries averaging 4 or less are dropped,
  and the ids of the rest are sorted the way `.sort()` sorts numbers (as
  text) and cut to the first ten.
 */
module Reviews {
  import opened Seqs
  import JsText

  datatype Review = Review(rating: real)

  /** One element of the parsed JSON array: `{film_id, reviews}`. */
  datatype ReviewEntry = ReviewEntry(filmId: int, reviews: seq<Review>)

  /** An entry after line 118 has given it its `average_rating` field. */
  datatype RatedEntry = RatedEntry(entry: ReviewEntry, averageRating: real)

  const MinReviews := 5
  const RatingFloor := 4.0
  const MaxRecommendations := 10

  /** `reviews.reduce((sum, val) => sum + val.rating, 0)`, left to right. */
  function RatingSum(rs: seq<Review>): real {
    if |rs| == 0 then 0.0 else RatingSum(rs[..|rs| - 1]) + rs[|rs| - 1].rating
  }

  function Average(rs: seq<Review>): real
    requires |rs| > 0
  {
    RatingSum(rs) / (|rs| as real)
  }

  /** No division is needed to decide the rating filter. */
  lemma {:induction false} AverageAboveIff(rs: seq<Review>, floor: real)
    requires |rs| > 0
    ensures Average(rs) > floor <==> RatingSum(rs) > floor * (|rs| as real)
  {
    var n := |rs| as real;
    var a := Average(rs);
    assert a * n == RatingSum(rs);
    if a > floor {
      assert a * n > floor * n;
    } else {
      assert a * n <= floor * n;
    }
  }

  /** An average above the rating floor means a sum above floor times count. */
  lemma {:induction false} SumAboveFloor(rs: seq<Review>, average: real)
    requires |rs| > 0 && average == Average(rs) && average > RatingFloor
    ensures RatingSum(rs) > RatingFloor * (|rs| as real)
  {
    AverageAboveIff(rs, RatingFloor);
  }

  predicate HasEnoughReviews(e: ReviewEntry) {
    |e.reviews| >= MinReviews
  }

  /** Line 108: `reviewsOfFilms.filter(f => f.reviews.length >= 5)`. */
  function WithEnoughReviews(es: seq<ReviewEntry>): (r: seq<ReviewEntry>)
    ensures forall e :: e in r ==> |e.reviews| > 0
  {
    Filter(es, HasEnoughReviews)
  }

  /**
    Lines 113-120: every entry kept as it is, with the average of its
    ratings attached.
   */
  function AttachAverages(es: seq<ReviewEntry>): (r: seq<RatedEntry>)
    requires forall e :: e in es ==> |e.reviews| > 0
    ensures |r| == |es|
    ensures forall i :: 0 <= i < |r| ==> r[i].entry == es[i] && r[i].averageRating == Average(es[i].reviews)
  {
    if |es| == 0 then []
    else
      assert es[0] in es;
      [RatedEntry(es[0], Average(es[0].reviews))] + AttachAverages(es[1..])
  }

  predicate AboveFloor(r: RatedEntry) {
    r.averageRating > RatingFloor
  }

  /** Lines 108-125: the entries that pass both filters, with their averages. */
  function Qualifying(es: seq<ReviewEntry>): seq<RatedEntry> {
    Filter(AttachAverages(WithEnoughReviews(es)), AboveFloor)
  }

  /** The entries underneath rated entries, with the averages dropped. */
  function Entries(q: seq<RatedEntry>): (r: seq<ReviewEntry>)
    ensures |r| == |q| && forall i :: 0 <= i < |q| ==> r[i] == q[i].entry
  {
    if |q| == 0 then [] else [q[0].entry] + Entries(q[1..])
  }

  lemma {:induction false} EntriesOfSubsequence(a: seq<RatedEntry>, b: seq<RatedEntry>)
    requires IsSubsequence(a, b)
    ensures IsSubsequence(Entries(a), Entries(b))
    decreases |b|
  {
    if |a| > 0 {
      assert Entries(b)[1..] == Entries(b[1..]);
      assert Entries(a)[1..] == Entries(a[1..]);
      if a[0] == b[0] && IsSubsequence(a[1..], b[1..]) {
        EntriesOfSubsequence(a[1..], b[1..]);
      } else {
        EntriesOfSubsequence(a, b[1..]);
      }
    }
  }

  /**
    A qualifying entry comes from the service's answer, has at least five
    reviews and a rating sum above four times its review count (so an
    average of exactly 4 is out), and carries the true average.
   */
  lemma {:induction false} QualifyingSound(es: seq<ReviewEntry>, r: RatedEntry)
    requires r in Qualifying(es)
    ensures r.entry in es
    ensures |r.entry.reviews| >= MinReviews
    ensures RatingSum(r.entry.reviews) > RatingFloor * (|r.entry.reviews| as real)
    ensures r.averageRating == Average(r.entry.reviews)
  {
    assert r in AttachAverages(WithEnoughReviews(es)) && AboveFloor(r);
    RatedIsEnough(es, r);
    SumAboveFloor(r.entry.reviews, r.averageRating);
  }

  /** An entry with its average attached comes from the reply and has five reviews. */
  lemma {:induction false} RatedIsEnough(es: seq<ReviewEntry>, r: RatedEntry)
    requires r in AttachAverages(WithEnoughReviews(es))
    ensures r.entry in es && |r.entry.reviews| >= MinReviews
    ensures r.averageRating == Average(r.entry.reviews)
  {
    var enough := WithEnoughReviews(es);
    var rated := AttachAverages(enough);
    var i :| 0 <= i < |rated| && rated[i] == r;
    assert r.entry == enough[i];
    assert enough[i] in enough;
    assert HasEnoughReviews(r.entry);
  }

  /** Every answered entry meeting both conditions qualifies, with its average. */
  lemma {:induction false} QualifyingComplete(es: seq<ReviewEntry>, e: ReviewEntry)
    requires e in es && |e.reviews| >= MinReviews
    requires RatingSum(e.reviews) > RatingFloor * (|e.reviews| as real)
    ensures RatedEntry(e, Average(e.reviews)) in Qualifying(es)
  {
    var enough := WithEnoughReviews(es);
    var rated := AttachAverages(enough);
    assert HasEnoughReviews(e);
    assert e in enough;
    var i :| 0 <= i < |enough| && enough[i] == e;
    assert rated[i] == RatedEntry(e, Average(e.reviews));
    AverageAboveIff(e.reviews, RatingFloor);
    assert AboveFloor(rated[i]);
    assert rated[i] in rated;
  }

  /** The filters only drop entries: the survivors keep the service's order. */
  lemma {:induction false} QualifyingKeepsOrder(es: seq<ReviewEntry>)
    ensures IsSubsequence(Entries(Qualifying(es)), es)
  {
    var enough := WithEnoughReviews(es);
    var rated := AttachAverages(enough);
    EntriesOfSubsequence(Qualifying(es), rated);
    assert Entries(rated) == enough;
    SubsequenceTransitive(Entries(Qualifying(es)), enough, es);
  }

  /** Line 128: the `film_id` of each qualifying entry. */
  function FilmIds(q: seq<RatedEntry>): (ids: seq<int>)
    ensures |ids| == |q| && forall i :: 0 <= i < |q| ==> ids[i] == q[i].entry.filmId
  {
    seq(|q|, i requires 0 <= i < |q| => q[i].entry.filmId)
  }

  /** The comparison `.sort()` makes without a comparator: the ids' text. */
  predicate TextOrder(a: int, b: int) {
    JsText.TextLe(JsText.Decimal(a), JsText.Decimal(b))
  }

  lemma {:induction false} TextOrderTotalPreorder()
    ensures TotalPreorder(TextOrder)
  {
    forall a, b ensures TextOrder(a, b) || TextOrder(b, a) {
      JsText.TextLeTotal(JsText.Decimal(a), JsText.Decimal(b));
    }
    forall a, b, c | TextOrder(a, b) && TextOrder(b, c) ensures TextOrder(a, c) {
      JsText.TextLeTransitive(JsText.Decimal(a), JsText.Decimal(b), JsText.Decimal(c));
    }
  }

  /** `ids.sort()`: the numbers sorted by their decimal text. */
  function JsSort(ids: seq<int>): seq<int> {
    SortBy(ids, TextOrder)
  }

  /** Line 130: `ids.sort().slice(0, 10)`. */
  function SelectIds(ids: seq<int>): seq<int> {
    var sorted := JsSort(ids);
    sorted[..if |sorted| < MaxRecommendations then |sorted| else MaxRecommendations]
  }

  /**
    The selection holds ten ids, or all of them when there are fewer, each
    taken from `ids`; it is in text order, and no id left out comes before a
    selected one in that order: the ten smallest ids as text.
   */
  lemma {:induction false} SelectIdsSpec(ids: seq<int>)
    ensures |SelectIds(ids)| == if |ids| < MaxRecommendations then |ids| else MaxRecommendations
    ensures multiset(SelectIds(ids)) <= multiset(ids)
    ensures forall x :: x in SelectIds(ids) ==> x in ids
    ensures SortedBy(SelectIds(ids), TextOrder)
    ensures forall i, y :: 0 <= i < |SelectIds(ids)| && y in multiset(ids) - multiset(SelectIds(ids)) ==>
      TextOrder(SelectIds(ids)[i], y)
  {
    var sorted := JsSort(ids);
    var k := if |sorted| < MaxRecommendations then |sorted| else MaxRecommendations;
    TextOrderTotalPreorder();
    SortBySorted(ids, TextOrder);
    SortedPrefix(sorted, k, TextOrder);
    forall x | x in SelectIds(ids) ensures x in ids {
      assert x in multiset(SelectIds(ids));
      assert x in multiset(ids);
    }
  }

  /** Sorting as text puts 100 before 9. */
  lemma {:induction false} TextSortQuirk()
    ensures JsSort([9, 100]) == [100, 9]
  {
    JsText.DecimalOfSmall();
    assert !TextOrder(9, 100);
    assert JsSort([100]) == [100];
  }

  /**
    An id with ten other ids whose text sorts strictly before its own is
    never selected, however small it is as a number.
   */
  lemma {:induction false} BehindTenIsLeftOut(ids: seq<int>, x: int, before: seq<int>)
    requires |before| >= MaxRecommendations
    requires forall i, j :: 0 <= i < j < |before| ==> before[i] != before[j]
    requires forall z :: z in before ==> z in ids && !TextOrder(x, z)
    ensures x !in SelectIds(ids)
  {
    var sorted := JsSort(ids);
    var k := if |sorted| < MaxRecommendations then |sorted| else MaxRecommendations;
    TextOrderTotalPreorder();
    SortBySorted(ids, TextOrder);
    if x in SelectIds(ids) {
      forall z | z in before ensures z in sorted {
        assert z in multiset(ids);
      }
      FewStrictlyBelow(sorted, k, TextOrder, x, before);
    }
  }

  /** As text, 9 comes after each of 1..8, 10 and 100. */
  lemma {:induction false} NineSortsLast()
    ensures !TextOrder(9, 1) && !TextOrder(9, 2) && !TextOrder(9, 3) && !TextOrder(9, 4)
    ensures !TextOrder(9, 5) && !TextOrder(9, 6) && !TextOrder(9, 7) && !TextOrder(9, 8)
    ensures !TextOrder(9, 10) && !TextOrder(9, 100)
  {
    JsText.DecimalOfSmall();
  }

  /**
    Whenever 1..8, 10 and 100 all qualify, 9 is not selected even if it
    qualifies too: the selection is not the ten numerically smallest ids.
   */
  lemma {:induction false} SelectionIsNotNumeric(ids: seq<int>)
    requires forall z :: z in [1, 2, 3, 4, 5, 6, 7, 8, 10, 100] ==> z in ids
    ensures 9 !in SelectIds(ids)
  {
    var before := [1, 2, 3, 4, 5, 6, 7, 8, 10, 100];
    NineSortsLast();
    assert forall z :: z in before ==> !TextOrder(9, z);
    TenDistinct(before);
    BehindTenIsLeftOut(ids, 9, before);
  }

  lemma {:induction false} TenDistinct(before: seq<int>)
    requires before == [1, 2, 3, 4, 5, 6, 7, 8, 10, 100]
    ensures forall i, j :: 0 <= i < j < |before| ==> before[i] != before[j]
  {
    assert forall i :: 0 <= i < |before| - 1 ==> before[i] < before[i + 1];
    AdjacentAscending(before);
  }

  lemma {:induction false} AdjacentAscending(s: seq<int>)
    requires forall i :: 0 <= i < |s| - 1 ==> s[i] < s[i + 1]
    ensures forall i, j :: 0 <= i < j < |s| ==> s[i] < s[j]
    decreases |s|
  {
    if |s| > 1 {
      AdjacentAscending(s[1..]);
      forall j | 0 < j < |s| ensures s[0] < s[j] {
        if j > 1 {
          assert s[1..][0] < s[1..][j - 1];
        }
      }
      forall i, j | 0 < i < j < |s| ensures s[i] < s[j] {
        assert s[1..][i - 1] < s[1..][j - 1];
      }
    }
  }
}
