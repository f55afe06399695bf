# Film recommendations, modelled in Dafny

This project models the route handler `getFilmRecommendations` of a small
Express service. The handler answers `GET /films/:id/recommendations` in
these steps:

1. It validates the film id and the optional `limit` and `offset` query values.
2. It looks up the film and its genre.
3. It selects the films of the same genre released within 15 years of it.
4. It asks a remote review service for their reviews.
5. It keeps films with at least five reviews and an average rating above 4.
6. It picks ten of their ids with JavaScript's default `.sort()` and `.slice(0, 10)`.
7. It re-fetches those films and joins each with its reviews into a
   recommendation record. The answer is wrapped with a `meta` object that
   echoes `limit` and `offset`.

## How the handler is modelled

- The film and genre tables are values: `Catalog.Store`.
- The review service is a function from the `films` query text to the
  parsed reply: `Handler.ReviewReply`.
- The handler returns the sequence of effects it performs: store queries,
  the outbound request, every response it sends, every `res.json` that
  throws because a response already went out, and a crash.

### Modules

| module | file | what it holds |
|---|---|---|
| `Wrappers` | wrappers.dfy | `Option` and `Result` |
| `Seqs` | seqs.dfy | `.filter`, a comparator-driven insertion sort, and their facts (subsequence, distinct keys, sorted prefixes, first match) |
| `JsText` | js_text.dfy | `parseInt(s, 10)`, `String(n)` for integers, string order as `.sort()` compares, `join(',')` |
| `Catalog` | catalog.dfy | film and genre rows, `findById`, the ±15-year window, the candidate query, the re-fetch by id |
| `Reviews` | reviews.dfy | the review-count filter, the averages, the rating filter, the text-ordered top-ten selection |
| `Join` | join.dfy | building one record per re-fetched film, and the faults that make a stage answer 500 |
| `Handler` | handler.dfy | the request, the validation with its reassigned `limit` and `offset`, the effect sequence |

The handler keeps its quirks:

- A malformed id or query value sends a 422 response, but the handler does
  not return. With one malformed value the promise chain still runs, but
  each of its `res.json` calls throws, since the 422 already went out; the
  last throw is a rejection nobody handles. A malformed service body is the
  exception: `JSON.parse` throws outside every promise before any `res.json`.
- A second malformed value makes its own `res.status(422).json(...)` throw
  in the synchronous part. The handler ends there, before the film lookup.
- A supplied but malformed `limit` or `offset` becomes `NaN` in `meta`
  (which `res.json` would write as `null`). The answer carrying it is never
  sent, because a 422 went out first.
- The ids are ordered as text, so 100 comes before 9. The ten selected are
  the ten smallest as text, not as numbers.

## Model

| member | source | states |
|---|---|---|
| `Handler.GetFilmRecommendations` | index.js:49-183 | The effects are those of `Handler.HandlerEffects`: the validation, then nothing if it threw, else the chain with the final `limit`/`offset`, every response refused if a 422 went out. |
| `Handler.HandlerEffects` | index.js:49-183 | Definition of the whole handler's effects; properties in `Handler.LookupReachedIff`, `Handler.RejectedRequest` and `Handler.AcceptedRequest`. |
| `Handler.Validate` | index.js:50-74 | Returns the validation's effects, throws exactly when two or more values are malformed, reports a response sent exactly when one or more are, and otherwise returns the `meta` of the final `limit`/`offset`. |
| `Handler.LookupReachedIff` | index.js:52-76 | The film lookup is performed exactly when at most one of the id, `limit` and `offset` is malformed. |
| `Handler.RejectedRequest` | index.js:52-183 | A request with a malformed value gets one 422 as its first effect, and no later effect is a response that goes out. |
| `Handler.AcceptedRequest` | index.js:52-183 | A well-formed request runs the chain unaltered, and its `limit` and `offset` are integers, so no `NaN` is ever sent. |
| `Handler.Late` | index.js:76-181 | Definition of the chain after a 422: each response is refused, and a refused 200 leads to a refused 500 from the `.catch` of line 167; properties in `Handler.LateSendsNothing`. |
| `Handler.LateSendsNothing` | index.js:76-181 | After a 422 no response goes out: every other effect of the chain stays, each response becomes a refusal, and the film lookup stays first. |
| `Handler.LookupComesFirst` | index.js:76 | The promise chain starts with the film lookup and has at least one more effect. |
| `Handler.ValidationLogSpec` | index.js:52-74 | Validation does nothing exactly when the id and every supplied `limit`/`offset` start with an integer. With one malformed value it sends one 422; with more, one 422 and then the throw that ends the handler. |
| `Handler.ValidationByCount` | index.js:52-74 | The malformed values are counted in check order. The validation's effects depend on that count alone: none, one 422, or one 422 and the throw. |
| `Handler.ResponsesByCount` | index.js:52-74 | Failing checks send one 422 at most, and throw once a response was sent. |
| `Handler.ValidationLog` | index.js:52-74 | Definition of the validation's effects, check by check; properties in `Handler.ValidationLogSpec`. |
| `Handler.ParamValue` | index.js:58-74 | Definition of a query value's final value; properties in `Handler.MetaSpec`. |
| `Handler.RequestMeta` | index.js:50-74 | Definition of the `meta` object; properties in `Handler.MetaSpec`. |
| `Handler.Pipeline` | index.js:76-181 | Definition of the chain from the film lookup on; properties in `Handler.PipelineAfterLookup`, `Handler.MissingFilmAnswers500` and `Handler.QueriesAroundTarget`. |
| `Handler.FilmFound` | index.js:78-106 | Definition of the chain after a found film; properties in `Handler.PipelineAfterLookup`. |
| `Handler.AfterReply` | index.js:106-169 | Definition of what follows the service's reply; properties in `Handler.AnswerAfterReply`. |
| `Handler.Reply` | index.js:137-169 | Definition of the last answer; properties in `Handler.AnswerAfterReply`. |
| `Handler.MetaSpec` | index.js:50-74 | Absent values echo 10 and 0. A supplied value is `NaN` exactly when it does not start with an integer. A value written as `String(n)` echoes `n`. |
| `Handler.MetaIsOnlyEchoed` | index.js:159-164 | From the film lookup on, two different `meta` values give the same effects and the same recommendations. |
| `Handler.MissingFilmAnswers500` | index.js:76-78 | A key naming no stored film leads to the lookup and then a single 500 answer. |
| `Handler.QueriesAroundTarget` | index.js:76-106 | For a stored film (unique ids) looked up by `String(id)`, the handler looks up its genre, then queries its window, then requests reviews. The `films` text splits back into exactly the candidates' ids, and the film is one of them. |
| `Handler.PipelineAfterLookup` | index.js:76-106 | After a successful film lookup the effects are: the genre lookup, the query of the film's window, the request with the candidates' ids, then what follows the reply. |
| `Handler.AnswerAfterReply` | index.js:106-169 | A malformed service body ends in a crash. Otherwise the selected ids are re-fetched and one answer follows. It is 200 with the meta exactly when the genre exists or nothing was re-fetched; any other answer is 500 for a missing genre. |
| `Handler.CheckParam` | index.js:58-74 | A supplied but malformed value sends a 422, or throws when a response already went out. Unless it threw, a supplied value replaces the current one with its `parseInt`, and an absent or empty value leaves it unchanged. |
| `Handler.CandidateIds` | index.js:100-102 | Definition of `films.map(film => film.id)`; properties in `Handler.QueriesAroundTarget` and `JsText.JoinIdsRoundTrip`. |
| `Handler.Supplied` | index.js:58-67 | Definition of a truthy query value: present and not empty; used by `Handler.ParamValue` and `Handler.Rejects`. |
| `Catalog.Candidates` | index.js:90-98 | Definition of the candidate query; properties in `Catalog.CandidatesSpec`. |
| `Catalog.Refetch` | index.js:138-142 | Definition of the re-fetch by id; properties in `Catalog.RefetchSpec`. |
| `Catalog.FindFilm` | index.js:76 | Returns a stored film whose id is written as the key, or none when no film's id is. |
| `Catalog.FindFilmByDecimal` | index.js:76 | With unique ids, the key `String(id)` finds exactly that film. |
| `Catalog.FindGenre` | index.js:78 | Returns a stored genre with that id, or none when there is none. |
| `Catalog.ShiftYears` | index.js:82-87 | Definition of `setFullYear(getFullYear() ± 15)`; properties in `Catalog.InWindowIff` and `Catalog.CandidatesSpec`. |
| `Catalog.InWindowIff` | index.js:82-95 | A date lies in the inclusive window exactly when its year is strictly within 15 years of the release year, or it is in a boundary year on the inner side of the release month and day. |
| `Catalog.CandidatesSpec` | index.js:90-98 | A film is a candidate exactly when it is stored, has the genre and lies in the window. Candidates are ordered by id, strictly ascending when ids are unique. |
| `Catalog.TargetIsCandidate` | index.js:90-98 | The target film is always among its own candidates. |
| `Catalog.AscendingFromDistinct` | index.js:97 | Films sorted by id with distinct ids are strictly ascending. |
| `Catalog.RefetchSpec` | index.js:138-142 | The re-fetched films are exactly the stored films with a selected id, sorted by id. With unique ids they are strictly ascending, distinct, and no more than the ids. |
| `Catalog.IdLeTotalPreorder` | index.js:97 | Comparison by id is a total preorder. |
| `Reviews.RatingSum` | index.js:114-116 | Definition of the `reduce` sum of the ratings; properties in `Reviews.AverageAboveIff`. |
| `Reviews.Average` | index.js:114-117 | Definition of the sum divided by the review count; properties in `Reviews.AverageAboveIff` and `Reviews.QualifyingSound`. |
| `Reviews.Qualifying` | index.js:108-125 | Definition of the entries with five or more reviews and an average above 4; properties in `Reviews.QualifyingSound`, `Reviews.QualifyingComplete` and `Reviews.QualifyingKeepsOrder`. |
| `Reviews.JsSort` | index.js:130 | Definition of `.sort()` on ids; properties in `Reviews.SelectIdsSpec` and `Reviews.TextSortQuirk`. |
| `Reviews.SelectIds` | index.js:128-130 | Definition of `.sort().slice(0, 10)`; properties in `Reviews.SelectIdsSpec`. |
| `Reviews.WithEnoughReviews` | index.js:108-110 | Every kept entry has at least one review, so its average is defined. |
| `Reviews.AttachAverages` | index.js:113-120 | Each entry is kept in place with the average of its ratings attached. |
| `Reviews.AverageAboveIff` | index.js:117-124 | The average is above the floor exactly when the rating sum is above floor × count. |
| `Reviews.QualifyingSound` | index.js:108-125 | A surviving entry comes from the reply, has ≥ 5 reviews and a sum > 4 × count (an average of exactly 4 is out), and carries its true average. |
| `Reviews.RatedIsEnough` | index.js:108-120 | An entry with its average attached comes from the reply, with at least five reviews and its true average. |
| `Reviews.QualifyingComplete` | index.js:108-125 | Every reply entry with ≥ 5 reviews and a sum > 4 × count survives, with its average. |
| `Reviews.QualifyingKeepsOrder` | index.js:108-125 | The filters only delete entries: the survivors are a subsequence of the reply. |
| `Reviews.Entries` | index.js:118-119 | Dropping the attached averages gives back the entries, position by position. |
| `Reviews.EntriesOfSubsequence` | index.js:123-125 | A subsequence of rated entries has a subsequence of entries underneath. |
| `Reviews.FilmIds` | index.js:128-129 | Definition of `.map(film => film.film_id)`; properties in `Reviews.SelectIdsSpec`, `Join.EntriesForNonEmptyIff` and `Join.JoinNeverMissesEntry`. |
| `Reviews.TextOrderTotalPreorder` | index.js:130 | Comparing ids by their decimal text is a total preorder. |
| `Reviews.SelectIdsSpec` | index.js:128-130 | The selection has min(10, count) ids, drawn from the qualifying ids as a sub-multiset, in text order. Every id left out is text-ordered after every selected one. |
| `Reviews.TextSortQuirk` | index.js:130 | `.sort()` puts 100 before 9. |
| `Reviews.BehindTenIsLeftOut` | index.js:130 | An id with ten distinct qualifying ids strictly before it as text is never selected. |
| `Reviews.NineSortsLast` | index.js:130 | As text, 9 comes after 1..8, 10 and 100. |
| `Reviews.SelectionIsNotNumeric` | index.js:130 | Whenever 1..8, 10 and 100 qualify, 9 is not selected. When the ids are 1..10 and 100, 9 is among the ten numerically smallest. |
| `Join.Record` | index.js:148-155 | Definition of one recommendation object; properties in `Join.BuildRecommendationsRecords`. |
| `Join.Selected` | index.js:128-130 | Definition of the ids re-fetched; properties in `Join.JoinNeverMissesEntry` and `Join.RecommendationsAreQualified`. |
| `Join.BuildRecommendations` | index.js:143-157 | Definition of the join; properties in `Join.BuildRecommendationsOutcome` and `Join.BuildRecommendationsRecords`. |
| `Join.RecommendFrom` | index.js:128-157 | Definition of the re-fetch and join; properties in `Join.JoinNeverMissesEntry`, `Join.RecommendationsAreQualified` and `Join.RecommendationsBoundedAndOrdered`. |
| `Join.EntriesForNonEmptyIff` | index.js:145-147 | A film has a matching qualifying entry exactly when its id is among the qualifying ids. |
| `Join.BuildRecommendationsOutcome` | index.js:144-157 | Records are built exactly when every film has an entry and the genre exists (or no film was fetched). A failure is `NoReviewEntry` when the genre exists, and `GenreNotFound` when every film has an entry. |
| `Join.BuildRecommendationsRecords` | index.js:144-157 | Built records come one per film, in order. Each carries the film's id, title and date, the genre name, and the count and average of the FIRST matching qualifying entry. |
| `Join.JoinNeverMissesEntry` | index.js:128-157 | A re-fetched film always has an entry, so the join fails only for a missing genre, and only when some film was re-fetched. |
| `Join.RecommendationsAreQualified` | index.js:138-157 | Each record is a stored film whose id was selected, with the genre's name. Its count and exact average come from a reply entry with ≥ 5 reviews and average > 4. |
| `Join.RecommendationsBoundedAndOrdered` | index.js:130-157 | With unique film ids there are at most ten records, in strictly ascending id order. |
| `JsText.ParseInt` | index.js:52-73 | Definition of `parseInt(s, 10)`; properties in `JsText.ParseIntDefinedIff`, `JsText.ParseIntValue` and `JsText.ParseIntDecimal`. |
| `JsText.Decimal` | index.js:103 | Definition of `String(n)`; properties in `JsText.NatText`, `JsText.ParseIntDecimal` and `JsText.DecimalInjective`. |
| `JsText.JoinIds` | index.js:103 | Definition of `ids.join(',')`; properties in `JsText.JoinIdsRoundTrip`. |
| `JsText.TextLe` | index.js:130 | Definition of string order; properties in `JsText.TextLeTotal`, `JsText.TextLeTransitive` and `JsText.TextLeAntisymmetric`. |
| `JsText.LeadingWhiteSpace` | index.js:52 | Returns the length of the longest whitespace prefix. |
| `JsText.LeadingDigits` | index.js:52 | Returns the length of the longest digit prefix. |
| `JsText.ParseIntDefinedIff` | index.js:52 | `parseInt(s, 10)` is an integer exactly when `s` is whitespace, an optional sign, then at least one digit. |
| `JsText.ParseIntValue` | index.js:64 | For whitespace, a sign, digits and a non-digit rest, `parseInt` gives the signed value of the digits. |
| `JsText.SkipWhiteSpace` | index.js:52 | Leading whitespace does not change the result of `parseInt`. |
| `JsText.ParseIntDigitsFirst` | index.js:52 | A string starting with a digit parses to the value of its digit prefix. |
| `JsText.ParseIntSignFirst` | index.js:52 | A sign before a digit applies to the value of the following digits. |
| `JsText.LeadingDigitsOf` | index.js:52 | The digit prefix of digits followed by a non-digit is exactly those digits. |
| `JsText.NatText` | index.js:103 | The text of a natural number is non-empty digits whose value is the number. |
| `JsText.ParseIntDecimal` | index.js:64 | `parseInt(String(n), 10) == n` for every integer. |
| `JsText.DecimalInjective` | index.js:76 | Different integers have different texts. |
| `JsText.TextLeTotal` | index.js:130 | String order is total. |
| `JsText.TextLeTransitive` | index.js:130 | String order is transitive. |
| `JsText.TextLeAntisymmetric` | index.js:130 | Strings ordered both ways are equal. |
| `JsText.SplitWithoutComma` | index.js:103 | A comma-free string splits into itself alone. |
| `JsText.SplitAfterField` | index.js:103 | Splitting a comma-free field, a comma and a rest gives the field, then the rest's parts. |
| `JsText.JoinIdsRoundTrip` | index.js:100-103 | For a non-empty list, splitting `ids.join(',')` at commas gives one part per id, and each part parses back to its id. The candidate list is never empty, since the target film is among its own candidates (`Catalog.TargetIsCandidate`). |
| `JsText.ParsesToCons` | index.js:103 | Prepending a part that parses to `x` extends a parsed list of ids by `x`. |
| `JsText.DecimalOfSmall` | index.js:130 | Gives the decimal texts of 1..10 and 100. |
| `Seqs.Filter` | index.js:108-110 | Returns exactly the elements satisfying the predicate, as a subsequence. |
| `Seqs.FilterHeadIsFirst` | index.js:145-150 | `filter(p)[0]` is the first element satisfying `p`. |
| `Seqs.Insert` | index.js:130 | Inserting adds exactly one occurrence of the element. |
| `Seqs.SortBy` | index.js:130 | The sort is a permutation of its input. |
| `Seqs.SortBySorted` | index.js:130 | Under a total preorder the sort's result is sorted. |
| `Seqs.SortByKeepsDistinct` | index.js:141 | Sorting keeps distinct keys distinct. |
| `Seqs.SortedPrefix` | index.js:130 | The first k of a sorted sequence are sorted, and every element cut off is above every element kept. |
| `Seqs.FewStrictlyBelow` | index.js:130 | An element among the first k of a sorted sequence has fewer than k distinct elements strictly below it. |
| `Seqs.SubsequenceKeepsDistinct` | index.js:138-142 | A subsequence keeps distinct keys and takes its elements from the original. |
| `Seqs.DistinctBound` | index.js:138-142 | Elements with distinct keys all drawn from `ks` are no more numerous than `ks`. |
| `Seqs.SubsequenceTransitive` | index.js:108-125 | A subsequence of a subsequence is a subsequence. |

## Left out

- The Express app setup, route registration and catch-all 404 handler (index.js:1-46) are HTTP plumbing.
- The Sequelize connection and model import are not modelled; the two model files only give the record fields.
- What Express does with the synchronous throw (`Handler.Abort`) is not modelled: its router passes the error on, and the connection is left to Express's final handler.
- The body of a 500 answer is the thrown error, which serialises as `{}`. The model records which fault was thrown (`Join.Fault`).
- Store and network failures are not modelled: a database error rejecting a query, and the `err` argument of the request callback, are both absent. The outbound request is the `RequestReviews` effect; its URL's fixed part is not modelled.
- A reply that is not JSON, or not an array, throws inside the request callback, outside every promise. It is modelled as one `Crash` effect. Entries whose shape differs from `{film_id, reviews: [{rating}]}` are not modelled.
- `roundToTwo` (index.js:133-135) is floating-point formatting: `averageRating` is the exact average, and ratings are reals.
- Floating point in JavaScript numbers is not modelled; the model's integers are unbounded. In `parseInt`, values beyond 2^53 lose precision, and overlong digit strings (about 309 digits) become `Infinity`, which `Number.isInteger` rejects. A film id or `film_id` beyond 2^53 loses precision too, in the store driver or in `JSON.parse`. `String(n)` of a number from 1e21 on is written with an exponent, where `JsText.Decimal` writes every digit.
- `Number.isInteger(parseInt(s, 10))` is modelled as "parseInt yields a number".
- Query values given as arrays (`?limit=1&limit=2`) are not modelled; a value is a string or absent.
- Date handling by the host: time zones in `new Date(...)`, JavaScript moving 29 February to 1 March in a non-leap year, and SQLite comparing `release_date` as text are not modelled. Dates are (year, month, day) triples compared in that order.
- `Catalog.FindFilm` matches the key against each id's decimal text. SQLite's conversion of keys such as `"012"` or `" 12"` to an integer before comparing is not modelled.
- The loose equality `element.film_id == film.id` is modelled as integer equality, since ids are integers in this model.
- The film attributes other than id, title, release date and genre id are not read by the handler and are not modelled.
