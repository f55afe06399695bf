/**
  The route handler `getFilmRecommendations` (lines 49-183 of index.js) for
  `GET /films/:id/recommendations`. The store is a value, the review service
  a function from the `films` query text to its parsed reply, and what the
  handler does is returned as the sequence of effects it performs: store
  queries, the outbound request, every response it sends, and every
  `res.json` that throws because a response already went out.
 */
module Handler {
  import opened Wrappers
  import opened Seqs
  import JsText
  import opened Catalog
  import opened Reviews
  import opened Join

  /** The route parameter `id` and the query values `limit` and `offset`. */
  datatype Request = Request(id: string, limit: Option<string>, offset: Option<string>)

  /** A JavaScript number as `parseInt` produces it: an integer or `NaN`. */
  datatype Num = Int(value: int) | NaN

  datatype Meta = Meta(limit: Num, offset: Num)

  datatype Body =
    | Message(text: string)
    | Answer(recommendations: seq<Recommendation>, meta: Meta)
    | ErrorBody(fault: Fault)
    /** The error a `res.json` throws when a response already went out. */
    | HeadersSentError

  datatype Response = Response(status: int, body: Body)

  /** What the review service's body turns into under `JSON.parse`. */
  datatype ReviewReply = Parsed(entries: seq<ReviewEntry>) | Malformed

  datatype Effect =
    /** A response that goes out. */
    | Respond(response: Response)
    /**
      A `res.json` call that throws instead, since a response already went
      out: Express's `res.send` sets a header after the headers were sent.
     */
    | Refused(response: Response)
    /**
      Such a throw in the synchronous part of the handler: it leaves the
      handler, which does nothing more; Express's router catches it.
     */
    | Abort
    /** Such a throw in a `.catch` callback: the rejection it causes is handled by nobody. */
    | Unhandled
    | LookUpFilm(key: string)
    | LookUpGenre(genreId: int)
    | QueryCandidates(genreId: int, start: Date, end: Date)
    | RequestReviews(films: string)
    | QueryFilms(ids: seq<int>)
    | Crash

  const ErrMessage := "\"message\" key missing"
  const DefaultLimit := 10
  const DefaultOffset := 0

  /** `res.status(422).json({message: ERR_MESSAGE})`. */
  function Unprocessable(): Effect {
    Respond(Response(422, Message(ErrMessage)))
  }

  /** `if (req.query.limit)`: present and not the empty string. */
  predicate Supplied(v: Option<string>) {
    v.Some? && |v.value| > 0
  }

  /** `Number.isInteger(parseInt(s, 10))`. */
  predicate IsIntegerText(s: string) {
    JsText.ParseInt(s).Some?
  }

  /** A supplied query value that does not start with an integer. */
  predicate Rejects(v: Option<string>) {
    Supplied(v) && !IsIntegerText(v.value)
  }

  /** Which of the checks of lines 52, 59 and 68 fail, in the order they run. */
  function Checks(req: Request): seq<bool> {
    [!IsIntegerText(req.id), Rejects(req.limit), Rejects(req.offset)]
  }

  /** The number of failing checks. */
  function Failing(bs: seq<bool>): nat {
    if |bs| == 0 then 0 else (if bs[0] then 1 else 0) + Failing(bs[1..])
  }

  /** How many of the id, `limit` and `offset` are malformed. */
  function MalformedCount(req: Request): nat {
    Failing(Checks(req))
  }

  /**
    What the failing checks among `bs` do, once a response went out or not:
    the first one sends a 422; the next finds the headers sent, so its
    `res.json` throws and ends the handler.
   */
  function Responses(bs: seq<bool>, headersSent: bool): seq<Effect> {
    if |bs| == 0 then []
    else if !bs[0] then Responses(bs[1..], headersSent)
    else if headersSent then [Abort]
    else [Unprocessable()] + Responses(bs[1..], true)
  }

  /** What the validation of lines 52-74 does, in order. */
  function ValidationLog(req: Request): seq<Effect> {
    Responses(Checks(req), false)
  }

  /** `parseInt(v, 10)` when `v` is supplied, `current` otherwise. */
  function ParamValue(v: Option<string>, current: Num): Num {
    if !Supplied(v) then current
    else match JsText.ParseInt(v.value) {
      case Some(n) => Int(n)
      case None => NaN
    }
  }

  /** The `meta` object of line 160: the final values of `limit` and `offset`. */
  function RequestMeta(req: Request): Meta {
    Meta(ParamValue(req.limit, Int(DefaultLimit)), ParamValue(req.offset, Int(DefaultOffset)))
  }

  /** Lines 100-102: the ids of the candidates. */
  function CandidateIds(cands: seq<Film>): (ids: seq<int>)
    ensures |ids| == |cands| && forall i :: 0 <= i < |cands| ==> ids[i] == cands[i].id
  {
    seq(|cands|, i requires 0 <= i < |cands| => cands[i].id)
  }

  /** Line 103: the candidates' ids, comma-joined. */
  function CandidateQuery(cands: seq<Film>): string {
    JsText.JoinIds(CandidateIds(cands))
  }

  /** The answer of lines 137-166 once the service's entries are parsed. */
  function Reply(films: seq<Film>, es: seq<ReviewEntry>, genre: Option<Genre>, meta: Meta): Response {
    match RecommendFrom(films, es, genre) {
      case Success(rs) => Response(200, Answer(rs, meta))
      case Failure(fault) => Response(500, ErrorBody(fault))
    }
  }

  /**
    Lines 76-182: what happens from the film lookup on, given the key, the
    final meta values, the store and the review service.
   */
  function Pipeline(key: string, meta: Meta, store: Store, service: string -> ReviewReply): seq<Effect> {
    [LookUpFilm(key)] +
    match FindFilm(store.films, key) {
      case None => [Respond(Response(500, ErrorBody(FilmNotFound)))]
      case Some(film) => FilmFound(film, meta, store, service)
    }
  }

  /** Lines 78-106: the genre lookup, the candidate query and the request. */
  function FilmFound(film: Film, meta: Meta, store: Store, service: string -> ReviewReply): seq<Effect> {
    var start := WindowStart(film.releaseDate);
    var end := WindowEnd(film.releaseDate);
    var query := CandidateQuery(Candidates(store.films, film.genreId, start, end));
    [LookUpGenre(film.genreId), QueryCandidates(film.genreId, start, end), RequestReviews(query)] +
    AfterReply(service(query), store.films, FindGenre(store.genres, film.genreId), meta)
  }

  /**
    Lines 107-169: `JSON.parse` of the service's body throws outside every
    promise, or the selected films are re-fetched and the answer sent.
   */
  function AfterReply(reply: ReviewReply, films: seq<Film>, genre: Option<Genre>, meta: Meta): seq<Effect> {
    match reply {
      case Malformed => [Crash]
      case Parsed(es) => [QueryFilms(Selected(es)), Respond(Reply(films, es, genre, meta))]
    }
  }

  /**
    The chain run after a 422 went out, where every `res.json` throws. A
    refused 500 throws in the `.catch` of line 167 or 180. A refused 200
    throws in the `.then` of line 143, so the `.catch` of line 167 tries to
    send that error, and is refused too. Either way the last `.catch`
    throws, and its rejection is handled by nobody.
   */
  function Late(p: seq<Effect>): seq<Effect> {
    if |p| == 0 then []
    else
      (match p[0] {
        case Respond(r) => RefusedAnswer(r)
        case _ => [p[0]]
      }) + Late(p[1..])
  }

  /** A response that is refused, with the attempt of the `.catch` after it. */
  function RefusedAnswer(r: Response): seq<Effect> {
    if r.status == 200 then [Refused(r), Refused(Response(500, HeadersSentError)), Unhandled]
    else [Refused(r), Unhandled]
  }

  /**
    Everything the handler does: the validation, then nothing when it threw,
    the chain with every response refused when one 422 went out, or the
    chain itself when the request is well formed.
   */
  function HandlerEffects(req: Request, store: Store, service: string -> ReviewReply): seq<Effect> {
    var chain := Pipeline(req.id, RequestMeta(req), store, service);
    ValidationLog(req) +
    if MalformedCount(req) >= 2 then [] else if MalformedCount(req) == 1 then Late(chain) else chain
  }

  /**
    Lines 58-65 (and 67-74 for `offset`): a supplied value that does not
    start with an integer sends a 422, or throws when a response already
    went out; unless it threw, a supplied value overwrites the current one
    with `parseInt` of it.
   */
  method CheckParam(v: Option<string>, current: Num, headersSent: bool)
    returns (next: Num, sentAfter: bool, thrown: bool, effects: seq<Effect>)
    ensures thrown <==> headersSent && Rejects(v)
    ensures effects == if !Rejects(v) then [] else if headersSent then [Abort] else [Unprocessable()]
    ensures sentAfter == (headersSent || Rejects(v))
    ensures !thrown ==> next == ParamValue(v, current)
  {
    next, sentAfter, thrown, effects := current, headersSent, false, [];
    if Supplied(v) {
      var parsed := JsText.ParseInt(v.value);
      if parsed.None? {
        if headersSent {
          thrown, effects := true, [Abort];
          return;
        }
        effects, sentAfter := [Unprocessable()], true;
      }
      next := if parsed.Some? then Int(parsed.value) else NaN;
    }
  }

  /**
    Lines 50-74: `limit` and `offset` start at their defaults and are
    overwritten by supplied query values. The first malformed value sends a
    422, and a second one throws out of the handler.
   */
  method Validate(req: Request) returns (meta: Meta, headersSent: bool, thrown: bool, log: seq<Effect>)
    ensures log == ValidationLog(req)
    ensures thrown <==> MalformedCount(req) >= 2
    ensures headersSent <==> MalformedCount(req) >= 1
    ensures !thrown ==> meta == RequestMeta(req)
  {
    ValidationByCount(req);
    var limit, offset := Int(DefaultLimit), Int(DefaultOffset);
    headersSent := false;
    log := [];
    if !IsIntegerText(req.id) {
      log := log + [Unprocessable()];
      headersSent := true;
    }
    var sent;
    limit, headersSent, thrown, sent := CheckParam(req.limit, limit, headersSent);
    log := log + sent;
    if thrown {
      meta := Meta(limit, offset);
      return;
    }
    assert log == if headersSent then [Unprocessable()] else [];
    offset, headersSent, thrown, sent := CheckParam(req.offset, offset, headersSent);
    log := log + sent;
    meta := Meta(limit, offset);
  }

  /**
    The handler itself: the validation, then, unless it threw, the chain
    from the lookup on, its responses refused if a 422 went out.
   */
  method GetFilmRecommendations(req: Request, store: Store, service: string -> ReviewReply) returns (log: seq<Effect>)
    ensures log == HandlerEffects(req, store, service)
  {
    var meta, headersSent, thrown;
    meta, headersSent, thrown, log := Validate(req);
    if thrown {
      return;
    }
    var chain := Pipeline(req.id, meta, store, service);
    if headersSent {
      chain := Late(chain);
    }
    log := log + chain;
  }

  /** The film lookup is the first thing the promise chain does. */
  lemma {:induction false} LookupComesFirst(key: string, meta: Meta, store: Store, service: string -> ReviewReply)
    ensures |Pipeline(key, meta, store, service)| >= 2
    ensures Pipeline(key, meta, store, service)[0] == LookUpFilm(key)
  {
  }

  /** The failing checks send one 422 at most, and throw when there are two or more. */
  lemma {:induction false} ResponsesByCount(bs: seq<bool>)
    ensures Responses(bs, true) == if Failing(bs) == 0 then [] else [Abort]
    ensures Responses(bs, false) ==
      if Failing(bs) == 0 then [] else if Failing(bs) == 1 then [Unprocessable()] else [Unprocessable(), Abort]
  {
    if |bs| > 0 {
      ResponsesByCount(bs[1..]);
    }
  }

  /**
    Validation does nothing exactly when the id and every supplied query
    value start with an integer. Otherwise it sends one 422, followed by
    the throw that ends the handler when two or more values are malformed.
   */
  lemma {:induction false} ValidationLogSpec(req: Request)
    ensures MalformedCount(req) == 0 <==>
      && JsText.HasLeadingInteger(req.id)
      && (Supplied(req.limit) ==> JsText.HasLeadingInteger(req.limit.value))
      && (Supplied(req.offset) ==> JsText.HasLeadingInteger(req.offset.value))
    ensures ValidationLog(req) ==
      if MalformedCount(req) == 0 then []
      else if MalformedCount(req) == 1 then [Unprocessable()]
      else [Unprocessable(), Abort]
  {
    ValidationByCount(req);
    JsText.ParseIntDefinedIff(req.id);
    if Supplied(req.limit) {
      JsText.ParseIntDefinedIff(req.limit.value);
    }
    if Supplied(req.offset) {
      JsText.ParseIntDefinedIff(req.offset.value);
    }
  }

  /** The count of malformed values, and the validation's effects by that count. */
  lemma {:induction false} ValidationByCount(req: Request)
    ensures MalformedCount(req) ==
      (if IsIntegerText(req.id) then 0 else 1) + (if Rejects(req.limit) then 1 else 0) + (if Rejects(req.offset) then 1 else 0)
    ensures ValidationLog(req) ==
      if MalformedCount(req) == 0 then []
      else if MalformedCount(req) == 1 then [Unprocessable()]
      else [Unprocessable(), Abort]
  {
    var bs := Checks(req);
    assert bs[1..] == [bs[1], bs[2]] && bs[1..][1..] == [bs[2]] && bs[1..][1..][1..] == [];
    assert Failing(bs[1..][1..]) == if bs[2] then 1 else 0;
    assert Failing(bs[1..]) == (if bs[1] then 1 else 0) + (if bs[2] then 1 else 0);
    ResponsesByCount(bs);
  }

  /**
    After a 422 nothing more goes out: every effect of the chain is kept
    but its responses, each of which is refused instead.
   */
  lemma {:induction false} LateSendsNothing(p: seq<Effect>)
    ensures forall e :: e in Late(p) ==> !e.Respond?
    ensures forall e :: e in p && !e.Respond? ==> e in Late(p)
    ensures forall r :: Respond(r) in p ==> Refused(r) in Late(p)
    ensures |p| > 0 && !p[0].Respond? ==> |Late(p)| > 0 && Late(p)[0] == p[0]
  {
    if |p| > 0 {
      LateSendsNothing(p[1..]);
      var head := match p[0] { case Respond(r) => RefusedAnswer(r) case _ => [p[0]] };
      assert Late(p) == head + Late(p[1..]);
      assert p == [p[0]] + p[1..];
      forall e | e in p && !e.Respond? ensures e in Late(p) {
        if e != p[0] {
          assert e in p[1..];
        }
      }
      forall r | Respond(r) in p ensures Refused(r) in Late(p) {
        if Respond(r) != p[0] {
          assert Respond(r) in p[1..];
        }
      }
    }
  }

  /** The lookup is reached exactly when at most one of the three values is malformed. */
  lemma {:induction false} LookupReachedIff(req: Request, store: Store, service: string -> ReviewReply)
    ensures LookUpFilm(req.id) in HandlerEffects(req, store, service) <==> MalformedCount(req) <= 1
  {
    var chain := Pipeline(req.id, RequestMeta(req), store, service);
    ValidationByCount(req);
    LookupComesFirst(req.id, RequestMeta(req), store, service);
    LateSendsNothing(chain);
    var rest := if MalformedCount(req) >= 2 then [] else if MalformedCount(req) == 1 then Late(chain) else chain;
    assert HandlerEffects(req, store, service) == ValidationLog(req) + rest;
    assert LookUpFilm(req.id) !in ValidationLog(req);
    if MalformedCount(req) <= 1 {
      assert rest[0] == LookUpFilm(req.id);
    }
  }

  /**
    A malformed request gets the one 422 as its first effect and nothing
    else that goes out: no later effect is a 422, nor any other response.
   */
  lemma {:induction false} RejectedRequest(req: Request, store: Store, service: string -> ReviewReply)
    requires MalformedCount(req) >= 1
    ensures var log := HandlerEffects(req, store, service);
      && 0 < |log| && log[0] == Unprocessable()
      && forall i :: 0 < i < |log| ==> !log[i].Respond?
  {
    var chain := Pipeline(req.id, RequestMeta(req), store, service);
    var rest := if MalformedCount(req) >= 2 then [] else Late(chain);
    ValidationByCount(req);
    LateSendsNothing(chain);
    assert forall e :: e in rest ==> !e.Respond?;
    OnlyFirstGoesOut(ValidationLog(req), rest);
  }

  lemma {:induction false} OnlyFirstGoesOut(v: seq<Effect>, rest: seq<Effect>)
    requires v == [Unprocessable()] || v == [Unprocessable(), Abort]
    requires forall e :: e in rest ==> !e.Respond?
    ensures (v + rest)[0] == Unprocessable()
    ensures forall i :: 0 < i < |v + rest| ==> !(v + rest)[i].Respond?
  {
    forall i | 0 < i < |v + rest| ensures !(v + rest)[i].Respond? {
      if i >= |v| {
        assert (v + rest)[i] == rest[i - |v|];
      }
    }
  }

  /**
    A well-formed request runs the chain unaltered, with integer `limit` and
    `offset`: the `NaN` a malformed value gives is never sent.
   */
  lemma {:induction false} AcceptedRequest(req: Request, store: Store, service: string -> ReviewReply)
    requires MalformedCount(req) == 0
    ensures HandlerEffects(req, store, service) == Pipeline(req.id, RequestMeta(req), store, service)
    ensures RequestMeta(req).limit.Int? && RequestMeta(req).offset.Int?
  {
    ValidationByCount(req);
    var chain := Pipeline(req.id, RequestMeta(req), store, service);
    assert HandlerEffects(req, store, service) == [] + chain;
    assert [] + chain == chain;
  }

  /**
    The meta echoes 10 and 0 for absent values, the parsed integer for a
    value that starts with one, `NaN` for any other; and writing `String(n)`
    as the value echoes `n` itself.
   */
  lemma {:induction false} MetaSpec(req: Request, n: int)
    ensures !Supplied(req.limit) ==> RequestMeta(req).limit == Int(DefaultLimit)
    ensures !Supplied(req.offset) ==> RequestMeta(req).offset == Int(DefaultOffset)
    ensures Supplied(req.limit) ==>
      (RequestMeta(req).limit.NaN? <==> !JsText.HasLeadingInteger(req.limit.value))
    ensures Supplied(req.offset) ==>
      (RequestMeta(req).offset.NaN? <==> !JsText.HasLeadingInteger(req.offset.value))
    ensures req.limit == Some(JsText.Decimal(n)) ==> RequestMeta(req).limit == Int(n)
    ensures req.offset == Some(JsText.Decimal(n)) ==> RequestMeta(req).offset == Int(n)
  {
    JsText.ParseIntDecimal(n);
    if Supplied(req.limit) {
      JsText.ParseIntDefinedIff(req.limit.value);
    }
    if Supplied(req.offset) {
      JsText.ParseIntDefinedIff(req.offset.value);
    }
  }

  /** A key naming no film: a 500 answer right after the lookup, nothing else. */
  lemma {:induction false} MissingFilmAnswers500(key: string, meta: Meta, store: Store, service: string -> ReviewReply)
    requires forall f :: f in store.films ==> JsText.Decimal(f.id) != key
    ensures Pipeline(key, meta, store, service) == [LookUpFilm(key), Respond(Response(500, ErrorBody(FilmNotFound)))]
  {
  }

  /**
    For a stored film, the handler looks up its genre, queries the window
    around its release date, and sends the service the candidates' ids, the
    film's own id among them; splitting the query at commas gives back
    exactly the candidates' ids.
   */
  lemma {:induction false} QueriesAroundTarget(film: Film, meta: Meta, store: Store, service: string -> ReviewReply)
    requires UniqueIds(store.films) && film in store.films
    ensures var start, end := WindowStart(film.releaseDate), WindowEnd(film.releaseDate);
      var cands := Candidates(store.films, film.genreId, start, end);
      var log := Pipeline(JsText.Decimal(film.id), meta, store, service);
      && |log| >= 4
      && log[1] == LookUpGenre(film.genreId)
      && log[2] == QueryCandidates(film.genreId, start, end)
      && log[3] == RequestReviews(CandidateQuery(cands))
      && film in cands
      && JsText.ParsesTo(JsText.SplitCommas(CandidateQuery(cands)), CandidateIds(cands))
  {
    var cands := Candidates(store.films, film.genreId, WindowStart(film.releaseDate), WindowEnd(film.releaseDate));
    FindFilmByDecimal(store.films, film);
    PipelineAfterLookup(JsText.Decimal(film.id), film, meta, store, service);
    TargetIsCandidate(store.films, film);
    JsText.JoinIdsRoundTrip(CandidateIds(cands));
  }

  /**
    After a successful film lookup: the genre lookup, the candidate query,
    the request with the candidates' ids, and what follows the reply.
   */
  lemma {:induction false} PipelineAfterLookup(key: string, film: Film, meta: Meta, store: Store, service: string -> ReviewReply)
    requires FindFilm(store.films, key) == Some(film)
    ensures var start, end := WindowStart(film.releaseDate), WindowEnd(film.releaseDate);
      var query := CandidateQuery(Candidates(store.films, film.genreId, start, end));
      Pipeline(key, meta, store, service) ==
        [LookUpFilm(key), LookUpGenre(film.genreId), QueryCandidates(film.genreId, start, end), RequestReviews(query)] +
        AfterReply(service(query), store.films, FindGenre(store.genres, film.genreId), meta)
  {
    var start, end := WindowStart(film.releaseDate), WindowEnd(film.releaseDate);
    var query := CandidateQuery(Candidates(store.films, film.genreId, start, end));
    var after := AfterReply(service(query), store.films, FindGenre(store.genres, film.genreId), meta);
    var found := FilmFound(film, meta, store, service);
    assert found == [LookUpGenre(film.genreId), QueryCandidates(film.genreId, start, end), RequestReviews(query)] + after;
    assert Pipeline(key, meta, store, service) == [LookUpFilm(key)] + found;
    PrependToFour(LookUpFilm(key), LookUpGenre(film.genreId), QueryCandidates(film.genreId, start, end), RequestReviews(query), after);
  }

  lemma {:induction false} PrependToFour<T>(a: T, b: T, c: T, d: T, rest: seq<T>)
    ensures [a] + ([b, c, d] + rest) == [a, b, c, d] + rest
  {
  }

  /**
    After the request, the handler crashes exactly when the service's body
    is malformed; otherwise it re-fetches the selected ids and sends one
    last response: 200 with the recommendations and the meta, or 500, which
    happens only for a missing genre.
   */
  lemma {:induction false} AnswerAfterReply(reply: ReviewReply, films: seq<Film>, genre: Option<Genre>, meta: Meta)
    ensures reply.Malformed? ==> AfterReply(reply, films, genre, meta) == [Crash]
    ensures reply.Parsed? ==>
      var after := AfterReply(reply, films, genre, meta);
      && |after| == 2
      && after[0] == QueryFilms(Selected(reply.entries))
      && after[1].Respond?
      && var answer := after[1].response;
      && (answer.status == 200 <==> genre.Some? || |Refetch(films, Selected(reply.entries))| == 0)
      && (answer.status == 200 ==> answer.body.Answer? && answer.body.meta == meta)
      && (answer.status != 200 ==> answer == Response(500, ErrorBody(GenreNotFound)))
  {
    if reply.Parsed? {
      JoinNeverMissesEntry(films, reply.entries, genre);
    }
  }

  /** `a` and `b` are the same effect, except that answers may differ in their meta. */
  predicate SameUpToMeta(a: Effect, b: Effect) {
    || a == b
    || (&& a.Respond? && b.Respond? && a.response.body.Answer? && b.response.body.Answer?
        && a.response.status == b.response.status
        && a.response.body.recommendations == b.response.body.recommendations)
  }

  /** `s1` and `s2` hold the same effects up to the meta of their answers. */
  predicate EffectsUpToMeta(s1: seq<Effect>, s2: seq<Effect>) {
    |s1| == |s2| && forall i :: 0 <= i < |s1| ==> SameUpToMeta(s1[i], s2[i])
  }

  lemma {:induction false} UpToMetaAfterPrefix(p: seq<Effect>, s1: seq<Effect>, s2: seq<Effect>)
    requires EffectsUpToMeta(s1, s2)
    ensures EffectsUpToMeta(p + s1, p + s2)
  {
    forall i | 0 <= i < |p + s1| ensures SameUpToMeta((p + s1)[i], (p + s2)[i]) {
      if i >= |p| {
        assert (p + s1)[i] == s1[i - |p|] && (p + s2)[i] == s2[i - |p|];
      }
    }
  }

  /**
    `limit` and `offset` are only echoed: from the film lookup on, two
    `meta` values give the same effects and the same recommendations.
   */
  lemma {:induction false} MetaIsOnlyEchoed(key: string, m1: Meta, m2: Meta, store: Store, service: string -> ReviewReply)
    ensures EffectsUpToMeta(Pipeline(key, m1, store, service), Pipeline(key, m2, store, service))
  {
    match FindFilm(store.films, key) {
      case None =>
        assert Pipeline(key, m1, store, service) == Pipeline(key, m2, store, service);
      case Some(film) =>
        var start, end := WindowStart(film.releaseDate), WindowEnd(film.releaseDate);
        var query := CandidateQuery(Candidates(store.films, film.genreId, start, end));
        var genre := FindGenre(store.genres, film.genreId);
        PipelineAfterLookup(key, film, m1, store, service);
        PipelineAfterLookup(key, film, m2, store, service);
        var a1 := AfterReply(service(query), store.films, genre, m1);
        var a2 := AfterReply(service(query), store.films, genre, m2);
        assert EffectsUpToMeta(a1, a2);
        UpToMetaAfterPrefix([LookUpFilm(key), LookUpGenre(film.genreId), QueryCandidates(film.genreId, start, end),
          RequestReviews(query)], a1, a2);
    }
  }
}
