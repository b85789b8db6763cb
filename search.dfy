/** The movie search of `Movie::Search`: TMDB results are turned into `Movie`
    drafts, linked with Netflix titles and Rotten Tomatoes reviews, saved, and
    when TMDB fails a Netflix-only search and then a title search of the store
    take over.

    The first half states each step as a function (the specification); the
    second half is the imperative code: an array object shared by reference,
    the `RecordSpawner` with its mutable fields, and the search methods, each
    proved equal to its specification. */
module MovieSearch {
  import opened Ruby
  import opened Records

  /** A call `make(tmdb_movie, netflix_title)`; `title` is nil when the call
      passes no Netflix title. */
  datatype Request = Request(record: TmdbRecord, title: Option<NetflixTitle>)

  /** The spawner's `made_movies` and `imdb_ids`. */
  datatype Batch = Batch(made: seq<Movie>, imdbIds: seq<string>)

  const EmptyBatch := Batch([], [])

  /** The test `tmdb_movies.delete(x)` applies to each element `e`: Ruby's
      `Array#delete` compares by identity first, which shows here as equal
      values, and then calls the records' own `e == x`, given as
      `sameRecord`. */
  function Deletes(sameRecord: (TmdbRecord, TmdbRecord) -> bool): (TmdbRecord, TmdbRecord) -> bool
  {
    (e: TmdbRecord, x: TmdbRecord) => e == x || sameRecord(e, x)
  }

  /** `tmdb_movies.map(&:id)`. */
  function TmdbIds(ts: seq<TmdbRecord>): seq<int>
  {
    seq(|ts|, i requires 0 <= i < |ts| => ts[i].id)
  }

  /** `netflix_titles.map(&:id)`. */
  function TitleIds(ts: seq<NetflixTitle>): seq<int>
  {
    seq(|ts|, i requires 0 <= i < |ts| => ts[i].id)
  }

  /** The spawner's `existing`: the stored movies whose TMDB id is one of
      `tmdbIds`, indexed by TMDB id. */
  function Existing(store: seq<StoredMovie>, tmdbIds: seq<int>): seq<StoredMovie>
  {
    IndexBy(WhereKeyIn(store, TmdbIdKey, tmdbIds), TmdbIdKey)
  }

  function NetflixIdIs(id: int): StoredMovie -> bool
  {
    (m: StoredMovie) => m.netflixId == Some(id)
  }

  function TmdbIdIs(id: Option<int>): TmdbRecord -> bool
  {
    (t: TmdbRecord) => id == Some(t.id)
  }

  function LinkedTo(nt: NetflixTitle, linksTo: (TmdbRecord, NetflixTitle) -> bool): TmdbRecord -> bool
  {
    (t: TmdbRecord) => linksTo(t, nt)
  }

  /** `find_linked_to_netflix`: a stored movie that already carries the
      title's Netflix id decides alone; only without one does title equality
      (`linksTo`, Ruby's `tmdb == netflix_title`) pick a pending record. */
  function LinkTarget(existing: seq<StoredMovie>, pending: seq<TmdbRecord>, nt: NetflixTitle,
                      linksTo: (TmdbRecord, NetflixTitle) -> bool): Option<TmdbRecord>
  {
    match Find(existing, NetflixIdIs(nt.id))
    case Some(m) => Find(pending, TmdbIdIs(m.tmdbId))
    case None => Find(pending, LinkedTo(nt, linksTo))
  }

  /** The guard of `make`: the record's IMDB id is present and already produced. */
  predicate Suppressed(imdbIds: seq<string>, t: TmdbRecord)
  {
    Present(t.imdbId) && t.imdbId.value in imdbIds
  }

  /** The movie `make` produces for a request that is not suppressed: the
      stored movie for the TMDB id when there is one, else `Movie.new`, with
      the records of the request attached. */
  function DraftOf(existing: seq<StoredMovie>, r: Request): (d: Movie)
    ensures d.tmdbId == Some(r.record.id) && d.imdbId == r.record.imdbId && d.tmdbMovie == Some(r.record)
    ensures d.netflixTitle == r.title && d.rottenMovie == None
    ensures r.title.Some? ==> d.netflixId == Some(r.title.value.id)
    ensures d.storedId.Some? <==> Lookup(existing, TmdbIdKey, Some(r.record.id)).Some?
    ensures d.storedId.Some? ==>
      && d.storedId.value == Lookup(existing, TmdbIdKey, Some(r.record.id)).value.id
      && (r.title.None? ==> d.netflixId == Lookup(existing, TmdbIdKey, Some(r.record.id)).value.netflixId)
    ensures d.storedId.None? && r.title.None? ==> d.netflixId == None
  {
    var base := match Lookup(existing, TmdbIdKey, Some(r.record.id))
      case Some(s) => Load(s)
      case None => NewMovie();
    var m := SetTmdbMovie(base, r.record);
    if r.title.Some? then SetNetflixTitle(m, r.title.value) else m
  }

  /** What `imdb_ids << movie.imdb_id if movie.imdb_id` appends. */
  function ImdbIdOf(m: Movie): seq<string>
  {
    if m.imdbId.Some? then [m.imdbId.value] else []
  }

  /** The state after one `make`. */
  function MakeStep(existing: seq<StoredMovie>, b: Batch, r: Request): Batch
  {
    if Suppressed(b.imdbIds, r.record) then b
    else
      var d := DraftOf(existing, r);
      Batch(b.made + [d], b.imdbIds + ImdbIdOf(d))
  }

  /** The state after a sequence of `make` calls. */
  function MakeRequests(existing: seq<StoredMovie>, b: Batch, reqs: seq<Request>): Batch
    decreases |reqs|
  {
    if reqs == [] then b else MakeRequests(existing, MakeStep(existing, b, reqs[0]), reqs[1..])
  }

  /** `b` holds the documents of `a`, in their order, up to their Netflix ids. */
  predicate SameDocuments(a: seq<StoredMovie>, b: seq<StoredMovie>)
  {
    |a| == |b| && forall k :: 0 <= k < |a| ==> b[k] == a[k].(netflixId := b[k].netflixId)
  }

  /** What `movie.netflix_title = netflix_title` does to `@existing` when
      `make` took `movie` out of it: the movie is that very object, so the
      memo now carries the title's Netflix id for that TMDB id. The other
      keys `make` writes on it are overwritten by any later `make` before
      being read, so they are not tracked. */
  function Relinked(existing: seq<StoredMovie>, t: TmdbRecord, nt: NetflixTitle): (r: seq<StoredMovie>)
    ensures SameDocuments(existing, r)
    ensures forall k :: 0 <= k < |r| ==>
      r[k] == existing[k] || (existing[k].tmdbId == Some(t.id) && r[k] == existing[k].(netflixId := Some(nt.id)))
    ensures Lookup(r, TmdbIdKey, Some(t.id)).Some? <==> Lookup(existing, TmdbIdKey, Some(t.id)).Some?
    ensures Lookup(existing, TmdbIdKey, Some(t.id)).Some? ==>
      Lookup(r, TmdbIdKey, Some(t.id)).value == Lookup(existing, TmdbIdKey, Some(t.id)).value.(netflixId := Some(nt.id))
    ensures Lookup(existing, TmdbIdKey, Some(t.id)).None? ==> r == existing
  {
    var k := FindIndex(existing, HasKey(TmdbIdKey, Some(t.id)));
    if k < |existing| then
      var r := existing[k := existing[k].(netflixId := Some(nt.id))];
      assert forall j :: 0 <= j < |r| ==> r[j].tmdbId == existing[j].tmdbId;
      assert FindIndex(r, HasKey(TmdbIdKey, Some(t.id))) == k;
      r
    else existing
  }

  /** `@existing` after one `make`. */
  function MemoStep(existing: seq<StoredMovie>, b: Batch, r: Request): seq<StoredMovie>
  {
    if Suppressed(b.imdbIds, r.record) || r.title.None? then existing
    else Relinked(existing, r.record, r.title.value)
  }

  /** The state of the linking loop of `search_combined`: the spawner's
      `@existing`, its batch, what is left in `tmdb_movies`, and the `make`
      calls made so far. */
  datatype Linking = Linking(existing: seq<StoredMovie>, batch: Batch, pending: seq<TmdbRecord>, linked: seq<Request>)

  /** One title of the linking loop: find its TMDB record, delete that
      record from `tmdb_movies`, and make it with the title. */
  function LinkOne(s: Linking, nt: NetflixTitle, linksTo: (TmdbRecord, NetflixTitle) -> bool,
                   sameRecord: (TmdbRecord, TmdbRecord) -> bool): Linking
  {
    match LinkTarget(s.existing, s.pending, nt, linksTo)
    case None => s
    case Some(t) =>
      var r := Request(t, Some(nt));
      Linking(MemoStep(s.existing, s.batch, r), MakeStep(s.existing, s.batch, r),
              Without(s.pending, Deletes(sameRecord), t), s.linked + [r])
  }

  /** The linking loop over `titles`, in Netflix order. */
  function Link(s: Linking, titles: seq<NetflixTitle>, linksTo: (TmdbRecord, NetflixTitle) -> bool,
                sameRecord: (TmdbRecord, TmdbRecord) -> bool): Linking
    decreases |titles|
  {
    if titles == [] then s
    else Link(LinkOne(s, titles[0], linksTo, sameRecord), titles[1..], linksTo, sameRecord)
  }

  /** The linking loop of a fresh spawner whose `@tmdb_movies` is `records`. */
  function LinkAll(existing: seq<StoredMovie>, records: seq<TmdbRecord>, titles: seq<NetflixTitle>,
                   linksTo: (TmdbRecord, NetflixTitle) -> bool, sameRecord: (TmdbRecord, TmdbRecord) -> bool): Linking
  {
    Link(Linking(existing, EmptyBatch, records, []), titles, linksTo, sameRecord)
  }

  /** `each { |tmdb| spawner.make(tmdb) }`. */
  function RestRequests(ts: seq<TmdbRecord>): seq<Request>
  {
    seq(|ts|, i requires 0 <= i < |ts| => Request(ts[i], None))
  }

  /** Every `make` call of `search_combined`, in order. */
  function CombinedRequests(existing: seq<StoredMovie>, records: seq<TmdbRecord>, titles: seq<NetflixTitle>,
                            linksTo: (TmdbRecord, NetflixTitle) -> bool,
                            sameRecord: (TmdbRecord, TmdbRecord) -> bool): seq<Request>
  {
    var l := LinkAll(existing, records, titles, linksTo, sameRecord);
    l.linked + RestRequests(l.pending)
  }

  /** The drafts `from_tmdb_movies` returns to `search_combined`: the linking
      loop, then a `make` for every record left, against the memo as the
      loop left it. */
  function CombinedDrafts(store: seq<StoredMovie>, records: seq<TmdbRecord>, titles: seq<NetflixTitle>,
                          linksTo: (TmdbRecord, NetflixTitle) -> bool,
                          sameRecord: (TmdbRecord, TmdbRecord) -> bool): seq<Movie>
  {
    var l := LinkAll(Existing(store, TmdbIds(records)), records, titles, linksTo, sameRecord);
    MakeRequests(l.existing, l.batch, RestRequests(l.pending)).made
  }

  /** The review pass: each draft in turn takes what `rotten_movies.delete(movie)`
      returns, and the pool shrinks; `reviews(r, m)` is Ruby's `r == m`. */
  function AttachReviews(drafts: seq<Movie>, pool: seq<RottenRecord>,
                         reviews: (RottenRecord, Movie) -> bool): (ms: seq<Movie>)
    ensures |ms| == |drafts|
    decreases |drafts|
  {
    if drafts == [] then []
    else
      var d := drafts[0];
      var r := LastEqual(pool, reviews, d);
      [if r.Some? then SetRottenMovie(d, r.value) else d]
      + AttachReviews(drafts[1..], Without(pool, reviews, d), reviews)
  }

  /** The first step of the review pass. */
  lemma AttachUnfold(drafts: seq<Movie>, pool: seq<RottenRecord>, reviews: (RottenRecord, Movie) -> bool)
    requires drafts != []
    ensures var ms := AttachReviews(drafts, pool, reviews);
      var r := LastEqual(pool, reviews, drafts[0]);
      && ms == [if r.Some? then SetRottenMovie(drafts[0], r.value) else drafts[0]] + ms[1..]
      && ms[0] == (if r.Some? then SetRottenMovie(drafts[0], r.value) else drafts[0])
      && ms[1..] == AttachReviews(drafts[1..], Without(pool, reviews, drafts[0]), reviews)
  {
    var r := LastEqual(pool, reviews, drafts[0]);
    var first := if r.Some? then SetRottenMovie(drafts[0], r.value) else drafts[0];
    var rest := AttachReviews(drafts[1..], Without(pool, reviews, drafts[0]), reviews);
    assert ([first] + rest)[1..] == rest;
  }

  /** `reject { |m| m.year.blank? }`. */
  function WithYear(records: seq<TmdbRecord>): (r: seq<TmdbRecord>)
    ensures |r| <= |records|
    ensures forall i :: 0 <= i < |r| ==> r[i] in records && !BlankOpt(r[i].year)
    ensures forall i :: 0 <= i < |records| && !BlankOpt(records[i].year) ==> records[i] in r
    ensures Subsequence(r, records)
  {
    if records == [] then []
    else
      var rest := WithYear(records[1..]);
      assert records == [records[0]] + records[1..];
      if BlankOpt(records[0].year) then
        SubsequenceSkip(records[0], rest, records[1..]);
        rest
      else
        SubsequenceCons(records[0], rest, records[1..]);
        [records[0]] + rest
  }

  /** The exceptions `search_netflix_titles` and `search_rotten_tomatoes`
      rescue: `Faraday::Error::ClientError, Timeout::Error`. */
  predicate Swallowed(f: Failure) { IsA(f, ClientError) || IsA(f, Timeout) }

  /** The exceptions `search` rescues: `Faraday::Error::ClientError,
      Faraday::Error::ParsingError, Timeout::Error`. */
  predicate Rescued(f: Failure) { IsA(f, ClientError) || IsA(f, ParsingError) || IsA(f, Timeout) }

  /** The rescue of `search_netflix_titles` and `search_rotten_tomatoes`: a
      client error (a parsing error among them) or a timeout becomes an
      empty result; every other exception goes on up. */
  function RescueProvider<T>(resp: Response<T>): (r: Response<T>)
    ensures r.Raise? <==> resp.Raise? && !Swallowed(resp.failure)
    ensures r.Raise? ==> r == resp
    ensures r.Ok? ==> r.records == if resp.Ok? then resp.records else []
  {
    match resp
    case Ok(_) => resp
    case Raise(f) => if Swallowed(f) then Ok([]) else resp
  }

  /** What one stage of the search returns (or raises), with the movies it saved. */
  datatype Outcome = Returned(movies: seq<Movie>) | Raised(failure: Failure)

  datatype Run = Run(outcome: Outcome, saved: seq<Movie>)

  /** `search_combined`. */
  function Combined(tmdb: Response<TmdbRecord>, netflix: Response<NetflixTitle>, rotten: Response<RottenRecord>,
                    store: seq<StoredMovie>, linksTo: (TmdbRecord, NetflixTitle) -> bool,
                    sameRecord: (TmdbRecord, TmdbRecord) -> bool, reviews: (RottenRecord, Movie) -> bool): Run
  {
    match tmdb
    case Raise(f) => Run(Raised(f), [])
    case Ok(found) =>
      var records := WithYear(found);
      if records == [] then Run(Returned([]), [])
      else match RescueProvider(netflix)
        case Raise(f) => Run(Raised(f), [])
        case Ok(titles) => match RescueProvider(rotten)
          case Raise(f) => Run(Raised(f), [])
          case Ok(pool) =>
            var movies := AttachReviews(CombinedDrafts(store, records, titles, linksTo, sameRecord), pool, reviews);
            Run(Returned(movies), movies)
  }

  /** `existing[title.id]` with `netflix_title = title`, for each title in
      order, dropping the titles without a stored movie (`map ... compact`). */
  function MatchTitles(titles: seq<NetflixTitle>, idx: seq<StoredMovie>): seq<Movie>
    decreases |titles|
  {
    if titles == [] then []
    else
      (match Lookup(idx, NetflixIdKey, Some(titles[0].id))
       case Some(s) => [SetNetflixTitle(Load(s), titles[0])]
       case None => [])
      + MatchTitles(titles[1..], idx)
  }

  /** `from_netflix_movies`. */
  function FromNetflixMovies(titles: seq<NetflixTitle>, store: seq<StoredMovie>): seq<Movie>
  {
    MatchTitles(titles, IndexBy(WhereKeyIn(store, NetflixIdKey, TitleIds(titles)), NetflixIdKey))
  }

  /** `search_netflix`. */
  function NetflixOnly(netflix: Response<NetflixTitle>, store: seq<StoredMovie>): Run
  {
    match RescueProvider(netflix)
    case Raise(f) => Run(Raised(f), [])
    case Ok(titles) =>
      if titles == [] then Run(Returned([]), [])
      else
        var movies := FromNetflixMovies(titles, store);
        Run(Returned(movies), movies)
  }

  /** What `search` returns, tagged with the step of the fallback chain that
      produced it, or the exception that escapes it. */
  datatype SearchResult =
    | FromCombined(movies: seq<Movie>)
    | FromNetflix(movies: seq<Movie>)
    | FromRegexp(movies: seq<Movie>)
    | Failed(failure: Failure)

  datatype SearchRun = SearchRun(result: SearchResult, saved: seq<Movie>)

  /** `search`: the combined search; on a rescued exception, the Netflix-only
      search (asked again), and when that finds nothing, `search_regexp`,
      whose matches are given as `regexpMatches`. */
  function SearchSpec(tmdb: Response<TmdbRecord>, netflix: Response<NetflixTitle>, rotten: Response<RottenRecord>,
                      netflixAgain: Response<NetflixTitle>, regexpMatches: seq<Movie>, store: seq<StoredMovie>,
                      linksTo: (TmdbRecord, NetflixTitle) -> bool, sameRecord: (TmdbRecord, TmdbRecord) -> bool,
                      reviews: (RottenRecord, Movie) -> bool): SearchRun
  {
    var c := Combined(tmdb, netflix, rotten, store, linksTo, sameRecord, reviews);
    match c.outcome
    case Returned(ms) => SearchRun(FromCombined(ms), c.saved)
    case Raised(f) =>
      if !Rescued(f) then SearchRun(Failed(f), [])
      else
        var n := NetflixOnly(netflixAgain, store);
        match n.outcome
        case Raised(g) => SearchRun(Failed(g), [])
        case Returned(ms) =>
          if ms == [] then SearchRun(FromRegexp(regexpMatches), [])
          else SearchRun(FromNetflix(ms), n.saved)
  }

  /** A Ruby `Array` object, shared by reference. */
  class RecordList<T> {
    var items: seq<T>

    constructor (items: seq<T>)
      ensures this.items == items
    {
      this.items := items;
    }

    /** `Array#delete`: removes every element equal to `x` (`eq(e, x)` is
        `e == x`), compacting the array in one pass, and returns the last
        removed element, or nil. */
    method Delete<U>(eq: (T, U) -> bool, x: U) returns (last: Option<T>)
      modifies this
      ensures items == Without(old(items), eq, x)
      ensures last == LastEqual(old(items), eq, x)
    {
      var s := items;
      var kept: seq<T> := [];
      last := None;
      var i := 0;
      while i < |s|
        invariant 0 <= i <= |s|
        invariant kept + Without(s[i..], eq, x) == Without(s, eq, x)
        invariant LastEqual(s[i..], eq, x).Or(last) == LastEqual(s, eq, x)
      {
        DeleteStep(s, i, eq, x);
        if eq(s[i], x) {
          assert Without(s[i..], eq, x) == Without(s[i + 1..], eq, x);
          last := Some(s[i]);
        } else {
          assert kept + [s[i]] + Without(s[i + 1..], eq, x) == kept + Without(s[i..], eq, x);
          kept := kept + [s[i]];
        }
        i := i + 1;
      }
      assert s[|s|..] == [];
      items := kept;
    }
  }

  /** `RecordSpawner`: makes `Movie` drafts for TMDB records, reusing stored
      movies and skipping records whose IMDB id was already produced. */
  class RecordSpawner {
    /** `@tmdb_movies`: the array `search_combined` deletes from, shared. */
    const tmdbMovies: RecordList<TmdbRecord>
    const tmdbIds: seq<int>
    /** The store `existing` queries. */
    const store: seq<StoredMovie>
    /** Ruby's `tmdb == netflix_title`. */
    const linksTo: (TmdbRecord, NetflixTitle) -> bool
    var madeMovies: seq<Movie>
    var imdbIds: seq<string>
    /** `@existing`, nil until first asked for. */
    var existingMemo: Option<seq<StoredMovie>>

    /** The memo holds the movies the query found, changed only in the
        Netflix ids that `make` wrote onto them. */
    ghost predicate Valid()
      reads this
    {
      SameDocuments(Existing(store, tmdbIds), Index())
    }

    /** What `existing` returns from now on: the memo, or the query it runs
        when there is none yet. */
    function Index(): seq<StoredMovie>
      reads this
    {
      existingMemo.GetOr(Existing(store, tmdbIds))
    }

    function State(): Batch
      reads this
    {
      Batch(madeMovies, imdbIds)
    }

    constructor (tmdbMovies: RecordList<TmdbRecord>, store: seq<StoredMovie>,
                 linksTo: (TmdbRecord, NetflixTitle) -> bool)
      ensures Valid()
      ensures this.tmdbMovies == tmdbMovies && tmdbIds == TmdbIds(tmdbMovies.items)
      ensures this.store == store && this.linksTo == linksTo
      ensures State() == EmptyBatch && existingMemo == None && Index() == Existing(store, tmdbIds)
    {
      this.tmdbMovies := tmdbMovies;
      this.tmdbIds := TmdbIds(tmdbMovies.items);
      this.store := store;
      this.linksTo := linksTo;
      madeMovies := [];
      imdbIds := [];
      existingMemo := None;
    }

    /** `existing`, memoized. */
    method GetExisting() returns (idx: seq<StoredMovie>)
      requires Valid()
      modifies this`existingMemo
      ensures Valid() && idx == old(Index()) && existingMemo == Some(idx) && Index() == idx
    {
      if existingMemo.None? {
        existingMemo := Some(Existing(store, tmdbIds));
      }
      idx := existingMemo.value;
    }

    /** `find_linked_to_netflix`: looks in what is still in `@tmdb_movies`. */
    method FindLinkedToNetflix(nt: NetflixTitle) returns (r: Option<TmdbRecord>)
      requires Valid()
      modifies this`existingMemo
      ensures Valid() && Index() == old(Index())
      ensures r == LinkTarget(old(Index()), tmdbMovies.items, nt, linksTo)
    {
      var existing := GetExisting();
      var movie := Find(existing, NetflixIdIs(nt.id));
      if movie.Some? {
        r := Find(tmdbMovies.items, TmdbIdIs(movie.value.tmdbId));
      } else {
        r := Find(tmdbMovies.items, LinkedTo(nt, linksTo));
      }
    }

    /** `make`. */
    method Make(t: TmdbRecord, nt: Option<NetflixTitle>) returns (r: Option<Movie>)
      requires Valid()
      modifies this`existingMemo, this`madeMovies, this`imdbIds
      ensures Valid()
      ensures State() == MakeStep(old(Index()), old(State()), Request(t, nt))
      ensures Index() == MemoStep(old(Index()), old(State()), Request(t, nt))
      ensures Suppressed(old(imdbIds), t) ==>
        r == None && madeMovies == old(madeMovies) && imdbIds == old(imdbIds)
      ensures !Suppressed(old(imdbIds), t) ==>
        && r == Some(DraftOf(old(Index()), Request(t, nt)))
        && madeMovies == old(madeMovies) + [r.value]
        && imdbIds == old(imdbIds) + ImdbIdOf(r.value)
    {
      if Present(t.imdbId) && t.imdbId.value in imdbIds {
        return None;
      }
      var existing := GetExisting();
      var stored := Lookup(existing, TmdbIdKey, Some(t.id));
      var movie := if stored.Some? then Load(stored.value) else NewMovie();
      movie := SetTmdbMovie(movie, t);
      if nt.Some? {
        movie := SetNetflixTitle(movie, nt.value);
        // `movie` is the memo's own object when it was stored
        existingMemo := Some(Relinked(existing, t, nt.value));
      }
      madeMovies := madeMovies + [movie];
      if movie.imdbId.Some? {
        imdbIds := imdbIds + [movie.imdbId.value];
      }
      r := Some(movie);
    }

    /** `make_all`. */
    method MakeAll()
      requires Valid()
      modifies this`existingMemo, this`madeMovies, this`imdbIds
      ensures Valid() && Index() == old(Index())
      ensures State() == MakeRequests(old(Index()), old(State()), RestRequests(tmdbMovies.items))
    {
      var records := tmdbMovies.items;
      ghost var existing := Index();
      ghost var goal := MakeRequests(existing, State(), RestRequests(records));
      var i := 0;
      while i < |records|
        invariant 0 <= i <= |records| && Valid() && Index() == existing
        invariant MakeRequests(existing, State(), RestRequests(records[i..])) == goal
      {
        assert RestRequests(records[i..]) == [Request(records[i], None)] + RestRequests(records[i + 1..]);
        var _ := Make(records[i], None);
        i := i + 1;
      }
    }
  }

  /** `from_tmdb_movies` without a block: `make_all`, then `made_movies`. */
  method FromTmdbMovies(records: seq<TmdbRecord>, store: seq<StoredMovie>,
                        linksTo: (TmdbRecord, NetflixTitle) -> bool) returns (made: seq<Movie>)
    ensures made == MakeRequests(Existing(store, TmdbIds(records)), EmptyBatch, RestRequests(records)).made
  {
    var list := new RecordList(records);
    var spawner := new RecordSpawner(list, store, linksTo);
    spawner.MakeAll();
    made := spawner.madeMovies;
  }

  /** `search_combined`. */
  method SearchCombined(tmdb: Response<TmdbRecord>, netflix: Response<NetflixTitle>, rotten: Response<RottenRecord>,
                        store: seq<StoredMovie>, linksTo: (TmdbRecord, NetflixTitle) -> bool,
                        sameRecord: (TmdbRecord, TmdbRecord) -> bool, reviews: (RottenRecord, Movie) -> bool)
    returns (run: Run)
    ensures run == Combined(tmdb, netflix, rotten, store, linksTo, sameRecord, reviews)
  {
    if tmdb.Raise? {
      return Run(Raised(tmdb.failure), []);
    }
    var records := WithYear(tmdb.records);
    if records == [] {
      return Run(Returned([]), []);
    }
    var titlesResp := RescueProvider(netflix);
    if titlesResp.Raise? {
      return Run(Raised(titlesResp.failure), []);
    }
    var rottenResp := RescueProvider(rotten);
    if rottenResp.Raise? {
      return Run(Raised(rottenResp.failure), []);
    }
    var titles, pool0 := titlesResp.records, rottenResp.records;

    var tmdbMovies := new RecordList(records);
    var spawner := new RecordSpawner(tmdbMovies, store, linksTo);
    LinkNetflixTitles(spawner, titles, sameRecord);
    // `tmdb_movies.each { |tmdb| spawner.make(tmdb) }` walks the array the
    // spawner shares, exactly as `make_all` does
    spawner.MakeAll();
    var movies := AttachAndSave(spawner.madeMovies, pool0, reviews);
    run := Run(Returned(movies), movies);
  }

  /** The linking loop of `search_combined`: for each Netflix title, find its
      TMDB record, delete it from the shared array, and make it. */
  method LinkNetflixTitles(spawner: RecordSpawner, titles: seq<NetflixTitle>,
                           sameRecord: (TmdbRecord, TmdbRecord) -> bool)
    requires spawner.Valid()
    modifies spawner`existingMemo, spawner`madeMovies, spawner`imdbIds, spawner.tmdbMovies
    ensures spawner.Valid()
    ensures var l := Link(old(Linking(spawner.Index(), spawner.State(), spawner.tmdbMovies.items, [])),
                          titles, spawner.linksTo, sameRecord);
      spawner.Index() == l.existing && spawner.State() == l.batch && spawner.tmdbMovies.items == l.pending
  {
    var tmdbMovies := spawner.tmdbMovies;
    ghost var linksTo := spawner.linksTo;
    ghost var linked: seq<Request> := [];
    ghost var goal := Link(Linking(spawner.Index(), spawner.State(), tmdbMovies.items, []), titles, linksTo, sameRecord);
    var i := 0;
    while i < |titles|
      invariant 0 <= i <= |titles| && spawner.Valid()
      invariant Link(Linking(spawner.Index(), spawner.State(), tmdbMovies.items, linked),
                     titles[i..], linksTo, sameRecord) == goal
    {
      assert titles[i..][0] == titles[i] && titles[i..][1..] == titles[i + 1..];
      var tmdbMovie := spawner.FindLinkedToNetflix(titles[i]);
      if tmdbMovie.Some? {
        var _ := tmdbMovies.Delete(Deletes(sameRecord), tmdbMovie.value);
        var _ := spawner.Make(tmdbMovie.value, Some(titles[i]));
        linked := linked + [Request(tmdbMovie.value, Some(titles[i]))];
      }
      i := i + 1;
    }
  }

  /** The `each` over the made movies in `search_combined`: hand each its
      Rotten Tomatoes record out of the pool, then save it. */
  method AttachAndSave(made: seq<Movie>, pool0: seq<RottenRecord>, reviews: (RottenRecord, Movie) -> bool)
    returns (saved: seq<Movie>)
    ensures saved == AttachReviews(made, pool0, reviews)
  {
    var pool := new RecordList(pool0);
    saved := [];
    var k := 0;
    while k < |made|
      invariant 0 <= k <= |made|
      invariant saved + AttachReviews(made[k..], pool.items, reviews) == AttachReviews(made, pool0, reviews)
    {
      assert made[k..][0] == made[k] && made[k..][1..] == made[k + 1..];
      AttachUnfold(made[k..], pool.items, reviews);
      var movie := made[k];
      var review := pool.Delete(reviews, movie);
      if review.Some? {
        movie := SetRottenMovie(movie, review.value);
      }
      assert saved + [movie] + AttachReviews(made[k + 1..], pool.items, reviews)
          == saved + ([movie] + AttachReviews(made[k + 1..], pool.items, reviews));
      saved := saved + [movie];
      k := k + 1;
    }
    assert made[|made|..] == [];
  }

  /** `search_netflix`: the Netflix-only search, saving what it finds. */
  method SearchNetflix(netflix: Response<NetflixTitle>, store: seq<StoredMovie>) returns (run: Run)
    ensures run == NetflixOnly(netflix, store)
  {
    var titles := RescueProvider(netflix);
    if titles.Raise? {
      return Run(Raised(titles.failure), []);
    }
    if titles.records == [] {
      return Run(Returned([]), []);
    }
    var movies := FromNetflixMovies(titles.records, store);
    // `each(&:save)`: `saved` records the movies saved, in order
    var saved: seq<Movie> := [];
    var i := 0;
    while i < |movies|
      invariant 0 <= i <= |movies| && saved == movies[..i]
    {
      saved := saved + [movies[i]];
      i := i + 1;
    }
    assert movies[..|movies|] == movies;
    run := Run(Returned(movies), saved);
  }

  /** `search`. */
  method Search(tmdb: Response<TmdbRecord>, netflix: Response<NetflixTitle>, rotten: Response<RottenRecord>,
                netflixAgain: Response<NetflixTitle>, regexpMatches: seq<Movie>, store: seq<StoredMovie>,
                linksTo: (TmdbRecord, NetflixTitle) -> bool, sameRecord: (TmdbRecord, TmdbRecord) -> bool,
                reviews: (RottenRecord, Movie) -> bool)
    returns (r: SearchRun)
    ensures r == SearchSpec(tmdb, netflix, rotten, netflixAgain, regexpMatches, store, linksTo, sameRecord, reviews)
  {
    var c := SearchCombined(tmdb, netflix, rotten, store, linksTo, sameRecord, reviews);
    if c.outcome.Returned? {
      return SearchRun(FromCombined(c.outcome.movies), c.saved);
    }
    if !Rescued(c.outcome.failure) {
      return SearchRun(Failed(c.outcome.failure), []);
    }
    var n := SearchNetflix(netflixAgain, store);
    if n.outcome.Raised? {
      return SearchRun(Failed(n.outcome.failure), []);
    }
    if n.outcome.movies == [] {
      return SearchRun(FromRegexp(regexpMatches), []);
    }
    r := SearchRun(FromNetflix(n.outcome.movies), n.saved);
  }
}
