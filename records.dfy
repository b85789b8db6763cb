/** The records the search pipeline works on: what each provider returns, the
    movie documents of the store and the in-memory `Movie` drafts built from
    them, the outcomes of provider calls, and the store's `index_by` lookups. */
module Records {
  import opened Ruby

  /** A movie as the TMDB search returns it. */
  datatype TmdbRecord = TmdbRecord(id: int, imdbId: Option<string>, name: string, year: Option<string>)

  /** A catalog title as the Netflix search returns it. */
  datatype NetflixTitle = NetflixTitle(id: int, name: string, year: Option<int>, specialEdition: bool)

  /** A movie as the Rotten Tomatoes search returns it. */
  datatype RottenRecord = RottenRecord(id: int, title: string)

  /** The keys of a movie document already in the store. */
  datatype StoredMovie = StoredMovie(id: int, tmdbId: Option<int>, netflixId: Option<int>, imdbId: Option<string>)

  /** A `Movie` instance: its keys, the store document it was loaded from (nil
      for `Movie.new`), and the provider records attached to it in memory. */
  datatype Movie = Movie(
    storedId: Option<int>,
    tmdbId: Option<int>,
    netflixId: Option<int>,
    imdbId: Option<string>,
    tmdbMovie: Option<TmdbRecord>,
    netflixTitle: Option<NetflixTitle>,
    rottenMovie: Option<RottenRecord>)

  /** `Movie.new`. */
  function NewMovie(): Movie
  {
    Movie(None, None, None, None, None, None, None)
  }

  /** A store document loaded as a `Movie`: nothing attached yet. */
  function Load(s: StoredMovie): Movie
  {
    Movie(Some(s.id), s.tmdbId, s.netflixId, s.imdbId, None, None, None)
  }

  /** `movie.tmdb_movie = t`: the movie takes the TMDB id and the IMDB id of `t`. */
  function SetTmdbMovie(m: Movie, t: TmdbRecord): Movie
  {
    m.(tmdbId := Some(t.id), imdbId := t.imdbId, tmdbMovie := Some(t))
  }

  /** `movie.netflix_title = nt`: the movie takes the Netflix id of `nt`. */
  function SetNetflixTitle(m: Movie, nt: NetflixTitle): Movie
  {
    m.(netflixId := Some(nt.id), netflixTitle := Some(nt))
  }

  /** `movie.rotten_movie = r`. */
  function SetRottenMovie(m: Movie, r: RottenRecord): Movie
  {
    m.(rottenMovie := Some(r))
  }

  /** The exception classes a provider call can raise: Faraday's
      `Faraday::Error::ClientError` (standing for it and every subclass
      other than the next one), Faraday's `Faraday::Error::ParsingError`,
      Ruby's `Timeout::Error`, and any other class. */
  datatype Failure = ClientError | ParsingError | Timeout | OtherError

  /** `rescue C` catches `f` when the class of `f` is `C` or a subclass of
      `C`; in Faraday, `ParsingError` is a subclass of `ClientError`. */
  predicate IsA(f: Failure, c: Failure)
  {
    f == c || (f == ParsingError && c == ClientError)
  }

  /** The outcome of one provider call: its records, or the exception it raised. */
  datatype Response<T> = Ok(records: seq<T>) | Raise(failure: Failure)

  /** The field a store query and `index_by` are keyed on. */
  datatype Key = TmdbIdKey | NetflixIdKey

  function KeyOf(m: StoredMovie, k: Key): Option<int>
  {
    match k
    case TmdbIdKey => m.tmdbId
    case NetflixIdKey => m.netflixId
  }

  function HasKey(k: Key, v: Option<int>): StoredMovie -> bool
  {
    m => KeyOf(m, k) == v
  }

  /** `find(key => {'$in' => ids})`: the store's documents whose key is one of
      `ids`, in the store's order. */
  function WhereKeyIn(store: seq<StoredMovie>, k: Key, ids: seq<int>): (r: seq<StoredMovie>)
    ensures forall i :: 0 <= i < |r| ==> r[i] in store && KeyOf(r[i], k).Some? && KeyOf(r[i], k).value in ids
    ensures forall i :: 0 <= i < |store| && KeyOf(store[i], k).Some? && KeyOf(store[i], k).value in ids ==> store[i] in r
  {
    if store == [] then []
    else
      (if KeyOf(store[0], k).Some? && KeyOf(store[0], k).value in ids then [store[0]] else [])
      + WhereKeyIn(store[1..], k, ids)
  }

  /** One step of `index_by`: `hash[key] = m`. An existing key keeps its place
      in the hash and takes the new value; a new key goes at the end. */
  function Put(idx: seq<StoredMovie>, m: StoredMovie, k: Key): seq<StoredMovie>
  {
    var i := FindIndex(idx, HasKey(k, KeyOf(m, k)));
    if i < |idx| then idx[i := m] else idx + [m]
  }

  /** `index_by`, as the sequence of the hash's values in the hash's order. */
  function IndexBy(ms: seq<StoredMovie>, k: Key): seq<StoredMovie>
    decreases |ms|
  {
    if ms == [] then [] else Put(IndexBy(ms[..|ms| - 1], k), ms[|ms| - 1], k)
  }

  /** `hash[v]` on an index built by `IndexBy`. */
  function Lookup(idx: seq<StoredMovie>, k: Key, v: Option<int>): Option<StoredMovie>
  {
    Find(idx, HasKey(k, v))
  }

  /** The last document of `ms` whose key is `v`. */
  function LastWithKey(ms: seq<StoredMovie>, k: Key, v: Option<int>): (r: Option<StoredMovie>)
    ensures r.Some? <==> exists i :: 0 <= i < |ms| && KeyOf(ms[i], k) == v
    ensures r.Some? ==> r.value in ms && KeyOf(r.value, k) == v
    decreases |ms|
  {
    if ms == [] then None
    else if KeyOf(ms[|ms| - 1], k) == v then Some(ms[|ms| - 1])
    else
      var r := LastWithKey(ms[..|ms| - 1], k, v);
      assert forall i :: 0 <= i < |ms| - 1 ==> ms[i] == ms[..|ms| - 1][i];
      r
  }

  /** Looking a key up after one `hash[key] = m`. */
  lemma PutLookup(idx: seq<StoredMovie>, m: StoredMovie, k: Key, v: Option<int>)
    ensures Lookup(Put(idx, m, k), k, v) == if KeyOf(m, k) == v then Some(m) else Lookup(idx, k, v)
  {
    var p := HasKey(k, v);
    var i := FindIndex(idx, HasKey(k, KeyOf(m, k)));
    var idx' := Put(idx, m, k);
    var a, b := FindIndex(idx, p), FindIndex(idx', p);
    assert forall j :: 0 <= j < |idx| && j != i ==> idx'[j] == idx[j];
    if KeyOf(m, k) == v {
      assert i < |idx| ==> idx'[i] == m;
      assert i == |idx| ==> idx'[|idx|] == m;
      assert b == i;
    } else {
      assert i < |idx| ==> idx'[i] == m && !p(idx[i]);
      assert i == |idx| ==> idx'[|idx|] == m;
      assert !p(m);
      assert forall j :: 0 <= j < |idx'| ==> (p(idx'[j]) <==> j < |idx| && p(idx[j]));
      if a < |idx| {
        assert p(idx'[a]);
        assert b == a && a != i && idx'[a] == idx[a];
      } else {
        assert b == |idx'|;
      }
    }
  }

  /** `index_by` keeps, for every key, the last document with that key. */
  lemma {:induction false} IndexByLookup(ms: seq<StoredMovie>, k: Key, v: Option<int>)
    ensures Lookup(IndexBy(ms, k), k, v) == LastWithKey(ms, k, v)
    decreases |ms|
  {
    if ms != [] {
      IndexByLookup(ms[..|ms| - 1], k, v);
      PutLookup(IndexBy(ms[..|ms| - 1], k), ms[|ms| - 1], k, v);
    }
  }
}
