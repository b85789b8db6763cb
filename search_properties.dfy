/** What the search promises, proved about the specification functions of
    `MovieSearch` (and so, through the methods' postconditions, about the
    imperative code): IMDB ids are produced once, first wins; each TMDB record
    is made at most once; links are justified and exclusive; drafts come in
    Netflix order, then TMDB order; reviews are handed out at most once; and
    the fallback chain takes its steps in a fixed order. */
module SearchProperties {
  import opened Ruby
  import opened Records
  import opened MovieSearch

  // ---------------------------------------------------------------------
  // `make`: the spawner's `imdb_ids` and `made_movies`
  // ---------------------------------------------------------------------

  /** The draft each request would yield if none were suppressed. */
  function Drafts(existing: seq<StoredMovie>, reqs: seq<Request>): seq<Movie>
  {
    seq(|reqs|, i requires 0 <= i < |reqs| => DraftOf(existing, reqs[i]))
  }

  /** The IMDB ids `make` appends for a sequence of drafts. */
  function ImdbIdsOf(ms: seq<Movie>): seq<string>
    decreases |ms|
  {
    if ms == [] then [] else ImdbIdsOf(ms[..|ms| - 1]) + ImdbIdOf(ms[|ms| - 1])
  }

  /** `imdb_ids` holds exactly the non-nil IMDB ids of `made_movies`. */
  lemma {:induction false} ImdbIdsOfMembers(ms: seq<Movie>)
    ensures forall v :: v in ImdbIdsOf(ms) <==> exists i :: 0 <= i < |ms| && ms[i].imdbId == Some(v)
    decreases |ms|
  {
    if ms != [] {
      var init := ms[..|ms| - 1];
      ImdbIdsOfMembers(init);
      assert forall i :: 0 <= i < |init| ==> init[i] == ms[i];
    }
  }

  /** The spawner's state as `make` keeps it. */
  predicate Consistent(b: Batch)
  {
    b.imdbIds == ImdbIdsOf(b.made)
  }

  /** No two drafts carry the same present IMDB id. */
  predicate DistinctPresentImdb(ms: seq<Movie>)
  {
    forall i, j :: 0 <= i < j < |ms| && Present(ms[i].imdbId) ==> ms[i].imdbId != ms[j].imdbId
  }

  /** No draft has a Rotten Tomatoes record yet. */
  predicate NoReviews(ms: seq<Movie>)
  {
    forall i :: 0 <= i < |ms| ==> ms[i].rottenMovie.None?
  }

  /** A blank IMDB id (nil, empty or all spaces) never suppresses a record:
      `present?` guards the check. */
  lemma BlankImdbNeverSuppressed(imdbIds: seq<string>, t: TmdbRecord)
    requires BlankOpt(t.imdbId)
    ensures !Suppressed(imdbIds, t)
  {
  }

  /** One `make` keeps `imdb_ids` in step with `made_movies` and keeps
      present IMDB ids distinct. */
  lemma MakeStepKeeps(existing: seq<StoredMovie>, b: Batch, r: Request)
    requires Consistent(b) && DistinctPresentImdb(b.made)
    ensures Consistent(MakeStep(existing, b, r)) && DistinctPresentImdb(MakeStep(existing, b, r).made)
    ensures NoReviews(b.made) ==> NoReviews(MakeStep(existing, b, r).made)
  {
    if !Suppressed(b.imdbIds, r.record) {
      var d := DraftOf(existing, r);
      var made := b.made + [d];
      assert made[..|made| - 1] == b.made;
      ImdbIdsOfMembers(b.made);
      forall i | 0 <= i < |b.made| && Present(b.made[i].imdbId)
        ensures b.made[i].imdbId != d.imdbId
      {
        assert b.made[i].imdbId.value in b.imdbIds;
      }
    }
  }

  /** Any run of `make` calls keeps `imdb_ids` in step and the present IMDB
      ids of the drafts distinct. */
  lemma {:induction false} MakeRequestsKeeps(existing: seq<StoredMovie>, b: Batch, reqs: seq<Request>)
    requires Consistent(b) && DistinctPresentImdb(b.made)
    ensures Consistent(MakeRequests(existing, b, reqs))
    ensures DistinctPresentImdb(MakeRequests(existing, b, reqs).made)
    ensures NoReviews(b.made) ==> NoReviews(MakeRequests(existing, b, reqs).made)
    decreases |reqs|
  {
    if reqs != [] {
      MakeStepKeeps(existing, b, reqs[0]);
      MakeRequestsKeeps(existing, MakeStep(existing, b, reqs[0]), reqs[1..]);
    }
  }

  /** `make` only appends: the earlier drafts stay, and what is appended is
      the drafts of the requests with some left out, in request order. */
  lemma MakeRequestsAppends(existing: seq<StoredMovie>, b: Batch, reqs: seq<Request>)
    ensures b.made <= MakeRequests(existing, b, reqs).made
    ensures Subsequence(MakeRequests(existing, b, reqs).made[|b.made|..], Drafts(existing, reqs))
  {
    MakeRequestsPrefix(existing, b, reqs);
    MakeRequestsPicks(existing, b, reqs);
  }

  lemma DraftsCons(existing: seq<StoredMovie>, reqs: seq<Request>)
    requires reqs != []
    ensures Drafts(existing, reqs) == [DraftOf(existing, reqs[0])] + Drafts(existing, reqs[1..])
  {
  }

  lemma SliceCons<T>(s: seq<T>, k: nat)
    requires k < |s|
    ensures s[k..] == [s[k]] + s[k + 1..]
  {
  }

  /** `make` never removes a draft. */
  lemma {:induction false} MakeRequestsPrefix(existing: seq<StoredMovie>, b: Batch, reqs: seq<Request>)
    ensures b.made <= MakeRequests(existing, b, reqs).made
    decreases |reqs|
  {
    if reqs != [] {
      var b' := MakeStep(existing, b, reqs[0]);
      MakeRequestsPrefix(existing, b', reqs[1..]);
      assert b.made <= b'.made;
    }
  }

  lemma {:induction false} MakeRequestsPicks(existing: seq<StoredMovie>, b: Batch, reqs: seq<Request>)
    ensures |b.made| <= |MakeRequests(existing, b, reqs).made|
    ensures Subsequence(MakeRequests(existing, b, reqs).made[|b.made|..], Drafts(existing, reqs))
    decreases |reqs|
  {
    MakeRequestsPrefix(existing, b, reqs);
    var made := MakeRequests(existing, b, reqs).made;
    if reqs == [] {
      assert made[|b.made|..] == [];
    } else {
      var d := DraftOf(existing, reqs[0]);
      var b' := MakeStep(existing, b, reqs[0]);
      MakeRequestsPrefix(existing, b', reqs[1..]);
      MakeRequestsPicks(existing, b', reqs[1..]);
      DraftsCons(existing, reqs);
      if Suppressed(b.imdbIds, reqs[0].record) {
        SubsequenceSkip(d, made[|b.made|..], Drafts(existing, reqs[1..]));
      } else {
        assert b'.made == b.made + [d];
        SliceCons(made, |b.made|);
        SubsequenceCons(d, made[|b'.made|..], Drafts(existing, reqs[1..]));
      }
    }
  }

  /** When the present IMDB ids of the requests are new and pairwise
      different, no request is suppressed. */
  lemma {:induction false} NothingSuppressed(existing: seq<StoredMovie>, b: Batch, reqs: seq<Request>)
    requires Consistent(b) && FreshImdb(b, reqs) && DistinctRequestImdb(reqs)
    ensures MakeRequests(existing, b, reqs).made == b.made + Drafts(existing, reqs)
    decreases |reqs|
  {
    if reqs != [] {
      var d := DraftOf(existing, reqs[0]);
      var b' := MakeStep(existing, b, reqs[0]);
      FreshStep(existing, b, reqs);
      assert Consistent(b') by {
        var made := b.made + [d];
        assert made[..|made| - 1] == b.made;
        assert ImdbIdsOf(made) == ImdbIdsOf(b.made) + ImdbIdOf(d);
      }
      NothingSuppressed(existing, b', reqs[1..]);
      DraftsCons(existing, reqs);
      assert MakeRequests(existing, b, reqs) == MakeRequests(existing, b', reqs[1..]);
      assert b.made + [d] + Drafts(existing, reqs[1..]) == b.made + ([d] + Drafts(existing, reqs[1..]));
    }
  }

  /** The present IMDB ids of the requests are not yet produced. */
  predicate FreshImdb(b: Batch, reqs: seq<Request>)
  {
    forall i :: 0 <= i < |reqs| && Present(reqs[i].record.imdbId) ==> reqs[i].record.imdbId.value !in b.imdbIds
  }

  /** No two requests carry the same present IMDB id. */
  predicate DistinctRequestImdb(reqs: seq<Request>)
  {
    forall i, j :: 0 <= i < j < |reqs| && Present(reqs[i].record.imdbId) ==> reqs[i].record.imdbId != reqs[j].record.imdbId
  }

  /** One `make` of a fresh request appends its draft, and leaves the other
      requests fresh. */
  lemma FreshStep(existing: seq<StoredMovie>, b: Batch, reqs: seq<Request>)
    requires reqs != [] && FreshImdb(b, reqs) && DistinctRequestImdb(reqs)
    ensures var d := DraftOf(existing, reqs[0]);
      var b' := MakeStep(existing, b, reqs[0]);
      && b' == Batch(b.made + [d], b.imdbIds + ImdbIdOf(d))
      && FreshImdb(b', reqs[1..]) && DistinctRequestImdb(reqs[1..])
  {
    var d := DraftOf(existing, reqs[0]);
    var b' := MakeStep(existing, b, reqs[0]);
    assert !Suppressed(b.imdbIds, reqs[0].record);
    var rest := reqs[1..];
    forall i | 0 <= i < |rest| && Present(rest[i].record.imdbId)
      ensures rest[i].record.imdbId.value !in b'.imdbIds
    {
      assert rest[i] == reqs[i + 1];
      assert Present(reqs[0].record.imdbId) ==> reqs[0].record.imdbId != reqs[i + 1].record.imdbId;
      assert d.imdbId != rest[i].record.imdbId;
    }
    forall i, j | 0 <= i < j < |rest| && Present(rest[i].record.imdbId)
      ensures rest[i].record.imdbId != rest[j].record.imdbId
    {
      assert rest[i] == reqs[i + 1] && rest[j] == reqs[j + 1];
    }
  }

  /** First wins: the first request carrying a present IMDB id that is not
      yet produced always yields its draft. */
  lemma {:induction false} FirstWins(existing: seq<StoredMovie>, b: Batch, reqs: seq<Request>, k: nat)
    requires Consistent(b)
    requires k < |reqs| && Present(reqs[k].record.imdbId)
    requires reqs[k].record.imdbId.value !in b.imdbIds
    requires forall j :: 0 <= j < k ==> reqs[j].record.imdbId != reqs[k].record.imdbId
    ensures DraftOf(existing, reqs[k]) in MakeRequests(existing, b, reqs).made
    decreases |reqs|
  {
    var b' := MakeStep(existing, b, reqs[0]);
    MakeRequestsAppends(existing, b', reqs[1..]);
    if k == 0 {
      assert DraftOf(existing, reqs[0]) == b'.made[|b'.made| - 1];
    } else {
      var v := reqs[k].record.imdbId.value;
      ImdbIdsOfMembers(b.made);
      ImdbIdsOfMembers(b'.made);
      assert Consistent(b') by {
        if !Suppressed(b.imdbIds, reqs[0].record) {
          var d := DraftOf(existing, reqs[0]);
          assert (b.made + [d])[..|b.made|] == b.made;
        }
      }
      assert forall i :: 0 <= i < |b.made| ==> b'.made[i] == b.made[i];
      assert v !in b'.imdbIds;
      forall j | 0 <= j < k - 1
        ensures reqs[1..][j].record.imdbId != reqs[1..][k - 1].record.imdbId
      {
        assert reqs[1..][j] == reqs[j + 1];
      }
      FirstWins(existing, b', reqs[1..], k - 1);
    }
  }

  // ---------------------------------------------------------------------
  // `find_linked_to_netflix` and the linking loop of `search_combined`
  // ---------------------------------------------------------------------

  /** `find_linked_to_netflix` prefers the stored link. When some stored
      movie (the first, `existing[k]`) already carries the title's Netflix
      id, the answer is the pending record with that movie's TMDB id, or nil,
      and title equality plays no part; only otherwise is it the first pending
      record equal to the title. */
  lemma LinkTargetPreference(existing: seq<StoredMovie>, pending: seq<TmdbRecord>, nt: NetflixTitle,
                             linksTo: (TmdbRecord, NetflixTitle) -> bool, otherLinksTo: (TmdbRecord, NetflixTitle) -> bool)
    ensures var k := FindIndex(existing, NetflixIdIs(nt.id));
      var r := LinkTarget(existing, pending, nt, linksTo);
      && (k < |existing| ==>
        && existing[k].netflixId == Some(nt.id)
        && (r.Some? <==> exists j :: 0 <= j < |pending| && existing[k].tmdbId == Some(pending[j].id))
        && (r.Some? ==> r.value in pending && existing[k].tmdbId == Some(r.value.id))
        && r == LinkTarget(existing, pending, nt, otherLinksTo))
      && (k == |existing| ==>
        && (forall i :: 0 <= i < |existing| ==> existing[i].netflixId != Some(nt.id))
        && (r.Some? <==> exists j :: 0 <= j < |pending| && linksTo(pending[j], nt))
        && (r.Some? ==> exists j :: 0 <= j < |pending| && r.value == pending[j] && linksTo(pending[j], nt)
                          && forall i :: 0 <= i < j ==> !linksTo(pending[i], nt)))
  {
    var k := FindIndex(existing, NetflixIdIs(nt.id));
    if k == |existing| {
      var j := FindIndex(pending, LinkedTo(nt, linksTo));
      assert forall i :: 0 <= i < |pending| ==> (LinkedTo(nt, linksTo)(pending[i]) <==> linksTo(pending[i], nt));
    }
  }

  /** A linked record is justified: a stored movie already links it to the
      title, or it equals the title. */
  predicate Justified(existing: seq<StoredMovie>, t: TmdbRecord, nt: NetflixTitle,
                      linksTo: (TmdbRecord, NetflixTitle) -> bool)
  {
    || linksTo(t, nt)
    || exists k :: 0 <= k < |existing| && existing[k].netflixId == Some(nt.id) && existing[k].tmdbId == Some(t.id)
  }

  lemma LinkTargetJustified(existing: seq<StoredMovie>, pending: seq<TmdbRecord>, nt: NetflixTitle,
                            linksTo: (TmdbRecord, NetflixTitle) -> bool)
    ensures var r := LinkTarget(existing, pending, nt, linksTo);
      r.Some? ==> r.value in pending && Justified(existing, r.value, nt, linksTo)
  {
    LinkTargetPreference(existing, pending, nt, linksTo, linksTo);
  }

  /** The Netflix titles of the linking loop's `make` calls. */
  function TitlesOf(reqs: seq<Request>): seq<NetflixTitle>
    decreases |reqs|
  {
    if reqs == [] then []
    else (if reqs[0].title.Some? then [reqs[0].title.value] else []) + TitlesOf(reqs[1..])
  }

  function RecordOf(r: Request): TmdbRecord { r.record }

  /** `tmdb_movies.delete(t)` leaves no copy of `t`, keeps the other records
      in order, and shrinks the array when `t` was in it. */
  lemma DeletedRecordGone(pending: seq<TmdbRecord>, t: TmdbRecord, sameRecord: (TmdbRecord, TmdbRecord) -> bool)
    ensures var w := Without(pending, Deletes(sameRecord), t);
      && t !in w
      && Subsequence(w, pending)
      && (forall e :: e in w ==> e in pending)
      && (t in pending ==> |w| < |pending|)
  {
    var w := Without(pending, Deletes(sameRecord), t);
    WithoutSpec(pending, Deletes(sameRecord), t);
    WithoutIsSubsequence(pending, Deletes(sameRecord), t);
    assert Deletes(sameRecord)(t, t);
    forall e | e in w ensures e in pending {
      var i :| 0 <= i < |w| && w[i] == e;
    }
  }

  /** The linking loop only adds `make` calls and drafts, and only deletes
      records, keeping the others in order. */
  lemma {:induction false} LinkGrows(s: Linking, titles: seq<NetflixTitle>, linksTo: (TmdbRecord, NetflixTitle) -> bool,
                                     sameRecord: (TmdbRecord, TmdbRecord) -> bool)
    ensures var l := Link(s, titles, linksTo, sameRecord);
      && s.linked <= l.linked && s.batch.made <= l.batch.made
      && Subsequence(l.pending, s.pending)
    decreases |titles|
  {
    if titles == [] {
      SubsequenceRefl(s.pending);
    } else {
      var s1 := LinkOne(s, titles[0], linksTo, sameRecord);
      var l := Link(s1, titles[1..], linksTo, sameRecord);
      LinkGrows(s1, titles[1..], linksTo, sameRecord);
      match LinkTarget(s.existing, s.pending, titles[0], linksTo)
      case None =>
      case Some(t) =>
        DeletedRecordGone(s.pending, t, sameRecord);
        SubsequenceTrans(l.pending, s1.pending, s.pending);
    }
  }

  /** What one title of the linking loop does. */
  lemma LinkOneFacts(s: Linking, nt: NetflixTitle, linksTo: (TmdbRecord, NetflixTitle) -> bool,
                     sameRecord: (TmdbRecord, TmdbRecord) -> bool)
    ensures var s1 := LinkOne(s, nt, linksTo, sameRecord);
      var lt := LinkTarget(s.existing, s.pending, nt, linksTo);
      && (lt.None? ==> s1 == s)
      && (lt.Some? ==>
        && lt.value in s.pending
        && s1.linked == s.linked + [Request(lt.value, Some(nt))]
        && s1.pending == Without(s.pending, Deletes(sameRecord), lt.value)
        && s1.batch == MakeStep(s.existing, s.batch, Request(lt.value, Some(nt))))
  {
    LinkTargetJustified(s.existing, s.pending, nt, linksTo);
  }

  /** The first title of the linking loop. */
  lemma LinkUnfold(s: Linking, titles: seq<NetflixTitle>, linksTo: (TmdbRecord, NetflixTitle) -> bool,
                   sameRecord: (TmdbRecord, TmdbRecord) -> bool)
    requires titles != []
    ensures Link(s, titles, linksTo, sameRecord)
         == Link(LinkOne(s, titles[0], linksTo, sameRecord), titles[1..], linksTo, sameRecord)
  {
  }

  lemma SliceSplit<T>(a: seq<T>, b: seq<T>, c: seq<T>)
    requires a <= b <= c
    ensures c[|a|..] == b[|a|..] + c[|b|..]
  {
  }

  lemma {:induction false} TitlesOfAppend(a: seq<Request>, b: seq<Request>)
    ensures TitlesOf(a + b) == TitlesOf(a) + TitlesOf(b)
    decreases |a|
  {
    if a != [] {
      assert (a + b)[0] == a[0] && (a + b)[1..] == a[1..] + b;
      TitlesOfAppend(a[1..], b);
    } else {
      assert a + b == b;
    }
  }

  /** The `make` call one title adds is for a pending record, with that title. */
  lemma LinkOneFrom(s: Linking, nt: NetflixTitle, linksTo: (TmdbRecord, NetflixTitle) -> bool,
                    sameRecord: (TmdbRecord, TmdbRecord) -> bool)
    ensures var s1 := LinkOne(s, nt, linksTo, sameRecord);
      && s.linked <= s1.linked
      && (forall i :: |s.linked| <= i < |s1.linked| ==> s1.linked[i].record in s.pending && s1.linked[i].title.Some?)
      && Subsequence(TitlesOf(s1.linked[|s.linked|..]), [nt])
  {
    var s1 := LinkOne(s, nt, linksTo, sameRecord);
    LinkOneFacts(s, nt, linksTo, sameRecord);
    if s1 == s {
      assert s1.linked[|s.linked|..] == [];
    } else {
      var step := s1.linked[|s.linked|..];
      assert step == [s1.linked[|s.linked|]] && step[1..] == [];
      SubsequenceRefl([nt]);
    }
  }

  /** Each new `make` call of the linking loop is for a record that was
      pending, with a title, and the titles keep their Netflix order. */
  lemma {:induction false} LinkedFrom(s: Linking, titles: seq<NetflixTitle>, linksTo: (TmdbRecord, NetflixTitle) -> bool,
                                      sameRecord: (TmdbRecord, TmdbRecord) -> bool)
    ensures var l := Link(s, titles, linksTo, sameRecord);
      && s.linked <= l.linked
      && (forall i :: |s.linked| <= i < |l.linked| ==> l.linked[i].record in s.pending && l.linked[i].title.Some?)
      && Subsequence(TitlesOf(l.linked[|s.linked|..]), titles)
    decreases |titles|
  {
    var l := Link(s, titles, linksTo, sameRecord);
    if titles == [] {
      assert l.linked[|s.linked|..] == [];
    } else {
      var s1 := LinkOne(s, titles[0], linksTo, sameRecord);
      LinkUnfold(s, titles, linksTo, sameRecord);
      LinkOneFrom(s, titles[0], linksTo, sameRecord);
      LinkedFrom(s1, titles[1..], linksTo, sameRecord);
      assert forall e :: e in s1.pending ==> e in s.pending by {
        LinkOneFacts(s, titles[0], linksTo, sameRecord);
        var lt := LinkTarget(s.existing, s.pending, titles[0], linksTo);
        if lt.Some? {
          DeletedRecordGone(s.pending, lt.value, sameRecord);
        }
      }
      LinkedFromSteps(s.linked, s1.linked, l.linked, s.pending, s1.pending, titles);
    }
  }

  /** The facts of `LinkedFrom` for the first title and for the titles after
      it make those for all of them. */
  lemma LinkedFromSteps(ls0: seq<Request>, ls1: seq<Request>, ls: seq<Request>,
                        p0: seq<TmdbRecord>, p1: seq<TmdbRecord>, titles: seq<NetflixTitle>)
    requires titles != [] && ls0 <= ls1 <= ls
    requires forall e :: e in p1 ==> e in p0
    requires forall i :: |ls0| <= i < |ls1| ==> ls1[i].record in p0 && ls1[i].title.Some?
    requires forall i :: |ls1| <= i < |ls| ==> ls[i].record in p1 && ls[i].title.Some?
    requires Subsequence(TitlesOf(ls1[|ls0|..]), [titles[0]])
    requires Subsequence(TitlesOf(ls[|ls1|..]), titles[1..])
    ensures forall i :: |ls0| <= i < |ls| ==> ls[i].record in p0 && ls[i].title.Some?
    ensures Subsequence(TitlesOf(ls[|ls0|..]), titles)
  {
    assert forall i :: |ls0| <= i < |ls1| ==> ls[i] == ls1[i];
    SliceSplit(ls0, ls1, ls);
    TitlesOfAppend(ls1[|ls0|..], ls[|ls1|..]);
    assert titles == [titles[0]] + titles[1..];
    SubsequenceConcat(TitlesOf(ls1[|ls0|..]), [titles[0]], TitlesOf(ls[|ls1|..]), titles[1..]);
  }

  /** Appending a call for a pending record that the deletion then removed
      keeps the linked records distinct and out of the array. */
  lemma AppendLinkedDistinct(ls: seq<Request>, p: seq<TmdbRecord>, r: Request, ls1: seq<Request>, p1: seq<TmdbRecord>)
    requires DistinctBy(ls, RecordOf) && forall i :: 0 <= i < |ls| ==> ls[i].record !in p
    requires ls1 == ls + [r] && r.record in p && r.record !in p1 && forall e :: e in p1 ==> e in p
    ensures DistinctBy(ls1, RecordOf) && forall i :: 0 <= i < |ls1| ==> ls1[i].record !in p1
  {
    assert ls1[|ls|] == r;
    assert forall i :: 0 <= i < |ls| ==> ls1[i] == ls[i] && ls[i].record != r.record;
  }

  /** One title keeps the linked records distinct and out of `tmdb_movies`. */
  lemma LinkOneDistinct(s: Linking, nt: NetflixTitle, linksTo: (TmdbRecord, NetflixTitle) -> bool,
                        sameRecord: (TmdbRecord, TmdbRecord) -> bool)
    requires DistinctBy(s.linked, RecordOf) && forall i :: 0 <= i < |s.linked| ==> s.linked[i].record !in s.pending
    ensures var s1 := LinkOne(s, nt, linksTo, sameRecord);
      DistinctBy(s1.linked, RecordOf) && forall i :: 0 <= i < |s1.linked| ==> s1.linked[i].record !in s1.pending
  {
    var s1 := LinkOne(s, nt, linksTo, sameRecord);
    var lt := LinkTarget(s.existing, s.pending, nt, linksTo);
    LinkOneFacts(s, nt, linksTo, sameRecord);
    if lt.Some? {
      DeletedRecordGone(s.pending, lt.value, sameRecord);
      AppendLinkedDistinct(s.linked, s.pending, Request(lt.value, Some(nt)), s1.linked, s1.pending);
    }
  }

  lemma {:induction false} LinkDistinct(s: Linking, titles: seq<NetflixTitle>, linksTo: (TmdbRecord, NetflixTitle) -> bool,
                                        sameRecord: (TmdbRecord, TmdbRecord) -> bool)
    requires DistinctBy(s.linked, RecordOf) && forall i :: 0 <= i < |s.linked| ==> s.linked[i].record !in s.pending
    ensures var l := Link(s, titles, linksTo, sameRecord);
      DistinctBy(l.linked, RecordOf) && forall i :: 0 <= i < |l.linked| ==> l.linked[i].record !in l.pending
    decreases |titles|
  {
    if titles != [] {
      LinkOneDistinct(s, titles[0], linksTo, sameRecord);
      LinkDistinct(LinkOne(s, titles[0], linksTo, sameRecord), titles[1..], linksTo, sameRecord);
    }
  }

  /** Each title makes at most one call and deletes at least the record it makes. */
  lemma {:induction false} LinkCount(s: Linking, titles: seq<NetflixTitle>, linksTo: (TmdbRecord, NetflixTitle) -> bool,
                                     sameRecord: (TmdbRecord, TmdbRecord) -> bool)
    ensures var l := Link(s, titles, linksTo, sameRecord);
      |l.linked| + |l.pending| <= |s.linked| + |s.pending|
    decreases |titles|
  {
    if titles != [] {
      LinkCount(LinkOne(s, titles[0], linksTo, sameRecord), titles[1..], linksTo, sameRecord);
      match LinkTarget(s.existing, s.pending, titles[0], linksTo)
      case None =>
      case Some(t) =>
        LinkTargetJustified(s.existing, s.pending, titles[0], linksTo);
        DeletedRecordGone(s.pending, t, sameRecord);
    }
  }

  /** The linking loop keeps the spawner's batch as `make` keeps it. */
  lemma {:induction false} LinkBatchKeeps(s: Linking, titles: seq<NetflixTitle>, linksTo: (TmdbRecord, NetflixTitle) -> bool,
                                          sameRecord: (TmdbRecord, TmdbRecord) -> bool)
    requires Consistent(s.batch) && DistinctPresentImdb(s.batch.made) && NoReviews(s.batch.made)
    ensures var l := Link(s, titles, linksTo, sameRecord);
      Consistent(l.batch) && DistinctPresentImdb(l.batch.made) && NoReviews(l.batch.made)
    decreases |titles|
  {
    if titles != [] {
      var lt := LinkTarget(s.existing, s.pending, titles[0], linksTo);
      if lt.Some? {
        MakeStepKeeps(s.existing, s.batch, Request(lt.value, Some(titles[0])));
      }
      LinkBatchKeeps(LinkOne(s, titles[0], linksTo, sameRecord), titles[1..], linksTo, sameRecord);
    }
  }

  /** The TMDB record each `make` call of some requests is for. */
  function RequestedRecord(r: Request): Option<TmdbRecord> { Some(r.record) }

  function TmdbMovieOf(m: Movie): Option<TmdbRecord> { m.tmdbMovie }

  /** The drafts `ms` are for the records of the `make` calls `reqs`,
      some left out, in order. */
  predicate MadeFor(ms: seq<Movie>, reqs: seq<Request>)
  {
    Subsequence(Map(ms, TmdbMovieOf), Map(reqs, RequestedRecord))
  }

  lemma MadeForAppend(m1: seq<Movie>, r1: seq<Request>, m2: seq<Movie>, r2: seq<Request>)
    requires MadeFor(m1, r1) && MadeFor(m2, r2)
    ensures MadeFor(m1 + m2, r1 + r2)
  {
    SubsequenceConcat(Map(m1, TmdbMovieOf), Map(r1, RequestedRecord), Map(m2, TmdbMovieOf), Map(r2, RequestedRecord));
    MapAppend(m1, m2, TmdbMovieOf);
    MapAppend(r1, r2, RequestedRecord);
  }

  /** The draft one title appends, if any, is for the record of its `make` call. */
  lemma LinkOneMadeFor(s: Linking, nt: NetflixTitle, linksTo: (TmdbRecord, NetflixTitle) -> bool,
                       sameRecord: (TmdbRecord, TmdbRecord) -> bool)
    ensures var s1 := LinkOne(s, nt, linksTo, sameRecord);
      && s.linked <= s1.linked && s.batch.made <= s1.batch.made
      && MadeFor(s1.batch.made[|s.batch.made|..], s1.linked[|s.linked|..])
  {
    var s1 := LinkOne(s, nt, linksTo, sameRecord);
    LinkOneFacts(s, nt, linksTo, sameRecord);
    var lt := LinkTarget(s.existing, s.pending, nt, linksTo);
    if lt.None? {
      assert s1.batch.made[|s.batch.made|..] == [] && s1.linked[|s.linked|..] == [];
    } else {
      var t := lt.value;
      var r := Request(t, Some(nt));
      assert s1.linked[|s.linked|..] == [r];
      assert Map([r], RequestedRecord) == [Some(t)];
      if Suppressed(s.batch.imdbIds, t) {
        assert s1.batch.made[|s.batch.made|..] == [];
      } else {
        var d := DraftOf(s.existing, r);
        assert s1.batch.made[|s.batch.made|..] == [d];
        assert Map([d], TmdbMovieOf) == [Some(t)];
        SubsequenceRefl([Some(t)]);
      }
    }
  }

  /** The drafts the linking loop appends are for the records of its `make`
      calls, some left out, in order. */
  lemma {:induction false} LinkMadeOrder(s: Linking, titles: seq<NetflixTitle>, linksTo: (TmdbRecord, NetflixTitle) -> bool,
                                         sameRecord: (TmdbRecord, TmdbRecord) -> bool)
    ensures var l := Link(s, titles, linksTo, sameRecord);
      && s.linked <= l.linked && s.batch.made <= l.batch.made
      && MadeFor(l.batch.made[|s.batch.made|..], l.linked[|s.linked|..])
    decreases |titles|
  {
    var l := Link(s, titles, linksTo, sameRecord);
    if titles == [] {
      assert l.batch.made[|s.batch.made|..] == [] && l.linked[|s.linked|..] == [];
    } else {
      var s1 := LinkOne(s, titles[0], linksTo, sameRecord);
      LinkUnfold(s, titles, linksTo, sameRecord);
      LinkOneMadeFor(s, titles[0], linksTo, sameRecord);
      LinkMadeOrder(s1, titles[1..], linksTo, sameRecord);
      SliceSplit(s.linked, s1.linked, l.linked);
      SliceSplit(s.batch.made, s1.batch.made, l.batch.made);
      MadeForAppend(s1.batch.made[|s.batch.made|..], s1.linked[|s.linked|..],
                    l.batch.made[|s1.batch.made|..], l.linked[|s1.linked|..]);
    }
  }

  /** The memo `e`, reached from the query's `e0` by the `make` calls
      `linked`: the same documents, each Netflix id the query's own or that
      of a title linked to a record with the document's TMDB id. */
  predicate MemoFrom(e0: seq<StoredMovie>, linked: seq<Request>, e: seq<StoredMovie>)
  {
    && SameDocuments(e0, e)
    && forall k :: 0 <= k < |e| ==>
      || e[k].netflixId == e0[k].netflixId
      || exists j :: 0 <= j < |linked| && linked[j].title.Some? && e0[k].tmdbId == Some(linked[j].record.id)
                     && e[k].netflixId == Some(linked[j].title.value.id)
  }

  /** The `i`-th `make` call of the linking loop is justified: its record
      equals its title, or a stored movie for the record's TMDB id carries
      the title's Netflix id, as the query found it or as an earlier call
      for that TMDB id wrote it. */
  predicate JustifiedAt(e0: seq<StoredMovie>, ls: seq<Request>, i: nat, linksTo: (TmdbRecord, NetflixTitle) -> bool)
    requires i < |ls| && ls[i].title.Some?
  {
    var t, nt := ls[i].record, ls[i].title.value;
    || linksTo(t, nt)
    || exists k :: 0 <= k < |e0| && e0[k].tmdbId == Some(t.id)
         && (|| e0[k].netflixId == Some(nt.id)
             || exists j :: 0 <= j < i && ls[j].title.Some? && ls[j].record.id == t.id && ls[j].title.value.id == nt.id)
  }

  /** Every `make` call has a title and is justified. */
  predicate AllJustified(e0: seq<StoredMovie>, ls: seq<Request>, linksTo: (TmdbRecord, NetflixTitle) -> bool)
  {
    forall i :: 0 <= i < |ls| ==> ls[i].title.Some? && JustifiedAt(e0, ls, i, linksTo)
  }

  lemma SameDocumentsTrans(a: seq<StoredMovie>, b: seq<StoredMovie>, c: seq<StoredMovie>)
    requires SameDocuments(a, b) && SameDocuments(b, c)
    ensures SameDocuments(a, c)
  {
  }

  /** A `make` call justified against the current memo is justified against
      the query's memo and the calls before it. */
  lemma AppendJustified(e0: seq<StoredMovie>, e: seq<StoredMovie>, ls: seq<Request>, r: Request,
                        linksTo: (TmdbRecord, NetflixTitle) -> bool)
    requires MemoFrom(e0, ls, e) && AllJustified(e0, ls, linksTo)
    requires r.title.Some? && Justified(e, r.record, r.title.value, linksTo)
    ensures AllJustified(e0, ls + [r], linksTo)
  {
    var ls1 := ls + [r];
    var n := |ls|;
    var t, nt := r.record, r.title.value;
    assert forall j :: 0 <= j < n ==> ls1[j] == ls[j];
    assert ls1[n] == r;
    assert JustifiedAt(e0, ls1, n, linksTo) by {
      if !linksTo(t, nt) {
        var k :| 0 <= k < |e| && e[k].netflixId == Some(nt.id) && e[k].tmdbId == Some(t.id);
        assert e0[k].tmdbId == Some(t.id);
        if e[k].netflixId != e0[k].netflixId {
          var j :| 0 <= j < n && ls[j].title.Some? && e0[k].tmdbId == Some(ls[j].record.id)
                   && e[k].netflixId == Some(ls[j].title.value.id);
          assert ls1[j] == ls[j];
        }
      }
    }
    forall i | 0 <= i < n
      ensures JustifiedAt(e0, ls1, i, linksTo)
    {
      assert JustifiedAt(e0, ls, i, linksTo);
    }
  }

  /** One `make` call keeps the memo's history. */
  lemma MemoStepFrom(e0: seq<StoredMovie>, e: seq<StoredMovie>, ls: seq<Request>, b: Batch, r: Request)
    requires MemoFrom(e0, ls, e)
    ensures MemoFrom(e0, ls + [r], MemoStep(e, b, r))
  {
    var ls1 := ls + [r];
    var n := |ls|;
    var e1 := MemoStep(e, b, r);
    assert forall j :: 0 <= j < n ==> ls1[j] == ls[j];
    assert ls1[n] == r;
    if e1 != e {
      SameDocumentsTrans(e0, e, e1);
    }
    forall k | 0 <= k < |e1|
      ensures || e1[k].netflixId == e0[k].netflixId
              || exists j :: 0 <= j < |ls1| && ls1[j].title.Some? && e0[k].tmdbId == Some(ls1[j].record.id)
                             && e1[k].netflixId == Some(ls1[j].title.value.id)
    {
      if e1[k] == e[k] {
        if e[k].netflixId != e0[k].netflixId {
          var j :| 0 <= j < n && ls[j].title.Some? && e0[k].tmdbId == Some(ls[j].record.id)
                   && e[k].netflixId == Some(ls[j].title.value.id);
          assert ls1[j] == ls[j];
        }
      } else {
        assert r.title.Some? && e0[k].tmdbId == Some(r.record.id) && e1[k].netflixId == Some(r.title.value.id);
      }
    }
  }

  /** One title keeps the memo's history and justifies its `make` call. */
  lemma LinkOneJustified(e0: seq<StoredMovie>, s: Linking, nt: NetflixTitle, linksTo: (TmdbRecord, NetflixTitle) -> bool,
                         sameRecord: (TmdbRecord, TmdbRecord) -> bool)
    requires MemoFrom(e0, s.linked, s.existing) && AllJustified(e0, s.linked, linksTo)
    ensures var s1 := LinkOne(s, nt, linksTo, sameRecord);
      MemoFrom(e0, s1.linked, s1.existing) && AllJustified(e0, s1.linked, linksTo)
  {
    var lt := LinkTarget(s.existing, s.pending, nt, linksTo);
    if lt.Some? {
      var r := Request(lt.value, Some(nt));
      LinkTargetJustified(s.existing, s.pending, nt, linksTo);
      AppendJustified(e0, s.existing, s.linked, r, linksTo);
      MemoStepFrom(e0, s.existing, s.linked, s.batch, r);
    }
  }

  lemma {:induction false} LinkJustified(e0: seq<StoredMovie>, s: Linking, titles: seq<NetflixTitle>,
                                         linksTo: (TmdbRecord, NetflixTitle) -> bool,
                                         sameRecord: (TmdbRecord, TmdbRecord) -> bool)
    requires MemoFrom(e0, s.linked, s.existing) && AllJustified(e0, s.linked, linksTo)
    ensures var l := Link(s, titles, linksTo, sameRecord);
      MemoFrom(e0, l.linked, l.existing) && AllJustified(e0, l.linked, linksTo)
    decreases |titles|
  {
    if titles != [] {
      LinkOneJustified(e0, s, titles[0], linksTo, sameRecord);
      LinkJustified(e0, LinkOne(s, titles[0], linksTo, sameRecord), titles[1..], linksTo, sameRecord);
    }
  }

  /** The linking loop leaves the unlinked records in their original order. */
  lemma RemainingIsSubsequence(existing: seq<StoredMovie>, records: seq<TmdbRecord>, titles: seq<NetflixTitle>,
                               linksTo: (TmdbRecord, NetflixTitle) -> bool, sameRecord: (TmdbRecord, TmdbRecord) -> bool)
    ensures Subsequence(LinkAll(existing, records, titles, linksTo, sameRecord).pending, records)
  {
    LinkGrows(Linking(existing, EmptyBatch, records, []), titles, linksTo, sameRecord);
  }

  /** Each `make` call of the linking loop pairs one of the records with a
      title it is justified for, and the titles keep their Netflix order. */
  lemma LinkedRequestsJustified(existing: seq<StoredMovie>, records: seq<TmdbRecord>, titles: seq<NetflixTitle>,
                                linksTo: (TmdbRecord, NetflixTitle) -> bool, sameRecord: (TmdbRecord, TmdbRecord) -> bool)
    ensures var ls := LinkAll(existing, records, titles, linksTo, sameRecord).linked;
      && (forall i :: 0 <= i < |ls| ==>
            ls[i].record in records && ls[i].title.Some? && JustifiedAt(existing, ls, i, linksTo))
      && Subsequence(TitlesOf(ls), titles)
  {
    var s := Linking(existing, EmptyBatch, records, []);
    var ls := LinkAll(existing, records, titles, linksTo, sameRecord).linked;
    LinkedFrom(s, titles, linksTo, sameRecord);
    assert ls[|s.linked|..] == ls;
    assert MemoFrom(existing, [], existing);
    LinkJustified(existing, s, titles, linksTo, sameRecord);
  }

  /** After the linking loop the memo holds the movies the query found,
      each Netflix id the query's own or that of a title the loop linked to a
      record with the movie's TMDB id. */
  lemma LinkedMemo(existing: seq<StoredMovie>, records: seq<TmdbRecord>, titles: seq<NetflixTitle>,
                   linksTo: (TmdbRecord, NetflixTitle) -> bool, sameRecord: (TmdbRecord, TmdbRecord) -> bool)
    ensures var l := LinkAll(existing, records, titles, linksTo, sameRecord);
      MemoFrom(existing, l.linked, l.existing)
  {
    assert MemoFrom(existing, [], existing);
    LinkJustified(existing, Linking(existing, EmptyBatch, records, []), titles, linksTo, sameRecord);
  }

  /** No record is linked twice, and a linked record is deleted before the
      pass over the remaining records. */
  lemma LinkedRecordsDistinct(existing: seq<StoredMovie>, records: seq<TmdbRecord>, titles: seq<NetflixTitle>,
                              linksTo: (TmdbRecord, NetflixTitle) -> bool, sameRecord: (TmdbRecord, TmdbRecord) -> bool)
    ensures var l := LinkAll(existing, records, titles, linksTo, sameRecord);
      && DistinctBy(l.linked, RecordOf)
      && forall i :: 0 <= i < |l.linked| ==> l.linked[i].record !in l.pending
  {
    LinkDistinct(Linking(existing, EmptyBatch, records, []), titles, linksTo, sameRecord);
  }

  /** The two passes together make at most one call per record. */
  lemma LinkedAndRemainingCount(existing: seq<StoredMovie>, records: seq<TmdbRecord>, titles: seq<NetflixTitle>,
                                linksTo: (TmdbRecord, NetflixTitle) -> bool, sameRecord: (TmdbRecord, TmdbRecord) -> bool)
    ensures var l := LinkAll(existing, records, titles, linksTo, sameRecord);
      |CombinedRequests(existing, records, titles, linksTo, sameRecord)| == |l.linked| + |l.pending| <= |records|
  {
    LinkCount(Linking(existing, EmptyBatch, records, []), titles, linksTo, sameRecord);
  }

  // A stored movie for TMDB id 1 carrying Netflix id 100; TMDB records
  // `X` (TMDB id 1) and `Y` (TMDB id 2); Netflix titles `X` (id 200) and
  // `Y` (id 100), in that order; records equal titles of the same name.
  const ExStored := StoredMovie(7, Some(1), Some(100), None)
  const ExX := TmdbRecord(1, None, "X", Some("2001"))
  const ExY := TmdbRecord(2, None, "Y", Some("2002"))
  const ExN1 := NetflixTitle(200, "X", None, false)
  const ExN2 := NetflixTitle(100, "Y", None, false)
  const ExByName: (TmdbRecord, NetflixTitle) -> bool := (t: TmdbRecord, nt: NetflixTitle) => t.name == nt.name
  const ExNoOther: (TmdbRecord, TmdbRecord) -> bool := (a: TmdbRecord, b: TmdbRecord) => false
  const ExRelinked := [ExStored.(netflixId := Some(200))]

  /** The first title finds `X` by name, and `make` moves the stored
      movie's Netflix id to 200. */
  lemma ExampleFirstTitle()
    ensures var s1 := LinkOne(Linking([ExStored], EmptyBatch, [ExX, ExY], []), ExN1, ExByName, ExNoOther);
      s1.existing == ExRelinked && s1.pending == [ExY] && s1.linked == [Request(ExX, Some(ExN1))]
  {
    assert FindIndex([ExStored], NetflixIdIs(200)) == 1;
    assert LinkTarget([ExStored], [ExX, ExY], ExN1, ExByName) == Some(ExX) by {
      assert FindIndex([ExX, ExY], LinkedTo(ExN1, ExByName)) == 0;
    }
    assert Without([ExX, ExY], Deletes(ExNoOther), ExX) == [ExY] by {
      assert [ExX, ExY][1..] == [ExY] && [ExY][1..] == [];
      assert ExY != ExX;
    }
    assert FindIndex([ExStored], HasKey(TmdbIdKey, Some(1))) == 0;
  }

  /** The second title no longer finds the stored movie by Netflix id, and
      is linked to `Y` by name. */
  lemma ExampleSecondTitle(b: Batch)
    ensures LinkTarget(ExRelinked, [ExY], ExN2, ExByName) == Some(ExY)
    ensures var s2 := LinkOne(Linking(ExRelinked, b, [ExY], [Request(ExX, Some(ExN1))]), ExN2, ExByName, ExNoOther);
      s2.existing == ExRelinked && s2.pending == [] && s2.linked == [Request(ExX, Some(ExN1)), Request(ExY, Some(ExN2))]
  {
    assert FindIndex(ExRelinked, NetflixIdIs(100)) == 1;
    assert FindIndex([ExY], LinkedTo(ExN2, ExByName)) == 0;
    assert Without([ExY], Deletes(ExNoOther), ExY) == [];
    assert FindIndex(ExRelinked, HasKey(TmdbIdKey, Some(2))) == 1;
  }

  /** Against the memo as the query found it, the second title would find
      the stored movie by Netflix id and no pending record for it. */
  lemma ExampleStaleMemo()
    ensures LinkTarget([ExStored], [ExY], ExN2, ExByName) == None
  {
    assert FindIndex([ExStored], NetflixIdIs(100)) == 0;
    assert FindIndex([ExY], TmdbIdIs(Some(1))) == 1;
  }

  /** A link moves with `make`: once the first title is linked to the
      record of a stored movie, the second title, carrying that movie's old
      Netflix id, no longer finds it (against the query's memo it would
      find no record), and is linked to the other record by name. */
  lemma LinkFollowsMake()
    ensures LinkTarget([ExStored], [ExY], ExN2, ExByName) == None
    ensures var l := LinkAll([ExStored], [ExX, ExY], [ExN1, ExN2], ExByName, ExNoOther);
      && l.linked == [Request(ExX, Some(ExN1)), Request(ExY, Some(ExN2))]
      && l.pending == []
      && l.existing == [ExStored.(netflixId := Some(200))]
  {
    var s0 := Linking([ExStored], EmptyBatch, [ExX, ExY], []);
    var s1 := LinkOne(s0, ExN1, ExByName, ExNoOther);
    ExampleFirstTitle();
    ExampleSecondTitle(s1.batch);
    ExampleStaleMemo();
    assert s1 == Linking(ExRelinked, s1.batch, [ExY], [Request(ExX, Some(ExN1))]);
    LinkUnfold(s0, [ExN1, ExN2], ExByName, ExNoOther);
    assert [ExN1, ExN2][1..] == [ExN2];
    LinkUnfold(s1, [ExN2], ExByName, ExNoOther);
    assert [ExN2][1..] == [];
  }

  // ---------------------------------------------------------------------
  // The drafts of `search_combined`
  // ---------------------------------------------------------------------

  /** When no TMDB record occurs twice in the results, every `make` call of
      `search_combined` is for a different record. */
  lemma CombinedRequestsDistinct(existing: seq<StoredMovie>, records: seq<TmdbRecord>, titles: seq<NetflixTitle>,
                                 linksTo: (TmdbRecord, NetflixTitle) -> bool, sameRecord: (TmdbRecord, TmdbRecord) -> bool)
    requires Distinct(records)
    ensures DistinctBy(CombinedRequests(existing, records, titles, linksTo, sameRecord), RecordOf)
  {
    var l := LinkAll(existing, records, titles, linksTo, sameRecord);
    LinkedRecordsDistinct(existing, records, titles, linksTo, sameRecord);
    RemainingIsSubsequence(existing, records, titles, linksTo, sameRecord);
    SubsequenceDistinctBy(l.pending, records, Id<TmdbRecord>);
    ConcatRequestsDistinct(l.linked, l.pending);
  }

  /** Linked calls for distinct records none of which remains, then one call
      per remaining record, are calls for distinct records. */
  lemma ConcatRequestsDistinct(ls: seq<Request>, rs: seq<TmdbRecord>)
    requires DistinctBy(ls, RecordOf) && Distinct(rs)
    requires forall i :: 0 <= i < |ls| ==> ls[i].record !in rs
    ensures DistinctBy(ls + RestRequests(rs), RecordOf)
  {
    var all := ls + RestRequests(rs);
    forall i, j | 0 <= i < j < |all|
      ensures RecordOf(all[i]) != RecordOf(all[j])
    {
      if j < |ls| {
        assert all[i] == ls[i] && all[j] == ls[j];
      } else if i < |ls| {
        assert all[i] == ls[i] && all[j].record == rs[j - |ls|];
      } else {
        assert all[i].record == rs[i - |ls|] && all[j].record == rs[j - |ls|];
        assert Id(rs[i - |ls|]) != Id(rs[j - |ls|]);
      }
    }
  }

  /** The drafts of a run of `make` calls are for those calls' records. */
  lemma DraftsRecords(existing: seq<StoredMovie>, reqs: seq<Request>)
    ensures Map(Drafts(existing, reqs), TmdbMovieOf) == Map(reqs, RequestedRecord)
  {
    assert forall i :: 0 <= i < |reqs| ==> Drafts(existing, reqs)[i].tmdbMovie == Some(reqs[i].record);
  }

  /** The drafts of a run of `make` calls, after those already made, are
      for those calls' records, some left out, in order. */
  lemma MakeRequestsMadeFor(existing: seq<StoredMovie>, b: Batch, reqs: seq<Request>)
    ensures var made := MakeRequests(existing, b, reqs).made;
      b.made <= made && MadeFor(made[|b.made|..], reqs)
  {
    var made := MakeRequests(existing, b, reqs).made;
    MakeRequestsAppends(existing, b, reqs);
    SubsequenceMap(made[|b.made|..], Drafts(existing, reqs), TmdbMovieOf);
    DraftsRecords(existing, reqs);
  }

  /** The combined drafts are for the records of the `make` calls, the
      linked ones in Netflix order and then the remaining ones in TMDB
      order, some suppressed; there are no more of them than TMDB records. */
  lemma CombinedDraftsOrder(store: seq<StoredMovie>, records: seq<TmdbRecord>, titles: seq<NetflixTitle>,
                            linksTo: (TmdbRecord, NetflixTitle) -> bool, sameRecord: (TmdbRecord, TmdbRecord) -> bool)
    ensures var drafts := CombinedDrafts(store, records, titles, linksTo, sameRecord);
      var reqs := CombinedRequests(Existing(store, TmdbIds(records)), records, titles, linksTo, sameRecord);
      && MadeFor(drafts, reqs)
      && |drafts| <= |records|
  {
    var existing := Existing(store, TmdbIds(records));
    var s := Linking(existing, EmptyBatch, records, []);
    var l := LinkAll(existing, records, titles, linksTo, sameRecord);
    var rest := RestRequests(l.pending);
    assert MadeFor(l.batch.made, l.linked) by {
      LinkMadeOrder(s, titles, linksTo, sameRecord);
      assert l.batch.made[0..] == l.batch.made && l.linked[0..] == l.linked;
    }
    MakeRequestsMadeFor(l.existing, l.batch, rest);
    LinkedAndRemainingCount(existing, records, titles, linksTo, sameRecord);
    MadeForThen(l.batch.made, l.linked, MakeRequests(l.existing, l.batch, rest).made, rest);
  }

  /** Drafts for the linked calls, then drafts for the remaining calls, are
      drafts for all the calls, and no more of them than calls. */
  lemma MadeForThen(made: seq<Movie>, linked: seq<Request>, drafts: seq<Movie>, rest: seq<Request>)
    requires MadeFor(made, linked) && made <= drafts && MadeFor(drafts[|made|..], rest)
    ensures MadeFor(drafts, linked + rest) && |drafts| <= |linked| + |rest|
  {
    assert drafts == made + drafts[|made|..];
    MadeForAppend(made, linked, drafts[|made|..], rest);
    SubsequenceLength(Map(drafts, TmdbMovieOf), Map(linked + rest, RequestedRecord));
  }

  /** Distinct TMDB results are drafted at most once each. */
  lemma CombinedDraftsOnce(store: seq<StoredMovie>, records: seq<TmdbRecord>, titles: seq<NetflixTitle>,
                           linksTo: (TmdbRecord, NetflixTitle) -> bool, sameRecord: (TmdbRecord, TmdbRecord) -> bool)
    requires Distinct(records)
    ensures DistinctBy(CombinedDrafts(store, records, titles, linksTo, sameRecord), TmdbMovieOf)
  {
    var existing := Existing(store, TmdbIds(records));
    var reqs := CombinedRequests(existing, records, titles, linksTo, sameRecord);
    var drafts := CombinedDrafts(store, records, titles, linksTo, sameRecord);
    CombinedDraftsOrder(store, records, titles, linksTo, sameRecord);
    CombinedRequestsDistinct(existing, records, titles, linksTo, sameRecord);
    assert DistinctBy(reqs, RequestedRecord);
    DistinctByMap(reqs, RequestedRecord);
    SubsequenceDistinctBy(Map(drafts, TmdbMovieOf), Map(reqs, RequestedRecord), Id<Option<TmdbRecord>>);
    DistinctByMap(drafts, TmdbMovieOf);
  }

  /** The drafts `search_combined` makes: for the records of its `make`
      calls in order, some suppressed; no more drafts than TMDB records; no
      present IMDB id twice; and, when the TMDB results are distinct, no
      record drafted twice. */
  lemma CombinedDraftsShape(store: seq<StoredMovie>, records: seq<TmdbRecord>, titles: seq<NetflixTitle>,
                            linksTo: (TmdbRecord, NetflixTitle) -> bool, sameRecord: (TmdbRecord, TmdbRecord) -> bool)
    ensures var drafts := CombinedDrafts(store, records, titles, linksTo, sameRecord);
      var reqs := CombinedRequests(Existing(store, TmdbIds(records)), records, titles, linksTo, sameRecord);
      && MadeFor(drafts, reqs)
      && |drafts| <= |records|
      && DistinctPresentImdb(drafts)
      && (Distinct(records) ==> DistinctBy(drafts, TmdbMovieOf))
  {
    var existing := Existing(store, TmdbIds(records));
    var l := LinkAll(existing, records, titles, linksTo, sameRecord);
    CombinedDraftsOrder(store, records, titles, linksTo, sameRecord);
    LinkBatchKeeps(Linking(existing, EmptyBatch, records, []), titles, linksTo, sameRecord);
    MakeRequestsKeeps(l.existing, l.batch, RestRequests(l.pending));
    if Distinct(records) {
      CombinedDraftsOnce(store, records, titles, linksTo, sameRecord);
    }
  }

  /** With no Netflix titles the combined drafts are those of `make_all`. */
  lemma NoTitlesMeansMakeAll(store: seq<StoredMovie>, records: seq<TmdbRecord>,
                             linksTo: (TmdbRecord, NetflixTitle) -> bool, sameRecord: (TmdbRecord, TmdbRecord) -> bool)
    ensures CombinedDrafts(store, records, [], linksTo, sameRecord)
         == MakeRequests(Existing(store, TmdbIds(records)), EmptyBatch, RestRequests(records)).made
  {
  }

  // ---------------------------------------------------------------------
  // Rotten Tomatoes reviews
  // ---------------------------------------------------------------------

  /** The review pass changes nothing but `rotten_movie`. A draft gets a
      record of the pool that matches it and matches no earlier draft; a draft
      gets none only when every matching record was already taken by an
      earlier draft. */
  lemma AttachReviewsSpec(drafts: seq<Movie>, pool: seq<RottenRecord>,
                          reviews: (RottenRecord, Movie) -> bool)
    requires NoReviews(drafts)
    ensures var ms := AttachReviews(drafts, pool, reviews);
      && |ms| == |drafts|
      && (forall i :: 0 <= i < |ms| ==> ms[i] == drafts[i].(rottenMovie := ms[i].rottenMovie))
      && (forall i :: 0 <= i < |ms| && ms[i].rottenMovie.Some? ==>
            && ms[i].rottenMovie.value in pool
            && reviews(ms[i].rottenMovie.value, drafts[i])
            && forall j :: 0 <= j < i ==> !reviews(ms[i].rottenMovie.value, drafts[j]))
      && (forall i :: 0 <= i < |ms| && ms[i].rottenMovie.None? ==>
            forall e :: e in pool && reviews(e, drafts[i]) ==> exists j :: 0 <= j < i && reviews(e, drafts[j]))
  {
    AttachShape(drafts, pool, reviews);
    AttachTaken(drafts, pool, reviews);
    AttachMissed(drafts, pool, reviews);
  }

  /** The review pass changes nothing but `rotten_movie`. */
  lemma {:induction false} AttachShape(drafts: seq<Movie>, pool: seq<RottenRecord>,
                                       reviews: (RottenRecord, Movie) -> bool)
    ensures var ms := AttachReviews(drafts, pool, reviews);
      && |ms| == |drafts|
      && (forall i :: 0 <= i < |ms| ==> ms[i] == drafts[i].(rottenMovie := ms[i].rottenMovie))
    decreases |drafts|
  {
    if drafts != [] {
      var ms := AttachReviews(drafts, pool, reviews);
      AttachUnfold(drafts, pool, reviews);
      AttachShape(drafts[1..], Without(pool, reviews, drafts[0]), reviews);
      assert forall i :: 1 <= i < |ms| ==> ms[i] == ms[1..][i - 1] && drafts[i] == drafts[1..][i - 1];
    }
  }

  /** A draft gets a record of the pool that matches it and matches no
      earlier draft. */
  lemma {:induction false} AttachTaken(drafts: seq<Movie>, pool: seq<RottenRecord>,
                                       reviews: (RottenRecord, Movie) -> bool)
    requires NoReviews(drafts)
    ensures var ms := AttachReviews(drafts, pool, reviews);
      forall i :: 0 <= i < |ms| && ms[i].rottenMovie.Some? ==>
        && ms[i].rottenMovie.value in pool
        && reviews(ms[i].rottenMovie.value, drafts[i])
        && forall j :: 0 <= j < i ==> !reviews(ms[i].rottenMovie.value, drafts[j])
    decreases |drafts|
  {
    if drafts != [] {
      var d := drafts[0];
      var rest := drafts[1..];
      var w := Without(pool, reviews, d);
      var ms := AttachReviews(drafts, pool, reviews);
      var ms' := AttachReviews(rest, w, reviews);
      assert NoReviews(rest) by {
        assert forall i :: 0 <= i < |rest| ==> rest[i] == drafts[i + 1];
      }
      AttachUnfold(drafts, pool, reviews);
      AttachShape(drafts, pool, reviews);
      AttachTaken(rest, w, reviews);
      LastEqualSpec(pool, reviews, d);
      WithoutSpec(pool, reviews, d);
      forall i | 0 <= i < |ms| && ms[i].rottenMovie.Some?
        ensures ms[i].rottenMovie.value in pool && reviews(ms[i].rottenMovie.value, drafts[i])
        ensures forall j :: 0 <= j < i ==> !reviews(ms[i].rottenMovie.value, drafts[j])
      {
        if i > 0 {
          var v := ms[i].rottenMovie.value;
          assert ms[i] == ms'[i - 1] && drafts[i] == rest[i - 1];
          assert v in w;
          forall j | 0 <= j < i ensures !reviews(v, drafts[j]) {
            if j > 0 {
              assert drafts[j] == rest[j - 1];
            }
          }
        }
      }
    }
  }

  /** A draft gets no record only when every matching record was taken by an
      earlier draft. */
  lemma {:induction false} AttachMissed(drafts: seq<Movie>, pool: seq<RottenRecord>,
                                        reviews: (RottenRecord, Movie) -> bool)
    requires NoReviews(drafts)
    ensures var ms := AttachReviews(drafts, pool, reviews);
      forall i :: 0 <= i < |ms| && ms[i].rottenMovie.None? ==>
        forall e :: e in pool && reviews(e, drafts[i]) ==> exists j :: 0 <= j < i && reviews(e, drafts[j])
    decreases |drafts|
  {
    if drafts != [] {
      var d := drafts[0];
      var rest := drafts[1..];
      var w := Without(pool, reviews, d);
      var ms := AttachReviews(drafts, pool, reviews);
      var ms' := AttachReviews(rest, w, reviews);
      assert NoReviews(rest) by {
        assert forall i :: 0 <= i < |rest| ==> rest[i] == drafts[i + 1];
      }
      AttachUnfold(drafts, pool, reviews);
      AttachShape(drafts, pool, reviews);
      AttachMissed(rest, w, reviews);
      LastEqualSpec(pool, reviews, d);
      WithoutSpec(pool, reviews, d);
      forall i, e | 0 <= i < |ms| && ms[i].rottenMovie.None? && e in pool && reviews(e, drafts[i])
        ensures exists j :: 0 <= j < i && reviews(e, drafts[j])
      {
        if i == 0 {
          assert false;
        } else if reviews(e, d) {
          assert reviews(e, drafts[0]);
        } else {
          assert ms[i] == ms'[i - 1] && drafts[i] == rest[i - 1];
          assert e in w;
          var j' :| 0 <= j' < i - 1 && reviews(e, rest[j']);
          assert reviews(e, drafts[j' + 1]);
        }
      }
    }
  }

  /** Some draft of `ds` is equal to the record `p`. */
  predicate Claimed(p: RottenRecord, ds: seq<Movie>, reviews: (RottenRecord, Movie) -> bool)
  {
    exists j :: 0 <= j < |ds| && reviews(p, ds[j])
  }

  lemma ClaimedAppend(p: RottenRecord, ds: seq<Movie>, d: Movie, reviews: (RottenRecord, Movie) -> bool)
    ensures Claimed(p, ds + [d], reviews) <==> Claimed(p, ds, reviews) || reviews(p, d)
  {
    var ds' := ds + [d];
    assert ds'[|ds|] == d;
    assert forall j :: 0 <= j < |ds| ==> ds'[j] == ds[j];
  }

  /** The records of the pool that match none of the drafts `ds`, in pool
      order. */
  function Unclaimed(pool: seq<RottenRecord>, ds: seq<Movie>, reviews: (RottenRecord, Movie) -> bool): seq<RottenRecord>
    decreases |pool|
  {
    if pool == [] then []
    else (if Claimed(pool[0], ds, reviews) then [] else [pool[0]]) + Unclaimed(pool[1..], ds, reviews)
  }

  /** The unclaimed records are exactly the pool's records that match none
      of the drafts. */
  lemma {:induction false} UnclaimedMembers(pool: seq<RottenRecord>, ds: seq<Movie>, reviews: (RottenRecord, Movie) -> bool)
    ensures forall e :: e in Unclaimed(pool, ds, reviews) <==>
      e in pool && forall j :: 0 <= j < |ds| ==> !reviews(e, ds[j])
    decreases |pool|
  {
    if pool != [] {
      UnclaimedMembers(pool[1..], ds, reviews);
      assert pool == [pool[0]] + pool[1..];
    }
  }

  lemma {:induction false} UnclaimedNone(pool: seq<RottenRecord>, reviews: (RottenRecord, Movie) -> bool)
    ensures Unclaimed(pool, [], reviews) == pool
    decreases |pool|
  {
    if pool != [] {
      UnclaimedNone(pool[1..], reviews);
    }
  }

  /** `rotten_movies.delete(d)` on the unclaimed records leaves those
      unclaimed by `d` too. */
  lemma {:induction false} UnclaimedStep(pool: seq<RottenRecord>, ds: seq<Movie>, d: Movie,
                                         reviews: (RottenRecord, Movie) -> bool)
    ensures Without(Unclaimed(pool, ds, reviews), reviews, d) == Unclaimed(pool, ds + [d], reviews)
    decreases |pool|
  {
    if pool != [] {
      UnclaimedStep(pool[1..], ds, d, reviews);
      var p := pool[0];
      var rest := Unclaimed(pool[1..], ds, reviews);
      ClaimedAppend(p, ds, d, reviews);
      if !Claimed(p, ds, reviews) {
        var s := [p] + rest;
        assert Unclaimed(pool, ds, reviews) == s;
        assert s[0..] == s && s[0] == p && s[1..] == rest;
        DeleteStep(s, 0, reviews, d);
        assert Without(s, reviews, d) == (if reviews(p, d) then [] else [p]) + Without(rest, reviews, d);
      } else {
        assert Unclaimed(pool, ds, reviews) == rest;
      }
    }
  }

  lemma PrefixShift<T>(ds: seq<T>, xs: seq<T>)
    requires xs != []
    ensures forall i :: 1 <= i <= |xs| ==> ds + xs[..i] == (ds + [xs[0]]) + xs[1..][..i - 1]
  {
    forall i | 1 <= i <= |xs| ensures ds + xs[..i] == (ds + [xs[0]]) + xs[1..][..i - 1] {
      assert xs[..i] == [xs[0]] + xs[1..][..i - 1];
    }
  }

  lemma {:induction false} AttachPicksFrom(drafts: seq<Movie>, pool: seq<RottenRecord>, ds: seq<Movie>,
                                           reviews: (RottenRecord, Movie) -> bool)
    requires NoReviews(drafts)
    ensures var ms := AttachReviews(drafts, Unclaimed(pool, ds, reviews), reviews);
      forall i :: 0 <= i < |drafts| ==>
        ms[i].rottenMovie == LastEqual(Unclaimed(pool, ds + drafts[..i], reviews), reviews, drafts[i])
    decreases |drafts|
  {
    if drafts != [] {
      var d, rest := drafts[0], drafts[1..];
      var ms := AttachReviews(drafts, Unclaimed(pool, ds, reviews), reviews);
      assert NoReviews(rest) by {
        assert forall i :: 0 <= i < |rest| ==> rest[i] == drafts[i + 1];
      }
      assert ms[1..] == AttachReviews(rest, Unclaimed(pool, ds + [d], reviews), reviews)
          && ms[0].rottenMovie == LastEqual(Unclaimed(pool, ds, reviews), reviews, d) by {
        AttachUnfold(drafts, Unclaimed(pool, ds, reviews), reviews);
        UnclaimedStep(pool, ds, d, reviews);
        assert d.rottenMovie.None?;
      }
      var ms' := AttachReviews(rest, Unclaimed(pool, ds + [d], reviews), reviews);
      AttachPicksFrom(rest, pool, ds + [d], reviews);
      assert ds + drafts[..0] == ds;
      PrefixShift(ds, drafts);
      forall i | 1 <= i < |drafts|
        ensures ms[i].rottenMovie == LastEqual(Unclaimed(pool, ds + drafts[..i], reviews), reviews, drafts[i])
      {
        assert ms[i] == ms'[i - 1] && drafts[i] == rest[i - 1];
      }
    }
  }

  /** Which review a draft gets: `rotten_movies.delete(movie)` returns the
      last record of the pool that matches the draft among those that match
      no earlier draft. */
  lemma AttachPicksLast(drafts: seq<Movie>, pool: seq<RottenRecord>, reviews: (RottenRecord, Movie) -> bool)
    requires NoReviews(drafts)
    ensures var ms := AttachReviews(drafts, pool, reviews);
      forall i :: 0 <= i < |drafts| ==>
        ms[i].rottenMovie == LastEqual(Unclaimed(pool, drafts[..i], reviews), reviews, drafts[i])
  {
    UnclaimedNone(pool, reviews);
    AttachPicksFrom(drafts, pool, [], reviews);
    assert forall i :: 0 <= i <= |drafts| ==> [] + drafts[..i] == drafts[..i];
  }

  /** Each Rotten Tomatoes record is attached to at most one draft. */
  lemma ReviewAttachedOnce(drafts: seq<Movie>, pool: seq<RottenRecord>, reviews: (RottenRecord, Movie) -> bool)
    requires NoReviews(drafts)
    ensures var ms := AttachReviews(drafts, pool, reviews);
      forall i, j :: 0 <= i < j < |ms| && ms[i].rottenMovie.Some? ==> ms[i].rottenMovie != ms[j].rottenMovie
  {
    AttachReviewsSpec(drafts, pool, reviews);
  }

  /** Every `make` call of `search_combined` is for one of the TMDB records. */
  lemma CombinedRequestsFromRecords(existing: seq<StoredMovie>, records: seq<TmdbRecord>, titles: seq<NetflixTitle>,
                                    linksTo: (TmdbRecord, NetflixTitle) -> bool, sameRecord: (TmdbRecord, TmdbRecord) -> bool)
    ensures var reqs := CombinedRequests(existing, records, titles, linksTo, sameRecord);
      forall j :: 0 <= j < |reqs| ==> reqs[j].record in records
  {
    var l := LinkAll(existing, records, titles, linksTo, sameRecord);
    var ls, rs := l.linked, l.pending;
    var reqs := CombinedRequests(existing, records, titles, linksTo, sameRecord);
    LinkedRequestsJustified(existing, records, titles, linksTo, sameRecord);
    RemainingIsSubsequence(existing, records, titles, linksTo, sameRecord);
    SubsequenceMembers(rs, records);
    forall j | 0 <= j < |reqs| ensures reqs[j].record in records {
      if j < |ls| {
        assert reqs[j] == ls[j];
      } else {
        assert reqs[j].record == rs[j - |ls|];
      }
    }
  }

  /** Every combined draft is the draft of one of the TMDB records, with no
      review yet. */
  lemma CombinedDraftsFromRecords(store: seq<StoredMovie>, records: seq<TmdbRecord>, titles: seq<NetflixTitle>,
                                  linksTo: (TmdbRecord, NetflixTitle) -> bool, sameRecord: (TmdbRecord, TmdbRecord) -> bool)
    ensures var drafts := CombinedDrafts(store, records, titles, linksTo, sameRecord);
      && NoReviews(drafts)
      && forall i :: 0 <= i < |drafts| ==> drafts[i].tmdbMovie.Some? && drafts[i].tmdbMovie.value in records
  {
    var existing := Existing(store, TmdbIds(records));
    var l := LinkAll(existing, records, titles, linksTo, sameRecord);
    var reqs := CombinedRequests(existing, records, titles, linksTo, sameRecord);
    var drafts := CombinedDrafts(store, records, titles, linksTo, sameRecord);
    LinkBatchKeeps(Linking(existing, EmptyBatch, records, []), titles, linksTo, sameRecord);
    MakeRequestsKeeps(l.existing, l.batch, RestRequests(l.pending));
    CombinedDraftsOrder(store, records, titles, linksTo, sameRecord);
    CombinedRequestsFromRecords(existing, records, titles, linksTo, sameRecord);
    var ms, rs := Map(drafts, TmdbMovieOf), Map(reqs, RequestedRecord);
    SubsequenceMembers(ms, rs);
    forall i | 0 <= i < |drafts|
      ensures drafts[i].tmdbMovie.Some? && drafts[i].tmdbMovie.value in records
    {
      assert ms[i] == drafts[i].tmdbMovie;
      var j :| 0 <= j < |rs| && rs[j] == ms[i];
      assert rs[j] == Some(reqs[j].record);
    }
  }

  // ---------------------------------------------------------------------
  // `from_netflix_movies`
  // ---------------------------------------------------------------------

  lemma {:induction false} LastWithKeyCons(x: StoredMovie, ms: seq<StoredMovie>, k: Key, v: Option<int>)
    ensures LastWithKey([x] + ms, k, v) == LastWithKey(ms, k, v).Or(if KeyOf(x, k) == v then Some(x) else None)
    decreases |ms|
  {
    var xs := [x] + ms;
    if ms != [] && KeyOf(ms[|ms| - 1], k) != v {
      assert xs[..|xs| - 1] == [x] + ms[..|ms| - 1];
      LastWithKeyCons(x, ms[..|ms| - 1], k, v);
    }
  }

  /** Filtering the store on `netflix_id => {'$in' => ids}` keeps the last
      document for each of the ids. */
  lemma {:induction false} LastWithKeyFiltered(store: seq<StoredMovie>, k: Key, ids: seq<int>, v: int)
    requires v in ids
    ensures LastWithKey(WhereKeyIn(store, k, ids), k, Some(v)) == LastWithKey(store, k, Some(v))
    decreases |store|
  {
    if store != [] {
      var x := store[0];
      var w := WhereKeyIn(store[1..], k, ids);
      LastWithKeyFiltered(store[1..], k, ids, v);
      assert store == [x] + store[1..];
      LastWithKeyCons(x, store[1..], k, Some(v));
      if KeyOf(x, k).Some? && KeyOf(x, k).value in ids {
        assert WhereKeyIn(store, k, ids) == [x] + w;
        LastWithKeyCons(x, w, k, Some(v));
      } else {
        assert WhereKeyIn(store, k, ids) == w;
      }
    }
  }

  /** The reference for `from_netflix_movies`: each title, in Netflix order,
      with the last stored movie carrying its Netflix id; titles without
      one are dropped. */
  function NetflixReference(titles: seq<NetflixTitle>, store: seq<StoredMovie>): seq<Movie>
    decreases |titles|
  {
    if titles == [] then []
    else
      (match LastWithKey(store, NetflixIdKey, Some(titles[0].id))
       case Some(s) => [SetNetflixTitle(Load(s), titles[0])]
       case None => [])
      + NetflixReference(titles[1..], store)
  }

  lemma {:induction false} MatchTitlesReference(ts: seq<NetflixTitle>, store: seq<StoredMovie>, ids: seq<int>)
    requires forall i :: 0 <= i < |ts| ==> ts[i].id in ids
    ensures MatchTitles(ts, IndexBy(WhereKeyIn(store, NetflixIdKey, ids), NetflixIdKey)) == NetflixReference(ts, store)
    decreases |ts|
  {
    if ts != [] {
      var filtered := WhereKeyIn(store, NetflixIdKey, ids);
      IndexByLookup(filtered, NetflixIdKey, Some(ts[0].id));
      LastWithKeyFiltered(store, NetflixIdKey, ids, ts[0].id);
      assert forall i :: 0 <= i < |ts| - 1 ==> ts[1..][i] == ts[i + 1];
      MatchTitlesReference(ts[1..], store, ids);
    }
  }

  /** `from_netflix_movies` is its reference. */
  lemma FromNetflixMoviesReference(titles: seq<NetflixTitle>, store: seq<StoredMovie>)
    ensures FromNetflixMovies(titles, store) == NetflixReference(titles, store)
  {
    var ids := TitleIds(titles);
    assert forall i :: 0 <= i < |titles| ==> ids[i] == titles[i].id;
    MatchTitlesReference(titles, store, ids);
  }

  /** What `from_netflix_movies` returns are stored movies, each carrying
      one of the titles and that title's Netflix id. */
  lemma {:induction false} NetflixReferenceMembers(titles: seq<NetflixTitle>, store: seq<StoredMovie>)
    ensures var ms := NetflixReference(titles, store);
      && |ms| <= |titles|
      && forall i :: 0 <= i < |ms| ==>
        && ms[i].netflixTitle.Some? && ms[i].netflixTitle.value in titles
        && ms[i].netflixId == Some(ms[i].netflixTitle.value.id)
        && exists s :: s in store && s.netflixId == Some(ms[i].netflixTitle.value.id)
                       && ms[i] == SetNetflixTitle(Load(s), ms[i].netflixTitle.value)
    decreases |titles|
  {
    if titles != [] {
      var t := titles[0];
      var ms := NetflixReference(titles, store);
      var rest := NetflixReference(titles[1..], store);
      NetflixReferenceMembers(titles[1..], store);
      var found := LastWithKey(store, NetflixIdKey, Some(t.id));
      var head := if found.Some? then [SetNetflixTitle(Load(found.value), t)] else [];
      assert ms == head + rest;
      forall i | 0 <= i < |ms|
        ensures && ms[i].netflixTitle.Some? && ms[i].netflixTitle.value in titles
          && ms[i].netflixId == Some(ms[i].netflixTitle.value.id)
          && exists s :: s in store && s.netflixId == Some(ms[i].netflixTitle.value.id)
                         && ms[i] == SetNetflixTitle(Load(s), ms[i].netflixTitle.value)
      {
        if i < |head| {
          assert ms[i] == SetNetflixTitle(Load(found.value), t);
          assert found.value in store && found.value.netflixId == Some(t.id);
        } else {
          assert ms[i] == rest[i - |head|];
          assert ms[i].netflixTitle.value in titles[1..];
        }
      }
    }
  }

  /** Some stored movie carries Netflix id `id`. */
  predicate HasNetflixId(store: seq<StoredMovie>, id: int)
  {
    exists j :: 0 <= j < |store| && store[j].netflixId == Some(id)
  }

  /** Every title with a stored movie carrying its Netflix id comes back. */
  lemma {:induction false} NetflixReferenceComplete(titles: seq<NetflixTitle>, store: seq<StoredMovie>)
    ensures forall i :: 0 <= i < |titles| && HasNetflixId(store, titles[i].id) ==>
      exists j :: 0 <= j < |NetflixReference(titles, store)| && NetflixReference(titles, store)[j].netflixTitle == Some(titles[i])
    decreases |titles|
  {
    if titles != [] {
      var t := titles[0];
      var ms := NetflixReference(titles, store);
      var rest := NetflixReference(titles[1..], store);
      NetflixReferenceComplete(titles[1..], store);
      var found := LastWithKey(store, NetflixIdKey, Some(t.id));
      var head := if found.Some? then [SetNetflixTitle(Load(found.value), t)] else [];
      assert ms == head + rest;
      forall i | 0 <= i < |titles| && HasNetflixId(store, titles[i].id)
        ensures exists j :: 0 <= j < |ms| && ms[j].netflixTitle == Some(titles[i])
      {
        if i == 0 {
          var j :| 0 <= j < |store| && store[j].netflixId == Some(t.id);
          assert KeyOf(store[j], NetflixIdKey) == Some(t.id);
          assert ms[0].netflixTitle == Some(titles[0]);
        } else {
          assert titles[i] == titles[1..][i - 1];
          var j :| 0 <= j < |rest| && rest[j].netflixTitle == Some(titles[1..][i - 1]);
          assert ms[j + |head|] == rest[j];
        }
      }
      assert ms == NetflixReference(titles, store);
    }
  }

  // ---------------------------------------------------------------------
  // `search_combined` and the fallback chain of `search`
  // ---------------------------------------------------------------------

  /** A blank-year-only TMDB result ends the search with no movies: Netflix
      and Rotten Tomatoes are not consulted (their outcomes do not matter),
      nothing is saved, and there is no fallback. */
  lemma BlankYearsShortCircuit(found: seq<TmdbRecord>, netflix: Response<NetflixTitle>, rotten: Response<RottenRecord>,
                               netflixAgain: Response<NetflixTitle>, regexpMatches: seq<Movie>, store: seq<StoredMovie>,
                               linksTo: (TmdbRecord, NetflixTitle) -> bool, sameRecord: (TmdbRecord, TmdbRecord) -> bool,
                               reviews: (RottenRecord, Movie) -> bool)
    requires forall i :: 0 <= i < |found| ==> BlankOpt(found[i].year)
    ensures Combined(Ok(found), netflix, rotten, store, linksTo, sameRecord, reviews) == Run(Returned([]), [])
    ensures SearchSpec(Ok(found), netflix, rotten, netflixAgain, regexpMatches, store, linksTo, sameRecord, reviews)
         == SearchRun(FromCombined([]), [])
  {
    WithYearEmpty(found);
  }

  lemma {:induction false} WithYearEmpty(records: seq<TmdbRecord>)
    requires forall i :: 0 <= i < |records| ==> BlankOpt(records[i].year)
    ensures WithYear(records) == []
  {
    if records != [] {
      assert forall i :: 0 <= i < |records| - 1 ==> records[1..][i] == records[i + 1];
      WithYearEmpty(records[1..]);
    }
  }

  /** Once TMDB has answered with dated records, the combined search depends
      on each of the other providers only through what its rescue leaves. */
  lemma CombinedThroughRescue(found: seq<TmdbRecord>, netflix: Response<NetflixTitle>, netflix': Response<NetflixTitle>,
                              rotten: Response<RottenRecord>, rotten': Response<RottenRecord>, store: seq<StoredMovie>,
                              linksTo: (TmdbRecord, NetflixTitle) -> bool, sameRecord: (TmdbRecord, TmdbRecord) -> bool,
                               reviews: (RottenRecord, Movie) -> bool)
    requires RescueProvider(netflix) == RescueProvider(netflix') && RescueProvider(rotten) == RescueProvider(rotten')
    ensures Combined(Ok(found), netflix, rotten, store, linksTo, sameRecord, reviews)
         == Combined(Ok(found), netflix', rotten', store, linksTo, sameRecord, reviews)
  {
  }

  /** An exception that escapes a provider's rescue escapes the combined
      search, once TMDB has answered with dated records. */
  lemma CombinedRaises(found: seq<TmdbRecord>, netflix: Response<NetflixTitle>, rotten: Response<RottenRecord>,
                       store: seq<StoredMovie>, linksTo: (TmdbRecord, NetflixTitle) -> bool,
                       sameRecord: (TmdbRecord, TmdbRecord) -> bool, reviews: (RottenRecord, Movie) -> bool, f: Failure)
    requires WithYear(found) != []
    requires RescueProvider(netflix) == Raise(f)
      || (RescueProvider(netflix).Ok? && RescueProvider(rotten) == Raise(f))
    ensures Combined(Ok(found), netflix, rotten, store, linksTo, sameRecord, reviews) == Run(Raised(f), [])
  {
  }

  /** Inside the combined search, a Netflix failure that `search_netflix_titles`
      rescues (a client error, a parsing error among them, or a timeout)
      counts as "no titles"; any other failure escapes `search_combined`. */
  lemma NetflixFailureRescue(found: seq<TmdbRecord>, f: Failure, rotten: Response<RottenRecord>, store: seq<StoredMovie>,
                             linksTo: (TmdbRecord, NetflixTitle) -> bool, sameRecord: (TmdbRecord, TmdbRecord) -> bool,
                             reviews: (RottenRecord, Movie) -> bool)
    requires WithYear(found) != []
    ensures Swallowed(f) ==>
      Combined(Ok(found), Raise(f), rotten, store, linksTo, sameRecord, reviews)
        == Combined(Ok(found), Ok([]), rotten, store, linksTo, sameRecord, reviews)
    ensures !Swallowed(f) ==> Combined(Ok(found), Raise(f), rotten, store, linksTo, sameRecord, reviews) == Run(Raised(f), [])
  {
    if Swallowed(f) {
      CombinedThroughRescue(found, Raise(f), Ok([]), rotten, rotten, store, linksTo, sameRecord, reviews);
    } else {
      CombinedRaises(found, Raise(f), rotten, store, linksTo, sameRecord, reviews, f);
    }
  }

  /** Such an escaping failure is not rescued by `search` either: it ends the
      search with nothing saved. */
  lemma NetflixFailureEndsSearch(found: seq<TmdbRecord>, f: Failure, rotten: Response<RottenRecord>,
                                 netflixAgain: Response<NetflixTitle>, regexpMatches: seq<Movie>, store: seq<StoredMovie>,
                                 linksTo: (TmdbRecord, NetflixTitle) -> bool, sameRecord: (TmdbRecord, TmdbRecord) -> bool,
                                 reviews: (RottenRecord, Movie) -> bool)
    requires WithYear(found) != []
    ensures !Swallowed(f) ==>
      SearchSpec(Ok(found), Raise(f), rotten, netflixAgain, regexpMatches, store, linksTo, sameRecord, reviews)
        == SearchRun(Failed(f), [])
  {
    if !Swallowed(f) {
      CombinedRaises(found, Raise(f), rotten, store, linksTo, sameRecord, reviews, f);
      assert !Rescued(f);
    }
  }

  /** The same rescue for Rotten Tomatoes, once Netflix has answered. */
  lemma RottenFailureRescue(found: seq<TmdbRecord>, netflix: Response<NetflixTitle>, f: Failure, store: seq<StoredMovie>,
                            linksTo: (TmdbRecord, NetflixTitle) -> bool, sameRecord: (TmdbRecord, TmdbRecord) -> bool,
                            reviews: (RottenRecord, Movie) -> bool)
    requires WithYear(found) != []
    requires !(netflix.Raise? && !Swallowed(netflix.failure))
    ensures Swallowed(f) ==>
      Combined(Ok(found), netflix, Raise(f), store, linksTo, sameRecord, reviews)
        == Combined(Ok(found), netflix, Ok([]), store, linksTo, sameRecord, reviews)
    ensures !Swallowed(f) ==> Combined(Ok(found), netflix, Raise(f), store, linksTo, sameRecord, reviews) == Run(Raised(f), [])
  {
    if Swallowed(f) {
      CombinedThroughRescue(found, netflix, netflix, Raise(f), Ok([]), store, linksTo, sameRecord, reviews);
    } else {
      CombinedRaises(found, netflix, Raise(f), store, linksTo, sameRecord, reviews, f);
    }
  }

  /** The fallback chain, step by step: the combined result when it returns;
      an exception other than a client, parsing or timeout error ends the
      search; otherwise the Netflix-only result when it is not empty, and
      the regexp search exactly when it is. Only the combined and
      Netflix-only steps save, and they save what they return. */
  lemma SearchFallbackOrder(tmdb: Response<TmdbRecord>, netflix: Response<NetflixTitle>, rotten: Response<RottenRecord>,
                            netflixAgain: Response<NetflixTitle>, regexpMatches: seq<Movie>, store: seq<StoredMovie>,
                            linksTo: (TmdbRecord, NetflixTitle) -> bool, sameRecord: (TmdbRecord, TmdbRecord) -> bool,
                               reviews: (RottenRecord, Movie) -> bool)
    ensures var r := SearchSpec(tmdb, netflix, rotten, netflixAgain, regexpMatches, store, linksTo, sameRecord, reviews);
      var c := Combined(tmdb, netflix, rotten, store, linksTo, sameRecord, reviews).outcome;
      var n := NetflixOnly(netflixAgain, store).outcome;
      && (r.result.FromCombined? <==> c.Returned?)
      && (r.result.FromNetflix? <==> c.Raised? && Rescued(c.failure) && n.Returned? && n.movies != [])
      && (r.result.FromRegexp? <==> c.Raised? && Rescued(c.failure) && n == Returned([]))
      && (r.result.Failed? <==> c.Raised? && (!Rescued(c.failure) || n.Raised?))
      && (r.result.FromRegexp? ==> r.result.movies == regexpMatches)
      && (r.result.FromCombined? || r.result.FromNetflix? ==> r.saved == r.result.movies)
      && (r.result.FromRegexp? || r.result.Failed? ==> r.saved == [])
  {
    var c := Combined(tmdb, netflix, rotten, store, linksTo, sameRecord, reviews);
    assert c.outcome.Returned? ==> c.saved == c.outcome.movies;
    var n := NetflixOnly(netflixAgain, store);
    assert n.outcome.Returned? ==> n.saved == n.outcome.movies;
  }

  /** What the combined search returns: no more movies than TMDB records
      with a year, each carrying one of those records, no present IMDB id
      twice, no record twice when those records are distinct, and a review
      only when it matches the movie. */
  lemma CombinedReturned(found: seq<TmdbRecord>, netflix: Response<NetflixTitle>, rotten: Response<RottenRecord>,
                         store: seq<StoredMovie>, linksTo: (TmdbRecord, NetflixTitle) -> bool,
                         sameRecord: (TmdbRecord, TmdbRecord) -> bool, reviews: (RottenRecord, Movie) -> bool)
    ensures var c := Combined(Ok(found), netflix, rotten, store, linksTo, sameRecord, reviews);
      c.outcome.Returned? ==>
        var ms := c.outcome.movies;
        && c.saved == ms
        && |ms| <= |WithYear(found)|
        && DistinctPresentImdb(ms)
        && (Distinct(WithYear(found)) ==> DistinctBy(ms, TmdbMovieOf))
        && forall i :: 0 <= i < |ms| ==>
          && ms[i].tmdbMovie.Some? && ms[i].tmdbMovie.value in found && !BlankOpt(ms[i].tmdbMovie.value.year)
          && (ms[i].rottenMovie.Some? ==> reviews(ms[i].rottenMovie.value, ms[i].(rottenMovie := None)))
  {
    var records := WithYear(found);
    var c := Combined(Ok(found), netflix, rotten, store, linksTo, sameRecord, reviews);
    if records != [] && c.outcome.Returned? {
      var titles := RescueProvider(netflix).records;
      var pool := RescueProvider(rotten).records;
      var drafts := CombinedDrafts(store, records, titles, linksTo, sameRecord);
      assert c.outcome.movies == AttachReviews(drafts, pool, reviews);
      CombinedDraftsShape(store, records, titles, linksTo, sameRecord);
      CombinedDraftsFromRecords(store, records, titles, linksTo, sameRecord);
      AttachKeepsShape(drafts, pool, reviews);
    }
  }

  /** The review pass keeps what the drafts are for and their IMDB ids, and
      gives each movie only a review that matches it. */
  lemma AttachKeepsShape(drafts: seq<Movie>, pool: seq<RottenRecord>, reviews: (RottenRecord, Movie) -> bool)
    requires NoReviews(drafts)
    ensures var ms := AttachReviews(drafts, pool, reviews);
      && |ms| == |drafts|
      && (forall i :: 0 <= i < |ms| ==> ms[i].tmdbMovie == drafts[i].tmdbMovie)
      && (DistinctPresentImdb(drafts) ==> DistinctPresentImdb(ms))
      && (DistinctBy(drafts, TmdbMovieOf) ==> DistinctBy(ms, TmdbMovieOf))
      && forall i :: 0 <= i < |ms| && ms[i].rottenMovie.Some? ==>
           reviews(ms[i].rottenMovie.value, ms[i].(rottenMovie := None))
  {
    var ms := AttachReviews(drafts, pool, reviews);
    AttachReviewsSpec(drafts, pool, reviews);
    assert forall i :: 0 <= i < |ms| ==> ms[i].(rottenMovie := None) == drafts[i];
    assert forall i :: 0 <= i < |ms| ==> ms[i].tmdbMovie == drafts[i].tmdbMovie && ms[i].imdbId == drafts[i].imdbId;
  }
}
