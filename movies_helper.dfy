/** The view helpers of the movie pages: the list of links to a movie
    elsewhere on the web, the title with its year, the year and runtime
    markup, and the poster dimensions. */
module MoviesHelper {
  import opened Ruby

  /** `movie.year`: nil, a string, or a number. */
  datatype Year = NoYear | YearText(text: string) | YearNumber(number: int)

  /** `year.blank?`: nil and white-space strings are blank, numbers never. */
  predicate YearBlank(y: Year)
  {
    y.NoYear? || (y.YearText? && Blank(y.text))
  }

  /** `"#{year}"`. */
  function YearString(y: Year): string
  {
    match y
    case NoYear => ""
    case YearText(t) => t
    case YearNumber(n) => IntToString(n)
  }

  /** The attributes of a movie the helpers read. */
  datatype MovieView = MovieView(
    title: string,
    year: Year,
    runtime: Option<int>,
    homepage: Option<string>,
    wikipediaUrl: Option<string>,
    imdbUrl: Option<string>,
    netflixUrl: Option<string>)

  /** Where a link goes: a URL, or the application's own Wikipedia redirect
      route for the movie (`[:wikipedia, movie]`). */
  datatype Target = Url(url: string) | WikipediaRedirect

  datatype Link = Link(name: string, target: Target)

  const OfficialWebsite := "official website"
  const Wikipedia := "Wikipedia"
  const Imdb := "IMDB"
  const Netflix := "Netflix"

  /** The labels of the candidate links, in the order they are listed. */
  const ElsewhereLabels := [OfficialWebsite, Wikipedia, Imdb, Netflix]

  const Redirect := Link(Wikipedia, WikipediaRedirect)

  /** A candidate link: its label and the movie's URL for it. */
  datatype Candidate = Candidate(name: string, url: Option<string>)

  /** The candidates in the order `movie_elsewhere` lists them. */
  function Candidates(m: MovieView): seq<Candidate>
  {
    [Candidate(OfficialWebsite, m.homepage), Candidate(Wikipedia, m.wikipediaUrl),
     Candidate(Imdb, m.imdbUrl), Candidate(Netflix, m.netflixUrl)]
  }

  /** The movie's URL for a label of the list; nothing for any other label. */
  function UrlOf(m: MovieView, name: string): Option<string>
  {
    if name == OfficialWebsite then m.homepage
    else if name == Wikipedia then m.wikipediaUrl
    else if name == Imdb then m.imdbUrl
    else if name == Netflix then m.netflixUrl
    else None
  }

  /** One candidate after `map`: a link when its URL is `presence`, else nil
      (an empty sequence, so that `compact` is concatenation). */
  function Entry(c: Candidate): seq<Link>
  {
    if Present(c.url) then [Link(c.name, Url(c.url.value))] else []
  }

  /** `map { ... }.compact` over a candidate list. */
  function Compact(cs: seq<Candidate>): seq<Link>
  {
    if cs == [] then [] else Entry(cs[0]) + Compact(cs[1..])
  }

  /** The links `movie_elsewhere` starts from. */
  function PresentLinks(m: MovieView): seq<Link>
  {
    Compact(Candidates(m))
  }

  function Names(links: seq<Link>): (r: seq<string>)
    ensures |r| == |links|
    ensures forall i :: 0 <= i < |r| ==> r[i] == links[i].name
  {
    if links == [] then [] else [links[0].name] + Names(links[1..])
  }

  predicate IsWikipedia(l: Link)
  {
    l.name == Wikipedia
  }

  /** The present links as four entries. */
  lemma PresentLinksEntries(m: MovieView)
    ensures PresentLinks(m) == Entry(Candidates(m)[0]) + (Entry(Candidates(m)[1])
      + (Entry(Candidates(m)[2]) + Entry(Candidates(m)[3])))
  {
    var cs := Candidates(m);
    assert cs == [cs[0]] + ([cs[1]] + ([cs[2]] + [cs[3]]));
    CompactCons(cs[3], []);
    assert [cs[3]] + [] == [cs[3]] && Entry(cs[3]) + [] == Entry(cs[3]);
    CompactCons(cs[2], [cs[3]]);
    CompactCons(cs[1], [cs[2]] + [cs[3]]);
    CompactCons(cs[0], [cs[1]] + ([cs[2]] + [cs[3]]));
  }

  lemma CompactCons(c: Candidate, cs: seq<Candidate>)
    ensures Compact([c] + cs) == Entry(c) + Compact(cs)
  {
    assert ([c] + cs)[1..] == cs;
  }

  /** The links kept are exactly the candidates whose URL is present, each
      with its own label and URL. */
  lemma PresentLinksMembers(m: MovieView)
    ensures forall l :: l in PresentLinks(m) <==>
      l.target.Url? && Present(UrlOf(m, l.name)) && UrlOf(m, l.name) == Some(l.target.url)
  {
    var cs := Candidates(m);
    PresentLinksEntries(m);
    assert forall k :: 0 <= k < 4 ==> UrlOf(m, cs[k].name) == cs[k].url;
    forall l: Link | l in PresentLinks(m)
      ensures l.target.Url? && Present(UrlOf(m, l.name)) && UrlOf(m, l.name) == Some(l.target.url)
    {
      var k :| 0 <= k < 4 && l in Entry(cs[k]);
    }
    forall l: Link | l.target.Url? && Present(UrlOf(m, l.name)) && UrlOf(m, l.name) == Some(l.target.url)
      ensures l in PresentLinks(m)
    {
      var k :| 0 <= k < 4 && cs[k].name == l.name;
      assert Entry(cs[k]) == [l];
    }
  }

  /** A Wikipedia link is among the present links exactly when the movie's
      Wikipedia URL is present. */
  lemma WikipediaFound(m: MovieView)
    ensures Find(PresentLinks(m), IsWikipedia).Some? <==> Present(m.wikipediaUrl)
  {
    PresentLinksMembers(m);
    var links := PresentLinks(m);
    if Present(m.wikipediaUrl) {
      var l := Link(Wikipedia, Url(m.wikipediaUrl.value));
      assert l in links;
      var i :| 0 <= i < |links| && links[i] == l;
      assert IsWikipedia(links[i]);
    } else {
      forall i | 0 <= i < |links| ensures !IsWikipedia(links[i]) {
        assert links[i] in links;
      }
    }
  }

  /** Putting an entry in front of a list keeps its labels a subsequence of
      the candidate labels with the entry's label in front. */
  lemma EntryNames(c: Candidate, rest: seq<Link>, names: seq<string>)
    requires Subsequence(Names(rest), names)
    ensures Subsequence(Names(Entry(c) + rest), [c.name] + names)
  {
    if Present(c.url) {
      assert (Entry(c) + rest)[1..] == rest;
      SubsequenceCons(c.name, Names(rest), names);
    } else {
      assert Entry(c) + rest == rest;
      SubsequenceSkip(c.name, Names(rest), names);
    }
  }

  /** The links keep the listed order, so no label occurs twice. */
  lemma PresentLinksOrder(m: MovieView)
    ensures Subsequence(Names(PresentLinks(m)), ElsewhereLabels)
    ensures Distinct(Names(PresentLinks(m)))
  {
    var cs := Candidates(m);
    PresentLinksEntries(m);
    SubsequenceRefl<string>([]);
    assert Entry(cs[3]) + [] == Entry(cs[3]);
    EntryNames(cs[3], [], []);
    EntryNames(cs[2], Entry(cs[3]), [Netflix]);
    EntryNames(cs[1], Entry(cs[2]) + Entry(cs[3]), [Imdb, Netflix]);
    EntryNames(cs[0], Entry(cs[1]) + (Entry(cs[2]) + Entry(cs[3])), [Wikipedia, Imdb, Netflix]);
    assert [OfficialWebsite] + [Wikipedia, Imdb, Netflix] == ElsewhereLabels;
    assert Distinct(ElsewhereLabels);
    SubsequenceDistinctBy(Names(PresentLinks(m)), ElsewhereLabels, Id<string>);
  }

  /** The official website comes first exactly when the homepage is present. */
  lemma HomepageFirst(m: MovieView)
    ensures (|PresentLinks(m)| > 0 && PresentLinks(m)[0].name == OfficialWebsite) <==> Present(m.homepage)
  {
    PresentLinksEntries(m);
  }

  /** Without a Wikipedia URL, the redirect slots in between the official
      website and the rest, keeping the listed order. */
  lemma RedirectOrder(m: MovieView, w: nat)
    requires !Present(m.wikipediaUrl) && w == if Present(m.homepage) then 1 else 0
    ensures w <= |PresentLinks(m)|
    ensures Subsequence(Names(PresentLinks(m)[..w] + [Redirect] + PresentLinks(m)[w..]), ElsewhereLabels)
  {
    var cs := Candidates(m);
    var p := PresentLinks(m);
    var tail := Entry(cs[2]) + Entry(cs[3]);
    PresentLinksEntries(m);
    assert Entry(cs[1]) == [];
    assert p == Entry(cs[0]) + tail;
    assert |Entry(cs[0])| == w;
    assert p[..w] == Entry(cs[0]) && p[w..] == tail;
    TailNames(m);
    SubsequenceCons(Wikipedia, Names(tail), [Imdb, Netflix]);
    assert ([Redirect] + tail)[1..] == tail;
    assert Names([Redirect] + tail) == [Wikipedia] + Names(tail);
    EntryNames(cs[0], [Redirect] + tail, [Wikipedia, Imdb, Netflix]);
    assert p[..w] + [Redirect] + p[w..] == Entry(cs[0]) + ([Redirect] + tail);
    assert [OfficialWebsite] + [Wikipedia, Imdb, Netflix] == ElsewhereLabels;
  }

  /** The IMDB and Netflix links keep their order. */
  lemma TailNames(m: MovieView)
    ensures Subsequence(Names(Entry(Candidates(m)[2]) + Entry(Candidates(m)[3])), [Imdb, Netflix])
  {
    var cs := Candidates(m);
    SubsequenceRefl<string>([]);
    assert Entry(cs[3]) + [] == Entry(cs[3]);
    EntryNames(cs[3], [], []);
    EntryNames(cs[2], Entry(cs[3]), [Netflix]);
  }

  /** Exactly one link is labelled Wikipedia. */
  predicate OneWikipedia(links: seq<Link>)
  {
    && (exists k :: 0 <= k < |links| && links[k].name == Wikipedia)
    && (forall j, k :: 0 <= j < |links| && 0 <= k < |links| && links[j].name == Wikipedia && links[k].name == Wikipedia ==> j == k)
  }

  /** With a Wikipedia URL, the present links already hold one Wikipedia
      link, and it is not the redirect. */
  lemma WikipediaPresent(m: MovieView)
    requires Present(m.wikipediaUrl)
    ensures OneWikipedia(PresentLinks(m)) && Redirect !in PresentLinks(m)
  {
    var links := PresentLinks(m);
    PresentLinksMembers(m);
    PresentLinksOrder(m);
    var l := Link(Wikipedia, Url(m.wikipediaUrl.value));
    assert l in links;
    var i :| 0 <= i < |links| && links[i] == l;
    assert Names(links)[i] == Wikipedia;
    forall j, k | 0 <= j < |links| && 0 <= k < |links| && links[j].name == Wikipedia && links[k].name == Wikipedia
      ensures j == k
    {
      assert Names(links)[j] == Names(links)[k];
    }
  }

  /** Inserting the redirect into links without a Wikipedia link. */
  lemma InsertRedirect(p: seq<Link>, w: nat)
    requires w <= |p| && forall i :: 0 <= i < |p| ==> p[i].name != Wikipedia
    ensures var q := p[..w] + [Redirect] + p[w..];
      && q[w] == Redirect && q[..w] + q[w + 1..] == p
      && Redirect in q && OneWikipedia(q)
  {
    var q := p[..w] + [Redirect] + p[w..];
    assert q[..w] == p[..w] && q[w + 1..] == p[w..];
    assert forall j :: 0 <= j < |q| && j != w ==> q[j].name != Wikipedia by {
      forall j | 0 <= j < |q| && j != w ensures q[j].name != Wikipedia {
        if j < w { assert q[j] == p[j]; } else { assert q[j] == p[j - 1]; }
      }
    }
  }

  /** `movie_elsewhere`: the present links; when Wikipedia is not among
      them, the Wikipedia redirect is inserted after the official website,
      or first when there is none. */
  method MovieElsewhere(m: MovieView) returns (links: seq<Link>)
    ensures Present(m.wikipediaUrl) ==> links == PresentLinks(m)
    ensures !Present(m.wikipediaUrl) ==>
      var w := if Present(m.homepage) then 1 else 0;
      && w < |links| && links[w] == Redirect
      && links[..w] + links[w + 1..] == PresentLinks(m)
    ensures (Redirect in links) <==> !Present(m.wikipediaUrl)
    ensures OneWikipedia(links)
    ensures Subsequence(Names(links), ElsewhereLabels)
  {
    links := PresentLinks(m);
    WikipediaFound(m);
    if Find(links, IsWikipedia).None? {
      var idx := if |links| > 0 && links[0].name == OfficialWebsite then 1 else 0;
      HomepageFirst(m);
      RedirectOrder(m, idx);
      InsertRedirect(links, idx);
      links := links[..idx] + [Redirect] + links[idx..];
    } else {
      WikipediaPresent(m);
      PresentLinksOrder(m);
    }
  }

  /** `movie_title_with_year`. */
  function TitleWithYear(m: MovieView): (r: string)
  {
    if YearBlank(m.year) then m.title else m.title + " (" + YearString(m.year) + ")"
  }

  /** The title is kept in front, and the year is added exactly when it is
      not blank; it can be read back from between the parentheses. */
  lemma TitleWithYearSpec(m: MovieView)
    ensures var r := TitleWithYear(m);
      && m.title <= r
      && (r == m.title <==> YearBlank(m.year))
      && (!YearBlank(m.year) ==>
            && |r| == |m.title| + |YearString(m.year)| + 3
            && r[|m.title|..|m.title| + 2] == " (" && r[|r| - 1] == ')'
            && r[|m.title| + 2..|r| - 1] == YearString(m.year))
  {
    var r := TitleWithYear(m);
    if !YearBlank(m.year) {
      assert r[..|m.title|] == m.title;
      assert r[|m.title| + 2..|r| - 1] == YearString(m.year);
    }
  }

  const YearOpen := " <span class=\"year\">(<time>"
  const YearClose := "</time>)</span>"

  /** `movie_year`. */
  function MovieYear(m: MovieView): (r: string)
  {
    if YearBlank(m.year) then "" else YearOpen + YearString(m.year) + YearClose
  }

  /** The year markup is empty exactly when the year is blank, and otherwise
      wraps the year's text in a `time` element. */
  lemma MovieYearSpec(m: MovieView)
    ensures var r := MovieYear(m);
      && (r == "" <==> YearBlank(m.year))
      && (!YearBlank(m.year) ==>
            && YearOpen <= r
            && r[|r| - |YearClose|..] == YearClose
            && r[|YearOpen|..|r| - |YearClose|] == YearString(m.year))
  {
    var r := MovieYear(m);
    if !YearBlank(m.year) {
      assert r[..|YearOpen|] == YearOpen;
      assert r[|r| - |YearClose|..] == YearClose;
      assert r[|YearOpen|..|r| - |YearClose|] == YearString(m.year);
    }
  }

  /** The sizes a poster can be asked for; `:small` is the default. */
  datatype PosterSize = Small | Medium | OtherSize(name: string)

  const DefaultPosterSize := Small

  /** The `case size` table: (width, height) in pixels. */
  function PosterDimensions(size: PosterSize): (d: Option<(int, int)>)
    ensures d.Some? <==> size.Small? || size.Medium?
    ensures d.Some? ==> 0 < d.value.0 < d.value.1
  {
    match size
    case Small => Some((92, 140))
    case Medium => Some((185, 274))
    case OtherSize(_) => None
  }

  /** What `movie_poster` renders: an empty placeholder of the poster's size,
      or the image. */
  datatype Poster =
    | Placeholder(width: Option<int>, height: Option<int>)
    | Image(src: string, imageWidth: Option<int>, alt: string)

  function Width(size: PosterSize): Option<int>
  {
    match PosterDimensions(size)
    case Some(d) => Some(d.0)
    case None => None
  }

  function Height(size: PosterSize): Option<int>
  {
    match PosterDimensions(size)
    case Some(d) => Some(d.1)
    case None => None
  }

  /** `movie_poster`, with `src` the movie's poster URL for `size` and
      `offline` the value of `Movies.offline?`. */
  function MoviePoster(title: string, src: Option<string>, size: PosterSize, offline: bool): (p: Poster)
    ensures p.Placeholder? <==> offline || BlankOpt(src)
    ensures p.Placeholder? ==> p.width == Width(size) && p.height == Height(size)
    ensures p.Image? ==> src == Some(p.src) && p.imageWidth == Width(size)
  {
    if offline || BlankOpt(src) then Placeholder(Width(size), Height(size))
    else Image(src.value, Width(size), if BlankOpt(src) then "No poster" else "Poster for " + title)
  }

  /** The image always carries the title in its alternative text: the
      `'No poster'` branch sits behind the same blank check as the
      placeholder and is never taken. */
  lemma PosterAltNamesTitle(title: string, src: Option<string>, size: PosterSize, offline: bool)
    ensures var p := MoviePoster(title, src, size, offline);
      p.Image? ==> p.alt == "Poster for " + title && p.alt != "No poster"
  {
    var p := MoviePoster(title, src, size, offline);
    if p.Image? {
      assert p.alt[0] == 'P' != "No poster"[0];
    }
  }

  /** The parts of a runtime display. */
  datatype RuntimePart = Hours(hours: int) | Minutes(minutes: int)

  /** The parts `movie_runtime` emits for a runtime in minutes: whole hours,
      then the remaining minutes, each only when it is not zero. */
  function RuntimeParts(t: int): seq<RuntimePart>
  {
    (if t / 60 != 0 then [Hours(t / 60)] else []) + (if t % 60 != 0 then [Minutes(t % 60)] else [])
  }

  /** The number of minutes a sequence of parts stands for. */
  function PartsTotal(parts: seq<RuntimePart>): int
  {
    if parts == [] then 0
    else
      (match parts[0] case Hours(h) => 60 * h case Minutes(m) => m) + PartsTotal(parts[1..])
  }

  /** A display without zero parts: at most one hours part, then at most one
      minutes part below an hour. */
  predicate Canonical(parts: seq<RuntimePart>)
  {
    || parts == []
    || (|parts| == 1 && parts[0].Hours? && parts[0].hours != 0)
    || (|parts| == 1 && parts[0].Minutes? && 0 < parts[0].minutes < 60)
    || (|parts| == 2 && parts[0].Hours? && parts[0].hours != 0 && parts[1].Minutes? && 0 < parts[1].minutes < 60)
  }

  /** The display adds up to the runtime, has no zero part, and is empty
      exactly for a zero runtime. */
  lemma RuntimePartsSpec(t: int)
    ensures PartsTotal(RuntimeParts(t)) == t
    ensures Canonical(RuntimeParts(t))
    ensures RuntimeParts(t) == [] <==> t == 0
  {
    var parts := RuntimeParts(t);
    assert 60 * (t / 60) + t % 60 == t;
    if t / 60 != 0 && t % 60 != 0 {
      assert parts[1..] == [Minutes(t % 60)];
      assert parts[1..][1..] == [];
      assert PartsTotal(parts[1..]) == t % 60;
    }
  }

  /** The display is the only canonical one for its runtime. */
  lemma RuntimePartsUnique(parts: seq<RuntimePart>, t: int)
    requires Canonical(parts) && PartsTotal(parts) == t
    ensures parts == RuntimeParts(t)
  {
    if |parts| == 2 {
      assert parts[1..] == [parts[1]];
      assert parts[1..][1..] == [];
      assert PartsTotal(parts[1..]) == parts[1].minutes;
      DivModUnique(parts[0].hours, parts[1].minutes, t);
    } else if |parts| == 1 && parts[0].Hours? {
      DivModUnique(parts[0].hours, 0, t);
    } else if |parts| == 1 {
      DivModUnique(0, parts[0].minutes, t);
    } else {
      DivModUnique(0, 0, t);
    }
  }

  /** Ruby's `/ 60` and `% 60` (floored) agree with Dafny's Euclidean ones
      for the positive divisor; the quotient and remainder are unique. */
  lemma DivModUnique(h: int, m: int, t: int)
    requires 0 <= m < 60 && 60 * h + m == t
    ensures t / 60 == h && t % 60 == m
  {
  }

  function PartText(p: RuntimePart): string
  {
    match p
    case Hours(h) => "<span>" + IntToString(h) + "</span>h"
    case Minutes(m) => "<span>" + IntToString(m) + "</span>min"
  }

  function PartTexts(parts: seq<RuntimePart>): seq<string>
  {
    seq(|parts|, i requires 0 <= i < |parts| => PartText(parts[i]))
  }

  const RuntimeOpen := "<span class=\"runtime\">"
  const RuntimeClose := "</span>"

  /** The runtime markup for a sequence of parts. */
  function RuntimeHtml(parts: seq<RuntimePart>): string
  {
    RuntimeOpen + Join(PartTexts(parts), " ") + RuntimeClose
  }

  /** `movie_runtime`: nil without a runtime; otherwise the hours and the
      minutes parts that are not zero, joined by a space. */
  method MovieRuntime(runtime: Option<int>) returns (html: Option<string>)
    ensures html.None? <==> runtime.None?
    ensures runtime.Some? ==> html == Some(RuntimeHtml(RuntimeParts(runtime.value)))
  {
    if runtime.None? {
      return None;
    }
    var t := runtime.value;
    var hours := t / 60;
    var minutes := t % 60;
    var parts: seq<string> := [];
    if hours != 0 {
      parts := parts + ["<span>" + IntToString(hours) + "</span>h"];
    }
    if minutes != 0 {
      parts := parts + ["<span>" + IntToString(minutes) + "</span>min"];
    }
    assert parts == PartTexts(RuntimeParts(t));
    html := Some(RuntimeOpen + Join(parts, " ") + RuntimeClose);
  }
}
