# movieapp search core in Dafny

This project models the movie search of the movieapp Rails application in Dafny and proves properties of that model. It covers three parts.

- **`Movie::Search`** (`search.dfy`, proved in `search_properties.dfy`). A term is searched on TMDB. Its records with a blank year are dropped. The rest are reconciled with the Netflix titles and the Rotten Tomatoes records for the same term:
  - a `RecordSpawner` makes one `Movie` draft per TMDB record;
  - it reuses the stored movie with that TMDB id when there is one;
  - it skips a record whose IMDB id a previous draft already produced.

  Netflix titles are linked first, in Netflix order. Each linked TMDB record is deleted from the array the spawner shares. The records left over are made afterwards. Each draft then takes its Rotten Tomatoes record out of a shared pool and is saved. `make` with a Netflix title writes that title's id onto the stored movie it took from the spawner's memo, so later titles are linked against the memo as changed. When the combined search raises a rescued error, `search` falls back to the Netflix-only search. When that finds nothing, it falls back to the regular-expression search of stored titles.
- **The pure parts of the Netflix client** (`netflix.dfy`):
  - the parameters of a catalog search;
  - `Title#name=` with its "special edition" suffix and flag;
  - the title id taken from the id URL;
  - the runtime in minutes.
- **The view helpers of `MoviesHelper`** (`movies_helper.dfy`):
  - the ordered list of external links, with its guaranteed Wikipedia entry;
  - the title with its year, and the year markup;
  - the poster size table and placeholder;
  - the runtime split into hours and minutes.

`ruby.dfy` holds the Ruby and ActiveSupport semantics the core relies on:
- `blank?`/`present?`, `find`;
- `Array#delete`, which removes every equal element and returns the last one;
- `join`, `split`, `Integer#to_s`, `String#to_i` on digits.

`records.dfy` holds the record types and the store lookups (`where ... $in`, `index_by`).

`RecordSpawner`, the TMDB array it shares with `search_combined`, and the Rotten Tomatoes pool are classes whose fields the methods update. The linking loop, `make_all` and the review loop are `while` loops. Each is proved against a specification function (`MakeRequests`, `Link`, `AttachReviews`, `Combined`, `SearchSpec`), and the lemmas state what the source promises about those functions.

The providers (TMDB, Netflix, Rotten Tomatoes) are inputs of type `Response`: either `Ok(records)` or a raised `Failure` (`ClientError`, `ParsingError`, `Timeout`, `OtherError`). The fallback path asks Netflix a second time, so `search` takes two Netflix responses. The matches of `search_regexp` are a third input. `save` is modelled as the list of saved movies that a run returns.

Where the code and its documentation differ, the model follows the code. When every TMDB record has a blank year, `search_combined` returns `[]` and `search` does not fall back to Netflix. `BlankYearsShortCircuit` states this.

## Model

| member | source | states |
|---|---|---|
| Ruby.Find | app/models/movie/search.rb:53-56 | `find` returns an element satisfying the block exactly when one exists |
| Ruby.FindIndex | app/models/movie/search.rb:53-56 | the position found satisfies the block and no earlier element does |
| Ruby.WithoutSpec | app/models/movie/search.rb:106 | after `Array#delete` no element equals the argument, every unequal element survives, and the array shrinks when something matched |
| Ruby.LastEqualSpec | app/models/movie/search.rb:113 | `Array#delete` returns a matching element exactly when one exists, and it is the last matching element of the array |
| Ruby.WithoutIsSubsequence | app/models/movie/search.rb:106 | deletion keeps the other elements in their order |
| Ruby.SplitJoin | lib/netflix.rb:32 | splitting a comma-joined list at commas gives the list back when no part holds a comma |
| Ruby.DigitsValueOfToString | lib/netflix.rb:73 | `to_i` of a number's decimal digits is that number |
| Records.WhereKeyIn | app/models/movie/search.rb:49 | the `$in` query returns exactly the stored movies whose key is among the ids |
| Records.LastWithKey | app/models/movie/search.rb:26 | a movie with the key is found exactly when the store holds one |
| Records.IndexByLookup | app/models/movie/search.rb:49 | a lookup in an `index_by` hash yields the last movie with that key |
| Records.PutLookup | app/models/movie/search.rb:26 | writing a key into the index overrides only that key |
| MovieSearch.RecordList.Delete | app/models/movie/search.rb:106 | the array loses every element equal to the argument, keeping the others in order, and the call returns the last one removed or nil |
| MovieSearch.RecordSpawner.constructor | app/models/movie/search.rb:41-46 | the spawner shares the given array, records its TMDB ids, and starts with no made movies, no IMDB ids and no memo |
| MovieSearch.RecordSpawner.GetExisting | app/models/movie/search.rb:48-50 | `existing` returns the memo once there is one, else the index of stored movies with one of the TMDB ids, which it then memoizes |
| MovieSearch.RecordSpawner.FindLinkedToNetflix | app/models/movie/search.rb:52-58 | the result is the link target of the title among the records still in the shared array, against the memo as earlier `make` calls left it; the memo is unchanged |
| MovieSearch.RecordSpawner.Make | app/models/movie/search.rb:60-68 | a record whose present IMDB id was already produced yields nil and changes nothing; otherwise exactly one draft is appended, with its IMDB id when it has one; with a title, the memo's stored movie for that TMDB id takes the title's Netflix id |
| MovieSearch.RecordSpawner.MakeAll | app/models/movie/search.rb:70-72 | the spawner makes every record of the shared array in order, against the memo, which stays as it is |
| MovieSearch.DraftOf | app/models/movie/search.rb:62-64 | a draft carries the TMDB record, its ids and the Netflix title; it starts from the stored movie for that TMDB id when there is one, else from a new movie |
| MovieSearch.Relinked | app/models/movie/search.rb:62-64 | `netflix_title=` on a movie taken from the memo gives the memo's movie with that TMDB id the title's Netflix id and changes nothing else; with no such movie the memo is unchanged |
| MovieSearch.FromTmdbMovies | app/models/movie/search.rb:19-23 | without a block, the made movies are those of `make_all` over the records |
| MovieSearch.LinkNetflixTitles | app/models/movie/search.rb:103-110 | the memo, the made movies and the shared array end as `Link` defines: title by title in Netflix order, the record is found against the current memo, deleted from the array with `Array#delete`, and made with the title |
| MovieSearch.AttachAndSave | app/models/movie/search.rb:112-117 | the saved movies are the drafts, each given its review taken out of the pool |
| MovieSearch.WithYear | app/models/movie/search.rb:98 | exactly the records with a non-blank year are kept, in their TMDB order |
| MovieSearch.RescueProvider | app/models/movie/search.rb:75-89 | a client error (a parsing error included, being a subclass of it) or a timeout becomes an empty result; every other failure propagates unchanged |
| MovieSearch.SearchCombined | app/models/movie/search.rb:97-118 | the method returns the outcome and the saved movies that `Combined` defines |
| MovieSearch.SearchNetflix | app/models/movie/search.rb:91-95 | the method returns the Netflix-only outcome and saves every movie it returns |
| MovieSearch.Search | app/models/movie/search.rb:6-11 | the method follows the fallback chain that `SearchSpec` defines |
| SearchProperties.ImdbIdsOfMembers | app/models/movie/search.rb:66 | the IMDB ids collected from a list of movies are exactly their non-nil IMDB ids |
| SearchProperties.BlankImdbNeverSuppressed | app/models/movie/search.rb:61 | a blank IMDB id, empty string included, never blocks `make` |
| SearchProperties.MakeStepKeeps | app/models/movie/search.rb:60-68 | one `make` keeps the IMDB ids equal to those of the made movies, and keeps present IMDB ids distinct |
| SearchProperties.MakeRequestsKeeps | app/models/movie/search.rb:60-72 | any sequence of `make` calls keeps those two invariants |
| SearchProperties.MakeRequestsAppends | app/models/movie/search.rb:65 | the made movies only grow; what is added is an in-order selection of the requested drafts |
| SearchProperties.NothingSuppressed | app/models/movie/search.rb:61-66 | with fresh, pairwise distinct IMDB ids nothing is skipped: every request's draft is appended in order |
| SearchProperties.FirstWins | app/models/movie/search.rb:61 | the first request carrying a given fresh present IMDB id always has its draft made |
| SearchProperties.LinkTargetPreference | app/models/movie/search.rb:52-57 | a title with a stored Netflix link yields only the pending record with that stored TMDB id, never an equality match; otherwise the first pending record equal to the title |
| SearchProperties.LinkTargetJustified | app/models/movie/search.rb:52-57 | every link target is pending and is justified by a stored link or by equality |
| SearchProperties.LinkedRequestsJustified | app/models/movie/search.rb:52-64 | every linked call pairs a searched record with a title it is justified for: the record equals the title, or a stored movie with the record's TMDB id carries the title's Netflix id, as the query found it or as an earlier linked call wrote it; the titles used are an in-order selection of the Netflix titles |
| SearchProperties.LinkedMemo | app/models/movie/search.rb:62-64 | after the linking loop the memo holds the movies the query found, each Netflix id either the one it was stored with or that of a title linked to a record with its TMDB id |
| SearchProperties.LinkFollowsMake | app/models/movie/search.rb:52-64 | a link moves with `make`: once a title is linked to the record of a stored movie, a later title carrying that movie's old Netflix id no longer finds it and is linked by equality instead |
| SearchProperties.LinkedRecordsDistinct | app/models/movie/search.rb:105-107 | no TMDB record is linked twice, and no linked record remains in the shared array for the second pass |
| SearchProperties.RemainingIsSubsequence | app/models/movie/search.rb:106 | the records left for the second pass keep their original order |
| SearchProperties.LinkedAndRemainingCount | app/models/movie/search.rb:103-111 | the calls of both passes are one per linked record and one per remaining record, together at most the records searched |
| SearchProperties.CombinedRequestsDistinct | app/models/movie/search.rb:103-111 | when no TMDB record occurs twice, no record is requested twice across both passes |
| SearchProperties.CombinedRequestsFromRecords | app/models/movie/search.rb:103-111 | every request comes from the searched records |
| SearchProperties.CombinedDraftsShape | app/models/movie/search.rb:98-111 | the drafts follow linked-then-remaining order; there are at most as many as records with a year; present IMDB ids are distinct; each distinct record yields at most one draft |
| SearchProperties.CombinedDraftsFromRecords | app/models/movie/search.rb:103-111 | every draft has no review yet and carries one of the searched records |
| SearchProperties.NoTitlesMeansMakeAll | app/models/movie/search.rb:19-23 | with no Netflix titles the combined drafts are those of plain `make_all` |
| SearchProperties.AttachReviewsSpec | app/models/movie/search.rb:112-116 | each movie is its draft with at most its review set; a review given is from the pool, matches the draft and matches no earlier draft; a draft left without one has each matching review taken by an earlier draft |
| SearchProperties.AttachPicksLast | app/models/movie/search.rb:112-115 | the review a draft gets is what `Array#delete` returns on the pool left by the earlier drafts: the last record of the pool that matches it among those matching no earlier draft |
| SearchProperties.UnclaimedMembers | app/models/movie/search.rb:113 | the records left in the pool before a draft are exactly the pool's records that match none of the earlier drafts |
| SearchProperties.ReviewAttachedOnce | app/models/movie/search.rb:113 | no Rotten Tomatoes record is attached to two movies |
| SearchProperties.LastWithKeyFiltered | app/models/movie/search.rb:49 | filtering the store by `$in` on the searched ids does not change which movie a searched id finds |
| SearchProperties.MatchTitlesReference | app/models/movie/search.rb:26-32 | matching titles against the `index_by` hash equals matching against the store directly |
| SearchProperties.FromNetflixMoviesReference | app/models/movie/search.rb:25-33 | `from_netflix_movies` equals the reference matching over the store |
| SearchProperties.NetflixReferenceMembers | app/models/movie/search.rb:25-33 | each result is a stored movie with that Netflix id, given its title from the input |
| SearchProperties.NetflixReferenceComplete | app/models/movie/search.rb:25-33 | every title that has a stored movie appears in the result |
| SearchProperties.BlankYearsShortCircuit | app/models/movie/search.rb:98-99 | when every TMDB record has a blank year, the combined search returns `[]` without consulting Netflix or Rotten Tomatoes, and `search` returns it |
| SearchProperties.CombinedThroughRescue | app/models/movie/search.rb:83-89 | the combined search sees the providers only through their rescue |
| SearchProperties.CombinedRaises | app/models/movie/search.rb:100-101 | an unrescued provider failure makes the combined search raise it, with nothing saved |
| SearchProperties.NetflixFailureRescue | app/models/movie/search.rb:83-89 | a Netflix failure that the rescue catches (a client error, a parsing error among them, or a timeout) counts as no titles; any other failure escapes the combined search |
| SearchProperties.NetflixFailureEndsSearch | app/models/movie/search.rb:6-11 | a Netflix failure that escapes the combined search is not rescued by `search` and ends it with nothing saved |
| SearchProperties.RottenFailureRescue | app/models/movie/search.rb:75-81 | once Netflix has answered, a Rotten Tomatoes client error (a parsing error among them) or timeout counts as no reviews; any other failure escapes |
| SearchProperties.SearchFallbackOrder | app/models/movie/search.rb:6-11 | the combined result when it returns; else, on a rescued error, the Netflix movies when there are any; else the regexp matches; any other failure fails the search. Only the combined and Netflix results are saved |
| SearchProperties.CombinedReturned | app/models/movie/search.rb:97-118 | what the combined search returns is exactly what it saved; no more movies than TMDB records with a year, each carrying one of those records, none twice when those records are distinct; present IMDB ids distinct; each review given matches its movie |
| Netflix.SearchParams | lib/netflix.rb:26-32 | the hash has the term, `max_results` = per page (default 5) and `start_index` = per page × (page − 1) with page defaulting to 1; it has `expand` exactly when given, as the comma-join |
| Netflix.DefaultOffsetIsZero | lib/netflix.rb:27-29 | without a page the start index is 0 |
| Netflix.PagesTile | lib/netflix.rb:29 | consecutive pages start one page size apart, and a page from 1 up starts at a non-negative index |
| Netflix.ExpandRoundTrip | lib/netflix.rb:32 | the `expand` value splits back into the options given |
| Netflix.MatchEndSpec | lib/netflix.rb:88 | the match at a position ends exactly where the pattern `(\s*:)?\s+special edition$` (case-insensitive) can end |
| Netflix.LeftmostMatch | lib/netflix.rb:88 | `sub!` replaces the leftmost position where the pattern matches, or none when it matches nowhere |
| Netflix.StripSpec | lib/netflix.rb:88 | the flag is set exactly when the pattern matches; then the leftmost match is removed, else the string is unchanged |
| Netflix.SpecialEditionStripped | lib/netflix.rb:88 | a name ending in a separator and "special edition" in any case loses exactly that suffix and sets the flag |
| Netflix.Title.SetName | lib/netflix.rb:87-98 | a string is stored stripped, and the flag records whether it was stripped; a value without `sub!` is stored as is with the flag false |
| Netflix.LastDigitRunSpec | lib/netflix.rb:73 | the run taken is the last maximal run of digits of the text, empty exactly when the text has no digit |
| Netflix.TitleIdOfUrl | lib/netflix.rb:72-74 | the id of a URL whose last digits are a number is that number |
| Netflix.NoDigitsNoId | lib/netflix.rb:73 | a text without digits gives id 0 (`nil.to_i`) |
| Netflix.RuntimeMinutes | lib/netflix.rb:80 | the runtime in minutes is the number of whole minutes in the seconds, rounding down |
| MoviesHelper.PresentLinksMembers | app/helpers/movies_helper.rb:8-14 | a link is kept exactly when its property is present, and it carries that property's URL under its label |
| MoviesHelper.PresentLinksOrder | app/helpers/movies_helper.rb:8-14 | the kept labels follow official website, Wikipedia, IMDB, Netflix, each at most once |
| MoviesHelper.WikipediaFound | app/helpers/movies_helper.rb:15 | a Wikipedia link is found exactly when the Wikipedia URL is present |
| MoviesHelper.HomepageFirst | app/helpers/movies_helper.rb:17 | the first link is the official website exactly when the homepage is present |
| MoviesHelper.RedirectOrder | app/helpers/movies_helper.rb:17-18 | inserting the redirect at the computed index keeps the fixed label order |
| MoviesHelper.InsertRedirect | app/helpers/movies_helper.rb:18 | the inserted list holds the redirect at the index, the other links unchanged around it, and one Wikipedia entry |
| MoviesHelper.MovieElsewhere | app/helpers/movies_helper.rb:7-21 | with a Wikipedia URL the kept links; without one, the same links with the redirect at index 1 after the official website, else at 0; always exactly one Wikipedia entry, in label order |
| MoviesHelper.TitleWithYearSpec | app/helpers/movies_helper.rb:23-27 | the title alone exactly when the year is blank, else the title then " (", the year and ")" |
| MoviesHelper.MovieYearSpec | app/helpers/movies_helper.rb:29-33 | the empty string exactly when the year is blank, else the year inside the year markup |
| MoviesHelper.PosterDimensions | app/helpers/movies_helper.rb:37-40 | only small and medium have dimensions, each narrower than tall |
| MoviesHelper.MoviePoster | app/helpers/movies_helper.rb:35-47 | a placeholder of the size's dimensions exactly when offline or the source is blank, else an image of that source and width |
| MoviesHelper.PosterAltNamesTitle | app/helpers/movies_helper.rb:46 | an image's alt text is "Poster for" and the title; "No poster" cannot occur |
| MoviesHelper.RuntimePartsSpec | app/helpers/movies_helper.rb:52-56 | the parts add up to the runtime, hours first, each part non-zero and minutes under 60; no parts exactly for 0 |
| MoviesHelper.RuntimePartsUnique | app/helpers/movies_helper.rb:52-56 | those are the only canonical parts adding up to the runtime |
| MoviesHelper.MovieRuntime | app/helpers/movies_helper.rb:50-59 | nil exactly when the runtime is nil, else the markup of the hours and minutes parts joined by a space |

## Left out

- HTTP, OAuth, `ApiCache` and the `Addressable::Template` URL expansion of `perform_search` (lib/netflix.rb:34, 50-66) are I/O. `SearchParams` stops at the parameter hash.
- The XML parsing of Nibbler (`Catalog`, `Title` elements, `Autocomplete`) is a foreign library. Parsed titles and records are given datatypes, and the id and runtime lambdas take the node's text or seconds as input.
- `autocomplete` and `perform_autocomplete` are only HTTP and parsing, so they are left out.
- The database: `find(... '$in' ...)` is modelled as a filter over a stored sequence. `save` is the list of saved movies a run returns, not a write.
- `search_regexp` runs its regular expression inside the database with Ruby's `\b`. Its matches are an input of `search`.
- The `==` between a TMDB record and a Netflix title, between two TMDB records, and between a Rotten Tomatoes record and a movie, are defined in files that are not part of this model. They are function parameters (`linksTo`, `sameRecord`, `reviews`) with no assumed properties. `Array#delete` tests identity before `==`, so `Deletes` always removes the record itself as well. The `tmdb_movie=`, `netflix_title=` and `rotten_movie=` setters are modelled as setting those fields and the ids they carry.
- Movies are values. `make`'s `netflix_title=` on a stored movie is carried back into the memo as that movie's Netflix id, the only field of the memo that `find_linked_to_netflix` and `make` read again (`Relinked`). Other effects of sharing one object are not captured: two drafts from the same stored movie are one object in Ruby, so a later setter changes both, and a later draft from it made without a title keeps the earlier draft's Netflix title object.
- The Faraday library is not part of this model. The model assumes, in `IsA`, that `Faraday::Error::ParsingError` is a subclass of `Faraday::Error::ClientError`, which is how the Faraday 0.8 series declares it; so both provider rescues catch parsing errors. The Faraday version is not pinned in the files modelled. Faraday's own timeout error is a client error and is modelled as `ClientError`; `Timeout` is Ruby's `Timeout::Error`.
- Case folding and whitespace in the special-edition pattern are ASCII only (`[A-Z]`, and `\s` as space and `\t`..`\r`). Unicode case rules are not modelled.
- `Netflix.Title.SetName`: Ruby's `sub!` also changes the caller's string object in place. The model stores the stripped value and does not model the caller's copy.
- `Netflix.RuntimeMinutes`: it takes the seconds as an integer. `to_i` on non-digit text (leading sign, spaces, trailing junk) is not modelled. The division rounds down, which is Ruby's `Integer#/` for negative values too.
- `Netflix.TitleIdOfUrl`: it is stated for URLs whose last digit run is a number without leading zeros; `LastDigitRunSpec` covers every text.
- `page.to_i` in `perform_search` is taken on an integer page. Page strings are not modelled.
- `count` (app/helpers/movies_helper.rb:2-5) probes capabilities and calls `pluralize`. `movie_actions` renders a partial. Both are rendering, not logic.
- `content_tag`, `image_tag` and `html_safe` are rendering. `MoviePoster` returns a datatype describing the tag, and `MovieYear`/`MovieRuntime` return the markup text. `Movies.offline?` is a parameter.
- `Array#insert` beyond the end pads with nil. The computed index is at most the length of the list, so that case never arises and is not modelled.
- `NeverForget.log` calls are logging. They are dropped.
- The source is sequential. Timeouts are failures a provider returns; no concurrency is modelled.
- `app/assets/javascripts/application.js` is UI code and is not part of this model.
