# Movie recommendation widget — verified decision rules

This project models in Dafny the small pure decision rules in the MRS movie-recommendation widget, and proves properties about them. The widget's user rolls a die and picks a genre. One movie of the genre's listing is recommended, and other movies are dealt as swipeable cards. A right swipe favorites a card. A left swipe discards it, and then also removes the cards a back end reports as similar.

The repository contains two front ends and two back ends. Each has its own module:

- `Gesture` (`gesture.dfy`): the per-card pointer tracker that both front ends attach to every card. Its state is the drag origin, the displacement and a dragging flag. It handles pointer down, move, up and cancel. The release rule maps the displacement to favorite, discard or reset. The two front ends pass different thresholds: 100 in `MRS/website/app.js`, 120 in `MRS/static/app.js`.
- `WebsiteApp` (`website.dfy`): the catalog front end. It covers:
  - `recommendMovies`: the pick at `(dice - 1) % n`, with JavaScript's truncating `%`, and the deck of the other movies capped at 10.
  - The local favorites list: add is deduplicated by id; remove filters by id.
  - Discard pruning: one `querySelector` per similar id, so the first card carrying that id is removed.
  - The release dispatch.
- `ServerApp` (`server.dfy`): the scraping back end `MRS/app.py`. It covers:
  - `/recommend`: 502 when the listing page answers with a status other than 200, 500 when the request itself raises, 404 on an empty listing, the pick by Python's floored `%`, and a streaming link on every movie.
  - `/remove_similar`: 400 on a missing or empty genre or title, the same 502 and 500 scrape failures, the first-match base lookup, a 500 when the text vectoriser raises, and the threshold filter that excludes the query title itself.
- `StaticApp` (`static_client.dfy`): the front end of that back end. It covers:
  - The "go" handler: the first 20 movies, which include the recommended one.
  - The release dispatch: a favorite is listed only after its post settles, with no deduplication. A discard removes the swiped card, then every card whose non-empty title case-insensitively equals a returned title.
- `SimilarApi` (`similar_api.dfy`): the `/similar` endpoint of `MRS/api/main.py`. It covers:
  - The early exits: 502, a target overview that strips to nothing, candidate overviews that all strip to nothing, and 500 when the genre listing or the vectoriser fails.
  - The threshold filter.
  - The stable sort by descending similarity.
- `Util` (`util.dfy`): `Option`, `Response`, `Take` (JavaScript `slice(0, n)`), `RemoveAt`, the subsequence relation, ASCII lower-casing, and the default threshold 0.35.

Similarity scores, scraped listings, plots and catalog pages are inputs. A failed request is `None`, or an `HttpError` status.

Behaviours of the code worth knowing:

- A pointer-cancel does not clear the displacement. A later tap with no move reuses it (`Gesture.CancelledDragLeaksIntoTap`).
- The static front end does not deduplicate favorites.
- The static front end deals the recommended movie as a card.

## Model

| member | source | states |
|---|---|---|
| `Gesture.Classify` | MRS/website/app.js:129-140 | The outcome is favorite iff dx > threshold, discard iff dx < -threshold, reset iff dx is within ±threshold, ends included; the three are exclusive and exhaustive |
| `Gesture.LargerThresholdOnlyResets` | MRS/static/app.js:73-95 | The 120-pixel rule never commits a swipe differently from the 100-pixel rule; it only turns some commits into resets |
| `Gesture.Handle` | MRS/website/app.js:101-127 | Only pointer-up emits an outcome, and it classifies the displacement last recorded; the displacement changes only on a move while dragging and is then clientX minus the origin; pointer-down sets the origin and dragging but keeps the displacement; up and cancel stop dragging |
| `Gesture.Run` | MRS/website/app.js:106-126 | Feeding events in order emits at most one outcome per event; no events leave the tracker as it was; a run ending in up or cancel is no longer dragging; a run ending in a press is dragging from that press's position |
| `Gesture.OneOutcomePerUp` | MRS/website/app.js:118-121 | Over any event sequence, exactly one outcome is emitted per pointer-up |
| `Gesture.CancelCommitsNothing` | MRS/website/app.js:123-126 | A trailing pointer-cancel adds no outcome, stops dragging and leaves the displacement as it was |
| `Gesture.DragAndRelease` | MRS/website/app.js:106-121 | Down at x0, move to x1, up is classified by x1 - x0 |
| `Gesture.TapReusesDisplacement` | MRS/static/app.js:64-67 | Down then up with no move classifies the displacement left from the previous gesture |
| `Gesture.CancelledDragLeaksIntoTap` | MRS/static/app.js:64-68 | A drag past the threshold that is cancelled, followed by a plain tap, favorites the card |
| `WebsiteApp.JsRemainder` | MRS/website/app.js:216 | JavaScript `%`: equal to the floored remainder for a non-negative dividend; for a negative one it lies in (-n, 0], is zero exactly when the floored one is, and otherwise is the floored one minus n |
| `WebsiteApp.Recommend` | MRS/website/app.js:190-241 | A missing genre or a zero dice value is rejected before anything else; an empty page reports no movies; a failed request fails; a negative dice value fails unless (dice-1) % n is -0 in JavaScript, in which case the first movie is picked and dealt; otherwise a session is dealt whose deck has min(n-1, 10) catalog movies and whose pick is a catalog movie |
| `WebsiteApp.RecommendByDice` | MRS/website/app.js:216-229 | For dice ≥ 1 the pick is the movie at (dice-1) mod n, in [0, n), and the deck is the catalog with that position skipped, in order |
| `WebsiteApp.PickNotDealt` | MRS/website/app.js:216-227 | With unique ids on the page, the recommended movie's id is not in the deck |
| `WebsiteApp.DealRestoresCatalog` | MRS/website/app.js:227-229 | When the page has at most 11 movies, putting the pick back at its index reproduces the page exactly |
| `WebsiteApp.RollThreeOfFive` | MRS/website/app.js:215-229 | Dice 3 on a five-movie page picks the third movie and deals the other four in order |
| `WebsiteApp.AddToFavorites` | MRS/website/app.js:143-150 | The id is present afterwards; the old list is an unchanged prefix; the list grows by one, with the movie at the end, exactly when the id was absent |
| `WebsiteApp.AddIdempotent` | MRS/website/app.js:143-149 | Adding the same movie twice equals adding it once |
| `WebsiteApp.AddKeepsDistinct` | MRS/website/app.js:143-149 | Adding keeps favorite ids unique |
| `WebsiteApp.WithoutId` | MRS/website/app.js:152-153 | No entry with the id remains; an entry stays iff it was there with another id; removing an absent id changes nothing; the list shrinks iff the id was present |
| `WebsiteApp.WithoutIdCounts` | MRS/website/app.js:152-153 | Every copy of every entry with another id is kept, and every entry with the id is dropped (multiplicities) |
| `WebsiteApp.WithoutIdKeepsOrder` | MRS/website/app.js:152-153 | The remaining favorites keep their order (subsequence of the original) |
| `WebsiteApp.RemoveFirstId` | MRS/website/app.js:179-182 | One querySelector-and-remove deletes exactly one card when the id is present, nothing otherwise, and never a card with another id |
| `WebsiteApp.RemoveFirstIdIsFirst` | MRS/website/app.js:180-181 | When the id is present, the card removed is the first one carrying it, and the other cards keep their order |
| `WebsiteApp.RemoveFirstIdCounts` | MRS/website/app.js:180-181 | One querySelector-and-remove keeps every copy of every card with another id |
| `WebsiteApp.PruneSimilar` | MRS/website/app.js:176-182 | Processing the similar ids removes at most one card per id, only cards whose id is listed, and keeps every card whose id is not listed |
| `WebsiteApp.PruneSimilarCounts` | MRS/website/app.js:176-182 | Even when ids repeat on the deck, every copy of every card whose id is not listed is kept |
| `WebsiteApp.PruneRemovesExactlySimilar` | MRS/website/app.js:176-182 | On a deck with unique ids, the result is exactly the deck without the cards whose id is listed, in order |
| `WebsiteApp.Discard` | MRS/website/app.js:173-187 | A discard removes the swiped card; if the similar request fails nothing else goes; with unique ids exactly the listed cards go as well |
| `WebsiteApp.Release` | MRS/website/app.js:129-141 | The page is unchanged iff the release is a reset; favorites change only on a favorite; dx > 100 removes the card and adds it to favorites; dx < -100 discards |
| `WebsiteApp.ReleaseKeepsDistinct` | MRS/website/app.js:129-153 | Swipes keep deck ids and favorite ids unique |
| `ServerApp.Recommend` | MRS/app.py:121-136 | A listing page answering other than 200 is 502, a raising request 500, an empty listing 404, otherwise Ok; every movie gets its streaming link and keeps its fields; the recommended one is the listed movie at (dice-1) mod n |
| `ServerApp.WithLink` | MRS/app.py:131-135 | A listed movie keeps its title and link, and its streaming link is the JustWatch search prefix followed by the encoded title |
| `ServerApp.ScrapeStatus` | MRS/app.py:56-58 | A listing page answering other than 200 becomes a 502; a request that raises escapes as a 500 |
| `ServerApp.AnyDiceRecommends` | MRS/app.py:126-127 | Any integer dice value, zero and negatives included, recommends from a non-empty listing |
| `ServerApp.FindBase` | MRS/app.py:154-158 | The found entry has a title equal to the query after lower-casing, and no earlier entry does; none found means no entry does |
| `ServerApp.QualifyingIndices` | MRS/app.py:171-174 | The indices are strictly increasing, each qualifies (score ≥ threshold, non-empty title, title not the query's), and every qualifying index is included |
| `ServerApp.Select` | MRS/app.py:171-175 | Every removed entry is some qualifying movie's title and link, and every qualifying movie is removed |
| `ServerApp.SelectInListingOrder` | MRS/app.py:172-174 | The removed list corresponds to a strictly increasing sequence of indices that covers all qualifying movies: listing order, each once |
| `ServerApp.RemoveSimilar` | MRS/app.py:139-175 | 400 iff genre or title is missing or empty; 502 iff they are present and the listing page answers other than 200; 500 when the request raises; no base or an empty base plot gives Ok([]); with a base plot, a raising vectoriser gives 500 and otherwise the answer is Ok of exactly the selected entries; every removed entry has a non-empty title that differs from the query and a score ≥ threshold |
| `ServerApp.BasePlotImpliesAnyPlot` | MRS/app.py:159-165 | Once a base plot is found, the no-plots check cannot fire |
| `ServerApp.DefaultThresholdApplies` | MRS/app.py:146 | Without a threshold, a titled non-query movie qualifies iff its score is ≥ 0.35 |
| `StaticApp.Go` | MRS/static/app.js:28-35 | A failed or error reply leaves the previous deck; an Ok reply deals the first min(n, 20) movies in order |
| `StaticApp.RecommendedIsDealt` | MRS/static/app.js:34 | For dice 1..6 the recommended movie is on the deck at index (dice-1) mod n |
| `StaticApp.DropTitle` | MRS/static/app.js:87-88 | A card survives one returned title iff it does not match it (non-empty title equal after lower-casing) |
| `StaticApp.DropTitleCounts` | MRS/static/app.js:88 | Every copy of every card that does not match the title is kept, and every matching card is dropped (multiplicities) |
| `StaticApp.WithoutTitles` | MRS/static/app.js:84-89 | A card survives iff it matches no returned title; cards with an empty title always survive |
| `StaticApp.WithoutTitlesCounts` | MRS/static/app.js:84-89 | Every copy of every card that matches no returned title is kept, and every card that matches one is dropped (multiplicities) |
| `StaticApp.PruneTitles` | MRS/static/app.js:85-89 | After the per-title loop, a card is still on the deck iff it was there and matches none of the returned titles; it equals the one-pass filter by `PruneTitlesRemovesMatches` |
| `StaticApp.PruneTitlesRemovesMatches` | MRS/static/app.js:84-89 | Processing the returned titles one by one is the same as removing, in one pass, every card that matches any of them |
| `StaticApp.WithoutTitlesKeepsOrder` | MRS/static/app.js:84-89 | Surviving cards keep their order |
| `StaticApp.Release` | MRS/static/app.js:71-96 | Within ±120 nothing changes; a favorite whose post failed changes nothing, otherwise the card is appended to the favorites and removed from the deck; a discard keeps the favorites and leaves the deck without the swiped card and without every card matching a returned title; if the similarity request fails or `removed` is missing, only the swiped card is gone |
| `StaticApp.RemovedTitles` | MRS/static/app.js:84 | The titles pruned are the reply's `removed` list when present, and none when the field is missing or the request failed |
| `StaticApp.FavoriteTwiceListsTwice` | MRS/static/app.js:98-103 | Favoriting the same movie twice lists it twice |
| `StaticApp.DiscardKeepsUntitled` | MRS/static/app.js:88 | A discard never removes another card whose title is empty |
| `SimilarApi.AtLeast` | MRS/api/main.py:144-148 | An entry is kept iff its score ≥ threshold, with its multiplicity unchanged |
| `SimilarApi.AtLeastKeepsOrder` | MRS/api/main.py:144-148 | The kept entries are in candidate order |
| `SimilarApi.SortBySimilarity` | MRS/api/main.py:150-151 | The output is non-increasing by similarity and a permutation of the input; for every score, the entries with that score keep their input order (stability) |
| `SimilarApi.InsertKeepsSorted` | MRS/api/main.py:151 | Inserting into a descending list keeps it descending |
| `SimilarApi.SortKeepsTies` | MRS/api/main.py:151 | Any two entries of equal score that appear in some order in the input appear in that order in the output |
| `SimilarApi.FindSimilar` | MRS/api/main.py:110-152 | A failed target lookup is 502; a blank target overview and all-blank candidate overviews give an empty list with their messages; a failed genre listing is 500; otherwise a failed vectoriser is 500 and a computed score list gives Ok with the ranking of the scored candidates at the threshold (default 0.35) and the success message |
| `SimilarApi.Strip` | MRS/api/main.py:126-132 | `strip()`: the result is empty iff every character is whitespace in Python's sense; a non-empty result neither starts nor ends with whitespace and is no longer than the text |
| `SimilarApi.Rank` | MRS/api/main.py:144-151 | The ranked list is sorted descending, holds exactly the candidates scoring ≥ threshold, each with its multiplicity, keeps candidate order among entries of equal score, and is no longer than the candidate list |
| `SimilarApi.EveryQualifyingCandidateReported` | MRS/api/main.py:145-148 | Every candidate at or above the threshold is reported, the target movie included if it is a candidate |

## Left out

- Fetching: IMDb scraping and plot fetching (`imdb_search_genre`, `imdb_fetch_plot`, `/scrape_imdb`), TMDB requests (`fetchFromTMDB`, `getMovieDetails`, `tmdb_get`, `discover_genre_movies` and its cache). Their results are inputs, and a failure is `None` or, for the IMDb listing, one of the outcomes of `ServerApp.Scrape`.
- The SQLite favorites endpoints of both back ends, `/genres`, and `loadFavorites`/`init` in the static front end. They are storage and I/O with no decision logic.
- TF-IDF vectorisation and cosine similarity. They are floating-point library calls; the scores are an input sequence with one score per candidate.
- `quote_plus`: it is a parameter `quote`, not modelled.
- `toLowerCase`/`lower()`: the model folds ASCII letters only. Non-ASCII case mapping is not modelled.
- `SimilarApi.Strip` states only emptiness, the ends and the length of `strip()`'s result; only whether an overview strips to "" enters a decision.
- `clientX` is a floating-point number in the browser; the model uses integers, since only comparisons with the thresholds matter.
- The rotation transform, DOM rendering, toasts and loading classes are presentation only.
- The local-storage JSON round trip of the favorites is left out.
- The website's merging of movie details and providers into each card is left out. A failed details request yields `null`, and the card is still dealt.
- `Math.random()`: the dice value is an input.
- The `plot` field that `/recommend` adds to its first 40 movies is left out. It is scraping output that no modelled rule reads.
- Errors from converting `threshold`, `movie_id` or `genre_id` to numbers are not modelled. The threshold is an optional real.
- Asynchronous interleaving is not modelled. Each release is atomic in the model, so two discards in flight, or a card pruned while it is being dragged, are out of scope. The order "remove the swiped card, then prune" is modelled only through its result: on failure, only the swiped card is gone.
- On the website, the recommended card also has class `card` and a `data-movie-id`. Whether a discard's pruning can reach it depends on the page markup, which is not part of this model. Pruning is modelled on the dealt deck only.
- WebsiteApp.PruneSimilar: for a deck with repeated ids, the result is not pinned down. `PruneSimilarCounts` keeps every unlisted card, but for a listed id the contract only bounds how many of its copies go. One `querySelector` removes only the first card per listed id, and TMDB result pages carry unique ids, where `PruneRemovesExactlySimilar` gives the exact result.
- WebsiteApp.Discard: the exact "every card whose id is similar is removed" statement is proved only for a deck whose ids are unique. For repeated ids, `PruneSimilar` states bounds only, because one `querySelector` removes one card per listed id.
- `MRS/website/mock_data.js`, `config.js` and `MRS/website/config.js` hold only constants and mock data.
