/** The scraping back end (`MRS/app.py`): `/recommend` picks a movie from a
    genre's listing by the dice value and attaches a streaming-search link to
    every movie; `/remove_similar` finds the swiped title in the listing and
    returns the other titles whose plot similarity reaches the threshold.
    The listing and the plots come from page scraping and the similarity
    scores from a text-vector library; all three are inputs here. */
module ServerApp {
  import opened Util

  /** A scraped listing entry; a missing title, link or plot is "". */
  datatype Scraped = Scraped(title: string, link: string, plot: string)

  /** A movie as `/recommend` returns it: the scraped fields it keeps and
      the streaming-search link it adds. */
  datatype Listed = Listed(title: string, link: string, streamingLink: string)

  /** The outcome of scraping a genre's listing page: answered with a
      status other than 200 (raised as a 502), failed inside the request
      (a timeout or a connection error, which nothing catches, so a 500),
      or the parsed entries. */
  datatype Scrape = NotOk | Raised | Listing(movies: seq<Scraped>)

  /** The status an unsuccessful scrape turns into. */
  function ScrapeStatus(s: Scrape): (status: int)
    requires !s.Listing?
    ensures status == 502 <==> s.NotOk?
    ensures status == 500 <==> s.Raised?
  {
    if s.NotOk? then 502 else 500
  }

  /** The body of `/recommend`. */
  datatype Recommendation = Recommendation(recommended: Listed, movies: seq<Listed>)

  /** An entry of `/remove_similar`'s `removed` list. */
  datatype Removed = Removed(title: string, link: string)

  /** The search page every streaming link points into. */
  const JustWatchSearch := "https://www.justwatch.com/us/search?q="

  /** A listing entry with its streaming link; `quote` is URL form
      encoding, which is not modelled. */
  function WithLink(m: Scraped, quote: string -> string): (l: Listed)
    ensures l.title == m.title && l.link == m.link
    ensures JustWatchSearch <= l.streamingLink
    ensures l.streamingLink[|JustWatchSearch|..] == quote(m.title)
  {
    Listed(m.title, m.link, JustWatchSearch + quote(m.title))
  }

  // ---------------------------------------------------------------------
  // /recommend
  // ---------------------------------------------------------------------

  /** `recommend`: an unsuccessful scrape is a 502 or a 500, and an empty
      listing a 404; otherwise the movie at `(dice - 1) mod n` (Python's
      remainder, never negative) is recommended, and every movie, the
      recommended one included since it is the same object, gets its
      streaming link. */
  function Recommend(dice: int, scraped: Scrape, quote: string -> string): (r: Response<Recommendation>)
    ensures scraped.NotOk? ==> r == HttpError(502)
    ensures scraped.Raised? ==> r == HttpError(500)
    ensures scraped == Listing([]) ==> r == HttpError(404)
    ensures r.Ok? <==> scraped.Listing? && |scraped.movies| > 0
    ensures r.Ok? ==> |r.body.movies| == |scraped.movies|
    ensures r.Ok? ==> (0 <= (dice - 1) % |scraped.movies| < |r.body.movies|
                       && r.body.recommended == r.body.movies[(dice - 1) % |scraped.movies|])
    ensures r.Ok? ==> forall k :: 0 <= k < |r.body.movies| ==>
      r.body.movies[k].title == scraped.movies[k].title &&
      r.body.movies[k].link == scraped.movies[k].link &&
      r.body.movies[k].streamingLink == JustWatchSearch + quote(scraped.movies[k].title)
  {
    match scraped
    case Listing(movies) =>
      if |movies| == 0 then HttpError(404)
      else
        var listed := seq(|movies|, k requires 0 <= k < |movies| => WithLink(movies[k], quote));
        Ok(Recommendation(listed[(dice - 1) % |movies|], listed))
    case _ => HttpError(ScrapeStatus(scraped))
  }

  /** Whatever the dice value, even zero or negative, a non-empty listing
      yields a recommendation: the floored remainder always indexes it. */
  lemma AnyDiceRecommends(dice: int, movies: seq<Scraped>, quote: string -> string)
    requires |movies| > 0
    ensures Recommend(dice, Listing(movies), quote).Ok?
    ensures Recommend(dice, Listing(movies), quote).body.recommended.title
         == movies[(dice - 1) % |movies|].title
  {
  }

  // ---------------------------------------------------------------------
  // /remove_similar
  // ---------------------------------------------------------------------

  /** The listing entry `m` is the swiped movie: it has a title, equal to
      the query once both are lower-cased. */
  predicate IsBase(m: Scraped, title: string)
  {
    m.title != "" && SameTitle(m.title, title)
  }

  /** The index of the first entry that is the swiped movie. */
  function FindBase(movies: seq<Scraped>, title: string): (r: Option<nat>)
    ensures r.Some? ==> r.value < |movies| && IsBase(movies[r.value], title)
    ensures r.Some? ==> forall k :: 0 <= k < r.value ==> !IsBase(movies[k], title)
    ensures r.None? ==> forall k :: 0 <= k < |movies| ==> !IsBase(movies[k], title)
    decreases |movies|
  {
    if |movies| == 0 then None
    else if IsBase(movies[0], title) then Some(0)
    else
      match FindBase(movies[1..], title)
      case None => None
      case Some(k) => Some(k + 1)
  }

  /** The plot of the first matching entry, "" when there is none. */
  function BasePlot(movies: seq<Scraped>, title: string): string
  {
    match FindBase(movies, title)
    case None => ""
    case Some(b) => movies[b].plot
  }

  /** Some entry has a plot (`any(plots)`). */
  predicate AnyPlot(movies: seq<Scraped>)
  {
    exists k :: 0 <= k < |movies| && movies[k].plot != ""
  }

  /** Entry `i` is reported: its score reaches the threshold, it has a
      title, and the title is not the query's. */
  predicate Qualifies(movies: seq<Scraped>, sims: seq<real>, threshold: real, title: string, i: nat)
    requires i < |movies| == |sims|
  {
    sims[i] >= threshold && movies[i].title != "" && !SameTitle(movies[i].title, title)
  }

  /** The indices below `n` that are reported, in increasing order. */
  function QualifyingIndices(movies: seq<Scraped>, sims: seq<real>, threshold: real, title: string, n: nat): (ix: seq<nat>)
    requires n <= |movies| == |sims|
    ensures forall k :: 0 <= k < |ix| ==> ix[k] < n && Qualifies(movies, sims, threshold, title, ix[k])
    ensures forall j, k :: 0 <= j < k < |ix| ==> ix[j] < ix[k]
    ensures forall i :: 0 <= i < n && Qualifies(movies, sims, threshold, title, i) ==> i in ix
    ensures |ix| <= n
    decreases n
  {
    if n == 0 then []
    else
      QualifyingIndices(movies, sims, threshold, title, n - 1)
        + (if Qualifies(movies, sims, threshold, title, n - 1) then [n - 1] else [])
  }

  /** The `removed` entries of the listing positions `ix`, in that order. */
  function Entries(movies: seq<Scraped>, ix: seq<nat>): (r: seq<Removed>)
    requires forall k :: 0 <= k < |ix| ==> ix[k] < |movies|
    ensures |r| == |ix|
    ensures forall k :: 0 <= k < |ix| ==> r[k] == Removed(movies[ix[k]].title, movies[ix[k]].link)
  {
    seq(|ix|, k requires 0 <= k < |ix| => Removed(movies[ix[k]].title, movies[ix[k]].link))
  }

  /** The `removed` list built by the loop over the scores. */
  function Select(movies: seq<Scraped>, sims: seq<real>, threshold: real, title: string): (r: seq<Removed>)
    requires |movies| == |sims|
    ensures |r| <= |movies|
    ensures forall e :: e in r ==>
      exists i :: 0 <= i < |movies| && Qualifies(movies, sims, threshold, title, i)
                  && e == Removed(movies[i].title, movies[i].link)
    ensures forall i :: 0 <= i < |movies| && Qualifies(movies, sims, threshold, title, i) ==>
              Removed(movies[i].title, movies[i].link) in r
  {
    var ix := QualifyingIndices(movies, sims, threshold, title, |movies|);
    var r := Entries(movies, ix);
    SelectSound(movies, sims, threshold, title, ix, r);
    SelectComplete(movies, sims, threshold, title, ix, r);
    r
  }

  /** Every entry listed at qualifying positions is a qualifying movie. */
  lemma SelectSound(movies: seq<Scraped>, sims: seq<real>, threshold: real, title: string, ix: seq<nat>, r: seq<Removed>)
    requires |movies| == |sims|
    requires forall k :: 0 <= k < |ix| ==> ix[k] < |movies| && Qualifies(movies, sims, threshold, title, ix[k])
    requires |r| == |ix|
    requires forall k :: 0 <= k < |ix| ==> r[k] == Removed(movies[ix[k]].title, movies[ix[k]].link)
    ensures forall e :: e in r ==>
      exists i :: 0 <= i < |movies| && Qualifies(movies, sims, threshold, title, i)
                  && e == Removed(movies[i].title, movies[i].link)
  {
    forall e | e in r
      ensures exists i :: 0 <= i < |movies| && Qualifies(movies, sims, threshold, title, i)
                          && e == Removed(movies[i].title, movies[i].link)
    {
      var k :| 0 <= k < |r| && r[k] == e;
      var i := ix[k];
      assert 0 <= i < |movies| && Qualifies(movies, sims, threshold, title, i);
    }
  }

  /** Every qualifying movie is listed when its position is. */
  lemma SelectComplete(movies: seq<Scraped>, sims: seq<real>, threshold: real, title: string, ix: seq<nat>, r: seq<Removed>)
    requires |movies| == |sims|
    requires forall k :: 0 <= k < |ix| ==> ix[k] < |movies|
    requires forall i :: 0 <= i < |movies| && Qualifies(movies, sims, threshold, title, i) ==> i in ix
    requires |r| == |ix|
    requires forall k :: 0 <= k < |ix| ==> r[k] == Removed(movies[ix[k]].title, movies[ix[k]].link)
    ensures forall i :: 0 <= i < |movies| && Qualifies(movies, sims, threshold, title, i) ==>
              Removed(movies[i].title, movies[i].link) in r
  {
    forall i | 0 <= i < |movies| && Qualifies(movies, sims, threshold, title, i)
      ensures Removed(movies[i].title, movies[i].link) in r
    {
      var k :| 0 <= k < |ix| && ix[k] == i;
      assert r[k] == Removed(movies[i].title, movies[i].link);
    }
  }

  /** The reported entries are exactly the qualifying ones, each once, in
      listing order. */
  lemma SelectInListingOrder(movies: seq<Scraped>, sims: seq<real>, threshold: real, title: string)
    requires |movies| == |sims|
    ensures exists ix: seq<nat> ::
      && |ix| == |Select(movies, sims, threshold, title)|
      && (forall j, k :: 0 <= j < k < |ix| ==> ix[j] < ix[k])
      && (forall k :: 0 <= k < |ix| ==>
            (ix[k] < |movies| && Qualifies(movies, sims, threshold, title, ix[k])
             && Select(movies, sims, threshold, title)[k] == Removed(movies[ix[k]].title, movies[ix[k]].link)))
      && (forall i :: 0 <= i < |movies| && Qualifies(movies, sims, threshold, title, i) ==> i in ix)
  {
    var ix := QualifyingIndices(movies, sims, threshold, title, |movies|);
    assert |ix| == |Select(movies, sims, threshold, title)|;
  }

  /** `remove_similar`: a missing or empty genre or title is a 400 before
      anything is fetched; an unsuccessful scrape is a 502 or a 500; a title
      that is not in the listing, or whose plot is empty, gives an empty
      list; otherwise the qualifying entries are returned. `sims` is the
      cosine similarity of every entry's plot to the base plot, `None` when
      the vectoriser raised (every plot made of stop words only), which
      nothing catches, so a 500. */
  function RemoveSimilar(genre: Option<string>, title: Option<string>, threshold: Option<real>,
                         scraped: Scrape, sims: Option<seq<real>>): (r: Response<seq<Removed>>)
    requires scraped.Listing? && sims.Some? ==> |sims.value| == |scraped.movies|
    ensures r == HttpError(400) <==> genre.None? || genre == Some("") || title.None? || title == Some("")
    ensures r == HttpError(502) <==> Valid(genre, title) && scraped.NotOk?
    ensures Valid(genre, title) && scraped.Raised? ==> r == HttpError(500)
    ensures Valid(genre, title) && scraped.Listing? && BasePlot(scraped.movies, title.value) == "" ==>
      r == Ok([])
    ensures Valid(genre, title) && scraped.Listing? && BasePlot(scraped.movies, title.value) != "" ==>
      r == (if sims.None? then HttpError(500)
            else Ok(Select(scraped.movies, sims.value, ThresholdOrDefault(threshold), title.value)))
    ensures r.Ok? ==> forall e :: e in r.body ==> e.title != "" && !SameTitle(e.title, title.value)
    ensures r.Ok? ==> forall e :: e in r.body ==>
      exists i :: 0 <= i < |scraped.movies| && sims.value[i] >= ThresholdOrDefault(threshold)
               && e == Removed(scraped.movies[i].title, scraped.movies[i].link)
  {
    if !Valid(genre, title) then HttpError(400)
    else
      match scraped
      case Listing(movies) =>
        var basePlot := BasePlot(movies, title.value);
        if basePlot == "" then Ok([])
        else if !AnyPlot(movies) then Ok([])
        else
          (match sims
           case None => HttpError(500)
           case Some(ss) => Ok(Select(movies, ss, ThresholdOrDefault(threshold), title.value)))
      case _ => HttpError(ScrapeStatus(scraped))
  }

  /** The request names a genre and a title, both non-empty. */
  predicate Valid(genre: Option<string>, title: Option<string>)
  {
    genre.Some? && genre.value != "" && title.Some? && title.value != ""
  }

  /** The empty-plots check never fires: a found base with a plot is itself
      an entry with a plot. */
  lemma BasePlotImpliesAnyPlot(movies: seq<Scraped>, title: string)
    requires BasePlot(movies, title) != ""
    ensures AnyPlot(movies)
  {
    var b := FindBase(movies, title).value;
    assert movies[b].plot != "";
  }

  /** Without a threshold in the request, a score of exactly 0.35 is enough
      and anything below it is not. */
  lemma DefaultThresholdApplies(movies: seq<Scraped>, sims: seq<real>, title: string, i: nat)
    requires i < |movies| == |sims|
    requires movies[i].title != "" && !SameTitle(movies[i].title, title)
    ensures Qualifies(movies, sims, ThresholdOrDefault(None), title, i) <==> sims[i] >= 0.35
  {
  }
}
