/** The front end served by the scraping back end (`MRS/static/app.js`):
    "go" deals the first twenty movies of `/recommend`, the recommended one
    included; a right swipe beyond 120 pixels posts the favorite and, once
    the post has settled, lists it locally without any deduplication; a
    left swipe beyond 120 pixels removes the card and then every card whose
    title case-insensitively matches a title `/remove_similar` returns. */
module StaticApp {
  import opened Util
  import Gesture
  import ServerApp

  /** `handleRelease` commits a swipe beyond 120 pixels. */
  const SwipeThreshold: nat := 120

  /** At most twenty movies are dealt. */
  const DeckSize: nat := 20

  /** A dealt card is the movie `/recommend` returned; its `data-title` is
      the title, "" when the movie has none. */
  type Card = ServerApp.Listed

  // ---------------------------------------------------------------------
  // The "go" handler
  // ---------------------------------------------------------------------

  /** The deck after "go". `reply` is `None` when the request failed. An
      error reply has no `recommended` movie, so showing it throws before
      the cards are dealt and the previous deck stays. */
  function Go(deck: seq<Card>, reply: Option<Response<ServerApp.Recommendation>>): (r: seq<Card>)
    ensures reply.None? || reply.value.HttpError? ==> r == deck
    ensures reply.Some? && reply.value.Ok? ==>
      |r| == Min(|reply.value.body.movies|, DeckSize)
      && forall k :: 0 <= k < |r| ==> r[k] == reply.value.body.movies[k]
  {
    match reply
    case Some(Ok(body)) => Take(body.movies, DeckSize)
    case _ => deck
  }

  /** With a roll of the dice button (1 to 6) the recommended movie is also
      dealt, at its own index, because the deck is a plain prefix of the
      listing. */
  lemma RecommendedIsDealt(deck: seq<Card>, dice: int, movies: seq<ServerApp.Scraped>, quote: string -> string)
    requires 1 <= dice <= 6 && |movies| > 0
    ensures var reply := ServerApp.Recommend(dice, ServerApp.Listing(movies), quote);
      var dealt := Go(deck, Some(reply));
      var idx := (dice - 1) % |movies|;
      idx < |dealt| && dealt[idx] == reply.body.recommended
  {
    var idx := (dice - 1) % |movies|;
    assert idx <= dice - 1;
  }

  // ---------------------------------------------------------------------
  // Title pruning after a discard
  // ---------------------------------------------------------------------

  /** The card is pruned for the returned title `t`: it has a title and
      the two agree once lower-cased. */
  predicate MatchesTitle(card: Card, t: string)
  {
    card.title != "" && SameTitle(card.title, t)
  }

  /** One returned title: every card that matches it is removed. */
  function DropTitle(deck: seq<Card>, t: string): (r: seq<Card>)
    ensures forall c :: c in r <==> c in deck && !MatchesTitle(c, t)
    ensures |r| <= |deck|
    decreases |deck|
  {
    if |deck| == 0 then []
    else (if MatchesTitle(deck[0], t) then [] else [deck[0]]) + DropTitle(deck[1..], t)
  }

  /** Dropping one title keeps every copy of every card that does not
      match it. */
  lemma {:induction false} DropTitleCounts(deck: seq<Card>, t: string)
    ensures forall c :: multiset(DropTitle(deck, t))[c] == if MatchesTitle(c, t) then 0 else multiset(deck)[c]
    decreases |deck|
  {
    if |deck| > 0 {
      DropTitleCounts(deck[1..], t);
      assert deck == [deck[0]] + deck[1..];
    }
  }

  /** The handler's loop: the returned titles processed in order. A card
      survives iff it matches none of them. */
  function PruneTitles(deck: seq<Card>, titles: seq<string>): (r: seq<Card>)
    ensures forall c :: c in r <==> c in deck && !MatchesAny(c, titles)
    ensures |r| <= |deck|
    decreases |titles|
  {
    if |titles| == 0 then deck
    else
      var r := PruneTitles(DropTitle(deck, titles[0]), titles[1..]);
      assert titles == [titles[0]] + titles[1..];
      assert forall c :: MatchesAny(c, titles) <==> MatchesTitle(c, titles[0]) || MatchesAny(c, titles[1..]) by {
        forall c
          ensures MatchesAny(c, titles) <==> MatchesTitle(c, titles[0]) || MatchesAny(c, titles[1..])
        {
          MatchesAnyCons(c, titles[0], titles[1..]);
        }
      }
      r
  }

  /** The card matches some returned title. */
  predicate MatchesAny(card: Card, titles: seq<string>)
  {
    exists k :: 0 <= k < |titles| && MatchesTitle(card, titles[k])
  }

  /** The reference: the cards that match no returned title, in order. */
  function WithoutTitles(deck: seq<Card>, titles: seq<string>): (r: seq<Card>)
    ensures forall c :: c in r <==> c in deck && !MatchesAny(c, titles)
    ensures forall c :: c in deck && c.title == "" ==> c in r
    ensures |r| <= |deck|
    decreases |deck|
  {
    if |deck| == 0 then []
    else (if MatchesAny(deck[0], titles) then [] else [deck[0]]) + WithoutTitles(deck[1..], titles)
  }

  /** The one-pass filter keeps every copy of every card that matches no
      returned title. */
  lemma {:induction false} WithoutTitlesCounts(deck: seq<Card>, titles: seq<string>)
    ensures forall c :: multiset(WithoutTitles(deck, titles))[c] == if MatchesAny(c, titles) then 0 else multiset(deck)[c]
    decreases |deck|
  {
    if |deck| > 0 {
      WithoutTitlesCounts(deck[1..], titles);
      assert deck == [deck[0]] + deck[1..];
    }
  }

  /** Processing the titles one by one removes exactly the cards that match
      any of them. */
  lemma {:induction false} PruneTitlesRemovesMatches(deck: seq<Card>, titles: seq<string>)
    ensures PruneTitles(deck, titles) == WithoutTitles(deck, titles)
    decreases |titles|
  {
    if |titles| == 0 {
      WithoutNoTitles(deck);
    } else {
      PruneTitlesRemovesMatches(DropTitle(deck, titles[0]), titles[1..]);
      DropThenWithout(deck, titles[0], titles[1..]);
      assert [titles[0]] + titles[1..] == titles;
    }
  }

  /** No titles prune nothing. */
  lemma {:induction false} WithoutNoTitles(deck: seq<Card>)
    ensures WithoutTitles(deck, []) == deck
    decreases |deck|
  {
    if |deck| > 0 {
      WithoutNoTitles(deck[1..]);
      assert [deck[0]] + deck[1..] == deck;
    }
  }

  /** Dropping one title and then a list is dropping both at once. */
  lemma {:induction false} DropThenWithout(deck: seq<Card>, t: string, ts: seq<string>)
    ensures WithoutTitles(DropTitle(deck, t), ts) == WithoutTitles(deck, [t] + ts)
    decreases |deck|
  {
    if |deck| > 0 {
      var c := deck[0];
      var tail := deck[1..];
      DropThenWithout(tail, t, ts);
      MatchesAnyCons(c, t, ts);
      var d := DropTitle(deck, t);
      assert WithoutTitles(deck, [t] + ts)
          == (if MatchesAny(c, [t] + ts) then [] else [c]) + WithoutTitles(tail, [t] + ts);
      if MatchesTitle(c, t) {
        assert d == DropTitle(tail, t);
      } else {
        assert d == [c] + DropTitle(tail, t);
        assert d[0] == c;
        assert d[1..] == DropTitle(tail, t);
        assert WithoutTitles(d, ts)
            == (if MatchesAny(c, ts) then [] else [c]) + WithoutTitles(DropTitle(tail, t), ts);
      }
    }
  }

  /** Matching `[t] + ts` is matching `t` or matching `ts`. */
  lemma MatchesAnyCons(c: Card, t: string, ts: seq<string>)
    ensures MatchesAny(c, [t] + ts) <==> MatchesTitle(c, t) || MatchesAny(c, ts)
  {
    var all := [t] + ts;
    if MatchesAny(c, ts) {
      var k :| 0 <= k < |ts| && MatchesTitle(c, ts[k]);
      assert all[k + 1] == ts[k];
    }
    if MatchesAny(c, all) && !MatchesTitle(c, t) {
      var k :| 0 <= k < |all| && MatchesTitle(c, all[k]);
      assert k != 0;
      assert all[k] == ts[k - 1];
    }
    assert all[0] == t;
  }

  /** Title pruning keeps the surviving cards in their order. */
  lemma {:induction false} WithoutTitlesKeepsOrder(deck: seq<Card>, titles: seq<string>)
    ensures IsSubsequence(WithoutTitles(deck, titles), deck)
    decreases |deck|
  {
    if |deck| > 0 {
      WithoutTitlesKeepsOrder(deck[1..], titles);
      assert [deck[0]] + deck[1..] == deck;
      if MatchesAny(deck[0], titles) {
        assert WithoutTitles(deck, titles) == WithoutTitles(deck[1..], titles);
        SubsequenceDropHead(deck[0], WithoutTitles(deck[1..], titles), deck[1..]);
      } else {
        assert WithoutTitles(deck, titles) == [deck[0]] + WithoutTitles(deck[1..], titles);
        SubsequenceKeepHead(deck[0], WithoutTitles(deck[1..], titles), deck[1..]);
      }
    }
  }

  // ---------------------------------------------------------------------
  // Release dispatch (`handleRelease`, `addFavoriteLocal`)
  // ---------------------------------------------------------------------

  /** The page state a swipe touches: the dealt cards and the favorites
      listed on the page. */
  datatype Page = Page(deck: seq<Card>, favorites: seq<Card>)

  /** How `/remove_similar` answered: not at all (the request or its JSON
      failed), or with a body whose `removed` field may be missing. */
  datatype SimilarReply = Unreachable | Replied(removed: Option<seq<string>>)

  /** The titles to prune: `data.removed || []`. */
  function RemovedTitles(reply: SimilarReply): (r: seq<string>)
    ensures reply.Replied? && reply.removed.Some? ==> r == reply.removed.value
    ensures reply.Unreachable? || reply.removed.None? ==> r == []
  {
    match reply
    case Replied(Some(titles)) => titles
    case _ => []
  }

  /** The release handler of card `i` with displacement `dx`.
      `favoritePosted` says whether the favorite post settled (any status);
      when it failed the handler stops before touching the page.
      `similar` is the answer to the similarity request. */
  function Release(page: Page, i: nat, dx: int, favoritePosted: bool, similar: SimilarReply): (r: Page)
    requires i < |page.deck|
    ensures Gesture.Classify(SwipeThreshold, dx) == Gesture.Reset ==> r == page
    ensures dx > SwipeThreshold && !favoritePosted ==> r == page
    ensures dx > SwipeThreshold && favoritePosted ==>
      r == Page(RemoveAt(page.deck, i), page.favorites + [page.deck[i]])
    ensures dx < -(SwipeThreshold as int) ==> r.favorites == page.favorites
    ensures dx < -(SwipeThreshold as int) ==>
      r.deck == WithoutTitles(RemoveAt(page.deck, i), RemovedTitles(similar))
    ensures dx < -(SwipeThreshold as int) && (similar.Unreachable? || similar.removed.None?) ==>
      r.deck == RemoveAt(page.deck, i)
  {
    match Gesture.Classify(SwipeThreshold, dx)
    case Favorite =>
      if favoritePosted then Page(RemoveAt(page.deck, i), page.favorites + [page.deck[i]])
      else page
    case Discard =>
      var rest := RemoveAt(page.deck, i);
      PruneTitlesRemovesMatches(rest, RemovedTitles(similar));
      WithoutNoTitles(rest);
      Page(PruneTitles(rest, RemovedTitles(similar)), page.favorites)
    case Reset => page
  }

  /** Unlike the catalog front end, favoriting the same movie twice lists it
      twice. */
  lemma FavoriteTwiceListsTwice(card: Card, favorites: seq<Card>)
    ensures var once := Release(Page([card], favorites), 0, SwipeThreshold + 1, true, Unreachable);
      var twice := Release(Page([card], once.favorites), 0, SwipeThreshold + 1, true, Unreachable);
      twice.favorites == favorites + [card, card]
  {
  }

  /** A discard never removes a card without a title, except the swiped
      card itself. */
  lemma DiscardKeepsUntitled(page: Page, i: nat, dx: int, similar: SimilarReply, c: Card)
    requires i < |page.deck| && dx < -(SwipeThreshold as int)
    requires c in RemoveAt(page.deck, i) && c.title == ""
    ensures c in Release(page, i, dx, true, similar).deck
  {
  }
}
