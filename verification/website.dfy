/** The catalog-backed front end (`MRS/website/app.js`): a dice roll and a
    genre pick one recommended movie out of the catalog page and deal up to
    ten others as swipeable cards; a right swipe adds the movie to a local
    favorites list deduplicated by id, and a left swipe removes the card and
    then every card whose id the catalog reports as similar. */
module WebsiteApp {
  import opened Util
  import Gesture

  /** A catalog movie; only the identifier and the title take part in the
      decisions modelled here. */
  datatype Movie = Movie(id: int, title: string)

  /** `handleSwipeRelease` commits a swipe beyond 100 pixels. */
  const SwipeThreshold: nat := 100

  /** At most ten cards are dealt besides the recommended movie. */
  const DeckSize: nat := 10

  /** Some entry carries this identifier (`some(f => f.id === id)`). */
  predicate HasId(ms: seq<Movie>, id: int)
  {
    exists k :: 0 <= k < |ms| && ms[k].id == id
  }

  /** No two entries share an identifier. */
  ghost predicate DistinctIds(ms: seq<Movie>)
  {
    forall j, k :: 0 <= j < k < |ms| ==> ms[j].id != ms[k].id
  }

  // ---------------------------------------------------------------------
  // Recommendation session (`recommendMovies`)
  // ---------------------------------------------------------------------

  /** JavaScript's `%`, which truncates toward zero: the remainder takes the
      sign of the dividend. A non-zero remainder of a negative dividend is
      the floored (Python) remainder minus `n`. */
  function JsRemainder(a: int, n: int): (r: int)
    requires n > 0
    ensures a >= 0 ==> r == a % n
    ensures a < 0 ==> -n < r <= 0
    ensures a < 0 ==> (r == 0 <==> a % n == 0)
    ensures a < 0 && r != 0 ==> r + n == a % n
  {
    if a >= 0 then a % n
    else
      NegativeRemainder(a, n);
      -((-a) % n)
  }

  /** The floored remainder of a negative dividend, from the remainder of
      its magnitude. */
  lemma NegativeRemainder(a: int, n: int)
    requires a < 0 && n > 0
    ensures (-a) % n == 0 ==> a % n == 0
    ensures (-a) % n != 0 ==> a % n == n - (-a) % n
  {
    var q := (-a) / n;
    var m := (-a) % n;
    assert -a == n * q + m;
    if m == 0 {
      assert a == n * (-q) + 0;
      RemainderUnique(a, n, -q, 0);
    } else {
      assert a == n * (-q - 1) + (n - m);
      RemainderUnique(a, n, -q - 1, n - m);
    }
  }

  /** A division with remainder in `[0, n)` is Dafny's division. */
  lemma RemainderUnique(a: int, n: int, q: int, r: int)
    requires n > 0 && 0 <= r < n && a == n * q + r
    ensures a % n == r
  {
    var d := q - a / n;
    assert a == n * (a / n) + a % n;
    assert n * d == a % n - r;
  }

  /** What one press of "go" leaves on the page. */
  datatype Session =
    | MissingSelection
    | NoMoviesFound
    | LoadFailed
    | Dealt(pick: Movie, deck: seq<Movie>)

  /** `recommendMovies`: rejects a missing genre or dice value before any
      request; reports an empty catalog page; picks the movie at
      `(dice - 1) % n` and deals the others, in catalog order, capped at ten.
      `catalog` is the discover request's result list, `None` when it
      failed. A negative dice value, which the dice button never produces,
      gives a negative index, so the handler fails; the exception is a
      remainder of -0, which indexes the first movie and is dealt. */
  function Recommend(genre: string, dice: int, catalog: Option<seq<Movie>>): (r: Session)
    ensures r.MissingSelection? <==> genre == "" || dice == 0
    ensures r.NoMoviesFound? <==> genre != "" && dice != 0 && catalog == Some([])
    ensures r.LoadFailed? ==> catalog.None? || dice < 0
    ensures genre != "" && dice > 0 && catalog.Some? && |catalog.value| > 0 ==> r.Dealt?
    ensures r.Dealt? ==> catalog.Some? && |r.deck| == Min(|catalog.value| - 1, DeckSize)
    ensures r.Dealt? ==> r.pick in catalog.value && forall m :: m in r.deck ==> m in catalog.value
    ensures genre != "" && dice < 0 && catalog.Some? && |catalog.value| > 0 ==>
      (r.Dealt? <==> (dice - 1) % |catalog.value| == 0) && (r.Dealt? ==> r.pick == catalog.value[0])
  {
    if genre == "" || dice == 0 then MissingSelection
    else
      match catalog
      case None => LoadFailed
      case Some(movies) =>
        if |movies| == 0 then NoMoviesFound
        else
          var idx := JsRemainder(dice - 1, |movies|);
          if idx < 0 then LoadFailed
          else Dealt(movies[idx], Take(RemoveAt(movies, idx), DeckSize))
  }

  /** For every roll the dice button can produce, the pick is the catalog
      entry at `(dice - 1) mod n` and the deck is the catalog with that entry
      left out, position by position. */
  lemma RecommendByDice(genre: string, dice: int, movies: seq<Movie>)
    requires genre != "" && 1 <= dice && |movies| > 0
    ensures var idx := (dice - 1) % |movies|;
      && 0 <= idx < |movies|
      && Recommend(genre, dice, Some(movies)) == Dealt(movies[idx], Recommend(genre, dice, Some(movies)).deck)
      && (forall k :: 0 <= k < |Recommend(genre, dice, Some(movies)).deck| && k < idx ==>
            Recommend(genre, dice, Some(movies)).deck[k] == movies[k])
      && (forall k :: idx <= k < |Recommend(genre, dice, Some(movies)).deck| ==>
            Recommend(genre, dice, Some(movies)).deck[k] == movies[k + 1])
  {
  }

  /** With identifiers unique in the catalog page, the recommended movie is
      never dealt as a card. */
  lemma PickNotDealt(genre: string, dice: int, movies: seq<Movie>)
    requires DistinctIds(movies)
    requires Recommend(genre, dice, Some(movies)).Dealt?
    ensures !HasId(Recommend(genre, dice, Some(movies)).deck, Recommend(genre, dice, Some(movies)).pick.id)
  {
    var r := Recommend(genre, dice, Some(movies));
    var idx := JsRemainder(dice - 1, |movies|);
    assert r.pick == movies[idx];
    forall k | 0 <= k < |r.deck|
      ensures r.deck[k].id != r.pick.id
    {
      if k < idx {
        assert r.deck[k] == movies[k];
      } else {
        assert r.deck[k] == movies[k + 1];
      }
    }
  }

  /** When the whole page fits, putting the pick back at its index restores
      the catalog page: nothing is lost or reordered. */
  lemma DealRestoresCatalog(genre: string, dice: int, movies: seq<Movie>)
    requires Recommend(genre, dice, Some(movies)).Dealt?
    requires |movies| <= DeckSize + 1
    ensures var r := Recommend(genre, dice, Some(movies));
      var idx := JsRemainder(dice - 1, |movies|);
      0 <= idx <= |r.deck| && r.deck[..idx] + [r.pick] + r.deck[idx..] == movies
  {
    var r := Recommend(genre, dice, Some(movies));
    var idx := JsRemainder(dice - 1, |movies|);
    assert |r.deck| == |movies| - 1;
    var whole := r.deck[..idx] + [r.pick] + r.deck[idx..];
    assert |whole| == |movies|;
    forall k | 0 <= k < |movies|
      ensures whole[k] == movies[k]
    {
      if k < idx {
        assert whole[k] == r.deck[k];
      } else if k == idx {
        assert whole[k] == r.pick;
      } else {
        assert whole[k] == r.deck[k - 1];
      }
    }
  }

  /** The scenario of an Action genre, a roll of three and a five-movie
      page: the third movie is picked and the other four are dealt. */
  lemma RollThreeOfFive(a: Movie, b: Movie, c: Movie, d: Movie, e: Movie)
    ensures Recommend("28", 3, Some([a, b, c, d, e])) == Dealt(c, [a, b, d, e])
  {
    var r := Recommend("28", 3, Some([a, b, c, d, e]));
    assert JsRemainder(2, 5) == 2;
    assert |r.deck| == 4;
    assert r.deck == [a, b, d, e];
  }

  // ---------------------------------------------------------------------
  // Local favorites (`addToFavorites`, `removeFromFavorites`)
  // ---------------------------------------------------------------------

  /** `addToFavorites`: appends the movie unless an entry with its id is
      already present. */
  function AddToFavorites(favorites: seq<Movie>, movie: Movie): (r: seq<Movie>)
    ensures HasId(r, movie.id)
    ensures |favorites| <= |r| <= |favorites| + 1
    ensures r[..|favorites|] == favorites
    ensures |r| == |favorites| + 1 <==> !HasId(favorites, movie.id)
    ensures |r| == |favorites| + 1 ==> r[|favorites|] == movie
  {
    if HasId(favorites, movie.id) then favorites
    else
      assert (favorites + [movie])[|favorites|].id == movie.id;
      favorites + [movie]
  }

  /** Adding twice is adding once. */
  lemma AddIdempotent(favorites: seq<Movie>, movie: Movie)
    ensures AddToFavorites(AddToFavorites(favorites, movie), movie) == AddToFavorites(favorites, movie)
  {
  }

  /** Adding keeps identifiers unique. */
  lemma AddKeepsDistinct(favorites: seq<Movie>, movie: Movie)
    requires DistinctIds(favorites)
    ensures DistinctIds(AddToFavorites(favorites, movie))
  {
    var r := AddToFavorites(favorites, movie);
    if !HasId(favorites, movie.id) {
      forall j, k | 0 <= j < k < |r|
        ensures r[j].id != r[k].id
      {
        if k == |favorites| {
          assert r[j] == favorites[j];
        }
      }
    }
  }

  /** The entries whose id differs from `id`, in their order; this is what
      `removeFromFavorites` keeps and the reference for deck pruning. */
  function WithoutId(ms: seq<Movie>, id: int): (r: seq<Movie>)
    ensures !HasId(r, id)
    ensures forall m :: m in r <==> m in ms && m.id != id
    ensures |r| <= |ms|
    ensures !HasId(ms, id) ==> r == ms
    ensures |r| < |ms| <==> HasId(ms, id)
    decreases |ms|
  {
    if |ms| == 0 then []
    else
      var rest := WithoutId(ms[1..], id);
      assert HasId(ms, id) <==> ms[0].id == id || HasId(ms[1..], id) by {
        if HasId(ms[1..], id) {
          var k :| 0 <= k < |ms[1..]| && ms[1..][k].id == id;
          assert ms[k + 1].id == id;
        }
        if HasId(ms, id) && ms[0].id != id {
          var k :| 0 <= k < |ms| && ms[k].id == id;
          assert ms[1..][k - 1].id == id;
        }
      }
      if ms[0].id == id then rest
      else
        var r := [ms[0]] + rest;
        assert !HasId(r, id) by {
          forall k | 0 <= k < |r|
            ensures r[k].id != id
          {
            if k > 0 {
              assert r[k] == rest[k - 1];
            }
          }
        }
        r
  }

  /** `removeFromFavorites` keeps every copy of every other entry: only the
      entries carrying the id are lost. */
  lemma {:induction false} WithoutIdCounts(ms: seq<Movie>, id: int)
    ensures forall m :: multiset(WithoutId(ms, id))[m] == if m.id == id then 0 else multiset(ms)[m]
    decreases |ms|
  {
    if |ms| > 0 {
      WithoutIdCounts(ms[1..], id);
      assert ms == [ms[0]] + ms[1..];
      if ms[0].id != id {
        assert WithoutId(ms, id) == [ms[0]] + WithoutId(ms[1..], id);
      }
    }
  }

  /** `removeFromFavorites` keeps the other entries in order. */
  lemma {:induction false} WithoutIdKeepsOrder(ms: seq<Movie>, id: int)
    ensures IsSubsequence(WithoutId(ms, id), ms)
    decreases |ms|
  {
    if |ms| > 0 {
      WithoutIdKeepsOrder(ms[1..], id);
      assert [ms[0]] + ms[1..] == ms;
      if ms[0].id == id {
        SubsequenceDropHead(ms[0], WithoutId(ms[1..], id), ms[1..]);
      } else {
        SubsequenceKeepHead(ms[0], WithoutId(ms[1..], id), ms[1..]);
      }
    }
  }

  /** Removing keeps identifiers unique. */
  lemma {:induction false} WithoutIdKeepsDistinct(ms: seq<Movie>, id: int)
    requires DistinctIds(ms)
    ensures DistinctIds(WithoutId(ms, id))
    decreases |ms|
  {
    if |ms| > 0 {
      WithoutIdKeepsDistinct(ms[1..], id);
      var rest := WithoutId(ms[1..], id);
      if ms[0].id != id {
        var r := [ms[0]] + rest;
        forall j, k | 0 <= j < k < |r|
          ensures r[j].id != r[k].id
        {
          if j == 0 {
            assert r[k] in ms[1..];
            var i :| 0 <= i < |ms[1..]| && ms[1..][i] == r[k];
            assert ms[i + 1] == r[k];
          }
        }
      }
    }
  }

  /** Removing a movie just added undoes the addition. */
  lemma RemoveUndoesAdd(favorites: seq<Movie>, movie: Movie)
    requires !HasId(favorites, movie.id)
    ensures WithoutId(AddToFavorites(favorites, movie), movie.id) == favorites
  {
    WithoutIdAppend(favorites, movie, movie.id);
  }

  /** Filtering an extended list filters the prefix and the new entry. */
  lemma {:induction false} WithoutIdAppend(ms: seq<Movie>, m: Movie, id: int)
    ensures WithoutId(ms + [m], id) == WithoutId(ms, id) + (if m.id == id then [] else [m])
    decreases |ms|
  {
    if |ms| == 0 {
      assert ms + [m] == [m];
      assert [m][1..] == [];
    } else {
      assert (ms + [m])[0] == ms[0];
      assert (ms + [m])[1..] == ms[1..] + [m];
      WithoutIdAppend(ms[1..], m, id);
    }
  }

  // ---------------------------------------------------------------------
  // Deck pruning after a discard (`removeSimilarMovies`)
  // ---------------------------------------------------------------------

  /** Position `k` holds the first card carrying the id, the one
      `document.querySelector` returns. */
  predicate FirstWithId(deck: seq<Movie>, id: int, k: nat)
  {
    k < |deck| && deck[k].id == id && forall j :: 0 <= j < k ==> deck[j].id != id
  }

  /** `document.querySelector` then `remove()`: only the first card carrying
      the id goes. */
  function RemoveFirstId(deck: seq<Movie>, id: int): (r: seq<Movie>)
    ensures HasId(deck, id) ==> |r| == |deck| - 1
    ensures !HasId(deck, id) ==> r == deck
    ensures forall m :: m in r ==> m in deck
    ensures forall m :: m in deck && m.id != id ==> m in r
    decreases |deck|
  {
    if |deck| == 0 then []
    else if deck[0].id == id then deck[1..]
    else
      var r := [deck[0]] + RemoveFirstId(deck[1..], id);
      assert HasId(deck, id) ==> HasId(deck[1..], id) by {
        if HasId(deck, id) {
          var k :| 0 <= k < |deck| && deck[k].id == id;
          assert deck[1..][k - 1].id == id;
        }
      }
      assert HasId(deck[1..], id) ==> HasId(deck, id) by {
        if HasId(deck[1..], id) {
          var k :| 0 <= k < |deck[1..]| && deck[1..][k].id == id;
          assert deck[k + 1].id == id;
        }
      }
      r
  }

  /** The card removed is the first one carrying the id; the others keep
      their order. */
  lemma {:induction false} RemoveFirstIdIsFirst(deck: seq<Movie>, id: int)
    requires HasId(deck, id)
    ensures exists k: nat :: FirstWithId(deck, id, k) && RemoveFirstId(deck, id) == RemoveAt(deck, k)
    decreases |deck|
  {
    if deck[0].id == id {
      assert FirstWithId(deck, id, 0);
      assert RemoveAt(deck, 0) == deck[1..];
    } else {
      var tail := deck[1..];
      assert HasId(tail, id) by {
        var k0 :| 0 <= k0 < |deck| && deck[k0].id == id;
        assert tail[k0 - 1].id == id;
      }
      RemoveFirstIdIsFirst(tail, id);
      var k: nat :| FirstWithId(tail, id, k) && RemoveFirstId(tail, id) == RemoveAt(tail, k);
      RemoveFirstIdStep(deck, id, k);
      assert FirstWithId(deck, id, k + 1) && RemoveFirstId(deck, id) == RemoveAt(deck, k + 1);
    }
  }

  /** One step of the induction: a leading card without the id is kept in
      front and shifts the first position by one. */
  lemma RemoveFirstIdStep(deck: seq<Movie>, id: int, k: nat)
    requires |deck| > 0 && deck[0].id != id
    requires FirstWithId(deck[1..], id, k) && RemoveFirstId(deck[1..], id) == RemoveAt(deck[1..], k)
    ensures FirstWithId(deck, id, k + 1) && RemoveFirstId(deck, id) == RemoveAt(deck, k + 1)
  {
    var tail := deck[1..];
    assert deck == [deck[0]] + tail;
    FirstWithIdCons(deck[0], tail, id, k);
    RemoveAtCons(deck[0], tail, k);
  }

  /** A card without the id in front shifts the first position by one. */
  lemma FirstWithIdCons(m: Movie, deck: seq<Movie>, id: int, k: nat)
    requires m.id != id && FirstWithId(deck, id, k)
    ensures FirstWithId([m] + deck, id, k + 1)
  {
    var d := [m] + deck;
    forall j | 0 <= j < k + 1
      ensures d[j].id != id
    {
      if j > 0 {
        assert d[j] == deck[j - 1];
      }
    }
  }

  /** One querySelector-and-remove keeps every copy of every card with
      another id. */
  lemma {:induction false} RemoveFirstIdCounts(deck: seq<Movie>, id: int)
    ensures forall m: Movie :: m.id != id ==> multiset(RemoveFirstId(deck, id))[m] == multiset(deck)[m]
    decreases |deck|
  {
    if |deck| > 0 {
      assert deck == [deck[0]] + deck[1..];
      if deck[0].id != id {
        RemoveFirstIdCounts(deck[1..], id);
        assert RemoveFirstId(deck, id) == [deck[0]] + RemoveFirstId(deck[1..], id);
      }
    }
  }

  /** Pruning keeps every copy of every card whose id is not listed, even
      when ids repeat on the deck. */
  lemma {:induction false} PruneSimilarCounts(deck: seq<Movie>, ids: seq<int>)
    ensures forall m: Movie :: m.id !in ids ==> multiset(PruneSimilar(deck, ids))[m] == multiset(deck)[m]
    decreases |ids|
  {
    if |ids| > 0 {
      RemoveFirstIdCounts(deck, ids[0]);
      PruneSimilarCounts(RemoveFirstId(deck, ids[0]), ids[1..]);
      assert ids == [ids[0]] + ids[1..];
    }
  }

  /** The similar ids processed one after the other, as the handler does. */
  function PruneSimilar(deck: seq<Movie>, ids: seq<int>): (r: seq<Movie>)
    ensures |deck| - |ids| <= |r| <= |deck|
    ensures forall m :: m in r ==> m in deck
    ensures forall m :: m in deck && m !in r ==> m.id in ids
    decreases |ids|
  {
    if |ids| == 0 then deck
    else
      var r := PruneSimilar(RemoveFirstId(deck, ids[0]), ids[1..]);
      assert forall m :: m in deck && m !in r ==> m.id in ids by {
        forall m | m in deck && m !in r
          ensures m.id in ids
        {
          if m.id != ids[0] {
            assert m in RemoveFirstId(deck, ids[0]);
            assert m.id in ids[1..];
          }
        }
      }
      r
  }

  /** The reference: every card whose id is listed goes, the rest stay in
      order. */
  function WithoutIds(deck: seq<Movie>, ids: seq<int>): (r: seq<Movie>)
    ensures forall m :: m in r <==> m in deck && m.id !in ids
    ensures |r| <= |deck|
    decreases |deck|
  {
    if |deck| == 0 then []
    else (if deck[0].id in ids then [] else [deck[0]]) + WithoutIds(deck[1..], ids)
  }

  /** On a deck without repeated ids, removing the first card of each
      similar id is removing every card whose id is similar. */
  lemma {:induction false} PruneRemovesExactlySimilar(deck: seq<Movie>, ids: seq<int>)
    requires DistinctIds(deck)
    ensures PruneSimilar(deck, ids) == WithoutIds(deck, ids)
    decreases |ids|
  {
    if |ids| == 0 {
      WithoutNoIds(deck);
    } else {
      var once := RemoveFirstId(deck, ids[0]);
      RemoveFirstIsWithoutId(deck, ids[0]);
      WithoutIdKeepsDistinct(deck, ids[0]);
      PruneRemovesExactlySimilar(once, ids[1..]);
      WithoutIdThenIds(deck, ids[0], ids[1..]);
      assert [ids[0]] + ids[1..] == ids;
    }
  }

  /** Filtering by an empty id list keeps everything. */
  lemma {:induction false} WithoutNoIds(deck: seq<Movie>)
    ensures WithoutIds(deck, []) == deck
    decreases |deck|
  {
    if |deck| > 0 {
      WithoutNoIds(deck[1..]);
      assert [deck[0]] + deck[1..] == deck;
    }
  }

  /** With unique ids the first card of an id is its only card. */
  lemma {:induction false} RemoveFirstIsWithoutId(deck: seq<Movie>, id: int)
    requires DistinctIds(deck)
    ensures RemoveFirstId(deck, id) == WithoutId(deck, id)
    decreases |deck|
  {
    if |deck| > 0 {
      if deck[0].id == id {
        assert !HasId(deck[1..], id) by {
          forall k | 0 <= k < |deck[1..]|
            ensures deck[1..][k].id != id
          {
            assert deck[1..][k] == deck[k + 1];
          }
        }
      } else {
        RemoveFirstIsWithoutId(deck[1..], id);
      }
    }
  }

  /** Filtering out one id and then a list is filtering out both at once. */
  lemma {:induction false} WithoutIdThenIds(deck: seq<Movie>, id: int, ids: seq<int>)
    ensures WithoutIds(WithoutId(deck, id), ids) == WithoutIds(deck, [id] + ids)
    decreases |deck|
  {
    if |deck| > 0 {
      WithoutIdThenIds(deck[1..], id, ids);
      assert deck[0].id in [id] + ids <==> deck[0].id == id || deck[0].id in ids;
      if deck[0].id != id {
        var w := WithoutId(deck, id);
        assert w == [deck[0]] + WithoutId(deck[1..], id);
        assert w[0] == deck[0];
        assert w[1..] == WithoutId(deck[1..], id);
      }
    }
  }

  /** A left swipe on card `i`: the card goes first; then, if the similar
      request answered, the first card of every similar id. `similar` is
      `None` when the request failed. */
  function Discard(deck: seq<Movie>, i: nat, similar: Option<seq<int>>): (r: seq<Movie>)
    requires i < |deck|
    ensures similar.None? ==> r == RemoveAt(deck, i)
    ensures DistinctIds(deck) && similar.Some? ==> r == WithoutIds(RemoveAt(deck, i), similar.value)
    ensures |r| < |deck|
    ensures forall m :: m in r ==> m in deck
  {
    var rest := RemoveAt(deck, i);
    match similar
    case None => rest
    case Some(ids) =>
      PruneAfterRemoval(deck, i, ids);
      PruneSimilar(rest, ids)
  }

  /** Pruning the deck left after the swiped card is filtering it, when the
      dealt ids are unique. */
  lemma PruneAfterRemoval(deck: seq<Movie>, i: nat, ids: seq<int>)
    requires i < |deck|
    ensures DistinctIds(deck) ==> PruneSimilar(RemoveAt(deck, i), ids) == WithoutIds(RemoveAt(deck, i), ids)
  {
    if DistinctIds(deck) {
      RemoveAtKeepsDistinct(deck, i);
      PruneRemovesExactlySimilar(RemoveAt(deck, i), ids);
    }
  }

  /** Removing one card keeps identifiers unique. */
  lemma RemoveAtKeepsDistinct(deck: seq<Movie>, i: nat)
    requires i < |deck| && DistinctIds(deck)
    ensures DistinctIds(RemoveAt(deck, i))
  {
    var r := RemoveAt(deck, i);
    forall j, k | 0 <= j < k < |r|
      ensures r[j].id != r[k].id
    {
      var j' := if j < i then j else j + 1;
      var k' := if k < i then k else k + 1;
      assert r[j] == deck[j'] && r[k] == deck[k'] && j' < k';
    }
  }

  // ---------------------------------------------------------------------
  // Release dispatch (`handleSwipeRelease`)
  // ---------------------------------------------------------------------

  /** The page state a swipe touches: the dealt cards and the favorites. */
  datatype Page = Page(deck: seq<Movie>, favorites: seq<Movie>)

  /** The release handler of card `i` with displacement `dx`. */
  function Release(page: Page, i: nat, dx: int, similar: Option<seq<int>>): (r: Page)
    requires i < |page.deck|
    ensures r == page <==> Gesture.Classify(SwipeThreshold, dx) == Gesture.Reset
    ensures r.favorites != page.favorites ==> dx > SwipeThreshold
    ensures dx > SwipeThreshold ==>
      r == Page(RemoveAt(page.deck, i), AddToFavorites(page.favorites, page.deck[i]))
    ensures dx < -(SwipeThreshold as int) ==>
      r == Page(Discard(page.deck, i, similar), page.favorites)
  {
    match Gesture.Classify(SwipeThreshold, dx)
    case Favorite => Page(RemoveAt(page.deck, i), AddToFavorites(page.favorites, page.deck[i]))
    case Discard => Page(Discard(page.deck, i, similar), page.favorites)
    case Reset => page
  }

  /** Swipes keep card ids and favorite ids unique. */
  lemma ReleaseKeepsDistinct(page: Page, i: nat, dx: int, similar: Option<seq<int>>)
    requires i < |page.deck|
    requires DistinctIds(page.deck) && DistinctIds(page.favorites)
    ensures DistinctIds(Release(page, i, dx, similar).deck)
    ensures DistinctIds(Release(page, i, dx, similar).favorites)
  {
    RemoveAtKeepsDistinct(page.deck, i);
    AddKeepsDistinct(page.favorites, page.deck[i]);
    if similar.Some? {
      WithoutIdsKeepsDistinct(RemoveAt(page.deck, i), similar.value);
    }
  }

  /** Filtering keeps identifiers unique. */
  lemma {:induction false} WithoutIdsKeepsDistinct(deck: seq<Movie>, ids: seq<int>)
    requires DistinctIds(deck)
    ensures DistinctIds(WithoutIds(deck, ids))
    decreases |deck|
  {
    if |deck| > 0 {
      WithoutIdsKeepsDistinct(deck[1..], ids);
      var rest := WithoutIds(deck[1..], ids);
      var r := WithoutIds(deck, ids);
      forall j, k | 0 <= j < k < |r|
        ensures r[j].id != r[k].id
      {
        if deck[0].id !in ids && j == 0 {
          assert r[k] == rest[k - 1];
          assert r[k] in deck[1..];
          var n :| 0 <= n < |deck[1..]| && deck[1..][n] == r[k];
          assert deck[n + 1] == r[k];
        } else if deck[0].id !in ids {
          assert r[j] == rest[j - 1] && r[k] == rest[k - 1];
        } else {
          assert r == rest;
        }
      }
    }
  }
}
