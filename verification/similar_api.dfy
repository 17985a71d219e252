/** The catalog-backed similarity service (`MRS/api/main.py`, `/similar`):
    given a target movie's overview and the candidate movies of a genre, it
    returns every candidate whose overview similarity reaches the threshold,
    most similar first, ties in candidate order. The overviews come from the
    catalog and the scores from a text-vector library; both are inputs. */
module SimilarApi {
  import opened Util

  /** A candidate movie of the genre; a missing overview is "". */
  datatype Candidate = Candidate(id: int, title: string, overview: string)

  /** An entry of the `removed` list. */
  datatype Scored = Scored(id: int, title: string, similarity: real)

  /** The response body. */
  datatype Reply = Reply(removed: seq<Scored>, message: string)

  const NoTargetOverview := "No overview available for the target movie"
  const NoCandidateOverviews := "No overviews available for genre candidates"
  const Success := "Success"

  /** The characters Python's `str.strip()` removes. */
  predicate IsSpace(c: char)
  {
    || c == ' '
    || '\t' <= c <= '\r'
    || '\U{1C}' <= c <= '\U{1F}'
    || c == '\U{85}' || c == '\U{A0}' || c == '\U{1680}'
    || '\U{2000}' <= c <= '\U{200A}'
    || c == '\U{2028}' || c == '\U{2029}' || c == '\U{202F}' || c == '\U{205F}' || c == '\U{3000}'
  }

  /** Every character of the text is whitespace. */
  predicate IsBlank(s: string)
  {
    forall k :: 0 <= k < |s| ==> IsSpace(s[k])
  }

  /** `lstrip()`: the text after its leading whitespace. */
  function StripLeft(s: string): (r: string)
    ensures |r| <= |s| && r == s[|s| - |r|..]
    ensures forall k :: 0 <= k < |s| - |r| ==> IsSpace(s[k])
    ensures r != "" ==> !IsSpace(r[0])
    decreases |s|
  {
    if |s| > 0 && IsSpace(s[0]) then StripLeft(s[1..]) else s
  }

  /** `rstrip()`: the text before its trailing whitespace. */
  function StripRight(s: string): (r: string)
    ensures |r| <= |s| && r == s[..|r|]
    ensures forall k :: |r| <= k < |s| ==> IsSpace(s[k])
    ensures r != "" ==> !IsSpace(r[|r| - 1])
    decreases |s|
  {
    if |s| > 0 && IsSpace(s[|s| - 1]) then StripRight(s[..|s| - 1]) else s
  }

  /** `strip()`: the text without leading and trailing whitespace. */
  function Strip(s: string): (r: string)
    ensures r == "" <==> IsBlank(s)
    ensures r != "" ==> !IsSpace(r[0]) && !IsSpace(r[|r| - 1])
    ensures |r| <= |s|
  {
    var left := StripLeft(s);
    var r := StripRight(left);
    assert left != "" ==> !IsSpace(s[|s| - |left|]) by {
      if left != "" {
        assert left[0] == s[|s| - |left|];
      }
    }
    assert r == "" ==> left == "" by {
      if left != "" {
        assert !IsSpace(left[0]);
      }
    }
    r
  }

  /** Every candidate overview strips to "" (`not any(overviews)`). */
  predicate AllBlank(candidates: seq<Candidate>)
  {
    forall k :: 0 <= k < |candidates| ==> Strip(candidates[k].overview) == ""
  }

  /** The candidates paired with their scores, in candidate order. */
  function Scores(candidates: seq<Candidate>, sims: seq<real>): (r: seq<Scored>)
    requires |sims| == |candidates|
    ensures |r| == |candidates|
    ensures forall k :: 0 <= k < |r| ==> r[k] == Scored(candidates[k].id, candidates[k].title, sims[k])
  {
    seq(|candidates|, k requires 0 <= k < |candidates| => Scored(candidates[k].id, candidates[k].title, sims[k]))
  }

  // ---------------------------------------------------------------------
  // Threshold filter
  // ---------------------------------------------------------------------

  /** The loop that keeps the entries whose score reaches the threshold. */
  function AtLeast(xs: seq<Scored>, threshold: real): (r: seq<Scored>)
    ensures forall x :: x in r <==> x in xs && x.similarity >= threshold
    ensures forall x :: multiset(r)[x] == if x.similarity >= threshold then multiset(xs)[x] else 0
    ensures |r| <= |xs|
    decreases |xs|
  {
    if |xs| == 0 then []
    else
      var rest := AtLeast(xs[1..], threshold);
      assert xs == [xs[0]] + xs[1..];
      (if xs[0].similarity >= threshold then [xs[0]] else []) + rest
  }

  /** The filter keeps the candidates' order. */
  lemma {:induction false} AtLeastKeepsOrder(xs: seq<Scored>, threshold: real)
    ensures IsSubsequence(AtLeast(xs, threshold), xs)
    decreases |xs|
  {
    if |xs| > 0 {
      AtLeastKeepsOrder(xs[1..], threshold);
      assert [xs[0]] + xs[1..] == xs;
      if xs[0].similarity >= threshold {
        assert AtLeast(xs, threshold) == [xs[0]] + AtLeast(xs[1..], threshold);
        SubsequenceKeepHead(xs[0], AtLeast(xs[1..], threshold), xs[1..]);
      } else {
        assert AtLeast(xs, threshold) == AtLeast(xs[1..], threshold);
        SubsequenceDropHead(xs[0], AtLeast(xs[1..], threshold), xs[1..]);
      }
    }
  }

  // ---------------------------------------------------------------------
  // Stable sort by descending similarity
  // ---------------------------------------------------------------------

  /** Scores never increase along the sequence. */
  ghost predicate SortedDesc(xs: seq<Scored>)
  {
    forall j, k :: 0 <= j < k < |xs| ==> xs[j].similarity >= xs[k].similarity
  }

  /** The entries with score `v`, in order: a sort is stable when it keeps
      each of these sequences as it was. */
  function WithSimilarity(xs: seq<Scored>, v: real): seq<Scored>
    decreases |xs|
  {
    if |xs| == 0 then []
    else (if xs[0].similarity == v then [xs[0]] else []) + WithSimilarity(xs[1..], v)
  }

  /** Places `x` before the first entry whose score it equals or beats. */
  function Insert(x: Scored, ys: seq<Scored>): (r: seq<Scored>)
    ensures multiset(r) == multiset(ys) + multiset{x}
    ensures |r| == |ys| + 1
    decreases |ys|
  {
    if |ys| == 0 || ys[0].similarity <= x.similarity then [x] + ys
    else
      assert ys == [ys[0]] + ys[1..];
      [ys[0]] + Insert(x, ys[1..])
  }

  /** Inserting into a descending list keeps it descending. */
  lemma {:induction false} InsertKeepsSorted(x: Scored, ys: seq<Scored>)
    requires SortedDesc(ys)
    ensures SortedDesc(Insert(x, ys))
    decreases |ys|
  {
    if |ys| > 0 && ys[0].similarity > x.similarity {
      var tail := Insert(x, ys[1..]);
      InsertKeepsSorted(x, ys[1..]);
      var r := [ys[0]] + tail;
      assert Insert(x, ys) == r;
      forall k | 0 < k < |r|
        ensures ys[0].similarity >= r[k].similarity
      {
        assert r[k] == tail[k - 1];
        assert r[k] in multiset(tail);
        if r[k] != x {
          assert r[k] in multiset(ys[1..]);
          var n :| 0 <= n < |ys[1..]| && ys[1..][n] == r[k];
          assert ys[n + 1] == r[k];
        }
      }
    }
  }

  /** The inserted entry goes before every entry of equal score and after
      nothing of its own score: per score, it is prepended. */
  lemma {:induction false} InsertTies(x: Scored, ys: seq<Scored>, v: real)
    ensures WithSimilarity(Insert(x, ys), v)
         == (if x.similarity == v then [x] + WithSimilarity(ys, v) else WithSimilarity(ys, v))
    decreases |ys|
  {
    if |ys| == 0 || ys[0].similarity <= x.similarity {
      assert ([x] + ys)[1..] == ys;
    } else {
      InsertTies(x, ys[1..], v);
      var r := [ys[0]] + Insert(x, ys[1..]);
      assert r[1..] == Insert(x, ys[1..]);
    }
  }

  /** Insertion sort from the back, as stable as Python's `list.sort`. */
  function SortBySimilarity(xs: seq<Scored>): (r: seq<Scored>)
    ensures SortedDesc(r)
    ensures multiset(r) == multiset(xs)
    ensures |r| == |xs|
    ensures forall v :: WithSimilarity(r, v) == WithSimilarity(xs, v)
    decreases |xs|
  {
    if |xs| == 0 then []
    else
      var sorted := SortBySimilarity(xs[1..]);
      InsertKeepsSorted(xs[0], sorted);
      assert xs == [xs[0]] + xs[1..];
      assert forall v :: WithSimilarity(Insert(xs[0], sorted), v) == WithSimilarity(xs, v) by {
        forall v
          ensures WithSimilarity(Insert(xs[0], sorted), v) == WithSimilarity(xs, v)
        {
          InsertTies(xs[0], sorted, v);
        }
      }
      Insert(xs[0], sorted)
  }

  /** Stability, stated pairwise: two entries of equal score that were in
      some order in the input keep that order in the output. */
  lemma {:induction false} SortKeepsTies(xs: seq<Scored>, a: Scored, b: Scored)
    requires a.similarity == b.similarity
    requires IsSubsequence([a, b], xs)
    ensures IsSubsequence([a, b], SortBySimilarity(xs))
  {
    var v := a.similarity;
    TieOrderIsFiltered(xs, a, b);
    assert IsSubsequence([a, b], WithSimilarity(SortBySimilarity(xs), v));
    WithSimilarityKeepsOrder(SortBySimilarity(xs), v);
    SubsequenceTransitive([a, b], WithSimilarity(SortBySimilarity(xs), v), SortBySimilarity(xs));
  }

  /** A pair of entries with score `v` in order in `xs` is in order among
      the entries of score `v`. */
  lemma {:induction false} TieOrderIsFiltered(xs: seq<Scored>, a: Scored, b: Scored)
    requires a.similarity == b.similarity
    requires IsSubsequence([a, b], xs)
    ensures IsSubsequence([a, b], WithSimilarity(xs, a.similarity))
    decreases |xs|
  {
    var v := a.similarity;
    var w := WithSimilarity(xs, v);
    assert |xs| > 0;
    assert [a, b][1..] == [b];
    if xs[0] == a {
      assert IsSubsequence([b], xs[1..]);
      SingletonFiltered(xs[1..], b);
      assert w == [a] + WithSimilarity(xs[1..], v);
      SubsequenceKeepHead(a, [b], WithSimilarity(xs[1..], v));
    } else {
      TieOrderIsFiltered(xs[1..], a, b);
      if xs[0].similarity == v {
        assert w == [xs[0]] + WithSimilarity(xs[1..], v);
        SubsequenceDropHead(xs[0], [a, b], WithSimilarity(xs[1..], v));
      } else {
        assert w == WithSimilarity(xs[1..], v);
      }
    }
  }

  /** An entry of `xs` is among the entries of its own score. */
  lemma {:induction false} SingletonFiltered(xs: seq<Scored>, b: Scored)
    requires IsSubsequence([b], xs)
    ensures IsSubsequence([b], WithSimilarity(xs, b.similarity))
    decreases |xs|
  {
    var v := b.similarity;
    assert |xs| > 0;
    if xs[0] == b {
      assert WithSimilarity(xs, v) == [b] + WithSimilarity(xs[1..], v);
      assert WithSimilarity(xs, v)[0] == b;
      assert [b][1..] == [];
    } else {
      SingletonFiltered(xs[1..], b);
      if xs[0].similarity == v {
        assert WithSimilarity(xs, v) == [xs[0]] + WithSimilarity(xs[1..], v);
        SubsequenceDropHead(xs[0], [b], WithSimilarity(xs[1..], v));
      } else {
        assert WithSimilarity(xs, v) == WithSimilarity(xs[1..], v);
      }
    }
  }

  /** The entries of one score appear in `xs` in their order. */
  lemma {:induction false} WithSimilarityKeepsOrder(xs: seq<Scored>, v: real)
    ensures IsSubsequence(WithSimilarity(xs, v), xs)
    decreases |xs|
  {
    if |xs| > 0 {
      WithSimilarityKeepsOrder(xs[1..], v);
      assert [xs[0]] + xs[1..] == xs;
      if xs[0].similarity == v {
        assert WithSimilarity(xs, v) == [xs[0]] + WithSimilarity(xs[1..], v);
        SubsequenceKeepHead(xs[0], WithSimilarity(xs[1..], v), xs[1..]);
      } else {
        assert WithSimilarity(xs, v) == WithSimilarity(xs[1..], v);
        SubsequenceDropHead(xs[0], WithSimilarity(xs[1..], v), xs[1..]);
      }
    }
  }

  // ---------------------------------------------------------------------
  // The endpoint
  // ---------------------------------------------------------------------

  /** `find_similar`. `target` is the target's overview, `None` when the
      catalog lookup failed (a 502); `candidates` is `None` when the genre
      listing failed (an uncaught error, a 500); `sims` is `None` when the
      vectoriser failed (a 500), else one score per candidate. A blank target
      overview or all-blank candidate overviews give an empty list with a
      message. */
  function FindSimilar(target: Option<string>, candidates: Option<seq<Candidate>>,
                       sims: Option<seq<real>>, threshold: Option<real>): (r: Response<Reply>)
    requires candidates.Some? && sims.Some? ==> |sims.value| == |candidates.value|
    ensures target.None? ==> r == HttpError(502)
    ensures target.Some? && IsBlank(target.value) ==> r == Ok(Reply([], NoTargetOverview))
    ensures target.Some? && !IsBlank(target.value) && candidates.Some? && AllBlank(candidates.value) ==>
      r == Ok(Reply([], NoCandidateOverviews))
    ensures target.Some? && !IsBlank(target.value) && candidates.None? ==> r == HttpError(500)
    ensures target.Some? && !IsBlank(target.value) && candidates.Some? && !AllBlank(candidates.value) ==>
      r == (if sims.None? then HttpError(500)
            else Ok(Reply(Rank(Scores(candidates.value, sims.value), ThresholdOrDefault(threshold)), Success)))
    ensures r.Ok? && r.body.message == Success ==>
      candidates.Some? && sims.Some? && !AllBlank(candidates.value)
      && var all := Scores(candidates.value, sims.value);
         && r.body.removed == Rank(all, ThresholdOrDefault(threshold))
    ensures r.Ok? ==> r.body.message in {NoTargetOverview, NoCandidateOverviews, Success}
    ensures r.Ok? && r.body.message != Success ==> r.body.removed == []
  {
    match target
    case None => HttpError(502)
    case Some(overview) =>
      if Strip(overview) == "" then Ok(Reply([], NoTargetOverview))
      else
        match candidates
        case None => HttpError(500)
        case Some(cs) =>
          if AllBlank(cs) then Ok(Reply([], NoCandidateOverviews))
          else
            match sims
            case None => HttpError(500)
            case Some(ss) =>
              Ok(Reply(Rank(Scores(cs, ss), ThresholdOrDefault(threshold)), Success))
  }

  /** The success reply's list: the scored candidates at or above the
      threshold, most similar first, ties in candidate order. */
  function Rank(all: seq<Scored>, threshold: real): (r: seq<Scored>)
    ensures SortedDesc(r)
    ensures multiset(r) == multiset(AtLeast(all, threshold))
    ensures forall x :: x in r <==> x in all && x.similarity >= threshold
    ensures forall v :: v >= threshold ==> WithSimilarity(r, v) == WithSimilarity(all, v)
    ensures |r| <= |all|
  {
    var kept := AtLeast(all, threshold);
    AtLeastTies(all, threshold);
    var r := SortBySimilarity(kept);
    assert forall x :: x in r <==> x in multiset(kept);
    r
  }

  /** Among the entries of a score at or above the threshold, the filter
      keeps all of them in order. */
  lemma {:induction false} AtLeastTies(xs: seq<Scored>, threshold: real)
    ensures forall v :: v >= threshold ==> WithSimilarity(AtLeast(xs, threshold), v) == WithSimilarity(xs, v)
    decreases |xs|
  {
    if |xs| > 0 {
      AtLeastTies(xs[1..], threshold);
      forall v | v >= threshold
        ensures WithSimilarity(AtLeast(xs, threshold), v) == WithSimilarity(xs, v)
      {
        var rest := AtLeast(xs[1..], threshold);
        if xs[0].similarity >= threshold {
          var r := [xs[0]] + rest;
          assert AtLeast(xs, threshold) == r;
          assert r[1..] == rest;
        } else {
          assert AtLeast(xs, threshold) == rest;
        }
      }
    }
  }

  /** The target movie is not excluded: every candidate scoring at or above
      the threshold is reported, whatever its id. */
  lemma EveryQualifyingCandidateReported(target: string, candidates: seq<Candidate>, sims: seq<real>,
                                         threshold: Option<real>, i: nat)
    requires |sims| == |candidates| && i < |candidates|
    requires !IsBlank(target) && !AllBlank(candidates)
    requires sims[i] >= ThresholdOrDefault(threshold)
    ensures var r := FindSimilar(Some(target), Some(candidates), Some(sims), threshold);
      r.Ok? && Scored(candidates[i].id, candidates[i].title, sims[i]) in r.body.removed
  {
    var all := Scores(candidates, sims);
    assert all[i] in all;
  }
}
