/** Shared vocabulary of the movie-recommendation model: optional values,
    HTTP-style responses, the sequence operations JavaScript's `slice` and
    index-filter perform, and the ASCII case folding used when titles are
    compared case-insensitively. */
module Util {

  /** A value that may be absent (a missing JSON field, a failed request). */
  datatype Option<+T> = None | Some(value: T)

  /** What an HTTP endpoint of the back ends answers: a body, or a status
      code raised through an HTTP exception. */
  datatype Response<+T> = Ok(body: T) | HttpError(status: int)

  /** The cosine-similarity cut-off both back ends apply when a request
      carries no threshold. */
  const DefaultThreshold: real := 0.35

  /** The threshold the request carries, or 0.35 when it carries none. */
  function ThresholdOrDefault(threshold: Option<real>): real
  {
    match threshold
    case None => DefaultThreshold
    case Some(t) => t
  }

  function Min(a: int, b: int): int
  {
    if a <= b then a else b
  }

  /** JavaScript's `s.slice(0, n)`: the first `n` elements, or all of them
      when there are fewer. */
  function Take<T>(s: seq<T>, n: nat): (r: seq<T>)
    ensures |r| == Min(|s|, n)
    ensures forall k :: 0 <= k < |r| ==> r[k] == s[k]
    ensures |s| <= n ==> r == s
  {
    if |s| <= n then s else s[..n]
  }

  /** The sequence without the element at position `i`, the others kept in
      order (`s.filter((_, idx) => idx !== i)`, or removing one card). */
  function RemoveAt<T>(s: seq<T>, i: nat): (r: seq<T>)
    requires i < |s|
    ensures |r| == |s| - 1
    ensures forall k :: 0 <= k < i ==> r[k] == s[k]
    ensures forall k :: i <= k < |r| ==> r[k] == s[k + 1]
    ensures forall x :: x in r ==> x in s
  {
    s[..i] + s[i + 1..]
  }

  /** Removing a position behind a new head removes the shifted position. */
  lemma RemoveAtCons<T>(x: T, s: seq<T>, i: nat)
    requires i < |s|
    ensures [x] + RemoveAt(s, i) == RemoveAt([x] + s, i + 1)
  {
    assert ([x] + s)[..i + 1] == [x] + s[..i];
    assert ([x] + s)[i + 2..] == s[i + 1..];
  }

  /** `a` is obtained from `b` by deleting elements: order is kept. */
  ghost predicate IsSubsequence<T>(a: seq<T>, b: seq<T>)
    decreases |b|
  {
    if |a| == 0 then true
    else if |b| == 0 then false
    else if a[0] == b[0] then IsSubsequence(a[1..], b[1..])
    else IsSubsequence(a, b[1..])
  }

  /** Keeping the head of both sequences keeps the subsequence relation. */
  lemma SubsequenceKeepHead<T>(x: T, a: seq<T>, b: seq<T>)
    requires IsSubsequence(a, b)
    ensures IsSubsequence([x] + a, [x] + b)
  {
    assert ([x] + a)[1..] == a;
    assert ([x] + b)[1..] == b;
  }

  /** Dropping the head of `b` keeps the subsequence relation. */
  lemma {:induction false} SubsequenceDropHead<T>(x: T, a: seq<T>, b: seq<T>)
    requires IsSubsequence(a, b)
    ensures IsSubsequence(a, [x] + b)
    decreases |b|, 1
  {
    assert ([x] + b)[1..] == b;
    if |a| == 0 {
    } else if a[0] == x {
      // `a` is matched greedily against `[x] + b`: its head takes `x`.
      assert IsSubsequence(a[1..], b) by {
        SubsequenceTail(a, b);
      }
    }
  }

  /** A subsequence stays one after losing its head. */
  lemma {:induction false} SubsequenceTail<T>(a: seq<T>, b: seq<T>)
    requires |a| > 0 && IsSubsequence(a, b)
    ensures IsSubsequence(a[1..], b)
    decreases |b|, 0
  {
    if a[0] == b[0] {
      SubsequenceDropHead(b[0], a[1..], b[1..]);
      assert [b[0]] + b[1..] == b;
    } else {
      SubsequenceTail(a, b[1..]);
      SubsequenceDropHead(b[0], a[1..], b[1..]);
      assert [b[0]] + b[1..] == b;
    }
  }

  /** A subsequence of a subsequence is a subsequence. */
  lemma {:induction false} SubsequenceTransitive<T>(a: seq<T>, b: seq<T>, c: seq<T>)
    requires IsSubsequence(a, b) && IsSubsequence(b, c)
    ensures IsSubsequence(a, c)
    decreases |c|
  {
    if |a| > 0 {
      assert |b| > 0 && |c| > 0;
      if b[0] == c[0] {
        if a[0] == b[0] {
          SubsequenceTransitive(a[1..], b[1..], c[1..]);
        } else {
          SubsequenceTransitive(a, b[1..], c[1..]);
        }
      } else {
        SubsequenceTransitive(a, b, c[1..]);
        if a[0] == c[0] {
          SubsequenceTail(a, c[1..]);
        }
      }
    }
  }

  /** ASCII case folding of one character, as `toLowerCase`/`lower()` do
      on the ASCII range. */
  function LowerChar(c: char): char
  {
    if 'A' <= c <= 'Z' then (c as int + 32) as char else c
  }

  /** ASCII case folding of a string. */
  function Lower(s: string): (r: string)
    ensures |r| == |s|
    ensures forall k :: 0 <= k < |s| ==> r[k] == LowerChar(s[k])
  {
    seq(|s|, k requires 0 <= k < |s| => LowerChar(s[k]))
  }

  /** Two titles that compare equal once both are lower-cased. */
  predicate SameTitle(a: string, b: string)
  {
    Lower(a) == Lower(b)
  }
}
