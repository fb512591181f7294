/** `pickTop`: the posts that score above zero, best first, at most `k` of them. */
module Ranking {
  import opened Posts
  import opened Scoring

  /** A post with its score and its position in the list it came from. */
  datatype Scored = Scored(pos: nat, post: Post, score: int)

  /** The score of every post for the question, in order. */
  function ScoreList(posts: seq<Post>, q: string): (scores: seq<int>)
    ensures |scores| == |posts|
    ensures forall i :: 0 <= i < |posts| ==> scores[i] == ScoreOf(posts[i], q)
  {
    seq(|posts|, i requires 0 <= i < |posts| => ScoreOf(posts[i], q))
  }

  /** `posts.map(p => ({ p, s: score(p, q) }))` with the scores given, remembering each post's
      position. */
  function Pair(posts: seq<Post>, scores: seq<int>): (xs: seq<Scored>)
    requires |scores| == |posts|
    ensures |xs| == |posts|
    ensures forall x :: x in xs <==> x.pos < |posts| && x == Scored(x.pos, posts[x.pos], scores[x.pos])
  {
    var xs := seq(|posts|, i requires 0 <= i < |posts| => Scored(i, posts[i], scores[i]));
    assert forall x: Scored :: x.pos < |posts| && x == Scored(x.pos, posts[x.pos], scores[x.pos]) ==> xs[x.pos] == x;
    xs
  }

  /** `.filter(x => x.s > 0)`. */
  function Positive(xs: seq<Scored>): (r: seq<Scored>)
    ensures |r| <= |xs|
    ensures forall x :: x in r <==> x in xs && x.score > 0
    decreases |xs|
  {
    if xs == [] then []
    else (if xs[0].score > 0 then [xs[0]] else []) + Positive(xs[1..])
  }

  predicate EarlierPos(a: Scored, b: Scored) {
    a.pos < b.pos
  }

  /** Positions strictly increase along the list, as they do after `Pair`. */
  predicate IncreasingPos(xs: seq<Scored>) {
    forall i, j :: 0 <= i < j < |xs| ==> EarlierPos(xs[i], xs[j])
  }

  /** `a` comes before `b` in the sorted list: a higher score, or the same score and an
      earlier position. `Array.prototype.sort` is stable, so ties keep their order. */
  predicate Before(a: Scored, b: Scored) {
    a.score > b.score || (a.score == b.score && a.pos < b.pos)
  }

  predicate Ordered(xs: seq<Scored>) {
    forall i, j :: 0 <= i < j < |xs| ==> Before(xs[i], xs[j])
  }

  /** Puts `x` before the first element that does not score higher. */
  function Insert(x: Scored, s: seq<Scored>): (r: seq<Scored>)
    ensures multiset(r) == multiset(s) + multiset{x}
    ensures |r| == |s| + 1
    decreases |s|
  {
    if s == [] || x.score >= s[0].score then [x] + s
    else
      var rest := Insert(x, s[1..]);
      assert s == [s[0]] + s[1..];
      [s[0]] + rest
  }

  /** `.sort((a, b) => b.s - a.s)`: a stable sort by descending score. */
  function SortDesc(xs: seq<Scored>): (r: seq<Scored>)
    ensures multiset(r) == multiset(xs)
    ensures |r| == |xs|
    decreases |xs|
  {
    if xs == [] then []
    else
      var r := Insert(xs[0], SortDesc(xs[1..]));
      assert xs == [xs[0]] + xs[1..];
      r
  }

  /** The end of `slice(0, k)` on a list of `len` elements: a negative `k` counts from the
      end. */
  function SliceEnd(len: nat, k: int): (e: nat)
    ensures e <= len
    ensures k >= 0 ==> e == (if k < len then k else len)
    ensures k < 0 ==> e == (if len + k > 0 then len + k else 0)
  {
    if k >= 0 then (if k < len then k else len)
    else if len + k > 0 then len + k else 0
  }

  /** The chain of `pickTop` before its last `map`, for given scores: paired, filtered,
      sorted and cut. */
  function Rank(posts: seq<Post>, scores: seq<int>, k: int): seq<Scored>
    requires |scores| == |posts|
  {
    var sorted := SortDesc(Positive(Pair(posts, scores)));
    sorted[..SliceEnd(|sorted|, k)]
  }

  /** `pickTop(posts, q, k)`, src/index.ts:96-103: the posts of the ranked list, in its
      order. */
  function PickTop(posts: seq<Post>, q: string, k: int): (top: seq<Post>)
    ensures k >= 0 ==> |top| <= k
    ensures forall i :: 0 <= i < |top| ==> top[i] in posts && ScoreOf(top[i], q) > 0
  {
    var xs := Rank(posts, ScoreList(posts, q), k);
    var top := seq(|xs|, i requires 0 <= i < |xs| => xs[i].post);
    KeptPosts(posts, q, k, xs, top);
    top
  }

  /** The posts of the ranked list are at most `k`, and each is a post of the input with a
      positive score. */
  lemma KeptPosts(posts: seq<Post>, q: string, k: int, xs: seq<Scored>, top: seq<Post>)
    requires xs == Rank(posts, ScoreList(posts, q), k)
    requires |top| == |xs| && forall i :: 0 <= i < |xs| ==> top[i] == xs[i].post
    ensures k >= 0 ==> |top| <= k
    ensures forall i :: 0 <= i < |top| ==> top[i] in posts && ScoreOf(top[i], q) > 0
  {
    var scores := ScoreList(posts, q);
    RankEntries(posts, scores, k, xs);
    forall i | 0 <= i < |top| ensures top[i] in posts && ScoreOf(top[i], q) > 0 {
      var j := xs[i].pos;
      assert top[i] == posts[j];
      assert ScoreOf(posts[j], q) == scores[j];
    }
  }

  /** The entries of the ranked list are posts of the input at their positions, with their
      positive scores. */
  lemma RankEntries(posts: seq<Post>, scores: seq<int>, k: int, xs: seq<Scored>)
    requires |scores| == |posts| && xs == Rank(posts, scores, k)
    ensures k >= 0 ==> |xs| <= k
    ensures forall i :: 0 <= i < |xs| ==>
      xs[i].pos < |posts| && xs[i].post == posts[xs[i].pos] && 0 < xs[i].score == scores[xs[i].pos]
  {
    SortedCandidates(posts, scores);
    var s := SortDesc(Positive(Pair(posts, scores)));
    forall i | 0 <= i < |xs| ensures xs[i] in s {
      assert xs[i] == s[i];
    }
  }

  // ---- what the chain guarantees ----

  /** A list is ordered when its head comes before the rest and the rest is ordered. */
  lemma OrderedCons(h: Scored, t: seq<Scored>)
    requires Ordered(t)
    requires forall y :: y in t ==> Before(h, y)
    ensures Ordered([h] + t)
  {
    var r := [h] + t;
    forall i, j | 0 <= i < j < |r| ensures Before(r[i], r[j]) {
      assert r[j] == t[j - 1];
      if i > 0 {
        assert r[i] == t[i - 1];
      }
    }
  }

  /** The tail of an ordered list is ordered and comes after its head. */
  lemma OrderedTail(s: seq<Scored>)
    requires Ordered(s) && s != []
    ensures Ordered(s[1..])
    ensures forall y :: y in s[1..] ==> Before(s[0], y)
  {
    var t := s[1..];
    forall i, j | 0 <= i < j < |t| ensures Before(t[i], t[j]) {
      assert t[i] == s[i + 1] && t[j] == s[j + 1];
    }
    forall y | y in t ensures Before(s[0], y) {
      var j :| 0 <= j < |t| && t[j] == y;
      assert s[j + 1] == y;
    }
  }

  /** Inserting an element whose position precedes every other keeps the list ordered. */
  lemma {:induction false} InsertOrdered(x: Scored, s: seq<Scored>)
    requires Ordered(s)
    requires forall y :: y in s ==> x.pos < y.pos
    ensures Ordered(Insert(x, s))
    decreases |s|
  {
    if s == [] {
      OrderedCons(x, s);
    } else if x.score >= s[0].score {
      OrderedTail(s);
      forall y | y in s ensures Before(x, y) {
        if y != s[0] {
          assert y in s[1..] by {
            var j :| 0 <= j < |s| && s[j] == y;
            assert s[1..][j - 1] == y;
          }
        }
      }
      OrderedCons(x, s);
    } else {
      OrderedTail(s);
      var t := s[1..];
      InsertOrdered(x, t);
      var rest := Insert(x, t);
      forall y | y in rest ensures Before(s[0], y) {
        InsertMember(x, t, y);
      }
      OrderedCons(s[0], rest);
    }
  }

  /** The elements after inserting `x` are `x` and those of `s`. */
  lemma InsertMember(x: Scored, s: seq<Scored>, y: Scored)
    ensures y in Insert(x, s) <==> y == x || y in s
  {
    assert y in Insert(x, s) <==> y in multiset(Insert(x, s));
    assert y in s <==> y in multiset(s);
  }

  /** The tail of a list whose positions increase has increasing positions, all after the
      head's. */
  lemma IncreasingTail(xs: seq<Scored>)
    requires IncreasingPos(xs) && xs != []
    ensures IncreasingPos(xs[1..])
    ensures forall y :: y in xs[1..] ==> EarlierPos(xs[0], y)
  {
    var t := xs[1..];
    forall i, j | 0 <= i < j < |t| ensures EarlierPos(t[i], t[j]) {
      assert t[i] == xs[i + 1] && t[j] == xs[j + 1];
    }
    forall y | y in t ensures EarlierPos(xs[0], y) {
      var j :| 0 <= j < |t| && t[j] == y;
      assert xs[j + 1] == y;
    }
  }

  lemma IncreasingCons(h: Scored, t: seq<Scored>)
    requires IncreasingPos(t)
    requires forall y :: y in t ==> EarlierPos(h, y)
    ensures IncreasingPos([h] + t)
  {
    var r := [h] + t;
    forall i, j | 0 <= i < j < |r| ensures EarlierPos(r[i], r[j]) {
      assert r[j] == t[j - 1];
      if i > 0 {
        assert r[i] == t[i - 1];
      }
    }
  }

  /** Sorting a list whose positions increase orders it by `Before`. */
  lemma {:induction false} SortDescOrdered(xs: seq<Scored>)
    requires IncreasingPos(xs)
    ensures Ordered(SortDesc(xs))
    decreases |xs|
  {
    if xs != [] {
      var t := xs[1..];
      IncreasingTail(xs);
      SortDescOrdered(t);
      var s := SortDesc(t);
      forall y | y in s ensures xs[0].pos < y.pos {
        assert y in multiset(s);
        assert y in t;
      }
      InsertOrdered(xs[0], s);
    }
  }

  /** Filtering keeps the positions increasing. */
  lemma {:induction false} PositiveIncreasing(xs: seq<Scored>)
    requires IncreasingPos(xs)
    ensures IncreasingPos(Positive(xs))
    decreases |xs|
  {
    if xs != [] {
      var t := xs[1..];
      IncreasingTail(xs);
      PositiveIncreasing(t);
      var rest := Positive(t);
      if xs[0].score > 0 {
        IncreasingCons(xs[0], rest);
        assert Positive(xs) == [xs[0]] + rest;
      } else {
        assert Positive(xs) == [] + rest;
        assert [] + rest == rest;
      }
    }
  }

  /** The positions of `Pair` increase. */
  lemma PairIncreasing(posts: seq<Post>, scores: seq<int>)
    requires |scores| == |posts|
    ensures IncreasingPos(Pair(posts, scores))
  {
  }

  /** The sorted list holds exactly the positively scored posts, best first. */
  lemma SortedCandidates(posts: seq<Post>, scores: seq<int>)
    requires |scores| == |posts|
    ensures Ordered(SortDesc(Positive(Pair(posts, scores))))
    ensures forall x :: x in SortDesc(Positive(Pair(posts, scores))) <==>
      x.pos < |posts| && x == Scored(x.pos, posts[x.pos], scores[x.pos]) && x.score > 0
  {
    var xs := Pair(posts, scores);
    PairIncreasing(posts, scores);
    PositiveIncreasing(xs);
    SortDescOrdered(Positive(xs));
    var s := SortDesc(Positive(xs));
    forall x ensures x in s <==> x in Positive(xs) {
      assert x in s <==> x in multiset(s);
      assert x in Positive(xs) <==> x in multiset(Positive(xs));
    }
  }

  /** The ranked list: at most `k` entries (when `k` is not negative), each a post of the input
      at its position with its positive score, no position twice, best first with ties in input
      order. */
  lemma RankShape(posts: seq<Post>, scores: seq<int>, k: int)
    requires |scores| == |posts|
    ensures var r := Rank(posts, scores, k);
      && (k >= 0 ==> |r| <= k)
      && (forall i :: 0 <= i < |r| ==>
            r[i].pos < |posts| && r[i] == Scored(r[i].pos, posts[r[i].pos], scores[r[i].pos]) && r[i].score > 0)
      && Ordered(r)
      && (forall i, j :: 0 <= i < j < |r| ==> r[i].pos != r[j].pos)
  {
    SortedCandidates(posts, scores);
    var s := SortDesc(Positive(Pair(posts, scores)));
    var r := Rank(posts, scores, k);
    forall i | 0 <= i < |r| ensures r[i] in s {
      assert r[i] == s[i];
    }
    forall i, j | 0 <= i < j < |r| ensures Before(r[i], r[j]) {
      assert r[i] == s[i] && r[j] == s[j];
    }
  }

  /** A positively scored post is left out only when `k` entries were kept (for a `k` that is
      not negative), and every kept entry comes before it. */
  lemma RankLeftOut(posts: seq<Post>, scores: seq<int>, k: int, p: nat)
    requires |scores| == |posts|
    requires p < |posts| && scores[p] > 0
    requires forall i :: 0 <= i < |Rank(posts, scores, k)| ==> Rank(posts, scores, k)[i].pos != p
    ensures k >= 0 ==> |Rank(posts, scores, k)| == k
    ensures forall i :: 0 <= i < |Rank(posts, scores, k)| ==>
      Before(Rank(posts, scores, k)[i], Scored(p, posts[p], scores[p]))
  {
    SortedCandidates(posts, scores);
    var s := SortDesc(Positive(Pair(posts, scores)));
    var r := Rank(posts, scores, k);
    var x := Scored(p, posts[p], scores[p]);
    assert x in s;
    var m :| 0 <= m < |s| && s[m] == x;
    forall i | 0 <= i < |r| ensures r[i] == s[i] {
    }
    assert m >= |r|;
    forall i | 0 <= i < |r| ensures Before(r[i], x) {
      assert r[i] == s[i];
    }
  }

  /** How many candidates the cut keeps: `min(k, n)` of the `n` positively scored entries for
      a `k` that is not negative, and all but the last `-k` of them (none when `-k >= n`) for
      a negative `k`. With `RankLeftOut`, the entries dropped are the ones ranked last. */
  lemma RankLength(posts: seq<Post>, scores: seq<int>, k: int)
    requires |scores| == |posts|
    ensures var n := |Positive(Pair(posts, scores))|; var r := Rank(posts, scores, k);
      && (k >= 0 ==> |r| == (if k < n then k else n))
      && (k < 0 ==> |r| == (if n + k > 0 then n + k else 0))
      && (k < 0 ==> n - |r| == (if -k < n then -k else n))
  {
  }

  /** Every positively scored post is kept when no more than `k` posts score positively. */
  lemma RankAllWhenFew(posts: seq<Post>, scores: seq<int>, k: int, p: nat)
    requires |scores| == |posts|
    requires p < |posts| && scores[p] > 0
    requires |Positive(Pair(posts, scores))| <= k
    ensures exists i :: 0 <= i < |Rank(posts, scores, k)| && Rank(posts, scores, k)[i].pos == p
  {
    SortedCandidates(posts, scores);
    var s := SortDesc(Positive(Pair(posts, scores)));
    var x := Scored(p, posts[p], scores[p]);
    assert x in s;
    var m :| 0 <= m < |s| && s[m] == x;
    assert Rank(posts, scores, k)[m] == x;
  }

  /** `pickTop` keeps at most `k` posts (when `k` is not negative), each with a positive score,
      none twice, best first with ties in input order. */
  lemma PickTopShape(posts: seq<Post>, q: string, k: int)
    ensures var r := Rank(posts, ScoreList(posts, q), k);
      && (k >= 0 ==> |r| <= k)
      && (forall i :: 0 <= i < |r| ==>
            r[i].pos < |posts| && r[i].post == posts[r[i].pos]
            && r[i].score == ScoreOf(posts[r[i].pos], q) > 0)
      && Ordered(r)
      && (forall i, j :: 0 <= i < j < |r| ==> r[i].pos != r[j].pos)
  {
    RankShape(posts, ScoreList(posts, q), k);
  }

  /** The posts `pickTop` keeps come best first: their scores never increase along the list. */
  lemma PickTopDescending(posts: seq<Post>, q: string, k: int)
    ensures var top := PickTop(posts, q, k);
      forall i, j :: 0 <= i < j < |top| ==> ScoreOf(top[i], q) >= ScoreOf(top[j], q)
  {
    var scores := ScoreList(posts, q);
    var r := Rank(posts, scores, k);
    var top := PickTop(posts, q, k);
    PickTopShape(posts, q, k);
    forall i, j | 0 <= i < j < |top| ensures ScoreOf(top[i], q) >= ScoreOf(top[j], q) {
      assert top[i] == r[i].post && top[j] == r[j].post;
      assert Before(r[i], r[j]);
    }
  }

  /** A post of positive score that `pickTop` leaves out scores no higher than any post it
      keeps (lower than those of later position), and it is left out only when `k` posts were
      kept. */
  lemma PickTopLeftOut(posts: seq<Post>, q: string, k: int, p: nat)
    requires p < |posts| && ScoreOf(posts[p], q) > 0
    requires forall i :: 0 <= i < |PickTop(posts, q, k)| ==> PickTop(posts, q, k)[i] != posts[p]
    ensures k >= 0 ==> |PickTop(posts, q, k)| == k
    ensures forall i :: 0 <= i < |PickTop(posts, q, k)| ==>
      ScoreOf(PickTop(posts, q, k)[i], q) >= ScoreOf(posts[p], q)
  {
    var scores := ScoreList(posts, q);
    var r := Rank(posts, scores, k);
    var top := PickTop(posts, q, k);
    RankEntries(posts, scores, k, r);
    assert |top| == |r|;
    forall i | 0 <= i < |r| ensures r[i].pos != p {
      assert top[i] == r[i].post;
    }
    RankLeftOut(posts, scores, k, p);
    forall i | 0 <= i < |r| ensures ScoreOf(top[i], q) >= ScoreOf(posts[p], q) {
      assert top[i] == posts[r[i].pos];
      assert Before(r[i], Scored(p, posts[p], scores[p]));
    }
  }

  /** When no more than `k` posts score positively, `pickTop` keeps every one of them. */
  lemma PickTopAllWhenFew(posts: seq<Post>, q: string, k: int, p: nat)
    requires p < |posts| && ScoreOf(posts[p], q) > 0
    requires |Positive(Pair(posts, ScoreList(posts, q)))| <= k
    ensures posts[p] in PickTop(posts, q, k)
  {
    var scores := ScoreList(posts, q);
    RankAllWhenFew(posts, scores, k, p);
    var r := Rank(posts, scores, k);
    var i :| 0 <= i < |r| && r[i].pos == p;
    RankEntries(posts, scores, k, r);
    var top := PickTop(posts, q, k);
    assert top[i] == r[i].post;
  }
}
